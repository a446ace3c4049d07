/** Translation of a vertex attribute array's type, size and normalized
    flag to a stream format. */
module VertexFormats {
  import opened Results
  import opened GlesState
  import opened MeshTypes

  /** The two packed types whose format ignores the attribute's size. */
  predicate IsPacked(t: GLenum)
  {
    t == GL_INT_2_10_10_10_REV || t == GL_UNSIGNED_INT_2_10_10_10_REV
  }

  /** The scalar GL types a vertex attribute may have. */
  const ScalarVertexTypes: set<GLenum> :=
    {GL_BYTE, GL_UNSIGNED_BYTE, GL_SHORT, GL_UNSIGNED_SHORT, GL_INT, GL_UNSIGNED_INT,
     GL_HALF_FLOAT, GL_HALF_FLOAT_OES, GL_FLOAT, GL_FIXED}

  /** The GL types that have a stream format: the packed and the scalar
      ones. */
  predicate HasStreamFormat(t: GLenum)
  {
    IsPacked(t) || t in ScalarVertexTypes
  }

  /** The canonical GL type of each stream data type. */
  function GlScalarType(dt: DataType): (t: GLenum)
    ensures t in ScalarVertexTypes && !IsPacked(t)
  {
    match dt
    case S8 => GL_BYTE
    case U8 => GL_UNSIGNED_BYTE
    case S16 => GL_SHORT
    case U16 => GL_UNSIGNED_SHORT
    case S32 => GL_INT
    case U32 => GL_UNSIGNED_INT
    case F16 => GL_HALF_FLOAT
    case F32 => GL_FLOAT
    case S16_16 => GL_FIXED
  }

  /** The stream data type of a scalar GL type; both half-float enums give F16. */
  function ScalarDataType(t: GLenum): (r: Option<DataType>)
    ensures r.Some? <==> t in ScalarVertexTypes
    ensures r.Some? ==> t == GlScalarType(r.value) || (r.value == F16 && t == GL_HALF_FLOAT_OES)
  {
    if t == GL_BYTE then Some(S8)
    else if t == GL_UNSIGNED_BYTE then Some(U8)
    else if t == GL_SHORT then Some(S16)
    else if t == GL_UNSIGNED_SHORT then Some(U16)
    else if t == GL_INT then Some(S32)
    else if t == GL_UNSIGNED_INT then Some(U32)
    else if t == GL_HALF_FLOAT || t == GL_HALF_FLOAT_OES then Some(F16)
    else if t == GL_FLOAT then Some(F32)
    else if t == GL_FIXED then Some(S16_16)
    else None
  }

  /** The scalar table inverts GlScalarType. */
  lemma ScalarDataTypeOfGlScalarType(dt: DataType)
    ensures ScalarDataType(GlScalarType(dt)) == Some(dt)
  {
  }

  /** A scalar-typed attribute needs a size in 0..4: a larger size indexes
      past the four channels and a negative one cannot size the component
      list. */
  predicate SizeSupported(vaa: VertexAttributeArray)
  {
    !IsPacked(vaa.vertexType) && vaa.vertexType in ScalarVertexTypes ==> 0 <= vaa.size <= 4
  }

  function SamplingOf(normalized: GLboolean): Sampling
  {
    if normalized != 0 then LinearNormalized else Linear
  }

  /** The stream format of a vertex attribute array. */
  function TranslateVertexFormat(vaa: VertexAttributeArray): (r: Result<Format, MeshError>)
    requires SizeSupported(vaa)
    ensures r.Ok? <==> HasStreamFormat(vaa.vertexType)
    ensures vaa.vertexType == GL_INT_2_10_10_10_REV ==> r == Ok(XyzwS10S10S10S2)
    ensures vaa.vertexType == GL_UNSIGNED_INT_2_10_10_10_REV ==> r == Ok(XyzwU10U10U10U2)
    ensures !IsPacked(vaa.vertexType) && vaa.vertexType !in ScalarVertexTypes ==>
              r == Err(UnsupportedVertexType(vaa.vertexType))
    ensures !IsPacked(vaa.vertexType) && vaa.vertexType in ScalarVertexTypes ==>
              r.Ok? && r.value.Components? && |r.value.components| == vaa.size &&
              forall i | 0 <= i < |r.value.components| ::
                r.value.components[i].dataType == ScalarDataType(vaa.vertexType).value &&
                r.value.components[i].channel == Xyzw[i] &&
                (r.value.components[i].sampling == LinearNormalized <==> vaa.normalized != 0)
  {
    if vaa.vertexType == GL_INT_2_10_10_10_REV then Ok(XyzwS10S10S10S2)
    else if vaa.vertexType == GL_UNSIGNED_INT_2_10_10_10_REV then Ok(XyzwU10U10U10U2)
    else match ScalarDataType(vaa.vertexType)
      case None => Err(UnsupportedVertexType(vaa.vertexType))
      case Some(dt) =>
        var sampling := SamplingOf(vaa.normalized);
        Ok(Components(seq(vaa.size, i requires 0 <= i < vaa.size => Component(dt, sampling, Xyzw[i]))))
  }
}
