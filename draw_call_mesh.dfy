/** Building the mesh of a GLES draw call: the early exits, the vertex
    count derived from the indices, and one vertex stream per enabled
    active attribute of the bound program. */
module DrawCallMeshes {
  import opened Results
  import opened GlesState
  import opened MeshTypes
  import opened DrawPrimitives
  import opened VertexFormats
  import opened VertexStreams

  /** What decoding the draw call's indices yields: the index list and the
      GL primitive mode. */
  datatype IndexedDraw = IndexedDraw(indices: seq<uint32>, mode: GLenum)

  /** The number of vertices the indices address: one more than the largest
      index, and 0 when there are no indices. */
  function VertexCount(indices: seq<uint32>): (n: nat)
    ensures forall k | 0 <= k < |indices| :: indices[k] as int < n
    ensures n == 0 <==> indices == []
    ensures indices != [] ==> exists k | 0 <= k < |indices| :: indices[k] as int == n - 1
    decreases |indices|
  {
    if indices == [] then 0
    else
      var before := VertexCount(indices[..|indices| - 1]);
      var last := indices[|indices| - 1] as int;
      if before <= last then last + 1 else before
  }

  /** The attribute array an active attribute reads from. */
  function AttributeArray(c: Context, a: ActiveAttribute): VertexAttributeArray
    requires c.boundVertexArray in c.vertexArrays
    requires a.location in c.vertexArrays[c.boundVertexArray].attributeArrays
  {
    c.vertexArrays[c.boundVertexArray].attributeArrays[a.location]
  }

  /** The state lookups made for an active attribute find what they look
      for: the bound vertex array and the attribute's array, and, once an
      enabled array's format has been translated, its buffer binding (an
      unsupported type is reported before the binding is used). An enabled
      array's size is one its type supports. */
  predicate AttributeResolvable(c: Context, a: ActiveAttribute)
  {
    && c.boundVertexArray in c.vertexArrays
    && var va := c.vertexArrays[c.boundVertexArray];
       && a.location in va.attributeArrays
       && var vaa := va.attributeArrays[a.location];
          vaa.enabled != GL_FALSE ==>
            && SizeSupported(vaa)
            && (HasStreamFormat(vaa.vertexType) ==> vaa.binding in va.bufferBindings && vaa.size >= 0)
  }

  /** The buffer binding an attribute's array reads through. */
  function Binding(c: Context, a: ActiveAttribute): VertexBufferBinding
    requires c.boundVertexArray in c.vertexArrays
    requires a.location in c.vertexArrays[c.boundVertexArray].attributeArrays
    requires AttributeArray(c, a).binding in c.vertexArrays[c.boundVertexArray].bufferBindings
  {
    c.vertexArrays[c.boundVertexArray].bufferBindings[AttributeArray(c, a).binding]
  }

  /** An attribute's array is enabled and its type has no stream format. */
  predicate UnsupportedType(c: Context, a: ActiveAttribute)
    requires c.boundVertexArray in c.vertexArrays
    requires a.location in c.vertexArrays[c.boundVertexArray].attributeArrays
  {
    AttributeArray(c, a).enabled != GL_FALSE && !HasStreamFormat(AttributeArray(c, a).vertexType)
  }

  predicate AllResolvable(c: Context, attrs: seq<ActiveAttribute>)
  {
    forall k | 0 <= k < |attrs| :: AttributeResolvable(c, attrs[k])
  }

  /** Every active attribute of the bound program, if one is bound, can be
      resolved. */
  predicate WellFormed(c: Context)
  {
    c.boundProgram in c.programs ==> AllResolvable(c, c.programs[c.boundProgram].activeAttributes)
  }

  /** Where an attribute's bytes are read from: client memory at the
      attribute's pointer when no buffer is bound, else the buffer's data. */
  function Source(vaa: VertexAttributeArray, vbb: VertexBufferBinding): (src: MemorySource)
    ensures src.ClientMemory? <==> vbb.buffer == 0
    ensures src.ClientMemory? ==> src.pointer == vaa.pointer
    ensures src.BufferObject? ==> src.buffer == vbb.buffer
  {
    if vbb.buffer == 0 then ClientMemory(vaa.pointer) else BufferObject(vbb.buffer)
  }

  /** The stream of one active attribute: none when its array is disabled,
      else its format and its bytes, or the first error met. */
  function AttributeStream(c: Context, a: ActiveAttribute, count: nat, typeSize: GLenum -> nat, read: MemoryReader)
    : (r: Result<Option<Stream>, MeshError>)
    requires ReadsExactly(read) && count >= 1 && AttributeResolvable(c, a)
    ensures r == Ok(None) <==> AttributeArray(c, a).enabled == GL_FALSE
    ensures r.Err? && UnsupportedType(c, a) ==> r.error == UnsupportedVertexType(AttributeArray(c, a).vertexType)
    ensures r.Err? <==> UnsupportedType(c, a) || (AttributeArray(c, a).enabled != GL_FALSE && Binding(c, a).divisor != 0)
    ensures r.Err? && !UnsupportedType(c, a) ==> r.error == InstancedDrawUnsupported
    ensures r.Ok? && r.value.Some? ==>
              var vaa, vbb := AttributeArray(c, a), Binding(c, a);
              && r.value.value.name == a.name
              && TranslateVertexFormat(vaa) == Ok(r.value.value.format)
              && StreamData(vaa, vbb, count, typeSize(vaa.vertexType), Source(vaa, vbb), read) == Ok(r.value.value.data)
  {
    var va := c.vertexArrays[c.boundVertexArray];
    var vaa := va.attributeArrays[a.location];
    if vaa.enabled == GL_FALSE then Ok(None)
    else
      match TranslateVertexFormat(vaa)
      case Err(e) => Err(e)
      case Ok(format) =>
        var vbb := va.bufferBindings[vaa.binding];
        match StreamData(vaa, vbb, count, typeSize(vaa.vertexType), Source(vaa, vbb), read)
        case Err(e) => Err(e)
        case Ok(data) => Ok(Some(Stream(a.name, data, format)))
  }

  /** `prefix` followed by the streams of r, or r's error. */
  function Prefixed(prefix: seq<Stream>, r: Result<seq<Stream>, MeshError>): Result<seq<Stream>, MeshError>
  {
    match r
    case Err(e) => Err(e)
    case Ok(rest) => Ok(prefix + rest)
  }

  lemma PrefixedNil(r: Result<seq<Stream>, MeshError>)
    ensures Prefixed([], r) == r
  {
    if r.Ok? {
      assert [] + r.value == r.value;
    }
  }

  lemma PrefixedAppend(a: seq<Stream>, b: seq<Stream>, r: Result<seq<Stream>, MeshError>)
    ensures Prefixed(a, Prefixed(b, r)) == Prefixed(a + b, r)
  {
    if r.Ok? {
      assert a + (b + r.value) == (a + b) + r.value;
    }
  }

  /** The streams of the attributes in order, or the first error met. */
  function BuildStreams(c: Context, attrs: seq<ActiveAttribute>, count: nat, typeSize: GLenum -> nat, read: MemoryReader)
    : (r: Result<seq<Stream>, MeshError>)
    requires ReadsExactly(read) && count >= 1
    requires AllResolvable(c, attrs)
    ensures r.Err? ==> r.error.UnsupportedVertexType? || r.error == InstancedDrawUnsupported
    ensures r.Err? <==> exists k | 0 <= k < |attrs| :: AttributeStream(c, attrs[k], count, typeSize, read).Err?
    ensures r.Err? ==>
              exists k | 0 <= k < |attrs| ::
                && AttributeStream(c, attrs[k], count, typeSize, read) == Err(r.error)
                && forall j | 0 <= j < k :: AttributeStream(c, attrs[j], count, typeSize, read).Ok?
    decreases |attrs|
  {
    if attrs == [] then Ok([])
    else
      match AttributeStream(c, attrs[0], count, typeSize, read)
      case Err(e) => Err(e)
      case Ok(s) =>
        Prefixed(if s.Some? then [s.value] else [], BuildStreams(c, attrs[1..], count, typeSize, read))
  }

  /** The attributes whose arrays are enabled, in order. */
  function EnabledAttributes(c: Context, attrs: seq<ActiveAttribute>): (en: seq<ActiveAttribute>)
    requires AllResolvable(c, attrs)
    ensures AllResolvable(c, en)
    ensures forall k | 0 <= k < |en| :: AttributeArray(c, en[k]).enabled != GL_FALSE
    ensures forall k | 0 <= k < |attrs| && AttributeArray(c, attrs[k]).enabled != GL_FALSE :: attrs[k] in en
    decreases |attrs|
  {
    if attrs == [] then []
    else if AttributeArray(c, attrs[0]).enabled == GL_FALSE then EnabledAttributes(c, attrs[1..])
    else [attrs[0]] + EnabledAttributes(c, attrs[1..])
  }

  /** The positions, from `from` on, of the attributes whose arrays are
      enabled, in increasing order. */
  function EnabledPositions(c: Context, attrs: seq<ActiveAttribute>, from: nat): (p: seq<nat>)
    requires AllResolvable(c, attrs) && from <= |attrs|
    ensures forall j | 0 <= j < |p| :: from <= p[j] < |attrs|
    ensures forall i, j | 0 <= i < j < |p| :: p[i] < p[j]
    ensures forall k | from <= k < |attrs| :: k in p <==> AttributeArray(c, attrs[k]).enabled != GL_FALSE
    decreases |attrs| - from
  {
    if from == |attrs| then []
    else if AttributeArray(c, attrs[from]).enabled == GL_FALSE then EnabledPositions(c, attrs, from + 1)
    else [from] + EnabledPositions(c, attrs, from + 1)
  }

  /** The enabled attributes are the attributes at the enabled positions,
      so they keep the order of `attrs` and none is dropped or repeated. */
  lemma {:induction false} EnabledAttributesInOrder(c: Context, attrs: seq<ActiveAttribute>, from: nat)
    requires AllResolvable(c, attrs) && from <= |attrs|
    ensures AllResolvable(c, attrs[from..])
    ensures var en, p := EnabledAttributes(c, attrs[from..]), EnabledPositions(c, attrs, from);
      |en| == |p| && forall j | 0 <= j < |p| :: en[j] == attrs[p[j]]
    decreases |attrs| - from
  {
    assert AllResolvable(c, attrs[from..]) by {
      forall k | 0 <= k < |attrs[from..]| ensures AttributeResolvable(c, attrs[from..][k]) {
        assert attrs[from..][k] == attrs[from + k];
      }
    }
    if from < |attrs| {
      EnabledAttributesInOrder(c, attrs, from + 1);
      var en, p := EnabledAttributes(c, attrs[from..]), EnabledPositions(c, attrs, from);
      var en', p' := EnabledAttributes(c, attrs[from + 1..]), EnabledPositions(c, attrs, from + 1);
      assert attrs[from..][1..] == attrs[from + 1..] && attrs[from..][0] == attrs[from];
      if AttributeArray(c, attrs[from]).enabled == GL_FALSE {
        assert en == en' && p == p';
      } else {
        assert en == [attrs[from]] + en' && p == [from] + p';
        ConsPicks(attrs, from, en', p');
      }
    }
  }

  /** Picking position `from` ahead of picks at positions p' gives the
      picks at [from] + p'. */
  lemma ConsPicks(attrs: seq<ActiveAttribute>, from: nat, en': seq<ActiveAttribute>, p': seq<nat>)
    requires from < |attrs| && |en'| == |p'|
    requires forall j | 0 <= j < |p'| :: p'[j] < |attrs| && en'[j] == attrs[p'[j]]
    ensures var en, p := [attrs[from]] + en', [from] + p';
      |en| == |p| && forall j | 0 <= j < |p| :: en[j] == attrs[p[j]]
  {
    var en, p := [attrs[from]] + en', [from] + p';
    forall j | 1 <= j < |p| ensures en[j] == attrs[p[j]] {
      assert en[j] == en'[j - 1] && p[j] == p'[j - 1];
    }
  }

  /** Only enabled attributes produce streams, one each, in the order of
      the program's active attributes, each named after its attribute. */
  lemma {:induction false} StreamsFollowEnabledAttributes(
    c: Context, attrs: seq<ActiveAttribute>, count: nat, typeSize: GLenum -> nat, read: MemoryReader)
    requires ReadsExactly(read) && count >= 1
    requires AllResolvable(c, attrs)
    requires BuildStreams(c, attrs, count, typeSize, read).Ok?
    ensures var ss := BuildStreams(c, attrs, count, typeSize, read).value;
      var en := EnabledAttributes(c, attrs);
      && |ss| == |en|
      && forall k | 0 <= k < |ss| ::
           && ss[k].name == en[k].name
           && AttributeStream(c, en[k], count, typeSize, read) == Ok(Some(ss[k]))
  {
    if attrs != [] {
      var a, rest := attrs[0], attrs[1..];
      assert AllResolvable(c, rest) by {
        forall k | 0 <= k < |rest| ensures AttributeResolvable(c, rest[k]) {
          assert rest[k] == attrs[k + 1];
        }
      }
      var s := AttributeStream(c, a, count, typeSize, read);
      var tail := BuildStreams(c, rest, count, typeSize, read);
      assert s.Ok? && tail.Ok?;
      StreamsFollowEnabledAttributes(c, rest, count, typeSize, read);
      var ss := BuildStreams(c, attrs, count, typeSize, read).value;
      var en := EnabledAttributes(c, attrs);
      if AttributeArray(c, a).enabled == GL_FALSE {
        assert en == EnabledAttributes(c, rest);
        assert ss == tail.value;
      } else {
        assert en == [a] + EnabledAttributes(c, rest);
        assert ss == [s.value.value] + tail.value;
        var R := (x: ActiveAttribute, y: Stream) =>
          AttributeResolvable(c, x) && y.name == x.name && AttributeStream(c, x, count, typeSize, read) == Ok(Some(y));
        ConsRelated(R, a, s.value.value, EnabledAttributes(c, rest), tail.value);
      }
    }
  }

  /** Related heads put ahead of pairwise related sequences keep the
      sequences pairwise related. */
  lemma ConsRelated<A, B>(R: (A, B) -> bool, x: A, y: B, xs: seq<A>, ys: seq<B>)
    requires |xs| == |ys| && R(x, y)
    requires forall k | 0 <= k < |xs| :: R(xs[k], ys[k])
    ensures forall k | 0 <= k < |xs| + 1 :: R(([x] + xs)[k], ([y] + ys)[k])
  {
    forall k | 1 <= k < |xs| + 1 ensures R(([x] + xs)[k], ([y] + ys)[k]) {
      assert ([x] + xs)[k] == xs[k - 1] && ([y] + ys)[k] == ys[k - 1];
    }
  }

  /** The draw call gets as far as looking up the bound program and its
      attributes: the command is found, the state and the indices are
      available, the primitive mode translates and there are indices. */
  predicate ReachesStreams(commandFound: bool, state: Result<Context, string>, indexed: Result<IndexedDraw, string>)
  {
    && commandFound && state.Ok? && indexed.Ok?
    && TranslateDrawPrimitive(indexed.value.mode).Ok? && indexed.value.indices != []
  }

  /** The mesh of a draw call, before any faceting: no mesh when the
      command is not found or its primitive mode has no draw primitive,
      the upstream error when the state or the indices cannot be had, and
      otherwise the mesh, or the first error met building it. */
  function DrawCallMeshResult(
    commandFound: bool, state: Result<Context, string>, indexed: Result<IndexedDraw, string>,
    typeSize: GLenum -> nat, read: MemoryReader): (r: Result<Option<Mesh>, MeshError>)
    requires ReadsExactly(read)
    requires ReachesStreams(commandFound, state, indexed) ==> WellFormed(state.value)
    ensures r.Err? ==> !r.error.InvalidDrawMode?
    ensures r.Ok? && r.value.Some? ==> commandFound && state.Ok? && indexed.Ok? && indexed.value.indices != []
  {
    if !commandFound then Ok(None)
    else if state.Err? then Err(Upstream(state.error))
    else if indexed.Err? then Err(Upstream(indexed.error))
    else
      var c := state.value;
      match TranslateDrawPrimitive(indexed.value.mode)
      case Err(_) => Ok(None)
      case Ok(primitive) =>
        var count := VertexCount(indexed.value.indices);
        if count == 0 then Err(MeshHasNoVertices)
        else if c.boundProgram !in c.programs then Err(NoProgramBound)
        else
          match BuildStreams(c, c.programs[c.boundProgram].activeAttributes, count, typeSize, read)
          case Err(e) => Err(e)
          case Ok(streams) => Ok(Some(Mesh(primitive, streams, indexed.value.indices)))
  }

  /** No mesh and no error exactly when the command is missing or the
      primitive mode is untranslatable; an upstream error exactly when the
      state or the indices cannot be had; "no vertices" exactly when the
      indices are empty; "no program bound" exactly when the bound program
      is missing; a stream error exactly when building the streams of the
      program's active attributes fails; and a built mesh keeps the indices
      and the translated primitive, has every index below the vertex count
      and carries the streams of the program's active attributes. */
  lemma DrawCallMeshOutcomes(
    commandFound: bool, state: Result<Context, string>, indexed: Result<IndexedDraw, string>,
    typeSize: GLenum -> nat, read: MemoryReader)
    requires ReadsExactly(read)
    requires ReachesStreams(commandFound, state, indexed) ==> WellFormed(state.value)
    ensures var r := DrawCallMeshResult(commandFound, state, indexed, typeSize, read);
      && (r == Ok(None) <==>
            !commandFound || (state.Ok? && indexed.Ok? && TranslateDrawPrimitive(indexed.value.mode).Err?))
      && (r.Err? && r.error.Upstream? <==> commandFound && (state.Err? || indexed.Err?))
      && (commandFound && state.Err? ==> r == Err(Upstream(state.error)))
      && (commandFound && state.Ok? && indexed.Err? ==> r == Err(Upstream(indexed.error)))
      && (r == Err(MeshHasNoVertices) <==>
            && commandFound && state.Ok? && indexed.Ok?
            && TranslateDrawPrimitive(indexed.value.mode).Ok? && indexed.value.indices == [])
      && (r == Err(NoProgramBound) <==>
            && commandFound && state.Ok? && indexed.Ok?
            && TranslateDrawPrimitive(indexed.value.mode).Ok? && indexed.value.indices != []
            && state.value.boundProgram !in state.value.programs)
      && (r.Err? && (r.error.UnsupportedVertexType? || r.error == InstancedDrawUnsupported) <==>
            && commandFound && state.Ok? && indexed.Ok?
            && TranslateDrawPrimitive(indexed.value.mode).Ok? && indexed.value.indices != []
            && state.value.boundProgram in state.value.programs
            && BuildStreams(state.value, state.value.programs[state.value.boundProgram].activeAttributes,
                            VertexCount(indexed.value.indices), typeSize, read).Err?)
      && (ReachesStreams(commandFound, state, indexed) && state.value.boundProgram in state.value.programs ==>
            var built := BuildStreams(state.value, state.value.programs[state.value.boundProgram].activeAttributes,
                                      VertexCount(indexed.value.indices), typeSize, read);
            built.Err? ==> r == Err(built.error))
      && (r.Ok? && r.value.Some? ==>
            && commandFound && state.Ok? && indexed.Ok?
            && r.value.value.indices == indexed.value.indices
            && TranslateDrawPrimitive(indexed.value.mode) == Ok(r.value.value.primitive)
            && (forall k | 0 <= k < |r.value.value.indices| ::
                  r.value.value.indices[k] as int < VertexCount(indexed.value.indices))
            && state.value.boundProgram in state.value.programs
            && BuildStreams(state.value, state.value.programs[state.value.boundProgram].activeAttributes,
                            VertexCount(indexed.value.indices), typeSize, read) == Ok(r.value.value.streams))
  {
  }

  /** The vertex-count loop: the count grows to one more than each index
      larger than any seen so far. */
  method CountVertices(indices: seq<uint32>) returns (count: nat)
    ensures count == VertexCount(indices)
  {
    count := 0;
    for k := 0 to |indices|
      invariant count == VertexCount(indices[..k])
    {
      var i := indices[k];
      if count <= i as int {
        count := i as int + 1;
      }
      assert indices[..k + 1][..k] == indices[..k];
    }
    assert indices[..|indices|] == indices;
  }

  /** The streams from attribute k on are attribute k's stream, if any,
      ahead of the streams after it, or the first error met. */
  lemma BuildStreamsStep(
    c: Context, attrs: seq<ActiveAttribute>, k: nat, count: nat, typeSize: GLenum -> nat, read: MemoryReader)
    requires ReadsExactly(read) && count >= 1
    requires AllResolvable(c, attrs) && k < |attrs|
    ensures AttributeResolvable(c, attrs[k]) && AllResolvable(c, attrs[k..]) && AllResolvable(c, attrs[k + 1..])
    ensures BuildStreams(c, attrs[k..], count, typeSize, read)
         == match AttributeStream(c, attrs[k], count, typeSize, read)
            case Err(e) => Err(e)
            case Ok(s) => Prefixed(if s.Some? then [s.value] else [], BuildStreams(c, attrs[k + 1..], count, typeSize, read))
  {
    assert attrs[k..][1..] == attrs[k + 1..];
    assert AllResolvable(c, attrs[k..]) by {
      forall j | 0 <= j < |attrs[k..]| ensures AttributeResolvable(c, attrs[k..][j]) {
        assert attrs[k..][j] == attrs[k + j];
      }
    }
  }

  /** The attribute loop: appends the stream of each enabled attribute, in
      order, and stops at the first error. */
  method AppendStreams(c: Context, attrs: seq<ActiveAttribute>, count: nat, typeSize: GLenum -> nat, read: MemoryReader)
    returns (r: Result<seq<Stream>, MeshError>)
    requires ReadsExactly(read) && count >= 1
    requires AllResolvable(c, attrs)
    ensures r == BuildStreams(c, attrs, count, typeSize, read)
  {
    var streams: seq<Stream> := [];
    assert attrs[0..] == attrs;
    PrefixedNil(BuildStreams(c, attrs, count, typeSize, read));
    for k := 0 to |attrs|
      invariant BuildStreams(c, attrs, count, typeSize, read)
             == Prefixed(streams, BuildStreams(c, attrs[k..], count, typeSize, read))
    {
      var attr := attrs[k];
      BuildStreamsStep(c, attrs, k, count, typeSize, read);
      ghost var rest := BuildStreams(c, attrs[k + 1..], count, typeSize, read);
      // The bound vertex array is looked up only when an attribute needs it.
      var va := c.vertexArrays[c.boundVertexArray];
      var vaa := va.attributeArrays[attr.location];
      if vaa.enabled == GL_FALSE {
        assert AttributeStream(c, attr, count, typeSize, read) == Ok(None);
        PrefixedAppend(streams, [], rest);
        assert streams + [] == streams;
        continue;
      }
      var format := TranslateVertexFormat(vaa);
      if format.Err? {
        return Err(format.error);
      }
      // The binding is looked up before the format in the source, where a
      // missing binding is nil and is first used here.
      var vbb := va.bufferBindings[vaa.binding];
      var data := VertexStreamData(vaa, vbb, count, typeSize(vaa.vertexType), Source(vaa, vbb), read);
      if data.Err? {
        return Err(data.error);
      }
      var stream := Stream(attr.name, data.value, format.value);
      assert AttributeStream(c, attr, count, typeSize, read) == Ok(Some(stream));
      PrefixedAppend(streams, [stream], rest);
      assert BuildStreams(c, attrs, count, typeSize, read) == Prefixed(streams + [stream], rest);
      streams := streams + [stream];
    }
    assert attrs[|attrs|..] == [];
    assert streams + [] == streams;
    return Ok(streams);
  }

  /** Builds the mesh of a draw call from the command lookup, the resolved
      state and the decoded indices. */
  method DrawCallMesh(
    commandFound: bool, state: Result<Context, string>, indexed: Result<IndexedDraw, string>,
    typeSize: GLenum -> nat, read: MemoryReader) returns (r: Result<Option<Mesh>, MeshError>)
    requires ReadsExactly(read)
    requires ReachesStreams(commandFound, state, indexed) ==> WellFormed(state.value)
    ensures r == DrawCallMeshResult(commandFound, state, indexed, typeSize, read)
  {
    if !commandFound {
      return Ok(None);
    }
    if state.Err? {
      return Err(Upstream(state.error));
    }
    var c := state.value;
    if indexed.Err? {
      return Err(Upstream(indexed.error));
    }
    var indices, glPrimitive := indexed.value.indices, indexed.value.mode;
    var drawPrimitive := TranslateDrawPrimitive(glPrimitive);
    if drawPrimitive.Err? {
      // Modes such as quads have no draw primitive: no mesh, no error.
      return Ok(None);
    }
    var count := CountVertices(indices);
    if count == 0 {
      return Err(MeshHasNoVertices);
    }
    if c.boundProgram !in c.programs {
      return Err(NoProgramBound);
    }
    var streams := AppendStreams(c, c.programs[c.boundProgram].activeAttributes, count, typeSize, read);
    if streams.Err? {
      return Err(streams.error);
    }
    return Ok(Some(Mesh(drawPrimitive.value, streams.value, indices)));
  }
}
