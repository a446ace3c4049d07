/** The API-independent mesh description that a draw call is translated to:
    draw primitives, stream formats, vertex streams and the mesh itself. */
module MeshTypes {
  import opened GlesState

  datatype DrawPrimitive =
    | Points
    | Lines
    | LineStrip
    | LineLoop
    | Triangles
    | TriangleStrip
    | TriangleFan

  /** Scalar component data types of a stream. */
  datatype DataType = S8 | U8 | S16 | U16 | S32 | U32 | F16 | F32 | S16_16

  datatype Sampling = Linear | LinearNormalized

  datatype Channel = X | Y | Z | W

  /** The channels in the order components are assigned to them. */
  const Xyzw: seq<Channel> := [X, Y, Z, W]

  datatype Component = Component(dataType: DataType, sampling: Sampling, channel: Channel)

  /** A stream format: one of the two fixed packed formats, or a list of
      components. */
  datatype Format =
    | XyzwS10S10S10S2
    | XyzwU10U10U10U2
    | Components(components: seq<Component>)

  datatype Stream = Stream(name: string, data: seq<byte>, format: Format)

  datatype Mesh = Mesh(primitive: DrawPrimitive, streams: seq<Stream>, indices: seq<uint32>)

  /** The errors draw-call mesh extraction can report. `Upstream` stands for
      an error passed through from state resolution or index decoding. */
  datatype MeshError =
    | InvalidDrawMode(mode: GLenum)
    | UnsupportedVertexType(vertexType: GLenum)
    | MeshHasNoVertices
    | NoProgramBound
    | InstancedDrawUnsupported
    | Upstream(reason: string)
}
