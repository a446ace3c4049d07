/** The slice of the GLES state that draw-call mesh extraction reads.
    Integer widths follow the GL types; enum values are those of the
    Khronos OpenGL ES headers. */
module GlesState {

  newtype uint32 = x: int | 0 <= x < 0x1_0000_0000
  newtype byte = x: int | 0 <= x < 0x100

  type GLenum = uint32
  type GLboolean = byte

  const GL_FALSE: GLboolean := 0

  // Primitive modes.
  const GL_POINTS: GLenum := 0x0000
  const GL_LINES: GLenum := 0x0001
  const GL_LINE_LOOP: GLenum := 0x0002
  const GL_LINE_STRIP: GLenum := 0x0003
  const GL_TRIANGLES: GLenum := 0x0004
  const GL_TRIANGLE_STRIP: GLenum := 0x0005
  const GL_TRIANGLE_FAN: GLenum := 0x0006

  // Vertex attribute component types.
  const GL_BYTE: GLenum := 0x1400
  const GL_UNSIGNED_BYTE: GLenum := 0x1401
  const GL_SHORT: GLenum := 0x1402
  const GL_UNSIGNED_SHORT: GLenum := 0x1403
  const GL_INT: GLenum := 0x1404
  const GL_UNSIGNED_INT: GLenum := 0x1405
  const GL_FLOAT: GLenum := 0x1406
  const GL_HALF_FLOAT: GLenum := 0x140B
  const GL_FIXED: GLenum := 0x140C
  const GL_HALF_FLOAT_OES: GLenum := 0x8D61
  const GL_INT_2_10_10_10_REV: GLenum := 0x8D9F
  const GL_UNSIGNED_INT_2_10_10_10_REV: GLenum := 0x8368

  /** One generic vertex attribute array of a vertex array object.
      `stride`, `relativeOffset` and `binding` are never negative in a
      GL state (the GL rejects negative strides). */
  datatype VertexAttributeArray = VertexAttributeArray(
    enabled: GLboolean,
    size: int,
    vertexType: GLenum,
    normalized: GLboolean,
    stride: nat,
    relativeOffset: nat,
    binding: nat,
    pointer: nat)

  /** A vertex buffer binding point: the buffer (0 = client memory),
      the byte offset into it and the instancing divisor. */
  datatype VertexBufferBinding = VertexBufferBinding(buffer: nat, offset: nat, divisor: nat)

  datatype VertexArray = VertexArray(
    attributeArrays: map<nat, VertexAttributeArray>,
    bufferBindings: map<nat, VertexBufferBinding>)

  datatype ActiveAttribute = ActiveAttribute(name: string, location: nat)

  datatype Program = Program(activeAttributes: seq<ActiveAttribute>)

  /** The resolved GLES context after the draw command. */
  datatype Context = Context(
    programs: map<nat, Program>,
    boundProgram: nat,
    vertexArrays: map<nat, VertexArray>,
    boundVertexArray: nat)

  /** Where an attribute's bytes live: client memory at the attribute's
      pointer, or the data store of a buffer object. */
  datatype MemorySource = ClientMemory(pointer: nat) | BufferObject(buffer: nat)

  /** A capture-memory read: the bytes of a source in [lo, hi). */
  type MemoryReader = (MemorySource, nat, nat) -> seq<byte>

  /** The reader returns exactly the bytes asked for. */
  ghost predicate ReadsExactly(read: MemoryReader)
  {
    forall src, lo: nat, hi: nat | lo <= hi :: |read(src, lo, hi)| == hi - lo
  }
}
