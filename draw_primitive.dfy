/** Translation of a GL primitive mode to a mesh draw primitive. */
module DrawPrimitives {
  import opened Results
  import opened GlesState
  import opened MeshTypes

  /** The seven GL modes that have a draw primitive of the same name. */
  const DrawModes: set<GLenum> :=
    {GL_POINTS, GL_LINES, GL_LINE_STRIP, GL_LINE_LOOP, GL_TRIANGLES, GL_TRIANGLE_STRIP, GL_TRIANGLE_FAN}

  /** The GL mode each draw primitive is named after. */
  function GlMode(p: DrawPrimitive): (e: GLenum)
    ensures e in DrawModes
  {
    match p
    case Points => GL_POINTS
    case Lines => GL_LINES
    case LineStrip => GL_LINE_STRIP
    case LineLoop => GL_LINE_LOOP
    case Triangles => GL_TRIANGLES
    case TriangleStrip => GL_TRIANGLE_STRIP
    case TriangleFan => GL_TRIANGLE_FAN
  }

  /** Maps a GL mode to its draw primitive; any other mode (for example an
      extension mode such as quads) is an invalid draw mode. */
  function TranslateDrawPrimitive(e: GLenum): (r: Result<DrawPrimitive, MeshError>)
    ensures r.Ok? <==> e in DrawModes
    ensures r.Ok? ==> GlMode(r.value) == e
    ensures r.Err? ==> r.error == InvalidDrawMode(e)
  {
    if e == GL_POINTS then Ok(Points)
    else if e == GL_LINES then Ok(Lines)
    else if e == GL_LINE_STRIP then Ok(LineStrip)
    else if e == GL_LINE_LOOP then Ok(LineLoop)
    else if e == GL_TRIANGLES then Ok(Triangles)
    else if e == GL_TRIANGLE_STRIP then Ok(TriangleStrip)
    else if e == GL_TRIANGLE_FAN then Ok(TriangleFan)
    else Err(InvalidDrawMode(e))
  }

  /** Every draw primitive is reached from the GL mode of its name, so the
      translation is a bijection between DrawModes and DrawPrimitive. */
  lemma TranslateGlMode(p: DrawPrimitive)
    ensures TranslateDrawPrimitive(GlMode(p)) == Ok(p)
  {
  }
}
