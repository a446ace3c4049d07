# GLES draw-call mesh extraction, in Dafny

This project models how the GLES back end of the graphics API server turns
a draw call into a mesh (`gapis/gfxapi/gles/draw_call_mesh.go`):

- the translation of a GL primitive mode to a draw primitive;
- the translation of a vertex attribute array's type, size and normalized
  flag to a stream format;
- the vertex count derived from the draw call's indices, and the early exits
  of `drawCallMesh`;
- the extraction of one attribute's vertex data. This covers the stride and
  gap arithmetic, the byte range to read, and the in-place removal of the
  gaps between strided vectors.

Layout:

- `results.dfy`: `Option` and `Result`.
- `gles_state.dfy`: GL enums, the GLES state that is read, and the memory
  reader.
- `mesh_types.dfy`: draw primitives, stream formats, streams, meshes and the
  errors mesh extraction reports.
- `draw_primitive.dfy`: `translateDrawPrimitive`.
- `vertex_format.dfy`: `translateVertexFormat`.
- `vertex_stream.dfy`: `vertexStreamData`.
- `draw_call_mesh.dfy`: `drawCallMesh`.

The pure switch mappings are functions. `vertexStreamData` is a method: it
allocates the buffer that was read and compacts it in place with a loop
over an `array`. `drawCallMesh` is a method whose two loops, the count loop
and the stream-appending loop, are written as the helper methods
`CountVertices` and `AppendStreams`. Each method is proved equal to a
specification function (`StreamData`, `VertexCount`, `BuildStreams`,
`DrawCallMeshResult`). Lemmas state what those functions promise.

Things outside this file become inputs:

- whether the command at the mesh path was found;
- the resolved context (or the error resolving it);
- the decoded indices and primitive mode (or the decoding error);
- the byte size of each GL type (`DataTypeSize`, which is not part of this
  model);
- a memory reader standing for the capture-memory slice-and-read. It must
  return exactly the bytes asked for.

GL enum values are those of the Khronos OpenGL ES headers.

## Model

| member | source | states |
|---|---|---|
| `DrawPrimitives.TranslateDrawPrimitive` | gapis/gfxapi/gles/draw_call_mesh.go:169-188 | Succeeds exactly for the seven modes POINTS, LINES, LINE_STRIP, LINE_LOOP, TRIANGLES, TRIANGLE_STRIP and TRIANGLE_FAN. On success the result is the draw primitive of the same name, because `GlMode` of the result gives back the input mode. Every other mode yields an InvalidDrawMode error carrying that mode. |
| `DrawPrimitives.TranslateGlMode` | gapis/gfxapi/gles/draw_call_mesh.go:169-188 | Every draw primitive is the translation of the GL mode of its own name, so the mapping is a bijection onto the seven modes. |
| `VertexFormats.ScalarDataType` | gapis/gfxapi/gles/draw_call_mesh.go:198-220 | The scalar table is defined exactly on the ten scalar GL types. Each type maps to the data type whose canonical GL type it is. The one exception is HALF_FLOAT_OES, which maps to F16 just as HALF_FLOAT does. |
| `VertexFormats.ScalarDataTypeOfGlScalarType` | gapis/gfxapi/gles/draw_call_mesh.go:198-217 | Every stream data type is reached from its canonical GL type. |
| `VertexFormats.TranslateVertexFormat` | gapis/gfxapi/gles/draw_call_mesh.go:190-245 | The two packed REV types give the fixed formats XYZW_S10S10S10S2 and XYZW_U10U10U10U2, whatever the size and normalized flag. A type that is neither packed nor scalar is an UnsupportedVertexType error. A scalar type gives exactly `size` components that all share the type's data type. Component i sits on channel X, Y, Z, W[i]. Sampling is LinearNormalized exactly when the normalized flag is non-zero. Translation succeeds exactly for the packed and scalar types. A size above 4, which would index past the channel list, is excluded by the precondition. |
| `VertexStreams.StreamLayout` | gapis/gfxapi/gles/draw_call_mesh.go:145-155 | The gap is the stride minus the vector size. A zero stride means the vectors are tightly packed, so there is no gap. A positive gap only arises from an explicit stride longer than a vector. The read range starts at the attribute's relative offset plus the binding's offset. |
| `VertexStreams.ReadRangeCoversVectors` | gapis/gfxapi/gles/draw_call_mesh.go:145-155 | The vector size is size × type size. A zero stride means the stride is the vector size. The gap is the stride minus the vector size. The read range starts at relative offset + binding offset. Its length vectorSize·n + gap·(n−1) equals stride·(n−1) + vectorSize, so it holds every one of the n vectors. |
| `VertexStreams.Packed` | gapis/gfxapi/gles/draw_call_mesh.go:158-163 | The first n vectors laid end to end are exactly n × vectorSize bytes long. |
| `VertexStreams.PackedVector` | gapis/gfxapi/gles/draw_call_mesh.go:158-163 | Vector v of the packed bytes equals the input bytes [v·stride, v·stride + vectorSize). |
| `VertexStreams.StreamData` | gapis/gfxapi/gles/draw_call_mesh.go:141-143 | The stream data is an error exactly when the binding's divisor is non-zero, and that error is "instanced draw calls not supported". |
| `VertexStreams.StreamDataPacksVectors` | gapis/gfxapi/gles/draw_call_mesh.go:145-166 | With a zero divisor, the bytes read have the range's length. When the gap is positive, the output is vectorSize × n bytes and output vector i equals the input bytes starting at i·stride. When the gap is not positive, the bytes are returned unchanged. |
| `VertexStreams.OverlappingVectorsKeepReadLength` | gapis/gfxapi/gles/draw_call_mesh.go:151-166 | With a negative gap (stride shorter than a vector) and two or more vectors, the stream is the read range as is, which is shorter than n whole vectors. |
| `VertexStreams.PackedExtend` | gapis/gfxapi/gles/draw_call_mesh.go:160-162 | One iteration of the compaction loop extends the packed prefix by vector i. The bytes after the new prefix are still those read. |
| `VertexStreams.CopyWithin` | gapis/gfxapi/gles/draw_call_mesh.go:161 | The in-buffer copy, when the source does not precede the destination, puts the source bytes at the destination and leaves everything else unchanged. The front-to-back copy never overwrites a byte it still has to read. |
| `VertexStreams.RemoveGaps` | gapis/gfxapi/gles/draw_call_mesh.go:158-163 | After the in-place loop over vectors 1 to n−1, the first n × vectorSize bytes of the buffer are the packed vectors of the original contents. |
| `VertexStreams.VertexStreamData` | gapis/gfxapi/gles/draw_call_mesh.go:133-167 | The method (divisor check, range read, in-place compaction, truncation) returns exactly `StreamData`. |
| `DrawCallMeshes.VertexCount` | gapis/gfxapi/gles/draw_call_mesh.go:61-67 | The count is 0 exactly for an empty index list. Every index is strictly below the count, and the count minus one is one of the indices, so the count is max(index) + 1. |
| `DrawCallMeshes.CountVertices` | gapis/gfxapi/gles/draw_call_mesh.go:61-67 | The count loop computes `VertexCount`. |
| `DrawCallMeshes.EnabledAttributes` | gapis/gfxapi/gles/draw_call_mesh.go:80-84 | The filtered attributes are all enabled, and each can still be resolved. Every attribute whose array is enabled is kept. |
| `DrawCallMeshes.EnabledPositions` | gapis/gfxapi/gles/draw_call_mesh.go:80-84 | The positions of the enabled attributes are strictly increasing and in range. A position is listed exactly when the attribute there is enabled. |
| `DrawCallMeshes.EnabledAttributesInOrder` | gapis/gfxapi/gles/draw_call_mesh.go:80-84 | The enabled attributes are exactly the attributes at the enabled positions, taken in increasing order. So they keep the program's `ActiveAttributes` order, and none is dropped or repeated. |
| `DrawCallMeshes.Source` | gapis/gfxapi/gles/draw_call_mesh.go:92-98 | An attribute reads client memory exactly when its binding names buffer 0, and then it reads at the attribute's pointer. Otherwise it reads the data of the bound buffer. |
| `DrawCallMeshes.AttributeStream` | gapis/gfxapi/gles/draw_call_mesh.go:80-111 | An attribute yields no stream exactly when its array is disabled. It fails exactly when its array is enabled and either its type has no stream format or its binding has a non-zero divisor. The first case gives the unsupported-vertex-type error and the second the instanced-draw error. A stream it yields is named after the attribute and carries the attribute's translated format. Its bytes are `StreamData` of the attribute's array and binding, read from the attribute's `Source`. |
| `DrawCallMeshes.BuildStreams` | gapis/gfxapi/gles/draw_call_mesh.go:80-112 | Building the streams fails exactly when some attribute's stream fails. The error is that of the first failing attribute, since every attribute before it succeeds. The only possible errors are an unsupported vertex type and an instanced binding. |
| `DrawCallMeshes.StreamsFollowEnabledAttributes` | gapis/gfxapi/gles/draw_call_mesh.go:80-112 | When building succeeds, there is one stream per enabled attribute, in `ActiveAttributes` order. Stream k is named after enabled attribute k and is that attribute's stream. |
| `DrawCallMeshes.AppendStreams` | gapis/gfxapi/gles/draw_call_mesh.go:78-112 | The appending loop, which stops at the first error, computes `BuildStreams`. |
| `DrawCallMeshes.DrawCallMeshResult` | gapis/gfxapi/gles/draw_call_mesh.go:33-131 | An invalid draw mode is never reported as an error: it yields no mesh. A mesh is built only when the command is found, the state and indices are available, and the indices are non-empty. |
| `DrawCallMeshes.DrawCallMeshOutcomes` | gapis/gfxapi/gles/draw_call_mesh.go:33-131 | The result is "no mesh, no error" exactly when the command is missing or the primitive mode cannot be translated. It is an upstream error exactly when the command is found but the state or the indices cannot be had. That error is the state's own error when the state fails, and otherwise the index decoding's error. It is "mesh has no vertices" exactly when the indices are empty, with every earlier step succeeding. It is "no program bound" exactly when the indices are non-empty and the bound program is missing. It is an attribute error exactly when building the streams of the bound program's active attributes fails. That error is the one `BuildStreams` returns, which is the first failing attribute's error. A built mesh keeps the indices and the translated primitive, and every index is below the vertex count. Its streams are exactly `BuildStreams` of the bound program's active attributes. |
| `DrawCallMeshes.DrawCallMesh` | gapis/gfxapi/gles/draw_call_mesh.go:33-131 | The method's early exits, count and stream loop return exactly `DrawCallMeshResult`. |

## Left out

- `test/robot/monitor/monitor.go`, `cmd/robot/report.go` and `test/robot/web/www/components/gapid-satellites.js` are not part of this model. They are mutex and condition-variable coordination, CLI/gRPC plumbing and a UI poller, with no sequential logic to state.
- Command lookup, state resolution, `GetContext` and index decoding are inputs (`commandFound`, `state`, `indexed`). Their errors pass through as `Upstream`.
- Capture-memory slicing and reading is an input reader that returns exactly the requested bytes. The 1<<30 upper bound of the client-memory slice is not modelled.
- `DataTypeSize` is an input function (`typeSize`).
- Vertex semantics (`vertex.Semantic`, `guessSemantics`) are not modelled: streams carry no semantic.
- Faceting (`p.Options.Faceted`, `mesh.Faceted`) is not modelled: the model returns the mesh that would be faceted.
- Logging (`ctx.Warning`, `jot.Fail`) has no observable effect on the result and is left out.
- The `fmts` package is not part of this model. Its two packed formats are opaque constructors.
- `VertexStreamData`: the uint64 wrap-around of `base` and of the range end is not modelled, and neither is the 64-bit overflow of `vectorSize*vectorCount`. Offsets and sizes in a capture are far below 2^63.
- `VertexStreamData` requires `vectorCount >= 1`. Its only caller passes a count it has just checked is non-zero.
- `CopyWithin`: Go's `copy` is a memmove. It is modelled as a front-to-back byte copy, which agrees with memmove here because the source never precedes the destination.
- Lookups that dereference nil in the source and so panic become preconditions (`WellFormed`): a missing bound vertex array or attribute array. The same applies to a missing buffer binding for an enabled attribute whose type has a stream format. For a type without a format, the source reports the unsupported type before it uses the binding, so no binding is required there. The panics of a scalar type with a size outside 0..4 and of a packed type with a negative size are preconditions too. These lookups happen only once the draw call reaches the attribute loop, so `WellFormed` is required only then (`ReachesStreams`). Every earlier exit is modelled on any state.
- `BuildStreams` and `DrawCallMeshResult`: once the attribute loop is reached, the model requires every active attribute of the bound program to resolve. The source only looks up attributes up to the first one that fails. A state whose unresolvable attribute comes after a failing one returns that earlier error in the source, but lies outside the model's precondition.
- The model takes the bound program's `ActiveAttributes` to be a sequence iterated in a fixed order. Its Go type is not declared in `draw_call_mesh.go`. If it is a map whose `range` order varies, "in `ActiveAttributes` order" and "the first failing attribute" describe one such order.
- `AppendStreams` looks up the buffer binding after translating the format, whereas the source looks it up just before. The source's lookup of a missing binding yields nil without failing. So the order changes no outcome.
- A binding that names a buffer missing from the state is not modelled. The reader is total.
