# MergeMesh, modelled in Dafny

`MergeMesh<Head, Tail...>` joins an ordered list of meshes into one mesh.
The merged mesh exposes two lazy cursor streams. `Vertices` yields every
vertex of the head mesh unchanged and then every vertex of the merged tail.
`Triangles` yields every triangle of the head unchanged and then every
triangle of the merged tail. Each tail triangle has its three vertex indices
raised by the head's vertex count. That count is computed once, when the
stream is built, by draining a fresh vertex stream of the head. The recursion
ends at `MergeMesh<>`, an empty mesh whose streams are done from the start.

The model has two modules:

- `Meshes` (`mesh.dfy`) holds the values.
  - `Triangle` is a triple of `nat` indices.
  - `Mesh<V>` is a component: what its vertex stream and its triangle stream
    yield from a fresh start. Vertex records are an opaque type `V`.
  - `MergeMesh<V>` is `Empty | Merge(head, tail)`. It mirrors
    `MergeMesh<>` and `MergeMesh<Head, Tail...>`. The C++ constructor
    (`MergeMesh(head, tail...)`) is the datatype constructor `Merge`.
  - `Vertices()` and `Triangles()` are the sequences the two merged streams
    must yield. `MergeMeshOf` is the `mergeMesh` entry point.
  - The lemmas state counts, positions, index re-basing, the empty and
    one-component cases, and that nesting merges changes nothing.
- `Streams` (`streams.dfy`) holds the cursors, as classes.
  - `Cursor<T>` stands for a component's own stream.
  - `VertexStream<V>` and `TriangleStream<V>` own a head cursor and the
    merged stream of the tail. Both are `null` for `MergeMesh<>`.
  - A ghost `Elements`, `Position` and `Repr` tie each stream to the value
    model. `Valid()` says that the stream yields the head's elements and then
    the tail's, and that the tail stays at its start until the head is done.
  - The `vertices()` and `triangles()` accessors are the stream constructors.
    Each takes the `MergeMesh` value and builds the sub-streams recursively.

## Model

| member | source | states |
|---|---|---|
| `Meshes.ShiftAll` | include/generator/MergeMesh.hpp:37-39 | re-basing keeps the number and order of triangles and raises all three indices of each by the same offset (`Shifted`, the `triangle.vertices += head_VertexCount` of line 38) |
| `Meshes.ShiftAllTwice` | include/generator/MergeMesh.hpp:37-38 | a re-base by j applied inside a re-base by k equals one re-base by j + k, so the offsets added at each level of the recursion add up |
| `Meshes.MergeMeshOf` | include/generator/MergeMesh.hpp:125-128 | `mergeMesh` keeps its arguments, in argument order; merging no mesh yields no vertex and no triangle |
| `Meshes.VertexCount` | include/generator/MergeMesh.hpp:74-84 | the merged vertex stream yields exactly the sum of the components' vertex counts |
| `Meshes.TriangleCount` | include/generator/MergeMesh.hpp:34-47 | the merged triangle stream yields exactly the sum of the components' triangle counts |
| `Meshes.VertexOfComponent` | include/generator/MergeMesh.hpp:74-77 | vertex j of component k is yielded unchanged, at position (vertices of components 0..k-1) + j |
| `Meshes.TriangleOfComponent` | include/generator/MergeMesh.hpp:34-40 | triangle j of component k is yielded at position (triangles of components 0..k-1) + j, with each index raised by the vertex count of components 0..k-1 |
| `Meshes.MergeKeepsWellFormed` | include/generator/MergeMesh.hpp:37-39 | when every component's triangles address only its own vertices, every merged triangle addresses a merged vertex |
| `Meshes.MergeOfOne` | include/generator/MergeMesh.hpp:23-24 | merging one component yields that component's vertices and triangles unchanged, because the empty tail adds nothing |
| `Meshes.AppendVertices` | include/generator/MergeMesh.hpp:74-84 | merging a ++ b yields the merged vertices of a, then those of b |
| `Meshes.AppendTriangles` | include/generator/MergeMesh.hpp:34-47 | merging a ++ b yields the merged triangles of a, then those of b re-based by the vertex count of all of a |
| `Meshes.NestedMerge` | include/generator/MergeMesh.hpp:106-121 | merging a merge as one component (merge(a ++ [merge(b)] ++ c)) yields the same mesh as merge(a ++ b ++ c) |
| `Meshes.MergeExample` | include/generator/MergeMesh.hpp:34-40 | a mesh of 3 vertices and triangle {0,1,2} merged with one of 4 vertices and triangles {0,1,2}, {1,2,3} yields 7 vertices and triangles {0,1,2}, {3,4,5}, {4,5,6} |
| `Streams.CountElements` | include/generator/MergeMesh.hpp:64 | draining a fresh stream over s counts exactly the elements of s |
| `Streams.VertexStream.constructor` | include/generator/MergeMesh.hpp:96-99 | a new vertex stream is valid, at its start, and yields `mesh.Vertices()`, the head's vertices then the merged tail's; it has a head cursor over the head's vertices exactly when the mesh is not `MergeMesh<>` |
| `Streams.VertexStream.Done` | include/generator/MergeMesh.hpp:79 | done (head done and tail done) holds exactly when every element has been passed |
| `Streams.VertexStream.Generate` | include/generator/MergeMesh.hpp:74-77 | on a stream that is not done, returns the element at the current position of the merged vertex sequence |
| `Streams.VertexStream.Next` | include/generator/MergeMesh.hpp:81-84 | moves the stream one element forward and keeps it valid, so the tail stays at its start until the head is done |
| `Streams.VertexStream.Reset` | include/generator/MergeMesh.hpp:86-89 | brings the stream back to position 0 of the same sequence |
| `Streams.TriangleStream.constructor` | include/generator/MergeMesh.hpp:61-65 | a new triangle stream is valid, at its start, and yields `mesh.Triangles()`, the head's triangles then the merged tail's re-based; it has a head cursor over the head's triangles exactly when the mesh is not `MergeMesh<>`, and its head vertex count equals the head's number of vertices |
| `Streams.TriangleStream.Done` | include/generator/MergeMesh.hpp:42 | done (head done and tail done) holds exactly when every element has been passed |
| `Streams.TriangleStream.Generate` | include/generator/MergeMesh.hpp:34-40 | on a stream that is not done, returns the element at the current position of the merged triangle sequence |
| `Streams.TriangleStream.Next` | include/generator/MergeMesh.hpp:44-47 | moves the stream one element forward and keeps it valid, so the tail stays at its start until the head is done |
| `Streams.TriangleStream.Reset` | include/generator/MergeMesh.hpp:49-52 | brings the stream back to position 0 of the same sequence; the head vertex count is a constant and is not recomputed |
| `Streams.ReplayVertices` | include/generator/MergeMesh.hpp:86-89 | a fresh vertex stream yields the merged vertices, and after `Reset` it yields the same sequence again |
| `Streams.ReplayTriangles` | include/generator/MergeMesh.hpp:49-52 | a fresh triangle stream yields the merged triangles, and after `Reset` it yields the same sequence again |
| `Streams.RestartVertices` | include/generator/MergeMesh.hpp:86-89 | resetting a valid vertex stream at any position and draining it yields its whole sequence, as a fresh stream does |
| `Streams.RestartTriangles` | include/generator/MergeMesh.hpp:49-52 | resetting a valid triangle stream at any position and draining it yields its whole sequence, as a fresh stream does |

## Left out

- Unsigned arithmetic: vertex indices and `head_VertexCount` are `nat`. The
  32-bit wrap-around of `triangle.vertices += head_VertexCount` on meshes of
  more than 2^32 vertices is not modelled.
- Vertex contents (`MeshVertex`: position, normal, texture coordinate) are an
  opaque type parameter. They are only relayed, never inspected.
- `Triangle` is modelled as its three indices only. `Triangle.hpp` is not part
  of this model.
- `generate()` and `next()` on an exhausted stream are undefined in the
  source. The model requires `!Done()` of callers instead.
- The variadic template recursion, `TriangleGeneratorType`,
  `VertexGeneratorType` and the `friend` access to the private stream
  constructors are replaced by a runtime list of components. Any component
  type is seen through the sequences its streams yield. Encapsulation is not
  modelled.
- `EmptyMesh.hpp` and `utils.hpp` are not part of this model. `EmptyMesh` is
  modelled as a stream with no sub-streams that is done from the start.
  `count` is modelled by `CountElements`.
- A component's own streams are modelled by `Cursor` over fixed sequences. So
  every component stream is deterministic and reset-stable by construction.
  A component whose vertex stream yields a different count when counted and
  when consumed is not modelled.
- C++ copies streams and meshes by value. The model holds components as
  values, and each stream owns its sub-streams, which `Repr` keeps disjoint.
- `CollectVertices` and `CollectTriangles` stand for a consumer that drains a
  stream. They are used to state restartability and model no source code.
