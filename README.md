# Half-edge mesh core of the WebGL mesh viewer

The viewer loads two OBJ meshes and builds a half-edge data structure (`HalfEdgeDS`) for each one.
It draws them and, when the user types a 1-based vertex id, paints that vertex's star red: the
three vertices of every triangle in the fan around it. This project models that core in Dafny.

- `half_edge.dfy` (module `HalfEdgeMesh`) is the `Vertex`, `HalfEdge` and `Face` records and the
  class `HalfEdgeDS` with `build`, `computeOpposites`, `computeVertexHe`, `getVBOs` and `estrela`.
  Vertices, half-edges and faces live in three sequences. A reference is an index into one of them,
  and `null` is `None`. Colours are the two constants the source assigns, `DefaultColor` and `Red`.
- `edge_pairing.dfy` (module `EdgePairing`) defines what `computeOpposites` computes without its
  dictionary. The half-edges are scanned in storage order, each with the key of its undirected
  edge. The occurrences of one key pair off consecutively: the first with the second, the third
  with the fourth, and so on.
- `mesh.dfy` (module `Mesh`) covers part of the `Mesh` class:
  - the OBJ line loop of `loadMeshV4`, building the structure and setting `tamanhoCoords`;
  - the range check of the vertex-selection key handler;
  - the element count of the draw call.
- `js_builtins.dfy` (module `JsBuiltins`) models the two JavaScript built-ins the loader reads
  text with: `String.prototype.split` with a string separator and `parseInt` without a radix
  (ECMAScript 2024, sections 22.1.3.23 and 19.2.5).
- `wrappers.dfy` holds `Option` and `Result`.

Each loop of the source is a method with a `while`/`for` loop. Each method is proved against a
specification function or predicate, and lemmas prove the source's promises about those
specifications:
- `build` yields `IsBuilt`;
- `computeOpposites` yields `Scanned` and `Partner`;
- `computeVertexHe` yields `FirstOrigin`;
- `getVBOs` yields `IsExport`;
- `estrela` yields `IsStar`;
- the loader loop yields the per-line contributions collected with `Gather`.

The state the source changes in place is held by the classes `HalfEdgeMesh.HalfEdgeDS` and
`Mesh.Mesh`.

Where a JavaScript run throws a `TypeError`, the model returns an error value:
- `estrela` on a boundary edge returns `BoundaryFault`;
- an `f` line with fewer than three vertex tokens gives `MissingFaceVertex`;
- a face index that names no vertex gives `BadFaceIndex`.

Two behaviours of the code are worth stating plainly:
- **Edge pairing.** `computeOpposites` deletes the pending dictionary entry when it pairs two
  half-edges. When an undirected edge is used three or more times, its occurrences therefore pair
  consecutively: the first with the second, the third with the fourth, and so on. An odd last
  occurrence stays unpaired. `EdgePairing.Partner` and `EdgePairing.PartnerSymmetric` state this.
- **Boundary walk.** `estrela` reads `currentHe.opposite.next` without testing `opposite`. On a
  half-edge with a null `opposite` this throws a `TypeError`. The model's outcome for that case is
  `BoundaryFault`. The colours painted before the throw stay painted, as they do in JavaScript.

## Model

| member | source | states |
|---|---|---|
| HalfEdgeMesh.HalfEdgeDS.constructor | src/webgl/half-edge.js:31-35 | a new structure has no vertices, half-edges or faces |
| HalfEdgeMesh.NextCycle | src/webgl/half-edge.js:61-63 | `next` moves to another half-edge of the same face and comes back after three steps; no two half-edges have the same `next` |
| HalfEdgeMesh.NewVertices | src/webgl/half-edge.js:41-45 | one vertex per started group of four coordinates; vertex `i` has id `i`, position `[coords[4i], coords[4i+1], coords[4i+2], 1]`, normal `normals[4i..4i+3]` (`undefined` past the end), the default colour and no outgoing half-edge |
| HalfEdgeMesh.NewFaces | src/webgl/half-edge.js:48-66 | `trigs.length` half-edges and `trigs.length / 3` faces; half-edge `h` starts at `trigs[h]`, its `next` is the following half-edge of its triangle in a 3-cycle, its face is `h/3`, and it has no opposite; face `f` has base half-edge `3f` |
| HalfEdgeMesh.PairOpposites | src/webgl/half-edge.js:75-94 | the dictionary loop yields `Scanned` of all half-edges: its invariant is that `visited` holds exactly the keys seen an odd number of times, each mapped to its last half-edge |
| HalfEdgeMesh.ScannedClosedForm | src/webgl/half-edge.js:78-93 | after the scan, every half-edge whose key has a partner gets that partner as opposite; every other half-edge keeps its opposite; nothing else changes |
| HalfEdgeMesh.ScanPaired | src/webgl/half-edge.js:84-88 | opposites set to the partners give a symmetric pairing; no half-edge is its own opposite, and both half-edges of a pair lie on the same undirected edge |
| HalfEdgeMesh.HalfEdgeDS.ComputeOpposites | src/webgl/half-edge.js:75-94 | every half-edge gets its consecutive-occurrence partner as opposite, or keeps its old one when it has no partner; vertices, faces and the `next`/`face` links are unchanged; starting from no opposites the pairing is symmetric |
| HalfEdgeMesh.HalfEdgeDS.ComputeVertexHe | src/webgl/half-edge.js:98-105 | a vertex without an outgoing half-edge gets the first half-edge in storage order that starts at it, and stays `null` when no triangle uses it; half-edges and faces are unchanged; a set `he` starts at its vertex |
| HalfEdgeMesh.FirstOrigin | src/webgl/half-edge.js:99-103 | the half-edge found starts at `v`, and no earlier half-edge does |
| HalfEdgeMesh.OutgoingOnlyChanged | src/webgl/half-edge.js:98-105 | setting outgoing half-edges keeps the triangulation, the edge keys and the opposite pairing |
| HalfEdgeMesh.BuildPhases | src/webgl/half-edge.js:68-71 | the vertex and face loops, then `computeOpposites`, then `computeVertexHe` together give exactly the structure `IsBuilt` describes |
| HalfEdgeMesh.HalfEdgeDS.Build | src/webgl/half-edge.js:39-72 | with in-range indices, the structure is rebuilt field by field: vertex `v` is the group of four coordinates `v` with its first outgoing half-edge; half-edge `h` starts at `trigs[h]`, lies in face `h/3` and has its partner as opposite; face `f` starts at half-edge `3f`; the invariant holds (triangulated, symmetric opposites, valid outgoing half-edges) |
| HalfEdgeMesh.HalfEdgeDS.GetVBOs | src/webgl/half-edge.js:108-125 | changes nothing and returns `IsExport`: per vertex in id order its four position, colour and normal components; per half-edge its origin's id |
| HalfEdgeMesh.ExportUnique | src/webgl/half-edge.js:108-125 | the buffers are determined by the structure, so two calls with no change in between return equal buffers |
| HalfEdgeMesh.ExportVertex | src/webgl/half-edge.js:114-118 | entries `4v..4v+3` of the position, colour and normal buffers are vertex `v`'s components |
| HalfEdgeMesh.ExportIndices | src/webgl/half-edge.js:120-122 | on a built structure the index buffer holds three entries per face, and entry `h` is half-edge `h`'s origin |
| HalfEdgeMesh.StepInjective | src/webgl/half-edge.js:145 | the fan step `he.opposite.next` is injective |
| HalfEdgeMesh.FanStepKeepsPivot | src/webgl/half-edge.js:145 | on a consistently oriented mesh the fan step starts at the same vertex as the half-edge it leaves |
| HalfEdgeMesh.StepLeavesWalk | src/webgl/half-edge.js:145-146 | a step that does not return to the start half-edge reaches a half-edge the walk has not visited |
| HalfEdgeMesh.WalkAdvances | src/webgl/half-edge.js:145-146 | stepping to a half-edge other than the start extends the fan walk without repeating a half-edge and, when oriented, keeps the pivot |
| HalfEdgeMesh.RecoloredKeepsInvariant | src/webgl/half-edge.js:140-142 | painting vertices changes no id, position, normal, outgoing half-edge or edge key, so the invariant is kept |
| HalfEdgeMesh.StarWalk | src/webgl/half-edge.js:131-147 | the loop of `estrela` yields `IsStar`; with no outgoing half-edge nothing changes; otherwise the walk starts at the vertex's `he` and follows the fan step without repeats; it ends back at the start (`FanClosed`) or at a half-edge without an opposite (`BoundaryFault`), within `halfEdges.length` steps; exactly the vertices of the visited faces turn red; on an oriented mesh every visited half-edge starts at the pivot |
| HalfEdgeMesh.StarCoverage | src/webgl/half-edge.js:127-147 | when the walk closes (`FanClosed`) it is a whole orbit of the fan step: every visited half-edge steps to a visited one, and every half-edge that steps into the walk is in it; on an oriented mesh the walk is at most as long as the number of half-edges starting at the vertex |
| HalfEdgeMesh.HalfEdgeDS.Estrela | src/webgl/half-edge.js:131-147 | `IsStar` on the structure; half-edges and faces are unchanged, only vertex colours change, and the invariant is kept |
| EdgePairing.EdgeKey | src/webgl/half-edge.js:82 | the key is the two ids with the smaller one first |
| EdgePairing.EdgeKeyUndirected | src/webgl/half-edge.js:82 | the key does not depend on direction; two keys are equal exactly when they join the same two vertices |
| EdgePairing.PendingStep | src/webgl/half-edge.js:84-92 | a key is in the dictionary exactly when it has been seen an odd number of times, and then maps to its last occurrence; the delete and the insert both keep this |
| EdgePairing.PartnerInStep | src/webgl/half-edge.js:84-92 | scanning one more half-edge pairs it with the pending occurrence of its key, or leaves it pending; no other partner changes |
| EdgePairing.PartnerSymmetric | src/webgl/half-edge.js:84-88 | partners are symmetric, distinct and share their key; they are occurrences `2m` and `2m+1` of that key |
| EdgePairing.PartnerNoneIff | src/webgl/half-edge.js:90-92 | a half-edge stays unpaired exactly when its key occurs an odd number of times and it is the last occurrence |
| EdgePairing.ClosedMeshFullyPaired | src/webgl/half-edge.js:78-93 | when every undirected edge is shared by an even number of half-edges (a closed mesh), every half-edge gets an opposite |
| JsBuiltins.JoinSplit | src/webgl/mesh.js:44 | joining the pieces of `split` with the separator gives back the text |
| JsBuiltins.SplitPiecesFree | src/webgl/mesh.js:51 | no piece of a split on one character contains that character |
| JsBuiltins.FindFromLeftmost | src/webgl/mesh.js:65-67 | `split` cuts at the leftmost occurrence of the separator |
| JsBuiltins.ParseIntOfDecimal | src/webgl/mesh.js:87 | `parseInt` of a decimal numeral, followed by text that does not continue it, is that number |
| JsBuiltins.ParseIntOfNegatedDecimal | src/webgl/mesh.js:87 | `parseInt` of `-` and a decimal numeral is the negated number |
| Mesh.Tokens | src/webgl/mesh.js:51 | a line cut at its spaces has at least one token |
| Mesh.LineCoords | src/webgl/mesh.js:53-54 | a `v` line contributes exactly four coordinates, the last one 1; any other line contributes none |
| Mesh.LineColumn | src/webgl/mesh.js:56-58 | a `v` line pushes one number onto `x`, `y` or `z`, the same number it puts at position `c-1` of its `coords` group; any other line pushes nothing |
| Mesh.LineNormals | src/webgl/mesh.js:60-61 | a `vn` line contributes exactly four normal components, the last one 0; any other line contributes none |
| Mesh.PositionLineStep | src/webgl/mesh.js:53-59 | a `v` line pushes its three numbers and 1 onto `coords` and one number each onto `x`, `y` and `z`; `normals` and `indices` are unchanged |
| Mesh.NormalLineStep | src/webgl/mesh.js:60-62 | a `vn` line pushes its three numbers and 0 onto `normals` and nothing else |
| Mesh.FaceLineStep | src/webgl/mesh.js:63-69 | a complete `f` line pushes its three vertex tokens, as read, onto `indices` and nothing else |
| Mesh.OtherLineStep | src/webgl/mesh.js:50-70 | a line of any other kind leaves every array unchanged |
| Mesh.GatherLength | src/webgl/mesh.js:50-70 | an array holds four entries per `v` line (coordinates), four per `vn` line (normals), three per complete `f` line (indices) |
| Mesh.GatherChunk | src/webgl/mesh.js:50-70 | entries `len*j .. len*j+len-1` of an array are what the `j`-th line of that kind pushed |
| Mesh.FirstShortFacePrefix | src/webgl/mesh.js:63-67 | the first `f` line with fewer than three vertex tokens stays the first one for the whole file |
| Mesh.LinesRead | src/webgl/mesh.js:50-70 | the loop gets through every line before the first short `f` line, and through all lines when there is none |
| Mesh.ReadLines | src/webgl/mesh.js:50-70 | the loop's arrays are the in-order contributions of the lines it gets through, and it stops at the first short `f` line |
| Mesh.CoordsOfPositionLine | src/webgl/mesh.js:53-54 | the `j`-th `v` line fills `coords[4j..4j+3]` with its three numbers and 1 |
| Mesh.ColumnOfCoords | src/webgl/mesh.js:53-58 | `x`, `y` and `z` hold one entry per `v` line, and entry `j` of column `c` equals `coords[4j+c-1]`: the columns repeat the vertex coordinates |
| Mesh.NormalsOfNormalLine | src/webgl/mesh.js:60-61 | the `j`-th `vn` line fills `normals[4j..4j+3]` with its three numbers and 0 |
| Mesh.IndicesOfFaceLine | src/webgl/mesh.js:63-68 | `indices` holds three entries per complete `f` line, and the `f`-th one fills `indices[3f..3f+2]` with its tokens as read |
| Mesh.TrigsOf | src/webgl/mesh.js:72 | succeeds exactly when every index names a vertex, giving those indices; otherwise it names the first index that does not |
| Mesh.LoadedVertex | src/webgl/mesh.js:53-62 | after loading there is one vertex per `v` line; vertex `v` has the `v`-th `v` line's numbers and w = 1 as position; its normal is the `v`-th `vn` line's numbers and w = 0, or `undefined` when there are fewer `vn` lines |
| Mesh.LoadedFace | src/webgl/mesh.js:63-72 | after loading there is one face per `f` line; half-edge `3f+c` starts at the vertex the `(c+1)`-th token of the `f`-th `f` line names |
| Mesh.FaceIndexOfNumeral | src/webgl/mesh.js:65-68 | a face token `k`, `k/...` or `k//...` names the 0-based vertex `k-1` |
| Mesh.Mesh.constructor | src/webgl/mesh.js:33-37 | a new mesh has `tamanhoCoords == -1`, empty `x`, `y`, `z` and an empty structure |
| Mesh.Mesh.BuildMesh | src/webgl/mesh.js:72-73 | with in-range indices the structure is `build(coords, indices, normals)` and `tamanhoCoords == coords.length/4`; otherwise `BadFaceIndex` at the first bad index, leaving the structure and `tamanhoCoords` unchanged |
| Mesh.Mesh.Load | src/webgl/mesh.js:44-73 | `x`, `y`, `z` gain the `v` lines' numbers from the lines read. A short `f` line gives `MissingFaceVertex` at that line, with no build and `tamanhoCoords` still -1. Otherwise the structure is built from the whole file's arrays and `tamanhoCoords` is the number of `v` lines, or `BadFaceIndex` |
| Mesh.Mesh.LoadMeshV4 | src/webgl/mesh.js:44-73 | `Load` on `text.split('\n')` with each line `split(' ')` and face tokens read as `parseInt(token.split('//')[0]) - 1` |
| Mesh.SelectedVertex | src/webgl/mesh.js:87-88 | an input is accepted exactly when its `parseInt` is a number in `[1, tamanhoCoords]`, and then it selects that number minus one, which is below `tamanhoCoords` |
| Mesh.SelectionOfNumeral | src/webgl/mesh.js:87-92 | typing `k` selects vertex `k-1` exactly when `1 <= k <= tamanhoCoords`; typing `-k` is always refused |
| Mesh.NothingSelectableBeforeLoad | src/webgl/mesh.js:88 | with `tamanhoCoords == -1`, before any mesh is loaded, every input is refused |
| Mesh.Mesh.SelectVertex | src/webgl/mesh.js:85-95 | a refused input changes nothing; an accepted one runs `estrela` on the selected vertex, which lies in `[0, tamanhoCoords)`, changing only colours and keeping the invariant |
| Mesh.Mesh.DrawCount | src/webgl/mesh.js:199 | `faces.length * 3` is the number of half-edges, and equals the length of the index buffer `getVBOs` returns |

## Left out

- `fetch`/`resp.text()` (src/webgl/mesh.js:41-42) is I/O. `LoadMeshV4` takes the file text as a parameter.
- Nothing from the DOM and UI is modelled: `document.getElementById`, `alert` and the key event. `SelectVertex` takes the input text, and its `None` outcome stands for the alert.
- The WebGL calls are GPU bindings and are not modelled: shaders, VAO and buffer creation, uniforms, `createVAO` after painting, and `drawElements` itself. Only the draw call's element count is modelled.
- Model-matrix, camera and lighting code is floating-point work outside the core. So are the `lengthX/Y/Z` getters over `x`, `y`, `z`; the model keeps the arrays but not the getters.
- `parseFloat` is the parameter `pf` and stands for any function from text to a number. NaN, rounding and the textual format of numbers are not modelled, and coordinates are `real`.
- JsBuiltins.JsParseInt: the numbers are unbounded integers. JavaScript's loss of precision above 2^53, `Infinity` and `-0` (read here as 0) are not modelled.
- Mesh.Mesh.BuildMesh, Mesh.Mesh.Load and Mesh.Mesh.LoadMeshV4: on a bad face index (NaN, below 0, or past the last vertex), JavaScript's `build` has already pushed the vertices and faces before `computeOpposites` throws. The model leaves the structure unchanged instead. The partial structure is never observable: the throw rejects the scene's `init` before the selection listeners are registered (src/main.js:22-35).
- Mesh.Mesh.Load and Mesh.Mesh.LoadMeshV4 require `tamanhoCoords == -1`, so they model only the first load of a mesh. A second call in JavaScript would append to the existing structure's arrays, and the viewer loads each mesh once.
- Mesh.Mesh.Load: the loop pushes onto `this.x`, `this.y` and `this.z` line by line. The model appends each array's pushes at once, after the loop. The final state is the same, including when a short `f` line throws.
- HalfEdgeMesh.HalfEdgeDS.Build: requires every index to name a vertex, an empty structure and a whole number of triples. Mesh loading checks the indices first (`Mesh.TrigsOf`) and reports `BadFaceIndex`; both loader callers meet the other two by construction.
- HalfEdgeMesh.HalfEdgeDS.Estrela: requires `vId < vertices.length`. JavaScript would throw on a missing vertex, and the only caller's guard rules that out (`Mesh.Mesh.SelectVertex`).
- HalfEdgeMesh.StarWalk: the loop condition's `currentHe !== null` test is left out, because `next` is always set after `build`, so it can never fire.
- HalfEdgeMesh.FanStepKeepsPivot: that the fan step keeps the pivot is proved only for consistently oriented meshes (`Oriented`). On an inconsistently oriented mesh the source's walk can leave the vertex's fan, and the model's walk does the same.
- The walk's return to its start is proved in the form of `StarWalk`'s bound: a walk that never hits a boundary ends back at its start (`FanClosed`) within `halfEdges.length` steps, because the step is injective.
- HalfEdgeMesh.StarWalk: that a closed walk reaches every face around the vertex is not claimed. That needs the vertex to be manifold (a single fan of triangles), which the model does not state. `HalfEdgeMesh.StarCoverage` proves what holds without it: a closed walk is a whole orbit of the fan step.
