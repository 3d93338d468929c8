# Shell detection for the Shell Material Assigner

The Shell Material Assigner splits a polygonal mesh into *shells* and gives each
shell a random material. A shell is a group of faces joined by shared edges.
This project models the part of `get_mesh_shells` that does the work. A
breadth-first search over the face-adjacency graph finds the shells. A naming
pass then turns each face id into the component reference `<obj>.f[<id>]`.

The inputs are what the host's polygon iterator would have produced: a face
count and a map from face id to neighbour ids. A face that is not a key of the
map has no neighbours, as with `face_connections.get(current, [])`.

Modules:

- `MeshGraph` (`mesh_graph.dfy`): the adjacency map, its neighbour lists, walks
  along edges, reachability (also by walks that avoid a set of faces), and what "neighbour ids in range" and "mutual
  adjacency" mean.
- `ShellSpec` (`shell_spec.dfy`): what a correct result is
  (`IsShellDecomposition`) and the lemmas that follow from it.
  - Every face is in exactly one shell, in exactly one position.
  - Shells come in increasing order of their first face, which is also their
    lowest-numbered face.
  - A shell's faces are reachable from its first face, and the shell is closed
    against further search.
  - A shell holds exactly the faces reachable from its first face that no
    earlier shell holds. So the shells, their order and their members are
    fixed by the adjacency map alone, mutual or not.
  - Under mutual adjacency, two faces share a shell exactly when a walk joins
    them.
  - The six-face example is worked through. A general lemma covers a mesh in
    which face 0 reaches every face.
- `ShellDetector` (`shell_detector.dfy`): the search itself, imperative as in
  the source. It keeps a `visited` set, a FIFO `queue` (pop at the front,
  append at the back), the current `shell` and the growing `shells` list.
  `GetMeshShells` runs the search and then the naming pass.
- `FaceNames` (`face_names.dfy`): `%d` formatting of face ids, face names, the
  naming of a whole result, and a parser that reads a face name back.

The outer `for` loop over face ids is in `DetectShells`. The `while queue`
loop is in `GrowShell`, which `DetectShells` calls once per shell. The `for n
in neighbors` loop is in `EnqueueUnvisited`, which `GrowShell` calls once per
newly visited face. In the source all three loops are inline in one function.
The steps of each loop are the source's own.

The source never checks neighbour ids. An out-of-range id would enter the queue
and then the shell. The model states "every neighbour of a face
`0 .. faceCount - 1` is such a face" (`NeighboursInRange`) as a precondition.
Rejecting malformed adjacency with an error would be the safer design. The
code does not do that, and the model follows the code.

## Model

| member | source | states |
|---|---|---|
| `ShellDetector.DetectShells` | shell_material_assigner.py:36-58 | Given in-range neighbour ids, the result is a shell decomposition of faces `0 .. faceCount-1`. Every face appears exactly once over all shells. Each shell is non-empty and starts with the lowest face no earlier shell holds. Each face is reachable from its shell's first face. Every neighbour of a shell's face is in that shell or an earlier one. |
| `ShellDetector.GrowShell` | shell_material_assigner.py:44-56 | (The body is the `while queue` loop with a FIFO queue; the contract does not state the visiting order.) The shell starts with `i` and has no repeats. A face is in the shell exactly when some walk from `i` reaches it without touching a face visited before the call. So faces reached only through already visited faces are left out, as the source never expands a visited face. The new visited set is the old one plus the shell. On return, every neighbour of the shell's faces is visited. |
| `MeshGraph.Neighbours` | shell_material_assigner.py:53 | A face with an adjacency entry has exactly that neighbour list; a face without one has no neighbours. |
| `ShellDetector.Unvisited` | shell_material_assigner.py:54-56 | The filtered list is no longer than the neighbour list, and each of its faces is a neighbour that is not visited. |
| `ShellDetector.EnqueueUnvisited` | shell_material_assigner.py:54-56 | The new queue is the old queue followed by the neighbours not yet visited, in neighbour-list order. |
| `ShellDetector.UnvisitedMember` | shell_material_assigner.py:54-56 | A face joins the queue from a neighbour list exactly when it is in the list and not visited. |
| `ShellDetector.GetMeshShells` | shell_material_assigner.py:36-65 | The result is the naming pass applied to some shell decomposition of the mesh. |
| `ShellSpec.AppendShell` | shell_material_assigner.py:58 | Closing a shell that starts at the lowest face not yet visited, with new faces only, all reachable from that face and with all neighbours visited, keeps the shell list well formed. |
| `ShellSpec.EmptyMesh` | shell_material_assigner.py:40 | A mesh with no faces has an empty shell list. |
| `ShellSpec.EveryFaceInAShell` | shell_material_assigner.py:40-45 | Every face id `0 .. faceCount-1` lies in some shell. |
| `ShellSpec.FirstIsMin` | shell_material_assigner.py:40-45 | The first face of each shell is its lowest-numbered face, so ordering by first face is ordering by smallest face id. |
| `ShellSpec.ShellsDisjoint` | shell_material_assigner.py:49-52 | No face lies in two different shells. |
| `ShellSpec.ShellNoRepeats` | shell_material_assigner.py:49-52 | No face occurs twice within one shell. |
| `ShellSpec.FirstsIncrease` | shell_material_assigner.py:40-45 | The first faces of the shells strictly increase along the list. |
| `MeshGraph.AvoidingWalkStaysIn` | shell_material_assigner.py:49-56 | A set closed under taking neighbours outside `avoid` holds the end of every walk that starts in it and stays outside `avoid`. This is why the search reaches every face it should. |
| `ShellSpec.WalkStaysInShell` | shell_material_assigner.py:47-56 | Closure: a walk from a shell's first face that avoids all earlier shells stays inside that shell. |
| `ShellSpec.PrefixClosed` | shell_material_assigner.py:47-58 | The faces of the shells found so far are closed under adjacency: the neighbours of their faces are among them. |
| `ShellSpec.WalkOutsidePrefix` | shell_material_assigner.py:47-58 | A walk that ends outside the shells found so far never touches them. |
| `ShellSpec.ShellIsReachableRest` | shell_material_assigner.py:40-58 | With no mutual adjacency assumed, a face is in shell `k` exactly when it is reachable from the shell's first face and no earlier shell holds it. |
| `ShellSpec.NeighbourInSameShell` | shell_material_assigner.py:53-56 | Under mutual adjacency, every neighbour of a shell's face is in the same shell. |
| `ShellSpec.SameShellIffConnected` | shell_material_assigner.py:36-58 | Under mutual adjacency, a face is in the shell of face `a` exactly when a walk leads from `a` to it. |
| `ShellSpec.IsolatedFaceSingleton` | shell_material_assigner.py:53 | Under mutual adjacency, a face with no neighbours, including one with no adjacency entry, is a one-face shell. |
| `ShellSpec.ConnectedMeshOneShell` | shell_material_assigner.py:40-58 | For any adjacency map, mutual or not, if face 0 reaches every face, there is exactly one shell and it holds every face. |
| `ShellSpec.ShellsDetermined` | shell_material_assigner.py:40-58 | For any adjacency map, mutual or not, any two decompositions of one mesh have the same number of shells, and their k-th shells hold the same faces. This is the deterministic shell membership and discovery order. |
| `ShellSpec.ExampleShells` | shell_material_assigner.py:36-58 | For adjacency `{0:[1], 1:[0,2], 2:[1], 3:[4], 4:[3], 5:[]}` over six faces there are three shells: `{0,1,2}`, `{3,4}` and `{5}`, in that order. |
| `FaceNames.DecimalDigits` | shell_material_assigner.py:63 | The digits of a non-negative value are in canonical form: at least one digit, no leading zero unless the string is "0", and "0" exactly for zero. |
| `FaceNames.CanonicalDigitsUnique` | shell_material_assigner.py:63 | Every canonical digit string is the digit string of its own value, so the canonical form of a value is unique. |
| `FaceNames.FormatInt` | shell_material_assigner.py:63 | `%d` of an integer starts with a minus sign exactly when it is negative; the rest is the canonical digit string, and never "-0". |
| `FaceNames.FaceName` | shell_material_assigner.py:63 | The name is the object name, then ".f[", then `%d` of the id, then "]". |
| `FaceNames.FormatShell` | shell_material_assigner.py:63 | One shell's names: as many as its faces, and name `m` is the name of face `ids[m]`. |
| `FaceNames.FormatShells` | shell_material_assigner.py:61-63 | The output has as many lists as there are shells. Each list is as long as its shell and in the same order. Element `m` of list `k` is the name of face `shells[k][m]`. |
| `FaceNames.DigitsRoundTrip` | shell_material_assigner.py:63 | Reading the decimal digits of `n` gives back `n`. |
| `FaceNames.FaceNameRoundTrip` | shell_material_assigner.py:63 | Parsing `obj + ".f[" + %d(id) + "]"` as a face reference of `obj` gives back `id`. |
| `FaceNames.FaceNameInjective` | shell_material_assigner.py:63 | Two faces of one object get the same name only if they are the same face. |
| `FaceNames.FlattenFormat` | shell_material_assigner.py:61-63 | All the names, in order, are the names of all the face ids, in order. |
| `FaceNames.FormatKeepsDistinct` | shell_material_assigner.py:61-63 | If no face id repeats across the shells, no face name repeats in the output. |

## Left out

- Building `face_connections` and `face_count` with the host's selection list, DAG path and polygon iterator (shell_material_assigner.py:16-34). These are foreign host calls. The model takes the count and the map as inputs. `obj_name` is used only as the prefix of the face names.
- `assign_random_materials_from_list` (shell_material_assigner.py:67-99). It works through host scene queries, shading-group creation and `random.choice`, so it is host glue plus randomness.
- The UI callbacks and the window (`select_object_button`, `apply_materials_button`, `add_selected_materials`, `show_gui`, shell_material_assigner.py:101-201). These are widget state and host queries.
- The timing and printing around the two calls (shell_material_assigner.py:129-137). These are clock reads and output.
- The linear cost of `queue.pop(0)`. The queue is a sequence that loses its head, with the same order of visits.
- ShellDetector.DetectShells: the contract does not fix the order of faces within a shell, which is breadth-first order. Only which faces each shell holds, and the order of the shells, are stated.
- ShellDetector.GrowShell: the contract does not fix the breadth-first order in which the shell lists its faces. It states only the first face and which faces the shell holds.
- ShellDetector.GetMeshShells: each name list comes out in the breadth-first order of its shell, which the contract leaves open, as for `DetectShells`.
- ShellDetector.DetectShells: faces come from `0 .. faceCount-1`, as the source's `range(face_count)`. The source numbers faces with the iterator's `index()`; that these are `0 .. face_count-1` is an assumption about the host.
