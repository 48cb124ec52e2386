# JBeam export, modelled in Dafny

A Dafny model of the node/beam pipeline of the Blender add-on
`export_jbeam.py` (operator `ExportJbeam`). For each selected mesh object
the operator:

1. builds one `NGnode` per mesh vertex: the vertex index, the node prefix
   (the object's `JbeamNodePrefix` property, `"n"` when it has none) and the
   vertex position moved by the object's delta location and rounded to three
   decimals;
2. sorts the nodes with three calls of Python's stable `sorted`: by z, then by
   x descending, then by y;
3. walks the sorted nodes, extends each node's name in place with a side
   marker (`l` for x > 0, `r` for x < 0, nothing for x = 0) and its rank, and
   writes the `//--Nodes--` section;
4. writes the `//--Beams--` section, one line per mesh edge, finding each
   endpoint's node with `list.index` on the sorted nodes' vertex indices;
5. writes each object to `<object name>.jbeam`; the first exception ends the
   whole batch.

Coordinates are integers counting thousandths (the value `round(…, 3)`
leaves, times 1000). What is written to a file is a sequence of rows
(`Output.Row`): a header, a node line, a beam line, or the start of a beam
line. `Output.Render` gives the exact characters of each row, with numbers
printed the way Python prints a float that has at most three decimals
(`1.0`, `-0.25`, `12.345`). `Output.ParseNodeRow` and `Output.ParseBeamRow`
read a written line back the way a reader of the file would.

Modules:

- `Nodes` (nodes.dfy): `Vec3`, `NGnode`, the prefix default and the
  node-building loop `BuildNodes`.
- `Sorting` (sorting.dfy): `Sorted` is Python's stable `sorted` (an insertion
  sort), `SortNodes` the three passes; the main theorem is that the three
  passes give the lexicographic order y ascending, x descending, z ascending,
  vertex index ascending, and that a single sort with that comparator would
  give the same list.
- `Decimal` (decimal.dfy): `'%s' % i` for ranks and the float rendering of
  coordinates, each with a parser and a round-trip lemma.
- `Naming` (naming.dfy): node names, their parser, their distinctness, and
  the naming loop `NameAndWriteNodes`, which renames the nodes of an `array`
  in place and returns the node rows.
- `Sequences` (sequences.dfy): `IndexOf` (`list.index`), `Split` (the part
  before and after the first separator) and `Map` (a list comprehension).
- `Output` (output.dfy): the rows, their text, and the parsers of node and
  beam lines with their round-trip lemmas.
- `Beams` (beams.dfy): the beam loop `WriteBeams` and what it writes on
  success and on failure.
- `Export` (export.dfy): one object's export `ExportObject`, the batch
  `ExportBatch`, and the end-to-end properties.

Behaviour of the code that the model keeps as written:

- When the second endpoint of an edge is not found, the code has already
  written `["<first name>",` and that fragment stays in the file
  (`BeamStartRow`); when the first endpoint is not found nothing is written
  for that edge.
- Numbers are printed with Python's float formatting, so a whole value is
  written `1.0`, not `1`.
- The printed coordinates add the delta location a second time to values
  that already include it: a node is printed at its vertex position plus
  twice the delta location, while its sort position and side marker use the
  position plus the delta location once.
- Because the side marker uses the moved x, changing the delta location can
  change node names (`Export.OffsetCanRename`); it never changes the sort
  order (`Export.OffsetKeepsOrder`).
- The three vertices (1,5,2), (-1,5,2), (0,5,2) are sorted 1, 0, -1 on x
  and named `nl0`, `n1`, `nr2` (`Sorting.ThreeNodeOrder`,
  `Naming.ThreeNodeNames`): the rank counts every node, whatever its marker.
- The node section does not depend on the order in which the mesh lists
  its vertices (`Export.PermutedVerticesSameNodeRows`): names and printed
  coordinates depend only on ranks and positions. The beam section can
  depend on it when two vertices share a position, because such nodes are
  ranked by vertex index. With vertices p, q, p (p sorting before q) and an
  edge between the first two, the edge is written between the nodes of
  ranks 0 and 2; listing the same mesh as p, p, q, with the former third
  vertex first, writes the same edge between ranks 1 and 2.
- Names are written without escaping: a `JbeamNodePrefix` holding a quote
  gives node and beam lines that do not read back as their names, which is
  why `Output.NodeRowRoundTrip` and `Output.BeamRowRoundTrip` are stated for
  names without one.
- An object with no vertices is not an error: its file holds the two
  headers and nothing else (`Export.ExportLayout` with no vertices and no
  edges).

## Model

| member | source | states |
|---|---|---|
| `Nodes.BuildNodes` | export_jbeam.py:104-112 | one node per vertex, in vertex order: node k carries index k, the prefix, and vertex k's position plus the delta location |
| `Sorting.Sorted` | export_jbeam.py:114-116 | `sorted` returns a permutation of its input ordered by the key, in the key's direction (ascending, or descending for `reverse=True`) |
| `Sorting.SortedRefines` | export_jbeam.py:114-116 | stability: sorting by key k a list strictly ordered by keys ks orders it by k first, then ks |
| `Sorting.SortNodes` | export_jbeam.py:114-116 | the three passes return a permutation of the nodes |
| `Sorting.ThreePassIsLexicographic` | export_jbeam.py:114-116 | for nodes in vertex order, the three passes leave every pair ordered by y ascending, then x descending, then z ascending, then vertex index |
| `Sorting.SortNodesUnique` | export_jbeam.py:114-116 | any permutation of the nodes in that order equals the three-pass result, so a single composite comparator is equivalent |
| `Sorting.ThreeNodeOrder` | export_jbeam.py:114-116 | nodes of three vertices differing only in x, at x = 1, -1, 0, are sorted as first, third, second |
| `Sorting.NetAtMostUnique` | export_jbeam.py:114-116 | two lists of the same positions, both in the net order, are equal |
| `Sorting.SortNodesMoved` | export_jbeam.py:109-116 | moving every node by the same vector commutes with the three passes |
| `Decimal.NatToString` | export_jbeam.py:129-133 | `'%s' % i` is a non-empty string of digits without a leading zero |
| `Decimal.ParseNatToString` | export_jbeam.py:129-133 | reading the digits of a rank back gives the rank |
| `Decimal.NatToStringInjective` | export_jbeam.py:129-133 | distinct ranks print as distinct strings |
| `Decimal.FormatThousandths` | export_jbeam.py:136-140 | a printed coordinate starts with `-` exactly when it is negative, otherwise with a digit, and holds only digits and the point after that |
| `Decimal.FractionDigits` | export_jbeam.py:136-140 | a coordinate's fraction is printed with one to three digits, no trailing zero after the first |
| `Decimal.FormatExamples` | export_jbeam.py:136-140 | 1 prints as `1.0`, -1 as `-1.0`, 0 as `0.0`, 1.5 as `1.5`, -0.25 as `-0.25`, 12.345 as `12.345` |
| `Decimal.ParseFormatThousandths` | export_jbeam.py:136-140 | a reader of the file recovers every printed coordinate exactly |
| `Naming.NodeNameRoundTrip` | export_jbeam.py:128-133 | a node name read back under its prefix gives the node's side marker and rank |
| `Naming.NodeNamesDistinct` | export_jbeam.py:123-143 | nodes of different ranks get different names, whatever their sides |
| `Naming.RenamedNames` | export_jbeam.py:126-134 | after the loop, node k is named prefix + marker of its x + k, nothing else about it changed, and all names are distinct |
| `Naming.ThreeNodeNames` | export_jbeam.py:128-133 | the nodes at x > 0, x = 0, x < 0 in ranks 0, 1, 2 with prefix `n` are named `nl0`, `n1`, `nr2` |
| `Naming.NodeLinesByPosition` | export_jbeam.py:126-143 | after renaming, the node lines of two sorted lists with the same prefix and the same positions are equal, whatever vertex indices the nodes carry |
| `Naming.NameAndWriteNodes` | export_jbeam.py:123-143 | the loop renames the array's nodes in place as `Renamed` says and writes the header and one row per node, in order, at its stored coordinates plus the delta location |
| `Output.Render` | export_jbeam.py:123-154 | every row ends its line except the start of a beam line, which is all that is written when the second lookup fails |
| `Output.NodeRowRoundTrip` | export_jbeam.py:127-142 | a node line reads back as its name and its three coordinates, when the name holds no quote |
| `Output.BeamRowRoundTrip` | export_jbeam.py:149-154 | a beam line reads back as the names of its two nodes, when the first holds no quote |
| `Output.BeamStartIsPrefix` | export_jbeam.py:149-153 | the text written before the second lookup is exactly the beginning of the whole beam line |
| `Sequences.IndexOf` | export_jbeam.py:148 | `list.index`: the first position holding the value, or failure exactly when no position holds it |
| `Beams.WriteBeams` | export_jbeam.py:147-154 | the beam loop writes what `BeamLines` says: one row per edge in edge order, stopping at the first failed lookup |
| `Beams.BeamLineResolves` | export_jbeam.py:148-153 | an edge's line is whole exactly when both endpoints are vertex indices of nodes, and names those nodes; a missing first endpoint writes nothing, a missing second one writes the start of the line |
| `Beams.BeamLinesOk` | export_jbeam.py:147-154 | the beam loop finishes exactly when every endpoint of every edge is some node's vertex index |
| `Beams.BeamLinesComplete` | export_jbeam.py:147-154 | when it finishes, row j is the beam of edge j between the nodes carrying its two vertex indices |
| `Beams.BeamLinesFailure` | export_jbeam.py:147-154 | at the first failing edge, the rows of earlier edges are followed by what that edge writes, and the loop stops |
| `Export.ExportObject` | export_jbeam.py:104-157 | one object's export writes exactly `ExportText`: node header, node rows, beam header, beam rows, and whether it finished |
| `Export.SortedNodesFacts` | export_jbeam.py:104-116 | the sorted nodes are one per vertex in the net order, each the node built from the vertex it carries; the vertex indices carried are exactly those of the mesh, each once |
| `Export.NamedNodesFacts` | export_jbeam.py:104-143 | the named nodes are one per vertex in the net order, each at its vertex moved by the delta location and named prefix + marker + rank, with distinct vertex indices and distinct names |
| `Export.NamesReadBack` | export_jbeam.py:65-68 | every name starts with the object's `JbeamNodePrefix`, or with `n` when it has none, and reads back as its marker and rank |
| `Export.ExportOk` | export_jbeam.py:147-154 | an export finishes exactly when every edge joins two vertices of the mesh |
| `Export.ExportLayout` | export_jbeam.py:124-154 | a finished export has one row per vertex and per edge plus two headers: the node header, node k's row printed at its vertex plus twice the delta location, the beam header, and row j naming the nodes of edge j's two vertices |
| `Export.ExportFailure` | export_jbeam.py:145-154 | when edge j is the first with a vertex outside the mesh, the file ends after the rows of edges before j with nothing, or with the start of edge j's line when only its second vertex is missing |
| `Export.PermutedVerticesSameNodeRows` | export_jbeam.py:104-143 | listing the mesh's vertices in any other order writes the same node section, names included |
| `Export.OffsetKeepsOrder` | export_jbeam.py:106-116 | another delta location moves every sorted node by the difference and keeps the sort order and the vertex index at each rank |
| `Export.OffsetCanRename` | export_jbeam.py:128-133 | a lone vertex at the origin is named `n0` with no offset and `nl0` once moved to positive x |
| `Export.ExportBatch` | export_jbeam.py:39-188 | without a saved `.blend` file nothing is written; otherwise the objects are exported in order, each file (over)written, and the first failure aborts the run |
| `Export.BatchAborted` | export_jbeam.py:183-185 | a run is aborted exactly when some object's export fails |
| `Export.BatchStops` | export_jbeam.py:56-185 | a run ends at the first failing object, with that object's partial file and nothing from later objects |
| `Export.BatchComplete` | export_jbeam.py:120-121 | when every export finishes and names are distinct, each object's file holds exactly its export and other files are untouched |

## Left out

- Blender operator plumbing (export_jbeam.py:28-35, 190-199), mode switching
  (62), saving and restoring the selection and the active object (47-59,
  176-181): host state, not part of the pipeline. `ExportBatch` takes the
  selected mesh objects, already filtered by type (50-54), as its input.
- The temporary copy of the object and `transform_apply` (74-98) and the
  removal of temporary data (159-174): floating-point matrix work done by the
  host. Vertex positions are inputs that already include the transform.
- The `.blend` path check is the `blendSaved` flag; path joining, opening,
  flushing and closing files (120-121, 156-157, 185) are modelled as a map
  from file name to the rows written; newline translation of text mode is
  not modelled.
- The error message shown with `self.report` (42, 184): only the outcome
  (nothing written, or batch aborted) is modelled.
- Floats: vertex positions and the delta location are taken as exact
  multiples of 0.001, so each `round(…, 3)` leaves them unchanged; rounding
  of finer values (banker's rounding on binary floats) is not modelled.
- `Decimal.FractionDigits`: Python's float printing is modelled for values
  with at most three decimals and magnitude below 2^43 (about 8.8e12), where
  the binary float nearest to the decimal value prints back as that value;
  above it, neighbouring floats are more than 0.001 apart and the printed
  digits can differ (`round(9000000000000.001, 3)` prints
  `9000000000000.002`, while `FormatThousandths(9000000000000001)` is
  `9000000000000.001`). Exponent notation for values of 1e16 and more and the
  negative zero (`-0.0`, printed for a value rounding to zero from below)
  are not modelled either.
- The file is opened in text mode (export_jbeam.py:121) with the locale's
  encoding. A node name the encoding cannot represent raises
  `UnicodeEncodeError` at the write (134), which leaves a partial file and
  aborts the batch; the model writes characters without an encoding and
  never fails there.
- A `JbeamNodePrefix` property that is not a string (the name concatenation
  would then raise) is not modelled; the property is a string or absent.
- The lists `nodes`, `sortedz`, `sortedx` and `sortedNodes` share the same
  node objects; the model renames the nodes of one array in place and does
  not model that sharing, since the other lists are not read afterwards.
- `Export.BatchComplete`: states each file's content only when object names
  are distinct; with duplicate names the later object's export overwrites the
  earlier file, which `BatchFrom` models but no lemma states separately.
