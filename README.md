# TSN_Visualize topology and stream core, in Dafny

This project models the bookkeeping at the heart of TSN_Visualize. Each version of the prototype reads
rows of string fields into a registry of switches and end stations plus a networkx graph, then resolves
streams to paths over that graph. The parts modelled are:

- **algorithms.py** (module `Algorithms`). `create_graph_from_csv` builds node objects from LINK rows. It
  fills their incoming and outgoing neighbour lists, records each switch's preceding node, and adds the
  links to the module-level directed graph (class `LinkGraph`). `_dfs_traverse` and `dfs_traverse_stream`
  run a recursive depth-first search that stamps `preceding_node` and `stream_size` on the nodes.
  `bfs_traverse_target` is a FIFO breadth-first search over paths.
- **node.py** (module `NodeModel`). The `Node` class with its append-only edge lists. It also carries the
  `Switch`/`EndStation` tagging that algorithms.py relies on: a kind, an optional preceding node and an
  optional stream size.
- **streamClass.py** (module `StreamRecord`). The stream record, with Python's `int()` conversion of its
  four numeric fields, and its `__repr__`.
- **Classes/networkClass.py** (module `NetworkClass`). The `Network` class. LINK rows become undirected
  edges; other rows register `Node(name, type, port)`, and the last declaration wins. Streams, after a
  header row, are resolved to a fewest-hop path or to one of the sentinels `["No Path Found"]` and
  `["Invalid Nodes"]`.
- **topologyOOP.py** (module `TopologyOop`). The `Network` class over a directed graph. Rows need seven
  fields, which are stripped. The first SWITCH or ENDSTATION declaration of a name wins. A vertex's type
  is fixed when it first appears, and a link endpoint is typed by its name's prefix.
- **topology.py** (module `Topology`). The early `Network`. Non-LINK rows are registered in insertion
  order, the k-th name is placed at (100 + 200k, 100), two fixed links are added, and two predefined
  stream paths are looked up.
- **Classes/nodeClass.py** (module `NodeClass`). The device record and its `__str__`. topology.py defines
  the same class, so both files use this datatype.

Shared modules:
- `Text`: Python's `str.strip`, `int()`, `str(int)`, string ordering and `sorted(set(...))`.
- `Paths`: walks and the path-queue breadth-first search.
- `NxGraph`: the part of a networkx `Graph`/`DiGraph` that the code uses.
- `NodeTypes`: the row tags.
- `Wrappers`: `Option`/`Result`.

Every loop that changes state is a method whose loop invariant ties the state to a fold over the rows
read so far (`BuildLinks`, `Topology`, `Build`, `Register`). The properties of each fold are proved as
lemmas. The node objects of algorithms.py are heap objects; each method states the nodes' contents as a
ghost value (`Holds`), and the recursive search is proved equal to the functional `DfsVisit`.

## Model

| member | source | states |
|---|---|---|
| NodeModel.Node.constructor | node.py:2-6 | a new node stores the given name and kind, with both edge lists empty |
| NodeModel.Node.AddInEdge | node.py:8-10 | appends exactly one entry at the end of the incoming list; duplicates are kept and every other field is unchanged |
| NodeModel.Node.AddOutEdge | node.py:12-14 | appends exactly one entry at the end of the outgoing list; every other field is unchanged |
| NodeModel.Node.SetPrecedingNode | algorithms.py:51 | records the preceding node and changes nothing else |
| NodeModel.DescribeRoundTrip | node.py:16-17 | the rendering starts with the name and ends with ")", and the name and the kind can be read back from it |
| NodeClass.StrRoundTrip | Classes/nodeClass.py:3-9 | the rendering begins with the name and ends with ")", and it gives back name, type and port unchanged whenever the name has no "(" and the type no ","; any type string is accepted |
| StreamRecord.NewStream | streamClass.py:16-24 | construction succeeds exactly when all four numeric arguments parse as Python ints; the stored numbers are the parsed values and the other fields are stored unchanged; a failure names the first argument, in conversion order, that does not parse |
| StreamRecord.NewStreamRoundTrip | streamClass.py:16-24 | there is no range check: any record, with negative or out-of-range numbers included, is rebuilt from the decimal renderings of its numbers |
| StreamRecord.NewStreamIgnoresPadding | streamClass.py:17 | whitespace that `int()` skips (not U+001C to U+001F) around a numeric argument does not change the record |
| StreamRecord.ReprPcp | streamClass.py:26-29 | `__repr__` starts with "Stream(pcp=" and ends with ")", and the priority code point reads back from the text before the first comma |
| Text.TrimShape | algorithms.py:31 | `strip()` (and `int()`'s own padding skip) returns the slice between the leading and trailing padding, and that slice neither starts nor ends with padding |
| Text.TrimIdempotent | topologyOOP.py:30-36 | stripping a stripped field changes nothing |
| Text.TrimIgnoresPadding | topologyOOP.py:30-36 | whitespace padding around a field does not change what `strip()` returns |
| Text.TrimPadded | topologyOOP.py:30-36 | any whitespace padding around a stripped field is removed exactly, giving the field back |
| Text.ParseIntRoundTrip | streamClass.py:17 | `int(str(n)) == n` for every int |
| Text.ParseIntIgnoresPadding | streamClass.py:22 | `int()` ignores surrounding whitespace of the kind it skips: every `str.isspace()` character except the separators U+001C to U+001F |
| Text.SeparatorIsNoIntPadding | streamClass.py:17 | `strip()` removes a leading U+001C but `int()` fails on it, while both skip a space |
| Text.ParseIntAlphabet | streamClass.py:23-24 | `int()` succeeds only on the whitespace it skips, signs, digits and underscores, with at least one digit |
| Text.SortedDistinct | algorithms.py:101 | `sorted(set(xs))`: a strictly ascending list holding exactly the elements of `xs` |
| Text.SortedUnique | algorithms.py:101 | a strictly sorted list is determined by its elements, so the children order is unique |
| Text.SortedHasNoRepeats | algorithms.py:101 | the children list holds no name twice |
| Text.StrLessTotal | algorithms.py:101 | Python's string order is total on distinct strings |
| Text.StrLessTransitive | algorithms.py:101 | Python's string order is transitive |
| Text.StrLessIrreflexive | algorithms.py:101 | no string sorts before itself |
| Algorithms.LinkNamesAt | algorithms.py:39-63 | for one LINK row `s -> t`: a name exists afterwards exactly when it existed or is `s` or `t`; `t` is appended to the source's out-list and `s` to the target's in-list; a switch target without a preceding node gets `s`; name, kind and stream size are kept |
| Algorithms.BuildLinksOnlyLinks | algorithms.py:31-32 | rows that are not LINK rows change neither the registry nor the graph's edges |
| Algorithms.BuildLinksKeys | algorithms.py:39-54 | the registry's keys are exactly the LINK endpoints, each created once with the kind its prefix gives (SWITCH prefix gives a switch) and no stream size |
| Algorithms.BuildLinksNodes | algorithms.py:47-63 | each node's out- and in-lists are its LINK neighbours in row order with repeats kept; a switch's preceding node is the source of the first LINK row into it; an end station has none |
| Algorithms.FirstSourceIsFirst | algorithms.py:50-59 | the preceding node recorded is the source of the first LINK row that targets the name; later links do not overwrite it |
| Algorithms.BuildLinksAt | algorithms.py:47-63 | per name: its out- and in-lists are its LINK neighbours in row order, and its preceding node is the first source into it when it is a switch |
| Algorithms.NoLinkInto | algorithms.py:50-59 | a name that no LINK row targets gets no preceding node |
| Algorithms.NoNamesOutside | algorithms.py:31-63 | a name that is no LINK endpoint has no neighbours and no preceding node |
| Algorithms.LinkGraph.constructor | algorithms.py:7 | the module graph starts with no vertices and no edges |
| Algorithms.LinkGraph.AddNode | algorithms.py:44 | `add_node` adds one node vertex and no edge |
| Algorithms.LinkGraph.AddEdge | algorithms.py:66 | `add_edge` adds the edge and both endpoint names as vertices |
| Algorithms.CreateGraphFromCsv | algorithms.py:9-68 | returns new node objects, each filed under its own name, whose contents are exactly `BuildLinks(rows)`; the graph gains those objects, the endpoint names and one edge per LINK row |
| Algorithms.ReadRows | algorithms.py:29-66 | the row loop: after the rows, the registry holds `BuildLinks(rows)` and every object in it is new |
| Algorithms.ReadRow | algorithms.py:31-66 | one row: a LINK row is read as `ReadLink`, any other row changes nothing |
| Algorithms.ReadLink | algorithms.py:35-66 | one LINK row `s -> t` moves the nodes' contents from `b` to `LinkNames(b, s, t)` and adds the edge `(s, t)` and both names to the graph |
| Algorithms.AddEndpoints | algorithms.py:38-59 | both endpoints exist afterwards, with a switch target's preceding node noted |
| Algorithms.AddNode | algorithms.py:39-44 | the source is created on first sight and added to the graph; an existing source is left alone |
| Algorithms.AddTargetNode | algorithms.py:47-59 | the target is created on first sight; a new switch target, or an existing switch without a preceding node, gets the source as preceding node |
| Algorithms.MarkPreceding | algorithms.py:55-59 | an existing switch target without a preceding node gets the source; any other node is unchanged |
| Algorithms.ConnectNodes | algorithms.py:62-63 | the source's out-list gains the target and the target's in-list gains the source; no other node changes |
| Algorithms.AppendOut | algorithms.py:62 | appends the name to one node's out-list; every other node keeps its state |
| Algorithms.AppendIn | algorithms.py:63 | appends the name to one node's in-list; every other node keeps its state |
| Algorithms.ConnectAndRecord | algorithms.py:62-66 | the two nodes record the link and the graph gains exactly that edge |
| Algorithms.NewNode | algorithms.py:40-43 | a new node is a switch exactly when its name has the SWITCH prefix |
| Algorithms.NewTarget | algorithms.py:48-53 | a new switch target starts with the source as its preceding node |
| Algorithms.VisitShape | algorithms.py:86-109 | the search never changes a node's name, kind or edge lists |
| Algorithms.VisitFrame | algorithms.py:99-109 | names visited before the call keep their entries |
| Algorithms.VisitPath | algorithms.py:87-109 | a path the search returns continues the path so far, repeats no name, follows registry links and ends at the target |
| Algorithms.VisitStamps | algorithms.py:90-97 | along a returned path every switch after the start records the name before it, and the target carries the stream size |
| Algorithms.VisitClosed | algorithms.py:99-109 | a search that finds nothing has visited every registry name reachable from the start and never met the target |
| Algorithms.DfsStreamFound | algorithms.py:123-128 | with the destination's name as target, a returned path starts at the source, ends at the destination, has no repeats, follows links, stamps the size on the destination and the preceding node on each switch after the source |
| Algorithms.DfsStreamComplete | algorithms.py:123-128 | with the destination's name as target, the search finds a path exactly when a registry walk joins source and destination |
| Algorithms.DfsStreamAsWrittenFindsNothing | algorithms.py:127-128 | with the destination node object as target, as written, the search returns `None` for every stream and stamps no stream size |
| Algorithms.VisitMisses | algorithms.py:94 | with a node object as target, no name compares equal, so the search returns `None` from every start |
| Algorithms.VisitStampsNothing | algorithms.py:94-97 | with a node object as target, the search sets no stream size anywhere |
| Algorithms.DfsTraverse | algorithms.py:70-109 | `_dfs_traverse` on the node objects: the path, the visited set and the nodes' new contents are exactly `DfsVisit`'s outcome |
| Algorithms.DfsTryChildren | algorithms.py:102-109 | the children loop on the node objects equals `DfsChildren` |
| Algorithms.DfsTryChild | algorithms.py:103-108 | one child of the loop: skipped, or searched with the loop stopping on a find |
| Algorithms.ArriveAt | algorithms.py:90-91 | a switch reached with a previous node records it; no other node changes |
| Algorithms.StampAt | algorithms.py:96 | the target node's stream size is set; no other node changes |
| Algorithms.Traverse | algorithms.py:128 | a search from the stream's source with nothing visited, an empty path and no previous node |
| Algorithms.DfsTraverseStream | algorithms.py:111-128 | `dfs_traverse_stream` with the destination's name: the path and the nodes' contents are those of `DfsVisit` from the source |
| Algorithms.DfsTraverseStreamAsWritten | algorithms.py:111-128 | `dfs_traverse_stream` as written, with the destination node object as target |
| Algorithms.BfsTraverseTarget | algorithms.py:131-160 | returns a fewest-name path from the source's name to the target through the nodes' out- and in-edges when one exists, and `None` exactly when the target is unreachable |
| Paths.Bfs | algorithms.py:143-160 | the queue loop returns a shortest path (a walk from source to target with no repeats and no longer than any walk) when the target is reachable, and `None` exactly when it is not; it expands each name at most once, only names reachable from the source, and all of them before giving up |
| Paths.ShortestToSelf | algorithms.py:149-150 | when source and target coincide the shortest path is `[source]` |
| Paths.AppendExtensions | algorithms.py:155-159 | appends, in children order, `path + [child]` for each child not already on the path |
| NxGraph.AddNodeSpec | Classes/networkClass.py:34 | `add_node` keeps the graph valid and adds exactly that vertex, no edge |
| NxGraph.AddNodeWithSpec | topologyOOP.py:53 | `add_node` with attributes: as above, and the vertex's attributes become the given ones |
| NxGraph.AddEdgeSpec | Classes/networkClass.py:29 | `add_edge` keeps the graph valid, makes both endpoints vertices and adds exactly the edge (both ways when undirected) |
| NxGraph.AddEdgeWithSpec | topologyOOP.py:78-82 | `add_edge` with attributes: as above, and the edge's attributes become the given ones |
| NetworkClass.TopologyRegistry | Classes/networkClass.py:31-33 | a name is registered after the rows exactly when it was before or a non-LINK row declares it; its node is the last declaration's `Node(row[1], row[0], row[3])` |
| NetworkClass.TopologyGraph | Classes/networkClass.py:26-34 | the graph stays a valid undirected graph whose vertex attributes are the registry; its vertices are the earlier ones plus every declared name and link endpoint; its edges are the earlier ones plus each link, both ways |
| NetworkClass.StepGraph | Classes/networkClass.py:26-34 | one topology row: a LINK row adds the undirected edge `row[2]`-`row[4]`, any other row adds and registers its node |
| NetworkClass.LoadedStep | Classes/networkClass.py:67-68 | a later stream row with the same name replaces the earlier entry |
| NetworkClass.ResolvePath | Classes/networkClass.py:59-65 | with both endpoints vertices: a fewest-hop path when connected, else exactly `["No Path Found"]`; with either endpoint missing, exactly `["Invalid Nodes"]` |
| NetworkClass.Network.constructor | Classes/networkClass.py:9-14 | starts empty and undirected, then reads the topology and the streams |
| NetworkClass.Network.CreateTopology | Classes/networkClass.py:16-36 | the row loop leaves the `Topology` fold of the rows and keeps the graph consistent with the registry; the streams are untouched |
| NetworkClass.Network.LoadStreams | Classes/networkClass.py:48-69 | skips the header row; afterwards each stream name holds the entry resolved from its last row, and the graph and registry are unchanged |
| NetworkClass.Network.GetStreamPath | Classes/networkClass.py:71-73 | returns the stored path exactly for a registered stream name |
| TopologyOop.StepSpec | topologyOOP.py:29-84 | one row keeps the graph valid, directed and typed, with every filed device a vertex, and adds exactly the row's link edge |
| TopologyOop.DeclareStep | topologyOOP.py:42-65 | a SWITCH or ENDSTATION row keeps the state consistent and adds no edge |
| TopologyOop.LinkStep | topologyOOP.py:66-82 | a LINK row keeps the state consistent and adds exactly the directed edge source to target |
| TopologyOop.ConnectSpec | topologyOOP.py:68-82 | a link makes both endpoints typed vertices and adds exactly its directed edge |
| TopologyOop.BuildSpec | topologyOOP.py:19-84 | after any rows the state stays consistent, and the edges are the earlier ones plus one directed edge per LINK row, so every edge endpoint is a vertex |
| TopologyOop.FirstDeclarationWins | topologyOOP.py:43-51 | first declaration wins: a name is filed under SWITCH (or ENDSTATION) exactly when it was before or some row declares it so, and its entry is the earlier one or else the first declaration's stripped fields |
| TopologyOop.StepFiling | topologyOOP.py:55-63 | one row files a declaration only when its name is not yet filed |
| TopologyOop.TypeSetOnce | topologyOOP.py:52-77 | a vertex exists after the rows exactly when it did or some row mentions it, and its type is the one it had or the one the first row that mentions it gives |
| TopologyOop.StepTypes | topologyOOP.py:52-77 | one row gives a type only to a vertex it adds |
| TopologyOop.LastLinkDataWins | topologyOOP.py:78-82 | an edge's attributes are the stripped name and values of the last LINK row between its endpoints in that direction |
| TopologyOop.IgnoredRowsChangeNothing | topologyOOP.py:37-39 | short rows and rows of an unknown type can be dropped without changing the result |
| TopologyOop.Network.constructor | topologyOOP.py:17-22 | an empty directed graph and empty declaration maps |
| TopologyOop.Network.CreateTopologyFromCsv | topologyOOP.py:24-84 | the row loop leaves the `Build` fold of the rows and keeps the network consistent |
| TopologyOop.Network.ReadRow | topologyOOP.py:29-84 | one row, with its seven fields stripped, exactly as `Step` |
| Topology.RegisterKeepsOrder | topology.py:30-34 | registration keeps each name once in insertion order, and a name once registered keeps its place |
| Topology.LastDeclarationWins | topology.py:31-34 | LINK rows never create a node; a name's node is the last non-LINK declaration's `Node(row[1], row[0], row[3])` |
| Topology.LayoutVertices | topology.py:40-41 | laying out adds exactly the registered names as vertices |
| Topology.LayoutPlaces | topology.py:38-42 | the k-th registered name sits at (100 + 200k, 100) and carries its node |
| Topology.LayoutKeeps | topology.py:40-41 | laying out leaves every other vertex's attributes alone |
| Topology.LayoutGraph | topology.py:40-41 | laying out keeps the graph valid and adds no edge |
| Topology.FixedLinksSpec | topology.py:45 | the fixed links add exactly their three vertices and both directions of each link |
| Topology.Network.constructor | topology.py:20-24 | an empty undirected graph and registry, then `create_topology` |
| Topology.Network.CreateTopology | topology.py:26-51 | the registry is the `Register` fold of the rows; the graph is the layout of the registered names plus the fixed links; the predefined streams are stored |
| Topology.Network.RegisterRows | topology.py:30-34 | the registration loop leaves the `Register` fold of the rows |
| Topology.Network.PlaceNodes | topology.py:38-42 | the layout loop, with `x` stepping by 200, leaves `Layout` of the registered names |
| Topology.Network.AddLinks | topology.py:45 | adds the two fixed links |
| Topology.Network.GetStreamPath | topology.py:53-54 | "Stream1" and "Stream2" give their fixed paths, from "E1" to "E2"; any other name gives `[]` |

## Left out

- File reading, `csv.reader` and every `print`: the input is a sequence of rows of strings.
- Layout: the `spring_layout` positions (floating point) in Classes/networkClass.py and topologyOOP.py are not modelled. topology.py's integer placement is modelled.
- The PyQt5 user interface, `allStreams` and the `__main__` blocks.
- networkx is modelled as adjacency lists plus attribute maps. Only the calls the code makes are modelled: construction, `add_node`, `add_edge` and `in`.
- NetworkClass.ResolvePath: promises some fewest-hop path. networkx's tie-breaking among equally short paths is not modelled.
- NetworkClass.Network.GetStreamPath: returns `None` for an unknown name. The default path of Classes/streamClass.py's `Stream("", "", "")` is unknown because that file is not part of this model.
- NetworkClass.StreamEntry keeps only the stream's name, endpoints and path. Classes/streamClass.py is not part of this model.
- NetworkClass.Network.constructor requires a non-LINK first topology row (`NodeFirst`). Line 36 of Classes/networkClass.py prints a node that is unbound otherwise.
- NetworkClass.Network.LoadStreams requires at least one row, because the header skip raises otherwise.
- Text.ParseInt: only ASCII digits are modelled. Python's `int()` also accepts every other Unicode decimal digit (category Nd, e.g. `int("\u0663") == 3`), for which the model returns `None`.
- StreamRecord.NewStream: inherits that gap. A numeric argument written with non-ASCII decimal digits is a failure in the model, but Python converts it.
- Text.ParseIntAlphabet: the digits it names are the ASCII ones. Python's `int()` accepts a wider alphabet, with every Unicode decimal digit.
- Algorithms.CreateGraphFromCsv: requires `AllReadable(rows)`, so every row has a type field and a LINK row also has fields 2 and 4. A shorter row, or the `[]` that `csv.reader` yields for a blank line, raises `IndexError` at algorithms.py:31 or 35-36. ReadRows and ReadRow carry the same precondition.
- NetworkClass.Network.constructor: requires `AllReadable(topologyRows)`, so every topology row has fields 0 to 3 and a LINK row also field 4. A shorter row raises `IndexError` at Classes/networkClass.py:21-23 or 28. It also requires every stream row after the header to have five fields, as below.
- NetworkClass.Network.CreateTopology: requires `AllReadable(rows)`, for the same `IndexError` at Classes/networkClass.py:21-23 and 28. The fold lemmas (TopologyRegistry, TopologyGraph, StepGraph) carry the same precondition.
- NetworkClass.Network.LoadStreams: requires every row after the header to have at least five fields (`StreamReadable`). A shorter row raises `IndexError` at Classes/networkClass.py:55-57. LoadedStep carries the same precondition.
- Topology.Network.constructor: requires `AllReadable(rows)`, so every row has field 0 and a non-LINK row also fields 1 and 3. A shorter row raises `IndexError` at topology.py:31-33.
- Topology.Network.CreateTopology: requires `AllReadable(rows)`, for the same `IndexError` at topology.py:31-33. RegisterRows, RegisterKeepsOrder and LastDeclarationWins carry the same precondition.
- The values of the `NodeType` enumeration are taken to be "LINK", "SWITCH" and "ENDSTATION"; its module is not part of this model.
- NodeModel.DescribeRoundTrip: the kind is rendered as its tag text. The enumeration's own `__str__` is not modelled.
- `Switch`, `EndStation` and `set_preceding_node` do not appear in node.py. They are modelled on the same `Node` class: a kind, plus the optional preceding node and stream size that algorithms.py reads and writes.
- A switch's preceding node is stored by name, not as a node object.
- The `visited` set of `_dfs_traverse` is passed in and returned as a value rather than shared.
- Algorithms.DfsTraverseStream requires the stream's source name to be in the registry. In the source the stream holds the node object itself; the falsy-source check of algorithms.py:124-125 crashes on its own print and is not modelled.
- Stream endpoints are kept by name in `StreamRecord.Stream`, which is all that `__repr__` and the traversals use.
- topology.py reads a fixed file name; the model takes the rows as a parameter.
- topologyOOP.py's "Error parsing row" and "Unknown row type" messages are prints; the model keeps only the skip.

## Findings

| source | as written | input that shows it | evidently intended | confidence | as-written member | corrected member |
|---|---|---|---|---|---|---|
| algorithms.py:127 | `dfs_traverse_stream` passes `stream.destination_node`, a node object, as `target_id`, which `_dfs_traverse` compares with node names (line 94) | any stream whose destination is reachable from its source, e.g. a LINK row `ES1 -> SW1` and a stream from ES1 to SW1: no name equals the node object, so the search returns `None` | pass the destination's name, as the docstring of `_dfs_traverse` says (line 77) | not executed | Algorithms.DfsStreamAsWrittenFindsNothing | Algorithms.DfsStreamComplete |
