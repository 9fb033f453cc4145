/**
 * Classes/networkClass.py: a network read from two tables. Topology rows either declare a device
 * (registered as a `NodeClass.Node` under its name, the last declaration winning, and added as an
 * undirected-graph vertex carrying that node) or, when the type field is "LINK", join fields 2 and 4
 * by an undirected edge. Stream rows, after a header row, are resolved to a fewest-hop path between
 * fields 3 and 4, or to one of two sentinel paths, and stored under the stream's name.
 *
 * The topology loop is specified by the fold `Topology` over the rows read so far. The stream loop
 * is specified relationally by `Loaded`, because any fewest-hop path is an acceptable answer.
 */
module NetworkClass {
  import opened Wrappers
  import opened Text
  import opened NodeTypes
  import opened NodeClass
  import NxGraph
  import Paths

  type Row = seq<string>

  /** The undirected graph, each declared vertex carrying its node object as its only attribute. */
  type Topo = NxGraph.Graph<Node, ()>

  const NoPathFound: string := "No Path Found"
  const InvalidNodes: string := "Invalid Nodes"

  // ---------------------------------------------------------------------------
  // create_topology

  /** Lines 21-28: every row has fields 0 to 3, and a LINK row also field 4. */
  predicate Readable(row: Row)
  {
    |row| >= 4 && (row[0] == LinkTag ==> |row| >= 5)
  }

  predicate AllReadable(rows: seq<Row>)
  {
    forall r :: r in rows ==> Readable(r)
  }

  /** Line 36 prints the last node created, which is unbound when the first row is a LINK row. */
  predicate NodeFirst(rows: seq<Row>)
  {
    rows == [] || (|rows[0]| > 0 && rows[0][0] != LinkTag)
  }

  /** The graph and the registry together. */
  datatype State = State(graph: Topo, nodes: map<string, Node>)

  /** Lines 26-34 for one row. */
  function TopologyStep(st: State, row: Row): State
    requires Readable(row)
  {
    if row[0] == LinkTag then st.(graph := NxGraph.AddEdge(st.graph, row[2], row[4]))
    else
      var node := Node(row[1], row[0], row[3]);
      State(NxGraph.AddNodeWith(st.graph, node.name, node), st.nodes[node.name := node])
  }

  /** The state after the rows, read in order from `st`. */
  function Topology(st: State, rows: seq<Row>): State
    requires AllReadable(rows)
    decreases |rows|
  {
    if rows == [] then st else TopologyStep(Topology(st, rows[..|rows| - 1]), rows[|rows| - 1])
  }

  /** One more row of the fold. */
  lemma TopologyUnfold(st: State, rows: seq<Row>, i: nat)
    requires i < |rows| && AllReadable(rows)
    ensures AllReadable(rows[..i]) && AllReadable(rows[..i + 1]) && Readable(rows[i])
    ensures Topology(st, rows[..i + 1]) == TopologyStep(Topology(st, rows[..i]), rows[i])
  {
    assert rows[i] in rows;
    assert rows[..i + 1][..i] == rows[..i];
  }

  /** The node the last declaration of `name` among `rows` creates, if there is one. */
  function LastDeclaration(rows: seq<Row>, name: string): Option<Node>
    requires AllReadable(rows)
    decreases |rows|
  {
    if rows == [] then None
    else
      Prefix(rows);
      var row := rows[|rows| - 1];
      if row[0] != LinkTag && row[1] == name then Some(Node(row[1], row[0], row[3]))
      else LastDeclaration(rows[..|rows| - 1], name)
  }

  /** The names a row makes vertices. */
  function RowVertices(row: Row): set<string>
    requires Readable(row)
  {
    if row[0] == LinkTag then {row[2], row[4]} else {row[1]}
  }

  /** The ordered pairs a row adds to the adjacency: both directions of a link. */
  function RowPairs(row: Row): set<(string, string)>
    requires Readable(row)
  {
    if row[0] == LinkTag then {(row[2], row[4]), (row[4], row[2])} else {}
  }

  function Vertices(rows: seq<Row>): set<string>
    requires AllReadable(rows)
    decreases |rows|
  {
    if rows == [] then {} else Vertices(rows[..|rows| - 1]) + RowVertices(rows[|rows| - 1])
  }

  function Pairs(rows: seq<Row>): set<(string, string)>
    requires AllReadable(rows)
    decreases |rows|
  {
    if rows == [] then {} else Pairs(rows[..|rows| - 1]) + RowPairs(rows[|rows| - 1])
  }

  /** Every node is filed under its own name. */
  predicate Filed(nodes: map<string, Node>)
  {
    forall k :: k in nodes ==> nodes[k].name == k
  }

  /** A valid undirected graph whose vertex attributes are exactly the registry. */
  ghost predicate Consistent(st: State)
  {
    NxGraph.Valid(st.graph) && !st.graph.directed && st.graph.attrs == st.nodes && Filed(st.nodes)
  }

  lemma Prefix(rows: seq<Row>)
    requires AllReadable(rows) && rows != []
    ensures AllReadable(rows[..|rows| - 1]) && Readable(rows[|rows| - 1])
  {
    assert rows[|rows| - 1] in rows;
  }

  /**
   * A name is registered after the rows exactly when it was before or some row declares it; its node
   * is the one the last declaration creates, or the earlier one when no row declares it.
   */
  lemma {:induction false} TopologyRegistry(st: State, rows: seq<Row>, k: string)
    requires AllReadable(rows)
    ensures var r := Topology(st, rows).nodes;
      && (k in r <==> k in st.nodes || LastDeclaration(rows, k).Some?)
      && (k in r ==> r[k] == if LastDeclaration(rows, k).Some? then LastDeclaration(rows, k).value else st.nodes[k])
    decreases |rows|
  {
    if rows != [] {
      Prefix(rows);
      TopologyRegistry(st, rows[..|rows| - 1], k);
    }
  }

  /**
   * The graph after the rows: still a valid undirected graph whose attributes are the registry, with
   * exactly the earlier vertices plus every declared name and link endpoint, and exactly the earlier
   * edges plus each link, both ways.
   */
  lemma {:induction false} TopologyGraph(st: State, rows: seq<Row>)
    requires AllReadable(rows) && Consistent(st)
    ensures var r := Topology(st, rows);
      && Consistent(r)
      && r.graph.adj.Keys == st.graph.adj.Keys + Vertices(rows)
      && NxGraph.Edges(r.graph.adj) == NxGraph.Edges(st.graph.adj) + Pairs(rows)
    decreases |rows|
  {
    if rows != [] {
      Prefix(rows);
      var p := rows[..|rows| - 1];
      TopologyGraph(st, p);
      StepGraph(Topology(st, p), rows[|rows| - 1]);
      var mid := Topology(st, p);
      var row := rows[|rows| - 1];
      NxGraph.UnionAssoc(st.graph.adj.Keys, Vertices(p), RowVertices(row));
      NxGraph.UnionAssoc(NxGraph.Edges(st.graph.adj), Pairs(p), RowPairs(row));
    }
  }

  /** TopologyGraph for one row. */
  lemma StepGraph(st: State, row: Row)
    requires Readable(row) && Consistent(st)
    ensures var r := TopologyStep(st, row);
      && Consistent(r)
      && r.graph.adj.Keys == st.graph.adj.Keys + RowVertices(row)
      && NxGraph.Edges(r.graph.adj) == NxGraph.Edges(st.graph.adj) + RowPairs(row)
  {
    if row[0] == LinkTag {
      NxGraph.AddEdgeSpec(st.graph, row[2], row[4]);
    } else {
      NxGraph.AddNodeWithSpec(st.graph, row[1], Node(row[1], row[0], row[3]));
    }
  }

  // ---------------------------------------------------------------------------
  // load_streams

  /**
   * What Classes/streamClass.py's `Stream(stream_name, source_node, destination_node)` holds once
   * line 68 has set its `path`.
   */
  datatype StreamEntry = StreamEntry(streamName: string, sourceNode: string, destinationNode: string, path: seq<string>)

  /** Lines 55-57: a stream row has fields 1, 3 and 4. */
  predicate StreamReadable(row: Row)
  {
    |row| >= 5
  }

  predicate AllStreamsReadable(rows: seq<Row>)
  {
    forall r :: r in rows ==> StreamReadable(r)
  }

  /**
   * Lines 59-65: with both endpoints vertices, a fewest-hop path between them when they are
   * connected and `["No Path Found"]` when not; `["Invalid Nodes"]` when either is missing.
   */
  ghost predicate ResolvedPath(g: Topo, s: string, d: string, path: seq<string>)
  {
    if NxGraph.HasNode(g, s) && NxGraph.HasNode(g, d) then
      if Paths.Reachable(g.adj, s, d) then Paths.IsShortestPath(g.adj, s, d, path) else path == [NoPathFound]
    else path == [InvalidNodes]
  }

  /** The entry a stream row leaves. */
  ghost predicate Resolved(g: Topo, row: Row, e: StreamEntry)
    requires StreamReadable(row)
  {
    e.streamName == row[1] && e.sourceNode == row[3] && e.destinationNode == row[4]
    && ResolvedPath(g, row[3], row[4], e.path)
  }

  /** The last row among `rows` for stream `name`, if there is one. */
  function LastStream(rows: seq<Row>, name: string): Option<Row>
    requires AllStreamsReadable(rows)
    ensures var r := LastStream(rows, name); r.Some? ==> StreamReadable(r.value) && r.value[1] == name
    decreases |rows|
  {
    if rows == [] then None
    else
      assert rows[|rows| - 1] in rows && forall r :: r in rows[..|rows| - 1] ==> r in rows;
      if rows[|rows| - 1][1] == name then Some(rows[|rows| - 1])
      else LastStream(rows[..|rows| - 1], name)
  }

  function StreamNames(rows: seq<Row>): set<string>
    requires AllStreamsReadable(rows)
    decreases |rows|
  {
    if rows == [] then {}
    else
      assert rows[|rows| - 1] in rows && forall r :: r in rows[..|rows| - 1] ==> r in rows;
      StreamNames(rows[..|rows| - 1]) + {rows[|rows| - 1][1]}
  }

  /**
   * The streams after the rows: the earlier names plus the rows' names; a name's entry comes from
   * its last row, or is the earlier entry when no row names it.
   */
  ghost predicate Loaded(before: map<string, StreamEntry>, rows: seq<Row>, g: Topo, after: map<string, StreamEntry>)
    requires AllStreamsReadable(rows)
  {
    && after.Keys == before.Keys + StreamNames(rows)
    && forall k :: k in after ==>
         if LastStream(rows, k).Some? then Resolved(g, LastStream(rows, k).value, after[k])
         else k in before && after[k] == before[k]
  }

  /** One more row: its stream's entry replaces whatever was stored under that name. */
  lemma LoadedStep(before: map<string, StreamEntry>, rows: seq<Row>, i: nat, g: Topo,
                   after: map<string, StreamEntry>, e: StreamEntry)
    requires i < |rows| && AllStreamsReadable(rows)
    requires AllStreamsReadable(rows[..i]) && AllStreamsReadable(rows[..i + 1])
    requires Loaded(before, rows[..i], g, after) && Resolved(g, rows[i], e)
    ensures Loaded(before, rows[..i + 1], g, after[rows[i][1] := e])
  {
    var p := rows[..i + 1];
    assert p[..|p| - 1] == rows[..i];
    assert p[|p| - 1] == rows[i];
  }

  /** `nx.shortest_path` behind the guard of line 59, with its `NetworkXNoPath` case and the guard's else-branch. */
  method ResolvePath(g: Topo, s: string, d: string) returns (path: seq<string>)
    ensures ResolvedPath(g, s, d, path)
  {
    if s in g.adj && d in g.adj {
      var r, expanded := Paths.Bfs(g.adj, s, d);
      if r.Some? {
        path := r.value;
      } else {
        path := [NoPathFound];
      }
    } else {
      path := [InvalidNodes];
    }
  }

  // ---------------------------------------------------------------------------
  // The Network class

  class Network {
    var graph: Topo
    var nodes: map<string, Node>
    var streams: map<string, StreamEntry>

    ghost predicate Valid()
      reads this
    {
      Consistent(State(graph, nodes))
    }

    /**
     * `Network(topologyCsv, streamCsv)`: an empty undirected graph and empty registries, then the
     * topology rows, then the stream rows.
     */
    constructor (topologyRows: seq<Row>, streamRows: seq<Row>)
      requires AllReadable(topologyRows) && NodeFirst(topologyRows)
      requires |streamRows| >= 1 && AllStreamsReadable(streamRows[1..])
      ensures Valid()
      ensures State(graph, nodes) == Topology(State(NxGraph.Empty(false), map[]), topologyRows)
      ensures Loaded(map[], streamRows[1..], graph, streams)
    {
      graph := NxGraph.Empty(false);
      nodes := map[];
      streams := map[];
      new;
      CreateTopology(topologyRows);
      LoadStreams(streamRows);
    }

    /** `create_topology`: the rows, in order, as `Topology` states; the streams are untouched. */
    method CreateTopology(rows: seq<Row>)
      requires AllReadable(rows) && NodeFirst(rows) && Valid()
      modifies this
      ensures Valid()
      ensures State(graph, nodes) == Topology(old(State(graph, nodes)), rows)
      ensures streams == old(streams)
    {
      ghost var st0 := State(graph, nodes);
      var i := 0;
      while i < |rows|
        invariant i <= |rows| && AllReadable(rows[..i])
        invariant State(graph, nodes) == Topology(st0, rows[..i]) && streams == old(streams)
      {
        var row := rows[i];
        TopologyUnfold(st0, rows, i);
        if row[0] == LinkTag {
          graph := NxGraph.AddEdge(graph, row[2], row[4]);
        } else {
          var node := Node(row[1], row[0], row[3]);
          nodes := nodes[node.name := node];
          graph := NxGraph.AddNodeWith(graph, node.name, node);
        }
        i := i + 1;
      }
      assert rows[..i] == rows;
      TopologyGraph(st0, rows);
    }

    /** `load_streams`: skip the header row, then store each stream's resolved path under its name. */
    method LoadStreams(rows: seq<Row>)
      requires |rows| >= 1 && AllStreamsReadable(rows[1..])
      modifies this
      ensures graph == old(graph) && nodes == old(nodes)
      ensures Loaded(old(streams), rows[1..], graph, streams)
    {
      var data := rows[1..];
      var i := 0;
      while i < |data|
        invariant i <= |data| && AllStreamsReadable(data[..i])
        invariant graph == old(graph) && nodes == old(nodes)
        invariant Loaded(old(streams), data[..i], graph, streams)
      {
        var row := data[i];
        assert row in data;
        var path := ResolvePath(graph, row[3], row[4]);
        var entry := StreamEntry(row[1], row[3], row[4], path);
        assert forall r :: r in data[..i + 1] ==> r in data;
        LoadedStep(old(streams), data, i, graph, streams, entry);
        streams := streams[row[1] := entry];
        i := i + 1;
      }
      assert data[..i] == data;
    }

    /** `get_stream_path`: the path stored for a registered stream name. */
    function GetStreamPath(name: string): (r: Option<seq<string>>)
      reads this
      ensures r.Some? <==> name in streams
      ensures r.Some? ==> r.value == streams[name].path
    {
      if name in streams then Some(streams[name].path) else None
    }
  }
}
