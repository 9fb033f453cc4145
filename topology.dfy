/**
 * topology.py: the early network. Every row that is not a LINK row registers
 * `Node(field 1, field 0, field 3)` under its name; a name declared again gets the new node but
 * keeps its place in the registry's order. The registered names are then laid out left to right,
 * the k-th (from 0) at (100 + 200k, 100), as vertices of an undirected graph that also carry their
 * node; two fixed links are added, and two fixed stream paths are stored.
 *
 * The node class is `NodeClass.Node`, which this file defines identically.
 */
module Topology {
  import opened Wrappers
  import opened Text
  import opened NodeTypes
  import opened NodeClass
  import NxGraph

  type Row = seq<string>

  /** The attributes each registered vertex carries: its position and its node. */
  datatype Placement = Placement(x: int, y: int, node: Node)

  type Topo = NxGraph.Graph<Placement, ()>

  const Spacing: int := 200
  const Origin: int := 100

  /** Lines 31-33: field 0 is read from every row, fields 1 and 3 from every row that is not a link. */
  predicate Readable(row: Row)
  {
    |row| >= 1 && (row[0] != LinkTag ==> |row| >= 4)
  }

  predicate AllReadable(rows: seq<Row>)
  {
    forall r :: r in rows ==> Readable(r)
  }

  /** The registry as a Python dictionary keeps it: the names in insertion order, and the node under each name. */
  datatype Registry = Registry(order: seq<string>, byName: map<string, Node>)

  /** The order lists each registered name once, and every node is filed under its own name. */
  ghost predicate WellFormed(reg: Registry)
  {
    && NoRepeats(reg.order)
    && (forall k :: k in reg.byName <==> k in reg.order)
    && (forall k :: k in reg.byName ==> reg.byName[k].name == k)
  }

  /** Lines 31-34 for one row. */
  function RegisterStep(reg: Registry, row: Row): Registry
    requires Readable(row)
  {
    if row[0] == LinkTag then reg
    else
      var node := Node(row[1], row[0], row[3]);
      Registry(if node.name in reg.byName then reg.order else reg.order + [node.name], reg.byName[node.name := node])
  }

  /** The registry after the rows, read in order from `reg`. */
  function Register(reg: Registry, rows: seq<Row>): Registry
    requires AllReadable(rows)
    decreases |rows|
  {
    if rows == [] then reg
    else
      assert forall r :: r in rows[..|rows| - 1] ==> r in rows;
      assert rows[|rows| - 1] in rows;
      RegisterStep(Register(reg, rows[..|rows| - 1]), rows[|rows| - 1])
  }

  /** The node the last non-link row naming `name` creates, if there is one. */
  function LastDeclaration(rows: seq<Row>, name: string): Option<Node>
    requires AllReadable(rows)
    decreases |rows|
  {
    if rows == [] then None
    else
      assert forall r :: r in rows[..|rows| - 1] ==> r in rows;
      var row := rows[|rows| - 1];
      assert row in rows;
      if row[0] != LinkTag && row[1] == name then Some(Node(row[1], row[0], row[3]))
      else LastDeclaration(rows[..|rows| - 1], name)
  }

  lemma RegisterUnfold(reg: Registry, rows: seq<Row>, i: nat)
    requires i < |rows| && AllReadable(rows)
    ensures AllReadable(rows[..i]) && Readable(rows[i])
    ensures Register(reg, rows[..i + 1]) == RegisterStep(Register(reg, rows[..i]), rows[i])
  {
    assert rows[i] in rows;
    assert forall r :: r in rows[..i] ==> r in rows;
    assert rows[..i + 1][..i] == rows[..i];
  }

  /**
   * Registration keeps the registry well formed; the earlier order is a prefix of the new one, so a
   * name once registered keeps its place.
   */
  lemma {:induction false} RegisterKeepsOrder(reg: Registry, rows: seq<Row>)
    requires AllReadable(rows) && WellFormed(reg)
    ensures var r := Register(reg, rows);
      WellFormed(r) && |reg.order| <= |r.order| && r.order[..|reg.order|] == reg.order
    decreases |rows|
  {
    if rows != [] {
      var p := rows[..|rows| - 1];
      RegisterUnfold(reg, rows, |rows| - 1);
      assert rows[..|rows| - 1 + 1] == rows;
      RegisterKeepsOrder(reg, p);
      var mid := Register(reg, p);
      var row := rows[|rows| - 1];
      if row[0] != LinkTag && row[1] !in mid.byName {
        var o := mid.order + [row[1]];
        assert o[..|reg.order|] == mid.order[..|reg.order|];
        assert forall i :: 0 <= i < |mid.order| ==> o[i] == mid.order[i];
      }
    }
  }

  /**
   * Link rows never create a node, and the last declaration wins: a name is registered after the
   * rows exactly when it was before or a non-link row declares it, and its node is the last such
   * declaration's, or the earlier node when no row declares it.
   */
  lemma {:induction false} LastDeclarationWins(reg: Registry, rows: seq<Row>, k: string)
    requires AllReadable(rows)
    ensures var r := Register(reg, rows).byName;
      && (k in r <==> k in reg.byName || LastDeclaration(rows, k).Some?)
      && (k in r ==> r[k] == if LastDeclaration(rows, k).Some? then LastDeclaration(rows, k).value else reg.byName[k])
    decreases |rows|
  {
    if rows != [] {
      RegisterUnfold(reg, rows, |rows| - 1);
      assert rows[..|rows| - 1 + 1] == rows;
      LastDeclarationWins(reg, rows[..|rows| - 1], k);
    }
  }

  /** Lines 38-42: the first `n` registered names laid out from `g`, the k-th at (100 + 200k, 100). */
  function Layout(g: Topo, reg: Registry, n: nat): Topo
    requires n <= |reg.order| && WellFormed(reg)
    decreases n
  {
    if n == 0 then g
    else
      var name := reg.order[n - 1];
      NxGraph.AddNodeWith(Layout(g, reg, n - 1), name, Placement(Origin + Spacing * (n - 1), Origin, reg.byName[name]))
  }

  const FirstSwitch: string := "sw_0_0"
  const MiddleSwitch: string := "sw_0_3"
  const LastSwitch: string := "sw_0_5"

  /** Line 45. */
  function AddFixedLinks(g: Topo): Topo
  {
    NxGraph.AddEdge(NxGraph.AddEdge(g, FirstSwitch, MiddleSwitch), MiddleSwitch, LastSwitch)
  }

  /** Lines 48-51. */
  function PredefinedStreams(): map<string, seq<string>>
  {
    map["Stream1" := ["E1", "S1", "S2", "S3", "E2"], "Stream2" := ["E1", "S1", "S3", "E2"]]
  }

  /** Laying out keeps a graph valid and adds no edge. */
  lemma {:induction false} LayoutGraph(g: Topo, reg: Registry, n: nat)
    requires n <= |reg.order| && WellFormed(reg) && NxGraph.Valid(g)
    ensures var r := Layout(g, reg, n);
      NxGraph.Valid(r) && r.directed == g.directed && NxGraph.Edges(r.adj) == NxGraph.Edges(g.adj)
    decreases n
  {
    if n > 0 {
      LayoutGraph(g, reg, n - 1);
      var name := reg.order[n - 1];
      assert name in reg.byName;
      NxGraph.AddNodeWithSpec(Layout(g, reg, n - 1), name, Placement(Origin + Spacing * (n - 1), Origin, reg.byName[name]));
    }
  }

  /** Laying out adds exactly the first `n` names as vertices. */
  lemma {:induction false} LayoutVertices(g: Topo, reg: Registry, n: nat, v: string)
    requires n <= |reg.order| && WellFormed(reg)
    ensures v in Layout(g, reg, n).adj <==> v in g.adj || v in reg.order[..n]
    decreases n
  {
    if n > 0 {
      LayoutVertices(g, reg, n - 1, v);
      assert reg.order[..n] == reg.order[..n - 1] + [reg.order[n - 1]];
    }
  }

  /** After laying out, the k-th name (from 0) sits at (100 + 200k, 100) and carries its registered node. */
  lemma {:induction false} LayoutPlaces(g: Topo, reg: Registry, n: nat, k: nat)
    requires n <= |reg.order| && WellFormed(reg) && k < n
    ensures var r := Layout(g, reg, n);
      reg.order[k] in r.attrs && r.attrs[reg.order[k]] == Placement(Origin + Spacing * k, Origin, reg.byName[reg.order[k]])
    decreases n
  {
    if k < n - 1 {
      LayoutPlaces(g, reg, n - 1, k);
      assert reg.order[k] != reg.order[n - 1];
    }
  }

  /** Laying out leaves the attributes of every vertex outside the first `n` names as they were. */
  lemma {:induction false} LayoutKeeps(g: Topo, reg: Registry, n: nat, v: string)
    requires n <= |reg.order| && WellFormed(reg) && v in g.attrs && v !in reg.order[..n]
    ensures var r := Layout(g, reg, n); v in r.attrs && r.attrs[v] == g.attrs[v]
    decreases n
  {
    if n > 0 {
      assert reg.order[..n - 1] <= reg.order[..n];
      assert reg.order[n - 1] in reg.order[..n];
      LayoutKeeps(g, reg, n - 1, v);
    }
  }

  /** The fixed links add exactly their three vertices and both directions of each link. */
  lemma FixedLinksSpec(g: Topo)
    requires NxGraph.Valid(g) && !g.directed
    ensures var r := AddFixedLinks(g);
      && NxGraph.Valid(r) && !r.directed && r.attrs == g.attrs
      && r.adj.Keys == g.adj.Keys + {FirstSwitch, MiddleSwitch} + {MiddleSwitch, LastSwitch}
      && NxGraph.Edges(r.adj) == NxGraph.Edges(g.adj)
           + NxGraph.NewEdges(false, FirstSwitch, MiddleSwitch) + NxGraph.NewEdges(false, MiddleSwitch, LastSwitch)
  {
    var g1 := NxGraph.AddEdge(g, FirstSwitch, MiddleSwitch);
    NxGraph.AddEdgeSpec(g, FirstSwitch, MiddleSwitch);
    NxGraph.AddEdgeSpec(g1, MiddleSwitch, LastSwitch);
  }

  class Network {
    var graph: Topo
    var nodes: Registry
    var streams: map<string, seq<string>>

    /** A valid undirected graph, a well-formed registry, and the predefined streams. */
    ghost predicate Valid()
      reads this
    {
      NxGraph.Valid(graph) && !graph.directed && WellFormed(nodes) && streams == PredefinedStreams()
    }

    /** `Network()`: an empty undirected graph and registry, then `create_topology` on the rows. */
    constructor (rows: seq<Row>)
      requires AllReadable(rows)
      ensures Valid()
      ensures nodes == Register(Registry([], map[]), rows)
      ensures graph == AddFixedLinks(Layout(NxGraph.Empty(false), nodes, |nodes.order|))
    {
      graph := NxGraph.Empty(false);
      nodes := Registry([], map[]);
      streams := map[];
      new;
      assert NxGraph.Edges(graph.adj) == {};
      CreateTopology(rows);
    }

    /**
     * `create_topology`: register the rows, lay the registered names out in order, add the fixed
     * links, and store the predefined streams.
     */
    method CreateTopology(rows: seq<Row>)
      requires AllReadable(rows) && NxGraph.Valid(graph) && !graph.directed && WellFormed(nodes)
      modifies this
      ensures Valid()
      ensures nodes == Register(old(nodes), rows)
      ensures graph == AddFixedLinks(Layout(old(graph), nodes, |nodes.order|))
    {
      RegisterRows(rows);
      PlaceNodes();
      LayoutGraph(old(graph), nodes, |nodes.order|);
      AddLinks();
      streams := PredefinedStreams();
    }

    /** Line 45: the two fixed links. */
    method AddLinks()
      requires NxGraph.Valid(graph) && !graph.directed
      modifies this
      ensures graph == AddFixedLinks(old(graph)) && NxGraph.Valid(graph) && !graph.directed
      ensures nodes == old(nodes) && streams == old(streams)
    {
      FixedLinksSpec(graph);
      graph := AddFixedLinks(graph);
    }

    /** Lines 30-35: each row, in order, as `RegisterStep`. */
    method RegisterRows(rows: seq<Row>)
      requires AllReadable(rows) && WellFormed(nodes)
      modifies this
      ensures nodes == Register(old(nodes), rows) && WellFormed(nodes)
      ensures graph == old(graph) && streams == old(streams)
    {
      var i := 0;
      while i < |rows|
        invariant i <= |rows| && AllReadable(rows[..i])
        invariant nodes == Register(old(nodes), rows[..i])
        invariant graph == old(graph) && streams == old(streams)
      {
        var row := rows[i];
        RegisterUnfold(old(nodes), rows, i);
        if row[0] != LinkTag {
          var node := Node(row[1], row[0], row[3]);
          if node.name !in nodes.byName {
            nodes := nodes.(order := nodes.order + [node.name]);
          }
          nodes := nodes.(byName := nodes.byName[node.name := node]);
        }
        i := i + 1;
      }
      assert rows[..i] == rows;
      RegisterKeepsOrder(old(nodes), rows);
    }

    /** Lines 38-42: the registered names, in order, as vertices placed 200 apart. */
    method PlaceNodes()
      requires WellFormed(nodes)
      modifies this
      ensures nodes == old(nodes) && streams == old(streams)
      ensures graph == Layout(old(graph), nodes, |nodes.order|)
    {
      var x := Origin;
      var k := 0;
      while k < |nodes.order|
        invariant k <= |nodes.order| && x == Origin + Spacing * k
        invariant nodes == old(nodes) && streams == old(streams)
        invariant graph == Layout(old(graph), nodes, k)
      {
        var name := nodes.order[k];
        assert name in nodes.byName;
        graph := NxGraph.AddNodeWith(graph, name, Placement(x, Origin, nodes.byName[name]));
        x := x + Spacing;
        k := k + 1;
      }
    }

    /** `get_stream_path`: a predefined stream's path, or the empty path for any other name. */
    function GetStreamPath(name: string): (r: seq<string>)
      requires Valid()
      reads this
      ensures r == [] <==> name != "Stream1" && name != "Stream2"
      ensures r != [] ==> r[0] == "E1" && r[|r| - 1] == "E2"
      ensures name == "Stream1" ==> r == ["E1", "S1", "S2", "S3", "E2"]
      ensures name == "Stream2" ==> r == ["E1", "S1", "S3", "E2"]
    {
      if name in streams then streams[name] else []
    }
  }
}
