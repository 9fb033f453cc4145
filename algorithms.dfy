/**
 * algorithms.py: the link-driven graph builder and the two traversals over its node registry.
 *
 * `create_graph_from_csv` reads LINK rows, creates each endpoint on first sight (a switch when its
 * name starts with the SWITCH tag), appends neighbour names to the nodes' edge lists, records a
 * switch's preceding node and adds the link to the module-level directed graph. Its behaviour is
 * specified by the fold `BuildLinks` over the rows read so far.
 *
 * `_dfs_traverse` is specified by the mutually recursive `DfsVisit`/`DfsChildren`, and
 * `bfs_traverse_target` is the breadth-first search of module Paths over the nodes' children.
 */
module Algorithms {
  import opened Wrappers
  import opened Text
  import opened NodeTypes
  import opened NodeModel
  import StreamRecord
  import Paths
  import NxGraph

  type Row = seq<string>
  type Registry = map<string, NodeState>

  // ---------------------------------------------------------------------------
  // create_graph_from_csv

  /** A row the builder reads without an `IndexError`: a type field, and fields 2 and 4 on a LINK row. */
  predicate Readable(row: Row)
  {
    |row| > 0 && (Strip(row[0]) == LinkTag ==> |row| >= 5)
  }

  predicate AllReadable(rows: seq<Row>)
  {
    forall r :: r in rows ==> Readable(r)
  }

  predicate IsLink(row: Row)
  {
    |row| >= 5 && Strip(row[0]) == LinkTag
  }

  function SourceOf(row: Row): string
    requires IsLink(row)
  {
    Strip(row[2])
  }

  function TargetOf(row: Row): string
    requires IsLink(row)
  {
    Strip(row[4])
  }

  /** The kind a name gets when it is first seen. */
  function KindFor(name: string): Kind
  {
    if StartsWith(name, SwitchTag) then Switch else EndStation
  }

  function Fresh(name: string): NodeState
  {
    NodeState(name, KindFor(name), [], [], None, None)
  }

  /** Lines 39-44: the source is created on first sight. */
  function AddNamed(nodes: Registry, s: string): (r: Registry)
    ensures r.Keys == nodes.Keys + {s}
  {
    if s in nodes then nodes else nodes[s := Fresh(s)]
  }

  /** Lines 47-59: the target is created on first sight; a switch target without a preceding node gets the source. */
  function NoteTarget(nodes: Registry, s: string, t: string): (r: Registry)
    ensures r.Keys == nodes.Keys + {t}
  {
    if t !in nodes then nodes[t := Arrived(s, t)]
    else if nodes[t].kind == Switch && nodes[t].preceding.None? then nodes[t := nodes[t].(preceding := Some(s))]
    else nodes
  }

  /** The entry a target first seen on the link `s -> t` gets. */
  function Arrived(s: string, t: string): NodeState
  {
    if KindFor(t) == Switch then Fresh(t).(preceding := Some(s)) else Fresh(t)
  }

  /** The effect of the link `s -> t` on the registry. */
  function LinkNames(nodes: Registry, s: string, t: string): (r: Registry)
    ensures r.Keys == nodes.Keys + {s, t}
  {
    Connect(NoteTarget(AddNamed(nodes, s), s, t), s, t)
  }

  /** Lines 62-63: `t` joins the end of the source's outgoing list and `s` the end of the target's incoming list. */
  function Connect(nodes: Registry, s: string, t: string): (r: Registry)
    requires s in nodes && t in nodes
    ensures r.Keys == nodes.Keys
  {
    var n3 := nodes[s := nodes[s].(outEdges := nodes[s].outEdges + [t])];
    n3[t := n3[t].(inEdges := n3[t].inEdges + [s])]
  }

  /** The edge a row contributes: one for a link row, none otherwise. */
  function RowEdges(row: Row): set<(string, string)>
  {
    if IsLink(row) then {(SourceOf(row), TargetOf(row))} else {}
  }

  /** The names a row mentions as link endpoints. */
  function RowNames(row: Row): set<string>
  {
    if IsLink(row) then {SourceOf(row), TargetOf(row)} else {}
  }

  /** The effect of one row on the registry. */
  function LinkStep(nodes: Registry, row: Row): (r: Registry)
    ensures r.Keys == nodes.Keys + RowNames(row)
  {
    if IsLink(row) then LinkNames(nodes, SourceOf(row), TargetOf(row)) else nodes
  }

  /** What the link `s -> t` does to the entry for one name `k`, starting from its old entry or a fresh one. */
  lemma LinkNamesAt(nodes: Registry, s: string, t: string, k: string)
    requires k in nodes ==> nodes[k].name == k && nodes[k].kind == KindFor(k)
    ensures k in LinkNames(nodes, s, t) <==> k in nodes || k == s || k == t
    ensures k in LinkNames(nodes, s, t) ==>
      var base := if k in nodes then nodes[k] else Fresh(k);
      var e := LinkNames(nodes, s, t)[k];
      && e.name == base.name && e.kind == base.kind && e.streamSize == base.streamSize
      && e.outEdges == base.outEdges + (if k == s then [t] else [])
      && e.inEdges == base.inEdges + (if k == t then [s] else [])
      && e.preceding == (if k == t && base.kind == Switch && base.preceding.None? then Some(s) else base.preceding)
  {
    var n1 := AddNamed(nodes, s);
    var n2 := NoteTarget(n1, s, t);
    AddNamedAt(nodes, s, k);
    NoteTargetAt(n1, s, t, k);
    if k in n2 {
      ConnectAt(n2, s, t, k);
    }
  }

  lemma AddNamedAt(nodes: Registry, s: string, k: string)
    ensures k in AddNamed(nodes, s) <==> k in nodes || k == s
    ensures k in AddNamed(nodes, s) ==> AddNamed(nodes, s)[k] == if k in nodes then nodes[k] else Fresh(k)
  {
  }

  lemma NoteTargetAt(nodes: Registry, s: string, t: string, k: string)
    requires k in nodes ==> nodes[k].kind == KindFor(k)
    ensures k in NoteTarget(nodes, s, t) <==> k in nodes || k == t
    ensures k in NoteTarget(nodes, s, t) ==>
      var base := if k in nodes then nodes[k] else Fresh(k);
      NoteTarget(nodes, s, t)[k] == if k == t && base.kind == Switch && base.preceding.None? then base.(preceding := Some(s)) else base
  {
  }

  lemma ConnectAt(nodes: Registry, s: string, t: string, k: string)
    requires s in nodes && t in nodes && k in nodes
    ensures Connect(nodes, s, t)[k] ==
      nodes[k].(outEdges := nodes[k].outEdges + (if k == s then [t] else []),
                inEdges := nodes[k].inEdges + (if k == t then [s] else []))
  {
  }

  /** The registry after reading `rows`. */
  function BuildLinks(rows: seq<Row>): Registry
  {
    if rows == [] then map[] else LinkStep(BuildLinks(rows[..|rows| - 1]), rows[|rows| - 1])
  }

  /** The edges the builder adds to the graph. */
  function LinkEdges(rows: seq<Row>): set<(string, string)>
  {
    if rows == [] then {}
    else
      var r := rows[|rows| - 1];
      LinkEdges(rows[..|rows| - 1]) + RowEdges(r)
  }

  // Reference definitions the builder is proved against.

  /** The LINK rows, in order. */
  function LinkRows(rows: seq<Row>): (ls: seq<Row>)
    ensures forall r :: r in ls ==> IsLink(r) && r in rows
  {
    if rows == [] then []
    else LinkRows(rows[..|rows| - 1]) + (if IsLink(rows[|rows| - 1]) then [rows[|rows| - 1]] else [])
  }

  /** The names that are an endpoint of some LINK row. */
  function Endpoints(rows: seq<Row>): set<string>
  {
    Sources(rows) + Targets(rows)
  }

  function Sources(rows: seq<Row>): set<string>
  {
    set r | r in rows && IsLink(r) :: SourceOf(r)
  }

  function Targets(rows: seq<Row>): set<string>
  {
    set r | r in rows && IsLink(r) :: TargetOf(r)
  }

  /** The targets of the LINK rows leaving `k`, in row order, repeats kept. */
  function OutNames(rows: seq<Row>, k: string): seq<string>
  {
    if rows == [] then []
    else
      var r := rows[|rows| - 1];
      OutNames(rows[..|rows| - 1], k) + (if IsLink(r) && SourceOf(r) == k then [TargetOf(r)] else [])
  }

  /** The sources of the LINK rows entering `k`, in row order, repeats kept. */
  function InNames(rows: seq<Row>, k: string): seq<string>
  {
    if rows == [] then []
    else
      var r := rows[|rows| - 1];
      InNames(rows[..|rows| - 1], k) + (if IsLink(r) && TargetOf(r) == k then [SourceOf(r)] else [])
  }

  /** The source of the first LINK row whose target is `k`. */
  function FirstSourceInto(rows: seq<Row>, k: string): Option<string>
  {
    if rows == [] then None
    else
      var r := rows[|rows| - 1];
      match FirstSourceInto(rows[..|rows| - 1], k)
      case Some(p) => Some(p)
      case None => if IsLink(r) && TargetOf(r) == k then Some(SourceOf(r)) else None
  }

  /** The first LINK row into `k` is the one `FirstSourceInto` names. */
  lemma {:induction false} FirstSourceIsFirst(rows: seq<Row>, k: string, j: nat)
    requires j < |rows| && IsLink(rows[j]) && TargetOf(rows[j]) == k
    requires forall i :: 0 <= i < j ==> !(IsLink(rows[i]) && TargetOf(rows[i]) == k)
    ensures FirstSourceInto(rows, k) == Some(SourceOf(rows[j]))
  {
    var init := rows[..|rows| - 1];
    if j < |rows| - 1 {
      FirstSourceIsFirst(init, k, j);
    } else {
      NoLinkInto(init, k);
    }
  }

  /** Without a LINK row into `k` there is no preceding node for it. */
  lemma {:induction false} NoLinkInto(rows: seq<Row>, k: string)
    requires forall i :: 0 <= i < |rows| ==> !(IsLink(rows[i]) && TargetOf(rows[i]) == k)
    ensures FirstSourceInto(rows, k) == None
  {
    if rows != [] {
      NoLinkInto(rows[..|rows| - 1], k);
    }
  }

  /** Rows that are not LINK rows change neither the registry nor the graph. */
  lemma {:induction false} BuildLinksOnlyLinks(rows: seq<Row>)
    ensures BuildLinks(LinkRows(rows)) == BuildLinks(rows)
    ensures LinkEdges(LinkRows(rows)) == LinkEdges(rows)
  {
    if rows != [] {
      var init, r := rows[..|rows| - 1], rows[|rows| - 1];
      BuildLinksOnlyLinks(init);
      if IsLink(r) {
        assert LinkRows(rows) == LinkRows(init) + [r];
        AppendRow(LinkRows(init), r);
      } else {
        assert LinkRows(rows) == LinkRows(init);
      }
    }
  }

  /** Adding a row at the end is one more step of the fold. */
  lemma AppendRow(rows: seq<Row>, r: Row)
    ensures BuildLinks(rows + [r]) == LinkStep(BuildLinks(rows), r)
    ensures LinkEdges(rows + [r]) == LinkEdges(rows) + RowEdges(r)
  {
    assert (rows + [r])[..|rows|] == rows;
  }

  lemma BuildLinksFiled(rows: seq<Row>)
    ensures Filed(BuildLinks(rows))
  {
    BuildLinksKeys(rows);
  }

  /** The registry holds exactly the endpoint names, each filed under its own name with the kind its prefix gives. */
  lemma {:induction false} BuildLinksKeys(rows: seq<Row>)
    ensures BuildLinks(rows).Keys == Endpoints(rows)
    ensures forall k :: k in BuildLinks(rows) ==>
      BuildLinks(rows)[k].name == k && BuildLinks(rows)[k].kind == KindFor(k) && BuildLinks(rows)[k].streamSize == None
  {
    if rows != [] {
      var init, r := rows[..|rows| - 1], rows[|rows| - 1];
      BuildLinksKeys(init);
      EndpointsStep(rows);
      if IsLink(r) {
        forall k | k in BuildLinks(rows)
          ensures BuildLinks(rows)[k].name == k && BuildLinks(rows)[k].kind == KindFor(k) && BuildLinks(rows)[k].streamSize == None
        {
          LinkNamesAt(BuildLinks(init), SourceOf(r), TargetOf(r), k);
        }
      }
    }
  }

  lemma EndpointsStep(rows: seq<Row>)
    requires rows != []
    ensures var r := rows[|rows| - 1];
      Endpoints(rows) == Endpoints(rows[..|rows| - 1]) + RowNames(r)
  {
    var init, r := rows[..|rows| - 1], rows[|rows| - 1];
    assert rows == init + [r];
    SourcesStep(init, r);
    TargetsStep(init, r);
  }

  lemma SourcesStep(init: seq<Row>, r: Row)
    ensures Sources(init + [r]) == Sources(init) + (if IsLink(r) then {SourceOf(r)} else {})
  {
    forall x | x in Sources(init + [r])
      ensures x in Sources(init) || (IsLink(r) && x == SourceOf(r))
    {
      var y :| y in init + [r] && IsLink(y) && SourceOf(y) == x;
      if y != r {
        assert y in init;
      }
    }
  }

  lemma TargetsStep(init: seq<Row>, r: Row)
    ensures Targets(init + [r]) == Targets(init) + (if IsLink(r) then {TargetOf(r)} else {})
  {
    forall x | x in Targets(init + [r])
      ensures x in Targets(init) || (IsLink(r) && x == TargetOf(r))
    {
      var y :| y in init + [r] && IsLink(y) && TargetOf(y) == x;
      if y != r {
        assert y in init;
      }
    }
  }

  /**
   * Each node's edge lists are the neighbour names of the LINK rows touching it, in row order with
   * repeats kept; a switch's preceding node is the source of the first LINK row into it, and an end
   * station never gets one.
   */
  lemma BuildLinksNodes(rows: seq<Row>)
    ensures forall k :: k in BuildLinks(rows) ==>
      && BuildLinks(rows)[k].outEdges == OutNames(rows, k)
      && BuildLinks(rows)[k].inEdges == InNames(rows, k)
      && BuildLinks(rows)[k].preceding == (if KindFor(k) == Switch then FirstSourceInto(rows, k) else None)
  {
    forall k | k in BuildLinks(rows)
      ensures BuildLinks(rows)[k].outEdges == OutNames(rows, k) && BuildLinks(rows)[k].inEdges == InNames(rows, k)
      ensures BuildLinks(rows)[k].preceding == (if KindFor(k) == Switch then FirstSourceInto(rows, k) else None)
    {
      BuildLinksAt(rows, k);
    }
  }

  lemma {:induction false} BuildLinksAt(rows: seq<Row>, k: string)
    requires k in BuildLinks(rows)
    ensures BuildLinks(rows)[k].outEdges == OutNames(rows, k) && BuildLinks(rows)[k].inEdges == InNames(rows, k)
    ensures BuildLinks(rows)[k].preceding == (if KindFor(k) == Switch then FirstSourceInto(rows, k) else None)
  {
    var init, r := rows[..|rows| - 1], rows[|rows| - 1];
    var b0 := BuildLinks(init);
    BuildLinksKeys(init);
    if k in b0 {
      BuildLinksAt(init, k);
    } else {
      NoNamesOutside(init, k);
    }
    if IsLink(r) {
      LinkNamesAt(b0, SourceOf(r), TargetOf(r), k);
    }
  }

  /** A name that is no endpoint has no neighbours and no preceding node. */
  lemma {:induction false} NoNamesOutside(rows: seq<Row>, k: string)
    requires k !in Endpoints(rows)
    ensures OutNames(rows, k) == [] && InNames(rows, k) == [] && FirstSourceInto(rows, k) == None
  {
    if rows != [] {
      var init := rows[..|rows| - 1];
      assert k !in Endpoints(init) by {
        assert forall x :: x in init ==> x in rows;
      }
      NoNamesOutside(init, k);
    }
  }

  /**
   * The module-level `graph = nx.DiGraph(name="Links")`. `add_node` is given node objects and
   * `add_edge` names, so the graph holds both kinds of vertex; its edges join names.
   */
  class LinkGraph {
    var nodeVertices: set<Node>
    var nameVertices: set<string>
    var edges: set<(string, string)>

    constructor ()
      ensures nodeVertices == {} && nameVertices == {} && edges == {}
    {
      nodeVertices := {};
      nameVertices := {};
      edges := {};
    }

    /** `add_node`: one more vertex; edges unchanged. */
    method AddNode(n: Node)
      modifies this
      ensures nodeVertices == old(nodeVertices) + {n}
      ensures nameVertices == old(nameVertices) && edges == old(edges)
    {
      nodeVertices := nodeVertices + {n};
    }

    /** `add_edge`: the edge, with both endpoints as vertices. */
    method AddEdge(u: string, v: string)
      modifies this
      ensures edges == old(edges) + {(u, v)}
      ensures nameVertices == old(nameVertices) + {u, v}
      ensures nodeVertices == old(nodeVertices)
    {
      edges := edges + {(u, v)};
      nameVertices := nameVertices + {u, v};
    }
  }

  /** Every entry is filed under its own name. */
  predicate Filed(b: Registry)
  {
    forall k :: k in b ==> b[k].name == k
  }

  /** Lines 35-66 for one LINK row `s -> t`, with `b` the registry's contents before the row. */
  method ReadLink(graph: LinkGraph, nodes: map<string, Node>, ghost b: Registry, ghost base: set<Node>, s: string, t: string)
    returns (nodes': map<string, Node>)
    requires Holds(nodes, b) && Filed(b)
    requires graph.nodeVertices == base + Objects(nodes)
    modifies graph, Objects(nodes)
    ensures Holds(nodes', LinkNames(b, s, t))
    ensures forall k :: k in nodes' ==> (k in nodes && nodes'[k] == nodes[k]) || fresh(nodes'[k])
    ensures graph.edges == old(graph.edges) + {(s, t)}
    ensures graph.nameVertices == old(graph.nameVertices) + {s, t}
    ensures graph.nodeVertices == base + Objects(nodes')
  {
    nodes' := AddEndpoints(graph, nodes, b, base, s, t);
    ghost var ends := NoteTarget(AddNamed(b, s), s, t);
    ConnectAndRecord(graph, nodes', ends, s, t, LinkNames(b, s, t));
  }

  /** Lines 62-66: the two nodes record the link, then the graph gets the edge. */
  method ConnectAndRecord(graph: LinkGraph, nodes: map<string, Node>, ghost b: Registry, s: string, t: string, ghost after: Registry)
    requires Holds(nodes, b) && Filed(b) && s in b && t in b && after == Connect(b, s, t)
    modifies graph, nodes[s], nodes[t]
    ensures Holds(nodes, after)
    ensures graph.edges == old(graph.edges) + {(s, t)}
    ensures graph.nameVertices == old(graph.nameVertices) + {s, t}
    ensures graph.nodeVertices == old(graph.nodeVertices)
  {
    ConnectNodes(nodes, b, s, t);
    graph.AddEdge(s, t);
  }

  /** Lines 39-59: both endpoints exist afterwards, and a switch target has its preceding node. */
  method AddEndpoints(graph: LinkGraph, nodes: map<string, Node>, ghost b: Registry, ghost base: set<Node>, s: string, t: string)
    returns (nodes': map<string, Node>)
    requires Holds(nodes, b) && Filed(b)
    requires graph.nodeVertices == base + Objects(nodes)
    modifies graph, Objects(nodes)
    ensures Holds(nodes', NoteTarget(AddNamed(b, s), s, t)) && Filed(NoteTarget(AddNamed(b, s), s, t))
    ensures forall k :: k in nodes' ==> (k in nodes && nodes'[k] == nodes[k]) || fresh(nodes'[k])
    ensures graph.edges == old(graph.edges) && graph.nameVertices == old(graph.nameVertices)
    ensures graph.nodeVertices == base + Objects(nodes')
  {
    nodes' := AddNode(graph, nodes, b, base, s);
    nodes' := AddTargetNode(graph, nodes', AddNamed(b, s), base, s, t);
  }

  /** Files a new node under its name and adds it to the graph. */
  method FileNode(graph: LinkGraph, nodes: map<string, Node>, ghost b: Registry, ghost base: set<Node>,
                  name: string, n: Node, ghost e: NodeState)
    returns (nodes': map<string, Node>)
    requires (nodes.Keys == b.Keys && forall k :: k in nodes ==> nodes[k].State() == b[k]) && Filed(b)
    requires graph.nodeVertices == base + Objects(nodes)
    requires name !in nodes && n.State() == e && e.name == name
    modifies graph
    ensures nodes' == nodes[name := n]
    ensures (nodes'.Keys == b[name := e].Keys && forall k :: k in nodes' ==> nodes'[k].State() == b[name := e][k]) && Filed(b[name := e])
    ensures graph.edges == old(graph.edges) && graph.nameVertices == old(graph.nameVertices)
    ensures graph.nodeVertices == base + Objects(nodes')
  {
    nodes' := nodes[name := n];
    graph.AddNode(n);
    ObjectsAdd(nodes, name, n);
  }

  method NewTarget(s: string, t: string) returns (n: Node)
    ensures fresh(n) && n.State() == Arrived(s, t)
  {
    n := NewNode(t);
    if n.kind == Switch {
      n.SetPrecedingNode(s);
    }
  }

  /** `Switch(name)` when the name has the SWITCH prefix, `EndStation(name)` otherwise. */
  method NewNode(name: string) returns (n: Node)
    ensures fresh(n) && n.State() == Fresh(name)
  {
    if StartsWith(name, SwitchTag) {
      n := new Node(name, Switch);
    } else {
      n := new Node(name, EndStation);
    }
  }

  /** Lines 39-44: the source is created on first sight, as a switch when its name has the SWITCH prefix. */
  method AddNode(graph: LinkGraph, nodes: map<string, Node>, ghost b: Registry, ghost base: set<Node>, s: string)
    returns (nodes': map<string, Node>)
    requires (nodes.Keys == b.Keys && forall k :: k in nodes ==> nodes[k].State() == b[k]) && Filed(b)
    requires graph.nodeVertices == base + Objects(nodes)
    modifies graph
    ensures (nodes'.Keys == AddNamed(b, s).Keys && forall k :: k in nodes' ==> nodes'[k].State() == AddNamed(b, s)[k]) && Filed(AddNamed(b, s))
    ensures forall k :: k in nodes' ==> (k in nodes && nodes'[k] == nodes[k]) || fresh(nodes'[k])
    ensures graph.edges == old(graph.edges) && graph.nameVertices == old(graph.nameVertices)
    ensures graph.nodeVertices == base + Objects(nodes')
  {
    nodes' := nodes;
    if s !in nodes {
      var n := NewNode(s);
      nodes' := FileNode(graph, nodes, b, base, s, n, Fresh(s));
    }
  }

  /**
   * Lines 47-59: the target is created on first sight; a new switch target, or an existing switch
   * without a preceding node, gets the source as its preceding node (by name).
   */
  method AddTargetNode(graph: LinkGraph, nodes: map<string, Node>, ghost b: Registry, ghost base: set<Node>, s: string, t: string)
    returns (nodes': map<string, Node>)
    requires (nodes.Keys == b.Keys && forall k :: k in nodes ==> nodes[k].State() == b[k]) && Filed(b) && s in b
    requires graph.nodeVertices == base + Objects(nodes)
    modifies graph, Objects(nodes)
    ensures (nodes'.Keys == NoteTarget(b, s, t).Keys && forall k :: k in nodes' ==> nodes'[k].State() == NoteTarget(b, s, t)[k]) && Filed(NoteTarget(b, s, t))
    ensures forall k :: k in nodes' ==> (k in nodes && nodes'[k] == nodes[k]) || fresh(nodes'[k])
    ensures graph.edges == old(graph.edges) && graph.nameVertices == old(graph.nameVertices)
    ensures graph.nodeVertices == base + Objects(nodes')
  {
    nodes' := nodes;
    if t !in nodes {
      var n := NewTarget(s, t);
      nodes' := FileNode(graph, nodes, b, base, t, n, Arrived(s, t));
    } else {
      MarkPreceding(nodes, b, s, t);
    }
  }

  /** Lines 56-59: an existing switch target without a preceding node gets the source. */
  method MarkPreceding(nodes: map<string, Node>, ghost b: Registry, s: string, t: string)
    requires (nodes.Keys == b.Keys && forall k :: k in nodes ==> nodes[k].State() == b[k]) && Filed(b) && t in b
    modifies nodes[t]
    ensures (nodes.Keys == NoteTarget(b, s, t).Keys && forall k :: k in nodes ==> nodes[k].State() == NoteTarget(b, s, t)[k])
  {
    var obj := nodes[t];
    if obj.kind == Switch && obj.preceding.None? {
      assert forall k :: k in nodes && k != t ==> nodes[k] != obj;
      obj.SetPrecedingNode(s);
    }
  }

  /** Lines 62-63 on the node objects. */
  method ConnectNodes(nodes: map<string, Node>, ghost b: Registry, s: string, t: string)
    requires (nodes.Keys == b.Keys && forall k :: k in nodes ==> nodes[k].State() == b[k]) && Filed(b) && s in b && t in b
    modifies nodes[s], nodes[t]
    ensures (nodes.Keys == Connect(b, s, t).Keys && forall k :: k in nodes ==> nodes[k].State() == Connect(b, s, t)[k])
  {
    AppendOut(nodes, b, s, t);
    AppendIn(nodes, b[s := b[s].(outEdges := b[s].outEdges + [t])], t, s);
  }

  /** Appends `e` to the out-edges of the node filed under `k`; every other node keeps its state. */
  method AppendOut(nodes: map<string, Node>, ghost b: Registry, k: string, e: string)
    requires (nodes.Keys == b.Keys && forall j :: j in nodes ==> nodes[j].State() == b[j]) && Filed(b) && k in b
    modifies nodes[k]
    ensures (nodes.Keys == b.Keys && forall j :: j in nodes ==> nodes[j].State() == b[k := b[k].(outEdges := b[k].outEdges + [e])][j])
  {
    var n := nodes[k];
    forall j | j in nodes && j != k
      ensures nodes[j] != n
    {
      assert nodes[j].State().name == j;
    }
    n.AddOutEdge(e);
  }

  /** Appends `e` to the in-edges of the node filed under `k`; every other node keeps its state. */
  method AppendIn(nodes: map<string, Node>, ghost b: Registry, k: string, e: string)
    requires (nodes.Keys == b.Keys && forall j :: j in nodes ==> nodes[j].State() == b[j]) && Filed(b) && k in b
    modifies nodes[k]
    ensures (nodes.Keys == b.Keys && forall j :: j in nodes ==> nodes[j].State() == b[k := b[k].(inEdges := b[k].inEdges + [e])][j])
  {
    var n := nodes[k];
    forall j | j in nodes && j != k
      ensures nodes[j] != n
    {
      assert nodes[j].State().name == j;
    }
    n.AddInEdge(e);
  }

  /**
   * `create_graph_from_csv`: a registry of new node objects whose contents are `BuildLinks(rows)`;
   * the graph gains those objects, the endpoint names and the links.
   */
  method CreateGraphFromCsv(graph: LinkGraph, rows: seq<Row>) returns (nodes: map<string, Node>)
    requires AllReadable(rows)
    modifies graph
    ensures Registered(nodes) && forall k :: k in nodes ==> fresh(nodes[k])
    ensures Snapshot(nodes) == BuildLinks(rows)
    ensures graph.edges == old(graph.edges) + LinkEdges(rows)
    ensures graph.nameVertices == old(graph.nameVertices) + nodes.Keys
    ensures graph.nodeVertices == old(graph.nodeVertices) + Objects(nodes)
  {
    nodes := ReadRows(graph, rows);
    BuildLinksKeys(rows);
    HoldsSnapshot(nodes, BuildLinks(rows));
  }

  /** The row loop of lines 29-66. */
  method ReadRows(graph: LinkGraph, rows: seq<Row>) returns (nodes: map<string, Node>)
    requires AllReadable(rows)
    modifies graph
    ensures nodes.Keys == BuildLinks(rows).Keys
    ensures forall k :: k in nodes ==> nodes[k].State() == BuildLinks(rows)[k]
    ensures forall k :: k in nodes ==> fresh(nodes[k])
    ensures graph.edges == old(graph.edges) + LinkEdges(rows)
    ensures graph.nameVertices == old(graph.nameVertices) + Endpoints(rows)
    ensures graph.nodeVertices == old(graph.nodeVertices) + Objects(nodes)
  {
    nodes := map[];
    var i := 0;
    while i < |rows|
      invariant i <= |rows|
      invariant nodes.Keys == BuildLinks(rows[..i]).Keys
      invariant forall k :: k in nodes ==> nodes[k].State() == BuildLinks(rows[..i])[k]
      invariant forall k :: k in nodes ==> fresh(nodes[k])
      invariant graph.edges == old(graph.edges) + LinkEdges(rows[..i])
      invariant graph.nameVertices == old(graph.nameVertices) + Endpoints(rows[..i])
      invariant graph.nodeVertices == old(graph.nodeVertices) + Objects(nodes)
    {
      nodes := ReadRowAt(graph, rows, i, nodes, old(graph.edges), old(graph.nameVertices), old(graph.nodeVertices));
      i := i + 1;
    }
    assert rows[..i] == rows;
  }

  /** One turn of the row loop: the registry and the graph move from the first `i` rows to the first `i + 1`. */
  method ReadRowAt(graph: LinkGraph, rows: seq<Row>, i: nat, nodes: map<string, Node>,
                   ghost e0: set<(string, string)>, ghost n0: set<string>, ghost v0: set<Node>)
    returns (nodes': map<string, Node>)
    requires i < |rows| && Readable(rows[i])
    requires nodes.Keys == BuildLinks(rows[..i]).Keys
    requires forall k :: k in nodes ==> nodes[k].State() == BuildLinks(rows[..i])[k]
    requires graph.edges == e0 + LinkEdges(rows[..i])
    requires graph.nameVertices == n0 + Endpoints(rows[..i])
    requires graph.nodeVertices == v0 + Objects(nodes)
    modifies graph, Objects(nodes)
    ensures nodes'.Keys == BuildLinks(rows[..i + 1]).Keys
    ensures forall k :: k in nodes' ==> nodes'[k].State() == BuildLinks(rows[..i + 1])[k]
    ensures forall k :: k in nodes' ==> (k in nodes && nodes'[k] == nodes[k]) || fresh(nodes'[k])
    ensures graph.edges == e0 + LinkEdges(rows[..i + 1])
    ensures graph.nameVertices == n0 + Endpoints(rows[..i + 1])
    ensures graph.nodeVertices == v0 + Objects(nodes')
  {
    OneMoreRow(rows, i);
    BuildLinksFiled(rows[..i]);
    nodes' := ReadRow(graph, nodes, BuildLinks(rows[..i]), v0, rows[i]);
    NxGraph.UnionAssoc(e0, LinkEdges(rows[..i]), RowEdges(rows[i]));
    NxGraph.UnionAssoc(n0, Endpoints(rows[..i]), RowNames(rows[i]));
  }

  lemma OneMoreRow(rows: seq<Row>, i: nat)
    requires i < |rows|
    ensures BuildLinks(rows[..i + 1]) == LinkStep(BuildLinks(rows[..i]), rows[i])
    ensures LinkEdges(rows[..i + 1]) == LinkEdges(rows[..i]) + RowEdges(rows[i])
    ensures Endpoints(rows[..i + 1]) == Endpoints(rows[..i]) + RowNames(rows[i])
  {
    assert rows[..i + 1][..i] == rows[..i];
    EndpointsStep(rows[..i + 1]);
  }

  /** One iteration of the row loop: LINK rows go to `ReadLink`, every other row is skipped (lines 31-32). */
  method ReadRow(graph: LinkGraph, nodes: map<string, Node>, ghost b: Registry, ghost base: set<Node>, row: Row)
    returns (nodes': map<string, Node>)
    requires Readable(row)
    requires nodes.Keys == b.Keys && (forall k :: k in nodes ==> nodes[k].State() == b[k]) && Filed(b)
    requires graph.nodeVertices == base + Objects(nodes)
    modifies graph, Objects(nodes)
    ensures nodes'.Keys == LinkStep(b, row).Keys
    ensures forall k :: k in nodes' ==> nodes'[k].State() == LinkStep(b, row)[k]
    ensures forall k :: k in nodes' ==> (k in nodes && nodes'[k] == nodes[k]) || fresh(nodes'[k])
    ensures graph.edges == old(graph.edges) + RowEdges(row)
    ensures graph.nameVertices == old(graph.nameVertices) + RowNames(row)
    ensures graph.nodeVertices == base + Objects(nodes')
  {
    nodes' := nodes;
    if Strip(row[0]) == LinkTag {
      var s := Strip(row[2]);
      var t := Strip(row[4]);
      nodes' := ReadLink(graph, nodes, b, base, s, t);
    }
  }

  // ---------------------------------------------------------------------------
  // _dfs_traverse and dfs_traverse_stream

  /** Line 99: the names a traversal tries from a node, `sorted(set(out_edges + in_edges))`. */
  function ChildrenOf(n: NodeState): seq<string>
  {
    SortedDistinct(n.outEdges + n.inEdges)
  }

  /** The registry's links as an adjacency: each name's children in the order the traversals try them. */
  function ChildMap(nodes: Registry): Paths.Adjacency
  {
    map k | k in nodes :: ChildrenOf(nodes[k])
  }

  /**
   * What `_dfs_traverse` compares node names with. Its documentation asks for the destination's name;
   * `dfs_traverse_stream` hands it the destination node object, which no name equals.
   */
  datatype Target = TargetName(name: string) | TargetNode(node: string)

  /** Line 94: `node.name == target_id`. */
  predicate Hits(t: Target, name: string)
  {
    t.TargetName? && t.name == name
  }

  /** The outcome of a search: the path found, the names expanded, and the nodes' contents afterwards. */
  datatype Search = Search(found: Option<seq<string>>, visited: set<string>, nodes: Registry)

  /** Two entries agree on everything a traversal leaves alone. */
  predicate SameShape(a: NodeState, b: NodeState)
  {
    a.name == b.name && a.kind == b.kind && a.inEdges == b.inEdges && a.outEdges == b.outEdges
  }

  /** Two searches in a row change no entry's shape either. */
  lemma ShapeTrans(a: Registry, b: Registry, c: Registry)
    requires b.Keys == a.Keys && forall k :: k in a ==> SameShape(b[k], a[k])
    requires c.Keys == b.Keys && forall k :: k in b ==> SameShape(c[k], b[k])
    ensures forall k :: k in a ==> SameShape(c[k], a[k])
  {
  }

  /** Lines 90-91: a switch reached from another node records that node as its preceding one. */
  function Arrive(n: NodeState, prev: Option<string>): NodeState
  {
    if n.kind == Switch && prev.Some? then n.(preceding := prev) else n
  }

  /**
   * `_dfs_traverse(node, ...)` on the entry filed under `name`: extend the path, note the preceding
   * node, stop with the path and the stamped stream size at the target, otherwise mark the name
   * visited and try the children in order. Names visited before the call keep their entries.
   */
  function DfsVisit(nodes: Registry, visited: set<string>, name: string, prev: Option<string>,
                    path: seq<string>, t: Target, size: int): (r: Search)
    requires name in nodes && name !in visited
    ensures r.nodes.Keys == nodes.Keys && visited <= r.visited
    decreases |nodes.Keys - visited|, 0
  {
    var n := Arrive(nodes[name], prev);
    if Hits(t, name) then Search(Some(path + [name]), visited, nodes[name := n.(streamSize := Some(size))])
    else
      FewerLeft(nodes.Keys, visited, visited + {name}, name);
      assert nodes[name := n].Keys == nodes.Keys;
      DfsChildren(nodes[name := n], visited + {name}, ChildrenOf(n), 0, name, path + [name], t, size)
  }

  /** Lines 100-108: the children from index `i` on, each tried unless visited or unknown, until one finds the target. */
  function DfsChildren(nodes: Registry, visited: set<string>, cs: seq<string>, i: nat, parent: string,
                       path: seq<string>, t: Target, size: int): (r: Search)
    requires i <= |cs|
    ensures r.nodes.Keys == nodes.Keys && visited <= r.visited
    decreases |nodes.Keys - visited|, 1, |cs| - i
  {
    if i == |cs| then Search(None, visited, nodes)
    else if cs[i] in visited || cs[i] !in nodes then DfsChildren(nodes, visited, cs, i + 1, parent, path, t, size)
    else
      var r := DfsVisit(nodes, visited, cs[i], Some(parent), path, t, size);
      if r.found.Some? then r
      else
        NoMoreLeft(nodes.Keys, visited, r.visited);
        DfsChildren(r.nodes, r.visited, cs, i + 1, parent, path, t, size)
  }

  /** The search changes no entry's shape. */
  lemma {:induction false} VisitShape(nodes: Registry, visited: set<string>, name: string, prev: Option<string>,
                                      path: seq<string>, t: Target, size: int)
    requires name in nodes && name !in visited
    ensures var r := DfsVisit(nodes, visited, name, prev, path, t, size);
      forall k :: k in nodes ==> SameShape(r.nodes[k], nodes[k])
    decreases |nodes.Keys - visited|, 0
  {
    VisitUnfold(nodes, visited, name, prev, path, t, size);
    var n := Arrive(nodes[name], prev);
    if !Hits(t, name) {
      var nodes1 := nodes[name := n];
      FewerLeft(nodes.Keys, visited, visited + {name}, name);
      assert nodes1.Keys == nodes.Keys;
      ChildrenShape(nodes1, visited + {name}, ChildrenOf(n), 0, name, path + [name], t, size);
    }
  }

  lemma {:induction false} ChildrenShape(nodes: Registry, visited: set<string>, cs: seq<string>, i: nat, parent: string,
                                         path: seq<string>, t: Target, size: int)
    requires i <= |cs|
    ensures var r := DfsChildren(nodes, visited, cs, i, parent, path, t, size);
      forall k :: k in nodes ==> SameShape(r.nodes[k], nodes[k])
    decreases |nodes.Keys - visited|, 1, |cs| - i
  {
    if i < |cs| {
      var c := cs[i];
      ChildrenStep(nodes, visited, cs, i, parent, path, t, size);
      if c in visited || c !in nodes {
        ChildrenShape(nodes, visited, cs, i + 1, parent, path, t, size);
      } else {
        var r := DfsVisit(nodes, visited, c, Some(parent), path, t, size);
        VisitShape(nodes, visited, c, Some(parent), path, t, size);
        if r.found.None? {
          NoMoreLeft(nodes.Keys, visited, r.visited);
          ChildrenShape(r.nodes, r.visited, cs, i + 1, parent, path, t, size);
          ShapeTrans(nodes, r.nodes, DfsChildren(r.nodes, r.visited, cs, i + 1, parent, path, t, size).nodes);
        }
      }
    }
  }


  /** The search leaves alone every entry visited before it started. */
  lemma {:induction false} VisitFrame(nodes: Registry, visited: set<string>, name: string, prev: Option<string>,
                                      path: seq<string>, t: Target, size: int)
    requires name in nodes && name !in visited
    ensures var r := DfsVisit(nodes, visited, name, prev, path, t, size);
      forall k :: k in visited && k in nodes ==> r.nodes[k] == nodes[k]
    decreases |nodes.Keys - visited|, 0
  {
    VisitUnfold(nodes, visited, name, prev, path, t, size);
    var n := Arrive(nodes[name], prev);
    if !Hits(t, name) {
      var nodes1 := nodes[name := n];
      FewerLeft(nodes.Keys, visited, visited + {name}, name);
      assert nodes1.Keys == nodes.Keys;
      ChildrenFrame(nodes1, visited + {name}, ChildrenOf(n), 0, name, path + [name], t, size);
    }
  }

  lemma {:induction false} ChildrenFrame(nodes: Registry, visited: set<string>, cs: seq<string>, i: nat, parent: string,
                                         path: seq<string>, t: Target, size: int)
    requires i <= |cs|
    ensures var r := DfsChildren(nodes, visited, cs, i, parent, path, t, size);
      forall k :: k in visited && k in nodes ==> r.nodes[k] == nodes[k]
    decreases |nodes.Keys - visited|, 1, |cs| - i
  {
    if i < |cs| {
      var c := cs[i];
      ChildrenStep(nodes, visited, cs, i, parent, path, t, size);
      if c in visited || c !in nodes {
        ChildrenFrame(nodes, visited, cs, i + 1, parent, path, t, size);
      } else {
        var r := DfsVisit(nodes, visited, c, Some(parent), path, t, size);
        VisitFrame(nodes, visited, c, Some(parent), path, t, size);
        if r.found.None? {
          NoMoreLeft(nodes.Keys, visited, r.visited);
          ChildrenFrame(r.nodes, r.visited, cs, i + 1, parent, path, t, size);
        }
      }
    }
  }

  lemma FewerLeft(names: set<string>, visited: set<string>, visited': set<string>, x: string)
    requires visited + {x} <= visited' && x in names && x !in visited
    ensures |names - visited'| < |names - visited|
  {
    assert names - visited' <= (names - visited) - {x};
    SubsetCard(names - visited', (names - visited) - {x});
  }

  lemma NoMoreLeft(names: set<string>, visited: set<string>, visited': set<string>)
    requires visited <= visited'
    ensures |names - visited'| <= |names - visited|
  {
    SubsetCard(names - visited', names - visited);
  }

  lemma SubsetCard<T>(a: set<T>, b: set<T>)
    requires a <= b
    ensures |a| <= |b|
  {
    assert b == a + (b - a);
  }

  /** Entries that agree in shape give the same children everywhere. */
  lemma ChildMapSame(a: Registry, b: Registry)
    requires a.Keys == b.Keys && forall k :: k in a ==> SameShape(a[k], b[k])
    ensures ChildMap(a) == ChildMap(b)
  {
  }

  /** `p` continues `q` without repeating a name, each name from the last of `q` on linked to the next. */
  predicate Extends(adj: Paths.Adjacency, q: seq<string>, p: seq<string>)
  {
    && |q| <= |p| && p[..|q|] == q && NoRepeats(p)
    && forall j :: 0 <= j && |q| - 1 <= j < |p| - 1 ==> Paths.Linked(adj, p[j], p[j + 1])
  }

  /** A path the search returns continues the path so far through linked names and ends at the target. */
  lemma {:induction false} VisitPath(nodes: Registry, visited: set<string>, name: string, prev: Option<string>,
                                     path: seq<string>, t: Target, size: int)
    requires name in nodes && name !in visited
    requires NoRepeats(path) && forall x :: x in path ==> x in visited
    ensures var r := DfsVisit(nodes, visited, name, prev, path, t, size);
      r.found.Some? ==> Extends(ChildMap(nodes), path + [name], r.found.value) && Hits(t, Paths.Last(r.found.value))
    decreases |nodes.Keys - visited|, 0
  {
    VisitUnfold(nodes, visited, name, prev, path, t, size);
    var n := Arrive(nodes[name], prev);
    var q := path + [name];
    assert NoRepeats(q);
    if !Hits(t, name) {
      var nodes1 := nodes[name := n];
      FewerLeft(nodes.Keys, visited, visited + {name}, name);
      assert nodes1.Keys == nodes.Keys;
      assert DfsVisit(nodes, visited, name, prev, path, t, size)
          == DfsChildren(nodes1, visited + {name}, ChildrenOf(n), 0, name, q, t, size);
      ChildrenPath(nodes1, visited + {name}, ChildrenOf(n), 0, name, q, t, size);
      ChildrenShape(nodes1, visited + {name}, ChildrenOf(n), 0, name, q, t, size);
      ChildMapSame(nodes1, nodes);
    }
  }

  lemma {:induction false} ChildrenPath(nodes: Registry, visited: set<string>, cs: seq<string>, i: nat, parent: string,
                                        path: seq<string>, t: Target, size: int)
    requires i <= |cs| && parent in nodes && cs == ChildrenOf(nodes[parent])
    requires path != [] && Paths.Last(path) == parent && NoRepeats(path) && forall x :: x in path ==> x in visited
    ensures var r := DfsChildren(nodes, visited, cs, i, parent, path, t, size);
      r.found.Some? ==> |path| < |r.found.value| && Extends(ChildMap(nodes), path, r.found.value) && Hits(t, Paths.Last(r.found.value))
    decreases |nodes.Keys - visited|, 1, |cs| - i
  {
    if i < |cs| {
      var c := cs[i];
      ChildrenStep(nodes, visited, cs, i, parent, path, t, size);
      if c in visited || c !in nodes {
        ChildrenPath(nodes, visited, cs, i + 1, parent, path, t, size);
      } else {
        var r := DfsVisit(nodes, visited, c, Some(parent), path, t, size);
        VisitPath(nodes, visited, c, Some(parent), path, t, size);
        if r.found.Some? {
          assert Paths.Linked(ChildMap(nodes), parent, c);
          ExtendsThrough(ChildMap(nodes), path, c, r.found.value);
        } else {
          NoMoreLeft(nodes.Keys, visited, r.visited);
          VisitShape(nodes, visited, c, Some(parent), path, t, size);
          VisitFrame(nodes, visited, c, Some(parent), path, t, size);
          assert parent in path;
          ChildrenPath(r.nodes, r.visited, cs, i + 1, parent, path, t, size);
          ChildMapSame(r.nodes, nodes);
        }
      }
    }
  }

  lemma ExtendsThrough(adj: Paths.Adjacency, path: seq<string>, c: string, p: seq<string>)
    requires path != [] && Paths.Linked(adj, Paths.Last(path), c) && Extends(adj, path + [c], p)
    ensures |path| < |p| && Extends(adj, path, p)
  {
    assert p[..|path|] == p[..|path| + 1][..|path|];
    assert p[|path|] == c;
  }

  /** Handed a node object instead of a name, the search never finds its target. */
  lemma {:induction false} VisitMisses(nodes: Registry, visited: set<string>, name: string, prev: Option<string>,
                                       path: seq<string>, target: string, size: int)
    requires name in nodes && name !in visited
    ensures var r := DfsVisit(nodes, visited, name, prev, path, TargetNode(target), size);
      r.found == None
    decreases |nodes.Keys - visited|, 0
  {
    var n := Arrive(nodes[name], prev);
    var nodes1 := nodes[name := n];
    FewerLeft(nodes.Keys, visited, visited + {name}, name);
    assert nodes1.Keys == nodes.Keys;
    ChildrenMiss(nodes1, visited + {name}, ChildrenOf(n), 0, name, path + [name], target, size);
  }

  lemma {:induction false} ChildrenMiss(nodes: Registry, visited: set<string>, cs: seq<string>, i: nat, parent: string,
                                        path: seq<string>, target: string, size: int)
    requires i <= |cs|
    ensures var r := DfsChildren(nodes, visited, cs, i, parent, path, TargetNode(target), size);
      r.found == None
    decreases |nodes.Keys - visited|, 1, |cs| - i
  {
    if i < |cs| {
      var c := cs[i];
      if c in visited || c !in nodes {
        ChildrenMiss(nodes, visited, cs, i + 1, parent, path, target, size);
      } else {
        var r := DfsVisit(nodes, visited, c, Some(parent), path, TargetNode(target), size);
        VisitMisses(nodes, visited, c, Some(parent), path, target, size);
        NoMoreLeft(nodes.Keys, visited, r.visited);
        ChildrenMiss(r.nodes, r.visited, cs, i + 1, parent, path, target, size);
      }
    }
  }

  /** Handed a node object instead of a name, the search stamps no stream size. */
  lemma {:induction false} VisitStampsNothing(nodes: Registry, visited: set<string>, name: string, prev: Option<string>,
                                              path: seq<string>, target: string, size: int)
    requires name in nodes && name !in visited
    ensures var r := DfsVisit(nodes, visited, name, prev, path, TargetNode(target), size);
      StreamSizes(r.nodes) == StreamSizes(nodes)
    decreases |nodes.Keys - visited|, 0
  {
    VisitUnfold(nodes, visited, name, prev, path, TargetNode(target), size);
    var n := Arrive(nodes[name], prev);
    var nodes1 := nodes[name := n];
    FewerLeft(nodes.Keys, visited, visited + {name}, name);
    assert nodes1.Keys == nodes.Keys;
    ChildrenStampNothing(nodes1, visited + {name}, ChildrenOf(n), 0, name, path + [name], target, size);
    ArriveKeepsSizes(nodes, name, prev);
  }

  lemma {:induction false} ChildrenStampNothing(nodes: Registry, visited: set<string>, cs: seq<string>, i: nat,
                                                parent: string, path: seq<string>, target: string, size: int)
    requires i <= |cs|
    ensures var r := DfsChildren(nodes, visited, cs, i, parent, path, TargetNode(target), size);
      StreamSizes(r.nodes) == StreamSizes(nodes)
    decreases |nodes.Keys - visited|, 1, |cs| - i
  {
    if i < |cs| {
      var c := cs[i];
      ChildrenStep(nodes, visited, cs, i, parent, path, TargetNode(target), size);
      if c in visited || c !in nodes {
        ChildrenStampNothing(nodes, visited, cs, i + 1, parent, path, target, size);
      } else {
        var r := DfsVisit(nodes, visited, c, Some(parent), path, TargetNode(target), size);
        VisitStampsNothing(nodes, visited, c, Some(parent), path, target, size);
        if r.found.None? {
          NoMoreLeft(nodes.Keys, visited, r.visited);
          ChildrenStampNothing(r.nodes, r.visited, cs, i + 1, parent, path, target, size);
        }
      }
    }
  }

  /** The stream sizes stamped on the registry's entries. */
  function StreamSizes(nodes: Registry): map<string, Option<int>>
  {
    map k | k in nodes :: nodes[k].streamSize
  }

  lemma ArriveKeepsSizes(nodes: Registry, name: string, prev: Option<string>)
    requires name in nodes
    ensures StreamSizes(nodes[name := Arrive(nodes[name], prev)]) == StreamSizes(nodes)
  {
  }


  /**
   * From position `from` on, every name of `p` is a node, and each switch among them records, in
   * `after`, the name just before it on `p`.
   */
  ghost predicate Stamped(nodes: Registry, after: Registry, p: seq<string>, from: nat)
  {
    forall j :: 0 < j && from <= j < |p| ==>
      p[j] in nodes && p[j] in after && (nodes[p[j]].kind == Switch ==> after[p[j]].preceding == Some(p[j - 1]))
  }

  /** The last name of `p` is a node that carries the stream size. */
  ghost predicate Sized(after: Registry, p: seq<string>, size: int)
  {
    |p| > 0 && p[|p| - 1] in after && after[p[|p| - 1]].streamSize == Some(size)
  }

  /**
   * Along a path the search returns, every switch after the starting name records the name before it,
   * the starting name keeps what arriving gave it, and the target carries the stream size.
   */
  lemma {:induction false} VisitStamps(nodes: Registry, visited: set<string>, name: string, prev: Option<string>,
                                       path: seq<string>, t: Target, size: int)
    requires name in nodes && name !in visited
    requires NoRepeats(path) && forall x :: x in path ==> x in visited
    ensures var r := DfsVisit(nodes, visited, name, prev, path, t, size);
      r.found.Some? ==>
        && r.nodes[name].preceding == Arrive(nodes[name], prev).preceding
        && Sized(r.nodes, r.found.value, size) && Stamped(nodes, r.nodes, r.found.value, |path| + 1)
    decreases |nodes.Keys - visited|, 0
  {
    VisitUnfold(nodes, visited, name, prev, path, t, size);
    var n := Arrive(nodes[name], prev);
    if !Hits(t, name) {
      var nodes1 := nodes[name := n];
      var q := path + [name];
      assert NoRepeats(q);
      FewerLeft(nodes.Keys, visited, visited + {name}, name);
      assert nodes1.Keys == nodes.Keys;
      var r := DfsChildren(nodes1, visited + {name}, ChildrenOf(n), 0, name, q, t, size);
      ChildrenStamps(nodes1, visited + {name}, ChildrenOf(n), 0, name, q, t, size);
      ChildrenFrame(nodes1, visited + {name}, ChildrenOf(n), 0, name, q, t, size);
      if r.found.Some? {
        StampedShape(nodes, nodes1, r.nodes, r.found.value, |q|);
      }
    }
  }

  lemma {:induction false} ChildrenStamps(nodes: Registry, visited: set<string>, cs: seq<string>, i: nat, parent: string,
                                          path: seq<string>, t: Target, size: int)
    requires i <= |cs| && parent in nodes && cs == ChildrenOf(nodes[parent])
    requires path != [] && Paths.Last(path) == parent && NoRepeats(path) && forall x :: x in path ==> x in visited
    ensures var r := DfsChildren(nodes, visited, cs, i, parent, path, t, size);
      r.found.Some? ==> Sized(r.nodes, r.found.value, size) && Stamped(nodes, r.nodes, r.found.value, |path|)
    decreases |nodes.Keys - visited|, 1, |cs| - i
  {
    if i < |cs| {
      var c := cs[i];
      ChildrenStep(nodes, visited, cs, i, parent, path, t, size);
      if c in visited || c !in nodes {
        ChildrenStamps(nodes, visited, cs, i + 1, parent, path, t, size);
      } else {
        var r := DfsVisit(nodes, visited, c, Some(parent), path, t, size);
        VisitStamps(nodes, visited, c, Some(parent), path, t, size);
        if r.found.Some? {
          VisitPath(nodes, visited, c, Some(parent), path, t, size);
          FoundThrough(nodes, r, path, c);
        } else {
          ChildrenStampsLater(nodes, visited, cs, i, parent, path, t, size, r);
        }
      }
    }
  }

  /** ChildrenStamps, when the child at `i` is searched and not found. */
  lemma {:induction false} ChildrenStampsLater(nodes: Registry, visited: set<string>, cs: seq<string>, i: nat,
                                               parent: string, path: seq<string>, t: Target, size: int, r: Search)
    requires i < |cs| && parent in nodes && cs == ChildrenOf(nodes[parent])
    requires path != [] && Paths.Last(path) == parent && NoRepeats(path) && forall x :: x in path ==> x in visited
    requires cs[i] !in visited && cs[i] in nodes
    requires r == DfsVisit(nodes, visited, cs[i], Some(parent), path, t, size) && r.found.None?
    ensures var r' := DfsChildren(nodes, visited, cs, i, parent, path, t, size);
      r'.found.Some? ==> Sized(r'.nodes, r'.found.value, size) && Stamped(nodes, r'.nodes, r'.found.value, |path|)
    decreases |nodes.Keys - visited|, 1, |cs| - i, 0
  {
    var c := cs[i];
    NoMoreLeft(nodes.Keys, visited, r.visited);
    VisitShape(nodes, visited, c, Some(parent), path, t, size);
    VisitFrame(nodes, visited, c, Some(parent), path, t, size);
    assert parent in path;
    assert r.nodes[parent] == nodes[parent];
    var r' := DfsChildren(r.nodes, r.visited, cs, i + 1, parent, path, t, size);
    ChildrenStep(nodes, visited, cs, i, parent, path, t, size);
    ChildrenStamps(r.nodes, r.visited, cs, i + 1, parent, path, t, size);
    if r'.found.Some? {
      StampedShape(nodes, r.nodes, r'.nodes, r'.found.value, |path|);
    }
  }

  /** Stamped only looks at the kinds of `nodes`, which the search leaves alone. */
  lemma StampedShape(nodes: Registry, mid: Registry, after: Registry, p: seq<string>, from: nat)
    requires mid.Keys == nodes.Keys && forall k :: k in nodes ==> SameShape(mid[k], nodes[k])
    requires Stamped(mid, after, p, from)
    ensures Stamped(nodes, after, p, from)
  {
    forall j | 0 < j && from <= j < |p|
      ensures p[j] in nodes && p[j] in after && (nodes[p[j]].kind == Switch ==> after[p[j]].preceding == Some(p[j - 1]))
    {
      assert SameShape(mid[p[j]], nodes[p[j]]);
    }
  }

  /** The stamps a child's search leaves, seen from the parent's path. */
  lemma FoundThrough(nodes: Registry, r: Search, path: seq<string>, c: string)
    requires c in nodes && c in r.nodes && path != [] && r.found.Some?
    requires Extends(ChildMap(nodes), path + [c], r.found.value)
    requires r.nodes[c].preceding == Arrive(nodes[c], Some(Paths.Last(path))).preceding
    requires Stamped(nodes, r.nodes, r.found.value, |path| + 1)
    ensures Stamped(nodes, r.nodes, r.found.value, |path|)
  {
    var p := r.found.value;
    assert p[..|path| + 1] == path + [c];
    assert p[|path|] == c && p[|path| - 1] == Paths.Last(path);
  }

  /** The search keeps every entry filed under its own name. */
  lemma VisitFiled(nodes: Registry, visited: set<string>, name: string, prev: Option<string>,
                   path: seq<string>, t: Target, size: int)
    requires name in nodes && name !in visited && Filed(nodes)
    ensures Filed(DfsVisit(nodes, visited, name, prev, path, t, size).nodes)
  {
    VisitShape(nodes, visited, name, prev, path, t, size);
  }

  /** Lines 90-91 on the object filed under `name`; every other node keeps its state. */
  method ArriveAt(nodes: map<string, Node>, ghost b: Registry, name: string, prev: Option<string>)
    returns (ghost b': Registry)
    requires Holds(nodes, b) && Filed(b) && name in b
    modifies nodes[name]
    ensures b' == b[name := Arrive(b[name], prev)] && Holds(nodes, b') && Filed(b') && b'.Keys == b.Keys
    ensures nodes[name].State() == b'[name] && b'[name].name == name
  {
    b' := b[name := Arrive(b[name], prev)];
    var n := nodes[name];
    forall j | j in nodes && j != name
      ensures nodes[j] != n
    {
      assert nodes[j].State().name == j;
    }
    if n.kind == Switch && prev.Some? {
      n.SetPrecedingNode(prev.value);
    }
  }

  /** Line 96 on the object filed under `name`; every other node keeps its state. */
  method StampAt(nodes: map<string, Node>, ghost b: Registry, name: string, size: int) returns (ghost b': Registry)
    requires Holds(nodes, b) && Filed(b) && name in b
    modifies nodes[name]
    ensures b' == b[name := b[name].(streamSize := Some(size))] && Holds(nodes, b')
  {
    b' := b[name := b[name].(streamSize := Some(size))];
    var n := nodes[name];
    forall j | j in nodes && j != name
      ensures nodes[j] != n
    {
      assert nodes[j].State().name == j;
    }
    n.streamSize := Some(size);
  }

  /**
   * `_dfs_traverse` over the node objects: the path it returns, the visited names afterwards and the
   * nodes' new contents are exactly the outcome `DfsVisit` gives for their contents before the call.
   */
  method DfsTraverse(nodes: map<string, Node>, ghost b: Registry, visited: set<string>, name: string,
                     prev: Option<string>, path: seq<string>, t: Target, size: int)
    returns (found: Option<seq<string>>, visited': set<string>, ghost b': Registry)
    requires Holds(nodes, b) && Filed(b) && name in b && name !in visited
    modifies Objects(nodes)
    ensures Holds(nodes, b') && Search(found, visited', b') == DfsVisit(b, visited, name, prev, path, t, size)
    decreases |b.Keys - visited|, 0
  {
    var node := nodes[name];
    var path' := path + [node.name];
    ghost var b1 := ArriveAt(nodes, b, name, prev);
    VisitUnfold(b, visited, name, prev, path, t, size);
    if Hits(t, node.name) {
      b' := StampAt(nodes, b1, name, size);
      UpdateTwice(b, name, Arrive(b[name], prev), b1[name].(streamSize := Some(size)));
      return Some(path'), visited, b';
    }
    FewerLeft(b.Keys, visited, visited + {name}, name);
    var children := SortedDistinct(node.outEdges + node.inEdges);
    assert DfsVisit(b, visited, name, prev, path, t, size) == DfsChildren(b1, visited + {name}, children, 0, name, path', t, size);
    found, visited', b' := DfsTryChildren(nodes, b1, visited + {name}, children, name, path', t, size);
  }

  /** Lines 102-109: the children in order, each searched unless visited or unknown, until one finds the target. */
  method DfsTryChildren(nodes: map<string, Node>, ghost b: Registry, visited: set<string>, cs: seq<string>,
                        parent: string, path: seq<string>, t: Target, size: int)
    returns (found: Option<seq<string>>, visited': set<string>, ghost b': Registry)
    requires Holds(nodes, b) && Filed(b)
    modifies Objects(nodes)
    ensures Holds(nodes, b') && Search(found, visited', b') == DfsChildren(b, visited, cs, 0, parent, path, t, size)
    decreases |b.Keys - visited|, 2
  {
    var i := 0;
    visited', b' := visited, b;
    while i < |cs|
      invariant i <= |cs| && Holds(nodes, b') && Filed(b') && b'.Keys == b.Keys && visited <= visited'
      invariant DfsChildren(b', visited', cs, i, parent, path, t, size) == DfsChildren(b, visited, cs, 0, parent, path, t, size)
      decreases |cs| - i
    {
      NoMoreLeft(b.Keys, visited, visited');
      var r, v, bb := DfsTryChild(nodes, b', visited', cs, i, parent, path, t, size);
      if r.Some? {
        return r, v, bb;
      }
      visited', b' := v, bb;
      i := i + 1;
    }
    found := None;
  }

  /** Line 103-108 for the child at `i`: skipped when visited or unknown, otherwise searched. */
  method DfsTryChild(nodes: map<string, Node>, ghost b: Registry, visited: set<string>, cs: seq<string>, i: nat,
                     parent: string, path: seq<string>, t: Target, size: int)
    returns (found: Option<seq<string>>, visited': set<string>, ghost b': Registry)
    requires i < |cs| && Holds(nodes, b) && Filed(b)
    modifies Objects(nodes)
    ensures Holds(nodes, b') && Filed(b') && b'.Keys == b.Keys && visited <= visited'
    ensures found.Some? ==> Search(found, visited', b') == DfsChildren(b, visited, cs, i, parent, path, t, size)
    ensures found.None? ==>
      DfsChildren(b', visited', cs, i + 1, parent, path, t, size) == DfsChildren(b, visited, cs, i, parent, path, t, size)
    decreases |b.Keys - visited|, 1
  {
    var c := cs[i];
    ChildrenStep(b, visited, cs, i, parent, path, t, size);
    if c !in visited && c in nodes {
      found, visited', b' := DfsTraverse(nodes, b, visited, c, Some(parent), path, t, size);
      VisitFiled(b, visited, c, Some(parent), path, t, size);
    } else {
      found, visited', b' := None, visited, b;
    }
  }

  /** One step of DfsChildren: skip the child at `i`, or search it and stop if it found the target. */
  lemma ChildrenStep(nodes: Registry, visited: set<string>, cs: seq<string>, i: nat, parent: string,
                     path: seq<string>, t: Target, size: int)
    requires i < |cs|
    ensures var r := DfsChildren(nodes, visited, cs, i, parent, path, t, size);
      if cs[i] in visited || cs[i] !in nodes then r == DfsChildren(nodes, visited, cs, i + 1, parent, path, t, size)
      else
        var v := DfsVisit(nodes, visited, cs[i], Some(parent), path, t, size);
        r == if v.found.Some? then v else DfsChildren(v.nodes, v.visited, cs, i + 1, parent, path, t, size)
  {
  }

  /** DfsVisit, one level down. */
  lemma VisitUnfold(nodes: Registry, visited: set<string>, name: string, prev: Option<string>,
                    path: seq<string>, t: Target, size: int)
    requires name in nodes && name !in visited
    ensures var n := Arrive(nodes[name], prev);
      DfsVisit(nodes, visited, name, prev, path, t, size) ==
        if Hits(t, name) then Search(Some(path + [name]), visited, nodes[name := n.(streamSize := Some(size))])
        else DfsChildren(nodes[name := n], visited + {name}, ChildrenOf(n), 0, name, path + [name], t, size)
  {
  }

  lemma UpdateTwice<K, V>(m: map<K, V>, k: K, v: V, v': V)
    ensures m[k := v][k := v'] == m[k := v']
  {
  }

  /** Every registry name linked from a name visited since `v0` has been visited too. */
  ghost predicate Closed(adj: Paths.Adjacency, names: set<string>, v: set<string>, v0: set<string>)
  {
    forall x, c :: x in v && x !in v0 && c in names && Paths.Linked(adj, x, c) ==> c in v
  }

  /** No name visited since `v0` is the target. */
  ghost predicate Missed(t: Target, v: set<string>, v0: set<string>)
  {
    forall x :: x in v && x !in v0 ==> !Hits(t, x)
  }

  /**
   * A search that finds nothing has visited its starting name, every registry name linked from a name
   * it visited, and no name that is the target.
   */
  lemma {:induction false} VisitClosed(nodes: Registry, visited: set<string>, name: string, prev: Option<string>,
                                       path: seq<string>, t: Target, size: int)
    requires name in nodes && name !in visited
    ensures var r := DfsVisit(nodes, visited, name, prev, path, t, size);
      r.found == None ==>
        name in r.visited && Closed(ChildMap(nodes), nodes.Keys, r.visited, visited) && Missed(t, r.visited, visited)
    decreases |nodes.Keys - visited|, 0
  {
    VisitUnfold(nodes, visited, name, prev, path, t, size);
    var n := Arrive(nodes[name], prev);
    if !Hits(t, name) {
      var nodes1 := nodes[name := n];
      var cs := ChildrenOf(n);
      FewerLeft(nodes.Keys, visited, visited + {name}, name);
      assert nodes1.Keys == nodes.Keys;
      var r := DfsChildren(nodes1, visited + {name}, cs, 0, name, path + [name], t, size);
      ChildrenClosed(nodes1, visited + {name}, cs, 0, name, path + [name], t, size);
      ChildMapSame(nodes1, nodes);
      if r.found == None {
        ClosedAt(ChildMap(nodes), nodes.Keys, r.visited, visited, name);
        MissedAt(t, r.visited, visited, name);
      }
    }
  }

  lemma {:induction false} ChildrenClosed(nodes: Registry, visited: set<string>, cs: seq<string>, i: nat, parent: string,
                                          path: seq<string>, t: Target, size: int)
    requires i <= |cs|
    ensures var r := DfsChildren(nodes, visited, cs, i, parent, path, t, size);
      r.found == None ==>
        && (forall j :: i <= j < |cs| && cs[j] in nodes ==> cs[j] in r.visited)
        && Closed(ChildMap(nodes), nodes.Keys, r.visited, visited) && Missed(t, r.visited, visited)
    decreases |nodes.Keys - visited|, 1, |cs| - i
  {
    if i < |cs| {
      var c := cs[i];
      ChildrenStep(nodes, visited, cs, i, parent, path, t, size);
      if c in visited || c !in nodes {
        ChildrenClosed(nodes, visited, cs, i + 1, parent, path, t, size);
      } else {
        var r1 := DfsVisit(nodes, visited, c, Some(parent), path, t, size);
        if r1.found == None {
          NoMoreLeft(nodes.Keys, visited, r1.visited);
          VisitClosed(nodes, visited, c, Some(parent), path, t, size);
          VisitShape(nodes, visited, c, Some(parent), path, t, size);
          ChildMapSame(r1.nodes, nodes);
          ChildrenClosed(r1.nodes, r1.visited, cs, i + 1, parent, path, t, size);
          var r2 := DfsChildren(r1.nodes, r1.visited, cs, i + 1, parent, path, t, size);
          if r2.found == None {
            CloseChildren(ChildMap(nodes), nodes.Keys, cs, i, visited, r1.visited, r2.visited, t);
          }
        }
      }
    }
  }

  /** ChildrenClosed's step, on sets alone: the child's search, then the later children's. */
  lemma CloseChildren(adj: Paths.Adjacency, names: set<string>, cs: seq<string>, i: nat,
                      v0: set<string>, v1: set<string>, v2: set<string>, t: Target)
    requires i < |cs| && cs[i] in v1 && v0 <= v1 <= v2
    requires Closed(adj, names, v1, v0) && Missed(t, v1, v0)
    requires Closed(adj, names, v2, v1) && Missed(t, v2, v1)
    requires forall j :: i + 1 <= j < |cs| && cs[j] in names ==> cs[j] in v2
    ensures forall j :: i <= j < |cs| && cs[j] in names ==> cs[j] in v2
    ensures Closed(adj, names, v2, v0) && Missed(t, v2, v0)
  {
    ClosedTrans(adj, names, v0, v1, v2);
  }

  /** Closing over the children of `name` closes the set over everything visited since before `name`. */
  lemma ClosedAt(adj: Paths.Adjacency, names: set<string>, v: set<string>, v0: set<string>, name: string)
    requires Closed(adj, names, v, v0 + {name})
    requires forall j :: 0 <= j < |Paths.Children(adj, name)| && Paths.Children(adj, name)[j] in names ==>
      Paths.Children(adj, name)[j] in v
    ensures Closed(adj, names, v, v0)
  {
    forall x, c | x in v && x !in v0 && c in names && Paths.Linked(adj, x, c)
      ensures c in v
    {
      if x == name {
        var cs := Paths.Children(adj, name);
        var j :| 0 <= j < |cs| && cs[j] == c;
      }
    }
  }

  lemma MissedAt(t: Target, v: set<string>, v0: set<string>, name: string)
    requires Missed(t, v, v0 + {name}) && !Hits(t, name)
    ensures Missed(t, v, v0)
  {
  }

  lemma ClosedTrans(adj: Paths.Adjacency, names: set<string>, v0: set<string>, v1: set<string>, v2: set<string>)
    requires v0 <= v1 <= v2 && Closed(adj, names, v1, v0) && Closed(adj, names, v2, v1)
    ensures Closed(adj, names, v2, v0)
  {
  }

  /** A walk from `source` to `target` in the registry's links that passes only through registry names. */
  ghost predicate RegistryPath(nodes: Registry, source: string, target: string, w: seq<string>)
  {
    Paths.IsWalkBetween(ChildMap(nodes), source, target, w) && forall k :: 0 <= k < |w| ==> w[k] in nodes
  }

  /** A walk through registry names that starts inside a closed set stays inside it. */
  lemma {:induction false} ClosedWalk(adj: Paths.Adjacency, names: set<string>, v: set<string>, w: seq<string>)
    requires Paths.IsWalk(adj, w) && w[0] in v && Closed(adj, names, v, {})
    requires forall k :: 0 <= k < |w| ==> w[k] in names
    ensures forall k :: 0 <= k < |w| ==> w[k] in v
    decreases |w|
  {
    if |w| > 1 {
      var w' := w[..|w| - 1];
      assert forall k :: 0 <= k < |w'| ==> w'[k] == w[k];
      ClosedWalk(adj, names, v, w');
      assert Paths.Linked(adj, w[|w| - 2], w[|w| - 1]);
    }
  }

  /**
   * `dfs_traverse_stream` as intended, with the destination's name as the target: the path returned
   * starts at the source, ends at the destination, repeats no name and follows registry links; the
   * destination then carries the stream size, each switch after the source records the name before
   * it, and the source's own preceding entry is untouched.
   */
  lemma DfsStreamFound(nodes: Registry, stream: StreamRecord.Stream)
    requires stream.sourceNode in nodes
    ensures var r := DfsVisit(nodes, {}, stream.sourceNode, None, [], TargetName(stream.destinationNode), stream.size);
      r.found.Some? ==>
        var p := r.found.value;
        && RegistryPath(nodes, stream.sourceNode, stream.destinationNode, p) && NoRepeats(p)
        && Sized(r.nodes, p, stream.size) && Stamped(nodes, r.nodes, p, 1)
        && r.nodes[stream.sourceNode].preceding == nodes[stream.sourceNode].preceding
  {
    var src, t := stream.sourceNode, TargetName(stream.destinationNode);
    var r := DfsVisit(nodes, {}, src, None, [], t, stream.size);
    VisitPath(nodes, {}, src, None, [], t, stream.size);
    VisitStamps(nodes, {}, src, None, [], t, stream.size);
    if r.found.Some? {
      var p := r.found.value;
      assert p[..1] == [src];
      assert p[0] == src;
    }
  }

  /** The search as intended finds a path exactly when some registry walk joins source and destination. */
  lemma DfsStreamComplete(nodes: Registry, stream: StreamRecord.Stream)
    requires stream.sourceNode in nodes
    ensures var r := DfsVisit(nodes, {}, stream.sourceNode, None, [], TargetName(stream.destinationNode), stream.size);
      r.found.Some? <==> exists w :: RegistryPath(nodes, stream.sourceNode, stream.destinationNode, w)
  {
    var src, dst, t := stream.sourceNode, stream.destinationNode, TargetName(stream.destinationNode);
    var r := DfsVisit(nodes, {}, src, None, [], t, stream.size);
    DfsStreamFound(nodes, stream);
    if r.found.Some? {
      assert RegistryPath(nodes, src, dst, r.found.value);
    } else {
      VisitClosed(nodes, {}, src, None, [], t, stream.size);
      forall w | RegistryPath(nodes, src, dst, w)
        ensures false
      {
        ClosedWalk(ChildMap(nodes), nodes.Keys, r.visited, w);
        assert Hits(t, w[|w| - 1]);
      }
    }
  }

  /**
   * `dfs_traverse_stream` as written compares names with the destination node object: it returns
   * no path for any stream, and stamps no stream size anywhere.
   */
  lemma DfsStreamAsWrittenFindsNothing(nodes: Registry, stream: StreamRecord.Stream)
    requires stream.sourceNode in nodes
    ensures var r := DfsVisit(nodes, {}, stream.sourceNode, None, [], TargetNode(stream.destinationNode), stream.size);
      r.found == None && StreamSizes(r.nodes) == StreamSizes(nodes)
  {
    VisitMisses(nodes, {}, stream.sourceNode, None, [], stream.destinationNode, stream.size);
    VisitStampsNothing(nodes, {}, stream.sourceNode, None, [], stream.destinationNode, stream.size);
  }

  /**
   * `dfs_traverse_stream` with the destination's name as the target, over the node objects: the path
   * and the nodes' new contents are those DfsVisit gives for a fresh search from the source.
   */
  method DfsTraverseStream(nodes: map<string, Node>, stream: StreamRecord.Stream) returns (path: Option<seq<string>>)
    requires Registered(nodes) && stream.sourceNode in nodes
    modifies Objects(nodes)
    ensures var r := DfsVisit(old(Snapshot(nodes)), {}, stream.sourceNode, None, [],
                              TargetName(stream.destinationNode), stream.size);
      path == r.found && Snapshot(nodes) == r.nodes
  {
    path := Traverse(nodes, stream, TargetName(stream.destinationNode));
  }

  /** `dfs_traverse_stream` as written, with the destination node object as the target. */
  method DfsTraverseStreamAsWritten(nodes: map<string, Node>, stream: StreamRecord.Stream) returns (path: Option<seq<string>>)
    requires Registered(nodes) && stream.sourceNode in nodes
    modifies Objects(nodes)
    ensures var r := DfsVisit(old(Snapshot(nodes)), {}, stream.sourceNode, None, [],
                              TargetNode(stream.destinationNode), stream.size);
      path == r.found && Snapshot(nodes) == r.nodes
  {
    path := Traverse(nodes, stream, TargetNode(stream.destinationNode));
  }

  /** Line 128: a search from the stream's source with nothing visited, an empty path and no preceding node. */
  method Traverse(nodes: map<string, Node>, stream: StreamRecord.Stream, t: Target) returns (path: Option<seq<string>>)
    requires Registered(nodes) && stream.sourceNode in nodes
    modifies Objects(nodes)
    ensures var r := DfsVisit(old(Snapshot(nodes)), {}, stream.sourceNode, None, [], t, stream.size);
      path == r.found && Snapshot(nodes) == r.nodes
  {
    ghost var b := Snapshot(nodes);
    var visited;
    ghost var b';
    path, visited, b' := DfsTraverse(nodes, b, {}, stream.sourceNode, None, [], t, stream.size);
    HoldsSnapshot(nodes, b');
  }

  // ---------------------------------------------------------------------------
  // bfs_traverse_target

  /**
   * `bfs_traverse_target(source_node, nodes, target)`: a path with the fewest names from the source
   * node's name to `target` through the registry's links when there is one, and `None` exactly when
   * `target` cannot be reached. Names missing from the registry end a walk (they have no children).
   * Nothing is changed.
   */
  method BfsTraverseTarget(source: Node, nodes: map<string, Node>, target: string) returns (r: Option<seq<string>>)
    ensures r.Some? ==> Paths.IsShortestPath(ChildMap(Snapshot(nodes)), source.name, target, r.value)
    ensures r.None? ==> !Paths.Reachable(ChildMap(Snapshot(nodes)), source.name, target)
  {
    var adj := ChildMap(Snapshot(nodes));
    ghost var expanded;
    r, expanded := Paths.Bfs(adj, source.name, target);
    assert adj == ChildMap(Snapshot(nodes));
  }
}
