/**
 * node.py: a node with a name, a device kind and the neighbour names of its incoming and outgoing
 * links, kept as lists in the order links were added. The `Switch` and `EndStation` subclasses that
 * algorithms.py builds add two attributes, modelled here on the same class: a switch's preceding
 * node (by name) and the `stream_size` a traversal stamps on a destination.
 */
module NodeModel {
  import opened Wrappers
  import opened Text
  import opened NodeTypes

  /** Everything a node holds, as a value. */
  datatype NodeState = NodeState(
    name: string,
    kind: Kind,
    inEdges: seq<string>,
    outEdges: seq<string>,
    preceding: Option<string>,
    streamSize: Option<int>)

  class Node {
    var name: string
    var kind: Kind
    var inEdges: seq<string>
    var outEdges: seq<string>
    var preceding: Option<string>
    var streamSize: Option<int>

    function State(): NodeState
      reads this
    {
      NodeState(name, kind, inEdges, outEdges, preceding, streamSize)
    }

    /** `Node(name, node_type)`: both edge lists start empty; no preceding node, no stream size yet. */
    constructor (name: string, kind: Kind)
      ensures State() == NodeState(name, kind, [], [], None, None)
    {
      this.name := name;
      this.kind := kind;
      inEdges := [];
      outEdges := [];
      preceding := None;
      streamSize := None;
    }

    /** Appends one entry at the end of the incoming list; earlier entries and every other field stay. */
    method AddInEdge(edge: string)
      modifies this
      ensures inEdges == old(inEdges) + [edge]
      ensures State() == old(State()).(inEdges := old(inEdges) + [edge])
    {
      inEdges := inEdges + [edge];
    }

    /** Appends one entry at the end of the outgoing list; earlier entries and every other field stay. */
    method AddOutEdge(edge: string)
      modifies this
      ensures outEdges == old(outEdges) + [edge]
      ensures State() == old(State()).(outEdges := old(outEdges) + [edge])
    {
      outEdges := outEdges + [edge];
    }

    /** `set_preceding_node`: records the node a switch was reached from. */
    method SetPrecedingNode(from: string)
      modifies this
      ensures State() == old(State()).(preceding := Some(from))
    {
      preceding := Some(from);
    }
  }

  /** The node objects a registry holds. */
  function Objects(nodes: map<string, Node>): set<Node>
  {
    set k | k in nodes :: nodes[k]
  }

  lemma ObjectsAdd(nodes: map<string, Node>, k: string, n: Node)
    requires k !in nodes
    ensures Objects(nodes[k := n]) == Objects(nodes) + {n}
  {
    var m := nodes[k := n];
    forall x | x in Objects(nodes)
      ensures x in Objects(m)
    {
      var j :| j in nodes && nodes[j] == x;
      assert m[j] == x;
    }
    assert n == m[k];
  }

  /** A registry of node objects, each filed under its own name. */
  predicate Registered(nodes: map<string, Node>)
    reads Objects(nodes)
  {
    forall k :: k in nodes ==> nodes[k].name == k
  }

  /** The registry's contents as values. */
  function Snapshot(nodes: map<string, Node>): map<string, NodeState>
    reads Objects(nodes)
  {
    map k | k in nodes :: nodes[k].State()
  }

  /** The registry's objects hold the contents `b` describes, name by name. */
  predicate Holds(nodes: map<string, Node>, b: map<string, NodeState>)
    reads Objects(nodes)
  {
    nodes.Keys == b.Keys && forall k :: k in nodes ==> nodes[k].State() == b[k]
  }

  lemma HoldsSnapshot(nodes: map<string, Node>, b: map<string, NodeState>)
    requires Holds(nodes, b)
    ensures Snapshot(nodes) == b
  {
  }

  /** `__str__`: "{name} ({type})". */
  function Describe(n: NodeState): string
  {
    n.name + " (" + KindText(n.kind) + ")"
  }

  function KindFromText(s: string): Option<Kind>
  {
    if s == SwitchTag then Some(Switch) else if s == EndStationTag then Some(EndStation) else None
  }

  /** Reads a `Describe` rendering back: the name before " (", the kind between the parentheses. */
  function ParseDescription(s: string): Option<(string, Kind)>
  {
    var i := IndexOf(s, '(');
    if 1 <= i && i < |s| && s[i - 1] == ' ' && s[|s| - 1] == ')' then
      match KindFromText(s[i + 1..|s| - 1])
      case Some(k) => Some((s[..i - 1], k))
      case None => None
    else None
  }

  /** The rendering starts with the name, ends with ")", and gives back name and kind whenever the name holds no "(". */
  lemma DescribeRoundTrip(n: NodeState)
    requires '(' !in n.name
    ensures StartsWith(Describe(n), n.name) && Describe(n)[|Describe(n)| - 1] == ')'
    ensures ParseDescription(Describe(n)) == Some((n.name, n.kind))
  {
    Bracketed(n.name, KindText(n.kind));
    KindTextRoundTrip(n.kind);
  }

  lemma KindTextRoundTrip(k: Kind)
    ensures KindFromText(KindText(k)) == Some(k)
  {
  }
}
