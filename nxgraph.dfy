/**
 * The part of a networkx graph the network classes use: `nx.Graph()` and `nx.DiGraph()`, `add_node`
 * with or without attributes, `add_edge` with or without attributes, and membership `v in G`.
 * A graph keeps, for each vertex, its neighbours (its successors, when directed) in the order they
 * were first linked, as networkx's adjacency dictionaries do; an undirected edge is listed from
 * both ends. Vertex and edge attributes are whole values of one type per graph.
 */
module NxGraph {
  import opened Text

  datatype Graph<A, E> = Graph(
    adj: map<string, seq<string>>,
    attrs: map<string, A>,
    edgeAttrs: map<(string, string), E>,
    directed: bool)

  /** `nx.Graph()` (undirected) or `nx.DiGraph()` (directed): no vertices, no edges. */
  function Empty<A, E>(directed: bool): Graph<A, E>
  {
    Graph(map[], map[], map[], directed)
  }

  /** `v in G`. */
  predicate HasNode<A, E>(g: Graph<A, E>, v: string)
  {
    v in g.adj
  }

  /** `G.has_edge(u, v)`. */
  predicate HasEdge<A, E>(g: Graph<A, E>, u: string, v: string)
  {
    u in g.adj && v in g.adj[u]
  }

  /** The ordered pairs the adjacency lists. */
  ghost function Edges(adj: map<string, seq<string>>): set<(string, string)>
  {
    set x, y | x in adj && y in adj[x] :: (x, y)
  }

  /** Edge endpoints are vertices. */
  ghost predicate Closed(adj: map<string, seq<string>>)
  {
    forall e :: e in Edges(adj) ==> e.1 in adj
  }

  /** No neighbour is listed twice. */
  ghost predicate Distinct(adj: map<string, seq<string>>)
  {
    forall u :: u in adj ==> NoRepeats(adj[u])
  }

  /** Every edge is seen from both ends. */
  ghost predicate Symmetric(adj: map<string, seq<string>>)
  {
    forall e :: e in Edges(adj) ==> (e.1, e.0) in Edges(adj)
  }

  /**
   * What networkx keeps true of every graph: edge endpoints are vertices, no neighbour is listed
   * twice, an undirected edge is seen from both ends, and attributes belong to vertices and edges.
   */
  ghost predicate Valid<A, E>(g: Graph<A, E>)
  {
    && Closed(g.adj) && Distinct(g.adj) && (!g.directed ==> Symmetric(g.adj))
    && g.attrs.Keys <= g.adj.Keys && g.edgeAttrs.Keys <= Edges(g.adj)
  }

  /** A vertex `v` without neighbours, unless it is there already. */
  function Touch(adj: map<string, seq<string>>, v: string): (r: map<string, seq<string>>)
  {
    if v in adj then adj else adj[v := []]
  }

  /** `v` joins the end of `u`'s neighbours unless it is there already. */
  function Link(adj: map<string, seq<string>>, u: string, v: string): (r: map<string, seq<string>>)
    requires u in adj
  {
    adj[u := Insert(adj[u], v)]
  }

  /** `x` joins the end of `s` unless it is already there. */
  function Insert(s: seq<string>, x: string): (r: seq<string>)
  {
    if x in s then s else s + [x]
  }

  /** `G.add_node(v)`: a new vertex without neighbours; an existing vertex is left as it is. */
  function AddNode<A, E>(g: Graph<A, E>, v: string): (r: Graph<A, E>)
  {
    g.(adj := Touch(g.adj, v))
  }

  /** `G.add_node(v, **attr)`: the vertex, with its attributes set to `a`. */
  function AddNodeWith<A, E>(g: Graph<A, E>, v: string, a: A): (r: Graph<A, E>)
  {
    g.(adj := Touch(g.adj, v), attrs := g.attrs[v := a])
  }

  /** `G.add_edge(u, v)`: both endpoints become vertices and `v` a neighbour of `u` (and `u` of `v` when undirected). */
  function AddEdge<A, E>(g: Graph<A, E>, u: string, v: string): (r: Graph<A, E>)
  {
    var a := Link(Touch(Touch(g.adj, u), v), u, v);
    g.(adj := if g.directed then a else Link(a, v, u))
  }

  /** `G.add_edge(u, v, **attr)`: the edge, with its attributes set to `e`. */
  function AddEdgeWith<A, E>(g: Graph<A, E>, u: string, v: string, e: E): (r: Graph<A, E>)
  {
    var r := AddEdge(g, u, v);
    if g.directed then r.(edgeAttrs := g.edgeAttrs[(u, v) := e])
    else r.(edgeAttrs := g.edgeAttrs[(u, v) := e][(v, u) := e])
  }

  lemma InsertShape(s: seq<string>, x: string)
    ensures forall y :: y in Insert(s, x) <==> y in s || y == x
    ensures NoRepeats(s) ==> NoRepeats(Insert(s, x))
    ensures |s| <= |Insert(s, x)| && Insert(s, x)[..|s|] == s
  {
  }

  /** Touching a vertex adds it and no edge, and keeps every list. */
  lemma TouchSpec(adj: map<string, seq<string>>, v: string)
    ensures var r := Touch(adj, v);
      && r.Keys == adj.Keys + {v} && Edges(r) == Edges(adj)
      && (forall x :: x in adj ==> r[x] == adj[x])
      && (Distinct(adj) ==> Distinct(r)) && (Closed(adj) ==> Closed(r)) && (Symmetric(adj) ==> Symmetric(r))
  {
    var r := Touch(adj, v);
    assert Edges(r) == Edges(adj) by {
      forall e | e in Edges(r) ensures e in Edges(adj) {
        var x, y :| x in r && y in r[x] && e == (x, y);
      }
    }
  }

  /** Linking adds exactly one pair and keeps lists distinct. */
  lemma LinkSpec(adj: map<string, seq<string>>, u: string, v: string)
    requires u in adj
    ensures var r := Link(adj, u, v);
      && r.Keys == adj.Keys && Edges(r) == Edges(adj) + {(u, v)}
      && (Distinct(adj) ==> Distinct(r))
  {
    var r := Link(adj, u, v);
    InsertShape(adj[u], v);
    forall e | e in Edges(r) ensures e in Edges(adj) + {(u, v)} {
      var x, y :| x in r && y in r[x] && e == (x, y);
    }
    forall e | e in Edges(adj) + {(u, v)} ensures e in Edges(r) {
      if e != (u, v) {
        var x, y :| x in adj && y in adj[x] && e == (x, y);
        assert y in r[x];
      } else {
        assert v in r[u];
      }
    }
  }

  /** Adding a vertex keeps the graph valid, adds exactly that vertex, and touches no edge or attribute. */
  lemma AddNodeSpec<A, E>(g: Graph<A, E>, v: string)
    requires Valid(g)
    ensures var r := AddNode(g, v);
      && Valid(r) && r.adj.Keys == g.adj.Keys + {v} && Edges(r.adj) == Edges(g.adj)
      && r.attrs == g.attrs && r.edgeAttrs == g.edgeAttrs && r.directed == g.directed
  {
    TouchSpec(g.adj, v);
  }

  /** Adding a vertex with attributes: as AddNodeSpec, and the vertex's attributes are `a`. */
  lemma AddNodeWithSpec<A, E>(g: Graph<A, E>, v: string, a: A)
    requires Valid(g)
    ensures var r := AddNodeWith(g, v, a);
      && Valid(r) && r.adj.Keys == g.adj.Keys + {v} && Edges(r.adj) == Edges(g.adj)
      && r.attrs == g.attrs[v := a] && r.edgeAttrs == g.edgeAttrs && r.directed == g.directed
  {
    TouchSpec(g.adj, v);
  }

  /** The edges `AddEdge` adds. */
  function NewEdges(directed: bool, u: string, v: string): set<(string, string)>
  {
    if directed then {(u, v)} else {(u, v), (v, u)}
  }

  /**
   * Adding an edge keeps the graph valid, makes both endpoints vertices, adds exactly that edge (and
   * its reverse when undirected), and touches no attribute.
   */
  lemma AddEdgeSpec<A, E>(g: Graph<A, E>, u: string, v: string)
    requires Valid(g)
    ensures var r := AddEdge(g, u, v);
      && Valid(r) && r.adj.Keys == g.adj.Keys + {u, v} && r.directed == g.directed
      && Edges(r.adj) == Edges(g.adj) + NewEdges(g.directed, u, v)
      && r.attrs == g.attrs && r.edgeAttrs == g.edgeAttrs
  {
    var t := Touch(Touch(g.adj, u), v);
    TouchSpec(g.adj, u);
    TouchSpec(Touch(g.adj, u), v);
    LinkSpec(t, u, v);
    if g.directed {
      ClosedAdd(t, Link(t, u, v), {(u, v)});
    } else {
      LinkBoth(g.adj, t, u, v);
    }
  }

  /** The undirected half of AddEdgeSpec: linking both ways from a touched adjacency. */
  lemma LinkBoth(adj: map<string, seq<string>>, t: map<string, seq<string>>, u: string, v: string)
    requires Closed(adj) && Distinct(t) && Symmetric(adj)
    requires t.Keys == adj.Keys + {u, v} && Edges(t) == Edges(adj)
    ensures u in Link(t, u, v) && v in Link(t, u, v)
    ensures var r := Link(Link(t, u, v), v, u);
      && r.Keys == adj.Keys + {u, v} && Edges(r) == Edges(adj) + {(u, v), (v, u)}
      && Closed(r) && Distinct(r) && Symmetric(r)
  {
    var a := Link(t, u, v);
    LinkSpec(t, u, v);
    LinkSpec(a, v, u);
    var r := Link(a, v, u);
    UnionAssoc(Edges(adj), {(u, v)}, {(v, u)});
    SymmetricAdd(adj, r, u, v);
    ClosedAdd(adj, r, {(u, v), (v, u)});
  }

  lemma UnionAssoc<T>(a: set<T>, b: set<T>, c: set<T>)
    ensures a + b + c == a + (b + c)
  {
  }

  lemma SymmetricAdd(adj: map<string, seq<string>>, r: map<string, seq<string>>, u: string, v: string)
    requires Symmetric(adj) && Edges(r) == Edges(adj) + {(u, v), (v, u)}
    ensures Symmetric(r)
  {
  }

  lemma ClosedAdd(adj: map<string, seq<string>>, r: map<string, seq<string>>, added: set<(string, string)>)
    requires Closed(adj) && adj.Keys <= r.Keys && Edges(r) == Edges(adj) + added
    requires forall e :: e in added ==> e.1 in r
    ensures Closed(r)
  {
  }

  /** Adding an edge with attributes: as AddEdgeSpec, and the edge's attributes (both ways when undirected) are `e`. */
  lemma AddEdgeWithSpec<A, E>(g: Graph<A, E>, u: string, v: string, e: E)
    requires Valid(g)
    ensures var r := AddEdgeWith(g, u, v, e);
      && Valid(r) && r.adj.Keys == g.adj.Keys + {u, v} && r.directed == g.directed && r.attrs == g.attrs
      && Edges(r.adj) == Edges(g.adj) + NewEdges(g.directed, u, v)
      && r.edgeAttrs == if g.directed then g.edgeAttrs[(u, v) := e] else g.edgeAttrs[(u, v) := e][(v, u) := e]
  {
    AddEdgeSpec(g, u, v);
  }

  /** What adding an edge with attributes does to vertices and attributes, on any graph. */
  lemma AddEdgeWithFacts<A, E>(g: Graph<A, E>, u: string, v: string, e: E)
    ensures var r := AddEdgeWith(g, u, v, e);
      && r.adj.Keys == g.adj.Keys + {u, v} && r.directed == g.directed && r.attrs == g.attrs
      && r.edgeAttrs == if g.directed then g.edgeAttrs[(u, v) := e] else g.edgeAttrs[(u, v) := e][(v, u) := e]
  {
    TouchSpec(g.adj, u);
    TouchSpec(Touch(g.adj, u), v);
  }
}
