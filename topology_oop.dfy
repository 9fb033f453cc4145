/**
 * topologyOOP.py: a directed network read from seven-field rows. A SWITCH or ENDSTATION row files
 * its fields under the device's name the first time that name is declared, and makes the name a
 * vertex typed by the row; a LINK row makes each endpoint a vertex (typed SWITCH when its name
 * begins with "SWITCH", ENDSTATION otherwise) and adds the directed edge from field 2 to field 4
 * carrying the row's name and values. A vertex's type is set once, when it first appears. Every
 * field is stripped of surrounding whitespace; a row with fewer than seven fields, or of any other
 * type, changes nothing.
 *
 * The row loop is specified by the fold `Build` over the rows read so far.
 */
module TopologyOop {
  import opened Wrappers
  import opened Text
  import opened NodeTypes
  import NxGraph

  type Row = seq<string>

  /** The seven fields of a row, stripped, as the declaration dictionaries hold them. */
  datatype Declaration = Declaration(
    name: string, source: string, value1: string, target: string, value2: string, value3: string)

  /** The attributes of a link: its name and three values. */
  datatype LinkData = LinkData(name: string, value1: string, value2: string, value3: string)

  /** A directed graph whose vertices carry a type tag and whose edges carry link data. */
  type Topo = NxGraph.Graph<string, LinkData>

  datatype State = State(graph: Topo, switches: map<string, Declaration>, endstations: map<string, Declaration>)

  /** Lines 29-39: a row is used only when it has fields 0 to 6. */
  predicate Complete(row: Row)
  {
    |row| >= 7
  }

  function RowTag(row: Row): string
    requires Complete(row)
  {
    Strip(row[0])
  }

  function RowDeclaration(row: Row): Declaration
    requires Complete(row)
  {
    Declaration(Strip(row[1]), Strip(row[2]), Strip(row[3]), Strip(row[4]), Strip(row[5]), Strip(row[6]))
  }

  /** Lines 69-77: the type a link endpoint receives, by its name's prefix. */
  function PrefixType(v: string): (t: string)
    ensures t == SwitchTag <==> StartsWith(v, SwitchTag)
    ensures t == SwitchTag || t == EndStationTag
  {
    if StartsWith(v, SwitchTag) then SwitchTag else EndStationTag
  }

  /** `d` is filed unless its name already is. */
  function FileFirst(m: map<string, Declaration>, d: Declaration): map<string, Declaration>
  {
    if d.name in m then m else m[d.name := d]
  }

  /** `v` becomes a vertex of type `tag` unless it already is a vertex. */
  function Ensure(g: Topo, v: string, tag: string): Topo
  {
    if v in g.adj then g else NxGraph.AddNodeWith(g, v, tag)
  }

  /** Lines 30-84 for one row. */
  function Step(st: State, row: Row): State
  {
    if !Complete(row) then st
    else
      var tag := RowTag(row);
      var d := RowDeclaration(row);
      if tag == SwitchTag then
        st.(switches := FileFirst(st.switches, d), graph := Ensure(st.graph, d.name, SwitchTag))
      else if tag == EndStationTag then
        st.(endstations := FileFirst(st.endstations, d), graph := Ensure(st.graph, d.name, EndStationTag))
      else if tag == LinkTag then st.(graph := Connect(st.graph, d))
      else st
  }

  /** Lines 68-82: both endpoints become vertices, then the directed edge carries the link's data. */
  function Connect(g: Topo, d: Declaration): Topo
  {
    var g' := Ensure(Ensure(g, d.source, PrefixType(d.source)), d.target, PrefixType(d.target));
    NxGraph.AddEdgeWith(g', d.source, d.target, LinkData(d.name, d.value1, d.value2, d.value3))
  }

  /** The state after the rows, read in order from `st`. */
  function Build(st: State, rows: seq<Row>): State
    decreases |rows|
  {
    if rows == [] then st else Step(Build(st, rows[..|rows| - 1]), rows[|rows| - 1])
  }

  // ---------------------------------------------------------------------------
  // What the rows say

  /** The declaration a row makes under `tag` for `name`, if it is one. */
  function Declares(row: Row, tag: string, name: string): Option<Declaration>
  {
    if Complete(row) && RowTag(row) == tag && RowDeclaration(row).name == name then Some(RowDeclaration(row))
    else None
  }

  /** The first declaration under `tag` of `name` among `rows`. */
  function FirstDeclaration(rows: seq<Row>, tag: string, name: string): Option<Declaration>
    decreases |rows|
  {
    if rows == [] then None
    else
      var earlier := FirstDeclaration(rows[..|rows| - 1], tag, name);
      if earlier.Some? then earlier else Declares(rows[|rows| - 1], tag, name)
  }

  /** The type a row gives `v` if `v` is not yet a vertex: its declared type, or its prefix type as a link endpoint. */
  function RowType(row: Row, v: string): Option<string>
  {
    if !Complete(row) then None
    else
      var tag := RowTag(row);
      var d := RowDeclaration(row);
      if (tag == SwitchTag || tag == EndStationTag) && d.name == v then Some(tag)
      else if tag == LinkTag && (d.source == v || d.target == v) then Some(PrefixType(v))
      else None
  }

  /** The type the first row that mentions `v` gives it. */
  function FirstType(rows: seq<Row>, v: string): Option<string>
    decreases |rows|
  {
    if rows == [] then None
    else
      var earlier := FirstType(rows[..|rows| - 1], v);
      if earlier.Some? then earlier else RowType(rows[|rows| - 1], v)
  }

  /** The edge a row adds, if it is a link. */
  function RowEdge(row: Row): set<(string, string)>
  {
    if Complete(row) && RowTag(row) == LinkTag then {(RowDeclaration(row).source, RowDeclaration(row).target)}
    else {}
  }

  function Links(rows: seq<Row>): set<(string, string)>
    decreases |rows|
  {
    if rows == [] then {} else Links(rows[..|rows| - 1]) + RowEdge(rows[|rows| - 1])
  }

  /** The data of the last link row from `u` to `v`. */
  function LastLinkData(rows: seq<Row>, u: string, v: string): Option<LinkData>
    decreases |rows|
  {
    if rows == [] then None
    else
      var row := rows[|rows| - 1];
      if Complete(row) && RowTag(row) == LinkTag && RowDeclaration(row).source == u && RowDeclaration(row).target == v then
        Some(RowLinkData(row))
      else LastLinkData(rows[..|rows| - 1], u, v)
  }

  /** A row the loop passes over: too short, or of no known type. */
  predicate Ignored(row: Row)
  {
    !Complete(row) || (RowTag(row) != SwitchTag && RowTag(row) != EndStationTag && RowTag(row) != LinkTag)
  }

  /** The rows that are not ignored, in order. */
  function Kept(rows: seq<Row>): seq<Row>
    decreases |rows|
  {
    if rows == [] then []
    else if Ignored(rows[|rows| - 1]) then Kept(rows[..|rows| - 1])
    else Kept(rows[..|rows| - 1]) + [rows[|rows| - 1]]
  }

  // ---------------------------------------------------------------------------
  // Invariant and properties

  predicate Filed(m: map<string, Declaration>)
  {
    forall k :: k in m ==> m[k].name == k
  }

  predicate Typed(attrs: map<string, string>)
  {
    forall k :: k in attrs ==> attrs[k] == SwitchTag || attrs[k] == EndStationTag
  }

  /**
   * A valid directed graph in which every vertex has a type, SWITCH or ENDSTATION, and every filed
   * device is a vertex filed under its own name.
   */
  ghost predicate Consistent(st: State)
  {
    && NxGraph.Valid(st.graph) && st.graph.directed
    && st.graph.attrs.Keys == st.graph.adj.Keys && Typed(st.graph.attrs)
    && Filed(st.switches) && Filed(st.endstations)
    && st.switches.Keys <= st.graph.adj.Keys && st.endstations.Keys <= st.graph.adj.Keys
  }

  lemma EnsureSpec(g: Topo, v: string, tag: string)
    requires NxGraph.Valid(g) && g.attrs.Keys == g.adj.Keys && Typed(g.attrs)
    requires tag == SwitchTag || tag == EndStationTag
    ensures var r := Ensure(g, v, tag);
      && Typed(r.attrs)
      && NxGraph.Valid(r) && r.directed == g.directed && r.edgeAttrs == g.edgeAttrs
      && r.adj.Keys == g.adj.Keys + {v} && r.attrs.Keys == r.adj.Keys
      && NxGraph.Edges(r.adj) == NxGraph.Edges(g.adj)
      && r.attrs == if v in g.adj then g.attrs else g.attrs[v := tag]
  {
    if v !in g.adj {
      NxGraph.AddNodeWithSpec(g, v, tag);
    }
  }

  /** One row keeps the state consistent, and changes the graph exactly as the row says. */
  lemma StepSpec(st: State, row: Row)
    requires Consistent(st)
    ensures var r := Step(st, row);
      && Consistent(r)
      && NxGraph.Edges(r.graph.adj) == NxGraph.Edges(st.graph.adj) + RowEdge(row)
  {
    if Complete(row) {
      var tag := RowTag(row);
      if tag == SwitchTag || tag == EndStationTag {
        DeclareStep(st, row);
      } else if tag == LinkTag {
        LinkStep(st, row);
      }
    }
  }

  /** StepSpec for a SWITCH or ENDSTATION row. */
  lemma DeclareStep(st: State, row: Row)
    requires Consistent(st) && Complete(row) && (RowTag(row) == SwitchTag || RowTag(row) == EndStationTag)
    ensures var r := Step(st, row);
      && Consistent(r)
      && NxGraph.Edges(r.graph.adj) == NxGraph.Edges(st.graph.adj) + RowEdge(row)
  {
    var d := RowDeclaration(row);
    EnsureSpec(st.graph, d.name, RowTag(row));
    if RowTag(row) == SwitchTag {
      FileFirstSpec(st.switches, d);
    } else {
      FileFirstSpec(st.endstations, d);
    }
    assert RowEdge(row) == {};
  }

  /** Filing keeps every entry under its own name and adds the declared name. */
  lemma FileFirstSpec(m: map<string, Declaration>, d: Declaration)
    requires Filed(m)
    ensures Filed(FileFirst(m, d)) && FileFirst(m, d).Keys == m.Keys + {d.name}
  {
  }

  /** StepSpec for a LINK row. */
  lemma LinkStep(st: State, row: Row)
    requires Consistent(st) && Complete(row) && RowTag(row) == LinkTag
    ensures var r := Step(st, row);
      && Consistent(r)
      && NxGraph.Edges(r.graph.adj) == NxGraph.Edges(st.graph.adj) + RowEdge(row)
  {
    var d := RowDeclaration(row);
    ConnectSpec(st.graph, d);
    ConnectShape(st.graph, d);
    assert Step(st, row) == st.(graph := Connect(st.graph, d));
  }

  /** Connecting keeps a typed directed graph valid and typed, and adds exactly the link's edge. */
  lemma ConnectSpec(g: Topo, d: Declaration)
    requires NxGraph.Valid(g) && g.directed && g.attrs.Keys == g.adj.Keys && Typed(g.attrs)
    ensures var r := Connect(g, d);
      && NxGraph.Valid(r) && r.directed && Typed(r.attrs)
      && NxGraph.Edges(r.adj) == NxGraph.Edges(g.adj) + {(d.source, d.target)}
  {
    var g1 := Ensure(g, d.source, PrefixType(d.source));
    EnsureSpec(g, d.source, PrefixType(d.source));
    EnsureSpec(g1, d.target, PrefixType(d.target));
    var g2 := Ensure(g1, d.target, PrefixType(d.target));
    var e := LinkData(d.name, d.value1, d.value2, d.value3);
    NxGraph.AddEdgeWithSpec(g2, d.source, d.target, e);
    var r := NxGraph.AddEdgeWith(g2, d.source, d.target, e);
    assert Connect(g, d) == r;
    assert r.attrs == g2.attrs;
  }

  /**
   * Rows keep the state consistent, and the edges after them are the earlier ones plus one
   * directed edge, source to target, per link row.
   */
  lemma {:induction false} BuildSpec(st: State, rows: seq<Row>)
    requires Consistent(st)
    ensures var r := Build(st, rows);
      Consistent(r) && NxGraph.Edges(r.graph.adj) == NxGraph.Edges(st.graph.adj) + Links(rows)
    decreases |rows|
  {
    if rows != [] {
      var p := rows[..|rows| - 1];
      BuildSpec(st, p);
      StepSpec(Build(st, p), rows[|rows| - 1]);
    }
  }

  /** The declarations filed under `tag`. */
  function Filing(st: State, tag: string): map<string, Declaration>
  {
    if tag == SwitchTag then st.switches else st.endstations
  }

  /**
   * First declaration wins: `name` is filed under `tag` (SWITCH or ENDSTATION) after the rows exactly
   * when it was before or some row declares it so; its entry is the earlier one if there was one,
   * else the first such declaration.
   */
  lemma {:induction false} FirstDeclarationWins(st: State, rows: seq<Row>, tag: string, name: string)
    requires tag == SwitchTag || tag == EndStationTag
    ensures var r := Filing(Build(st, rows), tag);
      && (name in r <==> name in Filing(st, tag) || FirstDeclaration(rows, tag, name).Some?)
      && (name in r ==> (r[name] ==
              (if name in Filing(st, tag) then Filing(st, tag)[name] else FirstDeclaration(rows, tag, name).value)))
    decreases |rows|
  {
    if rows != [] {
      FirstDeclarationWins(st, rows[..|rows| - 1], tag, name);
      StepFiling(Build(st, rows[..|rows| - 1]), rows[|rows| - 1], tag, name);
    }
  }

  /** FirstDeclarationWins for one row. */
  lemma StepFiling(st: State, row: Row, tag: string, name: string)
    requires tag == SwitchTag || tag == EndStationTag
    ensures var r := Filing(Step(st, row), tag);
      && (name in r <==> name in Filing(st, tag) || Declares(row, tag, name).Some?)
      && (name in r ==> (r[name] ==
              (if name in Filing(st, tag) then Filing(st, tag)[name] else Declares(row, tag, name).value)))
  {
  }

  /**
   * A type is given once: `v` is a vertex after the rows exactly when it was before or some row
   * mentions it, and its type is its earlier type if it had one, else the type the first row that
   * mentions it gives.
   */
  lemma {:induction false} TypeSetOnce(st: State, rows: seq<Row>, v: string)
    requires st.graph.attrs.Keys == st.graph.adj.Keys
    ensures var r := Build(st, rows);
      && r.graph.attrs.Keys == r.graph.adj.Keys
      && (v in r.graph.adj <==> v in st.graph.adj || FirstType(rows, v).Some?)
      && (v in r.graph.adj ==> (r.graph.attrs[v] ==
              (if v in st.graph.adj then st.graph.attrs[v] else FirstType(rows, v).value)))
    decreases |rows|
  {
    if rows != [] {
      TypeSetOnce(st, rows[..|rows| - 1], v);
      StepTypes(Build(st, rows[..|rows| - 1]), rows[|rows| - 1], v);
    }
  }

  /** TypeSetOnce for one row. */
  lemma StepTypes(st: State, row: Row, v: string)
    requires st.graph.attrs.Keys == st.graph.adj.Keys
    ensures var r := Step(st, row);
      && r.graph.attrs.Keys == r.graph.adj.Keys
      && (v in r.graph.adj <==> v in st.graph.adj || RowType(row, v).Some?)
      && (v in r.graph.adj ==> (r.graph.attrs[v] ==
              (if v in st.graph.adj then st.graph.attrs[v] else RowType(row, v).value)))
  {
    if Complete(row) {
      var tag := RowTag(row);
      if tag == SwitchTag || tag == EndStationTag {
        DeclareTypes(st, row, v);
      } else if tag == LinkTag {
        LinkTypes(st, row, v);
      }
    }
  }

  /** StepTypes for a SWITCH or ENDSTATION row. */
  lemma DeclareTypes(st: State, row: Row, v: string)
    requires st.graph.attrs.Keys == st.graph.adj.Keys && Complete(row)
    requires RowTag(row) == SwitchTag || RowTag(row) == EndStationTag
    ensures var r := Step(st, row);
      && r.graph.attrs.Keys == r.graph.adj.Keys
      && (v in r.graph.adj <==> v in st.graph.adj || RowType(row, v).Some?)
      && (v in r.graph.adj ==> (r.graph.attrs[v] ==
              (if v in st.graph.adj then st.graph.attrs[v] else RowType(row, v).value)))
  {
    var d := RowDeclaration(row);
    EnsureShape(st.graph, d.name, RowTag(row));
    EnsureTypes(st.graph, d.name, RowTag(row));
    assert Step(st, row).graph == Ensure(st.graph, d.name, RowTag(row));
  }

  /** StepTypes for a LINK row. */
  lemma LinkTypes(st: State, row: Row, v: string)
    requires st.graph.attrs.Keys == st.graph.adj.Keys && Complete(row) && RowTag(row) == LinkTag
    ensures var r := Step(st, row);
      && r.graph.attrs.Keys == r.graph.adj.Keys
      && (v in r.graph.adj <==> v in st.graph.adj || RowType(row, v).Some?)
      && (v in r.graph.adj ==> (r.graph.attrs[v] ==
              (if v in st.graph.adj then st.graph.attrs[v] else RowType(row, v).value)))
  {
    var d := RowDeclaration(row);
    ConnectShape(st.graph, d);
    ConnectTypes(st.graph, d);
    assert Step(st, row).graph == Connect(st.graph, d);
  }

  /** LastLinkDataWins for one row. */
  lemma StepLinkData(st: State, row: Row)
    requires st.graph.attrs.Keys == st.graph.adj.Keys
    ensures var r := Step(st, row);
      && r.graph.attrs.Keys == r.graph.adj.Keys && r.graph.directed == st.graph.directed
      && (st.graph.directed ==> r.graph.edgeAttrs == if RowEdge(row) == {} then st.graph.edgeAttrs
            else st.graph.edgeAttrs[(RowDeclaration(row).source, RowDeclaration(row).target) := RowLinkData(row)])
  {
    if Complete(row) {
      var tag := RowTag(row);
      var d := RowDeclaration(row);
      if tag == SwitchTag || tag == EndStationTag {
        EnsureShape(st.graph, d.name, tag);
      } else if tag == LinkTag {
        ConnectShape(st.graph, d);
      }
    }
  }

  /** The data a link row gives its edge. */
  function RowLinkData(row: Row): LinkData
    requires Complete(row)
  {
    var d := RowDeclaration(row);
    LinkData(d.name, d.value1, d.value2, d.value3)
  }

  /** What Ensure does to vertices and edge attributes, without any validity assumption. */
  lemma EnsureShape(g: Topo, v: string, tag: string)
    requires g.attrs.Keys == g.adj.Keys
    ensures var r := Ensure(g, v, tag);
      && r.adj.Keys == g.adj.Keys + {v} && r.attrs.Keys == r.adj.Keys
      && r.directed == g.directed && r.edgeAttrs == g.edgeAttrs
  {
  }

  /** The type Ensure gives: `tag` for a vertex it adds, the old type otherwise. */
  lemma EnsureTypes(g: Topo, v: string, tag: string)
    requires g.attrs.Keys == g.adj.Keys
    ensures var r := Ensure(g, v, tag);
      forall x :: x in r.attrs ==> r.attrs[x] == if x in g.adj then g.attrs[x] else tag
  {
  }

  /** What Connect does to vertices and edge attributes, without any validity assumption. */
  lemma ConnectShape(g: Topo, d: Declaration)
    requires g.attrs.Keys == g.adj.Keys
    ensures var r := Connect(g, d);
      && r.adj.Keys == g.adj.Keys + {d.source, d.target} && r.attrs.Keys == r.adj.Keys
      && r.directed == g.directed
      && (g.directed ==> r.edgeAttrs == g.edgeAttrs[(d.source, d.target) := LinkData(d.name, d.value1, d.value2, d.value3)])
  {
    var g1 := Ensure(g, d.source, PrefixType(d.source));
    EnsureShape(g, d.source, PrefixType(d.source));
    EnsureShape(g1, d.target, PrefixType(d.target));
    NxGraph.AddEdgeWithFacts(Ensure(g1, d.target, PrefixType(d.target)), d.source, d.target, LinkData(d.name, d.value1, d.value2, d.value3));
  }

  /** The types Connect gives: an endpoint that was not a vertex is typed by its prefix. */
  lemma ConnectTypes(g: Topo, d: Declaration)
    requires g.attrs.Keys == g.adj.Keys
    ensures var r := Connect(g, d);
      forall v :: v in r.adj && v in r.attrs ==> r.attrs[v] == if v in g.adj then g.attrs[v] else PrefixType(v)
  {
    var g1 := Ensure(g, d.source, PrefixType(d.source));
    EnsureShape(g, d.source, PrefixType(d.source));
    EnsureTypes(g, d.source, PrefixType(d.source));
    EnsureShape(g1, d.target, PrefixType(d.target));
    EnsureTypes(g1, d.target, PrefixType(d.target));
    var g2 := Ensure(g1, d.target, PrefixType(d.target));
    var e := LinkData(d.name, d.value1, d.value2, d.value3);
    var r := NxGraph.AddEdgeWith(g2, d.source, d.target, e);
    assert Connect(g, d) == r;
    assert r.attrs == g2.attrs;
  }

  /**
   * A link's attributes are those of the last link row between its endpoints, in that direction;
   * the rows give no other edge attributes.
   */
  lemma {:induction false} LastLinkDataWins(st: State, rows: seq<Row>, u: string, v: string)
    requires st.graph.directed && st.graph.attrs.Keys == st.graph.adj.Keys
    ensures var r := Build(st, rows);
      && r.graph.directed && r.graph.attrs.Keys == r.graph.adj.Keys
      && ((u, v) in r.graph.edgeAttrs <==> (u, v) in st.graph.edgeAttrs || LastLinkData(rows, u, v).Some?)
      && ((u, v) in r.graph.edgeAttrs ==> (r.graph.edgeAttrs[(u, v)] ==
              (if LastLinkData(rows, u, v).Some? then LastLinkData(rows, u, v).value else st.graph.edgeAttrs[(u, v)])))
    decreases |rows|
  {
    if rows != [] {
      LastLinkDataWins(st, rows[..|rows| - 1], u, v);
      StepLinkData(Build(st, rows[..|rows| - 1]), rows[|rows| - 1]);
    }
  }

  /** Short rows and rows of an unknown type can be dropped without changing the result. */
  lemma {:induction false} IgnoredRowsChangeNothing(st: State, rows: seq<Row>)
    ensures Build(st, Kept(rows)) == Build(st, rows)
    decreases |rows|
  {
    if rows != [] {
      var p := rows[..|rows| - 1];
      IgnoredRowsChangeNothing(st, p);
      if !Ignored(rows[|rows| - 1]) {
        var k := Kept(p) + [rows[|rows| - 1]];
        assert k[..|k| - 1] == Kept(p);
      }
    }
  }

  // ---------------------------------------------------------------------------
  // The Network class

  class Network {
    var graph: Topo
    var switches: map<string, Declaration>
    var endstations: map<string, Declaration>

    ghost predicate Valid()
      reads this
    {
      Consistent(State(graph, switches, endstations))
    }

    /** `Network()`: an empty directed graph and no declared devices. */
    constructor ()
      ensures Valid()
      ensures graph == NxGraph.Empty(true) && switches == map[] && endstations == map[]
    {
      graph := NxGraph.Empty(true);
      switches := map[];
      endstations := map[];
      new;
      assert NxGraph.Edges(graph.adj) == {};
    }

    /** `create_topology_from_csv`: the rows, in order, as `Build` states. */
    method CreateTopologyFromCsv(rows: seq<Row>)
      requires Valid()
      modifies this
      ensures Valid()
      ensures State(graph, switches, endstations) == Build(old(State(graph, switches, endstations)), rows)
    {
      ghost var st0 := State(graph, switches, endstations);
      var i := 0;
      while i < |rows|
        invariant i <= |rows|
        invariant State(graph, switches, endstations) == Build(st0, rows[..i])
      {
        assert rows[..i + 1][..i] == rows[..i];
        ReadRow(rows[i]);
        i := i + 1;
      }
      assert rows[..i] == rows;
      BuildSpec(st0, rows);
    }

    /** The body of the row loop, lines 29-84. */
    method ReadRow(row: Row)
      modifies this
      ensures State(graph, switches, endstations) == Step(old(State(graph, switches, endstations)), row)
    {
      if |row| >= 7 {
        var rowType := Strip(row[0]);
        var name := Strip(row[1]);
        var source := Strip(row[2]);
        var value1 := Strip(row[3]);
        var target := Strip(row[4]);
        var value2 := Strip(row[5]);
        var value3 := Strip(row[6]);
        var d := Declaration(name, source, value1, target, value2, value3);
        if rowType == SwitchTag {
          if name !in switches {
            switches := switches[name := d];
          }
          if name !in graph.adj {
            graph := NxGraph.AddNodeWith(graph, name, SwitchTag);
          }
        } else if rowType == EndStationTag {
          if name !in endstations {
            endstations := endstations[name := d];
          }
          if name !in graph.adj {
            graph := NxGraph.AddNodeWith(graph, name, EndStationTag);
          }
        } else if rowType == LinkTag {
          if source !in graph.adj {
            graph := NxGraph.AddNodeWith(graph, source, PrefixType(source));
          }
          if target !in graph.adj {
            graph := NxGraph.AddNodeWith(graph, target, PrefixType(target));
          }
          graph := NxGraph.AddEdgeWith(graph, source, target, LinkData(name, value1, value2, value3));
        }
      }
    }
  }
}
