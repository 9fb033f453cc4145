/**
 * Walks over a graph given as each name's ordered list of children, and the breadth-first
 * search over paths that the traversal code runs: a FIFO queue of paths, a visited set, and
 * children appended in list order unless they already lie on the path.
 */
module Paths {
  import opened Wrappers
  import opened Text

  /** Each name's children, in the order a traversal explores them; a name without an entry has none. */
  type Adjacency = map<string, seq<string>>

  function Children(adj: Adjacency, v: string): seq<string>
  {
    if v in adj then adj[v] else []
  }

  predicate Linked(adj: Adjacency, u: string, v: string)
  {
    v in Children(adj, u)
  }

  function Last(w: seq<string>): string
    requires |w| > 0
  {
    w[|w| - 1]
  }

  /** A non-empty sequence of names, each a child of the one before. */
  predicate IsWalk(adj: Adjacency, w: seq<string>)
  {
    |w| > 0 && forall i :: 0 <= i < |w| - 1 ==> Linked(adj, w[i], w[i + 1])
  }

  predicate IsWalkFrom(adj: Adjacency, source: string, w: seq<string>)
  {
    IsWalk(adj, w) && w[0] == source
  }

  predicate IsWalkBetween(adj: Adjacency, source: string, target: string, w: seq<string>)
  {
    IsWalkFrom(adj, source, w) && Last(w) == target
  }

  ghost predicate Reachable(adj: Adjacency, source: string, target: string)
  {
    exists w :: IsWalkBetween(adj, source, target, w)
  }

  /** A path from `source` to `target` with no repeated name and no more names than any walk between them. */
  ghost predicate IsShortestPath(adj: Adjacency, source: string, target: string, p: seq<string>)
  {
    && IsWalkBetween(adj, source, target, p)
    && NoRepeats(p)
    && forall w :: IsWalkBetween(adj, source, target, w) ==> |p| <= |w|
  }

  /** Every name a walk from `source` can reach lies in this finite set. */
  ghost function Names(adj: Adjacency, source: string): set<string>
  {
    {source} + adj.Keys + (set u, v | u in adj && v in adj[u] :: v)
  }

  lemma WalkPrefix(adj: Adjacency, source: string, w: seq<string>, n: nat)
    requires IsWalkFrom(adj, source, w) && 0 < n <= |w|
    ensures IsWalkFrom(adj, source, w[..n])
  {
  }

  lemma WalkInNames(adj: Adjacency, source: string, w: seq<string>, k: nat)
    requires IsWalkFrom(adj, source, w) && k < |w|
    ensures w[k] in Names(adj, source)
  {
    if k > 0 {
      assert Linked(adj, w[k - 1], w[k]);
    }
  }

  // ---------------------------------------------------------------------------
  // Bookkeeping of the BFS queue

  function Lasts(queue: seq<seq<string>>): set<string>
  {
    set q | q in queue && |q| > 0 :: Last(q)
  }

  function LastsOfLength(queue: seq<seq<string>>, n: nat): set<string>
  {
    set q | q in queue && |q| == n && n > 0 :: Last(q)
  }

  /**
   * The paths the BFS appends after popping `path` and finding `cs` as its last name's children:
   * `path + [c]` for each child `c` in order, skipping children already on the path.
   */
  function Extensions(path: seq<string>, cs: seq<string>): (e: seq<seq<string>>)
  {
    if cs == [] then []
    else Extensions(path, cs[..|cs| - 1]) + (if cs[|cs| - 1] in path then [] else [path + [cs[|cs| - 1]]])
  }

  /** Each appended path is `path` plus one child not already on it. */
  lemma {:induction false} ExtensionsShape(path: seq<string>, cs: seq<string>, q: seq<string>)
    requires q in Extensions(path, cs)
    ensures |q| == |path| + 1 && q[..|path|] == path && Last(q) in cs && Last(q) !in path
  {
    if cs != [] {
      var init := cs[..|cs| - 1];
      if q in Extensions(path, init) {
        ExtensionsShape(path, init, q);
        assert Last(q) in cs by {
          var i :| 0 <= i < |init| && init[i] == Last(q);
          assert cs[i] == Last(q);
        }
      }
    }
  }

  /** Every child not already on `path` gets its extension appended. */
  lemma {:induction false} ExtensionsCover(path: seq<string>, cs: seq<string>, c: string)
    requires c in cs && c !in path
    ensures path + [c] in Extensions(path, cs)
  {
    var init := cs[..|cs| - 1];
    if c != cs[|cs| - 1] {
      var i :| 0 <= i < |cs| && cs[i] == c;
      assert init[i] == c;
      ExtensionsCover(path, init, c);
    }
  }

  ghost predicate QueueWalks(adj: Adjacency, source: string, queue: seq<seq<string>>)
  {
    forall q :: q in queue ==> IsWalkFrom(adj, source, q) && NoRepeats(q)
  }

  /** Paths in the queue never get shorter from front to back, and differ by at most one name. */
  predicate Levelled(queue: seq<seq<string>>)
  {
    forall i, j :: 0 <= i <= j < |queue| ==> |queue[i]| <= |queue[j]| <= |queue[i]| + 1
  }

  /** Every name on a queued path except its last has been expanded. */
  ghost predicate InteriorVisited(queue: seq<seq<string>>, visited: set<string>)
  {
    forall q, k :: q in queue && 0 <= k < |q| - 1 ==> q[k] in visited
  }

  /** Every child of an expanded name is expanded itself or ends a queued path. */
  ghost predicate Frontier(adj: Adjacency, queue: seq<seq<string>>, visited: set<string>)
  {
    forall x, y :: x in visited && y in Children(adj, x) ==> y in visited || y in Lasts(queue)
  }

  /**
   * With `d` names on the front path: every name some walk of fewer than `d` names reaches has
   * been expanded, and one reached by a walk of exactly `d` names is expanded or ends a queued path of `d` names.
   */
  ghost predicate Layered(adj: Adjacency, source: string, queue: seq<seq<string>>, visited: set<string>)
  {
    queue != [] ==>
      forall w :: IsWalkFrom(adj, source, w) && |w| <= |queue[0]| ==>
        Last(w) in visited || (|w| == |queue[0]| && Last(w) in LastsOfLength(queue, |queue[0]|))
  }

  ghost predicate BfsInv(adj: Adjacency, source: string, target: string, queue: seq<seq<string>>, visited: set<string>)
  {
    && QueueWalks(adj, source, queue)
    && Levelled(queue)
    && InteriorVisited(queue, visited)
    && Frontier(adj, queue, visited)
    && (source in visited || queue == [[source]])
    && target !in visited
    && Layered(adj, source, queue, visited)
  }

  lemma InitInv(adj: Adjacency, source: string, target: string)
    ensures BfsInv(adj, source, target, [[source]], {})
  {
    var queue := [[source]];
    assert [source] in queue;
    assert source in LastsOfLength(queue, 1);
    forall w | IsWalkFrom(adj, source, w) && |w| <= 1
      ensures Last(w) in LastsOfLength(queue, 1) && |w| == 1
    {
      assert w == [source];
    }
  }

  /** The front path ends at the target: it is a shortest path. */
  lemma FoundShortest(adj: Adjacency, source: string, target: string, queue: seq<seq<string>>, visited: set<string>)
    requires BfsInv(adj, source, target, queue, visited)
    requires queue != [] && |queue[0]| > 0 && Last(queue[0]) == target
    ensures IsShortestPath(adj, source, target, queue[0])
  {
    assert queue[0] in queue;
  }

  lemma {:induction false} ClosedReachesAll(adj: Adjacency, source: string, visited: set<string>, w: seq<string>)
    requires source in visited
    requires forall x, y :: x in visited && y in Children(adj, x) ==> y in visited
    requires IsWalkFrom(adj, source, w)
    ensures Last(w) in visited
    decreases |w|
  {
    if |w| > 1 {
      var w' := w[..|w| - 1];
      WalkPrefix(adj, source, w, |w| - 1);
      ClosedReachesAll(adj, source, visited, w');
      assert Linked(adj, Last(w'), Last(w));
    }
  }

  /** The queue ran dry: the target cannot be reached. */
  lemma Exhausted(adj: Adjacency, source: string, target: string, visited: set<string>)
    requires BfsInv(adj, source, target, [], visited)
    ensures !Reachable(adj, source, target)
  {
    assert Lasts([]) == {};
    if Reachable(adj, source, target) {
      var w :| IsWalkBetween(adj, source, target, w);
      ClosedReachesAll(adj, source, visited, w);
    }
  }

  /** Every name in `visited` is reachable from `source`. */
  ghost predicate AllReachable(adj: Adjacency, source: string, visited: set<string>)
  {
    forall v :: v in visited ==> Reachable(adj, source, v)
  }

  /** Visiting the end of a walk from `source` visits only reachable names. */
  lemma ReachableStep(adj: Adjacency, source: string, visited: set<string>, path: seq<string>)
    requires AllReachable(adj, source, visited) && IsWalkFrom(adj, source, path)
    ensures AllReachable(adj, source, visited + {Last(path)})
  {
    assert IsWalkBetween(adj, source, Last(path), path);
  }

  /** The queue ran dry: every name reachable from `source` was visited. */
  lemma ExhaustedCovers(adj: Adjacency, source: string, target: string, visited: set<string>)
    requires BfsInv(adj, source, target, [], visited)
    ensures forall x :: Reachable(adj, source, x) ==> x in visited
  {
    assert Lasts([]) == {};
    forall x | Reachable(adj, source, x) ensures x in visited {
      var w :| IsWalkBetween(adj, source, x, w);
      ClosedReachesAll(adj, source, visited, w);
    }
  }

  /** The appended paths extend the front path by one child not already on it. */
  ghost predicate ExtendsFront(adj: Adjacency, q0: seq<string>, e: seq<seq<string>>)
  {
    |q0| > 0 &&
    forall q :: q in e ==> |q| == |q0| + 1 && q[..|q0|] == q0 && Linked(adj, Last(q0), Last(q)) && Last(q) !in q0
  }

  lemma PopWalks(adj: Adjacency, source: string, queue: seq<seq<string>>, e: seq<seq<string>>)
    requires QueueWalks(adj, source, queue) && queue != [] && ExtendsFront(adj, queue[0], e)
    ensures QueueWalks(adj, source, queue[1..] + e)
  {
    var q0 := queue[0];
    assert q0 in queue;
    forall q | q in queue[1..] + e ensures IsWalkFrom(adj, source, q) && NoRepeats(q) {
      if q in e {
        assert q == q0 + [Last(q)];
        forall i | 0 <= i < |q| - 1 ensures Linked(adj, q[i], q[i + 1]) {
          if i < |q0| - 1 {
            assert q[i] == q0[i] && q[i + 1] == q0[i + 1];
          }
        }
        forall i, j | 0 <= i < j < |q| ensures q[i] != q[j] {
          if j == |q| - 1 {
            assert q[i] == q0[i];
          } else {
            assert q[i] == q0[i] && q[j] == q0[j];
          }
        }
      } else {
        assert q in queue;
      }
    }
  }

  lemma PopLevelled(queue: seq<seq<string>>, e: seq<seq<string>>)
    requires Levelled(queue) && queue != []
    requires forall q :: q in e ==> |q| == |queue[0]| + 1
    ensures Levelled(queue[1..] + e)
    ensures forall q :: q in queue[1..] + e ==> |queue[0]| <= |q| <= |queue[0]| + 1
  {
    var rest := queue[1..];
    var q' := rest + e;
    forall q | q in q' ensures |queue[0]| <= |q| <= |queue[0]| + 1 {
      if q in rest {
        var k :| 0 <= k < |rest| && rest[k] == q;
        assert queue[k + 1] == q;
      }
    }
    forall i, j | 0 <= i <= j < |q'| ensures |q'[i]| <= |q'[j]| <= |q'[i]| + 1 {
      if j < |rest| {
        assert q'[i] == queue[i + 1] && q'[j] == queue[j + 1];
      } else if i >= |rest| {
        assert q'[i] == e[i - |rest|] && q'[j] == e[j - |rest|];
      } else {
        assert q'[i] == queue[i + 1] && q'[j] == e[j - |rest|];
      }
    }
  }

  lemma PopInterior(adj: Adjacency, queue: seq<seq<string>>, visited: set<string>, e: seq<seq<string>>)
    requires InteriorVisited(queue, visited) && queue != [] && ExtendsFront(adj, queue[0], e)
    ensures InteriorVisited(queue[1..] + e, visited + {Last(queue[0])})
  {
    var q0 := queue[0];
    assert q0 in queue;
    forall q, k | q in queue[1..] + e && 0 <= k < |q| - 1 ensures q[k] in visited + {Last(q0)} {
      if q in e {
        assert q[k] == q0[k];
      } else {
        assert q in queue;
      }
    }
  }

  /** Every child of the front path's last name is expanded, is that name, or ends a path still queued. */
  ghost predicate ChildrenQueued(adj: Adjacency, queue: seq<seq<string>>, visited: set<string>, e: seq<seq<string>>)
    requires queue != [] && |queue[0]| > 0
  {
    forall y :: y in Children(adj, Last(queue[0])) ==> y in visited || y == Last(queue[0]) || y in Lasts(queue[1..] + e)
  }

  lemma PopFrontier(adj: Adjacency, queue: seq<seq<string>>, visited: set<string>, e: seq<seq<string>>)
    requires Frontier(adj, queue, visited) && queue != [] && |queue[0]| > 0
    requires ChildrenQueued(adj, queue, visited, e)
    ensures Frontier(adj, queue[1..] + e, visited + {Last(queue[0])})
  {
    var q0 := queue[0];
    var x := Last(q0);
    forall a, y | a in visited + {x} && y in Children(adj, a)
      ensures y in visited + {x} || y in Lasts(queue[1..] + e)
    {
      if a in visited {
        if y !in visited {
          assert y in Lasts(queue);
          var q :| q in queue && |q| > 0 && Last(q) == y;
          if q != q0 {
            var k :| 0 <= k < |queue| && queue[k] == q;
            assert q in queue[1..] + e;
          }
        }
      }
    }
  }

  lemma PopLayered(adj: Adjacency, source: string, queue: seq<seq<string>>, visited: set<string>, e: seq<seq<string>>)
    requires Layered(adj, source, queue, visited) && queue != [] && |queue[0]| > 0
    requires Frontier(adj, queue[1..] + e, visited + {Last(queue[0])})
    requires Levelled(queue[1..] + e)
    requires forall q :: q in queue[1..] + e ==> |queue[0]| <= |q| <= |queue[0]| + 1
    ensures Layered(adj, source, queue[1..] + e, visited + {Last(queue[0])})
  {
    var q0, rest := queue[0], queue[1..];
    var q', v' := rest + e, visited + {Last(q0)};
    var d := |q0|;
    if q' != [] {
      var d' := |q'[0]|;
      assert q'[0] in q';
      forall w | IsWalkFrom(adj, source, w) && |w| <= d'
        ensures Last(w) in v' || (|w| == d' && Last(w) in LastsOfLength(q', d'))
      {
        if |w| <= d {
          ShortWalk(adj, source, queue, visited, e, w);
        } else {
          var w0 := w[..|w| - 1];
          WalkPrefix(adj, source, w, |w| - 1);
          ShortWalk(adj, source, queue, visited, e, w0);
          assert Last(w0) in v';
          assert Linked(adj, Last(w0), Last(w));
          if Last(w) !in v' {
            assert Last(w) in Lasts(q');
            var q :| q in q' && |q| > 0 && Last(q) == Last(w);
            assert Last(w) in LastsOfLength(q', d');
          }
        }
      }
    }
  }

  /** A walk no longer than the popped path ends at an expanded name or at a queued path of equal length. */
  lemma ShortWalk(adj: Adjacency, source: string, queue: seq<seq<string>>, visited: set<string>,
                  e: seq<seq<string>>, w: seq<string>)
    requires Layered(adj, source, queue, visited) && queue != [] && |queue[0]| > 0
    requires IsWalkFrom(adj, source, w) && |w| <= |queue[0]|
    ensures Last(w) in visited + {Last(queue[0])}
            || (|w| == |queue[0]| && exists q :: q in queue[1..] + e && |q| == |w| && Last(q) == Last(w))
  {
    var q0 := queue[0];
    if Last(w) !in visited {
      assert Last(w) in LastsOfLength(queue, |q0|);
      var q :| q in queue && |q| == |q0| && Last(q) == Last(w);
      if q != q0 {
        var k :| 0 <= k < |queue| && queue[k] == q;
        assert q in queue[1..] + e;
      }
    }
  }

  /** The facts about one pop that the separate parts of the invariant need. */
  ghost predicate PopStep(adj: Adjacency, source: string, target: string, queue: seq<seq<string>>,
                          visited: set<string>, e: seq<seq<string>>)
  {
    && BfsInv(adj, source, target, queue, visited)
    && queue != [] && |queue[0]| > 0 && Last(queue[0]) != target
    && ExtendsFront(adj, queue[0], e)
    && ChildrenQueued(adj, queue, visited, e)
  }

  lemma PopInv(adj: Adjacency, source: string, target: string, queue: seq<seq<string>>, visited: set<string>, e: seq<seq<string>>)
    requires PopStep(adj, source, target, queue, visited, e)
    ensures BfsInv(adj, source, target, queue[1..] + e, visited + {Last(queue[0])})
  {
    PopShape(adj, source, target, queue, visited, e);
    PopReach(adj, source, target, queue, visited, e);
  }

  lemma PopShape(adj: Adjacency, source: string, target: string, queue: seq<seq<string>>, visited: set<string>, e: seq<seq<string>>)
    requires PopStep(adj, source, target, queue, visited, e)
    ensures QueueWalks(adj, source, queue[1..] + e) && InteriorVisited(queue[1..] + e, visited + {Last(queue[0])})
  {
    PopWalks(adj, source, queue, e);
    PopInterior(adj, queue, visited, e);
  }

  lemma PopReach(adj: Adjacency, source: string, target: string, queue: seq<seq<string>>, visited: set<string>, e: seq<seq<string>>)
    requires PopStep(adj, source, target, queue, visited, e)
    ensures Levelled(queue[1..] + e)
    ensures Frontier(adj, queue[1..] + e, visited + {Last(queue[0])})
    ensures Layered(adj, source, queue[1..] + e, visited + {Last(queue[0])})
  {
    PopLevelled(queue, e);
    PopFrontier(adj, queue, visited, e);
    PopLayered(adj, source, queue, visited, e);
  }

  /** Expanding the front path pushes every child of its last name that is not already on it. */
  lemma ExpandCovers(adj: Adjacency, source: string, target: string, queue: seq<seq<string>>, visited: set<string>)
    requires BfsInv(adj, source, target, queue, visited)
    requires queue != [] && |queue[0]| > 0 && Last(queue[0]) != target
    ensures PopStep(adj, source, target, queue, visited, Extensions(queue[0], Children(adj, Last(queue[0]))))
  {
    var path := queue[0];
    var e := Extensions(path, Children(adj, Last(path)));
    assert path in queue;
    forall q | q in e
      ensures |q| == |path| + 1 && q[..|path|] == path && Linked(adj, Last(path), Last(q)) && Last(q) !in path
    {
      ExtensionsShape(path, Children(adj, Last(path)), q);
    }
    forall y | y in Children(adj, Last(path)) ensures y in visited || y == Last(path) || y in Lasts(queue[1..] + e) {
      if y !in path {
        ExtensionsCover(path, Children(adj, Last(path)), y);
        assert path + [y] in queue[1..] + e;
        assert Last(path + [y]) == y;
      } else {
        var i :| 0 <= i < |path| && path[i] == y;
        assert i < |path| - 1 ==> y in visited;
      }
    }
  }

  /** Popping a path whose last name was already expanded loses nothing the frontier needs. */
  lemma RevisitCovers(adj: Adjacency, source: string, target: string, queue: seq<seq<string>>, visited: set<string>)
    requires BfsInv(adj, source, target, queue, visited)
    requires queue != [] && |queue[0]| > 0 && Last(queue[0]) != target && Last(queue[0]) in visited
    ensures PopStep(adj, source, target, queue, visited, [])
  {
    var path := queue[0];
    forall y | y in Children(adj, Last(path)) ensures y in visited || y == Last(path) || y in Lasts(queue[1..] + []) {
      if y !in visited {
        var q :| q in queue && |q| > 0 && Last(q) == y;
        if q != path {
          var i :| 0 <= i < |queue| && queue[i] == q;
          assert q in queue[1..] + [];
        }
      }
    }
  }

  lemma ExpandStep(adj: Adjacency, source: string, target: string, queue: seq<seq<string>>, visited: set<string>)
    requires BfsInv(adj, source, target, queue, visited)
    requires queue != [] && |queue[0]| > 0 && Last(queue[0]) != target
    ensures BfsInv(adj, source, target, queue[1..] + Extensions(queue[0], Children(adj, Last(queue[0]))),
                   visited + {Last(queue[0])})
  {
    ExpandCovers(adj, source, target, queue, visited);
    PopInv(adj, source, target, queue, visited, Extensions(queue[0], Children(adj, Last(queue[0]))));
  }

  lemma RevisitStep(adj: Adjacency, source: string, target: string, queue: seq<seq<string>>, visited: set<string>)
    requires BfsInv(adj, source, target, queue, visited)
    requires queue != [] && |queue[0]| > 0 && Last(queue[0]) != target && Last(queue[0]) in visited
    ensures BfsInv(adj, source, target, queue[1..], visited)
  {
    RevisitCovers(adj, source, target, queue, visited);
    var q', v' := queue[1..] + [], visited + {Last(queue[0])};
    assert q' == queue[1..] && v' == visited;
    PopInv(adj, source, target, queue, visited, []);
  }

  lemma FewerUnexpanded(names: set<string>, visited: set<string>, x: string)
    requires visited <= names && x in names && x !in visited
    ensures |names - (visited + {x})| < |names - visited|
  {
    assert names - (visited + {x}) == (names - visited) - {x};
  }

  lemma FrontIsWalk(adj: Adjacency, source: string, target: string, queue: seq<seq<string>>, visited: set<string>)
    requires BfsInv(adj, source, target, queue, visited) && queue != []
    ensures IsWalkFrom(adj, source, queue[0])
  {
    assert queue[0] in queue;
  }

  /** Expanding the front path keeps every loop invariant and expands one more name. */
  lemma ExpandAll(adj: Adjacency, source: string, target: string, queue: seq<seq<string>>, visited: set<string>,
                  expanded: seq<string>)
    requires BfsInv(adj, source, target, queue, visited) && visited <= Names(adj, source) && LogsOnce(expanded, visited)
    requires queue != [] && |queue[0]| > 0 && Last(queue[0]) != target && Last(queue[0]) !in visited
    ensures BfsInv(adj, source, target, queue[1..] + Extensions(queue[0], Children(adj, Last(queue[0]))),
                   visited + {Last(queue[0])})
    ensures visited + {Last(queue[0])} <= Names(adj, source)
    ensures |Names(adj, source) - (visited + {Last(queue[0])})| < |Names(adj, source) - visited|
    ensures LogsOnce(expanded + [Last(queue[0])], visited + {Last(queue[0])})
  {
    var path := queue[0];
    assert path in queue;
    WalkInNames(adj, source, path, |path| - 1);
    ExpandStep(adj, source, target, queue, visited);
    FewerUnexpanded(Names(adj, source), visited, Last(path));
    LogStep(expanded, visited, Last(path));
  }

  /** `expanded` lists the names of `visited`, each once. */
  ghost predicate LogsOnce(expanded: seq<string>, visited: set<string>)
  {
    NoRepeats(expanded) && forall v :: v in expanded <==> v in visited
  }

  lemma LogStep(expanded: seq<string>, visited: set<string>, x: string)
    requires LogsOnce(expanded, visited) && x !in visited
    ensures LogsOnce(expanded + [x], visited + {x})
  {
  }

  /** The inner `for child in children` loop: append `path + [child]` for every child not on `path`. */
  method AppendExtensions(queue: seq<seq<string>>, path: seq<string>, children: seq<string>) returns (queue': seq<seq<string>>)
    ensures queue' == queue + Extensions(path, children)
  {
    queue' := queue;
    var k := 0;
    while k < |children|
      invariant k <= |children|
      invariant queue' == queue + Extensions(path, children[..k])
    {
      var child := children[k];
      assert children[..k + 1][..k] == children[..k];
      if child !in path {
        queue' := queue' + [path + [child]];
      }
      k := k + 1;
    }
    assert children[..k] == children;
  }

  /** When source and target coincide, the only shortest path is the source alone. */
  lemma ShortestToSelf(adj: Adjacency, s: string, p: seq<string>)
    requires IsShortestPath(adj, s, s, p)
    ensures p == [s]
  {
    assert IsWalkBetween(adj, s, s, [s]);
  }

  /**
   * `bfs_traverse_target`'s search loop: pop the front path; return it when it ends at `target`;
   * otherwise, on the first visit of its last name, append each child not already on it.
   * The result is a shortest path when the target is reachable and `None` exactly when it is not;
   * `expanded` lists the names whose children were pushed, each once: only names reachable from
   * `source`, and, when the search gives up, every one of them.
   */
  method Bfs(adj: Adjacency, source: string, target: string) returns (r: Option<seq<string>>, ghost expanded: seq<string>)
    ensures r.Some? ==> IsShortestPath(adj, source, target, r.value)
    ensures r.None? ==> !Reachable(adj, source, target)
    ensures NoRepeats(expanded) && forall x :: x in expanded ==> Reachable(adj, source, x)
    ensures r.None? ==> forall x :: Reachable(adj, source, x) ==> x in expanded
  {
    var queue: seq<seq<string>> := [[source]];
    var visited: set<string> := {};
    expanded := [];
    InitInv(adj, source, target);
    while queue != []
      invariant BfsInv(adj, source, target, queue, visited)
      invariant visited <= Names(adj, source)
      invariant LogsOnce(expanded, visited)
      invariant AllReachable(adj, source, visited)
      decreases |Names(adj, source) - visited|, |queue|
    {
      FrontIsWalk(adj, source, target, queue, visited);
      var path := queue[0];
      var last := path[|path| - 1];
      if last == target {
        FoundShortest(adj, source, target, queue, visited);
        return Some(path), expanded;
      }
      ghost var before := queue;
      queue := queue[1..];
      if last !in visited {
        var children := Children(adj, last);
        queue := AppendExtensions(queue, path, children);
        ExpandAll(adj, source, target, before, visited, expanded);
        ReachableStep(adj, source, visited, path);
        visited := visited + {last};
        expanded := expanded + [last];
      } else {
        RevisitStep(adj, source, target, before, visited);
      }
    }
    Exhausted(adj, source, target, visited);
    ExhaustedCovers(adj, source, target, visited);
    assert AllReachable(adj, source, visited);
    return None, expanded;
  }
}
