/**
 * The execution-order resolver shared by both cores.
 *
 * Both `FrameGraph::findExecutionOrder` implementations do the same thing on
 * a different node type: walk backwards from every end node, pushing each
 * visited name onto a vector (`_recursePushBack`, a pre-order depth-first
 * walk that revisits shared nodes), reverse the vector in place, and
 * compact it in place with `std::remove_if`, keeping the first occurrence
 * of every name.  Here the nodes are abstracted to a `Graph`: each name
 * mapped to the names it depends on, in the order the walk visits them.
 */
module ExecOrder {

  /** Each node name mapped to the names the walk descends into from it. */
  type Graph = map<string, seq<string>>

  /**
   * `rank` witnesses that `g` is closed and acyclic: every dependency is a
   * node of `g` and has a smaller rank.  The model walks only such graphs.
   * The source performs no cycle check; its walk also ends on a graph whose
   * cycles no walked name reaches, and that case is not modelled.
   */
  ghost predicate Ranked(g: Graph, rank: map<string, nat>)
  {
    forall k | k in g :: k in rank &&
      forall d | d in g[k] :: d in g && d in rank && rank[d] < rank[k]
  }

  ghost predicate Acyclic(g: Graph)
  {
    exists rank :: Ranked(g, rank)
  }

  /**
   * `rank` bounds the walk on the names `s`: each is a node of `g`, the
   * walk descends from it only into `s`, and always to a smaller rank.
   * `Ranked` is the case where `s` holds every node.  When no such `s`
   * holds a name, the recursion from that name has no bound.
   */
  ghost predicate RankedOn(g: Graph, rank: map<string, nat>, s: set<string>)
  {
    forall k | k in s :: k in g && k in rank &&
      forall d | d in g[k] :: d in s && d in rank && rank[d] < rank[k]
  }

  /** The names `_recursePushBack(name, order)` appends to `order`. */
  ghost function Walk(g: Graph, rank: map<string, nat>, name: string): seq<string>
    requires Ranked(g, rank) && name in g
    decreases rank[name], 1
  {
    [name] + WalkDeps(g, rank, name, |g[name]|)
  }

  /** What the walk appends for the first `i` dependencies of `name`. */
  ghost function WalkDeps(g: Graph, rank: map<string, nat>, name: string, i: nat): seq<string>
    requires Ranked(g, rank) && name in g && i <= |g[name]|
    decreases rank[name], 0, i
  {
    if i == 0 then []
    else WalkDeps(g, rank, name, i - 1) + Walk(g, rank, g[name][i - 1])
  }

  /** One more dependency of the walk: it has a smaller rank, and its walk is appended. */
  lemma WalkDepsStep(g: Graph, rank: map<string, nat>, name: string, i: nat)
    requires Ranked(g, rank) && name in g && i < |g[name]|
    ensures g[name][i] in g && g[name][i] in rank && rank[g[name][i]] < rank[name]
    ensures WalkDeps(g, rank, name, i + 1) == WalkDeps(g, rank, name, i) + Walk(g, rank, g[name][i])
  {
  }

  lemma ConcatAssoc(a: seq<string>, b: seq<string>, c: seq<string>)
    ensures a + b + c == a + (b + c)
  {
  }

  /** The vector after `_recursePushBack` has run for each of `ends` in turn. */
  ghost function WalkFrom(g: Graph, rank: map<string, nat>, ends: seq<string>): seq<string>
    requires Ranked(g, rank) && forall e | e in ends :: e in g
  {
    if ends == [] then []
    else WalkFrom(g, rank, ends[..|ends| - 1]) + Walk(g, rank, ends[|ends| - 1])
  }

  /** `std::reverse` of a vector. */
  function Reverse(s: seq<string>): (r: seq<string>)
    ensures |r| == |s|
    ensures forall i :: 0 <= i < |s| ==> r[i] == s[|s| - 1 - i]
  {
    if s == [] then [] else [s[|s| - 1]] + Reverse(s[..|s| - 1])
  }

  predicate NoDup(s: seq<string>)
  {
    forall i, j :: 0 <= i < j < |s| ==> s[i] != s[j]
  }

  /**
   * `std::remove_if` with a predicate that inserts into a `seen` set:
   * an element is dropped exactly when an equal element precedes it.
   */
  function Dedup(s: seq<string>): (r: seq<string>)
    ensures NoDup(r)
    ensures forall x :: x in r <==> x in s
  {
    if s == [] then []
    else
      var p := Dedup(s[..|s| - 1]);
      var x := s[|s| - 1];
      assert forall y :: y in s <==> y in s[..|s| - 1] || y == x by {
        assert s == s[..|s| - 1] + [x];
      }
      if x in s[..|s| - 1] then p else p + [x]
  }

  /** The execution order both `findExecutionOrder`s return. */
  ghost function Order(g: Graph, rank: map<string, nat>, ends: seq<string>): seq<string>
    requires Ranked(g, rank) && forall e | e in ends :: e in g
  {
    Dedup(Reverse(WalkFrom(g, rank, ends)))
  }

  // ---------------------------------------------------------------------
  // Properties of the walk

  ghost predicate InGraph(g: Graph, s: seq<string>)
  {
    forall i | 0 <= i < |s| :: s[i] in g
  }

  /** Every dependency of an element occurs again later on. */
  ghost predicate DepsAfter(g: Graph, s: seq<string>)
    requires InGraph(g, s)
  {
    forall i, d | 0 <= i < |s| && d in g[s[i]] :: d in s[i + 1..]
  }

  /** Every dependency of an element occurs earlier on. */
  ghost predicate DepsBefore(g: Graph, s: seq<string>)
    requires InGraph(g, s)
  {
    forall i, d | 0 <= i < |s| && d in g[s[i]] :: d in s[..i]
  }

  /** Each name is in `c`, or `c` holds every dependency of each of its names. */
  ghost predicate ClosedSet(g: Graph, c: set<string>)
  {
    forall x, d | x in c && x in g && d in g[x] :: d in c
  }

  lemma DepsAfterConcat(g: Graph, a: seq<string>, b: seq<string>)
    requires InGraph(g, a) && InGraph(g, b) && DepsAfter(g, a) && DepsAfter(g, b)
    ensures InGraph(g, a + b) && DepsAfter(g, a + b)
  {
    var s := a + b;
    forall i, d | 0 <= i < |s| && d in g[s[i]] ensures d in s[i + 1..] {
      if i < |a| {
        assert d in a[i + 1..];
        assert a[i + 1..] <= s[i + 1..];
      } else {
        assert s[i] == b[i - |a|];
        assert s[i + 1..] == b[i - |a| + 1..];
      }
    }
  }

  /**
   * What `_recursePushBack(name, ...)` appends starts with `name`, stays
   * inside the graph and revisits every dependency after each node.
   */
  lemma {:induction false} WalkShape(g: Graph, rank: map<string, nat>, name: string)
    requires Ranked(g, rank) && name in g
    ensures |Walk(g, rank, name)| > 0 && Walk(g, rank, name)[0] == name
    ensures InGraph(g, Walk(g, rank, name)) && DepsAfter(g, Walk(g, rank, name))
    decreases rank[name], 1
  {
    var deps := g[name];
    var w := WalkDeps(g, rank, name, |deps|);
    WalkDepsShape(g, rank, name, |deps|);
    var s := Walk(g, rank, name);
    assert s == [name] + w;
    forall i, d | 0 <= i < |s| && d in g[s[i]] ensures d in s[i + 1..] {
      if i == 0 {
        var k :| 0 <= k < |deps| && deps[k] == d;
        assert s[1..] == w;
      } else {
        assert s[i] == w[i - 1];
        assert s[i + 1..] == w[i..];
      }
    }
  }

  lemma {:induction false} WalkDepsShape(g: Graph, rank: map<string, nat>, name: string, i: nat)
    requires Ranked(g, rank) && name in g && i <= |g[name]|
    ensures InGraph(g, WalkDeps(g, rank, name, i)) && DepsAfter(g, WalkDeps(g, rank, name, i))
    ensures forall k :: 0 <= k < i ==> g[name][k] in WalkDeps(g, rank, name, i)
    decreases rank[name], 0, i
  {
    if i > 0 {
      var d := g[name][i - 1];
      WalkDepsShape(g, rank, name, i - 1);
      WalkShape(g, rank, d);
      var a := WalkDeps(g, rank, name, i - 1);
      var b := Walk(g, rank, d);
      DepsAfterConcat(g, a, b);
      assert WalkDeps(g, rank, name, i) == a + b;
      forall k | 0 <= k < i ensures g[name][k] in a + b {
        if k < i - 1 { assert g[name][k] in a; } else { assert b[0] == d; }
      }
    }
  }

  lemma {:induction false} WalkFromShape(g: Graph, rank: map<string, nat>, ends: seq<string>)
    requires Ranked(g, rank) && forall e | e in ends :: e in g
    ensures InGraph(g, WalkFrom(g, rank, ends)) && DepsAfter(g, WalkFrom(g, rank, ends))
    ensures forall e | e in ends :: e in WalkFrom(g, rank, ends)
  {
    if ends != [] {
      var pre := ends[..|ends| - 1];
      var e := ends[|ends| - 1];
      WalkFromShape(g, rank, pre);
      WalkShape(g, rank, e);
      DepsAfterConcat(g, WalkFrom(g, rank, pre), Walk(g, rank, e));
      forall x | x in ends ensures x in WalkFrom(g, rank, ends) {
        if x != e {
          var k :| 0 <= k < |ends| && ends[k] == x;
          assert x in pre by { assert pre[k] == x; }
        } else {
          assert Walk(g, rank, e)[0] == e;
        }
      }
    }
  }

  /** The walk visits nothing outside any closed set that holds its start. */
  lemma {:induction false} WalkWithin(g: Graph, rank: map<string, nat>, name: string, c: set<string>)
    requires Ranked(g, rank) && name in g && name in c && ClosedSet(g, c)
    ensures forall x | x in Walk(g, rank, name) :: x in c
    decreases rank[name], 1
  {
    WalkDepsWithin(g, rank, name, |g[name]|, c);
  }

  lemma {:induction false} WalkDepsWithin(g: Graph, rank: map<string, nat>, name: string, i: nat, c: set<string>)
    requires Ranked(g, rank) && name in g && i <= |g[name]| && name in c && ClosedSet(g, c)
    ensures forall x | x in WalkDeps(g, rank, name, i) :: x in c
    decreases rank[name], 0, i
  {
    if i > 0 {
      WalkDepsWithin(g, rank, name, i - 1, c);
      assert g[name][i - 1] in g[name];
      WalkWithin(g, rank, g[name][i - 1], c);
    }
  }

  lemma {:induction false} WalkFromWithin(g: Graph, rank: map<string, nat>, ends: seq<string>, c: set<string>)
    requires Ranked(g, rank) && forall e | e in ends :: e in g && e in c
    requires ClosedSet(g, c)
    ensures forall x | x in WalkFrom(g, rank, ends) :: x in c
  {
    if ends != [] {
      WalkFromWithin(g, rank, ends[..|ends| - 1], c);
      WalkWithin(g, rank, ends[|ends| - 1], c);
    }
  }

  /** The walk does not depend on which rank witnesses acyclicity. */
  lemma {:induction false} WalkRankFree(g: Graph, r1: map<string, nat>, r2: map<string, nat>, name: string)
    requires Ranked(g, r1) && Ranked(g, r2) && name in g
    ensures Walk(g, r1, name) == Walk(g, r2, name)
    decreases r1[name], 1
  {
    WalkDepsRankFree(g, r1, r2, name, |g[name]|);
  }

  lemma {:induction false} WalkDepsRankFree(g: Graph, r1: map<string, nat>, r2: map<string, nat>, name: string, i: nat)
    requires Ranked(g, r1) && Ranked(g, r2) && name in g && i <= |g[name]|
    ensures WalkDeps(g, r1, name, i) == WalkDeps(g, r2, name, i)
    decreases r1[name], 0, i
  {
    if i > 0 {
      WalkDepsRankFree(g, r1, r2, name, i - 1);
      assert g[name][i - 1] in g[name];
      WalkRankFree(g, r1, r2, g[name][i - 1]);
    }
  }

  lemma {:induction false} WalkFromRankFree(g: Graph, r1: map<string, nat>, r2: map<string, nat>, ends: seq<string>)
    requires Ranked(g, r1) && Ranked(g, r2) && forall e | e in ends :: e in g
    ensures WalkFrom(g, r1, ends) == WalkFrom(g, r2, ends)
  {
    if ends != [] {
      WalkFromRankFree(g, r1, r2, ends[..|ends| - 1]);
      WalkRankFree(g, r1, r2, ends[|ends| - 1]);
    }
  }

  // ---------------------------------------------------------------------
  // Reversal and compaction

  lemma ReverseDepsBefore(g: Graph, s: seq<string>)
    requires InGraph(g, s) && DepsAfter(g, s)
    ensures InGraph(g, Reverse(s)) && DepsBefore(g, Reverse(s))
  {
    var r := Reverse(s);
    var n := |s|;
    assert InGraph(g, r) by {
      forall i | 0 <= i < n ensures r[i] in g { assert r[i] == s[n - 1 - i]; }
    }
    forall i, d | 0 <= i < n && d in g[r[i]] ensures d in r[..i] {
      var j := n - 1 - i;
      assert r[i] == s[j];
      assert d in s[j + 1..];
      var m :| j + 1 <= m < n && s[m] == d;
      assert r[n - 1 - m] == d;
      assert r[..i][n - 1 - m] == d;
    }
  }

  lemma {:induction false} DedupDepsBefore(g: Graph, s: seq<string>)
    requires InGraph(g, s) && DepsBefore(g, s)
    ensures InGraph(g, Dedup(s)) && DepsBefore(g, Dedup(s))
  {
    if s != [] {
      var pre := s[..|s| - 1];
      var x := s[|s| - 1];
      assert InGraph(g, pre) && DepsBefore(g, pre) by {
        forall i, d | 0 <= i < |pre| && d in g[pre[i]] ensures d in pre[..i] {
          assert pre[i] == s[i];
          assert d in s[..i];
          assert pre[..i] == s[..i];
        }
      }
      DedupDepsBefore(g, pre);
      var p := Dedup(pre);
      if x !in pre {
        var r := p + [x];
        assert x in s;
        forall i, d | 0 <= i < |r| && d in g[r[i]] ensures d in r[..i] {
          if i < |p| {
            assert r[i] == p[i];
            assert r[..i] == p[..i];
          } else {
            assert r[i] == x;
            assert d in s[..|s| - 1];
            assert d in p;
            assert r[..i] == p;
          }
        }
      }
    }
  }

  /**
   * The execution order lists every node the backward walk from `ends`
   * reaches exactly once, and puts every dependency of a node before it.
   */
  lemma ExecutionOrderValid(g: Graph, rank: map<string, nat>, ends: seq<string>)
    requires Ranked(g, rank) && forall e | e in ends :: e in g
    ensures NoDup(Order(g, rank, ends))
    ensures forall x :: x in Order(g, rank, ends) <==> x in WalkFrom(g, rank, ends)
    ensures InGraph(g, Order(g, rank, ends)) && DepsBefore(g, Order(g, rank, ends))
  {
    var w := WalkFrom(g, rank, ends);
    WalkFromShape(g, rank, ends);
    ReverseDepsBefore(g, w);
    var r := Reverse(w);
    assert forall x :: x in r <==> x in w by {
      forall x ensures x in r <==> x in w {
        if x in w { var i :| 0 <= i < |w| && w[i] == x; assert r[|w| - 1 - i] == x; }
        if x in r { var i :| 0 <= i < |r| && r[i] == x; assert w[|w| - 1 - i] == x; }
      }
    }
    DedupDepsBefore(g, r);
  }

  /**
   * The nodes in the order are exactly those reachable backwards from the
   * end nodes: every end node is there, every dependency of a node in the
   * order is there, and every closed set holding the end nodes holds them.
   */
  lemma ExecutionOrderReach(g: Graph, rank: map<string, nat>, ends: seq<string>)
    requires Ranked(g, rank) && forall e | e in ends :: e in g
    ensures forall e | e in ends :: e in Order(g, rank, ends)
    ensures forall x | x in Order(g, rank, ends) :: x in g
    ensures forall x, d | x in Order(g, rank, ends) && x in g && d in g[x] :: d in Order(g, rank, ends)
    ensures forall c: set<string> | ClosedSet(g, c) && (forall e | e in ends :: e in c) ::
              forall x | x in Order(g, rank, ends) :: x in c
  {
    ExecutionOrderValid(g, rank, ends);
    WalkFromShape(g, rank, ends);
    var o := Order(g, rank, ends);
    forall x, d | x in o && x in g && d in g[x] ensures d in o {
      var i :| 0 <= i < |o| && o[i] == x;
      assert d in o[..i];
    }
    forall c: set<string> | ClosedSet(g, c) && (forall e | e in ends :: e in c)
      ensures forall x | x in o :: x in c
    {
      WalkFromWithin(g, rank, ends, c);
    }
  }

  /** `Dedup` keeps the first occurrence of each name, in their original order. */
  lemma {:induction false} DedupFirstOccurrence(s: seq<string>, i: int)
    requires 0 <= i < |s| && s[i] !in s[..i]
    ensures s[i] in Dedup(s)
    ensures Dedup(s[..i]) + [s[i]] <= Dedup(s)
  {
    if i < |s| - 1 {
      var pre := s[..|s| - 1];
      assert pre[..i] == s[..i] && pre[i] == s[i];
      DedupFirstOccurrence(pre, i);
      assert Dedup(pre) <= Dedup(s);
    } else {
      assert s[..|s| - 1] == s[..i];
    }
  }

  // ---------------------------------------------------------------------
  // The in-place steps of `findExecutionOrder`

  /** `std::reverse(BE(order))`. */
  method ReverseInPlace(a: array<string>)
    modifies a
    ensures a[..] == Reverse(old(a[..]))
  {
    ghost var s := a[..];
    var n := a.Length;
    var i := 0;
    while i < n / 2
      invariant 0 <= i <= n / 2
      invariant forall k :: 0 <= k < i ==> a[k] == s[n - 1 - k] && a[n - 1 - k] == s[k]
      invariant forall k :: i <= k < n - i ==> a[k] == s[k]
    {
      a[i], a[n - 1 - i] := a[n - 1 - i], a[i];
      i := i + 1;
    }
    assert a[..] == Reverse(s) by {
      forall k | 0 <= k < n ensures a[k] == Reverse(s)[k] {
      }
    }
  }

  /**
   * `std::remove_if` with the `seen` set, followed by `order.erase`: moves
   * each element not seen before to the front, and returns the new size.
   */
  method RemoveRepeats(a: array<string>) returns (n: nat)
    modifies a
    ensures n <= a.Length
    ensures a[..n] == Dedup(old(a[..]))
  {
    ghost var s := a[..];
    var seen: set<string> := {};
    n := 0;
    for r := 0 to a.Length
      invariant n <= r
      invariant a[..n] == Dedup(s[..r])
      invariant forall x :: x in seen <==> x in s[..r]
      invariant a[r..] == s[r..]
    {
      var x := a[r];
      assert x == s[r];
      assert s[..r + 1][..r] == s[..r];
      if x !in seen {
        seen := seen + {x};
        a[n] := x;
        n := n + 1;
      }
      assert a[r + 1..] == s[r + 1..];
    }
    assert s[..a.Length] == s;
  }

  /**
   * The tail both `findExecutionOrder`s share: the walk copied into the
   * vector, `std::reverse`, then `remove_if` with `seen` and `erase`.
   */
  method ReverseAndRemoveRepeats(walk: seq<string>) returns (order: seq<string>)
    ensures order == Dedup(Reverse(walk))
  {
    var a := new string[|walk|](j requires 0 <= j < |walk| => walk[j]);
    assert a[..] == walk;
    ReverseInPlace(a);
    var n := RemoveRepeats(a);
    order := a[..n];
  }
}
