/**
  The predecessor map a search leaves behind and the walk that turns it into
  a route: starting at the goal, follow `v = p[v]` and put each vertex at
  the front of the list until a vertex is its own predecessor.
 */
module Predecessors {
  import opened Text

  /** Every predecessor names a vertex. */
  ghost predicate Closed(p: seq<nat>) {
    forall v :: 0 <= v < |p| ==> p[v] < |p|
  }

  /** The vertex reached from `v` after `k` steps along the predecessors. */
  function Iter(p: seq<nat>, v: nat, k: nat): (r: nat)
    requires Closed(p) && v < |p|
    ensures r < |p|
  {
    if k == 0 then v else p[Iter(p, v, k - 1)]
  }

  /** The walk from `v` meets its first self-loop after exactly `k` steps. */
  ghost predicate RootAfter(p: seq<nat>, v: nat, k: nat)
    requires Closed(p) && v < |p|
  {
    && p[Iter(p, v, k)] == Iter(p, v, k)
    && forall i :: 0 <= i < k ==> p[Iter(p, v, i)] != Iter(p, v, i)
  }

  /** The walk from `v` ends: the predecessor chain is acyclic apart from
      the self-loop at its root. */
  ghost predicate Reaches(p: seq<nat>, v: nat)
    requires Closed(p) && v < |p|
  {
    exists k :: RootAfter(p, v, k)
  }

  /** A route to `goal`: it ends at the goal, starts at a vertex that is
      its own predecessor, each vertex is the predecessor of the next one,
      and no vertex but the first is its own predecessor. */
  ghost predicate IsRoute(p: seq<nat>, goal: nat, path: seq<nat>) {
    && path != [] && path[|path| - 1] == goal
    && (forall j :: 0 <= j < |path| ==> path[j] < |p|)
    && p[path[0]] == path[0]
    && (forall j :: 0 <= j < |path| - 1 ==> p[path[j + 1]] == path[j])
    && (forall j :: 1 <= j < |path| ==> p[path[j]] != path[j])
  }

  /** The reconstruction loop of main.cpp. Its test comes after the
      `push_front`, so the root ends up at the front of the list. */
  method ReconstructPath(p: seq<nat>, goal: nat) returns (path: seq<nat>)
    requires Closed(p) && goal < |p| && Reaches(p, goal)
    ensures IsRoute(p, goal, path)
  {
    ghost var k: nat :| RootAfter(p, goal, k);
    path := [];
    var v := goal;
    ghost var i := 0;
    while true
      invariant i <= k && v == Iter(p, goal, i)
      invariant |path| == i
      invariant forall j :: 0 <= j < i ==> path[j] == Iter(p, goal, i - 1 - j)
      decreases k - i
    {
      path := [v] + path;
      if p[v] == v {
        break;
      }
      v := p[v];
      i := i + 1;
    }
    assert i == k;
    forall j | 0 <= j < |path| - 1
      ensures p[path[j + 1]] == path[j]
    {
      assert path[j + 1] == Iter(p, goal, i - 1 - j);
      assert path[j] == Iter(p, goal, i - 1 - j + 1);
    }
  }

  /** The first self-loop on a walk is met after a unique number of steps. */
  lemma RootAfterUnique(p: seq<nat>, v: nat, k: nat, m: nat)
    requires Closed(p) && v < |p|
    requires RootAfter(p, v, k) && RootAfter(p, v, m)
    ensures k == m
  {
  }

  /** Counted from the end, the `m`-th vertex of a route is the one the walk
      from the goal reaches after `m` steps. */
  lemma {:induction false} RouteIsWalk(p: seq<nat>, goal: nat, path: seq<nat>, m: nat)
    requires Closed(p) && IsRoute(p, goal, path) && m < |path|
    ensures goal < |p| && path[|path| - 1 - m] == Iter(p, goal, m)
  {
    if m > 0 {
      RouteIsWalk(p, goal, path, m - 1);
      assert p[path[|path| - 1 - m + 1]] == path[|path| - 1 - m];
    }
  }

  /** A route meets its root after exactly its length minus one steps. */
  lemma RouteRootAfter(p: seq<nat>, goal: nat, path: seq<nat>)
    requires Closed(p) && IsRoute(p, goal, path)
    ensures goal < |p| && RootAfter(p, goal, |path| - 1)
  {
    RouteIsWalk(p, goal, path, 0);
    forall m | 0 <= m < |path|
      ensures path[|path| - 1 - m] == Iter(p, goal, m)
    {
      RouteIsWalk(p, goal, path, m);
    }
    assert path[0] == path[|path| - 1 - (|path| - 1)];
  }

  /** The route to a goal is unique: the reconstruction has no choice. */
  lemma RouteUnique(p: seq<nat>, goal: nat, a: seq<nat>, b: seq<nat>)
    requires Closed(p) && IsRoute(p, goal, a) && IsRoute(p, goal, b)
    ensures a == b
  {
    RouteRootAfter(p, goal, a);
    RouteRootAfter(p, goal, b);
    RootAfterUnique(p, goal, |a| - 1, |b| - 1);
    forall j | 0 <= j < |a|
      ensures a[j] == b[j]
    {
      RouteIsWalk(p, goal, a, |a| - 1 - j);
      RouteIsWalk(p, goal, b, |b| - 1 - j);
    }
  }

  /** A route exists only where the walk ends. */
  lemma RouteReaches(p: seq<nat>, goal: nat, path: seq<nat>)
    requires Closed(p) && IsRoute(p, goal, path)
    ensures goal < |p| && Reaches(p, goal)
  {
    RouteRootAfter(p, goal, path);
  }

  /** Every walk ends at a root. */
  ghost predicate Rooted(p: seq<nat>) {
    Closed(p) && forall x :: 0 <= x < |p| ==> Reaches(p, x)
  }

  /** A map in which every vertex is its own predecessor is rooted. */
  lemma IdentityRooted(p: seq<nat>)
    requires forall x :: 0 <= x < |p| ==> p[x] == x
    ensures Rooted(p)
  {
    forall x | 0 <= x < |p|
      ensures Reaches(p, x)
    {
      assert RootAfter(p, x, 0);
    }
  }

  /** A walk that has not met `a` is the same after redirecting `a`. */
  lemma {:induction false} IterUnchanged(p: seq<nat>, a: nat, b: nat, x: nat, m: nat)
    requires Closed(p) && a < |p| && b < |p| && x < |p|
    requires forall i :: 0 <= i < m ==> Iter(p, x, i) != a
    ensures Closed(p[a := b]) && Iter(p[a := b], x, m) == Iter(p, x, m)
  {
    if m > 0 {
      IterUnchanged(p, a, b, x, m - 1);
    }
  }

  /** A walk that meets `a` after `i` steps continues, once `a` is
      redirected to `b`, with the walk from `b`, as far as that one avoids
      `a`. */
  lemma {:induction false} IterRedirected(p: seq<nat>, a: nat, b: nat, x: nat, i: nat, j: nat)
    requires Closed(p) && a < |p| && b < |p| && x < |p|
    requires Iter(p, x, i) == a && forall m :: 0 <= m < i ==> Iter(p, x, m) != a
    requires forall m :: 0 <= m < j ==> Iter(p, b, m) != a
    ensures Closed(p[a := b]) && Iter(p[a := b], x, i + 1 + j) == Iter(p, b, j)
  {
    IterUnchanged(p, a, b, x, i);
    if j > 0 {
      IterRedirected(p, a, b, x, i, j - 1);
    }
  }

  /** The first step, from `i` up to `bound`, at which the walk from `x`
      meets `a`. */
  function FirstVisit(p: seq<nat>, x: nat, a: nat, i: nat, bound: nat): (r: Option<nat>)
    requires Closed(p) && x < |p| && i <= bound + 1
    requires forall m :: 0 <= m < i ==> Iter(p, x, m) != a
    ensures r.Some? ==>
      && i <= r.value <= bound && Iter(p, x, r.value) == a
      && forall m :: 0 <= m < r.value ==> Iter(p, x, m) != a
    ensures r.None? ==> forall m :: 0 <= m <= bound ==> Iter(p, x, m) != a
    decreases bound + 1 - i
  {
    if i > bound then None
    else if Iter(p, x, i) == a then Some(i)
    else FirstVisit(p, x, a, i + 1, bound)
  }

  /** Redirecting `a` to a vertex `b` whose walk never meets `a` keeps
      every walk finite. */
  lemma RedirectKeepsRooted(p: seq<nat>, a: nat, b: nat)
    requires Rooted(p) && a < |p| && b < |p|
    requires forall m: nat :: Iter(p, b, m) != a
    ensures Rooted(p[a := b])
  {
    var q := p[a := b];
    assert Reaches(p, b);
    var kb: nat :| RootAfter(p, b, kb);
    forall x | 0 <= x < |p|
      ensures Reaches(q, x)
    {
      assert Reaches(p, x);
      var k: nat :| RootAfter(p, x, k);
      match FirstVisit(p, x, a, 0, k)
      case None =>
        forall m | 0 <= m <= k
          ensures Iter(q, x, m) == Iter(p, x, m)
        {
          IterUnchanged(p, a, b, x, m);
        }
        assert RootAfter(q, x, k);
      case Some(i) =>
        forall m | 0 <= m <= i
          ensures Iter(q, x, m) == Iter(p, x, m)
        {
          IterUnchanged(p, a, b, x, m);
        }
        forall j | 0 <= j <= kb
          ensures Iter(q, x, i + 1 + j) == Iter(p, b, j)
        {
          IterRedirected(p, a, b, x, i, j);
        }
        RedirectedRoot(p, a, b, x, i, kb);
    }
  }

  lemma RedirectedRoot(p: seq<nat>, a: nat, b: nat, x: nat, i: nat, kb: nat)
    requires Closed(p) && a < |p| && b < |p| && x < |p| && RootAfter(p, b, kb)
    requires forall m: nat :: Iter(p, b, m) != a
    requires Iter(p, x, i) == a
    requires forall m :: 0 <= m < i ==> Iter(p, x, m) != a && p[Iter(p, x, m)] != Iter(p, x, m)
    requires Closed(p[a := b])
    requires forall m :: 0 <= m <= i ==> Iter(p[a := b], x, m) == Iter(p, x, m)
    requires forall j :: 0 <= j <= kb ==> Iter(p[a := b], x, i + 1 + j) == Iter(p, b, j)
    ensures RootAfter(p[a := b], x, i + 1 + kb)
  {
    var q := p[a := b];
    assert b != a by {
      assert Iter(p, b, 0) == b;
    }
    forall m | 0 <= m < i + 1 + kb
      ensures q[Iter(q, x, m)] != Iter(q, x, m)
    {
      if i < m {
        var j := m - i - 1;
        assert Iter(q, x, i + 1 + j) == Iter(p, b, j);
        assert p[Iter(p, b, j)] != Iter(p, b, j);
        assert Iter(p, b, j) != a;
      } else if m < i {
        assert Iter(q, x, m) == Iter(p, x, m);
      } else {
        assert Iter(q, x, m) == a;
      }
    }
  }
}
