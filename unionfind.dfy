// The label-equivalence forest of `connectedComponents` (src/App.js:44-47, 57):
// `parent` starts as `[0]`, grows by one entry per new label, is shortened by
// path halving in `find` and joined by `union`, which always hangs the larger
// root under the smaller one.  Every entry therefore points to itself or to a
// smaller label, which is what makes `find` terminate.

module UnionFind {

  /**
   * Every entry points at itself or at a smaller index; entry 0 is the
   * background, its own root, and no label is ever joined to it.
   */
  predicate Forest(p: seq<int>)
  {
    |p| >= 1 && p[0] == 0 && forall k :: 0 < k < |p| ==> 0 < p[k] <= k
  }

  /** The root `find` reaches from `x`: follow parents until an entry points at itself. */
  ghost function Root(p: seq<int>, x: int): (r: int)
    requires Forest(p) && 0 <= x < |p|
    ensures 0 <= r <= x && p[r] == r
    ensures r == 0 <==> x == 0
    decreases x
  {
    if p[x] == x then x else Root(p, p[x])
  }

  /** Halving the path at `x` keeps a forest and keeps every element's root. */
  lemma {:induction false} HalvingKeepsRoots(p: seq<int>, x: int, k: int)
    requires Forest(p) && 0 <= x < |p| && 0 <= k < |p|
    ensures Forest(p[x := p[p[x]]])
    ensures Root(p[x := p[p[x]]], k) == Root(p, k)
    decreases k
  {
    var q := p[x := p[p[x]]];
    if q[k] != k {
      HalvingKeepsRoots(p, x, q[k]);
      if k == x && p[x] != x {
        assert Root(p, p[x]) == Root(p, p[p[x]]);
      }
    }
  }

  /** Hanging root `hi` under the smaller root `lo` sends every element of `hi`'s tree to `lo`, and no other. */
  lemma {:induction false} LinkMergesRoots(p: seq<int>, lo: int, hi: int, k: int)
    requires Forest(p) && 0 < lo < hi < |p| && p[lo] == lo && p[hi] == hi && 0 <= k < |p|
    ensures Forest(p[hi := lo])
    ensures Root(p[hi := lo], k) == if Root(p, k) == hi then lo else Root(p, k)
    decreases k
  {
    var q := p[hi := lo];
    if k == hi {
      assert Root(q, lo) == lo;
    } else if p[k] != k {
      LinkMergesRoots(p, lo, hi, p[k]);
    }
  }

  /** A new singleton label is its own root and leaves the older roots alone. */
  lemma {:induction false} PushKeepsRoots(p: seq<int>, k: int)
    requires Forest(p) && 0 <= k <= |p|
    ensures Forest(p + [|p|])
    ensures Root(p + [|p|], k) == if k == |p| then k else Root(p, k)
    decreases k
  {
    if k < |p| && p[k] != k {
      PushKeepsRoots(p, p[k]);
    }
  }

  /** Labels that shared a root in `p` still share one in `q`: `q` only joins trees of `p`. */
  ghost predicate Coarsens(p: seq<int>, q: seq<int>)
    requires Forest(p) && Forest(q)
  {
    |p| <= |q| &&
    forall j, k :: 0 <= j < |p| && 0 <= k < |p| && Root(p, j) == Root(p, k) ==> Root(q, j) == Root(q, k)
  }

  /** `q` only shortens paths of `p`: same size, same root for every element. */
  ghost predicate SameRoots(p: seq<int>, q: seq<int>)
    requires Forest(p) && Forest(q)
  {
    |p| == |q| && forall k :: 0 <= k < |p| ==> Root(q, k) == Root(p, k)
  }

  lemma CoarsensJoins(p: seq<int>, q: seq<int>, j: int, k: int)
    requires Forest(p) && Forest(q) && Coarsens(p, q)
    requires 0 <= j < |p| && 0 <= k < |p| && Root(p, j) == Root(p, k)
    ensures Root(q, j) == Root(q, k)
  {
  }

  /**
   * `q` is `p` after `union(a, b)`: the larger of the two roots of `a` and `b`
   * now has the smaller as its root, and no other element changes root.
   */
  ghost predicate Merged(p: seq<int>, q: seq<int>, a: int, b: int)
    requires Forest(p) && Forest(q)
  {
    0 <= a < |p| && 0 <= b < |p| && |q| == |p| &&
    var ra, rb := Root(p, a), Root(p, b);
    forall k :: 0 <= k < |p| ==>
      Root(q, k) == if Root(p, k) == (if ra < rb then rb else ra) then (if ra < rb then ra else rb) else Root(p, k)
  }

  /**
   * After `union(a, b)` an element shares the root of `a` exactly when it had
   * the root of `a` or of `b` before, and two elements that share a root had
   * one before or are now both in the class of `a`.
   */
  lemma MergedClasses(p: seq<int>, q: seq<int>, a: int, b: int, j: int, k: int)
    requires Forest(p) && Forest(q) && Merged(p, q, a, b) && 0 <= j < |p| && 0 <= k < |p|
    ensures Root(q, a) == Root(q, b)
    ensures Root(q, j) == Root(q, a) <==> Root(p, j) == Root(p, a) || Root(p, j) == Root(p, b)
    ensures Root(q, j) == Root(q, k) ==> Root(p, j) == Root(p, k) || Root(q, j) == Root(q, a)
  {
    var ra, rb := Root(p, a), Root(p, b);
    var lo, hi := if ra < rb then ra else rb, if ra < rb then rb else ra;
    assert Root(q, a) == lo && Root(q, b) == lo;
    assert Root(q, j) == if Root(p, j) == hi then lo else Root(p, j);
    assert Root(q, k) == if Root(p, k) == hi then lo else Root(p, k);
  }

  /** `union` only joins trees. */
  lemma MergedCoarsens(p: seq<int>, q: seq<int>, a: int, b: int)
    requires Forest(p) && Forest(q) && Merged(p, q, a, b)
    ensures Coarsens(p, q)
  {
  }

  /** `parent.push(|parent|)` only adds a tree, and keeps the root of every older element. */
  lemma PushCoarsens(p: seq<int>)
    requires Forest(p)
    ensures Forest(p + [|p|]) && Coarsens(p, p + [|p|])
    ensures forall k :: 0 <= k < |p| ==> Root(p + [|p|], k) == Root(p, k)
    ensures Root(p + [|p|], |p|) == |p|
  {
    forall k | 0 <= k <= |p|
      ensures Root(p + [|p|], k) == if k == |p| then k else Root(p, k)
    {
      PushKeepsRoots(p, k);
    }
  }

  /** The `parent` array of `connectedComponents` together with its `find` and `union`. */
  class DisjointSets {
    var parent: seq<int>

    ghost predicate Valid()
      reads this
    {
      Forest(parent)
    }

    /** `const parent = [0]`: only the background label, its own root. */
    constructor ()
      ensures Valid() && parent == [0]
    {
      parent := [0];
    }

    /** `parent.push(nextLabel)` for the next fresh label. */
    method Push(next: int)
      requires Valid() && next == |parent|
      modifies this
      ensures Valid() && parent == old(parent) + [next]
      ensures forall k :: 0 <= k < |old(parent)| ==> Root(parent, k) == Root(old(parent), k)
      ensures Root(parent, next) == next
      ensures Coarsens(old(parent), parent)
    {
      forall k | 0 <= k <= |parent|
        ensures Root(parent + [|parent|], k) == if k == |parent| then k else Root(parent, k)
      {
        PushKeepsRoots(parent, k);
      }
      parent := parent + [next];
    }

    /** `find` with path halving: returns the root of `x` and keeps every root. */
    method Find(x: int) returns (r: int)
      requires Valid() && 0 <= x < |parent|
      modifies this
      ensures Valid() && SameRoots(old(parent), parent)
      ensures r == Root(old(parent), x) && parent[r] == r
      ensures Coarsens(old(parent), parent)
    {
      r := x;
      while parent[r] != r
        invariant Valid() && SameRoots(old(parent), parent) && 0 <= r < |parent|
        invariant Root(parent, r) == Root(old(parent), x)
        decreases r
      {
        forall k | 0 <= k < |parent|
          ensures Forest(parent[r := parent[parent[r]]])
          ensures Root(parent[r := parent[parent[r]]], k) == Root(parent, k)
        {
          HalvingKeepsRoots(parent, r, k);
        }
        parent := parent[r := parent[parent[r]]];
        r := parent[r];
      }
    }

    /** `union`: after it `a` and `b` share a root, and only the two trees of `a` and `b` were joined. */
    method Union(a: int, b: int)
      requires Valid() && 0 < a < |parent| && 0 < b < |parent|
      modifies this
      ensures Valid() && |parent| == |old(parent)|
      ensures Root(parent, a) == Root(parent, b)
      ensures Coarsens(old(parent), parent)
      ensures Merged(old(parent), parent, a, b)
    {
      var ra := Find(a);
      var rb := Find(b);
      if ra != rb {
        var lo, hi := if ra < rb then ra else rb, if ra < rb then rb else ra;
        forall k | 0 <= k < |parent|
          ensures Forest(parent[hi := lo])
          ensures Root(parent[hi := lo], k) == if Root(parent, k) == hi then lo else Root(parent, k)
        {
          LinkMergesRoots(parent, lo, hi, k);
        }
        parent := parent[hi := lo];
      }
    }
  }
}
