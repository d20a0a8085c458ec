/** Separators of a well-formed tree: when btree_insert answers that a key exists, and where the separators
    that it pushes up come to lie (src/tree/btree.c). */
module TreeLimits {
  import opened Keys
  import opened Pages
  import opened PageRuns
  import opened Trees
  import opened TreeInsert
  import opened TreeGrowth
  import opened TreeRefinement

  // ----- The early return -----

  /** The key is a separator somewhere in the subtree. */
  ghost predicate IsSeparator(h: Heap, pid: Pid, n: nat, key: Key)
    decreases n
  {
    n > 0 && pid in h && (key in Seps(h[pid]) || exists i :: 0 <= i <= |h[pid].cells| && IsSeparator(h, Kids(h[pid])[i], n - 1, key))
  }

  lemma {:induction false} SeparatorInside(h: Heap, pid: Pid, n: nat, lo: Bound, hi: Bound, key: Key)
    requires Shape(h, pid, n, lo, hi) && IsSeparator(h, pid, n, key)
    ensures Beyond(lo, key) && Below(key, hi)
    decreases n
  {
    hide Precedes, Reach, ReachAll, KidsShape, Contents, Rank;
    var seps, kids := Seps(h[pid]), Kids(h[pid]);
    ShapeKids(h, pid, n, lo, hi);
    if key !in seps {
      var i :| 0 <= i <= |h[pid].cells| && IsSeparator(h, kids[i], n - 1, key);
      KidsAround(h, kids, seps, i, n - 1, lo, hi);
      SeparatorInside(h, kids[i], n - 1, LoOf(seps, i, lo), HiOf(seps, i, hi), key);
      SepBetween(seps, i, key, lo, hi);
      assert InsertAt(seps, i, key)[i] == key;
    }
  }

  /** The descent meets a key exactly when it is a separator anywhere in the tree. */
  lemma {:induction false} DescentMeetsSeparators(h: Heap, pid: Pid, n: nat, lo: Bound, hi: Bound, key: Key)
    requires Shape(h, pid, n, lo, hi)
    ensures OnSeparator(h, pid, n, key) <==> IsSeparator(h, pid, n, key)
    decreases n
  {
    hide Precedes, Reach, ReachAll, KidsShape, Contents, Rank;
    if n > 0 {
      var seps, kids, j := Seps(h[pid]), Kids(h[pid]), Rank(Seps(h[pid]), key);
      ShapeKids(h, pid, n, lo, hi);
      KidsAround(h, kids, seps, j, n - 1, lo, hi);
      DescentMeetsSeparators(h, kids[j], n - 1, LoOf(seps, j, lo), HiOf(seps, j, hi), key);
      if IsSeparator(h, pid, n, key) && key !in seps {
        var i :| 0 <= i <= |h[pid].cells| && IsSeparator(h, kids[i], n - 1, key);
        KidsAround(h, kids, seps, i, n - 1, lo, hi);
        SeparatorInside(h, kids[i], n - 1, LoOf(seps, i, lo), HiOf(seps, i, hi), key);
        SepBetween(seps, i, key, lo, hi);
      }
    }
  }

  /** Every separator is also stored in a leaf, so answering that the key exists is truthful. */
  lemma {:induction false} SeparatorsAreStored(h: Heap, pid: Pid, n: nat, lo: Bound, hi: Bound, key: Key)
    requires Shape(h, pid, n, lo, hi) && OnSeparator(h, pid, n, key)
    ensures Stores(Contents(h, pid, n), key)
    decreases n
  {
    hide Precedes, Reach, ReachAll, KidsShape, Contents, Rank;
    var seps, kids, j := Seps(h[pid]), Kids(h[pid]), Rank(Seps(h[pid]), key);
    ShapeKids(h, pid, n, lo, hi);
    if key in seps {
      var i :| 0 <= i < |seps| && seps[i] == key;
      KidsAround(h, kids, seps, i + 1, n - 1, lo, hi);
      assert kids[i + 1..][0] == kids[i + 1];
      KidStores(h, pid, n, i + 1, key);
    } else {
      KidsAround(h, kids, seps, j, n - 1, lo, hi);
      SeparatorsAreStored(h, kids[j], n - 1, LoOf(seps, j, lo), HiOf(seps, j, hi), key);
      KidStores(h, pid, n, j, key);
    }
  }

  // ----- Where separators lie -----

  lemma ShapeLeaf(h: Heap, pid: Pid, n: nat, lo: Bound, hi: Bound)
    requires Shape(h, pid, n, lo, hi)
    ensures pid in h && h[pid].leaf == (n == 0) && SortedKeys(Seps(h[pid]))
  {}

  /** The separator that a splitting page pushes up lies strictly inside the page's interval. */
  lemma PlanSepInside(h: Heap, pid: Pid, n: nat, lo: Bound, hi: Bound, key: Key, value: seq<Byte>, next: Pid)
    requires Shape(h, pid, n, lo, hi) && AllIn(h, PathOf(h, pid, n, key))
    requires Splittable(h, PathOf(h, pid, n, key), key, value, next)
    ensures var plan := PlanOf(h, PathOf(h, pid, n, key), key, value, next);
            plan.full ==> Beyond(lo, plan.sep) && Below(plan.sep, hi) && plan.sep == Seps(h[pid])[plan.q]
  {
    hide Precedes, Reach, ReachAll, KidsShape, Contents, Rank, PartitionIdx, IsFull;
    var plan := PlanOf(h, PathOf(h, pid, n, key), key, value, next);
    if plan.full {
      if n == 0 {
        PartitionMeaning(h[pid].cells);
        Overshoot(h[pid].cells, plan.q);
        KeysSplit(Seps(h[pid]), plan.q, lo, hi);
      } else {
        ShapeKids(h, pid, n, lo, hi);
        assert plan.sep == Seps(h[pid])[plan.q];
      }
    }
  }

  lemma {:induction false} PathReached(h: Heap, pid: Pid, n: nat, key: Key)
    requires AllIn(h, PathOf(h, pid, n, key))
    ensures forall x | x in PathOf(h, pid, n, key) :: x in Reach(h, pid, n)
    decreases n
  {
    hide Precedes, Rank;
    if n > 0 {
      var j, kids := Rank(Seps(h[pid]), key), Kids(h[pid]);
      assert PathOf(h, pid, n, key)[1..] == PathOf(h, kids[j], n - 1, key);
      PathReached(h, kids[j], n - 1, key);
      AroundConcat(h, kids, j, n - 1);
    }
  }
}
