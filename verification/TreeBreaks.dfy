/** Every split of an internal page breaks the tree: the new page's rightmost child is never set,
    or one child ends up under both halves (src/tree/node.c, internal_node_split). */
module TreeBreaks {
  import opened Keys
  import opened Pages
  import opened Trees
  import opened TreeLaws
  import opened TreeInsert
  import opened TreeGrowth
  import opened TreeRefinement
  import opened TreeLimits
  import opened TreeCascades

  /** Not well-formed at any height and for any interval. */
  ghost predicate Broken(h: Heap, pid: Pid) {
    forall m: nat, lo, hi :: !Shape(h, pid, m, lo, hi)
  }

  /** The two internal pages cannot both be children of a well-formed page: the right one lacks its
      rightmost child, or they share a child. */
  ghost predicate Clash(l: Page, r: Page) {
    !l.leaf && !r.leaf && (r.rightmost == 0 || exists x :: x in Kids(l) && x in Kids(r))
  }

  /** The halves of a splitting internal page clash once the child's separator is added to one of them. */
  lemma HalvesClash(p: Page, q: nat, sep: Key, child: Pid, newPid: Pid, l: Page, r: Page)
    requires !p.leaf && q < |p.cells| && SortedKeys(Seps(p)) && sep !in Seps(p)
    requires child == Kids(p)[Rank(Seps(p), sep)]
    requires var (l0, r0) := Halves(p, q);
             if Precedes(Seps(p)[q], sep) then l == l0 && r == AddSep(r0, sep, child, newPid)
             else l == AddSep(l0, sep, child, newPid) && r == r0
    ensures Clash(l, r)
  {
    hide Precedes, AddSep, Halves, Rank;
    var ks := Seps(p);
    var (l0, r0) := Halves(p, q);
    HalvesMeaning(p, q);
    AddSepMeaning(l0, sep, child, newPid);
    AddSepMeaning(r0, sep, child, newPid);
    if Precedes(ks[q], sep) && r.rightmost != 0 {
      assert Seps(r0) == ks[q + 1..];
      var idx := Rank(Seps(r0), sep);
      RankOfRest(ks, q + 1, sep);
      assert idx == |r0.cells|;
      assert child == p.rightmost;
      assert Kids(l)[|l.cells|] == p.rightmost;
      assert Kids(r)[idx] == child;
      assert child in Kids(l) && child in Kids(r);
    }
  }

  lemma KidsOfClash(h: Heap, a: Pid, b: Pid, m: nat, lo: Bound, mid: Bound, hi: Bound)
    requires a in h && b in h && 0 !in h && Clash(h[a], h[b])
    requires Shape(h, a, m, lo, mid) && Shape(h, b, m, mid, hi)
    ensures !(Reach(h, a, m) !! Reach(h, b, m))
  {
    hide Precedes, KidsShape, Contents, ReachAll;
    ShapeKids(h, a, m, lo, mid);
    ShapeKids(h, b, m, mid, hi);
    KidReached(h, b, m, |h[b].cells|, mid, hi);
    var x :| x in Kids(h[a]) && x in Kids(h[b]);
    var i :| 0 <= i < |Kids(h[a])| && Kids(h[a])[i] == x;
    var j :| 0 <= j < |Kids(h[b])| && Kids(h[b])[j] == x;
    KidReached(h, a, m, i, lo, mid);
    KidReached(h, b, m, j, mid, hi);
  }

  /** A child of a well-formed page exists and belongs to the page's subtree. */
  lemma KidReached(h: Heap, pid: Pid, m: nat, i: nat, lo: Bound, hi: Bound)
    requires m > 0 && Shape(h, pid, m, lo, hi) && i <= |h[pid].cells|
    ensures var kid := Kids(h[pid])[i];
            && kid in h && kid in Reach(h, pid, m) && Reach(h, kid, m - 1) <= Reach(h, pid, m)
            && Shape(h, kid, m - 1, LoOf(Seps(h[pid]), i, lo), HiOf(Seps(h[pid]), i, hi))
            && pid !in Reach(h, kid, m - 1)
  {
    hide Precedes, KidsShape, Contents, ReachAll, SortedKeys, InInterval;
    ShapeKids(h, pid, m, lo, hi);
    KidsAround(h, Kids(h[pid]), Seps(h[pid]), i, m - 1, lo, hi);
  }

  /** A page with clashing neighbours among its children is broken. */
  lemma ClashBreaks(h: Heap, pid: Pid, j: nat)
    requires pid in h && 0 !in h && !h[pid].leaf && j < |h[pid].cells|
    requires Kids(h[pid])[j] in h && Kids(h[pid])[j + 1] in h
    requires Clash(h[Kids(h[pid])[j]], h[Kids(h[pid])[j + 1]])
    ensures Broken(h, pid)
  {
    hide Precedes, KidsShape, Contents, Reach, ReachAll, SortedKeys, InInterval;
    forall m: nat, lo, hi ensures !Shape(h, pid, m, lo, hi) {
      if Shape(h, pid, m, lo, hi) {
        var kids, seps := Kids(h[pid]), Seps(h[pid]);
        ShapeKids(h, pid, m, lo, hi);
        KidsAround(h, kids, seps, j, m - 1, lo, hi);
        KidsAround(h, kids, seps, j + 1, m - 1, lo, hi);
        KidsOfClash(h, kids[j], kids[j + 1], m - 1, LoOf(seps, j, lo), At(seps[j]), HiOf(seps, j + 1, hi));
        KidsCount(h, kids[j + 1..], seps[j + 1..], m - 1, At(seps[j]), hi);
        AllOne(h, kids[j], m - 1);
      }
    }
  }

  /** A page with a broken child is broken, whatever happens to the page itself. */
  lemma BrokenAbove(h1: Heap, h: Heap, pid: Pid, i: nat)
    requires pid in h && !h[pid].leaf && i <= |h[pid].cells|
    requires Broken(h1, Kids(h[pid])[i])
    requires forall x | x in h && x != pid :: x in h1 && h1[x] == h[x]
    ensures Broken(h, pid)
  {
    hide Precedes, KidsShape, Contents, ReachAll, SortedKeys, InInterval;
    forall m: nat, lo, hi ensures !Shape(h, pid, m, lo, hi) {
      if Shape(h, pid, m, lo, hi) {
        var kid := Kids(h[pid])[i];
        var klo, khi := LoOf(Seps(h[pid]), i, lo), HiOf(Seps(h[pid]), i, hi);
        ShapeKids(h, pid, m, lo, hi);
        KidReached(h, pid, m, i, lo, hi);
        ReachInHeap(h, kid, m - 1, klo, khi);
        Frame(h, h1, kid, m - 1, klo, khi);
      }
    }
  }

  /** After an internal page split, it and its new page clash. */
  lemma SplitClashes(h: Heap, pid: Pid, n: nat, lo: Bound, hi: Bound, key: Key, value: seq<Byte>, next: Pid)
    requires n > 0 && Shape(h, pid, n, lo, hi) && Fresh(h, next) && AllIn(h, PathOf(h, pid, n, key))
    requires Splittable(h, PathOf(h, pid, n, key), key, value, next)
    requires PlanOf(h, PathOf(h, pid, n, key), key, value, next).full
    ensures var path := PathOf(h, pid, n, key);
            var plan, h' := PlanOf(h, path, key, value, next), ApplyPath(h, path, key, value, next);
            pid in h' && plan.newPid in h' && pid != plan.newPid && Clash(h'[pid], h'[plan.newPid])
  {
    hide Precedes, Shape, Reach, ReachAll, KidsShape, Contents, Rank, PartitionIdx, IsFull, AddSep, Halves, InsertAt, SortedKeys, Clash, Splittable;
    ShapeLeaf(h, pid, n, lo, hi);
    var path, p, j := PathOf(h, pid, n, key), h[pid], Rank(Seps(h[pid]), key);
    var plan, c := PlanOf(h, path, key, value, next), PlanOf(h, path[1..], key, value, next);
    var (l, r) := NewPages(h, path, key, value, next);
    assert path[1..] == PathOf(h, Kids(p)[j], n - 1, key);
    SplitBelow(h, path, key, value, next);
    PlanSep(h, path, key, value, next);
    PlanBounds(h, path, key, value, next);
    ShapeKids(h, pid, n, lo, hi);
    KidsAround(h, Kids(p), Seps(p), j, n - 1, lo, hi);
    PlanSepInside(h, Kids(p)[j], n - 1, LoOf(Seps(p), j, lo), HiOf(Seps(p), j, hi), key, value, next);
    PlanSepInside(h, pid, n, lo, hi, key, value, next);
    SepBetween(Seps(p), j, c.sep, lo, hi);
    HalvesClash(p, plan.q, c.sep, path[1], c.newPid, l, r);
  }

  /** The page above a splitting internal page is broken. */
  lemma BreaksHere(h: Heap, pid: Pid, n: nat, lo: Bound, hi: Bound, key: Key, value: seq<Byte>, next: Pid)
    requires n > 1 && Shape(h, pid, n, lo, hi) && Fresh(h, next) && AllIn(h, PathOf(h, pid, n, key))
    requires Splittable(h, PathOf(h, pid, n, key), key, value, next)
    requires PlanOf(h, PathOf(h, pid, n, key)[1..], key, value, next).full
    requires !PlanOf(h, PathOf(h, pid, n, key), key, value, next).full
    ensures Broken(ApplyPath(h, PathOf(h, pid, n, key), key, value, next), pid)
  {
    hide Precedes, Reach, ReachAll, KidsShape, Contents, Rank, InsertAt, SortedKeys, Clash, Broken, NewPages, PlanOf, Shape;
    var path, p, j := PathOf(h, pid, n, key), h[pid], Rank(Seps(h[pid]), key);
    var klo, khi := LoOf(Seps(p), j, lo), HiOf(Seps(p), j, hi);
    ShapeKids(h, pid, n, lo, hi);
    KidReached(h, pid, n, j, lo, hi);
    var kid := Kids(p)[j];
    assert path[1..] == PathOf(h, kid, n - 1, key);
    var c := PlanOf(h, path[1..], key, value, next);
    PlanBounds(h, path[1..], key, value, next);
    PlanSepInside(h, kid, n - 1, klo, khi, key, value, next);
    InnerSpliced(h, pid, n, lo, hi, key, value, next);
    SplitClashes(h, kid, n - 1, klo, khi, key, value, next);
    SelfReached(h, kid, n - 1);
    var p' := NewPages(h, path, key, value, next).0;
    assert Kids(p')[j] == kid && Kids(p')[j + 1] == c.newPid;
    ClashBreaks(ApplyPath(h, path, key, value, next), pid, j);
  }

  /** When an internal page of the path splits, every page above it on the path that does not split is broken. */
  lemma {:induction false} PathBreaks(h: Heap, pid: Pid, n: nat, lo: Bound, hi: Bound, key: Key, value: seq<Byte>, next: Pid)
    requires Shape(h, pid, n, lo, hi) && Fresh(h, next) && AllIn(h, PathOf(h, pid, n, key))
    requires Splittable(h, PathOf(h, pid, n, key), key, value, next)
    requires SplitsInternal(h, PathOf(h, pid, n, key), key, value, next)
    requires !PlanOf(h, PathOf(h, pid, n, key), key, value, next).full
    ensures Broken(ApplyPath(h, PathOf(h, pid, n, key), key, value, next), pid)
    decreases n
  {
    hide Precedes, Reach, ReachAll, KidsShape, Contents, Rank, PlanOf, Broken, Shape;
    var path, p, j := PathOf(h, pid, n, key), h[pid], Rank(Seps(h[pid]), key);
    ShapeKids(h, pid, n, lo, hi);
    KidReached(h, pid, n, j, lo, hi);
    assert path[1..] == PathOf(h, Kids(p)[j], n - 1, key);
    if PlanOf(h, path[1..], key, value, next).full {
      BreaksHere(h, pid, n, lo, hi, key, value, next);
    } else {
      PathBreaks(h, Kids(p)[j], n - 1, LoOf(Seps(p), j, lo), HiOf(Seps(p), j, hi), key, value, next);
      BrokenAbove(ApplyPath(h, path[1..], key, value, next), ApplyPath(h, path, key, value, next), pid, j);
    }
  }

  lemma SelfReached(h: Heap, pid: Pid, n: nat)
    ensures pid in Reach(h, pid, n)
  {}
}
