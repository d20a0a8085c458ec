/** What holds of every well-formed tree, and what a change elsewhere leaves alone. */
module TreeLaws {
  import opened Keys
  import opened Pages
  import opened Trees

  ghost predicate Unchanged(h: Heap, h': Heap, s: set<Pid>) {
    forall x | x in s :: x in h && x in h' && h'[x] == h[x]
  }

  /** A subtree depends on its own pages only. */
  lemma {:induction false} Frame(h: Heap, h': Heap, pid: Pid, n: nat, lo: Bound, hi: Bound)
    requires Unchanged(h, h', Reach(h, pid, n))
    ensures Contents(h', pid, n) == Contents(h, pid, n) && Reach(h', pid, n) == Reach(h, pid, n)
    ensures Shape(h', pid, n, lo, hi) == Shape(h, pid, n, lo, hi)
    decreases n, 0
  {
    assert pid in h;
    if n > 0 { FrameAll(h, h', Kids(h[pid]), Seps(h[pid]), n - 1, lo, hi); }
  }

  lemma {:induction false} FrameAll(h: Heap, h': Heap, kids: seq<Pid>, seps: seq<Key>, n: nat, lo: Bound, hi: Bound)
    requires Unchanged(h, h', ReachAll(h, kids, n))
    ensures ContentsAll(h', kids, n) == ContentsAll(h, kids, n) && ReachAll(h', kids, n) == ReachAll(h, kids, n)
    ensures KidsShape(h', kids, seps, n, lo, hi) == KidsShape(h, kids, seps, n, lo, hi)
    decreases n, |kids| + 1
  {
    if kids != [] {
      Frame(h, h', kids[0], n, lo, if seps == [] then hi else At(seps[0]));
      if seps != [] {
        FrameAll(h, h', kids[1..], seps[1..], n, At(seps[0]), hi);
        if |kids| > 1 {
          assert kids[1..][0] == kids[1];
          Frame(h, h', kids[1], n, Unbounded, Unbounded);
        }
      } else {
        FrameAll(h, h', kids[1..], [], n, Unbounded, Unbounded);
      }
    }
  }

  lemma {:induction false} ReachInHeap(h: Heap, pid: Pid, n: nat, lo: Bound, hi: Bound)
    requires Shape(h, pid, n, lo, hi)
    ensures Reach(h, pid, n) <= h.Keys
    decreases n, 0
  {
    if n > 0 { ReachAllInHeap(h, Kids(h[pid]), Seps(h[pid]), n - 1, lo, hi); }
  }

  lemma {:induction false} ReachAllInHeap(h: Heap, kids: seq<Pid>, seps: seq<Key>, n: nat, lo: Bound, hi: Bound)
    requires KidsShape(h, kids, seps, n, lo, hi)
    ensures ReachAll(h, kids, n) <= h.Keys
    decreases n, |kids| + 1
  {
    if seps == [] {
      ReachInHeap(h, kids[0], n, lo, hi);
      assert ReachAll(h, kids[1..], n) == {};
    } else {
      ReachInHeap(h, kids[0], n, lo, At(seps[0]));
      ReachAllInHeap(h, kids[1..], seps[1..], n, At(seps[0]), hi);
    }
  }

  /** All entries lie in the interval and in strict key order. */
  ghost predicate Ordered(es: seq<Entry>, lo: Bound, hi: Bound) {
    SortedEntries(es) && forall i | 0 <= i < |es| :: AtLeast(lo, es[i].0) && Below(es[i].0, hi)
  }

  lemma OrderedConcat(a: seq<Entry>, b: seq<Entry>, lo: Bound, mid: Key, hi: Bound)
    requires Ordered(a, lo, At(mid)) && Ordered(b, At(mid), hi)
    requires Beyond(lo, mid) && Below(mid, hi)
    ensures Ordered(a + b, lo, hi)
  {
    hide Precedes;
    forall i, j | 0 <= i < |a| && 0 <= j < |b| ensures Precedes(a[i].0, b[j].0) {
      if b[j].0 != mid { PrecedesTransitive(a[i].0, mid, b[j].0); }
    }
    forall i | 0 <= i < |a| ensures Below(a[i].0, hi) {
      if hi.At? { PrecedesTransitive(a[i].0, mid, hi.key); }
    }
    forall i | 0 <= i < |b| ensures AtLeast(lo, b[i].0) {
      if lo.At? && b[i].0 != mid { PrecedesTransitive(lo.key, mid, b[i].0); }
    }
  }

  /** The leaves of a well-formed tree hold their keys in strict order inside the interval. */
  lemma {:induction false} ShapeOrdered(h: Heap, pid: Pid, n: nat, lo: Bound, hi: Bound)
    requires Shape(h, pid, n, lo, hi)
    ensures Ordered(Contents(h, pid, n), lo, hi)
    decreases n, 0
  {
    hide Precedes;
    if n > 0 {
      KidsOrdered(h, Kids(h[pid]), Seps(h[pid]), n - 1, lo, hi);
    } else {
      var es := EntriesOf(h[pid].cells);
      assert forall i | 0 <= i < |es| :: es[i].0 == Seps(h[pid])[i];
    }
  }

  lemma {:induction false} KidsOrdered(h: Heap, kids: seq<Pid>, seps: seq<Key>, n: nat, lo: Bound, hi: Bound)
    requires KidsShape(h, kids, seps, n, lo, hi) && SortedKeys(seps) && InInterval(seps, 1, lo, hi)
    ensures Ordered(ContentsAll(h, kids, n), lo, hi)
    decreases n, |kids| + 1
  {
    hide Precedes;
    if seps == [] {
      ShapeOrdered(h, kids[0], n, lo, hi);
      assert ContentsAll(h, kids, n) == Contents(h, kids[0], n);
    } else {
      ShapeOrdered(h, kids[0], n, lo, At(seps[0]));
      assert InInterval(seps[1..], 1, At(seps[0]), hi);
      KidsOrdered(h, kids[1..], seps[1..], n, At(seps[0]), hi);
      OrderedConcat(Contents(h, kids[0], n), ContentsAll(h, kids[1..], n), lo, seps[0], hi);
    }
  }
}
