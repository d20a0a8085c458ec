/** The main result for trees: without an internal split, btree_insert is sorted insertion. */
module TreeGrowth {
  import opened Keys
  import opened Pages
  import opened Trees
  import opened TreeLaws
  import opened TreeInsert

  function LoOf(seps: seq<Key>, j: nat, lo: Bound): Bound
    requires j <= |seps|
  {
    if j == 0 then lo else At(seps[j - 1])
  }

  function HiOf(seps: seq<Key>, j: nat, hi: Bound): Bound
    requires j <= |seps|
  {
    if j < |seps| then At(seps[j]) else hi
  }

  // ----- Cutting and joining neighbouring subtrees -----

  lemma {:induction false} AllConcat(h: Heap, a: seq<Pid>, b: seq<Pid>, n: nat)
    ensures ReachAll(h, a + b, n) == ReachAll(h, a, n) + ReachAll(h, b, n)
    ensures ContentsAll(h, a + b, n) == ContentsAll(h, a, n) + ContentsAll(h, b, n)
    decreases |a|
  {
    hide Reach, Contents;
    if a == [] {
      assert a + b == b;
    } else {
      assert (a + b)[1..] == a[1..] + b;
      AllConcat(h, a[1..], b, n);
    }
  }

  lemma AllOne(h: Heap, pid: Pid, n: nat)
    ensures ReachAll(h, [pid], n) == Reach(h, pid, n) && ContentsAll(h, [pid], n) == Contents(h, pid, n)
    ensures forall lo, hi :: KidsShape(h, [pid], [], n, lo, hi) == Shape(h, pid, n, lo, hi)
  {
    hide Reach, Contents, Shape;
    assert [pid][1..] == [];
  }

  /** `a` and `b` are neighbours with the separator `k` between them. */
  ghost predicate Neighbours(h: Heap, a: seq<Pid>, sa: seq<Key>, k: Key, b: seq<Pid>, sb: seq<Key>, n: nat, lo: Bound, hi: Bound) {
    && KidsShape(h, a, sa, n, lo, At(k))
    && KidsShape(h, b, sb, n, At(k), hi)
    && ReachAll(h, a, n) !! ReachAll(h, b, n)
    && Stores(Contents(h, b[0], n), k)
  }

  lemma {:induction false} KidsJoin(h: Heap, a: seq<Pid>, sa: seq<Key>, k: Key, b: seq<Pid>, sb: seq<Key>, n: nat, lo: Bound, hi: Bound)
    requires Neighbours(h, a, sa, k, b, sb, n, lo, hi)
    ensures KidsShape(h, a + b, sa + [k] + sb, n, lo, hi)
    decreases |a|
  {
    hide Reach, Contents, Shape;
    var kids, seps := a + b, sa + [k] + sb;
    assert kids[1..] == a[1..] + b;
    if sa == [] {
      assert a == [a[0]];
      AllOne(h, a[0], n);
      assert seps[1..] == sb && kids[1..] == b;
    } else {
      assert seps[1..] == sa[1..] + [k] + sb;
      KidsJoin(h, a[1..], sa[1..], k, b, sb, n, At(sa[0]), hi);
      AllConcat(h, a[1..], b, n);
      assert kids[1] == a[1];
    }
  }

  lemma {:induction false} KidsCut(h: Heap, kids: seq<Pid>, seps: seq<Key>, c: nat, n: nat, lo: Bound, hi: Bound)
    requires KidsShape(h, kids, seps, n, lo, hi) && 0 < c <= |seps|
    ensures Neighbours(h, kids[..c], seps[..c - 1], seps[c - 1], kids[c..], seps[c..], n, lo, hi)
    decreases |kids|
  {
    hide Reach, Contents, Shape;
    if c == 1 {
      assert kids[..1] == [kids[0]] && seps[..0] == [];
      AllOne(h, kids[0], n);
    } else {
      KidsCut(h, kids[1..], seps[1..], c - 1, n, At(seps[0]), hi);
      assert kids[..c][1..] == kids[1..][..c - 1] && seps[..c - 1][1..] == seps[1..][..c - 2];
      assert kids[1..][c - 1..] == kids[c..] && seps[1..][c - 1..] == seps[c..];
      assert kids[1..] == kids[1..][..c - 1] + kids[c..];
      AllConcat(h, kids[1..][..c - 1], kids[c..], n);
    }
  }

  /** One child among its neighbours: the subtrees before it, itself, and the subtrees behind it. */
  lemma KidsAround(h: Heap, kids: seq<Pid>, seps: seq<Key>, j: nat, n: nat, lo: Bound, hi: Bound)
    requires KidsShape(h, kids, seps, n, lo, hi) && j <= |seps|
    ensures Shape(h, kids[j], n, LoOf(seps, j, lo), HiOf(seps, j, hi))
    ensures 0 < j ==> Neighbours(h, kids[..j], seps[..j - 1], seps[j - 1], kids[j..], seps[j..], n, lo, hi)
    ensures j < |seps| ==> Neighbours(h, [kids[j]], [], seps[j], kids[j + 1..], seps[j + 1..], n, LoOf(seps, j, lo), hi)
    ensures ReachAll(h, kids, n) == ReachAll(h, kids[..j], n) + Reach(h, kids[j], n) + ReachAll(h, kids[j + 1..], n)
    ensures ContentsAll(h, kids, n) == ContentsAll(h, kids[..j], n) + Contents(h, kids[j], n) + ContentsAll(h, kids[j + 1..], n)
  {
    hide Reach, Contents, Shape, ReachAll, ContentsAll, KidsShape;
    KidsCount(h, kids, seps, n, lo, hi);
    var rest, rseps := kids[j..], seps[j..];
    if j > 0 { KidsCut(h, kids, seps, j, n, lo, hi); }
    assert KidsShape(h, rest, rseps, n, LoOf(seps, j, lo), hi) by {
      assert j == 0 ==> rest == kids && rseps == seps;
    }
    if j < |seps| {
      KidsCut(h, rest, rseps, 1, n, LoOf(seps, j, lo), hi);
      assert rest[..1] == [kids[j]] && rest[1..] == kids[j + 1..] && rseps[..0] == [] && rseps[1..] == seps[j + 1..];
    } else {
      assert rest == [kids[j]] && rseps == [];
    }
    AllOne(h, kids[j], n);
    AroundConcat(h, kids, j, n);
  }

  lemma AroundConcat(h: Heap, kids: seq<Pid>, j: nat, n: nat)
    requires j < |kids|
    ensures ReachAll(h, kids, n) == ReachAll(h, kids[..j], n) + Reach(h, kids[j], n) + ReachAll(h, kids[j + 1..], n)
    ensures ContentsAll(h, kids, n) == ContentsAll(h, kids[..j], n) + Contents(h, kids[j], n) + ContentsAll(h, kids[j + 1..], n)
  {
    hide Reach, Contents, ReachAll, ContentsAll;
    assert kids == kids[..j] + kids[j..] && kids[j..] == [kids[j]] + kids[j + 1..];
    AllOne(h, kids[j], n);
    AllConcat(h, [kids[j]], kids[j + 1..], n);
    AllConcat(h, kids[..j], kids[j..], n);
  }

  lemma KidsCount(h: Heap, kids: seq<Pid>, seps: seq<Key>, n: nat, lo: Bound, hi: Bound)
    requires KidsShape(h, kids, seps, n, lo, hi)
    ensures |kids| == |seps| + 1 && Reach(h, kids[0], n) <= ReachAll(h, kids, n)
  {}

  lemma FrameNeighbours(h: Heap, h': Heap, b: seq<Pid>, sb: seq<Key>, k: Key, n: nat, lo: Bound, hi: Bound)
    requires KidsShape(h, b, sb, n, lo, hi) && Stores(Contents(h, b[0], n), k)
    requires Unchanged(h, h', ReachAll(h, b, n))
    ensures KidsShape(h', b, sb, n, lo, hi) && Stores(Contents(h', b[0], n), k)
    ensures ReachAll(h', b, n) == ReachAll(h, b, n)
  {
    hide Contents, Reach, ReachAll, KidsShape, Shape;
    KidsCount(h, b, sb, n, lo, hi);
    FrameAll(h, h', b, sb, n, lo, hi);
    Frame(h, h', b[0], n, lo, hi);
  }

  /** A child may be replaced by subtrees for the same interval that use no page of its neighbours. */
  lemma ReplaceKid(h: Heap, h': Heap, kids: seq<Pid>, seps: seq<Key>, j: nat, n: nat, lo: Bound, hi: Bound,
                   out: seq<Pid>, os: seq<Key>)
    requires KidsShape(h, kids, seps, n, lo, hi) && j <= |seps|
    requires KidsShape(h', out, os, n, LoOf(seps, j, lo), HiOf(seps, j, hi))
    requires Unchanged(h, h', ReachAll(h, kids[..j], n) + ReachAll(h, kids[j + 1..], n))
    requires ReachAll(h', out, n) !! ReachAll(h, kids[..j], n) + ReachAll(h, kids[j + 1..], n)
    requires j > 0 ==> Stores(Contents(h', out[0], n), seps[j - 1])
    ensures KidsShape(h', kids[..j] + out + kids[j + 1..], seps[..j] + os + seps[j..], n, lo, hi)
  {
    hide Contents, Reach, ReachAll, KidsShape, Shape, ContentsAll, Stores;
    KidsAround(h, kids, seps, j, n, lo, hi);
    KidsCount(h, kids, seps, n, lo, hi);
    KidsCount(h', out, os, n, LoOf(seps, j, lo), HiOf(seps, j, hi));
    var a, b, mid, ms := kids[..j], kids[j + 1..], out + kids[j + 1..], os + seps[j..];
    if j < |seps| {
      FrameNeighbours(h, h', b, seps[j + 1..], seps[j], n, At(seps[j]), hi);
      KidsJoin(h', out, os, seps[j], b, seps[j + 1..], n, LoOf(seps, j, lo), hi);
      assert os + [seps[j]] + seps[j + 1..] == ms;
    } else {
      assert mid == out && ms == os;
    }
    if j > 0 {
      FrameAll(h, h', a, seps[..j - 1], n, lo, At(seps[j - 1]));
      AllConcat(h', out, b, n);
      FrameAll(h, h', b, [], n, lo, hi);
      assert kids[j..] == [kids[j]] + b;
      AllConcat(h, [kids[j]], b, n);
      KidsJoin(h', a, seps[..j - 1], seps[j - 1], mid, ms, n, lo, hi);
      assert seps[..j - 1] + [seps[j - 1]] + ms == seps[..j] + os + seps[j..];
      assert a + mid == a + out + b;
    } else {
      assert a + out + b == mid && seps[..j] + os + seps[j..] == ms;
    }
  }

  // ----- Entries of neighbouring subtrees -----

  ghost predicate AllBefore(es: seq<Entry>, k: Key) {
    forall i | 0 <= i < |es| :: Precedes(es[i].0, k)
  }

  ghost predicate AllFrom(es: seq<Entry>, k: Key) {
    forall i | 0 <= i < |es| :: es[i].0 == k || Precedes(k, es[i].0)
  }

  /** A key goes to the right of a separator that it follows, and otherwise to its left. */
  lemma InsBySide(a: seq<Entry>, b: seq<Entry>, sep: Key, key: Key, value: seq<Byte>)
    requires AllBefore(a, sep) && AllFrom(b, sep)
    ensures Precedes(sep, key) ==> Ins(a + b, key, value) == a + Ins(b, key, value)
    ensures !Precedes(sep, key) ==> Ins(a + b, key, value) == Ins(a, key, value) + b
  {
    hide Precedes;
    if Precedes(sep, key) {
      forall i | 0 <= i < |a| ensures Precedes(a[i].0, key) { PrecedesTransitive(a[i].0, sep, key); }
      InsAfter(a, b, key, value);
    } else {
      if b != [] {
        PrecedesTrichotomy(sep, key);
        PrecedesTrichotomy(b[0].0, key);
        if sep != key && b[0].0 != sep { PrecedesTransitive(key, sep, b[0].0); }
      }
      InsBefore(a, b, key, value);
    }
  }

  lemma KidsSides(h: Heap, kids: seq<Pid>, seps: seq<Key>, j: nat, n: nat, lo: Bound, hi: Bound)
    requires KidsShape(h, kids, seps, n, lo, hi) && SortedKeys(seps) && InInterval(seps, 1, lo, hi) && j <= |seps| == |kids| - 1
    ensures j > 0 ==> AllBefore(ContentsAll(h, kids[..j], n), seps[j - 1])
    ensures j > 0 ==> AllFrom(ContentsAll(h, kids[j..], n), seps[j - 1])
    ensures j < |seps| ==> AllBefore(Contents(h, kids[j], n), seps[j])
    ensures j < |seps| ==> AllFrom(ContentsAll(h, kids[j + 1..], n), seps[j])
  {
    hide Precedes, Contents, ContentsAll, Reach, ReachAll, Shape, KidsShape;
    KidsAround(h, kids, seps, j, n, lo, hi);
    if j > 0 {
      KidsOrdered(h, kids[..j], seps[..j - 1], n, lo, At(seps[j - 1]));
      KidsOrdered(h, kids[j..], seps[j..], n, At(seps[j - 1]), hi);
    }
    if j < |seps| {
      ShapeOrdered(h, kids[j], n, LoOf(seps, j, lo), At(seps[j]));
      KidsOrdered(h, kids[j + 1..], seps[j + 1..], n, At(seps[j]), hi);
    }
  }

  /** Subtrees before the child hold only smaller keys, subtrees behind it only larger ones,
      so inserting into the child's entries is inserting into all entries. */
  lemma KidsIns(h: Heap, kids: seq<Pid>, seps: seq<Key>, n: nat, lo: Bound, hi: Bound, key: Key, value: seq<Byte>)
    requires KidsShape(h, kids, seps, n, lo, hi) && SortedKeys(seps) && InInterval(seps, 1, lo, hi) && |kids| == |seps| + 1
    ensures var j := Rank(seps, key);
            Ins(ContentsAll(h, kids, n), key, value)
            == ContentsAll(h, kids[..j], n) + Ins(Contents(h, kids[j], n), key, value) + ContentsAll(h, kids[j + 1..], n)
  {
    hide Precedes, Contents, ContentsAll, Reach, ReachAll, Shape, KidsShape, Ins, SortedKeys, InInterval, AllBefore, AllFrom;
    var j := Rank(seps, key);
    var a, c, b := ContentsAll(h, kids[..j], n), Contents(h, kids[j], n), ContentsAll(h, kids[j + 1..], n);
    KidsSides(h, kids, seps, j, n, lo, hi);
    AroundConcat(h, kids, j, n);
    NoContents(h, n);
    assert ContentsAll(h, kids[j..], n) == c + b by {
      assert kids[j..] == [kids[j]] + kids[j + 1..];
      AllOne(h, kids[j], n);
      AllConcat(h, [kids[j]], kids[j + 1..], n);
    }
    if j > 0 {
      InsBySide(a, c + b, seps[j - 1], key, value);
      assert a + c + b == a + (c + b);
    } else {
      assert kids[..j] == [];
    }
    if j < |seps| {
      InsBySide(c, b, seps[j], key, value);
    } else {
      assert kids[j + 1..] == [];
      assert c + b == c && Ins(c, key, value) + b == Ins(c, key, value);
    }
    assert j == 0 ==> a + c + b == c + b;
    assert a + (Ins(c, key, value) + b) == a + Ins(c, key, value) + b;
  }

  lemma NoContents(h: Heap, n: nat)
    ensures ContentsAll(h, [], n) == []
  {}

  // ----- Keys of one page -----

  lemma KeysGrow(ks: seq<Key>, key: Key, n: nat, lo: Bound, hi: Bound)
    requires SortedKeys(ks) && InInterval(ks, n, lo, hi) && key !in ks
    requires (if n == 0 then AtLeast(lo, key) else Beyond(lo, key)) && Below(key, hi)
    ensures SortedKeys(InsertAt(ks, Rank(ks, key), key)) && InInterval(InsertAt(ks, Rank(ks, key), key), n, lo, hi)
  {
    hide Precedes;
    SepsInsert(ks, key);
  }

  lemma KeysSplit(ks: seq<Key>, q: nat, lo: Bound, hi: Bound)
    requires SortedKeys(ks) && InInterval(ks, 0, lo, hi) && 0 < q < |ks|
    ensures SortedKeys(ks[..q]) && InInterval(ks[..q], 0, lo, At(ks[q]))
    ensures SortedKeys(ks[q..]) && InInterval(ks[q..], 0, At(ks[q]), hi)
    ensures Beyond(lo, ks[q]) && Below(ks[q], hi)
  {
    hide Precedes;
    if lo.At? && ks[0] != lo.key { PrecedesTransitive(lo.key, ks[0], ks[q]); }
  }
}
