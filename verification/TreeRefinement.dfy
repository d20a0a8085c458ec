/** btree_insert refines sorted insertion: by induction from the leaf up. */
module TreeRefinement {
  import opened Keys
  import opened Pages
  import opened PageRuns
  import opened Trees
  import opened TreeLaws
  import opened TreeInsert
  import opened TreeGrowth

  /** All addresses in use are below the next one to be handed out, and none is null. */
  ghost predicate Fresh(h: Heap, next: Pid) { forall x | x in h :: 0 < x < next }

  /** What takes a page's place in its parent: itself, and the page split off it. */
  function Out(pid: Pid, plan: Plan): seq<Pid> { if plan.full then [pid, plan.newPid] else [pid] }

  function OutSeps(plan: Plan): seq<Key> { if plan.full then [plan.sep] else [] }

  /** Only pages of the subtree and new pages change, and their entries are the old ones with the pair inserted. */
  ghost predicate Stored(h: Heap, h': Heap, pid: Pid, n: nat, key: Key, value: seq<Byte>, out: seq<Pid>) {
    && ContentsAll(h', out, n) == Ins(Contents(h, pid, n), key, value)
    && ReachAll(h', out, n) <= Reach(h, pid, n) + (h'.Keys - h.Keys)
    && h.Keys <= h'.Keys
    && Unchanged(h, h', h.Keys - Reach(h, pid, n))
  }

  /** The subtrees are well-formed in the interval of the subtree they replace. */
  ghost predicate Formed(h: Heap, out: seq<Pid>, seps: seq<Key>, n: nat, lo: Bound, hi: Bound) {
    && KidsShape(h, out, seps, n, lo, hi)
    && (forall k | k in seps :: Beyond(lo, k) && Below(k, hi))
  }

  // ----- Leaves -----

  lemma LeafStays(h: Heap, pid: Pid, lo: Bound, hi: Bound, key: Key, value: seq<Byte>)
    requires Shape(h, pid, 0, lo, hi)
    ensures var h' := h[pid := PutLeaf(h[pid], key, value)];
            && Stored(h, h', pid, 0, key, value, [pid])
            && (!Stores(Contents(h, pid, 0), key) && AtLeast(lo, key) && Below(key, hi) ==> Formed(h', [pid], [], 0, lo, hi))
  {
    hide Precedes, PutLeaf, Rank, KeysOf, InsertAt, Ins;
    var p := h[pid];
    var h' := h[pid := PutLeaf(p, key, value)];
    PutLeafMeaning(p, key, value);
    AllOne(h', pid, 0);
    if !Stores(Contents(h, pid, 0), key) && AtLeast(lo, key) && Below(key, hi) {
      KeyNotIn(p.cells, key);
      KeysGrow(Seps(p), key, 0, lo, hi);
    }
  }

  lemma KeyNotIn(cs: seq<Cell>, key: Key)
    ensures Stores(EntriesOf(cs), key) <==> key in KeysOf(cs)
  {
    var es, ks := EntriesOf(cs), KeysOf(cs);
    assert forall i | 0 <= i < |cs| :: es[i].0 == ks[i];
    if key in ks {
      var i :| 0 <= i < |ks| && ks[i] == key;
      assert es[i].0 == key;
    }
  }

  /** Two leaf halves of an interval, one of them with the new pair. */
  lemma LeafSplits(h: Heap, pid: Pid, q: nat, newPid: Pid, lo: Bound, hi: Bound, key: Key, value: seq<Byte>, l: Page, r: Page)
    requires Shape(h, pid, 0, lo, hi) && newPid !in h && 0 < q < |h[pid].cells|
    requires var (l0, r0) := Halves(h[pid], q);
             if Precedes(h[pid].cells[q].key, key) then l == l0 && r == PutLeaf(r0, key, value)
             else l == PutLeaf(l0, key, value) && r == r0
    ensures var h' := h[pid := l][newPid := r];
            var sep := h[pid].cells[q].key;
            && Stored(h, h', pid, 0, key, value, [pid, newPid])
            && (!Stores(Contents(h, pid, 0), key) && AtLeast(lo, key) && Below(key, hi) ==>
                  Formed(h', [pid, newPid], [sep], 0, lo, hi))
  {
    hide Precedes, PutLeaf, Rank, InsertAt, Ins, Halves;
    var p := h[pid];
    var (l0, r0) := Halves(p, q);
    var h', sep := h[pid := l][newPid := r], p.cells[q].key;
    HalvesMeaning(p, q);
    HalvesEntries(p, q);
    KeysSplit(Seps(p), q, lo, hi);
    EntriesBySide(p.cells, q);
    InsBySide(EntriesOf(l0.cells), EntriesOf(r0.cells), sep, key, value);
    PutLeafMeaning(l0, key, value);
    PutLeafMeaning(r0, key, value);
    AllOne(h', pid, 0);
    AllOne(h', newPid, 0);
    AllConcat(h', [pid], [newPid], 0);
    assert [pid] + [newPid] == [pid, newPid];
    if !Stores(Contents(h, pid, 0), key) && AtLeast(lo, key) && Below(key, hi) {
      LeafHalvesFormed(p, q, lo, hi, key, l0, r0);
      assert Shape(h', pid, 0, lo, At(sep)) && Shape(h', newPid, 0, At(sep), hi);
      assert Stores(EntriesOf(r.cells), sep) by {
        assert EntriesOf(r0.cells)[0].0 == sep;
        InsStores(EntriesOf(r0.cells), key, value, sep);
      }
      KidsJoin(h', [pid], [], sep, [newPid], [], 0, lo, hi);
      assert [] + [sep] + [] == [sep];
    }
  }

  lemma InsStores(es: seq<Entry>, key: Key, value: seq<Byte>, k: Key)
    requires Stores(es, k)
    ensures Stores(Ins(es, key, value), k)
  {
    hide Precedes, Ins;
    var r := InsMeaning(es, key, value);
    var i :| 0 <= i < |es| && es[i].0 == k;
    assert Ins(es, key, value)[if i < r then i else i + 1] == es[i];
  }

  lemma HalvesEntries(p: Page, q: nat)
    requires p.leaf && q < |p.cells|
    ensures EntriesOf(p.cells[..q]) == EntriesOf(p.cells)[..q] && EntriesOf(Moved(p, q)) == EntriesOf(p.cells)[q..]
    ensures KeysOf(p.cells[..q]) == Seps(p)[..q] && KeysOf(Moved(p, q)) == Seps(p)[q..]
    ensures EntriesOf(p.cells)[..q] + EntriesOf(p.cells)[q..] == EntriesOf(p.cells)
  {}

  lemma EntriesBySide(cs: seq<Cell>, q: nat)
    requires SortedKeys(KeysOf(cs)) && q < |cs|
    ensures AllBefore(EntriesOf(cs)[..q], cs[q].key) && AllFrom(EntriesOf(cs)[q..], cs[q].key)
  {
    hide Precedes;
    var es, ks := EntriesOf(cs), KeysOf(cs);
    forall i | 0 <= i < q ensures Precedes(es[..q][i].0, cs[q].key) { assert Precedes(ks[i], ks[q]); }
    forall i | 0 <= i < |cs| - q ensures es[q..][i].0 == cs[q].key || Precedes(cs[q].key, es[q..][i].0) {
      assert i > 0 ==> Precedes(ks[q], ks[q + i]);
    }
  }

  lemma LeafHalvesFormed(p: Page, q: nat, lo: Bound, hi: Bound, key: Key, l0: Page, r0: Page)
    requires 0 < q < |p.cells| && SortedKeys(Seps(p)) && InInterval(Seps(p), 0, lo, hi)
    requires !Stores(EntriesOf(p.cells), key) && AtLeast(lo, key) && Below(key, hi)
    requires Seps(l0) == Seps(p)[..q] && Seps(r0) == Seps(p)[q..]
    ensures var sep := p.cells[q].key;
            && SortedKeys(Seps(l0)) && InInterval(Seps(l0), 0, lo, At(sep))
            && SortedKeys(Seps(r0)) && InInterval(Seps(r0), 0, At(sep), hi)
            && Beyond(lo, sep) && Below(sep, hi)
            && if Precedes(sep, key) then var ks := InsertAt(Seps(r0), Rank(Seps(r0), key), key);
                 SortedKeys(ks) && InInterval(ks, 0, At(sep), hi)
               else var ks := InsertAt(Seps(l0), Rank(Seps(l0), key), key);
                 SortedKeys(ks) && InInterval(ks, 0, lo, At(sep))
  {
    hide Precedes, Rank, InsertAt;
    var sep := p.cells[q].key;
    KeysSplit(Seps(p), q, lo, hi);
    KeyNotIn(p.cells, key);
    assert sep == Seps(p)[q];
    PrecedesTrichotomy(sep, key);
    if Precedes(sep, key) {
      KeysGrow(Seps(r0), key, 0, At(sep), hi);
    } else {
      KeysGrow(Seps(l0), key, 0, lo, At(sep));
    }
  }

  // ----- Internal pages -----

  /** A key strictly inside a child's interval enters between the separators around that child. */
  lemma SepBetween(seps: seq<Key>, j: nat, sep: Key, lo: Bound, hi: Bound)
    requires SortedKeys(seps) && InInterval(seps, 1, lo, hi) && j <= |seps|
    requires Beyond(LoOf(seps, j, lo), sep) && Below(sep, HiOf(seps, j, hi))
    ensures Rank(seps, sep) == j && sep !in seps
    ensures SortedKeys(InsertAt(seps, j, sep)) && InInterval(InsertAt(seps, j, sep), 1, lo, hi)
  {
    hide Precedes;
    if j < |seps| { PrecedesTrichotomy(sep, seps[j]); }
    RankUnique(seps, sep, j);
    forall i | 0 <= i < |seps| ensures seps[i] != sep {
      PrecedesTrichotomy(sep, sep);
      if i >= j { RankMeaning(seps, sep, i); }
      if i > j { PrecedesTransitive(sep, seps[j], seps[i]); }
    }
    assert Beyond(lo, sep) by { if j > 0 && lo.At? { PrecedesTransitive(lo.key, seps[j - 1], sep); } }
    assert Below(sep, hi) by { if j < |seps| && hi.At? { PrecedesTransitive(sep, seps[j], hi.key); } }
    KeysGrow(seps, sep, 1, lo, hi);
  }

  /** The child on the path holds the key's place: the key lies strictly between the separators around it. */
  lemma KeyBetween(seps: seq<Key>, key: Key, lo: Bound, hi: Bound)
    requires SortedKeys(seps) && key !in seps && Beyond(lo, key) && Below(key, hi)
    ensures var j := Rank(seps, key); Beyond(LoOf(seps, j, lo), key) && Below(key, HiOf(seps, j, hi))
  {
    hide Precedes;
    var j := Rank(seps, key);
    if j < |seps| { RankMeaning(seps, key, j); }
  }

  /** An entry before the first separator is stored in the first subtree. */
  lemma FirstStores(h: Heap, out: seq<Pid>, os: seq<Key>, n: nat, lo: Bound, hi: Bound, k: Key)
    requires KidsShape(h, out, os, n, lo, hi) && |os| <= 1 && Stores(ContentsAll(h, out, n), k)
    requires os != [] ==> Precedes(k, os[0])
    ensures Stores(Contents(h, out[0], n), k)
  {
    hide Precedes, Contents, Reach, Shape;
    var first := Contents(h, out[0], n);
    KidsCount(h, out, os, n, lo, hi);
    NoContents(h, n);
    assert ContentsAll(h, out, n) == first + ContentsAll(h, out[1..], n);
    var i :| 0 <= i < |ContentsAll(h, out, n)| && ContentsAll(h, out, n)[i].0 == k;
    if os == [] {
      assert out[1..] == [];
    } else {
      var rest := ContentsAll(h, out[1..], n);
      assert i >= |first| ==> rest[i - |first|].0 == k;
      assert os[1..] == [];
      KidsOrdered(h, out[1..], os[1..], n, At(os[0]), hi);
      PrecedesTrichotomy(k, os[0]);
      forall m | 0 <= m < |rest| ensures rest[m].0 != k {
        assert AtLeast(At(os[0]), rest[m].0);
      }
    }
    assert first[i].0 == k;
  }

  /** How an internal page changes when its child on the path is replaced by one or two subtrees. */
  ghost predicate Spliced(p: Page, p': Page, j: nat, out: seq<Pid>, os: seq<Key>)
    requires j <= |p.cells|
  {
    && p'.leaf == p.leaf
    && Kids(p') == Kids(p)[..j] + out + Kids(p)[j + 1..]
    && Seps(p') == Seps(p)[..j] + os + Seps(p)[j..]
  }

  lemma InnerFrame(h: Heap, h1: Heap, pid: Pid, p': Page, n: nat, lo: Bound, hi: Bound, key: Key, value: seq<Byte>, out: seq<Pid>)
    requires n > 0 && Shape(h, pid, n, lo, hi)
    requires var kid := Kids(h[pid])[Rank(Seps(h[pid]), key)]; Stored(h, h1, kid, n - 1, key, value, out)
    ensures var h', j, kids := h1[pid := p'], Rank(Seps(h[pid]), key), Kids(h[pid]);
            var others := ReachAll(h, kids[..j], n - 1) + ReachAll(h, kids[j + 1..], n - 1);
            && Unchanged(h, h', others) && pid !in others
            && Unchanged(h1, h', ReachAll(h1, out, n - 1))
            && ReachAll(h1, out, n - 1) !! others + {pid}
            && Reach(h, pid, n) == {pid} + others + Reach(h, kids[j], n - 1)
            && Unchanged(h, h', h.Keys - Reach(h, pid, n))
  {
    hide Precedes, Ins, Rank, KidsShape, Contents, ContentsAll, ReachAll, SortedKeys, InInterval;
    var j, kids := Rank(Seps(h[pid]), key), Kids(h[pid]);
    var kid := kids[j];
    AroundConcat(h, kids, j, n - 1);
    ReachInHeap(h, pid, n, lo, hi);
    OthersApart(h, kids, Seps(h[pid]), j, n - 1, lo, hi);
    var others := ReachAll(h, kids[..j], n - 1) + ReachAll(h, kids[j + 1..], n - 1);
    assert Reach(h, pid, n) == {pid} + others + Reach(h, kid, n - 1);
    assert others <= h.Keys - Reach(h, kid, n - 1) && pid !in others;
    assert ReachAll(h1, out, n - 1) <= Reach(h, kid, n - 1) + (h1.Keys - h.Keys);
  }

  lemma OthersApart(h: Heap, kids: seq<Pid>, seps: seq<Key>, j: nat, n: nat, lo: Bound, hi: Bound)
    requires KidsShape(h, kids, seps, n, lo, hi) && j < |kids|
    ensures Reach(h, kids[j], n) !! ReachAll(h, kids[..j], n) + ReachAll(h, kids[j + 1..], n)
  {
    hide Reach, Contents, Shape, KidsShape, ContentsAll, ReachAll;
    KidsCount(h, kids, seps, n, lo, hi);
    KidsAround(h, kids, seps, j, n, lo, hi);
    assert kids[j..] == [kids[j]] + kids[j + 1..];
    AllConcat(h, [kids[j]], kids[j + 1..], n);
    AllOne(h, kids[j], n);
    assert j == |seps| ==> kids[j + 1..] == [];
    NoReach(h, n);
    assert j == 0 ==> kids[..j] == [];
  }

  lemma NoReach(h: Heap, n: nat)
    ensures ReachAll(h, [], n) == {}
  {}

  lemma InnerStored(h: Heap, h1: Heap, pid: Pid, p': Page, n: nat, lo: Bound, hi: Bound, key: Key, value: seq<Byte>,
                    out: seq<Pid>, os: seq<Key>)
    requires n > 0 && Shape(h, pid, n, lo, hi)
    requires Stored(h, h1, Kids(h[pid])[Rank(Seps(h[pid]), key)], n - 1, key, value, out)
    requires Spliced(h[pid], p', Rank(Seps(h[pid]), key), out, os)
    ensures Stored(h, h1[pid := p'], pid, n, key, value, [pid])
  {
    hide Precedes, Ins, Rank, KidsShape, ReachAll, SortedKeys, InInterval, ContentsAll, Shape;
    ShapeKids(h, pid, n, lo, hi);
    var h', j, kids, seps := h1[pid := p'], Rank(Seps(h[pid]), key), Kids(h[pid]), Seps(h[pid]);
    InnerFrame(h, h1, pid, p', n, lo, hi, key, value, out);
    FrameAll(h, h', kids[..j], [], n - 1, lo, hi);
    FrameAll(h, h', kids[j + 1..], [], n - 1, lo, hi);
    FrameAll(h1, h', out, [], n - 1, lo, hi);
    KidsIns(h, kids, seps, n - 1, lo, hi, key, value);
    AllConcat(h', kids[..j], out, n - 1);
    AllConcat(h', kids[..j] + out, kids[j + 1..], n - 1);
    AllOne(h', pid, n);
  }

  lemma ShapeKids(h: Heap, pid: Pid, n: nat, lo: Bound, hi: Bound)
    requires n > 0 && Shape(h, pid, n, lo, hi)
    ensures pid in h && !h[pid].leaf
    ensures SortedKeys(Seps(h[pid])) && InInterval(Seps(h[pid]), 1, lo, hi)
    ensures KidsShape(h, Kids(h[pid]), Seps(h[pid]), n - 1, lo, hi)
    ensures pid !in ReachAll(h, Kids(h[pid]), n - 1)
  {
    hide Precedes;
  }

  lemma InnerFormed(h: Heap, h1: Heap, pid: Pid, p': Page, n: nat, lo: Bound, hi: Bound, key: Key, value: seq<Byte>,
                    out: seq<Pid>, os: seq<Key>)
    requires n > 0 && Shape(h, pid, n, lo, hi)
    requires Stored(h, h1, Kids(h[pid])[Rank(Seps(h[pid]), key)], n - 1, key, value, out)
    requires Spliced(h[pid], p', Rank(Seps(h[pid]), key), out, os) && |os| <= 1
    requires var (seps, j) := (Seps(h[pid]), Rank(Seps(h[pid]), key));
             Formed(h1, out, os, n - 1, LoOf(seps, j, lo), HiOf(seps, j, hi))
    ensures Shape(h1[pid := p'], pid, n, lo, hi)
  {
    hide Precedes, Ins, Rank, KidsShape, Reach, ReachAll, SortedKeys, InInterval, ContentsAll, Stores;
    ShapeKids(h, pid, n, lo, hi);
    var h', j, kids, seps := h1[pid := p'], Rank(Seps(h[pid]), key), Kids(h[pid]), Seps(h[pid]);
    InnerFrame(h, h1, pid, p', n, lo, hi, key, value, out);
    KidsCount(h1, out, os, n - 1, LoOf(seps, j, lo), HiOf(seps, j, hi));
    FrameAll(h1, h', out, os, n - 1, LoOf(seps, j, lo), HiOf(seps, j, hi));
    if j > 0 {
      KidsAround(h, kids, seps, j, n - 1, lo, hi);
      InsStores(Contents(h, kids[j], n - 1), key, value, seps[j - 1]);
      assert os != [] ==> os[0] in os;
      FirstStores(h', out, os, n - 1, LoOf(seps, j, lo), HiOf(seps, j, hi), seps[j - 1]);
    }
    ReplaceKid(h, h', kids, seps, j, n - 1, lo, hi, out, os);
    SplicedSeps(seps, j, os, lo, hi);
    FrameAll(h, h', kids[..j], [], n - 1, lo, hi);
    FrameAll(h, h', kids[j + 1..], [], n - 1, lo, hi);
    AllConcat(h', kids[..j], out, n - 1);
    AllConcat(h', kids[..j] + out, kids[j + 1..], n - 1);
    InnerShape(h', pid, n, lo, hi);
  }

  lemma SplicedSeps(seps: seq<Key>, j: nat, os: seq<Key>, lo: Bound, hi: Bound)
    requires SortedKeys(seps) && InInterval(seps, 1, lo, hi) && j <= |seps| && |os| <= 1
    requires forall k | k in os :: Beyond(LoOf(seps, j, lo), k) && Below(k, HiOf(seps, j, hi))
    ensures SortedKeys(seps[..j] + os + seps[j..]) && InInterval(seps[..j] + os + seps[j..], 1, lo, hi)
  {
    hide Precedes, SortedKeys, InInterval;
    if os == [] {
      assert seps[..j] + os + seps[j..] == seps;
    } else {
      SepBetween(seps, j, os[0], lo, hi);
      assert os == [os[0]];
    }
  }

  lemma InnerShape(h: Heap, pid: Pid, n: nat, lo: Bound, hi: Bound)
    requires n > 0 && pid in h && !h[pid].leaf
    requires SortedKeys(Seps(h[pid])) && InInterval(Seps(h[pid]), 1, lo, hi)
    requires KidsShape(h, Kids(h[pid]), Seps(h[pid]), n - 1, lo, hi)
    requires pid !in ReachAll(h, Kids(h[pid]), n - 1)
    ensures Shape(h, pid, n, lo, hi)
  {
    hide Precedes;
  }

  // ----- The whole path -----

  lemma {:induction false} PlanBounds(h: Heap, path: seq<Pid>, key: Key, value: seq<Byte>, next: Pid)
    requires path != [] && AllIn(h, path) && Fresh(h, next) && Splittable(h, path, key, value, next)
    ensures var plan, h' := PlanOf(h, path, key, value, next), ApplyPath(h, path, key, value, next);
            && plan.next >= next
            && (plan.full ==> next <= plan.newPid < plan.next && plan.newPid in h')
            && h.Keys <= h'.Keys
            && Fresh(h', plan.next)
            && forall x | x in h' :: x in h || next <= x < plan.next
    decreases |path|
  {
    hide NewPages, IsFull, PartitionIdx;
    if |path| > 1 { PlanBounds(h, path[1..], key, value, next); }
  }

  lemma {:induction false} PathInHeap(h: Heap, pid: Pid, n: nat, lo: Bound, hi: Bound, key: Key)
    requires Shape(h, pid, n, lo, hi)
    ensures AllIn(h, PathOf(h, pid, n, key)) && |PathOf(h, pid, n, key)| == n + 1
    decreases n
  {
    hide Precedes, Rank, KidsShape, Reach, ReachAll;
    if n > 0 {
      var j := Rank(Seps(h[pid]), key);
      KidsAround(h, Kids(h[pid]), Seps(h[pid]), j, n - 1, lo, hi);
      PathInHeap(h, Kids(h[pid])[j], n - 1, LoOf(Seps(h[pid]), j, lo), HiOf(Seps(h[pid]), j, hi), key);
    }
  }

  /** The page after its child was inserted into, when it does not split itself. */
  lemma InnerSpliced(h: Heap, pid: Pid, n: nat, lo: Bound, hi: Bound, key: Key, value: seq<Byte>, next: Pid)
    requires n > 0 && Shape(h, pid, n, lo, hi) && AllIn(h, PathOf(h, pid, n, key))
    requires Splittable(h, PathOf(h, pid, n, key), key, value, next)
    requires !PlanOf(h, PathOf(h, pid, n, key), key, value, next).full
    requires var path, seps, j := PathOf(h, pid, n, key), Seps(h[pid]), Rank(Seps(h[pid]), key);
             var c := PlanOf(h, path[1..], key, value, next);
             c.full ==> Beyond(LoOf(seps, j, lo), c.sep) && Below(c.sep, HiOf(seps, j, hi))
    ensures var path, j := PathOf(h, pid, n, key), Rank(Seps(h[pid]), key);
            var c := PlanOf(h, path[1..], key, value, next);
            var p' := NewPages(h, path, key, value, next).0;
            && Spliced(h[pid], p', j, Out(path[1], c), OutSeps(c))
            && ApplyPath(h, path, key, value, next) == ApplyPath(h, path[1..], key, value, next)[pid := p']
  {
    hide Precedes, Rank, KidsShape, Reach, ReachAll, AddSep, PlanOf, Beyond, Below, InInterval, SortedKeys;
    var path, seps, j := PathOf(h, pid, n, key), Seps(h[pid]), Rank(Seps(h[pid]), key);
    assert path[1..] == PathOf(h, Kids(h[pid])[j], n - 1, key);
    ShapeKids(h, pid, n, lo, hi);
    var c := PlanOf(h, path[1..], key, value, next);
    if c.full {
      SepBetween(seps, j, c.sep, lo, hi);
      AddSepMeaning(h[pid], c.sep, path[1], c.newPid);
      assert InsertAt(seps, j, c.sep) == seps[..j] + [c.sep] + seps[j..];
    } else {
      assert Kids(h[pid]) == Kids(h[pid])[..j] + [path[1]] + Kids(h[pid])[j + 1..];
      assert seps == seps[..j] + [] + seps[j..];
    }
  }

  /** On a well-formed subtree btree_insert stores the pair at its rank, and if the key is new the
      subtree stays well-formed, or becomes two when its leaf is also its root and splits. */
  lemma {:induction false} InsertSubtree(h: Heap, pid: Pid, n: nat, lo: Bound, hi: Bound, key: Key, value: seq<Byte>, next: Pid)
    requires Shape(h, pid, n, lo, hi) && Fresh(h, next) && AllIn(h, PathOf(h, pid, n, key))
    requires Splittable(h, PathOf(h, pid, n, key), key, value, next)
    requires !SplitsInternal(h, PathOf(h, pid, n, key), key, value, next)
    requires !OnSeparator(h, pid, n, key) && Beyond(lo, key) && Below(key, hi)
    ensures var path := PathOf(h, pid, n, key);
            var plan, h' := PlanOf(h, path, key, value, next), ApplyPath(h, path, key, value, next);
            && Stored(h, h', pid, n, key, value, Out(pid, plan))
            && (forall k | k in OutSeps(plan) :: Beyond(lo, k) && Below(k, hi))
            && (!Stores(Contents(h, pid, n), key) ==> Formed(h', Out(pid, plan), OutSeps(plan), n, lo, hi))
    decreases n
  {
    hide Precedes, Rank, KidsShape, Reach, ReachAll, Contents, PartitionIdx, IsFull, PutLeaf, AddSep, Halves, Beyond, Below, InInterval, SortedKeys;
    var path := PathOf(h, pid, n, key);
    var plan, h' := PlanOf(h, path, key, value, next), ApplyPath(h, path, key, value, next);
    if n == 0 {
      LeafCase(h, pid, lo, hi, key, value, next);
    } else {
      var kids, seps, j := Kids(h[pid]), Seps(h[pid]), Rank(Seps(h[pid]), key);
      assert path[1..] == PathOf(h, kids[j], n - 1, key);
      ShapeKids(h, pid, n, lo, hi);
      KidsAround(h, kids, seps, j, n - 1, lo, hi);
      KeyBetween(seps, key, lo, hi);
      InsertSubtree(h, kids[j], n - 1, LoOf(seps, j, lo), HiOf(seps, j, hi), key, value, next);
      var c, h1 := PlanOf(h, path[1..], key, value, next), ApplyPath(h, path[1..], key, value, next);
      assert c.full ==> c.sep in OutSeps(c);
      InnerSpliced(h, pid, n, lo, hi, key, value, next);
      var p' := NewPages(h, path, key, value, next).0;
      InnerStored(h, h1, pid, p', n, lo, hi, key, value, Out(kids[j], c), OutSeps(c));
      if Stores(Contents(h, kids[j], n - 1), key) { KidStores(h, pid, n, j, key); }
      if !Stores(Contents(h, pid, n), key) {
        InnerFormed(h, h1, pid, p', n, lo, hi, key, value, Out(kids[j], c), OutSeps(c));
        AllOne(h', pid, n);
      }
    }
  }

  lemma KidStores(h: Heap, pid: Pid, n: nat, j: nat, key: Key)
    requires n > 0 && pid in h && j <= |h[pid].cells| && Stores(Contents(h, Kids(h[pid])[j], n - 1), key)
    ensures Stores(Contents(h, pid, n), key)
  {
    hide ContentsAll;
    var kids := Kids(h[pid]);
    AroundConcat(h, kids, j, n - 1);
    var c := Contents(h, kids[j], n - 1);
    var i :| 0 <= i < |c| && c[i].0 == key;
    assert Contents(h, pid, n)[|ContentsAll(h, kids[..j], n - 1)| + i].0 == key;
  }

  lemma LeafCase(h: Heap, pid: Pid, lo: Bound, hi: Bound, key: Key, value: seq<Byte>, next: Pid)
    requires Shape(h, pid, 0, lo, hi) && Fresh(h, next) && Splittable(h, [pid], key, value, next)
    requires Beyond(lo, key) && Below(key, hi)
    ensures var plan, h' := PlanOf(h, [pid], key, value, next), ApplyPath(h, [pid], key, value, next);
            && Stored(h, h', pid, 0, key, value, Out(pid, plan))
            && (forall k | k in OutSeps(plan) :: Beyond(lo, k) && Below(k, hi))
            && (!Stores(Contents(h, pid, 0), key) ==> Formed(h', Out(pid, plan), OutSeps(plan), 0, lo, hi))
  {
    hide Precedes, Rank, KidsShape, Reach, ReachAll, Contents, PartitionIdx, IsFull, PutLeaf, Halves;
    var plan := PlanOf(h, [pid], key, value, next);
    var (l, r) := NewPages(h, [pid], key, value, next);
    if plan.full {
      PartitionMeaning(h[pid].cells);
      Overshoot(h[pid].cells, plan.q);
      LeafSplits(h, pid, plan.q, next, lo, hi, key, value, l, r);
      KeysSplit(Seps(h[pid]), plan.q, lo, hi);
    } else {
      LeafStays(h, pid, lo, hi, key, value);
    }
  }
}
