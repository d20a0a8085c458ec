/** The B+tree over decoded pages: what a well-formed tree is and what it stores (src/tree/btree.c). */
module Trees {
  import opened Keys
  import opened Pages

  /** All pages by address. */
  type Heap = map<Pid, Page>

  type Entry = (Key, seq<Byte>)

  /** One side of the key interval of a subtree. */
  datatype Bound = Unbounded | At(key: Key)

  predicate Beyond(lo: Bound, k: Key) { lo.At? ==> Precedes(lo.key, k) }

  predicate AtLeast(lo: Bound, k: Key) { lo.At? ==> lo.key == k || Precedes(lo.key, k) }

  predicate Below(k: Key, hi: Bound) { hi.At? ==> Precedes(k, hi.key) }

  function Seps(p: Page): (r: seq<Key>)
    ensures |r| == |p.cells|
  {
    KeysOf(p.cells)
  }

  /** The children from left to right, the rightmost one last. */
  function Kids(p: Page): (r: seq<Pid>)
    ensures |r| == |p.cells| + 1
  {
    seq(|p.cells| + 1, i requires 0 <= i <= |p.cells| => if i < |p.cells| then p.cells[i].child else p.rightmost)
  }

  function EntriesOf(cs: seq<Cell>): (r: seq<Entry>)
    ensures |r| == |cs|
  {
    seq(|cs|, i requires 0 <= i < |cs| => (cs[i].key, cs[i].value))
  }

  /** All (key, value) pairs of the leaves below `pid`, which is `n` levels above them, in order. */
  ghost function Contents(h: Heap, pid: Pid, n: nat): seq<Entry>
    decreases n, 0
  {
    if pid !in h then []
    else if n == 0 then EntriesOf(h[pid].cells)
    else ContentsAll(h, Kids(h[pid]), n - 1)
  }

  ghost function ContentsAll(h: Heap, kids: seq<Pid>, n: nat): seq<Entry>
    decreases n, |kids| + 1
  {
    if kids == [] then [] else Contents(h, kids[0], n) + ContentsAll(h, kids[1..], n)
  }

  /** The pages of a subtree. */
  ghost function Reach(h: Heap, pid: Pid, n: nat): set<Pid>
    decreases n, 0
  {
    if pid in h && n > 0 then {pid} + ReachAll(h, Kids(h[pid]), n - 1) else {pid}
  }

  ghost function ReachAll(h: Heap, kids: seq<Pid>, n: nat): set<Pid>
    decreases n, |kids| + 1
  {
    if kids == [] then {} else Reach(h, kids[0], n) + ReachAll(h, kids[1..], n)
  }

  ghost predicate Stores(es: seq<Entry>, key: Key) {
    exists i :: 0 <= i < |es| && es[i].0 == key
  }

  /** A subtree whose leaves all lie `n` levels down, with every key in its interval, no page used twice,
      and every separator stored in the child to its right. */
  ghost predicate Shape(h: Heap, pid: Pid, n: nat, lo: Bound, hi: Bound)
    decreases n, 0
  {
    && pid in h
    && h[pid].leaf == (n == 0)
    && SortedKeys(Seps(h[pid]))
    && InInterval(Seps(h[pid]), n, lo, hi)
    && (n > 0 ==>
          && pid !in ReachAll(h, Kids(h[pid]), n - 1)
          && KidsShape(h, Kids(h[pid]), Seps(h[pid]), n - 1, lo, hi))
  }

  /** Separators lie strictly inside the interval, stored keys may equal its lower end. */
  ghost predicate InInterval(ks: seq<Key>, n: nat, lo: Bound, hi: Bound) {
    forall i | 0 <= i < |ks| :: (if n == 0 then AtLeast(lo, ks[i]) else Beyond(lo, ks[i])) && Below(ks[i], hi)
  }

  /** Neighbouring subtrees with the separators between them. */
  ghost predicate KidsShape(h: Heap, kids: seq<Pid>, seps: seq<Key>, n: nat, lo: Bound, hi: Bound)
    decreases n, |kids| + 1
  {
    && |kids| == |seps| + 1
    && if seps == [] then Shape(h, kids[0], n, lo, hi)
       else
         && Shape(h, kids[0], n, lo, At(seps[0]))
         && Reach(h, kids[0], n) !! ReachAll(h, kids[1..], n)
         && Stores(Contents(h, kids[1], n), seps[0])
         && KidsShape(h, kids[1..], seps[1..], n, At(seps[0]), hi)
  }

  /** Sorted insertion in front of the first entry that does not come before the key. */
  function Ins(es: seq<Entry>, key: Key, value: seq<Byte>): seq<Entry> {
    if es == [] || !Precedes(es[0].0, key) then [(key, value)] + es else [es[0]] + Ins(es[1..], key, value)
  }

  ghost predicate SortedEntries(es: seq<Entry>) {
    forall i, j | 0 <= i < j < |es| :: Precedes(es[i].0, es[j].0)
  }

  // ----- Sorted insertion -----

  lemma {:induction false} InsAfter(a: seq<Entry>, b: seq<Entry>, key: Key, value: seq<Byte>)
    requires forall i | 0 <= i < |a| :: Precedes(a[i].0, key)
    ensures Ins(a + b, key, value) == a + Ins(b, key, value)
  {
    hide Precedes;
    if a == [] {
      assert a + b == b;
    } else {
      InsAfter(a[1..], b, key, value);
      assert (a + b)[1..] == a[1..] + b;
    }
  }

  lemma {:induction false} InsBefore(a: seq<Entry>, b: seq<Entry>, key: Key, value: seq<Byte>)
    requires b != [] ==> !Precedes(b[0].0, key)
    ensures Ins(a + b, key, value) == Ins(a, key, value) + b
  {
    hide Precedes;
    if a == [] {
      assert a + b == b;
    } else {
      if Precedes(a[0].0, key) { InsBefore(a[1..], b, key, value); }
      assert (a + b)[1..] == a[1..] + b;
    }
  }

  /** Where sorted insertion puts the pair, and that nothing else changes. */
  lemma {:induction false} InsMeaning(es: seq<Entry>, key: Key, value: seq<Byte>) returns (r: nat)
    ensures r <= |es| && Ins(es, key, value) == es[..r] + [(key, value)] + es[r..]
    ensures forall i | 0 <= i < r :: Precedes(es[i].0, key)
    ensures r < |es| ==> !Precedes(es[r].0, key)
  {
    hide Precedes;
    r := 0;
    if es != [] && Precedes(es[0].0, key) {
      var s := InsMeaning(es[1..], key, value);
      r := s + 1;
      assert es[..r] == [es[0]] + es[1..][..s];
      forall i | 0 <= i < r ensures Precedes(es[i].0, key) {
        assert i > 0 ==> es[i] == es[1..][i - 1];
      }
    }
  }

  /** Sorted insertion keeps strict order exactly when the key is new. */
  lemma InsSorted(es: seq<Entry>, key: Key, value: seq<Byte>)
    requires SortedEntries(es)
    ensures SortedEntries(Ins(es, key, value)) <==> !Stores(es, key)
    ensures Stores(Ins(es, key, value), key)
    ensures forall k :: Stores(es, k) ==> Stores(Ins(es, key, value), k)
  {
    hide Precedes;
    var r := InsMeaning(es, key, value);
    var es' := Ins(es, key, value);
    assert es'[r] == (key, value);
    forall k | Stores(es, k) ensures Stores(es', k) {
      var i :| 0 <= i < |es| && es[i].0 == k;
      assert es'[if i < r then i else i + 1] == es[i];
    }
    if Stores(es, key) {
      var i :| 0 <= i < |es| && es[i].0 == key;
      PrecedesTrichotomy(key, key);
      assert es'[i + 1] == es[i];
    } else {
      forall i | r <= i < |es| ensures Precedes(key, es[i].0) {
        PrecedesTrichotomy(es[r].0, key);
        assert es[r].0 != key;
        if i > r { PrecedesTransitive(key, es[r].0, es[i].0); }
      }
    }
  }
}
