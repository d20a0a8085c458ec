/** What btree_insert makes of the pages, level by level, and that this is sorted insertion
    whenever no internal page has to split (src/tree/btree.c). */
module TreeInsert {
  import opened Keys
  import opened Pages
  import opened PageLaws
  import opened Trees

  // ----- The path and the plan -----

  /** The pages visited on the way down to the leaf. */
  function PathOf(h: Heap, pid: Pid, n: nat, key: Key): (path: seq<Pid>)
    ensures path != [] && path[0] == pid
    decreases n
  {
    if n == 0 || pid !in h then [pid]
    else [pid] + PathOf(h, Kids(h[pid])[Rank(Seps(h[pid]), key)], n - 1, key)
  }

  /** Whether the descent meets the key as a separator. */
  predicate OnSeparator(h: Heap, pid: Pid, n: nat, key: Key)
    decreases n
  {
    n > 0 && pid in h && (key in Seps(h[pid]) || OnSeparator(h, Kids(h[pid])[Rank(Seps(h[pid]), key)], n - 1, key))
  }

  /** The decision for one page of the path: whether it splits, where, into which new page, around which key. */
  datatype Plan = Plan(full: bool, q: nat, newPid: Pid, sep: Key, next: Pid)

  function MakePlan(p: Page, full: bool, next: Pid): Plan {
    var q := PartitionIdx(p.cells);
    if full then Plan(true, q, next, if q < |p.cells| then p.cells[q].key else [], next + 1)
    else Plan(false, q, 0, [], next)
  }

  predicate AllIn(h: Heap, path: seq<Pid>) { forall i | 0 <= i < |path| :: path[i] in h }

  /** Only the last page of the path is a leaf. */
  ghost predicate LeafLast(h: Heap, path: seq<Pid>) {
    AllIn(h, path) && forall i | 0 <= i < |path| :: h[path[i]].leaf == (i == |path| - 1)
  }

  ghost predicate Distinct(path: seq<Pid>) { forall i, j | 0 <= i < j < |path| :: path[i] != path[j] }

  /** The plan of the first page of the path, made after the plans of the pages below it. */
  function PlanOf(h: Heap, path: seq<Pid>, key: Key, value: seq<Byte>, next: Pid): Plan
    requires path != [] && AllIn(h, path)
    decreases |path|
  {
    var p := h[path[0]];
    if |path| == 1 then MakePlan(p, IsFull(p, |key|, |value|), next)
    else
      var c := PlanOf(h, path[1..], key, value, next);
      MakePlan(p, c.full && IsFull(p, |c.sep|, 0), c.next)
  }

  /** Every page that splits has its partition cell inside, with a cell left for the new page. */
  predicate Splittable(h: Heap, path: seq<Pid>, key: Key, value: seq<Byte>, next: Pid)
    requires path != [] && AllIn(h, path)
    decreases |path|
  {
    var plan := PlanOf(h, path, key, value, next);
    && (plan.full ==> plan.q + (if |path| == 1 then 0 else 1) < |h[path[0]].cells|)
    && (|path| > 1 ==> Splittable(h, path[1..], key, value, next))
  }

  lemma SplitBelow(h: Heap, path: seq<Pid>, key: Key, value: seq<Byte>, next: Pid)
    requires |path| > 1 && AllIn(h, path) && Splittable(h, path, key, value, next)
    ensures Splittable(h, path[1..], key, value, next)
  {}

  lemma PlanSep(h: Heap, path: seq<Pid>, key: Key, value: seq<Byte>, next: Pid)
    requires path != [] && AllIn(h, path) && Splittable(h, path, key, value, next)
    ensures var plan, p := PlanOf(h, path, key, value, next), h[path[0]];
            plan.full ==> plan.q < |p.cells| && plan.sep == p.cells[plan.q].key
  {
    hide PartitionIdx, IsFull;
  }

  // ----- The pages afterwards -----

  /** Both halves of a page that splits, before anything is added. */
  function Halves(p: Page, q: nat): (Page, Page)
    requires q < |p.cells|
  {
    (SplitLeft(p, q), SplitRight(p, EmptyPage(p.leaf, false), q))
  }

  /** The first page of the path afterwards, and the page split off it. */
  function NewPages(h: Heap, path: seq<Pid>, key: Key, value: seq<Byte>, next: Pid): (Page, Page)
    requires path != [] && AllIn(h, path) && Splittable(h, path, key, value, next)
  {
    var p := h[path[0]];
    var plan := PlanOf(h, path, key, value, next);
    if |path| == 1 then
      if !plan.full then (PutLeaf(p, key, value), p)
      else
        var (l, r) := Halves(p, plan.q);
        if Precedes(plan.sep, key) then (l, PutLeaf(r, key, value)) else (PutLeaf(l, key, value), r)
    else
      var c := PlanOf(h, path[1..], key, value, next);
      if !c.full then (p, p)
      else if !plan.full then (AddSep(p, c.sep, path[1], c.newPid), p)
      else
        var (l, r) := Halves(p, plan.q);
        if Precedes(plan.sep, c.sep) then (l, AddSep(r, c.sep, path[1], c.newPid))
        else (AddSep(l, c.sep, path[1], c.newPid), r)
  }

  /** All pages afterwards. Each level changes its own page and adds the page split off it. */
  function ApplyPath(h: Heap, path: seq<Pid>, key: Key, value: seq<Byte>, next: Pid): Heap
    requires path != [] && AllIn(h, path) && Splittable(h, path, key, value, next)
    decreases |path|
  {
    var plan := PlanOf(h, path, key, value, next);
    var (l, r) := NewPages(h, path, key, value, next);
    var below := if |path| == 1 then h else ApplyPath(h, path[1..], key, value, next);
    if plan.full then below[path[0] := l][plan.newPid := r] else below[path[0] := l]
  }

  /** Some internal page of the path splits. */
  predicate SplitsInternal(h: Heap, path: seq<Pid>, key: Key, value: seq<Byte>, next: Pid)
    requires path != [] && AllIn(h, path)
    decreases |path|
  {
    |path| > 1 && (PlanOf(h, path, key, value, next).full || SplitsInternal(h, path[1..], key, value, next))
  }

  // ----- Pages gaining a key -----

  lemma EntriesInsert(cs: seq<Cell>, c: Cell)
    ensures EntriesOf(InsertAt(cs, Rank(KeysOf(cs), c.key), c)) == Ins(EntriesOf(cs), c.key, c.value)
  {
    hide Precedes;
    var ks, r := KeysOf(cs), Rank(KeysOf(cs), c.key);
    var i := InsMeaning(EntriesOf(cs), c.key, c.value);
    assert forall j | 0 <= j < |cs| :: EntriesOf(cs)[j].0 == ks[j];
    assert r == i;
  }

  /** A strictly sorted page stays so exactly when the key is new to it. */
  lemma SepsInsert(ks: seq<Key>, key: Key)
    requires SortedKeys(ks)
    ensures key !in ks ==> SortedKeys(InsertAt(ks, Rank(ks, key), key))
  {
    hide Precedes;
    if key !in ks {
      forall i | Rank(ks, key) <= i < |ks| ensures Precedes(key, ks[i]) {
        RankMeaning(ks, key, i);
      }
    }
  }

  lemma FreeOffsetKeeps(p: Page, keySize: nat, valueSize: nat)
    ensures var p' := GetFreeOffset(p, keySize, valueSize).0;
            p' == p.(tombs := p'.tombs, tombBytes := p'.tombBytes)
  {
    hide Need, FreeSpace, Carve;
  }

  lemma KeysInsert(cs: seq<Cell>, idx: nat, c: Cell)
    requires idx <= |cs|
    ensures KeysOf(InsertAt(cs, idx, c)) == InsertAt(KeysOf(cs), idx, c.key)
  {}

  lemma PutLeafMeaning(p: Page, key: Key, value: seq<Byte>)
    ensures var p' := PutLeaf(p, key, value);
            && EntriesOf(p'.cells) == Ins(EntriesOf(p.cells), key, value)
            && Seps(p') == InsertAt(Seps(p), Rank(Seps(p), key), key)
            && p'.leaf == p.leaf && p'.rightmost == p.rightmost
  {
    hide Precedes, GetFreeOffset, Rank, InsertAt, KeysOf, EntriesOf, Ins;
    FreeOffsetKeeps(p, |key|, |value|);
    var c := Cell(GetFreeOffset(p, |key|, |value|).1, key, value, 0);
    EntriesInsert(p.cells, c);
    KeysInsert(p.cells, Rank(KeysOf(p.cells), key), c);
  }

  /** The children around a separator that enters at position idx. */
  lemma KidsInsert(p: Page, idx: nat, c: Cell, newPid: Pid)
    requires idx <= |p.cells|
    ensures var q := SetChild(p, idx, newPid);
            && KeysOf(q.cells) == KeysOf(p.cells)
            && Kids(q.(cells := InsertAt(q.cells, idx, c))) == Kids(p)[..idx] + [c.child, newPid] + Kids(p)[idx + 1..]
  {}

  lemma AddSepMeaning(p: Page, sep: Key, child: Pid, newPid: Pid)
    ensures var p' := AddSep(p, sep, child, newPid);
            var r := Rank(Seps(p), sep);
            && Seps(p') == InsertAt(Seps(p), r, sep)
            && Kids(p') == Kids(p)[..r] + [child, newPid] + Kids(p)[r + 1..]
            && p'.leaf == p.leaf
            && p'.rightmost == if r == |p.cells| then newPid else p.rightmost
  {
    hide Precedes, GetFreeOffset, Rank, InsertAt, KeysOf;
    var idx := Rank(KeysOf(p.cells), sep);
    var q := SetChild(p, idx, newPid);
    FreeOffsetKeeps(q, |sep|, 0);
    var c := Cell(GetFreeOffset(q, |sep|, 0).1, sep, [], child);
    KidsInsert(p, idx, c, newPid);
    KeysInsert(q.cells, idx, c);
    var p' := AddSep(p, sep, child, newPid);
    KidsOnly(p', q.(cells := InsertAt(q.cells, idx, c)));
  }

  lemma KidsOnly(p: Page, q: Page)
    requires p.cells == q.cells && p.rightmost == q.rightmost
    ensures Kids(p) == Kids(q)
  {}

  lemma HalvesMeaning(p: Page, q: nat)
    requires q < |p.cells|
    ensures var (l, r) := Halves(p, q);
            && l.leaf == r.leaf == p.leaf && l.rightmost == p.rightmost && r.rightmost == 0
            && l.cells == p.cells[..q]
            && Seps(r) == KeysOf(Moved(p, q))
            && EntriesOf(r.cells) == EntriesOf(Moved(p, q))
            && Kids(r) == Kids(EmptyPage(p.leaf, false).(cells := Moved(p, q)))
  {
    hide Bytes;
    BuryAllTombs(p, p.cells[q..]);
    SpreadMeaning(Moved(p, q), NODE_SIZE);
  }
}
