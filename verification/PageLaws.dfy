/** What the page operations guarantee: allocation, tombstone list, splitting, split point. */
module PageLaws {
  import opened Keys
  import opened Pages

  // ----- Allocation -----

  lemma NeedMeaning(keySize: nat, valueSize: nat)
    requires keySize + valueSize + CELL_HEADER + 3 < U32
    ensures CELL_HEADER + keySize + valueSize <= Need(keySize, valueSize) <= CELL_HEADER + keySize + valueSize + 3
    ensures Need(keySize, valueSize) % 4 == 0
  {}

  /** The unsigned free-space subtraction never wraps on a valid page. */
  lemma FreeSpaceExact(p: Page)
    requires Valid(p)
    ensures FreeSpace(p) == p.cellOffset - SlotsEnd(p) <= NODE_SIZE - NODE_HEADER
  {}

  lemma CarveSound(cs: seq<Cell>, ts: seq<Tomb>, floor: int, need: int)
    requires ts != [] && CELL_HEADER <= need <= ts[0].size
    requires TombsWithin(ts, floor) && TombsApart(ts) && CrossApart(cs, ts)
    ensures var ts' := Carve(ts, need);
            && TombsWithin(ts', floor) && TombsApart(ts') && CrossApart(cs, ts')
            && TombsClear(ts', ts[0].off, ts[0].off + need)
            && CellsClear(cs, ts[0].off, ts[0].off + need)
  {
    var ts' := Carve(ts, need);
    var shift := |ts| - |ts'|;
    assert forall i | 1 - shift <= i < |ts'| :: ts'[i] == ts[i + shift];
    assert CellsClear(cs, ts[0].off, ts[0].End());
  }

  /** A nonzero offset starts an extent that overlaps neither the slots nor any live cell nor any
      dead extent that stays on the list, and the dead list stays sound. */
  lemma AllocationSound(p: Page, keySize: nat, valueSize: nat)
    requires Valid(p)
    requires keySize + valueSize + CELL_HEADER + 3 < U32
    ensures var (p', off) := GetFreeOffset(p, keySize, valueSize);
            && Valid(p')
            && p'.cells == p.cells && p'.cellOffset == p.cellOffset
            && (off != 0 <==> FreeSpace(p) >= Need(keySize, valueSize) || HeadFits(p, keySize, valueSize))
            && (off != 0 ==> Unused(p', off, off + Need(keySize, valueSize)))
            && (off != 0 ==> Unused(p', off, off + CELL_HEADER + keySize + valueSize))
  {
    NeedMeaning(keySize, valueSize);
    FreeSpaceExact(p);
    if FreeSpace(p) < Need(keySize, valueSize) && HeadFits(p, keySize, valueSize) {
      CarveSound(p.cells, p.tombs, p.cellOffset, Need(keySize, valueSize));
    }
  }

  /** Nothing that the page holds lies in the last `need` bytes before cell_offset. */
  predicate FreeBelow(p: Page, need: int) {
    CellsClear(p.cells, p.cellOffset - need, p.cellOffset) && TombsClear(p.tombs, p.cellOffset - need, p.cellOffset)
  }

  /** On a page that is merely sound, as reuse leaves it, the reuse branch still hands out unused bytes; the
      free-space branch does so exactly when nothing lies in the bytes before cell_offset. */
  lemma AllocationOnSound(p: Page, keySize: nat, valueSize: nat)
    requires Sound(p) && SlotsEnd(p) <= p.cellOffset <= NODE_SIZE
    requires keySize + valueSize + CELL_HEADER + 3 < U32
    ensures var need := Need(keySize, valueSize);
            var (p', off) := GetFreeOffset(p, keySize, valueSize);
            && Sound(p') && p'.cells == p.cells && p'.cellOffset == p.cellOffset
            && (off != 0 <==> FreeSpace(p) >= need || HeadFits(p, keySize, valueSize))
            && (off != 0 ==> (Unused(p', off, off + need) <==> FreeSpace(p) < need || FreeBelow(p, need)))
  {
    NeedMeaning(keySize, valueSize);
    if FreeSpace(p) < Need(keySize, valueSize) && HeadFits(p, keySize, valueSize) {
      CarveSound(p.cells, p.tombs, SlotsEnd(p), Need(keySize, valueSize));
    }
  }

  /** The allocator tries only the head of the dead list, the fullness test walks all of it. */
  lemma FullAndAllocation(p: Page, keySize: nat, valueSize: nat)
    requires Valid(p)
    requires keySize + valueSize + CELL_HEADER + 3 < U32
    ensures var (_, off) := GetFreeOffset(p, keySize, valueSize);
            && (off != 0 ==> !IsFull(p, keySize, valueSize))
            && (|p.tombs| <= 1 ==> (off != 0 <==> !IsFull(p, keySize, valueSize)))
            && (off == 0 && !IsFull(p, keySize, valueSize) <==>
                && FreeSpace(p) < Need(keySize, valueSize) && !HeadFits(p, keySize, valueSize)
                && exists i :: 0 < i < |p.tombs| && p.tombs[i].size >= Need(keySize, valueSize))
  {
    AllocationSound(p, keySize, valueSize);
    if HeadFits(p, keySize, valueSize) { assert p.tombs[0] in p.tombs; }
  }

  /** What the room test compares, in numbers: n bytes of key and value fit neither below cell_offset nor in
      any dead extent. */
  ghost predicate NoRoom(p: Page, n: nat) {
    var rounded := (n + 16 + 3) / 4 * 4;
    p.cellOffset - (56 + 4 * |p.cells|) < rounded && forall t | t in p.tombs :: t.size < rounded
  }

  /** An allocation of n bytes of key and value, in numbers: free space below cell_offset, else the front of the
      first dead extent, whose rest stays on the list if it is longer than a cell header, else nothing. */
  ghost predicate Allocates(p: Page, n: nat, p': Page, off: int) {
    var rounded := (n + 16 + 3) / 4 * 4;
    if p.cellOffset - (56 + 4 * |p.cells|) >= rounded then p' == p && off == p.cellOffset - rounded
    else if p.tombs == [] || p.tombs[0].size < rounded then p' == p && off == 0
    else
      var t := p.tombs[0];
      && off == t.off
      && p' == p.(tombs := p'.tombs, tombBytes := (p.tombBytes - rounded) % 0x1_0000_0000)
      && p'.tombs == (if t.size > rounded + 16 then [Tomb(t.off + rounded, t.size - rounded - 16)] else []) + p.tombs[1..]
  }

  lemma AllocationMeaning(p: Page, keySize: nat, valueSize: nat)
    requires Valid(p) && keySize + valueSize + CELL_HEADER + 3 < U32
    ensures var (p', off) := GetFreeOffset(p, keySize, valueSize); Allocates(p, keySize + valueSize, p', off)
  {
    FreeSpaceExact(p);
    assert Need(keySize, valueSize) == (keySize + valueSize + 16 + 3) / 4 * 4;
  }

  lemma FullMeaning(p: Page, keySize: nat, valueSize: nat)
    requires Valid(p) && keySize + valueSize + CELL_HEADER + 3 < U32
    ensures IsFull(p, keySize, valueSize) <==> NoRoom(p, keySize + valueSize)
  {
    FreeSpaceExact(p);
  }

  // ----- Inserting -----

  lemma InsertApart(cs: seq<Cell>, ts: seq<Tomb>, idx: nat, c: Cell)
    requires idx <= |cs|
    requires CellsApart(cs) && CrossApart(cs, ts) && CellsClear(cs, c.off, c.End()) && TombsClear(ts, c.off, c.End())
    ensures CellsApart(InsertAt(cs, idx, c)) && CrossApart(InsertAt(cs, idx, c), ts)
  {}

  lemma InsertWithin(cs: seq<Cell>, idx: nat, c: Cell, floor: int)
    requires idx <= |cs|
    ensures CellsWithin(InsertAt(cs, idx, c), floor) <==> CellsWithin(cs, floor) && floor <= c.off && c.End() <= NODE_SIZE
  {
    var r := InsertAt(cs, idx, c);
    if CellsWithin(r, floor) {
      assert r[idx] == c;
      forall i | 0 <= i < |cs| ensures floor <= cs[i].off && cs[i].End() <= NODE_SIZE {
        if i < idx { assert r[i] == cs[i]; } else { assert r[i + 1] == cs[i]; }
      }
    }
  }

  /** A cell put at an unused extent keeps the page sound exactly when its new slot has room. */
  lemma InsertSound(p: Page, idx: nat, c: Cell)
    requires Sound(p) && idx <= |p.cells|
    requires Unused(p, c.off, c.End())
    ensures Sound(InsertCell(p, idx, c)) <==> Within(p, SlotsEnd(p) + SLOT) && SlotsEnd(p) + SLOT <= c.off
  {
    InsertApart(p.cells, p.tombs, idx, c);
    InsertWithin(p.cells, idx, c, SlotsEnd(p) + SLOT);
  }

  /** Which allocations keep cell_offset below everything: the free-space branch exactly when it has
      four bytes to spare for the slot, the reuse branch exactly when the reused extent is the lowest. */
  predicate KeepsValid(p: Page, keySize: nat, valueSize: nat) {
    var (p', off) := GetFreeOffset(p, keySize, valueSize);
    if FreeSpace(p) >= Need(keySize, valueSize) then FreeSpace(p) >= Need(keySize, valueSize) + SLOT
    else off >= SlotsEnd(p) + SLOT && Within(p', off)
  }

  /** An extent can be allocated and the slot array can grow by one slot. */
  predicate HasRoom(p: Page, keySize: nat, valueSize: nat) {
    if FreeSpace(p) >= Need(keySize, valueSize) then FreeSpace(p) >= Need(keySize, valueSize) + SLOT
    else HeadFits(p, keySize, valueSize) && FreeSpace(p) >= SLOT
  }

  // ----- What the callers of a page owe it -----

  /** A page and an empty one of its kind, about to be split at q. */
  predicate CanSplit(p: Page, into: Page, q: nat) {
    Valid(p) && q < |p.cells| && into == EmptyPage(p.leaf, into.root)
  }

  /** A leaf about to receive a pair. */
  predicate TakesPair(p: Page, key: Key, value: seq<Byte>) {
    && Valid(p) && p.leaf && SortedKeys(KeysOf(p.cells))
    && |key| < KEY_LIMIT && |key| + |value| + CELL_HEADER + 3 < U32 && HasRoom(p, |key|, |value|)
  }

  /** An internal page about to receive a separator. */
  predicate TakesSep(p: Page, sep: Key, child: Pid, newPid: Pid) {
    && Valid(p) && !p.leaf && SortedKeys(KeysOf(p.cells))
    && |sep| < NODE_SIZE && HasRoom(p, |sep|, 0) && child < U64 && newPid < U64
  }

  /** A separator that an empty page can take. */
  predicate FitsRoot(sep: Key, left: Pid, right: Pid) {
    |sep| <= NODE_SIZE - NODE_HEADER - SLOT - CELL_HEADER && left < U64 && right < U64
  }

  lemma InsertValid(p: Page, idx: nat, key: Key, value: seq<Byte>, child: Pid)
    requires Valid(p) && idx <= |p.cells|
    requires |key| + |value| + CELL_HEADER + 3 < U32
    requires GetFreeOffset(p, |key|, |value|).1 != 0
    ensures var (p', off) := GetFreeOffset(p, |key|, |value|);
            && (Valid(InsertCell(p', idx, Cell(off, key, value, child))) <==> KeepsValid(p, |key|, |value|))
            && (HasRoom(p, |key|, |value|) ==> Sound(InsertCell(p', idx, Cell(off, key, value, child))))
  {
    AllocationSound(p, |key|, |value|);
    FreeSpaceExact(p);
    NeedMeaning(|key|, |value|);
    var (p', off) := GetFreeOffset(p, |key|, |value|);
    var c := Cell(off, key, value, child);
    InsertSound(p', idx, c);
    InsertWithin(p'.cells, idx, c, off);
  }

  lemma RootPageValid(sep: Key, left: Pid, right: Pid)
    requires |sep| <= NODE_SIZE - NODE_HEADER - SLOT - CELL_HEADER
    ensures Valid(RootPage(sep, left, right))
  {
    RootHasRoom(sep);
    InsertValid(EmptyPage(false, true), 0, sep, [], left);
  }

  lemma RootHasRoom(sep: Key)
    requires |sep| <= NODE_SIZE - NODE_HEADER - SLOT - CELL_HEADER
    ensures var p := EmptyPage(false, true); Valid(p) && HasRoom(p, |sep|, 0) && KeepsValid(p, |sep|, 0)
  {
    NeedMeaning(|sep|, 0);
    FreeSpaceExact(EmptyPage(false, true));
  }

  // ----- Redirecting a child -----

  /** The pages hold their cells and dead extents at the same places. */
  ghost predicate SamePlaces(cs: seq<Cell>, cs': seq<Cell>) {
    |cs'| == |cs| && forall i | 0 <= i < |cs| :: cs'[i].off == cs[i].off && cs'[i].Size() == cs[i].Size()
  }

  lemma PlacesDecide(cs: seq<Cell>, cs': seq<Cell>, ts: seq<Tomb>, floor: int)
    requires SamePlaces(cs, cs')
    ensures CellsWithin(cs, floor) ==> CellsWithin(cs', floor)
    ensures CellsApart(cs) ==> CellsApart(cs')
    ensures CrossApart(cs, ts) ==> CrossApart(cs', ts)
  {
    if CrossApart(cs, ts) {
      forall j | 0 <= j < |ts| ensures CellsClear(cs', ts[j].off, ts[j].End()) {
        assert CellsClear(cs, ts[j].off, ts[j].End());
      }
    }
  }

  lemma SetChildPlaces(p: Page, idx: nat, pid: Pid)
    requires idx <= |p.cells|
    ensures var p' := SetChild(p, idx, pid);
            && SamePlaces(p.cells, p'.cells) && SamePlaces(p'.cells, p.cells)
            && p'.tombs == p.tombs && p'.cellOffset == p.cellOffset && p'.tombBytes == p.tombBytes
  {}

  lemma SetChildValid(p: Page, idx: nat, pid: Pid, keySize: nat)
    requires Valid(p) && idx <= |p.cells|
    ensures var p' := SetChild(p, idx, pid);
            && Valid(p')
            && (HasRoom(p', keySize, 0) <==> HasRoom(p, keySize, 0))
            && (KeepsValid(p', keySize, 0) <==> KeepsValid(p, keySize, 0))
  {
    hide Need, Carve, SetChild, SamePlaces, CellsWithin, CellsApart, CrossApart;
    var p' := SetChild(p, idx, pid);
    SetChildPlaces(p, idx, pid);
    SetChildCount(p, idx, pid);
    PlacesDecide(p.cells, p'.cells, p.tombs, SlotsEnd(p));
    PlacesDecide(p.cells, p'.cells, p.tombs, p.cellOffset);
    var off := GetFreeOffset(p, keySize, 0).1;
    PlacesDecide(p.cells, p'.cells, p.tombs, off);
    PlacesDecide(p'.cells, p.cells, p.tombs, off);
  }

  lemma SetChildCount(p: Page, idx: nat, pid: Pid)
    requires idx <= |p.cells|
    ensures |SetChild(p, idx, pid).cells| == |p.cells|
  {}

  // ----- Sums of extents -----

  function SumTombs(ts: seq<Tomb>): int {
    if ts == [] then 0 else ts[0].size + SumTombs(ts[1..])
  }

  ghost function Range(a: int, b: int): (s: set<int>)
    ensures forall x :: x in s <==> a <= x < b
    ensures |s| == if a < b then b - a else 0
    decreases b - a
  {
    if a < b then Range(a, b - 1) + {b - 1} else {}
  }

  lemma {:induction false} SubsetCard<T>(s: set<T>, t: set<T>)
    requires s <= t
    ensures |s| <= |t|
    decreases s
  {
    if s != {} {
      var x :| x in s;
      SubsetCard(s - {x}, t - {x});
    }
  }

  /** The bytes of pairwise disjoint extents: as many as their sizes add up to. */
  lemma {:induction false} Covered(ts: seq<Tomb>, lo: int, hi: int) returns (s: set<int>)
    requires forall i | 0 <= i < |ts| :: lo <= ts[i].off && 0 < ts[i].size && ts[i].End() <= hi
    requires TombsApart(ts)
    ensures |s| == SumTombs(ts) && s <= Range(lo, hi)
    ensures forall x | x in s :: exists i :: 0 <= i < |ts| && ts[i].off <= x < ts[i].End()
  {
    s := {};
    if ts != [] {
      var t := ts[0];
      var s' := Covered(ts[1..], lo, hi);
      var r := Range(t.off, t.off + t.size);
      assert s' !! r;
      s := s' + r;
    }
  }

  lemma PackedSum(ts: seq<Tomb>, lo: int, hi: int)
    requires forall i | 0 <= i < |ts| :: lo <= ts[i].off && 0 < ts[i].size && ts[i].End() <= hi
    requires TombsApart(ts) && lo <= hi
    ensures SumTombs(ts) <= hi - lo
  {
    var s := Covered(ts, lo, hi);
    SubsetCard(s, Range(lo, hi));
  }

  lemma {:induction false} BytesAppend(a: seq<Cell>, b: seq<Cell>)
    ensures Bytes(a + b) == Bytes(a) + Bytes(b)
  {
    if b == [] {
      assert a + b == a;
    } else {
      BytesAppend(a, b[..|b| - 1]);
      assert (a + b)[..|a + b| - 1] == a + b[..|b| - 1];
    }
  }

  function Extents(cs: seq<Cell>): (ts: seq<Tomb>)
    ensures |ts| == |cs|
  {
    seq(|cs|, i requires 0 <= i < |cs| => Tomb(cs[i].off, cs[i].Size()))
  }

  lemma {:induction false} ExtentsSum(cs: seq<Cell>)
    ensures SumTombs(Extents(cs)) == Bytes(cs)
  {
    if cs != [] {
      ExtentsSum(cs[1..]);
      assert Extents(cs)[1..] == Extents(cs[1..]);
      assert cs == [cs[0]] + cs[1..];
      BytesAppend([cs[0]], cs[1..]);
    }
  }

  /** The live cells of a valid page take no more bytes than lie above cell_offset. */
  lemma CellsFit(p: Page)
    requires Valid(p)
    ensures Bytes(p.cells) <= NODE_SIZE - p.cellOffset
  {
    ExtentsSum(p.cells);
    PackedSum(Extents(p.cells), p.cellOffset, NODE_SIZE);
  }

  // ----- The tombstone list -----

  /** tombstone_bytes is the sum of the dead sizes. */
  predicate TombBytesExact(p: Page) { p.tombBytes == SumTombs(p.tombs) }

  /** The dead list visits different, nonzero offsets, so a walk along it ends. */
  lemma TombsDistinct(p: Page, i: nat, j: nat)
    requires Sound(p) && i < j < |p.tombs|
    ensures 0 < p.tombs[i].off != p.tombs[j].off
  {}

  /** What the soundness of a page says about one of its cells. */
  lemma LiveCell(p: Page, at: nat)
    requires Sound(p) && at < |p.cells|
    ensures NODE_HEADER <= p.cells[at].off && p.cells[at].End() <= NODE_SIZE
    ensures TombsClear(p.tombs, p.cells[at].off, p.cells[at].End())
    ensures CellsApart(p.cells)
  {}

  lemma SlotsClear(p: Page, at: nat)
    requires Sound(p) && at < |p.cells|
    ensures SlotsEnd(p) <= p.cells[at].off
    ensures CellsClear(RemoveAt(p.cells, at), NODE_HEADER, SlotsEnd(p))
    ensures TombsClear(Bury(p, p.cells[at]).tombs, NODE_HEADER, SlotsEnd(p))
  {}

  lemma RemoveApart(cs: seq<Cell>, ts: seq<Tomb>, idx: nat)
    requires idx < |cs|
    requires CellsApart(cs) && TombsApart(ts) && CrossApart(cs, ts)
    ensures var t := Tomb(cs[idx].off, cs[idx].Size());
            CellsApart(RemoveAt(cs, idx)) && TombsApart([t] + ts) && CrossApart(RemoveAt(cs, idx), [t] + ts)
  {}

  /** Deleting a cell turns its extent into the newest dead one. */
  lemma DeleteValid(p: Page, idx: nat)
    requires Sound(p) && idx < |p.cells|
    ensures Sound(DeleteCell(p, idx))
    ensures Valid(p) ==> Valid(DeleteCell(p, idx))
    ensures TombBytesExact(p) ==> TombBytesExact(DeleteCell(p, idx))
  {
    RemoveApart(p.cells, p.tombs, idx);
    DeleteSum(p, idx);
  }

  /** What a deletion leaves: the other cells in their order, sorted, without the key; the extent of the cell at
      the head of the dead list; nothing else changed. */
  ghost predicate Deleted(p: Page, p': Page, r: nat)
    requires r < |p.cells|
  {
    var c := p.cells[r];
    && p'.cells == p.cells[..r] + p.cells[r + 1..]
    && p'.tombs == [Tomb(c.off, 16 + |c.key| + |c.value|)] + p.tombs
    && p'.tombBytes == (p.tombBytes + 16 + |c.key| + |c.value|) % 0x1_0000_0000
    && p'.leaf == p.leaf && p'.root == p.root && p'.rightmost == p.rightmost && p'.cellOffset == p.cellOffset
  }

  lemma DeletedMeaning(p: Page, r: nat)
    requires SortedKeys(KeysOf(p.cells)) && r < |p.cells|
    ensures var p' := DeleteCell(p, r);
            Deleted(p, p', r) && SortedKeys(KeysOf(p'.cells)) && p.cells[r].key !in KeysOf(p'.cells)
    ensures forall k | 0 <= k < |p.cells| && p.cells[k].key == p.cells[r].key :: k == r
  {
    hide SortedKeys;
    var ks, ks' := KeysOf(p.cells), KeysOf(DeleteCell(p, r).cells);
    assert ks' == RemoveAt(ks, r) && ks[r] == p.cells[r].key;
    KeyRemoved(ks, r);
    forall k | 0 <= k < |p.cells| && p.cells[k].key == p.cells[r].key ensures k == r { assert ks[k] == ks[r]; }
  }

  lemma KeyRemoved(ks: seq<Key>, r: nat)
    requires SortedKeys(ks) && r < |ks|
    ensures SortedKeys(RemoveAt(ks, r)) && ks[r] !in RemoveAt(ks, r)
    ensures forall k | 0 <= k < |ks| && ks[k] == ks[r] :: k == r
  {
    hide Precedes;
    PrecedesTrichotomy(ks[r], ks[r]);
    forall k | 0 <= k < |ks| && k != r ensures ks[k] != ks[r] {
      assert Precedes(ks[k], ks[r]) || Precedes(ks[r], ks[k]);
    }
  }

  lemma DeleteSum(p: Page, idx: nat)
    requires idx < |p.cells| && p.cells[idx].Size() <= NODE_SIZE
    requires TombsApart(p.tombs) && TombsWithin(p.tombs, 0)
    ensures TombBytesExact(p) ==> TombBytesExact(DeleteCell(p, idx))
  {
    var c := p.cells[idx];
    assert ([Tomb(c.off, c.Size())] + p.tombs)[1..] == p.tombs;
    PackedSum(p.tombs, 0, NODE_SIZE);
    SumTombsNonneg(p.tombs);
  }

  lemma {:induction false} SumTombsNonneg(ts: seq<Tomb>)
    requires forall i | 0 <= i < |ts| :: 0 < ts[i].size
    ensures SumTombs(ts) >= 0
  {
    if ts != [] { SumTombsNonneg(ts[1..]); }
  }

  /** Reuse keeps tombstone_bytes equal to the sum exactly when the extent is used up without a remainder. */
  lemma ReuseTombBytes(p: Page, keySize: nat, valueSize: nat)
    requires Valid(p) && TombBytesExact(p)
    requires keySize + valueSize + CELL_HEADER + 3 < U32
    requires FreeSpace(p) < Need(keySize, valueSize) && HeadFits(p, keySize, valueSize)
    ensures TombBytesExact(GetFreeOffset(p, keySize, valueSize).0) <==> p.tombs[0].size == Need(keySize, valueSize)
  {
    PackedSum(p.tombs, 0, NODE_SIZE);
    CarveSum(p.tombs, Need(keySize, valueSize));
    SumTombsNonneg(p.tombs);
    SumTombsNonneg(p.tombs[1..]);
  }

  lemma CarveSum(ts: seq<Tomb>, need: int)
    requires ts != []
    ensures var lost := ts[0].size - need;
            SumTombs(Carve(ts, need)) == SumTombs(ts) - need - if lost > CELL_HEADER then CELL_HEADER else lost
  {
    var rest := [Tomb(ts[0].off + need, ts[0].size - need - CELL_HEADER)] + ts[1..];
    assert rest[1..] == ts[1..];
  }

  // ----- Splitting -----

  /** Burying the cells of a suffix one by one keeps the page valid at every step. */
  lemma {:induction false} BuryAllValid(p: Page, keep: seq<Cell>, cs: seq<Cell>)
    requires Valid(p.(cells := keep + cs))
    ensures Valid(BuryAll(p, cs).(cells := keep))
    ensures TombBytesExact(p) ==> TombBytesExact(BuryAll(p, cs))
    decreases |cs|
  {
    if cs == [] {
      assert keep + cs == keep;
    } else {
      var whole := p.(cells := keep + cs);
      DeleteValid(whole, |keep|);
      assert RemoveAt(keep + cs, |keep|) == keep + cs[1..];
      assert DeleteCell(whole, |keep|) == Bury(p, cs[0]).(cells := keep + cs[1..]);
      BuryAllValid(Bury(p, cs[0]), keep, cs[1..]);
    }
  }

  /** The buried cells are exactly the new dead extents, newest first, in front of the old list. */
  lemma {:induction false} BuryAllTombs(p: Page, cs: seq<Cell>)
    ensures var p' := BuryAll(p, cs);
            && p' == p.(tombs := p'.tombs, tombBytes := p'.tombBytes)
            && |p'.tombs| == |cs| + |p.tombs|
            && (forall i | 0 <= i < |cs| :: p'.tombs[i] == Tomb(cs[|cs| - 1 - i].off, cs[|cs| - 1 - i].Size()))
            && p'.tombs[|cs|..] == p.tombs
    decreases |cs|
  {
    if cs != [] {
      var p1 := Bury(p, cs[0]);
      BuryAllTombs(p1, cs[1..]);
      assert BuryAll(p, cs).tombs[|cs| - 1..] == p1.tombs;
      assert BuryAll(p, cs).tombs[|cs|..] == p1.tombs[1..];
      assert BuryAll(p, cs).tombs[|cs| - 1] == p1.tombs[0];
    }
  }

  lemma {:induction false} SpreadMeaning(cs: seq<Cell>, top: int)
    ensures var r := Spread(cs, top);
            && CellsApart(r)
            && forall i | 0 <= i < |cs| :: r[i] == cs[i].(off := r[i].off) && top - Bytes(cs) <= r[i].off && r[i].End() <= top
  {
    if cs != [] {
      SpreadMeaning(cs[..|cs| - 1], top);
    }
  }

  /** A cell without its position. */
  function Bare(c: Cell): (Key, seq<Byte>, Pid) { (c.key, c.value, c.child) }

  function Bares(cs: seq<Cell>): (r: seq<(Key, seq<Byte>, Pid)>)
    ensures |r| == |cs|
  {
    seq(|cs|, i requires 0 <= i < |cs| => Bare(cs[i]))
  }

  /** The old page of a split keeps the front cells; the others become exactly its newest dead extents,
      although the loop turns them dead one at a time. */
  lemma SplitLeftValid(p: Page, q: nat)
    requires Valid(p) && q < |p.cells|
    ensures var l := SplitLeft(p, q);
            && Valid(l)
            && l == p.(cells := p.cells[..q], tombs := l.tombs, tombBytes := l.tombBytes)
            && |l.tombs| == |p.cells| - q + |p.tombs|
            && l.tombs[|p.cells| - q..] == p.tombs
            && (forall i | 0 <= i < |p.cells| - q ::
                  l.tombs[i] == Tomb(p.cells[|p.cells| - 1 - i].off, p.cells[|p.cells| - 1 - i].Size()))
            && (TombBytesExact(p) ==> TombBytesExact(l))
  {
    var cs := p.cells[q..];
    assert p.cells == p.cells[..q] + cs;
    assert p == p.(cells := p.cells[..q] + cs);
    BuryAllValid(p, p.cells[..q], cs);
    BuryAllTombs(p, cs);
  }

  /** Whatever is moved, the new page of a split has room for it. */
  lemma SplitRightValid(p: Page, q: nat)
    requires Valid(p) && q < |p.cells|
    ensures var r := SplitRight(p, EmptyPage(p.leaf, false), q);
            && Valid(r) && TombBytesExact(r)
            && r == EmptyPage(p.leaf, false).(cells := r.cells, cellOffset := r.cellOffset)
            && r.cellOffset == NODE_SIZE - Bytes(Moved(p, q))
  {
    SpreadMeaning(Moved(p, q), NODE_SIZE);
    MovedFits(p, q);
  }

  lemma MovedFits(p: Page, q: nat)
    requires Valid(p) && q < |p.cells|
    ensures NODE_HEADER + SLOT * |Moved(p, q)| <= NODE_SIZE - Bytes(Moved(p, q))
  {
    var m := Moved(p, q);
    CellsFit(p);
    assert p.cells == p.cells[..|p.cells| - |m|] + m;
    BytesAppend(p.cells[..|p.cells| - |m|], m);
  }

  /** A split loses, repeats and reorders nothing but the partition cell of an internal page. */
  lemma SplitKeepsCells(p: Page, into: Page, q: nat)
    requires q < |p.cells|
    ensures Bares(SplitLeft(p, q).cells) + (if p.leaf then [] else [Bare(p.cells[q])]) + Bares(SplitRight(p, into, q).cells)
         == Bares(p.cells)
  {
    SpreadMeaning(Moved(p, q), into.cellOffset);
  }

  lemma {:induction false} BuryAllAppend(p: Page, cs: seq<Cell>, c: Cell)
    ensures BuryAll(p, cs + [c]) == Bury(BuryAll(p, cs), c)
    decreases |cs|
  {
    if cs == [] {
      assert ([] + [c])[1..] == [];
    } else {
      assert (cs + [c])[1..] == cs[1..] + [c];
      BuryAllAppend(Bury(p, cs[0]), cs[1..], c);
    }
  }

  lemma SpreadNext(cs: seq<Cell>, c: Cell, top: int)
    ensures Spread(cs + [c], top) == Spread(cs, top) + [c.(off := top - Bytes(cs + [c]))]
    ensures Bytes(cs + [c]) == Bytes(cs) + c.Size()
    ensures top <= NODE_SIZE ==> CellsWithin(Spread(cs, top), top - Bytes(cs))
  {
    assert (cs + [c])[..|cs|] == cs;
    SpreadMeaning(cs, top);
  }

  lemma BytesPrefix(cs: seq<Cell>, n: nat)
    requires n <= |cs|
    ensures Bytes(cs[..n]) <= Bytes(cs)
  {
    assert cs == cs[..n] + cs[n..];
    BytesAppend(cs[..n], cs[n..]);
  }

  lemma PrefixOfRest(cs: seq<Cell>, from: nat, k: nat)
    requires from <= k < |cs|
    ensures cs[from..][..k + 1 - from] == cs[from..k + 1] == cs[from..k] + [cs[k]]
  {}

  /** Every moved cell fits below the ones moved before it. */
  lemma MovedRoom(p: Page, q: nat, k: nat)
    requires Valid(p) && q < |p.cells| && |p.cells| - |Moved(p, q)| <= k < |p.cells|
    ensures var from := |p.cells| - |Moved(p, q)|;
            && p.cells[from..k + 1] == p.cells[from..k] + [p.cells[k]]
            && NODE_HEADER + SLOT * (k + 1 - from) <= NODE_SIZE - Bytes(p.cells[from..k] + [p.cells[k]])
  {
    hide Valid, Bytes;
    var m := Moved(p, q);
    var from := |p.cells| - |m|;
    MovedFits(p, q);
    BytesPrefix(m, k + 1 - from);
    assert m == p.cells[from..];
    PrefixOfRest(p.cells, from, k);
  }

  lemma ValidCell(p: Page, k: nat)
    requires Valid(p) && k < |p.cells|
    ensures SlotsEnd(p) <= p.cells[k].off && p.cells[k].End() <= NODE_SIZE
  {}

  lemma RemoveMiddle(cs: seq<Cell>, q: nat, k: nat)
    requires q <= k < |cs|
    ensures RemoveAt(cs[..q] + cs[k..], q) == cs[..q] + cs[k + 1..]
  {}
}
