/** Pages over whole runs of operations, and where a full page is split. */
module PageRuns {
  import opened Keys
  import opened Pages
  import opened PageLaws

  // ----- The split point -----

  /** `q` is the least prefix length that reaches half a page, or all cells when none does. */
  predicate IsPartition(cs: seq<Cell>, q: nat) {
    && q <= |cs|
    && (forall i | 0 <= i < q :: Bytes(cs[..i]) < HALF)
    && (q < |cs| ==> Bytes(cs[..q]) >= HALF)
  }

  lemma {:induction false} PartitionMeaning(cs: seq<Cell>)
    ensures IsPartition(cs, PartitionIdx(cs))
  {
    if cs != [] {
      var front := cs[..|cs| - 1];
      PartitionMeaning(front);
      forall i | 0 <= i < PartitionIdx(cs) ensures Bytes(cs[..i]) < HALF {
        assert cs[..i] == front[..i];
        if i == |front| { assert front[..i] == front; }
      }
      var q := PartitionIdx(front);
      if q == PartitionIdx(cs) {
        assert cs[..q] == front[..q];
        if q == |front| { assert front[..q] == front; }
      }
    }
  }

  /** The left part is never empty and overshoots half a page by less than its last cell. */
  lemma Overshoot(cs: seq<Cell>, q: nat)
    requires cs != [] && IsPartition(cs, q)
    ensures 0 < q && Bytes(cs[..q]) < HALF + cs[q - 1].Size()
  {
    assert cs[..0] == [];
    assert q > 0 ==> cs[..q][..q - 1] == cs[..q - 1];
  }

  lemma PartitionUnique(cs: seq<Cell>, q: nat)
    requires IsPartition(cs, q)
    ensures q == PartitionIdx(cs)
  {
    PartitionMeaning(cs);
  }

  /** The split point is inside the page exactly when all cells but the last reach half a page. */
  lemma PartitionInside(cs: seq<Cell>, k: nat)
    requires k <= |cs|
    ensures PartitionIdx(cs) <= k <==> k == |cs| || Bytes(cs[..k]) >= HALF
  {
    PartitionMeaning(cs);
    var q := PartitionIdx(cs);
    if q <= k < |cs| {
      assert cs[..k] == cs[..q] + cs[q..k];
      BytesAppend(cs[..q], cs[q..k]);
    }
  }

  /** The bytes of cells, counted from the left. */
  function CellBytes(cs: seq<Cell>): nat {
    if cs == [] then 0 else 16 + |cs[0].key| + |cs[0].value| + CellBytes(cs[1..])
  }

  lemma {:induction false} CellBytesSum(cs: seq<Cell>)
    ensures CellBytes(cs) == Bytes(cs)
    decreases |cs|
  {
    if cs != [] {
      CellBytesSum(cs[1..]);
      assert cs == [cs[0]] + cs[1..] && [cs[0]][..0] == [];
      BytesAppend([cs[0]], cs[1..]);
    }
  }

  /** The least prefix of at least 1992 bytes, or all cells when there is none. */
  ghost predicate SplitsAt(cs: seq<Cell>, q: nat) {
    && q <= |cs|
    && (forall i | 0 <= i < q :: CellBytes(cs[..i]) < 1992)
    && (q < |cs| ==> CellBytes(cs[..q]) >= 1992)
  }

  lemma SplitPoint(cs: seq<Cell>)
    ensures SplitsAt(cs, PartitionIdx(cs))
  {
    PartitionMeaning(cs);
    forall i | 0 <= i <= |cs| ensures CellBytes(cs[..i]) == Bytes(cs[..i]) { CellBytesSum(cs[..i]); }
  }

  /** The old page after a split at q: the front cells; the others are its newest dead extents, the last one first. */
  ghost predicate LeftApart(p: Page, q: nat, l: Page)
    requires q <= |p.cells|
  {
    var n := |p.cells|;
    && l == p.(cells := p.cells[..q], tombs := l.tombs, tombBytes := l.tombBytes)
    && |l.tombs| == n - q + |p.tombs| && l.tombs[n - q..] == p.tombs
    && forall j | 0 <= j < n - q ::
         var c := p.cells[n - 1 - j]; l.tombs[j] == Tomb(c.off, 16 + |c.key| + |c.value|)
  }

  /** The new page: copies of the cells from `from` on, in order, each directly below the one before it. */
  ghost predicate RightApart(p: Page, from: nat, r: Page)
    requires from <= |p.cells|
  {
    var n := |p.cells|;
    && r.leaf == p.leaf && r.rightmost == 0 && r.tombs == [] && r.tombBytes == 0
    && |r.cells| == n - from && r.cellOffset == 4096 - CellBytes(p.cells[from..])
    && forall j | 0 <= j < n - from :: r.cells[j] == p.cells[from + j].(off := 4096 - CellBytes(p.cells[from..from + j + 1]))
  }

  lemma {:induction false} SpreadPlaces(cs: seq<Cell>, top: int, j: nat)
    requires j < |cs|
    ensures Spread(cs, top)[j] == cs[j].(off := top - CellBytes(cs[..j + 1]))
    decreases |cs|
  {
    var front := cs[..|cs| - 1];
    if j < |front| {
      SpreadPlaces(front, top, j);
      assert front[..j + 1] == cs[..j + 1];
    } else {
      assert cs[..j + 1] == cs;
      CellBytesSum(cs);
    }
  }

  lemma LeftMeaning(p: Page, q: nat)
    requires q < |p.cells|
    ensures LeftApart(p, q, SplitLeft(p, q))
  {
    BuryAllTombs(p, p.cells[q..]);
  }

  lemma RightMeaning(p: Page, root: bool, q: nat)
    requires q < |p.cells|
    ensures RightApart(p, if p.leaf then q else q + 1, SplitRight(p, EmptyPage(p.leaf, root), q))
  {
    hide Spread, Bytes, CellBytes;
    var from := if p.leaf then q else q + 1;
    var m := p.cells[from..];
    CellBytesSum(m);
    forall j | 0 <= j < |m| ensures Spread(m, 4096)[j] == p.cells[from + j].(off := 4096 - CellBytes(p.cells[from..from + j + 1])) {
      SpreadPlaces(m, 4096, j);
      assert m[..j + 1] == p.cells[from..from + j + 1];
    }
  }

  lemma SplitMeaning(p: Page, into: Page, q: nat)
    requires CanSplit(p, into, q)
    ensures LeftApart(p, q, SplitLeft(p, q)) && RightApart(p, if p.leaf then q else q + 1, SplitRight(p, into, q))
  {
    hide Valid, SplitLeft, SplitRight, LeftApart, RightApart;
    LeftMeaning(p, q);
    RightMeaning(p, into.root, q);
  }

  function AlignedBytes(cs: seq<Cell>): int {
    if cs == [] then 0 else AlignedBytes(cs[..|cs| - 1]) + Align4(cs[|cs| - 1].Size())
  }

  /** Nothing but live cells and their alignment lies above cell_offset, unless something died. */
  predicate Packed(p: Page) {
    p.tombs == [] ==> NODE_SIZE - p.cellOffset <= AlignedBytes(p.cells)
  }

  lemma {:induction false} AlignedBounds(cs: seq<Cell>)
    ensures Bytes(cs) <= AlignedBytes(cs) <= Bytes(cs) + 3 * |cs|
  {
    if cs != [] { AlignedBounds(cs[..|cs| - 1]); }
  }

  lemma {:induction false} AlignedInsert(cs: seq<Cell>, idx: nat, c: Cell)
    requires idx <= |cs|
    ensures AlignedBytes(InsertAt(cs, idx, c)) == AlignedBytes(cs) + Align4(c.Size())
    decreases |cs|
  {
    var r := InsertAt(cs, idx, c);
    if idx == |cs| {
      assert r[..|r| - 1] == cs;
    } else {
      AlignedInsert(cs[..|cs| - 1], idx, c);
      assert r[..|r| - 1] == InsertAt(cs[..|cs| - 1], idx, c);
    }
  }

  predicate CellsAtMost(cs: seq<Cell>, bound: int) {
    forall i | 0 <= i < |cs| :: Align4(cs[i].Size()) <= bound
  }

  /** A page that never lost a cell, holds small cells and is full for another small one
      splits strictly inside; with still smaller cells an internal page keeps a cell on both sides. */
  lemma FullPageSplitsInside(p: Page, keySize: nat, valueSize: nat)
    requires Valid(p) && Packed(p) && p.tombs == []
    requires keySize + valueSize + CELL_HEADER + 3 < U32
    requires IsFull(p, keySize, valueSize)
    requires CellsAtMost(p.cells, 480) && Need(keySize, valueSize) <= 480
    ensures 1 <= PartitionIdx(p.cells) < |p.cells|
    ensures CellsAtMost(p.cells, 300) && Need(keySize, valueSize) <= 300 ==> PartitionIdx(p.cells) + 1 < |p.cells|
  {
    var n := |p.cells|;
    AlignedBounds(p.cells);
    FreeSpaceExact(p);
    if n > 0 {
      PartitionMeaning(p.cells);
      Overshoot(p.cells, PartitionIdx(p.cells));
      PartitionInside(p.cells, n - 1);
      assert Align4(p.cells[n - 1].Size()) >= p.cells[n - 1].Size();
      if n > 1 {
        PartitionInside(p.cells, n - 2);
        assert p.cells[..n - 1][..n - 2] == p.cells[..n - 2];
        assert Align4(p.cells[n - 2].Size()) >= p.cells[n - 2].Size();
      }
    }
  }

  // ----- Runs -----

  /** What can happen to a page; a split continues with either half. */
  datatype PageOp =
    | Insert(idx: nat, key: Key, value: seq<Byte>, child: Pid)
    | Delete(idx: nat)
    | KeepLeft(q: nat)
    | TakeRight(q: nat)

  predicate InRange(p: Page, op: PageOp) {
    match op
    case Insert(idx, key, value, _) => idx <= |p.cells| && |key| + |value| + CELL_HEADER + 3 < U32
    case Delete(idx) => idx < |p.cells|
    case KeepLeft(q) => q < |p.cells|
    case TakeRight(q) => q < |p.cells|
  }

  /** Inserts take the free-space branch and leave four bytes for the slot. */
  predicate Allowed(p: Page, op: PageOp) {
    InRange(p, op) && (op.Insert? ==> FreeSpace(p) >= Need(|op.key|, |op.value|) + SLOT)
  }

  function After(p: Page, op: PageOp): Page
    requires InRange(p, op)
  {
    match op
    case Insert(idx, key, value, child) =>
      var (p', off) := GetFreeOffset(p, |key|, |value|);
      InsertCell(p', idx, Cell(off, key, value, child))
    case Delete(idx) => DeleteCell(p, idx)
    case KeepLeft(q) => SplitLeft(p, q)
    case TakeRight(q) => SplitRight(p, EmptyPage(p.leaf, false), q)
  }

  /** `p` is what the operations make of the page `from`. */
  ghost predicate Reaches(from: Page, ops: seq<PageOp>, p: Page)
    decreases |ops|
  {
    if ops == [] then p == from
    else Allowed(from, ops[0]) && Reaches(After(from, ops[0]), ops[1..], p)
  }

  lemma InsertKeeps(p: Page, idx: nat, key: Key, value: seq<Byte>, child: Pid)
    requires Valid(p) && TombBytesExact(p) && Packed(p) && Allowed(p, Insert(idx, key, value, child))
    ensures var p' := After(p, Insert(idx, key, value, child)); Valid(p') && TombBytesExact(p') && Packed(p')
  {
    var c := Cell(p.cellOffset - Need(|key|, |value|), key, value, child);
    FreeBranch(p, |key|, |value|);
    InsertValid(p, idx, key, value, child);
    PackedInsert(p, idx, c);
  }

  lemma FreeBranch(p: Page, keySize: nat, valueSize: nat)
    requires Valid(p) && keySize + valueSize + CELL_HEADER + 3 < U32
    requires FreeSpace(p) >= Need(keySize, valueSize) + SLOT
    ensures GetFreeOffset(p, keySize, valueSize) == (p, p.cellOffset - Need(keySize, valueSize))
    ensures p.cellOffset - Need(keySize, valueSize) != 0
    ensures KeepsValid(p, keySize, valueSize)
  {
    FreeSpaceExact(p);
  }

  lemma PackedInsert(p: Page, idx: nat, c: Cell)
    requires Packed(p) && idx <= |p.cells|
    requires |c.key| + |c.value| + CELL_HEADER + 3 < U32
    requires c.off == p.cellOffset - Need(|c.key|, |c.value|)
    ensures Packed(InsertCell(p, idx, c))
  {
    hide AlignedBytes;
    AlignedInsert(p.cells, idx, c);
    assert Need(|c.key|, |c.value|) == Align4(c.Size());
  }

  lemma StepKeeps(p: Page, op: PageOp)
    requires Valid(p) && TombBytesExact(p) && Packed(p) && Allowed(p, op)
    ensures var p' := After(p, op); Valid(p') && TombBytesExact(p') && Packed(p')
  {
    match op {
      case Insert(idx, key, value, child) => InsertKeeps(p, idx, key, value, child);
      case Delete(idx) => DeleteValid(p, idx);
      case KeepLeft(q) => SplitLeftValid(p, q);
      case TakeRight(q) =>
        SplitRightValid(p, q);
        SpreadAligned(Moved(p, q), NODE_SIZE);
    }
  }

  lemma {:induction false} SpreadAligned(cs: seq<Cell>, top: int)
    ensures Bytes(cs) <= AlignedBytes(Spread(cs, top))
  {
    if cs != [] {
      SpreadAligned(cs[..|cs| - 1], top);
      var r := Spread(cs, top);
      assert r[..|r| - 1] == Spread(cs[..|cs| - 1], top);
    }
  }

  /** On every page built by init, free-space inserts, deletes and splits the live cells, the dead
      extents and the slots are disjoint and tombstone_bytes is the sum of the dead sizes. */
  lemma {:induction false} RunKeeps(from: Page, ops: seq<PageOp>, p: Page)
    requires Valid(from) && TombBytesExact(from) && Packed(from)
    requires Reaches(from, ops, p)
    ensures Valid(p) && TombBytesExact(p) && Packed(p)
    decreases |ops|
  {
    if ops != [] {
      StepKeeps(from, ops[0]);
      RunKeeps(After(from, ops[0]), ops[1..], p);
    }
  }

  lemma BuiltPages(leaf: bool, root: bool, ops: seq<PageOp>, p: Page)
    requires Reaches(EmptyPage(leaf, root), ops, p)
    ensures Valid(p) && TombBytesExact(p) && Packed(p)
  {
    RunKeeps(EmptyPage(leaf, root), ops, p);
  }

  // ----- Runs that reuse dead extents -----

  /** Sound, with cell_offset between the slots and the end of the page. */
  predicate Placed(p: Page) { Sound(p) && SlotsEnd(p) <= p.cellOffset <= NODE_SIZE }

  /** Inserts may take either branch: the reuse branch, or free space where nothing lies. Four bytes behind the
      slots are free. */
  predicate Granted(p: Page, op: PageOp) {
    && InRange(p, op)
    && (op.Insert? ==>
          var need := Need(|op.key|, |op.value|);
          && (if FreeSpace(p) < need then HeadFits(p, |op.key|, |op.value|)
              else FreeSpace(p) >= need + SLOT && FreeBelow(p, need))
          && Within(p, SlotsEnd(p) + SLOT))
  }

  lemma InsertPlaced(p: Page, op: PageOp)
    requires Placed(p) && Granted(p, op) && op.Insert?
    ensures Placed(After(p, op))
  {
    hide Carve, Sound, Unused, Within, Need;
    var (p', off) := GetFreeOffset(p, |op.key|, |op.value|);
    PlacedFree(p);
    NeedMeaning(|op.key|, |op.value|);
    AllocationOnSound(p, |op.key|, |op.value|);
    var c := Cell(off, op.key, op.value, op.child);
    UnusedShorter(p', off, off + Need(|op.key|, |op.value|), c.End());
    CarveWithin(p, |op.key|, |op.value|, SlotsEnd(p) + SLOT);
    InsertSound(p', op.idx, c);
  }

  lemma PlacedFree(p: Page)
    requires Placed(p)
    ensures FreeSpace(p) == p.cellOffset - SlotsEnd(p)
  {}

  lemma UnusedShorter(p: Page, off: int, end: int, end': int)
    requires Unused(p, off, end) && off <= end' <= end
    ensures Unused(p, off, end') && off <= NODE_SIZE
  {}

  lemma CarveWithin(p: Page, keySize: nat, valueSize: nat, floor: int)
    requires Within(p, floor) && keySize + valueSize + CELL_HEADER + 3 < U32
    ensures var (p', off) := GetFreeOffset(p, keySize, valueSize);
            Within(p', floor) && (FreeSpace(p) < Need(keySize, valueSize) && HeadFits(p, keySize, valueSize) ==> floor <= off)
  {
    NeedMeaning(keySize, valueSize);
  }

  lemma {:induction false} BuryAllSound(p: Page, keep: seq<Cell>, cs: seq<Cell>)
    requires Sound(p.(cells := keep + cs))
    ensures Sound(BuryAll(p, cs).(cells := keep))
    decreases |cs|
  {
    hide Sound;
    if cs == [] {
      assert keep + cs == keep;
    } else {
      var whole := p.(cells := keep + cs);
      DeleteValid(whole, |keep|);
      assert RemoveAt(keep + cs, |keep|) == keep + cs[1..];
      assert DeleteCell(whole, |keep|) == Bury(p, cs[0]).(cells := keep + cs[1..]);
      BuryAllSound(Bury(p, cs[0]), keep, cs[1..]);
    }
  }

  lemma LeftPlaced(p: Page, q: nat)
    requires Placed(p) && q < |p.cells|
    ensures Placed(SplitLeft(p, q))
  {
    hide Sound;
    var cs := p.cells[q..];
    assert p.cells == p.cells[..q] + cs && p == p.(cells := p.cells[..q] + cs);
    BuryAllSound(p, p.cells[..q], cs);
    BuryAllTombs(p, cs);
  }

  /** The cells of a sound page take no more bytes than lie behind its slots. */
  lemma SoundFits(p: Page)
    requires Sound(p)
    ensures Bytes(p.cells) <= NODE_SIZE - SlotsEnd(p)
  {
    ExtentsSum(p.cells);
    PackedSum(Extents(p.cells), SlotsEnd(p), NODE_SIZE);
  }

  lemma RightPlaced(p: Page, q: nat)
    requires Placed(p) && q < |p.cells|
    ensures Placed(SplitRight(p, EmptyPage(p.leaf, false), q))
  {
    hide Bytes, Spread, Within, CellsApart, TombsApart, CrossApart;
    var m := Moved(p, q);
    SoundFits(p);
    assert p.cells == p.cells[..|p.cells| - |m|] + m;
    BytesAppend(p.cells[..|p.cells| - |m|], m);
    SpreadSound(m, EmptyPage(p.leaf, false));
  }

  lemma SpreadSound(m: seq<Cell>, e: Page)
    requires e.cells == [] && e.tombs == [] && e.cellOffset == NODE_SIZE && NODE_HEADER + SLOT * |m| <= NODE_SIZE - Bytes(m)
    ensures Placed(e.(cells := Spread(m, NODE_SIZE), cellOffset := NODE_SIZE - Bytes(m)))
  {
    hide Bytes, Spread;
    SpreadMeaning(m, NODE_SIZE);
  }

  lemma StepPlaced(p: Page, op: PageOp)
    requires Placed(p) && Granted(p, op)
    ensures Placed(After(p, op))
  {
    match op {
      case Insert(_, _, _, _) => InsertPlaced(p, op);
      case Delete(idx) => DeleteValid(p, idx);
      case KeepLeft(q) => LeftPlaced(p, q);
      case TakeRight(q) => RightPlaced(p, q);
    }
  }

  ghost predicate Leads(from: Page, ops: seq<PageOp>, p: Page)
    decreases |ops|
  {
    if ops == [] then p == from
    else Granted(from, ops[0]) && Leads(After(from, ops[0]), ops[1..], p)
  }

  /** Pages stay sound in runs that reuse dead extents as well, as long as no insert takes free space below
      cell_offset in which something lies. */
  lemma {:induction false} RunPlaced(from: Page, ops: seq<PageOp>, p: Page)
    requires Placed(from) && Leads(from, ops, p)
    ensures Placed(p)
    decreases |ops|
  {
    hide Placed, Granted;
    if ops != [] {
      StepPlaced(from, ops[0]);
      GrantedInRange(from, ops[0]);
      RunPlaced(After(from, ops[0]), ops[1..], p);
    }
  }

  lemma GrantedInRange(p: Page, op: PageOp)
    requires Granted(p, op)
    ensures InRange(p, op)
  {}
}
