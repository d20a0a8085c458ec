/** Pages that the code can build and on which it does what one would not expect: one for each exact
    condition of PageLaws, with the condition failing. */
module PageWitnesses {
  import opened Keys
  import opened Pages
  import opened PageLaws
  import opened PageRuns

  /** A string of n zero bytes. */
  function Zeros(n: nat): (r: seq<Byte>)
    ensures |r| == n
  {
    seq(n, _ => 0)
  }

  function CellAt(off: int, b: Byte, valueSize: nat): (c: Cell)
    ensures c.off == off && c.Size() == CELL_HEADER + 1 + valueSize
  {
    Cell(off, [b], Zeros(valueSize), 0)
  }

  /** One step of a run that ends with it. */
  lemma {:induction false} OneMore(from: Page, ops: seq<PageOp>, p: Page, op: PageOp)
    requires Reaches(from, ops, p) && Allowed(p, op)
    ensures Reaches(from, ops + [op], After(p, op))
    decreases |ops|
  {
    hide InRange, After;
    if ops == [] {
      assert ops + [op] == [op] && [op][1..] == [];
    } else {
      assert (ops + [op])[0] == ops[0] && (ops + [op])[1..] == ops[1..] + [op];
      OneMore(After(from, ops[0]), ops[1..], p, op);
    }
  }

  /** Built from an initialised root leaf by free-space inserts and deletes. */
  ghost predicate Built(p: Page) { exists ops :: Reaches(EmptyPage(true, true), ops, p) }

  lemma BuiltEmpty()
    ensures Built(EmptyPage(true, true))
  {
    assert Reaches(EmptyPage(true, true), [], EmptyPage(true, true));
  }

  lemma BuiltNext(p: Page, op: PageOp)
    requires Built(p) && Allowed(p, op)
    ensures Built(After(p, op))
  {
    hide Allowed, After, Reaches;
    var ops :| Reaches(EmptyPage(true, true), ops, p);
    OneMore(EmptyPage(true, true), ops, p, op);
  }

  /** A cell behind the others, at the place where the free-space branch puts it. */
  lemma BuiltAppend(p: Page, b: Byte, valueSize: nat, off: int)
    requires Built(p) && valueSize < NODE_SIZE && SlotsEnd(p) <= p.cellOffset <= NODE_SIZE
    requires off % 4 == p.cellOffset % 4 && 17 + valueSize <= p.cellOffset - off <= 20 + valueSize && off >= SlotsEnd(p) + SLOT
    ensures Built(p.(cells := p.cells + [CellAt(off, b, valueSize)], cellOffset := off))
  {
    hide Built;
    var op := PageOp.Insert(|p.cells|, [b], Zeros(valueSize), 0);
    assert FreeSpace(p) == p.cellOffset - SlotsEnd(p);
    assert Need(1, valueSize) == p.cellOffset - off;
    BuiltNext(p, op);
    assert InsertAt(p.cells, |p.cells|, CellAt(off, b, valueSize)) == p.cells + [CellAt(off, b, valueSize)];
  }

  lemma BuiltDelete(p: Page, idx: nat)
    requires Built(p) && idx < |p.cells|
    ensures Built(DeleteCell(p, idx))
  {
    hide Built, DeleteCell;
    BuiltNext(p, PageOp.Delete(idx));
  }

  /** A page with one large cell at its lower end and a dead extent of 2000 bytes above it. */
  function Hollow(): Page {
    Page(true, true, [CellAt(96, 2, 1983)], 0, 96, [Tomb(2096, 2000)], 2000)
  }

  lemma HollowBuilt()
    ensures Built(Hollow())
  {
    hide Built, CellAt;
    var a, b := CellAt(2096, 1, 1983), CellAt(96, 2, 1983);
    var p := EmptyPage(true, true);
    BuiltEmpty();
    BuiltAppend(p, 1, 1983, 2096);
    assert p.cells + [a] == [a];
    BuiltAppend(p.(cells := [a], cellOffset := 2096), 2, 1983, 96);
    assert [a] + [b] == [a, b];
    var q := p.(cells := [a, b], cellOffset := 96);
    BuiltDelete(q, 0);
    assert RemoveAt([a, b], 0) == [b];
    assert [Tomb(2096, 2000)] + q.tombs == [Tomb(2096, 2000)];
  }

  /** Its dead extent used up, and cut. */
  lemma HollowReuse()
    ensures GetFreeOffset(Hollow(), 1, 1983) == (Hollow().(tombs := [], tombBytes := 0), 2096)
    ensures GetFreeOffset(Hollow(), 1, 983) == (Hollow().(tombs := [Tomb(3096, 984)], tombBytes := 1000), 2096)
  {
    hide CellAt;
    var ts := Hollow().tombs;
    assert Need(1, 1983) == 2000 && Need(1, 983) == 1000 && FreeSpace(Hollow()) == 36;
    assert ts[1..] == [] && Carve(ts, 2000) == [] && Carve(ts, 1000) == [Tomb(3096, 984)];
  }

  /** A page with one cell of 3996 bytes. */
  function Crowded(): Page { Page(true, true, [CellAt(100, 1, 3979)], 0, 100, [], 0) }

  /** The room test does not count the slot: a page that is not full allocates the bytes that the new slot needs. */
  lemma SlotOverwritesCell()
    ensures Built(Crowded())
    ensures Valid(Crowded()) && !IsFull(Crowded(), 24, 0) && GetFreeOffset(Crowded(), 24, 0) == (Crowded(), 60)
    ensures !Sound(InsertCell(Crowded(), 1, Cell(60, Zeros(24), [], 0)))
  {
    hide Built, Sound, Valid, IsFull, GetFreeOffset, CellAt;
    BuiltEmpty();
    BuiltAppend(EmptyPage(true, true), 1, 3979, 100);
    assert [] + [CellAt(100, 1, 3979)] == [CellAt(100, 1, 3979)];
    CrowdedTakes();
    CrowdedBreaks();
  }

  lemma CrowdedTakes()
    ensures Valid(Crowded()) && !IsFull(Crowded(), 24, 0) && GetFreeOffset(Crowded(), 24, 0) == (Crowded(), 60)
  {
    assert FreeSpace(Crowded()) == 40 && Need(24, 0) == 40;
  }

  lemma CrowdedBreaks()
    ensures !Sound(InsertCell(Crowded(), 1, Cell(60, Zeros(24), [], 0)))
  {
    var q := InsertCell(Crowded(), 1, Cell(60, Zeros(24), [], 0));
    assert q.cells[1].off == 60 && SlotsEnd(q) == 64;
  }

  /** Reusing the dead extent of a built page leaves a live cell below cell_offset; the next insertion is then
      given bytes inside that cell. */
  lemma ReuseThenCorruption() returns (q: Page)
    ensures Built(Hollow()) && HasRoom(Hollow(), 1, 1983)
    ensures var (p, off) := GetFreeOffset(Hollow(), 1, 1983); q == InsertCell(p, 0, CellAt(off, 1, 1983))
    ensures Sound(q) && !Valid(q) && HasRoom(q, 1, 0)
    ensures var (p, off) := GetFreeOffset(q, 1, 0); off == 2076 && !Unused(p, off, off + 17) && !Sound(InsertCell(p, 2, CellAt(off, 3, 0)))
  {
    hide GetFreeOffset, Built, Hollow, Sound, Valid, HasRoom, CellAt;
    HollowBuilt();
    HollowReuse();
    q := InsertCell(Hollow().(tombs := [], tombBytes := 0), 0, CellAt(2096, 1, 1983));
    CorruptedNext(q);
  }

  /** The page after the reuse. */
  lemma CorruptedNext(q: Page)
    requires q == InsertCell(Hollow().(tombs := [], tombBytes := 0), 0, CellAt(2096, 1, 1983))
    ensures Sound(q) && !Valid(q) && HasRoom(q, 1, 0) && HasRoom(Hollow(), 1, 1983)
    ensures GetFreeOffset(q, 1, 0) == (q, 2076) && !Unused(q, 2076, 2093) && !Sound(InsertCell(q, 2, CellAt(2076, 3, 0)))
  {
    hide Sound, Unused, KeepsValid, GetFreeOffset;
    assert q.cells == [CellAt(2096, 1, 1983), CellAt(96, 2, 1983)];
    assert FreeSpace(q) == 2032 && FreeSpace(Hollow()) == 36;
    CorruptedSound(q);
    CorruptedGrants(q);
    CorruptedBreaks(q);
  }

  lemma CorruptedSound(q: Page)
    requires q.cells == [CellAt(2096, 1, 1983), CellAt(96, 2, 1983)] && q.cellOffset == 2096 && q.tombs == []
    ensures Sound(q) && !Valid(q)
  {
    assert q.cells[1].off < q.cellOffset;
  }

  lemma CorruptedGrants(q: Page)
    requires q.cells == [CellAt(2096, 1, 1983), CellAt(96, 2, 1983)] && q.cellOffset == 2096 && q.tombs == []
    ensures GetFreeOffset(q, 1, 0) == (q, 2076) && !Unused(q, 2076, 2093)
  {
    assert q.cells[1] == CellAt(96, 2, 1983);
    assert FreeSpace(q) == 2032 && Need(1, 0) == 20;
  }

  lemma CorruptedBreaks(q: Page)
    requires q.cells == [CellAt(2096, 1, 1983), CellAt(96, 2, 1983)]
    ensures !Sound(InsertCell(q, 2, CellAt(2076, 3, 0)))
  {
    var r := InsertCell(q, 2, CellAt(2076, 3, 0));
    assert r.cells[1] == CellAt(96, 2, 1983) && r.cells[2] == CellAt(2076, 3, 0);
  }

  /** Reusing half of the dead extent leaves tombstone_bytes larger than what is dead. */
  lemma ReuseLosesBytes()
    ensures Built(Hollow()) && TombBytesExact(Hollow())
    ensures var p := GetFreeOffset(Hollow(), 1, 983).0; p.tombs == [Tomb(3096, 984)] && p.tombBytes == 1000 && !TombBytesExact(p)
  {
    hide GetFreeOffset, Built, CellAt;
    HollowBuilt();
    HollowReuse();
    assert [Tomb(3096, 984)][1..] == [] && Hollow().tombs[1..] == [];
  }

  /** A built page with a small dead extent in front of a large one. */
  function TwoDead(): Page {
    Page(true, true, [], 0, 176, [Tomb(4076, 20), Tomb(176, 3900)], 3920)
  }

  /** That page is not full for a cell of 2000 bytes, and still none is allocated. */
  lemma NotFullButRefused()
    ensures Built(TwoDead())
    ensures !IsFull(TwoDead(), 1, 1983) && GetFreeOffset(TwoDead(), 1, 1983).1 == 0
  {
    hide Built, GetFreeOffset, IsFull, TwoDead;
    TwoBuilt();
    BuiltDelete(Two(), 1);
    OneLeft();
    BuiltDelete(DeleteCell(Two(), 1), 0);
    TwoDeadRefuses();
  }

  function Two(): Page { Page(true, true, [CellAt(4076, 1, 3), CellAt(176, 2, 3883)], 0, 176, [], 0) }

  lemma TwoBuilt()
    ensures Built(Two())
  {
    hide Built, CellAt;
    var a, b := CellAt(4076, 1, 3), CellAt(176, 2, 3883);
    var p := EmptyPage(true, true);
    BuiltEmpty();
    BuiltAppend(p, 1, 3, 4076);
    assert p.cells + [a] == [a];
    BuiltAppend(p.(cells := [a], cellOffset := 4076), 2, 3883, 176);
    assert [a] + [b] == [a, b];
  }

  lemma OneLeft()
    ensures var p := DeleteCell(Two(), 1); |p.cells| == 1 && DeleteCell(p, 0) == TwoDead()
  {
    hide CellAt;
    var a, b := CellAt(4076, 1, 3), CellAt(176, 2, 3883);
    assert RemoveAt([a, b], 1) == [a] && RemoveAt([a], 0) == [];
    assert DeleteCell(Two(), 1) == Page(true, true, [a], 0, 176, [Tomb(176, 3900)], 3900);
  }

  lemma TwoDeadRefuses()
    ensures !IsFull(TwoDead(), 1, 1983) && GetFreeOffset(TwoDead(), 1, 1983).1 == 0
  {
    assert TwoDead().tombs[1] in TwoDead().tombs;
  }

  /** A key of 2^31 bytes is ordered before the empty key, which is its prefix, but the comparison says the opposite. */
  lemma LongKeyMisplaced() returns (key: Key)
    ensures |key| == KEY_LIMIT && Precedes(key, []) && Compare([], key) < 0
  {
    key := Zeros(KEY_LIMIT);
    assert FirstDifference(key, [], 0);
  }
}
