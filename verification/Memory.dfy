/** The bytes of a page: little-endian words, and what it means that bytes hold a decoded page. */
module Memory {
  import opened Keys
  import opened Pages

  function Word(m: seq<Byte>, o: int): (w: int)
    requires 0 <= o && o + 4 <= |m|
    ensures 0 <= w < U32
  {
    m[o] as int + 0x100 * m[o + 1] as int + 0x1_0000 * m[o + 2] as int + 0x100_0000 * m[o + 3] as int
  }

  function Long(m: seq<Byte>, o: int): int
    requires 0 <= o && o + 8 <= |m|
  {
    Word(m, o) + U32 * Word(m, o + 4)
  }

  lemma WordBytes(w: int)
    requires 0 <= w < U32
    ensures w % 0x100 + 0x100 * (w / 0x100 % 0x100) + 0x1_0000 * (w / 0x1_0000 % 0x100) + 0x100_0000 * (w / 0x100_0000) == w
    ensures 0 <= w / 0x100_0000 < 0x100
  {
    var a := w / 0x100;
    var b := a / 0x100;
    assert w / 0x1_0000 == b;
    assert w / 0x100_0000 == b / 0x100;
  }

  /** The two memories agree on [from, to). */
  ghost predicate Same(m: seq<Byte>, m': seq<Byte>, from: int, to: int) {
    |m'| == |m| && forall x | from <= x < to && 0 <= x < |m| :: m'[x] == m[x]
  }

  /** The two memories agree outside [from, to). */
  ghost predicate SameBut(m: seq<Byte>, m': seq<Byte>, from: int, to: int) {
    |m'| == |m| && forall x | 0 <= x < |m| && !(from <= x < to) :: m'[x] == m[x]
  }

  lemma SameButWiden(m: seq<Byte>, m': seq<Byte>, from: int, to: int, from': int, to': int)
    requires SameBut(m, m', from, to) && from' <= from && to <= to'
    ensures SameBut(m, m', from', to')
  {}

  /** A leaf cell begins with its flags and value size, an internal cell with its child. */
  ghost predicate HoldsCell(m: seq<Byte>, leaf: bool, c: Cell) {
    && |m| == NODE_SIZE
    && NODE_HEADER <= c.off && c.End() <= NODE_SIZE
    && (if leaf then Word(m, c.off) == 0 && Word(m, c.off + 4) == |c.value| && c.child == 0
        else Long(m, c.off) == c.child && c.value == [])
    && Word(m, c.off + 8) == |c.key|
    && Word(m, c.off + 12) == |c.key| + |c.value|
    && m[c.off + 16..c.off + 16 + |c.key|] == c.key
    && m[c.off + 16 + |c.key|..c.End()] == c.value
  }

  ghost predicate HoldsCells(m: seq<Byte>, leaf: bool, cs: seq<Cell>) {
    forall i | 0 <= i < |cs| :: HoldsCell(m, leaf, cs[i])
  }

  /** Slot i holds the offset of cell i. */
  ghost predicate HoldsSlots(m: seq<Byte>, cs: seq<Cell>) {
    && |m| == NODE_SIZE
    && NODE_HEADER + SLOT * |cs| <= NODE_SIZE
    && forall i | 0 <= i < |cs| :: Word(m, NODE_HEADER + SLOT * i) == cs[i].off
  }

  /** The offset of the i-th dead extent, 0 past the last one. */
  function OffsetOf(ts: seq<Tomb>, i: nat): int { if i < |ts| then ts[i].off else 0 }

  /** A dead extent holds its size and the offset of the next one, 0 at the end of the list. */
  ghost predicate HoldsTomb(m: seq<Byte>, ts: seq<Tomb>, i: nat)
    requires i < |ts|
  {
    && |m| == NODE_SIZE
    && NODE_HEADER <= ts[i].off <= NODE_SIZE - 8
    && Word(m, ts[i].off) == ts[i].size
    && Word(m, ts[i].off + 4) == OffsetOf(ts, i + 1)
  }

  ghost predicate HoldsTombs(m: seq<Byte>, ts: seq<Tomb>) {
    forall i | 0 <= i < |ts| :: HoldsTomb(m, ts, i)
  }

  lemma HeadBound(m: seq<Byte>, ts: seq<Tomb>)
    requires HoldsTombs(m, ts)
    ensures 0 <= OffsetOf(ts, 0) < NODE_SIZE
  {
    assert ts != [] ==> HoldsTomb(m, ts, 0);
  }

  lemma CellFrame(m: seq<Byte>, m': seq<Byte>, leaf: bool, c: Cell)
    requires HoldsCell(m, leaf, c) && Same(m, m', c.off, c.End())
    ensures HoldsCell(m', leaf, c)
  {
    assert m'[c.off + 16..c.off + 16 + |c.key|] == m[c.off + 16..c.off + 16 + |c.key|];
    assert m'[c.off + 16 + |c.key|..c.End()] == m[c.off + 16 + |c.key|..c.End()];
  }

  lemma CellOf(m: seq<Byte>, leaf: bool, cs: seq<Cell>, at: nat)
    requires HoldsCells(m, leaf, cs) && at < |cs|
    ensures HoldsCell(m, leaf, cs[at])
  {}

  lemma CellsFrame(m: seq<Byte>, m': seq<Byte>, leaf: bool, cs: seq<Cell>, from: int, to: int)
    requires HoldsCells(m, leaf, cs) && SameBut(m, m', from, to) && CellsClear(cs, from, to)
    ensures HoldsCells(m', leaf, cs)
  {
    forall i | 0 <= i < |cs| ensures HoldsCell(m', leaf, cs[i]) {
      CellFrame(m, m', leaf, cs[i]);
    }
  }

  lemma TombsFrame(m: seq<Byte>, m': seq<Byte>, ts: seq<Tomb>, from: int, to: int)
    requires HoldsTombs(m, ts) && SameBut(m, m', from, to) && TombsClear(ts, from, to)
    ensures HoldsTombs(m', ts)
  {
    forall i | 0 <= i < |ts| ensures HoldsTomb(m', ts, i) {
      assert HoldsTomb(m, ts, i);
    }
  }

  lemma SlotsFrame(m: seq<Byte>, m': seq<Byte>, cs: seq<Cell>, from: int, to: int)
    requires HoldsSlots(m, cs) && SameBut(m, m', from, to) && NODE_HEADER + SLOT * |cs| <= from
    ensures HoldsSlots(m', cs)
  {}

  /** The words and bytes of a leaf cell. */
  lemma LeafCellWords(m: seq<Byte>, c: Cell)
    requires HoldsCell(m, true, c)
    ensures NODE_HEADER <= c.off && c.End() <= NODE_SIZE == |m|
    ensures Word(m, c.off + 4) == |c.value| && Word(m, c.off + 8) == |c.key| && c.child == 0
    ensures m[c.off + 16..c.off + 16 + |c.key|] == c.key && m[c.off + 16 + |c.key|..c.End()] == c.value
  {}

  lemma InternalCellWords(m: seq<Byte>, c: Cell)
    requires HoldsCell(m, false, c)
    ensures NODE_HEADER <= c.off && c.End() <= NODE_SIZE == |m|
    ensures Long(m, c.off) == c.child < U64 && Word(m, c.off + 8) == |c.key| && c.value == []
    ensures m[c.off + 16..c.off + 16 + |c.key|] == c.key
  {}

  lemma SlotsFit(m: seq<Byte>, cs: seq<Cell>)
    requires HoldsSlots(m, cs)
    ensures NODE_HEADER + SLOT * |cs| <= NODE_SIZE
  {}

  /** The slots after memmove made a gap at idx and the gap was filled. */
  lemma SlotsInsert(m: seq<Byte>, m': seq<Byte>, cs: seq<Cell>, idx: nat, c: Cell)
    requires HoldsSlots(m, cs) && idx <= |cs| && |m'| == NODE_SIZE
    requires NODE_HEADER + SLOT * (|cs| + 1) <= NODE_SIZE
    requires Same(m, m', NODE_HEADER, NODE_HEADER + SLOT * idx)
    requires forall x | NODE_HEADER + SLOT * idx <= x < NODE_HEADER + SLOT * |cs| :: m'[x + SLOT] == m[x]
    requires Word(m', NODE_HEADER + SLOT * idx) == c.off
    ensures HoldsSlots(m', InsertAt(cs, idx, c))
  {
    forall i | 0 <= i < |cs| + 1 ensures Word(m', NODE_HEADER + SLOT * i) == InsertAt(cs, idx, c)[i].off {
      if i > idx {
        assert Word(m, NODE_HEADER + SLOT * (i - 1)) == cs[i - 1].off;
      }
    }
  }

  /** The slots after memmove closed the gap at idx. */
  lemma SlotsRemove(m: seq<Byte>, m': seq<Byte>, cs: seq<Cell>, idx: nat)
    requires HoldsSlots(m, cs) && idx < |cs| && |m'| == NODE_SIZE
    requires Same(m, m', NODE_HEADER, NODE_HEADER + SLOT * idx)
    requires forall x | NODE_HEADER + SLOT * (idx + 1) <= x < NODE_HEADER + SLOT * |cs| :: m'[x - SLOT] == m[x]
    ensures HoldsSlots(m', RemoveAt(cs, idx))
  {
    forall i | 0 <= i < |cs| - 1 ensures Word(m', NODE_HEADER + SLOT * i) == RemoveAt(cs, idx)[i].off {
      if i >= idx {
        assert Word(m, NODE_HEADER + SLOT * (i + 1)) == cs[i + 1].off;
      }
    }
  }

  /** A new head in front of the dead list. */
  lemma TombsPush(m: seq<Byte>, t: Tomb, ts: seq<Tomb>)
    requires HoldsTombs(m, ts) && |m| == NODE_SIZE && NODE_HEADER <= t.off <= NODE_SIZE - 8
    requires Word(m, t.off) == t.size && Word(m, t.off + 4) == OffsetOf(ts, 0)
    ensures HoldsTombs(m, [t] + ts)
  {
    var r := [t] + ts;
    forall i | 0 <= i < |r| ensures HoldsTomb(m, r, i) {
      assert i > 0 ==> HoldsTomb(m, ts, i - 1);
    }
  }

  /** The bytes determine the cells in the slots. */
  lemma DecodeUnique(m: seq<Byte>, leaf: bool, cs: seq<Cell>, cs': seq<Cell>)
    requires |cs| == |cs'|
    requires HoldsSlots(m, cs) && HoldsCells(m, leaf, cs)
    requires HoldsSlots(m, cs') && HoldsCells(m, leaf, cs')
    ensures cs == cs'
  {
    forall i | 0 <= i < |cs| ensures cs[i] == cs'[i] {
      assert Word(m, NODE_HEADER + SLOT * i) == cs[i].off == cs'[i].off;
      CellUnique(m, leaf, cs[i], cs'[i]);
    }
  }

  lemma CellUnique(m: seq<Byte>, leaf: bool, c: Cell, c': Cell)
    requires HoldsCell(m, leaf, c) && HoldsCell(m, leaf, c') && c.off == c'.off
    ensures c == c'
  {}

  /** Writing the remainder's header inside the head extent disturbs nothing else. */
  lemma RemainderFrame(m: seq<Byte>, m': seq<Byte>, p: Page, from: int, to: int)
    requires Sound(p) && p.tombs != [] && HoldsSlots(m, p.cells) && HoldsCells(m, p.leaf, p.cells) && HoldsTombs(m, p.tombs)
    requires p.tombs[0].off <= from && to <= p.tombs[0].End() && SameBut(m, m', from, to)
    ensures HoldsSlots(m', p.cells) && HoldsCells(m', p.leaf, p.cells) && HoldsTombs(m', p.tombs[1..])
  {
    SlotsFrame(m, m', p.cells, from, to);
    assert CellsClear(p.cells, p.tombs[0].off, p.tombs[0].End());
    CellsFrame(m, m', p.leaf, p.cells, from, to);
    TombsPop(m, p.tombs);
    TombsFrame(m, m', p.tombs[1..], from, to);
  }

  /** The slots change first, then the new cell's extent: the other cells and the dead list stay. */
  lemma InsertFrame(m: seq<Byte>, m1: seq<Byte>, m2: seq<Byte>, leaf: bool, cs: seq<Cell>, ts: seq<Tomb>, idx: nat, c: Cell)
    requires idx <= |cs| && HoldsCells(m, leaf, cs) && HoldsTombs(m, ts)
    requires SameBut(m, m1, NODE_HEADER, NODE_HEADER + SLOT * (|cs| + 1)) && HoldsSlots(m1, InsertAt(cs, idx, c))
    requires SameBut(m1, m2, c.off, c.End()) && HoldsCell(m2, leaf, c)
    requires CellsWithin(cs, NODE_HEADER + SLOT * (|cs| + 1)) && TombsWithin(ts, NODE_HEADER + SLOT * (|cs| + 1))
    requires NODE_HEADER + SLOT * (|cs| + 1) <= c.off
    requires CellsClear(cs, c.off, c.End()) && TombsClear(ts, c.off, c.End())
    ensures HoldsSlots(m2, InsertAt(cs, idx, c)) && HoldsCells(m2, leaf, InsertAt(cs, idx, c)) && HoldsTombs(m2, ts)
  {
    CellsFrame(m, m1, leaf, cs, NODE_HEADER, NODE_HEADER + SLOT * (|cs| + 1));
    TombsFrame(m, m1, ts, NODE_HEADER, NODE_HEADER + SLOT * (|cs| + 1));
    CellsFrame(m1, m2, leaf, cs, c.off, c.End());
    TombsFrame(m1, m2, ts, c.off, c.End());
    SlotsFrame(m1, m2, InsertAt(cs, idx, c), c.off, c.End());
  }

  /** One more slot behind the others, whose cell is still to be written. */
  lemma AppendSlot(m: seq<Byte>, m': seq<Byte>, cs: seq<Cell>, c: Cell)
    requires HoldsSlots(m, cs) && NODE_HEADER + SLOT * (|cs| + 1) <= NODE_SIZE
    requires SameBut(m, m', NODE_HEADER + SLOT * |cs|, NODE_HEADER + SLOT * (|cs| + 1))
    requires Word(m', NODE_HEADER + SLOT * |cs|) == c.off
    ensures HoldsSlots(m', cs + [c])
  {}

  lemma AppendFrame(m: seq<Byte>, m1: seq<Byte>, m2: seq<Byte>, leaf: bool, cs: seq<Cell>, c: Cell, floor: int)
    requires HoldsCells(m, leaf, cs) && CellsWithin(cs, floor) && c.End() <= floor
    requires NODE_HEADER + SLOT * (|cs| + 1) <= c.off
    requires SameBut(m, m1, NODE_HEADER + SLOT * |cs|, NODE_HEADER + SLOT * (|cs| + 1)) && HoldsSlots(m1, cs + [c])
    requires SameBut(m1, m2, c.off, c.End()) && HoldsCell(m2, leaf, c)
    ensures HoldsSlots(m2, cs + [c]) && HoldsCells(m2, leaf, cs + [c])
  {
    CellsFrame(m, m1, leaf, cs, NODE_HEADER + SLOT * |cs|, NODE_HEADER + SLOT * (|cs| + 1));
    CellsFrame(m1, m2, leaf, cs, c.off, c.End());
    SlotsFrame(m1, m2, cs + [c], c.off, c.End());
  }

  lemma SlotsPrefix(m: seq<Byte>, cs: seq<Cell>, n: nat)
    requires HoldsSlots(m, cs) && n <= |cs|
    ensures HoldsSlots(m, cs[..n])
  {}

  lemma HeadExtent(p: Page)
    requires Sound(p) && p.tombs != []
    ensures NODE_HEADER <= p.tombs[0].off && 0 < p.tombs[0].size && p.tombs[0].End() <= NODE_SIZE
  {}

  /** A cell's first eight bytes change: the other live cells stay. */
  lemma RemoveFrame(m: seq<Byte>, m': seq<Byte>, leaf: bool, cs: seq<Cell>, at: nat)
    requires at < |cs| && HoldsCells(m, leaf, cs) && CellsApart(cs)
    requires SameBut(m, m', cs[at].off, cs[at].off + 8)
    ensures HoldsCells(m', leaf, RemoveAt(cs, at))
  {
    var r := RemoveAt(cs, at);
    assert HoldsCells(m, leaf, r);
    assert CellsClear(r, cs[at].off, cs[at].End());
    CellsFrame(m, m', leaf, r, cs[at].off, cs[at].End());
  }

  lemma TombsPop(m: seq<Byte>, ts: seq<Tomb>)
    requires HoldsTombs(m, ts) && ts != []
    ensures HoldsTomb(m, ts, 0)
    ensures HoldsTombs(m, ts[1..])
  {
    assert HoldsTomb(m, ts, 0);
    forall i | 0 <= i < |ts| - 1 ensures HoldsTomb(m, ts[1..], i) {
      assert HoldsTomb(m, ts, i + 1);
    }
  }

  lemma {:induction false} DeadListUnique(m: seq<Byte>, ts: seq<Tomb>, ts': seq<Tomb>)
    requires HoldsTombs(m, ts) && HoldsTombs(m, ts') && OffsetOf(ts, 0) == OffsetOf(ts', 0)
    ensures ts == ts'
    decreases |ts| + |ts'|
  {
    if ts != [] && ts' != [] {
      TombsPop(m, ts);
      TombsPop(m, ts');
      DeadListUnique(m, ts[1..], ts'[1..]);
      assert ts == [ts[0]] + ts[1..] && ts' == [ts'[0]] + ts'[1..];
    } else {
      assert ts != [] ==> HoldsTomb(m, ts, 0);
      assert ts' != [] ==> HoldsTomb(m, ts', 0);
    }
  }
}
