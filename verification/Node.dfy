/** A page as the C code keeps it: header fields and 4096 bytes changed in place. Every method is
    proved to make the decoded page what the function of the same name in Pages makes of it. */
module Nodes {
  import opened Keys
  import opened Pages
  import opened PageLaws
  import opened PageRuns
  import opened Memory

  class Node {
    var leaf: bool
    var root: bool
    var rightmost: Pid
    var size: nat
    var cellOffset: int
    var tombstoneOffset: int
    var tombstoneBytes: int
    const mem: array<Byte>

    /** The decoded page. */
    ghost var page: Page

    /** The fields and the bytes hold the decoded page; size and cell_offset are its own. */
    ghost predicate Holds()
      reads this, mem
    {
      && mem.Length == NODE_SIZE
      && page == Page(leaf, root, page.cells, rightmost, cellOffset, page.tombs, tombstoneBytes)
      && size == |page.cells|
      && 0 <= cellOffset < U32
      && tombstoneOffset == OffsetOf(page.tombs, 0)
      && HoldsSlots(mem[..], page.cells)
      && HoldsCells(mem[..], leaf, page.cells)
      && HoldsTombs(mem[..], page.tombs)
    }

    constructor (leaf: bool, root: bool)
      ensures Holds() && page == EmptyPage(leaf, root) && fresh(mem)
    {
      this.leaf, this.root, this.rightmost := leaf, root, 0;
      size, cellOffset, tombstoneOffset, tombstoneBytes := 0, NODE_SIZE, 0, 0;
      mem := new Byte[NODE_SIZE];
      page := EmptyPage(leaf, root);
    }

    // ----- Words -----

    method ReadWord(o: int) returns (w: int)
      requires mem.Length == NODE_SIZE && 0 <= o <= NODE_SIZE - 4
      ensures w == Word(mem[..], o)
    {
      w := mem[o] as int + 0x100 * mem[o + 1] as int + 0x1_0000 * mem[o + 2] as int + 0x100_0000 * mem[o + 3] as int;
    }

    method WriteWord(o: int, w: int)
      requires mem.Length == NODE_SIZE && 0 <= o <= NODE_SIZE - 4
      requires 0 <= w < U32
      modifies mem
      ensures Word(mem[..], o) == w
      ensures SameBut(old(mem[..]), mem[..], o, o + 4)
    {
      WordBytes(w);
      mem[o] := w % 0x100;
      mem[o + 1] := w / 0x100 % 0x100;
      mem[o + 2] := w / 0x1_0000 % 0x100;
      mem[o + 3] := w / 0x100_0000;
    }

    /** The two words at the front of a dead extent. */
    method WriteTomb(off: int, tombSize: int, next: int)
      requires mem.Length == NODE_SIZE && NODE_HEADER <= off <= NODE_SIZE - 8
      requires 0 <= tombSize < U32 && 0 <= next < U32
      modifies mem
      ensures Word(mem[..], off) == tombSize && Word(mem[..], off + 4) == next
      ensures SameBut(old(mem[..]), mem[..], off, off + 8)
    {
      WriteWord(off, tombSize);
      WriteWord(off + 4, next);
    }

    /** memcpy of a byte string into the page. */
    method CopyIn(o: int, data: seq<Byte>)
      requires mem.Length == NODE_SIZE && 0 <= o && o + |data| <= NODE_SIZE
      modifies mem
      ensures mem[o..o + |data|] == data
      ensures SameBut(old(mem[..]), mem[..], o, o + |data|)
    {
      forall x | o <= x < o + |data| {
        mem[x] := data[x - o];
      }
    }

    method SlotOffset(idx: nat) returns (off: int)
      requires mem.Length == NODE_SIZE && idx < |page.cells| && HoldsSlots(mem[..], page.cells)
      ensures off == page.cells[idx].off
    {
      off := ReadWord(NODE_HEADER + SLOT * idx);
    }

    /** total_size of the cell in slot idx. */
    method TotalSize(idx: nat) returns (total: int)
      requires mem.Length == NODE_SIZE && idx < |page.cells| && HoldsSlots(mem[..], page.cells)
      requires HoldsCell(mem[..], leaf, page.cells[idx])
      ensures CELL_HEADER + total == page.cells[idx].Size()
    {
      var off := SlotOffset(idx);
      total := ReadWord(off + 12);
    }

    // ----- Searching -----

    method KeyCompare(idx: nat, key: Key) returns (cmp: int)
      requires Holds() && idx < size && |key| < KEY_LIMIT
      ensures cmp == 0 <==> page.cells[idx].key == key
      ensures cmp < 0 <==> Precedes(page.cells[idx].key, key)
      ensures cmp > 0 <==> Precedes(key, page.cells[idx].key)
    {
      var off := SlotOffset(idx);
      assert HoldsCell(mem[..], leaf, page.cells[idx]);
      var keySize := ReadWord(off + 8);
      assert mem[..][off + 16..off + 16 + keySize] == mem[off + 16..off + 16 + keySize];
      cmp := Compare(mem[off + 16..off + 16 + keySize], key);
      CompareMeaning(page.cells[idx].key, key);
    }

    /** Finds the key exactly when the page holds it; the index is its rank either way. */
    method BinSearch(key: Key) returns (found: bool, idx: nat)
      requires Holds() && SortedKeys(KeysOf(page.cells)) && |key| < KEY_LIMIT
      ensures idx == Rank(KeysOf(page.cells), key)
      ensures found <==> key in KeysOf(page.cells)
      ensures found ==> idx < size && page.cells[idx].key == key
    {
      hide Precedes, HoldsCell, HoldsCells, HoldsSlots, HoldsTombs;
      ghost var ks := KeysOf(page.cells);
      var low, high := 0, size;
      while low < high
        invariant 0 <= low <= high <= size
        invariant low > 0 ==> Precedes(ks[low - 1], key)
        invariant high < size ==> Precedes(key, ks[high])
      {
        var mid := (low + high) / 2;
        var cmp := KeyCompare(mid, key);
        if cmp == 0 {
          RankFound(ks, key, mid);
          return true, mid;
        } else if cmp > 0 {
          high := mid;
        } else {
          low := mid + 1;
        }
      }
      RankMissing(ks, key, low);
      return false, low;
    }

    // ----- Space -----

    /** Walks the dead list; the walk ends because the list is a finite chain of different offsets. */
    method IsFull(keySize: nat, valueSize: nat) returns (full: bool)
      requires Holds()
      ensures full == Pages.IsFull(page, keySize, valueSize)
    {
      var need := Need(keySize, valueSize);
      if (cellOffset - (NODE_HEADER + SLOT * size)) % U32 < need {
        var next := tombstoneOffset;
        ghost var i := 0;
        while next != 0
          invariant 0 <= i <= |page.tombs| && next == OffsetOf(page.tombs, i)
          invariant forall j | 0 <= j < i :: page.tombs[j].size < need
          decreases |page.tombs| - i
        {
          assert HoldsTomb(mem[..], page.tombs, i);
          var tombSize := ReadWord(next);
          if tombSize >= need {
            assert page.tombs[i] in page.tombs;
            return false;
          }
          next := ReadWord(next + 4);
          i := i + 1;
        }
        assert i < |page.tombs| ==> HoldsTomb(mem[..], page.tombs, i);
        return true;
      }
      return false;
    }

    /** Takes free space, or cuts the cell out of the head of the dead list, or gives up with 0. */
    method GetFreeOffset(keySize: nat, valueSize: nat) returns (off: int)
      requires Holds() && Sound(page)
      requires keySize + valueSize + CELL_HEADER + 3 < U32
      modifies this`page, this`tombstoneOffset, this`tombstoneBytes, mem
      ensures Holds()
      ensures (page, off) == Pages.GetFreeOffset(old(page), keySize, valueSize)
    {
      hide Sound, HoldsCells, HoldsSlots, HoldsTombs, SameBut, Need;
      var need := Need(keySize, valueSize);
      NeedMeaning(keySize, valueSize);
      if (cellOffset - (NODE_HEADER + SLOT * size)) % U32 < need {
        ghost var ts, m := page.tombs, mem[..];
        HeadBound(m, ts);
        if ts != [] {
          TombsPop(m, ts);
          HeadExtent(page);
        }
        if tombstoneOffset != 0 {
          var tombSize := ReadWord(tombstoneOffset);
          if need <= tombSize {
            off := tombstoneOffset;
            var diff := tombSize - need;
            var next := ReadWord(off + 4);
            if diff > CELL_HEADER {
              WriteTomb(off + need, diff - CELL_HEADER, next);
              RemainderFrame(m, mem[..], page, off + need, off + need + 8);
              TombsPush(mem[..], Tomb(off + need, diff - CELL_HEADER), ts[1..]);
              next := off + need;
            }
            tombstoneOffset := next;
            tombstoneBytes := (tombstoneBytes - need) % U32;
            page := page.(tombs := Carve(ts, need), tombBytes := tombstoneBytes);
            return;
          }
        }
        off := 0;
      } else {
        off := cellOffset - need;
      }
    }

    method PartitionIdx() returns (idx: nat)
      requires Holds()
      ensures idx == Pages.PartitionIdx(page.cells)
    {
      hide Bytes, HoldsCell, HoldsSlots, HoldsTombs;
      idx := 0;
      var middleBytes := 0;
      BytesEmpty(page.cells);
      while idx < size && middleBytes < HALF
        invariant idx <= size && middleBytes == Bytes(page.cells[..idx])
        invariant forall i | 0 <= i < idx :: Bytes(page.cells[..i]) < HALF
      {
        var total := TotalSize(idx);
        middleBytes := middleBytes + CELL_HEADER + total;
        BytesNext(page.cells, idx);
        idx := idx + 1;
      }
      PartitionUnique(page.cells, idx);
    }

    // ----- Cells -----

    method WriteLeafCell(off: int, key: Key, value: seq<Byte>)
      requires mem.Length == NODE_SIZE
      requires NODE_HEADER <= off && off + CELL_HEADER + |key| + |value| <= NODE_SIZE
      modifies mem
      ensures HoldsCell(mem[..], true, Cell(off, key, value, 0))
      ensures SameBut(old(mem[..]), mem[..], off, off + CELL_HEADER + |key| + |value|)
    {
      WriteWord(off, 0);
      WriteWord(off + 8, |key|);
      WriteWord(off + 4, |value|);
      WriteWord(off + 12, |key| + |value|);
      CopyIn(off + CELL_HEADER, key);
      CopyIn(off + CELL_HEADER + |key|, value);
    }

    method WriteInternalCell(off: int, key: Key, child: Pid)
      requires mem.Length == NODE_SIZE && child < U64
      requires NODE_HEADER <= off && off + CELL_HEADER + |key| <= NODE_SIZE
      modifies mem
      ensures HoldsCell(mem[..], false, Cell(off, key, [], child))
      ensures SameBut(old(mem[..]), mem[..], off, off + CELL_HEADER + |key|)
    {
      WriteWord(off + 8, |key|);
      WriteWord(off + 12, |key|);
      WriteWord(off, child % U32);
      WriteWord(off + 4, child / U32);
      CopyIn(off + CELL_HEADER, key);
    }

    /** memmove of the slots from idx on by one slot, then the new slot. */
    method OpenSlot(idx: nat, ghost c: Cell, off: int)
      requires mem.Length == NODE_SIZE && off == c.off && 0 <= off < U32
      requires HoldsSlots(mem[..], page.cells) && size == |page.cells| && idx <= size
      requires NODE_HEADER + SLOT * (size + 1) <= NODE_SIZE
      modifies mem
      ensures HoldsSlots(mem[..], InsertAt(page.cells, idx, c))
      ensures SameBut(old(mem[..]), mem[..], NODE_HEADER, NODE_HEADER + SLOT * (size + 1))
    {
      hide HoldsSlots;
      var from, to := NODE_HEADER + SLOT * idx, NODE_HEADER + SLOT * size;
      ghost var m := mem[..];
      forall x | from <= x < to {
        mem[x + SLOT] := mem[x];
      }
      WriteWord(from, off);
      SlotsInsert(m, mem[..], page.cells, idx, c);
    }

    /** The decoded page gains the cell at idx when its extent is unused and the slots have room to grow. */
    method InsertLeafCell(off: int, idx: nat, key: Key, value: seq<Byte>)
      requires Holds() && Sound(page) && leaf && idx <= size
      requires Unused(page, off, off + CELL_HEADER + |key| + |value|)
      requires Within(page, SlotsEnd(page) + SLOT) && SlotsEnd(page) + SLOT <= off
      modifies this`page, this`size, this`cellOffset, mem
      ensures Holds()
      ensures page == InsertCell(old(page), idx, Cell(off, key, value, 0))
    {
      ghost var c := Cell(off, key, value, 0);
      ghost var m0 := mem[..];
      OpenSlot(idx, c, off);
      ghost var m1 := mem[..];
      WriteLeafCell(off, key, value);
      InsertFrame(m0, m1, mem[..], leaf, page.cells, page.tombs, idx, c);
      cellOffset := off;
      size := size + 1;
      page := InsertCell(page, idx, c);
    }

    method InsertInternalCell(off: int, idx: nat, key: Key, child: Pid)
      requires Holds() && Sound(page) && !leaf && idx <= size && child < U64
      requires Unused(page, off, off + CELL_HEADER + |key|)
      requires Within(page, SlotsEnd(page) + SLOT) && SlotsEnd(page) + SLOT <= off
      modifies this`page, this`size, this`cellOffset, mem
      ensures Holds()
      ensures page == InsertCell(old(page), idx, Cell(off, key, [], child))
    {
      ghost var c := Cell(off, key, [], child);
      ghost var m0 := mem[..];
      OpenSlot(idx, c, off);
      ghost var m1 := mem[..];
      WriteInternalCell(off, key, child);
      InsertFrame(m0, m1, mem[..], leaf, page.cells, page.tombs, idx, c);
      cellOffset := off;
      size := size + 1;
      page := InsertCell(page, idx, c);
    }

    // ----- Tombstones -----

    /** Turns the cell of slot idx dead in place: only its first eight bytes change. `live` are the
        cells that are still alive, among them this one at position `at`. */
    method SetTombstone(idx: nat, ghost live: seq<Cell>, ghost at: nat)
      requires mem.Length == NODE_SIZE && idx < |page.cells| && at < |live| && live[at] == page.cells[idx]
      requires HoldsSlots(mem[..], page.cells) && HoldsCells(mem[..], leaf, live) && HoldsTombs(mem[..], page.tombs)
      requires tombstoneOffset == OffsetOf(page.tombs, 0) && tombstoneBytes == page.tombBytes
      requires Sound(page.(cells := live)) && SlotsEnd(page) <= page.cells[idx].off
      modifies this`page, this`tombstoneOffset, this`tombstoneBytes, mem
      ensures page == Bury(old(page), old(page.cells[idx]))
      ensures HoldsSlots(mem[..], page.cells) && HoldsCells(mem[..], leaf, RemoveAt(live, at)) && HoldsTombs(mem[..], page.tombs)
      ensures tombstoneOffset == OffsetOf(page.tombs, 0) && tombstoneBytes == page.tombBytes
      ensures Sound(page.(cells := RemoveAt(live, at)))
    {
      hide Sound, Valid, HoldsCell, HoldsCells, HoldsSlots, HoldsTombs, TombsClear, CellsApart, SameBut, RemoveAt;
      ghost var c, m := page.cells[idx], mem[..];
      LiveCell(page.(cells := live), at);
      CellOf(m, leaf, live, at);
      HeadBound(m, page.tombs);
      var off := SlotOffset(idx);
      var total := TotalSize(idx);
      WriteTomb(off, CELL_HEADER + total, tombstoneOffset);
      ghost var m' := mem[..];
      SameButWiden(m, m', off, off + 8, off, c.End());
      TombsFrame(m, m', page.tombs, off, c.End());
      TombsPush(m', Tomb(off, c.Size()), page.tombs);
      SlotsFrame(m, m', page.cells, off, c.End());
      RemoveFrame(m, m', leaf, live, at);
      DeleteValid(page.(cells := live), at);
      tombstoneOffset := off;
      tombstoneBytes := (tombstoneBytes + CELL_HEADER + total) % U32;
      page := Bury(page, c);
    }

    /** memmove of the slots behind idx back by one slot. */
    method CloseSlot(idx: nat)
      requires mem.Length == NODE_SIZE && HoldsSlots(mem[..], page.cells) && size == |page.cells| && idx < size
      modifies mem
      ensures HoldsSlots(mem[..], RemoveAt(page.cells, idx))
      ensures SameBut(old(mem[..]), mem[..], NODE_HEADER, SlotsEnd(page))
    {
      hide HoldsSlots;
      SlotsFit(mem[..], page.cells);
      var from, to := NODE_HEADER + SLOT * (idx + 1), NODE_HEADER + SLOT * size;
      ghost var m := mem[..];
      forall x | from <= x < to {
        mem[x - SLOT] := mem[x];
      }
      SlotsRemove(m, mem[..], page.cells, idx);
    }

    /** Returns 1 and changes nothing when the key is absent; otherwise its cell leaves the page. */
    method DeleteKey(key: Key) returns (ret: int)
      requires Holds() && Sound(page) && SortedKeys(KeysOf(page.cells)) && |key| < KEY_LIMIT
      modifies this`page, this`size, this`tombstoneOffset, this`tombstoneBytes, mem
      ensures Holds()
      ensures ret == if key in KeysOf(old(page).cells) then 0 else 1
      ensures page == if key in KeysOf(old(page).cells)
                      then DeleteCell(old(page), Rank(KeysOf(old(page).cells), key)) else old(page)
      ensures forall r | 0 <= r < |old(page).cells| && old(page).cells[r].key == key :: Deleted(old(page), page, r)
      ensures Sound(page) && SortedKeys(KeysOf(page.cells)) && key !in KeysOf(page.cells)
    {
      hide Precedes, Rank, Sound, HoldsCells, HoldsSlots, HoldsTombs, CellsClear, TombsClear, SameBut, RemoveAt, Deleted, SortedKeys;
      var found, idx := BinSearch(key);
      assert forall r | 0 <= r < |page.cells| :: KeysOf(page.cells)[r] == page.cells[r].key;
      if !found {
        return 1;
      }
      ghost var p := page;
      assert page.(cells := p.cells) == page;
      SlotsClear(p, idx);
      DeletedMeaning(p, idx);
      DeleteValid(p, idx);
      SetTombstone(idx, p.cells, idx);
      ghost var m := mem[..];
      CloseSlot(idx);
      CellsFrame(m, mem[..], leaf, RemoveAt(p.cells, idx), NODE_HEADER, SlotsEnd(p));
      TombsFrame(m, mem[..], page.tombs, NODE_HEADER, SlotsEnd(p));
      size := size - 1;
      page := page.(cells := RemoveAt(page.cells, idx));
      return 0;
    }

    // ----- Splitting -----

    /** In the middle of a split at q: the cells from q to k are dead, the slots are still the old ones. */
    ghost predicate Burying(p: Page, q: nat, k: nat)
      reads this, mem
    {
      && mem.Length == NODE_SIZE
      && q <= k <= size == |p.cells|
      && page == BuryAll(p, p.cells[q..k])
      && page == Page(leaf, root, page.cells, rightmost, cellOffset, page.tombs, tombstoneBytes)
      && 0 <= cellOffset < U32
      && tombstoneOffset == OffsetOf(page.tombs, 0)
      && HoldsSlots(mem[..], p.cells)
      && HoldsCells(mem[..], leaf, p.cells[..q] + p.cells[k..])
      && HoldsTombs(mem[..], page.tombs)
      && Sound(page.(cells := p.cells[..q] + p.cells[k..]))
    }

    /** In the middle of a split, the new page: its cells are written, its size is still 0. */
    ghost predicate Filling(moved: seq<Cell>)
      reads this, mem
    {
      && mem.Length == NODE_SIZE
      && page == EmptyPage(leaf, root)
      && size == 0 && rightmost == 0 && tombstoneOffset == 0 && tombstoneBytes == 0
      && 0 <= cellOffset == NODE_SIZE - Bytes(moved) <= NODE_SIZE
      && HoldsSlots(mem[..], Spread(moved, NODE_SIZE))
      && HoldsCells(mem[..], leaf, Spread(moved, NODE_SIZE))
    }

    lemma StartBurying(q: nat)
      requires Holds() && Valid(page) && q < size
      ensures Burying(page, q, q)
    {
      assert page.cells[q..q] == [];
      assert page.cells[..q] + page.cells[q..] == page.cells;
      assert page.(cells := page.cells) == page;
    }

    lemma StartFilling()
      requires Holds() && page == EmptyPage(leaf, root)
      ensures Filling([])
    {}

    /** Turns the cell of slot k dead; the slots stay as they are. */
    method BuryNext(ghost p: Page, ghost q: nat, k: nat)
      requires Burying(p, q, k) && Valid(p) && k < size
      modifies this`page, this`tombstoneOffset, this`tombstoneBytes, mem
      ensures Burying(p, q, k + 1)
    {
      hide Sound, Valid, HoldsCells, HoldsSlots, HoldsTombs, BuryAll, RemoveAt;
      ghost var live := p.cells[..q] + p.cells[k..];
      BuryAllTombs(p, p.cells[q..k]);
      ValidCell(p, k);
      SetTombstone(k, live, q);
      assert RemoveAt(live, q) == p.cells[..q] + p.cells[k + 1..] by { RemoveMiddle(p.cells, q, k); }
      assert p.cells[q..k + 1] == p.cells[q..k] + [p.cells[k]];
      BuryAllAppend(p, p.cells[q..k], p.cells[k]);
    }

    /** Writes the next moved cell below the ones before. */
    method FillLeafCell(ghost moved: seq<Cell>, ghost c: Cell, j: nat, key: Key, value: seq<Byte>)
      requires leaf && Filling(moved) && j == |moved|
      requires c.key == key && c.value == value && c.child == 0
      requires NODE_HEADER + SLOT * (j + 1) <= NODE_SIZE - Bytes(moved + [c])
      modifies this`cellOffset, mem
      ensures Filling(moved + [c])
    {
      hide HoldsCell, HoldsCells, HoldsSlots, HoldsTombs, Bytes, Spread;
      ghost var m, done := mem[..], Spread(moved, NODE_SIZE);
      SpreadNext(moved, c, NODE_SIZE);
      cellOffset := cellOffset - (CELL_HEADER + |key| + |value|);
      WriteWord(NODE_HEADER + SLOT * j, cellOffset);
      ghost var m1, next := mem[..], c.(off := cellOffset);
      AppendSlot(m, m1, done, next);
      WriteLeafCell(cellOffset, key, value);
      AppendFrame(m, m1, mem[..], true, done, next, NODE_SIZE - Bytes(moved));
    }

    /** The cell of slot k, which is the first one still alive behind the split point. */
    method NextLeafCell(ghost p: Page, ghost q: nat, k: nat) returns (key: Key, value: seq<Byte>)
      requires leaf && Burying(p, q, k) && k < size
      ensures key == p.cells[k].key && value == p.cells[k].value && p.cells[k].child == 0
    {
      hide Sound, HoldsCell, HoldsCells, HoldsSlots, HoldsTombs, BuryAll;
      CellOf(mem[..], leaf, p.cells[..q] + p.cells[k..], q);
      LeafCellWords(mem[..], p.cells[k]);
      BuryAllTombs(p, p.cells[q..k]);
      var off := SlotOffset(k);
      var keySize := ReadWord(off + 8);
      var valueSize := ReadWord(off + 4);
      key, value := mem[off + 16..off + 16 + keySize], mem[off + 16 + keySize..off + 16 + keySize + valueSize];
    }

    /** All cells behind q are dead: the page ends before them. */
    method Truncate(ghost p: Page, q: nat)
      requires Burying(p, q, size) && q < size
      modifies this`page, this`size
      ensures Holds() && page == SplitLeft(p, q)
    {
      hide Sound, HoldsCell, HoldsCells, HoldsTombs, BuryAll;
      assert p.cells[q..size] == p.cells[q..];
      assert p.cells[..q] + p.cells[size..] == p.cells[..q];
      SlotsPrefix(mem[..], p.cells, q);
      size := q;
      page := page.(cells := p.cells[..q]);
    }

    /** The written cells become the page's own. */
    method Adopt(n: nat, ghost moved: seq<Cell>)
      requires Filling(moved) && n == |moved|
      modifies this`page, this`size
      ensures Holds()
      ensures page == old(page).(cells := Spread(moved, NODE_SIZE), cellOffset := NODE_SIZE - Bytes(moved))
    {
      hide HoldsCell, HoldsCells, HoldsSlots, Bytes, Spread;
      size := n;
      page := page.(cells := Spread(moved, NODE_SIZE), cellOffset := cellOffset);
    }

    /** Moves the cells from q on to an empty leaf; each turns dead as soon as it is copied. */
    method LeafSplit(into: Node, q: nat)
      requires Holds() && into.Holds() && leaf && CanSplit(page, into.page, q)
      requires into != this && into.mem != mem
      modifies this`page, this`size, this`tombstoneOffset, this`tombstoneBytes, mem
      modifies into`page, into`size, into`cellOffset, into.mem
      ensures Holds() && page == SplitLeft(old(page), q)
      ensures into.Holds() && into.page == SplitRight(old(page), old(into.page), q)
      ensures LeftApart(old(page), q, page) && RightApart(old(page), q, into.page)
    {
      hide Valid, Burying, Filling, Bytes, Spread, SplitLeft, LeftApart, RightApart;
      ghost var p := page;
      SplitMeaning(p, into.page, q);
      StartBurying(q);
      into.StartFilling();
      assert p.cells[q..q] == [];
      var k, j := q, 0;
      while k < size
        invariant q <= k <= size == |p.cells| && j == k - q
        invariant Burying(p, q, k) && into.Filling(p.cells[q..k]) && into.page == old(into.page)
      {
        MovedRoom(p, q, k);
        var key, value := NextLeafCell(p, q, k);
        into.FillLeafCell(p.cells[q..k], p.cells[k], j, key, value);
        BuryNext(p, q, k);
        k, j := k + 1, j + 1;
      }
      assert p.cells[q..k] == p.cells[q..];
      into.Adopt(size - q, p.cells[q..]);
      Truncate(p, q);
    }

    method FillInternalCell(ghost moved: seq<Cell>, ghost c: Cell, j: nat, key: Key, child: Pid)
      requires !leaf && Filling(moved) && j == |moved| && child < U64
      requires c.key == key && c.value == [] && c.child == child
      requires NODE_HEADER + SLOT * (j + 1) <= NODE_SIZE - Bytes(moved + [c])
      modifies this`cellOffset, mem
      ensures Filling(moved + [c])
    {
      hide HoldsCell, HoldsCells, HoldsSlots, HoldsTombs, Bytes, Spread;
      ghost var m, done := mem[..], Spread(moved, NODE_SIZE);
      SpreadNext(moved, c, NODE_SIZE);
      cellOffset := cellOffset - (CELL_HEADER + |key|);
      WriteWord(NODE_HEADER + SLOT * j, cellOffset);
      ghost var m1, next := mem[..], c.(off := cellOffset);
      AppendSlot(m, m1, done, next);
      WriteInternalCell(cellOffset, key, child);
      AppendFrame(m, m1, mem[..], false, done, next, NODE_SIZE - Bytes(moved));
    }

    method NextInternalCell(ghost p: Page, ghost q: nat, k: nat) returns (key: Key, child: Pid)
      requires !leaf && Burying(p, q, k) && k < size
      ensures key == p.cells[k].key && child == p.cells[k].child < U64 && p.cells[k].value == []
    {
      hide Sound, HoldsCell, HoldsCells, HoldsSlots, HoldsTombs, BuryAll;
      CellOf(mem[..], leaf, p.cells[..q] + p.cells[k..], q);
      InternalCellWords(mem[..], p.cells[k]);
      BuryAllTombs(p, p.cells[q..k]);
      var off := SlotOffset(k);
      var keySize := ReadWord(off + 8);
      var low := ReadWord(off);
      var high := ReadWord(off + 4);
      key, child := mem[off + 16..off + 16 + keySize], low + U32 * high;
    }

    /** The loop of an internal split: the partition cell turns dead, each cell behind it as soon as it is copied. */
    method MoveInternalCells(into: Node, q: nat)
      requires Holds() && into.Holds() && !leaf && CanSplit(page, into.page, q)
      requires into != this && into.mem != mem
      modifies this`page, this`tombstoneOffset, this`tombstoneBytes, mem
      modifies into`cellOffset, into.mem
      ensures Burying(old(page), q, size) && into.Filling(old(page).cells[q + 1..])
    {
      hide Valid, Burying, Filling, Bytes;
      ghost var p := page;
      StartBurying(q);
      into.StartFilling();
      assert p.cells[q + 1..q + 1] == [];
      BuryNext(p, q, q);
      var k, j := q + 1, 0;
      while k < size
        invariant q < k <= size == |p.cells| && j == k - q - 1
        invariant Burying(p, q, k) && into.Filling(p.cells[q + 1..k]) && into.page == old(into.page)
      {
        MovedRoom(p, q, k);
        var key, child := NextInternalCell(p, q, k);
        into.FillInternalCell(p.cells[q + 1..k], p.cells[k], j, key, child);
        BuryNext(p, q, k);
        k, j := k + 1, j + 1;
      }
      assert p.cells[q + 1..k] == p.cells[q + 1..];
    }

    /** Drops the partition cell, turning it dead with its child, and moves the cells behind it to an
        empty internal page; neither page's rightmost child changes. */
    method InternalSplit(into: Node, q: nat)
      requires Holds() && into.Holds() && !leaf && CanSplit(page, into.page, q)
      requires into != this && into.mem != mem
      modifies this`page, this`size, this`tombstoneOffset, this`tombstoneBytes, mem
      modifies into`page, into`size, into`cellOffset, into.mem
      ensures Holds() && page == SplitLeft(old(page), q)
      ensures into.Holds() && into.page == SplitRight(old(page), old(into.page), q)
      ensures LeftApart(old(page), q, page) && RightApart(old(page), q + 1, into.page)
    {
      hide Valid, Burying, Filling, Bytes, Spread, SplitLeft, LeftApart, RightApart;
      ghost var p := page;
      SplitMeaning(p, into.page, q);
      MoveInternalCells(into, q);
      into.Adopt(size - (q + 1), p.cells[q + 1..]);
      Truncate(p, q);
    }

    // ----- Whole insertions -----

    /** The offset that was allocated takes the cell: the page gains it at idx. */
    method InsertNonfull(idx: nat, key: Key, value: seq<Byte>)
      requires Holds() && Valid(page) && leaf && idx <= size
      requires |key| + |value| + CELL_HEADER + 3 < U32 && HasRoom(page, |key|, |value|)
      modifies this`page, this`size, this`cellOffset, this`tombstoneOffset, this`tombstoneBytes, mem
      ensures Holds() && Sound(page)
      ensures var (p, off) := Pages.GetFreeOffset(old(page), |key|, |value|); page == InsertCell(p, idx, Cell(off, key, value, 0))
      ensures Valid(page) <==> KeepsValid(old(page), |key|, |value|)
    {
      hide Valid, Sound, Unused, Within, HasRoom, KeepsValid, Pages.GetFreeOffset, InsertCell, HoldsCells, HoldsSlots, HoldsTombs;
      ghost var p := page;
      RoomForCell(p, |key|, |value|);
      InsertValid(p, idx, key, value, 0);
      var off := GetFreeOffset(|key|, |value|);
      InsertLeafCell(off, idx, key, value);
    }

    /** The happy path at the end of btree_insert: allocation, search, insertion. */
    method PutLeaf(key: Key, value: seq<Byte>)
      requires Holds() && TakesPair(page, key, value)
      modifies this`page, this`size, this`cellOffset, this`tombstoneOffset, this`tombstoneBytes, mem
      ensures Holds() && Sound(page) && page == Pages.PutLeaf(old(page), key, value)
      ensures Valid(page) <==> KeepsValid(old(page), |key|, |value|)
    {
      hide Valid, Sound, Unused, Within, HasRoom, KeepsValid, Pages.GetFreeOffset, InsertCell, HoldsCells, HoldsSlots, HoldsTombs, Rank,
        SortedKeys;
      ghost var p := page;
      RoomForCell(p, |key|, |value|);
      InsertValid(p, Rank(KeysOf(p.cells), key), key, value, 0);
      var off := GetFreeOffset(|key|, |value|);
      var _, idx := BinSearch(key);
      InsertLeafCell(off, idx, key, value);
    }

    /** The pointer at idx is redirected in place: a cell's child, or the rightmost one. */
    method SetChild(idx: nat, child: Pid)
      requires Holds() && Sound(page) && !leaf && idx <= size && child < U64
      modifies this`page, this`rightmost, mem
      ensures Holds() && page == Pages.SetChild(old(page), idx, child)
    {
      hide HoldsCell, HoldsCells, HoldsSlots, HoldsTombs, SameBut, Sound;
      if idx < size {
        ghost var m, p := mem[..], page;
        CellOf(m, leaf, p.cells, idx);
        InternalCellWords(m, p.cells[idx]);
        CellTomb(p, idx);
        var off := SlotOffset(idx);
        WriteTomb(off, child % U32, child / U32);
        page := Pages.SetChild(p, idx, child);
        ChildFrame(m, mem[..], p, idx, child);
      } else {
        rightmost := child;
        page := page.(rightmost := child);
      }
    }

    /** A separator goes in front of a new page: search, redirection, allocation, insertion. */
    method AddSep(sep: Key, child: Pid, newPid: Pid)
      requires Holds() && TakesSep(page, sep, child, newPid)
      modifies this`page, this`size, this`cellOffset, this`tombstoneOffset, this`tombstoneBytes, this`rightmost, mem
      ensures Holds() && Sound(page) && page == Pages.AddSep(old(page), sep, child, newPid)
      ensures Valid(page) <==> KeepsValid(old(page), |sep|, 0)
    {
      hide Valid, Sound, Unused, Within, HasRoom, KeepsValid, Pages.GetFreeOffset, InsertCell, HoldsCells, HoldsSlots, HoldsTombs, Rank,
        SortedKeys, Pages.SetChild;
      ghost var p := page;
      var _, idx := BinSearch(sep);
      SetChildValid(p, idx, newPid, |sep|);
      SetChildCount(p, idx, newPid);
      ValidIsSound(p);
      SetChild(idx, newPid);
      RoomForCell(page, |sep|, 0);
      InsertValid(page, idx, sep, [], child);
      var off := GetFreeOffset(|sep|, 0);
      InsertInternalCell(off, idx, sep, child);
    }

    /** What a new root receives: one separator, the child before it and the rightmost child. */
    method FillRoot(sep: Key, left: Pid, right: Pid)
      requires Holds() && page == EmptyPage(false, true) && FitsRoot(sep, left, right)
      modifies this`page, this`size, this`cellOffset, this`tombstoneOffset, this`tombstoneBytes, this`rightmost, mem
      ensures Holds() && Valid(page) && page == RootPage(sep, left, right)
    {
      hide Sound, Unused, Within, Pages.GetFreeOffset, HoldsCells, HoldsSlots, HoldsTombs;
      ghost var p := page;
      RootHasRoom(sep);
      RootPageValid(sep, left, right);
      RoomForCell(p, |sep|, 0);
      InsertValid(p, 0, sep, [], left);
      var off := GetFreeOffset(|sep|, 0);
      InsertInternalCell(off, 0, sep, left);
      rightmost := right;
      page := page.(rightmost := right);
    }
  }

  lemma ValidIsSound(p: Page)
    requires Valid(p)
    ensures Sound(p)
  {}

  /** With room for the cell and its slot, the allocated extent can take the cell. */
  lemma RoomForCell(p: Page, keySize: nat, valueSize: nat)
    requires Valid(p) && HasRoom(p, keySize, valueSize) && keySize + valueSize + CELL_HEADER + 3 < U32
    ensures var (p', off) := Pages.GetFreeOffset(p, keySize, valueSize);
            && off != 0 && Sound(p) && Sound(p') && p' == p.(tombs := p'.tombs, tombBytes := p'.tombBytes)
            && Unused(p', off, off + CELL_HEADER + keySize + valueSize)
            && Within(p', SlotsEnd(p') + SLOT) && SlotsEnd(p') + SLOT <= off
  {
    hide Need, Carve;
    NeedMeaning(keySize, valueSize);
    AllocationSound(p, keySize, valueSize);
    FreeSpaceExact(p);
  }

  lemma CellTomb(p: Page, idx: nat)
    requires Sound(p) && idx < |p.cells|
    ensures TombsClear(p.tombs, p.cells[idx].off, p.cells[idx].End()) && SlotsEnd(p) <= p.cells[idx].off
    ensures CellsApart(p.cells) && p.cells[idx].off + CELL_HEADER <= p.cells[idx].End() <= NODE_SIZE
  {
    forall j | 0 <= j < |p.tombs| ensures Apart(p.tombs[j].off, p.tombs[j].End(), p.cells[idx].off, p.cells[idx].End()) {
      assert CellsClear(p.cells, p.tombs[j].off, p.tombs[j].End());
    }
  }

  /** Overwriting the child of one cell leaves everything else as it is. */
  lemma ChildFrame(m: seq<Byte>, m': seq<Byte>, p: Page, idx: nat, child: Pid)
    requires Sound(p) && idx < |p.cells| && HoldsSlots(m, p.cells) && HoldsCells(m, false, p.cells) && HoldsTombs(m, p.tombs)
    requires SameBut(m, m', p.cells[idx].off, p.cells[idx].off + 8) && Long(m', p.cells[idx].off) == child
    ensures var cs := p.cells[idx := p.cells[idx].(child := child)];
            HoldsSlots(m', cs) && HoldsCells(m', false, cs) && HoldsTombs(m', p.tombs)
  {
    hide HoldsTomb, HoldsTombs, HoldsSlots, HoldsCell, HoldsCells, Sound, CellsApart, SameBut;
    var c, cs := p.cells[idx], p.cells[idx := p.cells[idx].(child := child)];
    CellTomb(p, idx);
    SameButWiden(m, m', c.off, c.off + 8, c.off, c.End());
    TombsFrame(m, m', p.tombs, c.off, c.End());
    SlotsFrame(m, m', p.cells, c.off, c.End());
    SlotsSame(m', p.cells, cs);
    CellsSame(m, m', p.cells, idx, child);
  }

  lemma SlotsSame(m: seq<Byte>, cs: seq<Cell>, cs': seq<Cell>)
    requires HoldsSlots(m, cs) && |cs'| == |cs| && forall i | 0 <= i < |cs| :: cs'[i].off == cs[i].off
    ensures HoldsSlots(m, cs')
  {}

  lemma CellsSame(m: seq<Byte>, m': seq<Byte>, cs: seq<Cell>, idx: nat, child: Pid)
    requires HoldsCells(m, false, cs) && CellsApart(cs) && idx < |cs| && cs[idx].off + 8 <= |m|
    requires SameBut(m, m', cs[idx].off, cs[idx].off + 8) && NODE_HEADER <= cs[idx].off && Long(m', cs[idx].off) == child
    ensures HoldsCells(m', false, cs[idx := cs[idx].(child := child)])
  {
    hide HoldsCell;
    var c, r := cs[idx], cs[idx := cs[idx].(child := child)];
    forall i | 0 <= i < |cs| ensures HoldsCell(m', false, r[i]) {
      CellOf(m, false, cs, i);
      if i == idx {
        ChildWritten(m, m', c, child);
      } else {
        CellSize(m, cs[i]);
        assert Apart(cs[i].off, cs[i].End(), c.off, c.End());
        CellFrame(m, m', false, cs[i]);
      }
    }
  }

  lemma CellSize(m: seq<Byte>, c: Cell)
    requires HoldsCell(m, false, c)
    ensures c.off + CELL_HEADER <= c.End()
  {}

  lemma ChildWritten(m: seq<Byte>, m': seq<Byte>, c: Cell, child: Pid)
    requires HoldsCell(m, false, c) && SameBut(m, m', c.off, c.off + 8) && Long(m', c.off) == child
    ensures HoldsCell(m', false, c.(child := child))
  {
    assert m'[c.off + 16..c.off + 16 + |c.key|] == m[c.off + 16..c.off + 16 + |c.key|];
  }

  lemma BytesEmpty(cs: seq<Cell>)
    ensures Bytes(cs[..0]) == 0
  {}

  lemma BytesNext(cs: seq<Cell>, i: nat)
    requires i < |cs|
    ensures Bytes(cs[..i + 1]) == Bytes(cs[..i]) + cs[i].Size()
  {
    assert cs[..i + 1][..i] == cs[..i];
  }

  lemma RankFound(ks: seq<Key>, key: Key, i: nat)
    requires SortedKeys(ks) && i < |ks| && ks[i] == key
    ensures i == Rank(ks, key)
  {
    PrecedesTrichotomy(key, key);
    RankUnique(ks, key, i);
  }

  lemma RankMissing(ks: seq<Key>, key: Key, r: nat)
    requires SortedKeys(ks) && r <= |ks|
    requires r > 0 ==> Precedes(ks[r - 1], key)
    requires r < |ks| ==> Precedes(key, ks[r])
    ensures r == Rank(ks, key) && key !in ks
  {
    if r < |ks| { PrecedesTrichotomy(key, ks[r]); }
    RankUnique(ks, key, r);
    forall i | 0 <= i < |ks| ensures ks[i] != key {
      PrecedesTrichotomy(ks[i], key);
      if i >= r { RankMeaning(ks, key, i); }
    }
  }
}
