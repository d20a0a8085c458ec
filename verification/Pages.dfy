/** One slotted page as a value: its cells in slot order, where each cell lies in the 4096 bytes,
    and the list of dead extents (src/tree/node.c). Node.dfy shows that the bytes follow these functions. */
module Pages {
  import opened Keys

  const NODE_SIZE: int := 4096
  const NODE_HEADER: int := 56
  const CELL_HEADER: int := 16
  const SLOT: int := 4
  const HALF: int := NODE_SIZE / 2 - NODE_HEADER
  const U32: int := 0x1_0000_0000
  const U64: int := U32 * U32

  /** A page's address; 0 is the null pointer. */
  type Pid = nat

  /** A live cell. Leaf cells carry a value, internal cells carry a child. */
  datatype Cell = Cell(off: int, key: Key, value: seq<Byte>, child: Pid) {
    function Size(): int { CELL_HEADER + |key| + |value| }
    function End(): int { off + Size() }
  }

  /** A dead extent; its size and link words occupy its first eight bytes. */
  datatype Tomb = Tomb(off: int, size: int) {
    function End(): int { off + if size < 8 then 8 else size }
  }

  datatype Page = Page(
    leaf: bool,
    root: bool,
    cells: seq<Cell>,
    rightmost: Pid,
    cellOffset: int,
    tombs: seq<Tomb>,
    tombBytes: int)

  function EmptyPage(leaf: bool, root: bool): Page {
    Page(leaf, root, [], 0, NODE_SIZE, [], 0)
  }

  function KeysOf(cells: seq<Cell>): (ks: seq<Key>)
    ensures |ks| == |cells|
  {
    seq(|cells|, i requires 0 <= i < |cells| => cells[i].key)
  }

  predicate SortedKeys(ks: seq<Key>) {
    forall i, j | 0 <= i < j < |ks| :: Precedes(ks[i], ks[j])
  }

  /** How many keys come before `key`, counting from the left. */
  function Rank(ks: seq<Key>, key: Key): (r: nat)
    ensures r <= |ks|
    ensures forall i | 0 <= i < r :: Precedes(ks[i], key)
    ensures r < |ks| ==> !Precedes(ks[r], key)
  {
    if ks == [] || !Precedes(ks[0], key) then 0 else 1 + Rank(ks[1..], key)
  }

  lemma RankUnique(ks: seq<Key>, key: Key, r: nat)
    requires SortedKeys(ks)
    requires r <= |ks|
    requires r == 0 || Precedes(ks[r - 1], key)
    requires r < |ks| ==> !Precedes(ks[r], key)
    ensures r == Rank(ks, key)
  {
    var q := Rank(ks, key);
    if q < r - 1 {
      PrecedesTransitive(ks[q], ks[r - 1], key);
    }
  }

  /** Every key from the rank on is the sought key or comes after it. */
  lemma RankMeaning(ks: seq<Key>, key: Key, i: nat)
    requires SortedKeys(ks)
    requires Rank(ks, key) <= i < |ks|
    ensures ks[i] == key || Precedes(key, ks[i])
    ensures i > Rank(ks, key) ==> Precedes(key, ks[i])
  {
    var r := Rank(ks, key);
    PrecedesTrichotomy(ks[r], key);
    if r < i && ks[r] != key {
      PrecedesTransitive(key, ks[r], ks[i]);
    }
  }

  // ----- Where things lie -----

  predicate Apart(a: int, aEnd: int, b: int, bEnd: int) {
    aEnd <= b || bEnd <= a
  }

  function SlotsEnd(p: Page): int { NODE_HEADER + SLOT * |p.cells| }

  predicate CellsClear(cs: seq<Cell>, off: int, end: int) {
    forall i | 0 <= i < |cs| :: Apart(cs[i].off, cs[i].End(), off, end)
  }

  predicate TombsClear(ts: seq<Tomb>, off: int, end: int) {
    forall i | 0 <= i < |ts| :: Apart(ts[i].off, ts[i].End(), off, end)
  }

  predicate CellsWithin(cs: seq<Cell>, floor: int) {
    forall i | 0 <= i < |cs| :: floor <= cs[i].off && cs[i].End() <= NODE_SIZE
  }

  predicate TombsWithin(ts: seq<Tomb>, floor: int) {
    forall i | 0 <= i < |ts| :: floor <= ts[i].off && 0 < ts[i].size && ts[i].End() <= NODE_SIZE
  }

  predicate CellsApart(cs: seq<Cell>) {
    forall i, j | 0 <= i < j < |cs| :: Apart(cs[i].off, cs[i].End(), cs[j].off, cs[j].End())
  }

  predicate TombsApart(ts: seq<Tomb>) {
    forall i, j | 0 <= i < j < |ts| :: Apart(ts[i].off, ts[i].End(), ts[j].off, ts[j].End())
  }

  predicate CrossApart(cs: seq<Cell>, ts: seq<Tomb>) {
    forall j | 0 <= j < |ts| :: CellsClear(cs, ts[j].off, ts[j].End())
  }

  /** Everything the page holds lies in the page at or above `floor`. */
  predicate Within(p: Page, floor: int) {
    CellsWithin(p.cells, floor) && TombsWithin(p.tombs, floor)
  }

  /** [off, end) lies in the page above the slots and touches no live cell and no dead extent. */
  predicate Unused(p: Page, off: int, end: int) {
    SlotsEnd(p) <= off && end <= NODE_SIZE && CellsClear(p.cells, off, end) && TombsClear(p.tombs, off, end)
  }

  /** The slot array, the live cells and the dead extents lie in the page and share no byte. */
  predicate Sound(p: Page) {
    && SlotsEnd(p) <= NODE_SIZE
    && Within(p, SlotsEnd(p))
    && CellsApart(p.cells)
    && TombsApart(p.tombs)
    && CrossApart(p.cells, p.tombs)
  }

  /** Moreover the bytes between the slot array and cell_offset are free. */
  predicate Valid(p: Page) {
    Sound(p) && SlotsEnd(p) <= p.cellOffset <= NODE_SIZE && Within(p, p.cellOffset)
  }

  // ----- Free space -----

  function Align4(n: int): int { (n + 3) / 4 * 4 }

  /** Bytes to allocate for a cell; both sums are truncated to 32 bits as in C. */
  function Need(keySize: nat, valueSize: nat): int {
    Align4((keySize + valueSize) % U32 + CELL_HEADER) % U32
  }

  /** An unsigned difference, so it would wrap if the slots had grown past cell_offset. */
  function FreeSpace(p: Page): int {
    (p.cellOffset - SlotsEnd(p)) % U32
  }

  predicate IsFull(p: Page, keySize: nat, valueSize: nat) {
    FreeSpace(p) < Need(keySize, valueSize) && forall t | t in p.tombs :: t.size < Need(keySize, valueSize)
  }

  predicate HeadFits(p: Page, keySize: nat, valueSize: nat) {
    p.tombs != [] && Need(keySize, valueSize) <= p.tombs[0].size
  }

  /** The head dead extent after `need` bytes are cut from its front. A remainder of at most
      16 bytes is dropped, a larger one loses 16 bytes of its size. */
  function Carve(tombs: seq<Tomb>, need: int): seq<Tomb>
    requires tombs != []
  {
    var diff := tombs[0].size - need;
    if diff > CELL_HEADER then [Tomb(tombs[0].off + need, diff - CELL_HEADER)] + tombs[1..] else tombs[1..]
  }

  /** The allocated offset, or 0, and the page with its dead list updated. */
  function GetFreeOffset(p: Page, keySize: nat, valueSize: nat): (Page, int) {
    var need := Need(keySize, valueSize);
    if FreeSpace(p) >= need then (p, p.cellOffset - need)
    else if HeadFits(p, keySize, valueSize) then
      (p.(tombs := Carve(p.tombs, need), tombBytes := (p.tombBytes - need) % U32), p.tombs[0].off)
    else (p, 0)
  }

  // ----- Changing a page -----

  function InsertAt<T>(s: seq<T>, idx: nat, x: T): (r: seq<T>)
    requires idx <= |s|
    ensures |r| == |s| + 1
    ensures forall i {:trigger r[i]} | 0 <= i < |r| :: r[i] == if i < idx then s[i] else if i == idx then x else s[i - 1]
  {
    s[..idx] + [x] + s[idx..]
  }

  function RemoveAt<T>(s: seq<T>, idx: nat): (r: seq<T>)
    requires idx < |s|
    ensures |r| == |s| - 1
    ensures forall i {:trigger r[i]} | 0 <= i < |r| :: r[i] == if i < idx then s[i] else s[i + 1]
  {
    s[..idx] + s[idx + 1..]
  }

  function InsertCell(p: Page, idx: nat, c: Cell): Page
    requires idx <= |p.cells|
  {
    p.(cells := InsertAt(p.cells, idx, c), cellOffset := c.off)
  }

  function SetChild(p: Page, idx: nat, child: Pid): Page
    requires idx <= |p.cells|
  {
    if idx < |p.cells| then p.(cells := p.cells[idx := p.cells[idx].(child := child)]) else p.(rightmost := child)
  }

  /** Stores a pair in a leaf: allocation, search, insertion. */
  function PutLeaf(p: Page, key: Key, value: seq<Byte>): Page {
    var (p', off) := GetFreeOffset(p, |key|, |value|);
    InsertCell(p', Rank(KeysOf(p.cells), key), Cell(off, key, value, 0))
  }

  /** Puts a separator between a child and the new page split off it: the pointer that led to
      the child leads to the new page, and the new cell leads to the child. */
  function AddSep(p: Page, sep: Key, child: Pid, newPid: Pid): Page {
    var idx := Rank(KeysOf(p.cells), sep);
    var (p', off) := GetFreeOffset(SetChild(p, idx, newPid), |sep|, 0);
    InsertCell(p', idx, Cell(off, sep, [], child))
  }

  /** A new root: one separator, the old root before it and the page split off it behind it. */
  function RootPage(sep: Key, left: Pid, right: Pid): Page {
    var (p, off) := GetFreeOffset(EmptyPage(false, true), |sep|, 0);
    InsertCell(p, 0, Cell(off, sep, [], left)).(rightmost := right)
  }

  /** Turns a live extent into the newest dead one. */
  function Bury(p: Page, c: Cell): Page {
    p.(tombs := [Tomb(c.off, c.Size())] + p.tombs, tombBytes := (p.tombBytes + c.Size()) % U32)
  }

  function BuryAll(p: Page, cs: seq<Cell>): Page
    decreases |cs|
  {
    if cs == [] then p else BuryAll(Bury(p, cs[0]), cs[1..])
  }

  function DeleteCell(p: Page, idx: nat): Page
    requires idx < |p.cells|
  {
    Bury(p, p.cells[idx]).(cells := RemoveAt(p.cells, idx))
  }

  function Bytes(cs: seq<Cell>): (n: int)
    ensures n >= CELL_HEADER * |cs|
  {
    if cs == [] then 0 else Bytes(cs[..|cs| - 1]) + cs[|cs| - 1].Size()
  }

  /** Copies of cells laid out downwards from `top` without alignment. */
  function Spread(cs: seq<Cell>, top: int): (r: seq<Cell>)
    ensures |r| == |cs|
  {
    if cs == [] then []
    else Spread(cs[..|cs| - 1], top) + [cs[|cs| - 1].(off := top - Bytes(cs))]
  }

  /** What a split at `q` hands to the new page: a leaf keeps the partition cell, an internal page drops it. */
  function Moved(p: Page, q: nat): seq<Cell>
    requires q < |p.cells|
  {
    if p.leaf then p.cells[q..] else p.cells[q + 1..]
  }

  function SplitLeft(p: Page, q: nat): Page
    requires q < |p.cells|
  {
    BuryAll(p, p.cells[q..]).(cells := p.cells[..q])
  }

  function SplitRight(p: Page, into: Page, q: nat): Page
    requires q < |p.cells|
  {
    into.(cells := Spread(Moved(p, q), into.cellOffset), cellOffset := into.cellOffset - Bytes(Moved(p, q)))
  }

  /** The split point: how many cells from the left reach half a page, or all of them. */
  function PartitionIdx(cs: seq<Cell>): nat {
    if cs == [] then 0
    else
      var front := cs[..|cs| - 1];
      if PartitionIdx(front) < |front| || Bytes(front) >= HALF then PartitionIdx(front) else |cs|
  }
}
