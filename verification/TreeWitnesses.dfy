/** A run from the empty tree to a proper one whose next insertion splits an internal page, and so to pages
    that are no tree any more. */
module TreeWitnesses {
  import opened Keys
  import opened Pages
  import opened PageLaws
  import Runs = PageRuns
  import opened Trees
  import opened TreeInsert
  import opened TreeRefinement
  import opened TreeSpace
  import opened TreeBreaks
  import opened TreeTheorem
  import opened TreeRuns
  import PageWitnesses

  /** Keys of 984 bytes that ascend with their number, values of 1000 bytes. */
  function KeyNo(i: nat): (k: Key)
    requires i < 256
    ensures |k| == 984
  {
    [i] + PageWitnesses.Zeros(983)
  }

  function Value(): (v: seq<Byte>)
    ensures |v| == 1000
  {
    PageWitnesses.Zeros(1000)
  }

  function Pair(i: nat): Entry
    requires i < 256
  {
    (KeyNo(i), Value())
  }

  lemma KeysAscend(i: nat, j: nat)
    requires i < j < 256
    ensures Precedes(KeyNo(i), KeyNo(j)) && !Precedes(KeyNo(j), KeyNo(i)) && KeyNo(i) != KeyNo(j)
  {
    assert FirstDifference(KeyNo(i), KeyNo(j), 0);
    DifferenceDecides(KeyNo(i), KeyNo(j), 0);
    assert KeyNo(i)[0] != KeyNo(j)[0];
  }

  // ----- Leaves -----

  function LeafCell(off: int, i: nat): (c: Cell)
    requires i < 256
    ensures c.Size() == 2000
  {
    Cell(off, KeyNo(i), Value(), 0)
  }

  function OneLeaf(i: nat, root: bool): Page
    requires i < 256
  {
    Page(true, root, [LeafCell(2096, i)], 0, 2096, [], 0)
  }

  function FullLeaf(i: nat, root: bool): Page
    requires i < 255
  {
    Page(true, root, [LeafCell(2096, i), LeafCell(96, i + 1)], 0, 96, [], 0)
  }

  /** What is left of a full leaf after its split. */
  function HalfLeaf(i: nat): Page
    requires i < 256
  {
    Page(true, false, [LeafCell(2096, i)], 0, 96, [Tomb(96, 2000)], 2000)
  }

  lemma FirstPair(i: nat)
    requires i < 256
    ensures PutLeaf(EmptyPage(true, true), KeyNo(i), Value()) == OneLeaf(i, true)
  {
    hide Precedes;
  }

  lemma SecondPair(i: nat, root: bool)
    requires i < 255
    ensures PutLeaf(OneLeaf(i, root), KeyNo(i + 1), Value()) == FullLeaf(i, root)
    ensures HasRoom(OneLeaf(i, root), 984, 1000) && KeepsValid(OneLeaf(i, root), 984, 1000) && !IsFull(OneLeaf(i, root), 984, 1000)
  {
    hide Precedes, Rank;
    KeysAscend(i, i + 1);
    var p := OneLeaf(i, root);
    var ks := KeysOf(p.cells);
    assert ks == [KeyNo(i)];
    RankLast(ks, KeyNo(i + 1));
    assert FreeSpace(p) == 2036 && Need(984, 1000) == 2000;
  }

  /** A key behind all others. */
  lemma RankLast(ks: seq<Key>, key: Key)
    requires SortedKeys(ks) && forall i | 0 <= i < |ks| :: Precedes(ks[i], key)
    ensures Rank(ks, key) == |ks|
  {
    hide Precedes;
    RankUnique(ks, key, |ks|);
  }

  lemma FullLeafSplits(i: nat, root: bool)
    requires i < 255
    ensures var p := FullLeaf(i, root);
            && IsFull(p, 984, 1000) && PartitionIdx(p.cells) == 1
            && SplitLeft(p, 1) == HalfLeaf(i).(root := root)
            && SplitRight(p, EmptyPage(true, false), 1) == OneLeaf(i + 1, false)
  {
    var p := FullLeaf(i, root);
    assert FreeSpace(p) == 32 && Need(984, 1000) == 2000;
    Runs.PartitionUnique(p.cells, 1) by { TwoCells(p.cells); }
    assert p.cells[1..] == [LeafCell(96, i + 1)] && p.cells[..1] == [LeafCell(2096, i)];
    LeafBuried(p, LeafCell(96, i + 1));
    LeafSpread(LeafCell(96, i + 1));
  }

  lemma TwoCells(cs: seq<Cell>)
    requires |cs| == 2 && cs[0].Size() == cs[1].Size() == 2000
    ensures Runs.IsPartition(cs, 1)
  {
    assert cs[..1] == [cs[0]] && cs[..0] == [] && [cs[0]][..0] == [];
  }

  lemma LeafBuried(p: Page, c: Cell)
    ensures BuryAll(p, [c]) == Bury(p, c)
  {
    assert [c][1..] == [];
  }

  lemma LeafSpread(c: Cell)
    ensures Bytes([c]) == c.Size() && Spread([c], NODE_SIZE) == [c.(off := NODE_SIZE - c.Size())]
  {
    assert [c][..0] == [];
  }

  // ----- The root -----

  /** The page that holds the largest keys when the root has m separators, and the next address. */
  function LastLeaf(m: nat): Pid { if m == 1 then 2 else m + 2 }

  function Top(m: nat): Page
    requires 0 < m < 250
  {
    if m == 1 then RootPage(KeyNo(2), 1, 2) else AddSep(Top(m - 1), KeyNo(m + 1), LastLeaf(m - 1), m + 2)
  }

  lemma TopNext(m: nat)
    requires 0 < m < 4
    ensures Top(m + 1) == AddSep(Top(m), KeyNo(m + 2), LastLeaf(m), m + 3)
  {
    hide AddSep;
  }

  lemma TopFirst()
    ensures Top(1) == Page(false, true, [Cell(3096, KeyNo(2), [], 1)], 2, 3096, [], 0)
  {
    hide Rank;
    var p := EmptyPage(false, true);
    assert FreeSpace(p) == 4040 && Need(984, 0) == 1000;
    assert InsertAt<Cell>([], 0, Cell(3096, KeyNo(2), [], 1)) == [Cell(3096, KeyNo(2), [], 1)];
  }

  lemma {:induction false} TopMeaning(m: nat)
    requires 0 < m <= 4
    ensures var p := Top(m);
            && !p.leaf && p.root && p.tombs == [] && p.tombBytes == 0 && p.cellOffset == 4096 - 1000 * m && p.rightmost == LastLeaf(m)
            && |p.cells| == m && (forall i | 0 <= i < m :: p.cells[i].key == KeyNo(i + 2) && p.cells[i].value == [])
    decreases m
  {
    hide Rank, Precedes, Top, AddSep, KeyNo;
    if m == 1 {
      TopFirst();
    } else {
      TopMeaning(m - 1);
      TopNext(m - 1);
      var p := Top(m - 1);
      TopRank(m - 1, m + 1);
      assert FreeSpace(p) == 4040 - 1004 * (m - 1) && Need(984, 0) == 1000;
      TopAdds(p, KeyNo(m + 1), LastLeaf(m - 1), m + 2);
    }
  }

  /** A larger separator goes to the end of a page without dead cells. */
  lemma TopAdds(p: Page, sep: Key, child: Pid, newPid: Pid)
    requires |sep| == 984 && p.tombs == [] && Rank(KeysOf(p.cells), sep) == |p.cells| && FreeSpace(p) >= 1000
    ensures AddSep(p, sep, child, newPid)
         == p.(cells := p.cells + [Cell(p.cellOffset - 1000, sep, [], child)], cellOffset := p.cellOffset - 1000, rightmost := newPid)
  {
    hide Rank;
    assert Need(984, 0) == 1000;
    assert SetChild(p, |p.cells|, newPid) == p.(rightmost := newPid);
  }

  /** The separators are those of the keys from the second on, and a larger key goes to the last child. */
  lemma TopRank(m: nat, i: nat)
    requires 0 < m <= 4 && m + 1 < i < 256
    requires |Top(m).cells| == m && forall j | 0 <= j < m :: Top(m).cells[j].key == KeyNo(j + 2)
    ensures var ks := Seps(Top(m)); SortedKeys(ks) && Rank(ks, KeyNo(i)) == m && KeyNo(i) !in ks
  {
    hide Rank, Precedes, Top;
    var ks := Seps(Top(m));
    forall a, b | 0 <= a < b < m ensures Precedes(ks[a], ks[b]) { KeysAscend(a + 2, b + 2); }
    forall a | 0 <= a < m ensures Precedes(ks[a], KeyNo(i)) && ks[a] != KeyNo(i) { KeysAscend(a + 2, i); }
    RankLast(ks, KeyNo(i));
  }

  lemma TopSpace(m: nat)
    requires 0 < m <= 4
    ensures FreeSpace(Top(m)) == 4040 - 1004 * m
    ensures m < 4 ==> !IsFull(Top(m), 984, 0) && HasRoom(Top(m), 984, 0) && KeepsValid(Top(m), 984, 0)
    ensures m == 4 ==> IsFull(Top(m), 984, 0) && PartitionIdx(Top(m).cells) == 2
  {
    hide Top;
    TopMeaning(m);
    assert Need(984, 0) == 1000;
    if m == 4 { Runs.PartitionUnique(Top(m).cells, 2) by { FourCells(Top(m).cells); } }
  }

  lemma FourCells(cs: seq<Cell>)
    requires |cs| == 4 && forall i | 0 <= i < 4 :: cs[i].Size() == 1000
    ensures Runs.IsPartition(cs, 2)
  {
    assert cs[..0] == [] && cs[..1] == [cs[0]] && cs[..2] == [cs[0], cs[1]];
    assert [cs[0]][..0] == [] && [cs[0], cs[1]][..1] == [cs[0]];
  }

  // ----- Combs -----

  /** The tree after m + 2 ascending keys, for m separators in its root. */
  function Comb(m: nat): Outcome
    requires 0 < m <= 4
  {
    if m == 1 then Outcome(map[1 := HalfLeaf(1), 2 := FullLeaf(2, false), 3 := Top(1)], 3, 1, 4)
    else
      Outcome(Comb(m - 1).heap[LastLeaf(m - 1) := HalfLeaf(m)][m + 2 := FullLeaf(m + 1, false)][3 := Top(m)], 3, 1, m + 3)
  }

  lemma {:induction false} CombMeaning(m: nat)
    requires 0 < m <= 4
    ensures var t := Comb(m);
            && t.root == 3 && t.height == 1 && t.next == m + 3 && Fresh(t.heap, t.next)
            && 3 in t.heap && t.heap[3] == Top(m) && LastLeaf(m) in t.heap && t.heap[LastLeaf(m)] == FullLeaf(m + 1, false)
    decreases m
  {
    hide Top, FullLeaf, HalfLeaf;
    if m > 1 { CombMeaning(m - 1); }
  }

  /** Where the next key goes, and what is planned for it. */
  lemma CombPlan(m: nat)
    requires 0 < m <= 4
    ensures var t, key, value := Comb(m), KeyNo(m + 3), Value();
            var h, path := t.heap, [3, LastLeaf(m)];
            && PathOf(h, 3, 1, key) == path && !OnSeparator(h, 3, 1, key) && AllIn(h, path)
            && PlanOf(h, path[1..], key, value, m + 3) == Plan(true, 1, m + 3, KeyNo(m + 2), m + 4)
            && PlanOf(h, path, key, value, m + 3)
                 == (if m < 4 then Plan(false, 2, 0, [], m + 4).(q := PartitionIdx(Top(m).cells)) else Plan(true, 2, m + 4, KeyNo(4), m + 5))
            && Splittable(h, path[1..], key, value, m + 3) && Splittable(h, path, key, value, m + 3)
  {
    hide Top, Comb, Rank, Precedes, IsFull, PartitionIdx, FullLeaf;
    var t, key := Comb(m), KeyNo(m + 3);
    var path := [3, LastLeaf(m)];
    CombMeaning(m);
    TopMeaning(m);
    TopRank(m, m + 3);
    TopSpace(m);
    FullLeafSplits(m + 1, false);
    FullLeafKeys(m + 1);
    assert path[1..] == [LastLeaf(m)] && Kids(Top(m))[m] == LastLeaf(m);
    assert PathOf(t.heap, LastLeaf(m), 0, key) == [LastLeaf(m)];
    assert [3] + [LastLeaf(m)] == path;
  }

  lemma FullLeafKeys(i: nat)
    requires i < 255
    ensures var p := FullLeaf(i, false); p.leaf && |p.cells| == 2 && p.cells[1].key == KeyNo(i + 1)
  {}

  /** Below four separators the next key makes the next comb. */
  lemma CombGrows(m: nat)
    requires 0 < m < 4
    ensures var t, e := Comb(m), Pair(m + 3);
            && Ready(t.heap, t.root, t.height, e.0, e.1, t.next) && !OnSeparator(t.heap, t.root, t.height, e.0)
            && AllKeep(t.heap, t.root, t.height, e.0, e.1, t.next) && !Cascades(t.heap, t.root, t.height, e.0, e.1, t.next)
            && InsertAll(t.heap, t.root, t.height, e.0, e.1, t.next) == Comb(m + 1)
  {
    hide Top, Rank, Precedes, IsFull, PartitionIdx, FullLeaf, OneLeaf, PlanOf, PathOf, Splittable, HasRoom, KeepsValid, PutLeaf,
      AddSep, SplitLeft, SplitRight, KeyNo, Value, OnSeparator;
    var t, key, value := Comb(m), KeyNo(m + 3), Value();
    var h, path := t.heap, [3, LastLeaf(m)];
    var x: Pid, y: Pid := LastLeaf(m), m + 3;
    CombMeaning(m);
    CombPlan(m);
    TopMeaning(m);
    TopSpace(m);
    FullLeafSplits(m + 1, false);
    FullLeafKeys(m + 1);
    KeysAscend(m + 2, m + 3);
    SecondPair(m + 2, false);
    assert path[1..] == [x];
    assert !SplitsInternal(h, path, key, value, m + 3);
    TopNext(m);
    assert Receivers(h, path[1..], key, value, m + 3) == [Receiver(OneLeaf(m + 2, false), 984, 1000)];
    assert Receivers(h, path, key, value, m + 3) == [Receiver(Top(m), 984, 0), Receiver(OneLeaf(m + 2, false), 984, 1000)];
    var split: Heap := h[x := HalfLeaf(m + 1)];
    assert ApplyPath(h, path[1..], key, value, m + 3) == split[y := FullLeaf(m + 2, false)];
  }

  /** With four separators in the root, the next key splits it. */
  lemma CombCascades()
    ensures var t, e := Comb(4), Pair(7);
            && Ready(t.heap, t.root, t.height, e.0, e.1, t.next) && !OnSeparator(t.heap, t.root, t.height, e.0)
            && Cascades(t.heap, t.root, t.height, e.0, e.1, t.next)
  {
    hide Top, Rank, Precedes, IsFull, PartitionIdx, FullLeaf, OneLeaf, PlanOf, PathOf, Splittable, HasRoom, KeepsValid, KeyNo, Value,
      OnSeparator, Comb, SplitLeft, SplitRight;
    var t, key, value := Comb(4), KeyNo(7), Value();
    var h, path := t.heap, [3, LastLeaf(4)];
    CombMeaning(4);
    CombPlan(4);
    TopMeaning(4);
    FullLeafSplits(5, false);
    FullLeafKeys(5);
    KeysAscend(4, 6);
    KeysAscend(6, 7);
    SecondPair(6, false);
    RightHalfRoom(Top(4));
    assert path[1..] == [LastLeaf(4)];
    assert Receivers(h, path[1..], key, value, 7) == [Receiver(OneLeaf(6, false), 984, 1000)];
    assert Receivers(h, path, key, value, 7) == [Receiver(Halves(Top(4), 2).1, 984, 0), Receiver(OneLeaf(6, false), 984, 1000)];
  }

  lemma RightHalfRoom(p: Page)
    requires !p.leaf && |p.cells| == 4 && p.cells[3].Size() == 1000
    ensures HasRoom(Halves(p, 2).1, 984, 0)
  {
    assert Moved(p, 2) == [p.cells[3]];
    LeafSpread(p.cells[3]);
    assert Need(984, 0) == 1000;
  }

  // ----- The run -----

  /** A tree of one leaf. */
  function Single(p: Page): Outcome { Outcome(map[1 := p], 1, 0, 2) }

  lemma SingleGrows(p: Page, e: Entry)
    requires p.leaf && !IsFull(p, |e.0|, |e.1|) && HasRoom(p, |e.0|, |e.1|) && KeepsValid(p, |e.0|, |e.1|)
    ensures var t := Single(p);
            && Ready(t.heap, t.root, t.height, e.0, e.1, t.next) && !OnSeparator(t.heap, t.root, t.height, e.0)
            && AllKeep(t.heap, t.root, t.height, e.0, e.1, t.next) && !Cascades(t.heap, t.root, t.height, e.0, e.1, t.next)
            && InsertAll(t.heap, t.root, t.height, e.0, e.1, t.next) == Single(PutLeaf(p, e.0, e.1))
  {
    hide Rank, Precedes, IsFull, PartitionIdx, HasRoom, KeepsValid, PutLeaf;
    var h := Single(p).heap;
    assert PathOf(h, 1, 0, e.0) == [1];
    assert Receivers(h, [1], e.0, e.1, 2) == [Receiver(p, |e.0|, |e.1|)];
  }

  /** The third key splits the only leaf and makes the first comb. */
  lemma SingleSplits()
    ensures var t, e := Single(FullLeaf(1, true)), Pair(3);
            && Ready(t.heap, t.root, t.height, e.0, e.1, t.next) && !OnSeparator(t.heap, t.root, t.height, e.0)
            && AllKeep(t.heap, t.root, t.height, e.0, e.1, t.next) && !Cascades(t.heap, t.root, t.height, e.0, e.1, t.next)
            && InsertAll(t.heap, t.root, t.height, e.0, e.1, t.next) == Comb(1)
  {
    hide Rank, Precedes, IsFull, PartitionIdx, HasRoom, KeepsValid, PutLeaf, SplitLeft, SplitRight, KeyNo, Value, RootPage, OneLeaf;
    var p, key, value := FullLeaf(1, true), KeyNo(3), Value();
    var h := Single(p).heap;
    FullLeafSplits(1, true);
    FullLeafSplits(1, false);
    KeysAscend(2, 3);
    SecondPair(2, false);
    assert PathOf(h, 1, 0, key) == [1];
    assert PlanOf(h, [1], key, value, 2) == Plan(true, 1, 2, KeyNo(2), 3);
    assert Receivers(h, [1], key, value, 2) == [Receiver(OneLeaf(2, false), 984, 1000)];
    var h0 := Unroot(h, 1);
    UnrootPlan(h, 1, [1], key, value, 2);
    assert h0[1] == FullLeaf(1, false);
    assert ApplyPath(h0, [1], key, value, 2) == map[1 := HalfLeaf(1), 2 := FullLeaf(2, false)];
  }

  /** The first n pairs. */
  function Pairs(n: nat): (es: seq<Entry>)
    requires n < 256
    ensures |es| == n && forall j | 0 <= j < n :: es[j] == Pair(j + 1)
  {
    if n == 0 then [] else Pairs(n - 1) + [Pair(n)]
  }

  lemma {:induction false} NotGiven(es: seq<Entry>, key: Key)
    requires forall j | 0 <= j < |es| :: es[j].0 != key
    ensures FirstValue(es, key) == []
    decreases |es|
  {
    if es != [] {
      NotGiven(es[1..], key);
    }
  }

  lemma NotStored(es: seq<Entry>, stored: seq<Entry>, key: Key)
    requires forall k, v :: (k, v) in stored <==> FirstValue(es, k) == [v]
    requires FirstValue(es, key) == []
    ensures !Stores(stored, key)
  {
    StoresMember(stored, key);
    forall x | x in stored ensures x.0 != key {
      assert x == (x.0, x.1);
    }
  }

  lemma {:induction false} OneMoreCall(t0: Outcome, es: seq<Entry>, t: Outcome, e: Entry)
    requires Reaches(t0, es, t) && Allowed(t, e)
    ensures Reaches(t0, es + [e], After(t, e))
    decreases |es|
  {
    hide Ready, OnSeparator, AllKeep, Cascades, Stores, InsertAll;
    if es == [] {
      assert es + [e] == [e] && [e][1..] == [];
    } else {
      assert (es + [e])[0] == es[0] && (es + [e])[1..] == es[1..] + [e];
      OneMoreCall(After(t0, es[0]), es[1..], t, e);
    }
  }

  /** One more pair at the end of the run. */
  lemma NextPair(n: nat, t: Outcome)
    requires n < 255 && Reaches(Empty(), Pairs(n), t)
    requires var e := Pair(n + 1);
             && Ready(t.heap, t.root, t.height, e.0, e.1, t.next) && !OnSeparator(t.heap, t.root, t.height, e.0)
             && AllKeep(t.heap, t.root, t.height, e.0, e.1, t.next) && !Cascades(t.heap, t.root, t.height, e.0, e.1, t.next)
    ensures var e := Pair(n + 1);
            Reaches(Empty(), Pairs(n + 1), InsertAll(t.heap, t.root, t.height, e.0, e.1, t.next))
  {
    hide Ready, OnSeparator, AllKeep, Cascades, Reaches, InsertAll, Contents, KeyNo, Precedes, Stores;
    var e := Pair(n + 1);
    BuiltFromEmpty(Pairs(n), t);
    forall j | 0 <= j < n ensures Pairs(n)[j].0 != e.0 { KeysAscend(j + 1, n + 1); }
    NotGiven(Pairs(n), e.0);
    NotStored(Pairs(n), ContentsOf(t), e.0);
    OneMoreCall(Empty(), Pairs(n), t, e);
  }

  /** Six calls from the empty tree make a proper tree with four separators in its root. Nothing that the code
      relies on is missing for the seventh call, which splits the root: what it leaves is no tree of any height. */
  lemma CascadeReached()
    ensures var t, e := Comb(4), Pair(7);
            && Reaches(Empty(), Pairs(6), t) && Proper(t)
            && Ready(t.heap, t.root, t.height, e.0, e.1, t.next) && !OnSeparator(t.heap, t.root, t.height, e.0)
            && Cascades(t.heap, t.root, t.height, e.0, e.1, t.next)
            && var o := InsertAll(t.heap, t.root, t.height, e.0, e.1, t.next); Broken(o.heap, o.root)
  {
    hide Ready, OnSeparator, AllKeep, Reaches, InsertAll, KeyNo, Precedes, Proper, Comb, PutLeaf, IsFull, HasRoom, KeepsValid, Single,
      OneLeaf, FullLeaf, Broken, Top;
    FirstRun();
    NextPair(2, Single(FullLeaf(1, true))) by { SingleSplits(); }
    SingleSplits();
    NextPair(3, Comb(1)) by { CombGrows(1); }
    CombGrows(1);
    NextPair(4, Comb(2)) by { CombGrows(2); }
    CombGrows(2);
    NextPair(5, Comb(3)) by { CombGrows(3); }
    CombGrows(3);
    BuiltFromEmpty(Pairs(6), Comb(4));
    CombCascades();
    RefinesBroken(Comb(4), Pair(7));
  }

  lemma RefinesBroken(t: Outcome, e: Entry)
    requires Proper(t) && Ready(t.heap, t.root, t.height, e.0, e.1, t.next) && !OnSeparator(t.heap, t.root, t.height, e.0)
    requires Cascades(t.heap, t.root, t.height, e.0, e.1, t.next)
    ensures var o := InsertAll(t.heap, t.root, t.height, e.0, e.1, t.next); Broken(o.heap, o.root)
  {
    hide IsTree, OnSeparator, InsertAll, Broken, PathOf, Splittable, SplitsInternal, Receivers, PagesValid;
    InsertRefines(t.heap, t.root, t.height, e.0, e.1, t.next);
  }

  /** The first pair, and the second. */
  lemma FirstRunStart()
    ensures Reaches(Empty(), Pairs(1), Single(OneLeaf(1, true)))
  {
    hide Ready, OnSeparator, AllKeep, InsertAll, KeyNo, Precedes, PutLeaf, KeepsValid, Cascades;
    var p := EmptyPage(true, true);
    assert Pairs(0) == [] && Empty() == Single(p);
    assert Need(984, 1000) == 2000 && FreeSpace(p) == 4040;
    assert KeepsValid(p, 984, 1000) by { RoomKeeps(p); }
    SingleGrows(p, Pair(1));
    FirstPair(1);
    NextPair(0, Single(p));
  }

  lemma FirstRun()
    ensures Reaches(Empty(), Pairs(2), Single(FullLeaf(1, true)))
  {
    hide Ready, OnSeparator, AllKeep, InsertAll, KeyNo, Precedes, PutLeaf, KeepsValid, Cascades;
    FirstRunStart();
    SecondPair(1, true);
    SingleGrows(OneLeaf(1, true), Pair(2));
    NextPair(1, Single(OneLeaf(1, true)));
  }

  lemma RoomKeeps(p: Page)
    requires FreeSpace(p) >= Need(984, 1000) + SLOT
    ensures KeepsValid(p, 984, 1000)
  {}

  /** A key given twice before it becomes a separator is stored twice: the leaf-level search is not heeded. */
  lemma StoredTwice()
    ensures var t, e := Single(OneLeaf(1, true)), Pair(1);
            && Reaches(Empty(), Pairs(1), t) && Proper(t) && Stores(ContentsOf(t), e.0)
            && Ready(t.heap, t.root, t.height, e.0, e.1, t.next) && !OnSeparator(t.heap, t.root, t.height, e.0)
            && !Cascades(t.heap, t.root, t.height, e.0, e.1, t.next) && !Proper(After(t, e))
  {
    hide Ready, OnSeparator, AllKeep, InsertAll, KeyNo, Precedes, PutLeaf, KeepsValid, Cascades, Proper, IsFull;
    FirstRunStart();
    SecondPair(1, true);
    SingleGrows(OneLeaf(1, true), Pair(1));
    BuiltFromEmpty(Pairs(1), Single(OneLeaf(1, true)));
    assert ContentsOf(Single(OneLeaf(1, true)))[0].0 == KeyNo(1);
    StepProper(Single(OneLeaf(1, true)), Pair(1));
  }

  // ----- After the internal split -----

  /** What the seventh call leaves is no tree, and yet the path of the next key meets all that an insertion asks
      of a path: the code goes on inserting there, and every level conserves its keys. */
  lemma GoesOnBroken()
    ensures var t, e := Comb(4), Pair(7);
            && Ready(t.heap, t.root, t.height, e.0, e.1, t.next)
            && var o := InsertAll(t.heap, t.root, t.height, e.0, e.1, t.next);
               o.height == 2 && OnTrack(o.heap, o.root, o.height, KeyNo(8)) && Fresh(o.heap, o.next)
  {
    hide Top, Rank, Precedes, IsFull, PartitionIdx, FullLeaf, OneLeaf, PlanOf, PathOf, Splittable, KeyNo, Value, Receivers, Halves, AddSep,
      PutLeaf, RootPage, OnSeparator, Comb, SplitLeft, SplitRight, HalfLeaf, SortedKeys, Kids, Seps, ApplyPath;
    var t, key, value := Comb(4), KeyNo(7), Value();
    var path := [3, LastLeaf(4)];
    CombMeaning(4);
    CombPlan(4);
    CombCascades();
    var o := InsertAll(t.heap, 3, 1, key, value, 7);
    InsertFresh(t.heap, 3, 1, key, value, 7);
    BrokenPages();
    RootPageMeaning(KeyNo(4), 3, 8);
    assert o.heap[9] == RootPage(KeyNo(4), 3, 8);
    RightSpine(o.heap);
  }

  /** The pages on the right of what the seventh call leaves. */
  lemma BrokenPages()
    ensures var h := Unroot(Comb(4).heap, 3);
            var path := [3, LastLeaf(4)];
            && AllIn(h, path) && Splittable(h, path, KeyNo(7), Value(), 7)
            && var f := ApplyPath(h, path, KeyNo(7), Value(), 7);
               && 7 in f && f[7] == FullLeaf(6, false)
               && 8 in f && !f[8].leaf && Seps(f[8]) == [KeyNo(5), KeyNo(6)] && Kids(f[8])[2] == 7
  {
    hide Top, Rank, Precedes, IsFull, PartitionIdx, FullLeaf, OneLeaf, PlanOf, PathOf, Splittable, KeyNo, Value, Receivers, Halves, AddSep,
      PutLeaf, OnSeparator, Comb, HalfLeaf, SortedKeys, Kids, Seps;
    var h0, key, value := Comb(4).heap, KeyNo(7), Value();
    CombMeaning(4);
    CombPlan(4);
    var h, path := Unroot(h0, 3), [3, LastLeaf(4)];
    assert AllIn(h0, path);
    UnrootPlan(h0, 3, path, key, value, 7);
    UnrootPlan(h0, 3, path[1..], key, value, 7);
    assert path[1..] == [6];
    LeafAgain(h, 5, 6, 7);
    KeysAscend(4, 6);
    TopMeaning(4);
    TopRight(Top(4).(root := false));
  }

  lemma LeafAgain(h: Heap, i: nat, x: Pid, next: Pid)
    requires 0 < i < 250 && x in h && h[x] == FullLeaf(i, false)
    requires AllIn(h, [x]) && Splittable(h, [x], KeyNo(i + 2), Value(), next)
    requires PlanOf(h, [x], KeyNo(i + 2), Value(), next) == Plan(true, 1, next, KeyNo(i + 1), next + 1)
    ensures ApplyPath(h, [x], KeyNo(i + 2), Value(), next) == h[x := HalfLeaf(i)][next := FullLeaf(i + 1, false)]
  {
    hide Precedes, IsFull, PartitionIdx, FullLeaf, OneLeaf, PlanOf, KeyNo, Value, PutLeaf, SplitLeft, SplitRight;
    FullLeafSplits(i, false);
    FullLeafKeys(i);
    KeysAscend(i + 1, i + 2);
    SecondPair(i + 1, false);
  }

  /** The right half of the root with the separator of the leaf. */
  lemma TopRight(p: Page)
    requires !p.leaf && |p.cells| == 4 && p.cells[3].key == KeyNo(5)
    ensures var r := AddSep(Halves(p, 2).1, KeyNo(6), 6, 7);
            !r.leaf && Seps(r) == [KeyNo(5), KeyNo(6)] && Kids(r)[2] == 7
  {
    hide Rank, Precedes, KeyNo, AddSep, Halves;
    HalvesMeaning(p, 2);
    var r0 := Halves(p, 2).1;
    assert Moved(p, 2) == [p.cells[3]];
    assert Seps(r0) == [KeyNo(5)];
    KeysAscend(5, 6);
    RankLast([KeyNo(5)], KeyNo(6));
    AddSepMeaning(r0, KeyNo(6), 6, 7);
  }

  lemma RightSpine(h: Heap)
    requires 7 in h && 8 in h && 9 in h && h[7] == FullLeaf(6, false)
    requires !h[8].leaf && Seps(h[8]) == [KeyNo(5), KeyNo(6)] && Kids(h[8])[2] == 7
    requires !h[9].leaf && Seps(h[9]) == [KeyNo(4)] && Kids(h[9])[1] == 8
    ensures OnTrack(h, 9, 2, KeyNo(8))
  {
    hide Rank, Precedes, KeyNo, Value, Kids;
    var key := KeyNo(8);
    KeysAscend(4, 8);
    KeysAscend(5, 8);
    KeysAscend(6, 8);
    KeysAscend(5, 6);
    KeysAscend(6, 7);
    RankLast([KeyNo(4)], key);
    RankLast([KeyNo(5), KeyNo(6)], key);
    assert PathOf(h, 7, 0, key) == [7];
    assert PathOf(h, 8, 1, key) == [8, 7];
    assert PathOf(h, 9, 2, key) == [9, 8, 7];
    assert Seps(h[7]) == [KeyNo(6), KeyNo(7)];
  }
}
