/** btree_insert as a whole, with the growth of a new root, and exactly when the tree survives it. */
module TreeTheorem {
  import opened Keys
  import opened Pages
  import opened PageLaws
  import opened Trees
  import opened TreeLaws
  import opened TreeInsert
  import opened TreeGrowth
  import opened TreeRefinement
  import opened TreeLimits
  import opened TreeCascades
  import opened TreeBreaks
  import opened TreeSpace

  /** The old root without its root flag. */
  function Unroot(h: Heap, root: Pid): Heap
    requires root in h
  {
    h[root := h[root].(root := false)]
  }

  datatype Outcome = Outcome(heap: Heap, root: Pid, height: nat, next: Pid)

  /** The plan and what is to be applied do not depend on root flags. */
  lemma {:induction false} UnrootPlan(h: Heap, root: Pid, path: seq<Pid>, key: Key, value: seq<Byte>, next: Pid)
    requires root in h && path != [] && AllIn(h, path)
    ensures AllIn(Unroot(h, root), path)
    ensures PlanOf(Unroot(h, root), path, key, value, next) == PlanOf(h, path, key, value, next)
    ensures Splittable(Unroot(h, root), path, key, value, next) == Splittable(h, path, key, value, next)
    ensures SplitsInternal(Unroot(h, root), path, key, value, next) == SplitsInternal(h, path, key, value, next)
    decreases |path|
  {
    hide PartitionIdx, Need;
    if |path| > 1 { UnrootPlan(h, root, path[1..], key, value, next); }
  }

  function InsertAll(h: Heap, root: Pid, n: nat, key: Key, value: seq<Byte>, next: Pid): Outcome
    requires AllIn(h, PathOf(h, root, n, key)) && Splittable(h, PathOf(h, root, n, key), key, value, next)
  {
    var path := PathOf(h, root, n, key);
    var plan := PlanOf(h, path, key, value, next);
    if !plan.full then Outcome(ApplyPath(h, path, key, value, next), root, n, plan.next)
    else
      UnrootPlan(h, root, path, key, value, next);
      Outcome(ApplyPath(Unroot(h, root), path, key, value, next)[plan.next := RootPage(plan.sep, root, plan.newPid)],
              plan.next, n + 1, plan.next + 1)
  }

  // ----- Root flags do not matter for the tree -----

  ghost predicate SameButFlags(h: Heap, h': Heap) {
    h'.Keys == h.Keys && forall x | x in h :: h'[x] == h[x].(root := h'[x].root)
  }

  lemma {:induction false} FlagsIgnored(h: Heap, h': Heap, pid: Pid, n: nat, lo: Bound, hi: Bound)
    requires SameButFlags(h, h')
    ensures Contents(h', pid, n) == Contents(h, pid, n) && Reach(h', pid, n) == Reach(h, pid, n)
    ensures Shape(h', pid, n, lo, hi) == Shape(h, pid, n, lo, hi)
    decreases n, 0
  {
    hide Precedes;
    if n > 0 && pid in h {
      assert Kids(h'[pid]) == Kids(h[pid]) && Seps(h'[pid]) == Seps(h[pid]);
      FlagsIgnoredAll(h, h', Kids(h[pid]), Seps(h[pid]), n - 1, lo, hi);
    }
  }

  lemma {:induction false} FlagsIgnoredAll(h: Heap, h': Heap, kids: seq<Pid>, seps: seq<Key>, n: nat, lo: Bound, hi: Bound)
    requires SameButFlags(h, h')
    ensures ContentsAll(h', kids, n) == ContentsAll(h, kids, n) && ReachAll(h', kids, n) == ReachAll(h, kids, n)
    ensures KidsShape(h', kids, seps, n, lo, hi) == KidsShape(h, kids, seps, n, lo, hi)
    decreases n, |kids| + 1
  {
    hide Precedes;
    if kids != [] {
      FlagsIgnored(h, h', kids[0], n, lo, if seps == [] then hi else At(seps[0]));
      FlagsIgnoredAll(h, h', kids[1..], if seps == [] then [] else seps[1..], n, if seps == [] then Unbounded else At(seps[0]), hi);
      if |kids| > 1 { FlagsIgnored(h, h', kids[1], n, Unbounded, Unbounded); }
    }
  }

  lemma {:induction false} UnrootPath(h: Heap, root: Pid, pid: Pid, n: nat, key: Key)
    requires root in h
    ensures PathOf(Unroot(h, root), pid, n, key) == PathOf(h, pid, n, key)
    ensures OnSeparator(Unroot(h, root), pid, n, key) == OnSeparator(h, pid, n, key)
    decreases n
  {
    hide Precedes, Rank;
    if n > 0 && pid in h {
      assert Kids(Unroot(h, root)[pid]) == Kids(h[pid]) && Seps(Unroot(h, root)[pid]) == Seps(h[pid]);
      UnrootPath(h, root, Kids(h[pid])[Rank(Seps(h[pid]), key)], n - 1, key);
    }
  }

  // ----- A new root -----

  lemma RootPageMeaning(sep: Key, left: Pid, right: Pid)
    ensures var p := RootPage(sep, left, right);
            !p.leaf && Kids(p) == [left, right] && Seps(p) == [sep]
  {
    hide Need, FreeSpace;
  }

  /** Two neighbouring subtrees under a new root. */
  lemma RootGrows(h: Heap, newRoot: Pid, left: Pid, right: Pid, sep: Key, n: nat)
    requires newRoot !in h && 0 !in h && left in h && right in h
    requires ReachAll(h, [left, right], n) <= h.Keys
    ensures var h' := h[newRoot := RootPage(sep, left, right)];
            && Contents(h', newRoot, n + 1) == ContentsAll(h, [left, right], n)
            && (Formed(h, [left, right], [sep], n, Unbounded, Unbounded) ==> Shape(h', newRoot, n + 1, Unbounded, Unbounded))
  {
    hide Precedes, RootPage;
    var p := RootPage(sep, left, right);
    var h' := h[newRoot := p];
    RootPageMeaning(sep, left, right);
    FrameAll(h, h', [left, right], [sep], n, Unbounded, Unbounded);
    if Formed(h, [left, right], [sep], n, Unbounded, Unbounded) {
      assert SortedKeys([sep]) && InInterval([sep], 1, Unbounded, Unbounded);
      InnerShape(h', newRoot, n + 1, Unbounded, Unbounded);
    }
  }

  // ----- The main theorem -----

  /** The tree at `root`: well-formed, with `n` levels above its leaves. */
  ghost predicate IsTree(h: Heap, root: Pid, n: nat) { Shape(h, root, n, Unbounded, Unbounded) }

  /** Storing a key that is no separator: without an internal split the contents become the old ones with
      the pair at its rank, and the tree is well-formed afterwards exactly when no internal page split and
      the key was new. After an internal split it is no tree of any height. */
  lemma InsertRefines(h: Heap, root: Pid, n: nat, key: Key, value: seq<Byte>, next: Pid)
    requires IsTree(h, root, n) && Fresh(h, next) && AllIn(h, PathOf(h, root, n, key))
    requires Splittable(h, PathOf(h, root, n, key), key, value, next) && !OnSeparator(h, root, n, key)
    ensures var o := InsertAll(h, root, n, key, value, next);
            var splits := SplitsInternal(h, PathOf(h, root, n, key), key, value, next);
            && Fresh(o.heap, o.next)
            && (!splits ==> Contents(o.heap, o.root, o.height) == Ins(Contents(h, root, n), key, value))
            && (IsTree(o.heap, o.root, o.height) <==> !splits && !Stores(Contents(h, root, n), key))
            && (splits ==> Broken(o.heap, o.root))
  {
    hide Precedes, Shape, KidsShape, Contents, ContentsAll, Reach, ReachAll, Ins, PlanOf, ApplyPath, RootPage, Splittable, Broken, SplitsInternal;
    var path := PathOf(h, root, n, key);
    if SplitsInternal(h, path, key, value, next) {
      InsertBreaks(h, root, n, key, value, next);
      var o := InsertAll(h, root, n, key, value, next);
      BrokenIsNoTree(o.heap, o.root, o.height);
    } else {
      InsertStores(h, root, n, key, value, next);
      var o := InsertAll(h, root, n, key, value, next);
      ShapeOrdered(h, root, n, Unbounded, Unbounded);
      InsSorted(Contents(h, root, n), key, value);
      if IsTree(o.heap, o.root, o.height) { ShapeOrdered(o.heap, o.root, o.height, Unbounded, Unbounded); }
    }
    InsertFresh(h, root, n, key, value, next);
  }

  lemma BrokenIsNoTree(h: Heap, root: Pid, n: nat)
    requires Broken(h, root)
    ensures !IsTree(h, root, n)
  {}

  lemma InsertFresh(h: Heap, root: Pid, n: nat, key: Key, value: seq<Byte>, next: Pid)
    requires Fresh(h, next) && AllIn(h, PathOf(h, root, n, key)) && Splittable(h, PathOf(h, root, n, key), key, value, next)
    ensures var o := InsertAll(h, root, n, key, value, next); Fresh(o.heap, o.next)
  {
    hide PlanOf, ApplyPath, RootPage, Splittable;
    var path := PathOf(h, root, n, key);
    assert root in h;
    PlanBounds(h, path, key, value, next);
    UnrootPlan(h, root, path, key, value, next);
    PlanBounds(Unroot(h, root), path, key, value, next);
  }

  /** Without an internal split. */
  lemma InsertStores(h: Heap, root: Pid, n: nat, key: Key, value: seq<Byte>, next: Pid)
    requires IsTree(h, root, n) && Fresh(h, next) && AllIn(h, PathOf(h, root, n, key))
    requires Splittable(h, PathOf(h, root, n, key), key, value, next) && !OnSeparator(h, root, n, key)
    requires !SplitsInternal(h, PathOf(h, root, n, key), key, value, next)
    ensures var o := InsertAll(h, root, n, key, value, next);
            && Contents(o.heap, o.root, o.height) == Ins(Contents(h, root, n), key, value)
            && (!Stores(Contents(h, root, n), key) ==> IsTree(o.heap, o.root, o.height))
  {
    hide Precedes, Shape, KidsShape, Contents, ContentsAll, Reach, ReachAll, Ins, PlanOf, ApplyPath, RootPage, Splittable, SplitsInternal;
    var path := PathOf(h, root, n, key);
    var plan := PlanOf(h, path, key, value, next);
    if !plan.full {
      InsertSubtree(h, root, n, Unbounded, Unbounded, key, value, next);
      AllOne(ApplyPath(h, path, key, value, next), root, n);
    } else {
      assert root in h;
      var h0 := Unroot(h, root);
      UnrootPath(h, root, root, n, key);
      UnrootPlan(h, root, path, key, value, next);
      FlagsIgnored(h, h0, root, n, Unbounded, Unbounded);
      InsertSubtree(h0, root, n, Unbounded, Unbounded, key, value, next);
      PlanBounds(h0, path, key, value, next);
      ReachInHeap(h, root, n, Unbounded, Unbounded);
      RootGrows(ApplyPath(h0, path, key, value, next), plan.next, root, plan.newPid, plan.sep, n);
    }
  }

  /** With an internal split. */
  lemma InsertBreaks(h: Heap, root: Pid, n: nat, key: Key, value: seq<Byte>, next: Pid)
    requires IsTree(h, root, n) && Fresh(h, next) && AllIn(h, PathOf(h, root, n, key))
    requires Splittable(h, PathOf(h, root, n, key), key, value, next)
    requires SplitsInternal(h, PathOf(h, root, n, key), key, value, next)
    ensures var o := InsertAll(h, root, n, key, value, next); Broken(o.heap, o.root)
  {
    hide Precedes, Shape, KidsShape, Contents, ContentsAll, Reach, ReachAll, PlanOf, ApplyPath, RootPage, Splittable, Clash, Broken;
    var path := PathOf(h, root, n, key);
    var plan := PlanOf(h, path, key, value, next);
    PathInHeap(h, root, n, Unbounded, Unbounded, key);
    if !plan.full {
      PathBreaks(h, root, n, Unbounded, Unbounded, key, value, next);
    } else {
      assert root in h;
      var h0 := Unroot(h, root);
      UnrootPath(h, root, root, n, key);
      UnrootPlan(h, root, path, key, value, next);
      FlagsIgnored(h, h0, root, n, Unbounded, Unbounded);
      SplitClashes(h0, root, n, Unbounded, Unbounded, key, value, next);
      PlanBounds(h0, path, key, value, next);
      RootPageMeaning(plan.sep, root, plan.newPid);
      var p := RootPage(plan.sep, root, plan.newPid);
      assert |p.cells| == |Seps(p)| == 1 && Kids(p)[0] == root && Kids(p)[1] == plan.newPid;
      ClashBreaks(ApplyPath(h0, path, key, value, next)[plan.next := p], plan.next, 0);
    }
  }

  // ----- Space -----

  lemma {:induction false} PathDistinct(h: Heap, pid: Pid, n: nat, lo: Bound, hi: Bound, key: Key)
    requires Shape(h, pid, n, lo, hi) && AllIn(h, PathOf(h, pid, n, key))
    ensures Distinct(PathOf(h, pid, n, key))
    decreases n
  {
    hide Precedes, KidsShape, Contents, ReachAll, SortedKeys, InInterval, Rank, Shape;
    if n > 0 {
      var j, path := Rank(Seps(h[pid]), key), PathOf(h, pid, n, key);
      KidReached(h, pid, n, j, lo, hi);
      var kid := Kids(h[pid])[j];
      assert path[1..] == PathOf(h, kid, n - 1, key);
      PathDistinct(h, kid, n - 1, LoOf(Seps(h[pid]), j, lo), HiOf(Seps(h[pid]), j, hi), key);
      PathReached(h, kid, n - 1, key);
      assert forall i | 0 < i < |path| :: path[i] == path[1..][i - 1] && path[i] in path[1..];
    }
  }

  lemma {:induction false} UnrootReceivers(h: Heap, root: Pid, path: seq<Pid>, key: Key, value: seq<Byte>, next: Pid)
    requires root in h && path != [] && AllIn(h, path) && Splittable(h, path, key, value, next)
    requires AllIn(Unroot(h, root), path) && Splittable(Unroot(h, root), path, key, value, next)
    ensures var a, b := Receivers(h, path, key, value, next), Receivers(Unroot(h, root), path, key, value, next);
            |a| == |b| && forall i | 0 <= i < |a| :: b[i] == a[i].(page := a[i].page.(root := b[i].page.root))
    decreases |path|
  {
    hide PlanOf, Splittable, Bytes, Spread, Precedes;
    UnrootPlan(h, root, path, key, value, next);
    PlanSep(h, path, key, value, next);
    var p, plan := h[path[0]], PlanOf(h, path, key, value, next);
    if plan.full { UnrootHalves(p, plan.q); }
    if |path| > 1 {
      UnrootPlan(h, root, path[1..], key, value, next);
      SplitBelow(h, path, key, value, next);
      SplitBelow(Unroot(h, root), path, key, value, next);
      UnrootReceivers(h, root, path[1..], key, value, next);
    }
  }

  lemma UnrootHalves(p: Page, q: nat)
    requires q < |p.cells|
    ensures Halves(p.(root := false), q) == (Halves(p, q).0.(root := false), Halves(p, q).1)
  {
    hide Bytes, Spread;
    UnrootBury(p, p.cells[q..]);
  }

  lemma {:induction false} UnrootBury(p: Page, cs: seq<Cell>)
    ensures BuryAll(p.(root := false), cs) == BuryAll(p, cs).(root := false)
    decreases |cs|
  {
    if cs != [] { UnrootBury(Bury(p, cs[0]), cs[1..]); }
  }

  lemma RootFlagSpace(p: Page, b: bool, keySize: nat, valueSize: nat)
    ensures Valid(p.(root := b)) == Valid(p) && Sound(p.(root := b)) == Sound(p)
    ensures HasRoom(p.(root := b), keySize, valueSize) == HasRoom(p, keySize, valueSize)
    ensures KeepsValid(p.(root := b), keySize, valueSize) == KeepsValid(p, keySize, valueSize)
  {
    hide Need, Carve;
  }

  /** Nothing about space depends on the root flag. */
  lemma UnrootSpace(h: Heap, root: Pid, path: seq<Pid>, key: Key, value: seq<Byte>, next: Pid)
    requires root in h && path != [] && AllIn(h, path) && Splittable(h, path, key, value, next) && PagesValid(h)
    requires AllIn(Unroot(h, root), path) && Splittable(Unroot(h, root), path, key, value, next)
    ensures var a, b := Receivers(h, path, key, value, next), Receivers(Unroot(h, root), path, key, value, next);
            && PagesValid(Unroot(h, root))
            && ((forall r | r in a :: r.Room()) ==> forall r | r in b :: r.Room())
            && ((forall r | r in a :: r.Keeps()) <==> forall r | r in b :: r.Keeps())
  {
    hide Splittable, Valid, Sound, HasRoom, KeepsValid, Receivers;
    var h0 := Unroot(h, root);
    UnrootReceivers(h, root, path, key, value, next);
    forall x | x in h0 ensures Valid(h0[x]) { RootFlagSpace(h[x], false, 0, 0); }
    var a, b := Receivers(h, path, key, value, next), Receivers(h0, path, key, value, next);
    forall i | 0 <= i < |a| ensures b[i].Room() == a[i].Room() && b[i].Keeps() == a[i].Keeps() {
      RootFlagSpace(a[i].page, b[i].page.root, a[i].keySize, a[i].valueSize);
    }
    if forall r | r in a :: r.Room() {
      forall r | r in b ensures r.Room() {
        var i :| 0 <= i < |b| && b[i] == r;
        assert a[i] in a;
      }
    }
    SameKeeps(a, b);
  }

  /** When every receiving page has room for the cell and its slot, no page is corrupted, and all pages
      keep cell_offset below their cells exactly when every receiver does. */
  lemma InsertSpace(h: Heap, root: Pid, n: nat, key: Key, value: seq<Byte>, next: Pid)
    requires Fresh(h, next) && AllIn(h, PathOf(h, root, n, key)) && Distinct(PathOf(h, root, n, key)) && PagesValid(h)
    requires Splittable(h, PathOf(h, root, n, key), key, value, next)
    requires |key| + |value| + CELL_HEADER + 3 < U32
    requires forall r | r in Receivers(h, PathOf(h, root, n, key), key, value, next) :: r.Room()
    ensures var o := InsertAll(h, root, n, key, value, next);
            && PagesSound(o.heap)
            && (PagesValid(o.heap) <==> forall r | r in Receivers(h, PathOf(h, root, n, key), key, value, next) :: r.Keeps())
  {
    hide Precedes, Shape, PlanOf, RootPage, Splittable, Valid, Sound, HasRoom, KeepsValid, Receivers, ApplyPath;
    var path := PathOf(h, root, n, key);
    var plan := PlanOf(h, path, key, value, next);
    if !plan.full {
      PathSpace(h, path, key, value, next);
    } else {
      assert root in h && path[0] == root;
      var h0 := Unroot(h, root);
      UnrootPlan(h, root, path, key, value, next);
      UnrootSpace(h, root, path, key, value, next);
      PathSpace(h0, path, key, value, next);
      PlanBounds(h0, path, key, value, next);
      PlanSep(h, path, key, value, next);
      SepFits(h[root], plan);
      RootPageValid(plan.sep, root, plan.newPid);
      AddRootSpace(ApplyPath(h0, path, key, value, next), plan.next, RootPage(plan.sep, root, plan.newPid));
    }
  }

  lemma AddRootSpace(h: Heap, pid: Pid, p: Page)
    requires pid !in h && Valid(p) && PagesSound(h)
    ensures PagesSound(h[pid := p]) && (PagesValid(h[pid := p]) <==> PagesValid(h))
  {
    hide Valid, Sound;
    ValidSound(p);
    var h' := h[pid := p];
    if PagesValid(h') {
      forall x | x in h ensures Valid(h[x]) { assert x in h' && h'[x] == h[x]; }
    }
  }

  lemma SameKeeps(a: seq<Receiver>, b: seq<Receiver>)
    requires |a| == |b| && forall i | 0 <= i < |a| :: b[i].Keeps() == a[i].Keeps()
    ensures (forall r | r in a :: r.Keeps()) <==> (forall r | r in b :: r.Keeps())
  {
    hide KeepsValid;
    if forall r | r in a :: r.Keeps() {
      forall r | r in b ensures r.Keeps() {
        var i :| 0 <= i < |b| && b[i] == r;
        assert a[i] in a;
      }
    }
    if forall r | r in b :: r.Keeps() {
      forall r | r in a ensures r.Keeps() {
        var i :| 0 <= i < |a| && a[i] == r;
        assert b[i] in b;
      }
    }
  }

  // ----- Conservation -----

  /** What an insertion asks of the pages on the key's path: they differ, they are sorted, and just the last
      one is a leaf. It holds in every tree, and goes on holding in trees that an internal split has broken. */
  ghost predicate OnTrack(h: Heap, root: Pid, n: nat, key: Key) {
    var path := PathOf(h, root, n, key);
    LeafLast(h, path) && Distinct(path) && SortedPath(h, path)
  }

  lemma {:induction false} PathSorted(h: Heap, pid: Pid, n: nat, lo: Bound, hi: Bound, key: Key)
    requires Shape(h, pid, n, lo, hi) && AllIn(h, PathOf(h, pid, n, key))
    ensures LeafLast(h, PathOf(h, pid, n, key)) && SortedPath(h, PathOf(h, pid, n, key))
    decreases n
  {
    hide Precedes, KidsShape, Contents, ReachAll, SortedKeys, InInterval, Rank, Shape;
    ShapeLeaf(h, pid, n, lo, hi);
    if n > 0 {
      var j, path := Rank(Seps(h[pid]), key), PathOf(h, pid, n, key);
      KidReached(h, pid, n, j, lo, hi);
      ShapeKids(h, pid, n, lo, hi);
      var kid := Kids(h[pid])[j];
      assert path[1..] == PathOf(h, kid, n - 1, key);
      PathSorted(h, kid, n - 1, LoOf(Seps(h[pid]), j, lo), HiOf(Seps(h[pid]), j, hi), key);
      assert forall i | 0 < i < |path| :: path[i] == path[1..][i - 1];
    }
  }

  lemma TreesAreOnTrack(h: Heap, root: Pid, n: nat, key: Key)
    requires IsTree(h, root, n)
    ensures OnTrack(h, root, n, key)
  {
    hide Precedes, Shape, PathOf, LeafLast, SortedPath;
    PathInHeap(h, root, n, Unbounded, Unbounded, key);
    PathDistinct(h, root, n, Unbounded, Unbounded, key);
    PathSorted(h, root, n, Unbounded, Unbounded, key);
  }

  /** In a tree every separator that is pushed up is new to the page that receives it. */
  lemma {:induction false} TreeReceivesNew(h: Heap, pid: Pid, n: nat, lo: Bound, hi: Bound, key: Key, value: seq<Byte>, next: Pid)
    requires Shape(h, pid, n, lo, hi) && AllIn(h, PathOf(h, pid, n, key))
    requires Splittable(h, PathOf(h, pid, n, key), key, value, next)
    requires !Stores(Contents(h, pid, n), key)
    ensures NewEverywhere(h, PathOf(h, pid, n, key), key, value, next)
    decreases n
  {
    hide Precedes, Shape, Reach, ReachAll, KidsShape, Contents, Rank, PlanOf, Splittable, SortedKeys;
    var path, p := PathOf(h, pid, n, key), h[pid];
    ShapeLeaf(h, pid, n, lo, hi);
    if n == 0 {
      LeafContents(h, pid);
      KeyNotIn(p.cells, key);
    } else {
      var j := Rank(Seps(p), key);
      ShapeKids(h, pid, n, lo, hi);
      KidsAround(h, Kids(p), Seps(p), j, n - 1, lo, hi);
      assert path[1..] == PathOf(h, Kids(p)[j], n - 1, key);
      SplitBelow(h, path, key, value, next);
      PlanSepInside(h, Kids(p)[j], n - 1, LoOf(Seps(p), j, lo), HiOf(Seps(p), j, hi), key, value, next);
      var c := PlanOf(h, path[1..], key, value, next);
      if c.full { SepBetween(Seps(p), j, c.sep, lo, hi); }
      if Stores(Contents(h, Kids(p)[j], n - 1), key) { KidStores(h, pid, n, j, key); }
      TreeReceivesNew(h, Kids(p)[j], n - 1, LoOf(Seps(p), j, lo), HiOf(Seps(p), j, hi), key, value, next);
    }
  }

  lemma LeafContents(h: Heap, pid: Pid)
    requires pid in h
    ensures Contents(h, pid, 0) == EntriesOf(h[pid].cells)
  {}

  /** When all levels split, it does not matter whether the old root still has its flag. */
  lemma {:induction false} UnrootConserved(h: Heap, root: Pid, h': Heap, path: seq<Pid>, key: Key, value: seq<Byte>, next: Pid)
    requires root in h && path != [] && AllIn(h, path) && AllIn(Unroot(h, root), path) && PlanOf(h, path, key, value, next).full
    requires AllConserved(Unroot(h, root), h', path, key, value, next)
    ensures AllConserved(h, h', path, key, value, next)
    decreases |path|
  {
    hide PlanOf, LevelConserved, LevelGrown, LevelHolds;
    UnrootPlan(h, root, path, key, value, next);
    UnrootLevel(h, root, h', path, key, value, next);
    if |path| > 1 {
      UnrootPlan(h, root, path[1..], key, value, next);
      if PlanOf(h, path[1..], key, value, next).full { UnrootConserved(h, root, h', path[1..], key, value, next); }
    }
  }

  lemma UnrootLevel(h: Heap, root: Pid, h': Heap, path: seq<Pid>, key: Key, value: seq<Byte>, next: Pid)
    requires root in h && path != [] && AllIn(h, path) && AllIn(Unroot(h, root), path) && PlanOf(h, path, key, value, next).full
    requires path[0] in h' && LevelConserved(Unroot(h, root), h', path, key, value, next)
    requires LevelHolds(Unroot(h, root), h', path, key, value, next)
    ensures LevelConserved(h, h', path, key, value, next) && LevelGrown(h, h', path, key, value, next)
    ensures LevelHolds(h, h', path, key, value, next)
    ensures |path| > 1 ==> PlanOf(h, path[1..], key, value, next).full
  {
    hide PlanOf, Rank, SortedKeys, Ins, Linked, Precedes, Kids, Seps, InsertAt;
    UnrootPlan(h, root, path, key, value, next);
    if |path| > 1 { UnrootPlan(h, root, path[1..], key, value, next); }
    UnrootSame(h, root, path[0]);
  }

  lemma UnrootSame(h: Heap, root: Pid, x: Pid)
    requires root in h && x in h
    ensures Seps(Unroot(h, root)[x]) == Seps(h[x]) && Kids(Unroot(h, root)[x]) == Kids(h[x])
  {}

  /** Along any path, in a tree or not: every level that an insertion touches conserves its keys, and a root
      that splits leaves its separator alone in the new root, between its two halves. */
  lemma InsertConserves(h: Heap, root: Pid, n: nat, key: Key, value: seq<Byte>, next: Pid)
    requires OnTrack(h, root, n, key) && Fresh(h, next)
    requires Splittable(h, PathOf(h, root, n, key), key, value, next)
    ensures var o, path := InsertAll(h, root, n, key, value, next), PathOf(h, root, n, key);
            var plan := PlanOf(h, path, key, value, next);
            && AllConserved(h, o.heap, path, key, value, next)
            && (if plan.full
                then o.root in o.heap && o.root !in h && Seps(o.heap[o.root]) == [plan.sep] && Kids(o.heap[o.root]) == [root, plan.newPid]
                else o.root == root)
  {
    hide Precedes, PlanOf, ApplyPath, RootPage, Splittable, AllConserved, SortedKeys, Seps, Kids;
    var path := PathOf(h, root, n, key);
    var plan := PlanOf(h, path, key, value, next);
    if !plan.full {
      CascadeConserves(h, path, key, value, next);
    } else {
      assert path[0] in h;
      var h0 := Unroot(h, root);
      UnrootPlan(h, root, path, key, value, next);
      UnrootOnTrack(h, root, path);
      CascadeConserves(h0, path, key, value, next);
      PlanBounds(h0, path, key, value, next);
      PlanBounds(h, path, key, value, next);
      var f := ApplyPath(h0, path, key, value, next);
      var f' := f[plan.next := RootPage(plan.sep, root, plan.newPid)];
      ConservedElsewhere(h0, f, f', path, key, value, next);
      UnrootConserved(h, root, f', path, key, value, next);
      RootPageMeaning(plan.sep, root, plan.newPid);
    }
  }

  lemma UnrootOnTrack(h: Heap, root: Pid, path: seq<Pid>)
    requires root in h && LeafLast(h, path) && SortedPath(h, path)
    ensures LeafLast(Unroot(h, root), path) && SortedPath(Unroot(h, root), path)
  {
    hide SortedKeys;
    forall i | 0 <= i < |path| ensures Seps(Unroot(h, root)[path[i]]) == Seps(h[path[i]]) {}
  }

  // ----- The root flag -----

  /** Just the root carries the flag. */
  ghost predicate OneRoot(h: Heap, root: Pid) { root in h && forall x | x in h :: h[x].root <==> x == root }

  lemma PutFlags(p: Page, key: Key, value: seq<Byte>, child: Pid, newPid: Pid)
    ensures PutLeaf(p, key, value).root == p.root && AddSep(p, key, child, newPid).root == p.root
  {
    hide GetFreeOffset, Rank;
    FreeOffsetKeeps(p, |key|, |value|);
    FreeOffsetKeeps(SetChild(p, Rank(KeysOf(p.cells), key), newPid), |key|, 0);
  }

  lemma HalvesFlags(p: Page, q: nat)
    requires q < |p.cells|
    ensures Halves(p, q).0.root == p.root && !Halves(p, q).1.root
  {
    BuryAllTombs(p, p.cells[q..]);
  }

  lemma NewFlags(h: Heap, path: seq<Pid>, key: Key, value: seq<Byte>, next: Pid)
    requires path != [] && AllIn(h, path) && Splittable(h, path, key, value, next)
    ensures var (l, r) := NewPages(h, path, key, value, next);
            l.root == h[path[0]].root && (PlanOf(h, path, key, value, next).full ==> !r.root)
  {
    hide PutLeaf, AddSep, Halves, PlanOf, Splittable, Precedes;
    var p, plan := h[path[0]], PlanOf(h, path, key, value, next);
    PlanSep(h, path, key, value, next);
    if |path| > 1 {
      PlanFullBelow(h, path, key, value, next);
      var c := PlanOf(h, path[1..], key, value, next);
      PutFlags(p, c.sep, [], path[1], c.newPid);
      if plan.full {
        HalvesFlags(p, plan.q);
        PutFlags(Halves(p, plan.q).0, c.sep, [], path[1], c.newPid);
        PutFlags(Halves(p, plan.q).1, c.sep, [], path[1], c.newPid);
      }
    } else {
      PutFlags(p, key, value, 0, 0);
      if plan.full {
        HalvesFlags(p, plan.q);
        PutFlags(Halves(p, plan.q).0, key, value, 0, 0);
        PutFlags(Halves(p, plan.q).1, key, value, 0, 0);
      }
    }
  }

  lemma PlanFullBelow(h: Heap, path: seq<Pid>, key: Key, value: seq<Byte>, next: Pid)
    requires |path| > 1 && AllIn(h, path)
    ensures PlanOf(h, path, key, value, next).full ==> PlanOf(h, path[1..], key, value, next).full
  {}

  lemma {:induction false} PathFlags(h: Heap, path: seq<Pid>, key: Key, value: seq<Byte>, next: Pid)
    requires path != [] && AllIn(h, path) && Splittable(h, path, key, value, next) && Fresh(h, next)
    ensures var f := ApplyPath(h, path, key, value, next);
            h.Keys <= f.Keys && forall x | x in f :: f[x].root <==> x in h && h[x].root
    decreases |path|
  {
    hide NewPages, PlanOf, Splittable;
    NewFlags(h, path, key, value, next);
    PlanBounds(h, path, key, value, next);
    if |path| > 1 {
      SplitBelow(h, path, key, value, next);
      PathFlags(h, path[1..], key, value, next);
    }
    assert path[0] in h;
  }

  /** An insertion leaves exactly one page with the flag: the root, old or new. */
  lemma InsertFlags(h: Heap, root: Pid, n: nat, key: Key, value: seq<Byte>, next: Pid)
    requires OneRoot(h, root) && Fresh(h, next) && AllIn(h, PathOf(h, root, n, key))
    requires Splittable(h, PathOf(h, root, n, key), key, value, next)
    ensures var o := InsertAll(h, root, n, key, value, next); OneRoot(o.heap, o.root)
  {
    hide PlanOf, ApplyPath, Splittable, PathOf;
    var path := PathOf(h, root, n, key);
    if !PlanOf(h, path, key, value, next).full {
      PathFlags(h, path, key, value, next);
    } else {
      UnrootPlan(h, root, path, key, value, next);
      PlanBounds(h, path, key, value, next);
      PathFlags(Unroot(h, root), path, key, value, next);
      PlanBounds(Unroot(h, root), path, key, value, next);
    }
  }

  // ----- What a caller relies on -----

  /** What btree_insert takes for granted: pages that split do so inside, pages that receive have room. */
  ghost predicate Ready(h: Heap, root: Pid, n: nat, key: Key, value: seq<Byte>, next: Pid) {
    var path := PathOf(h, root, n, key);
    && AllIn(h, path) && Splittable(h, path, key, value, next)
    && forall r | r in Receivers(h, path, key, value, next) :: r.Room()
  }

  /** An internal page splits. */
  ghost predicate Cascades(h: Heap, root: Pid, n: nat, key: Key, value: seq<Byte>, next: Pid) {
    AllIn(h, PathOf(h, root, n, key)) && SplitsInternal(h, PathOf(h, root, n, key), key, value, next)
  }

  /** Every page that receives a cell keeps cell_offset below its cells. */
  ghost predicate AllKeep(h: Heap, root: Pid, n: nat, key: Key, value: seq<Byte>, next: Pid) {
    var path := PathOf(h, root, n, key);
    AllIn(h, path) && Splittable(h, path, key, value, next) && forall r | r in Receivers(h, path, key, value, next) :: r.Keeps()
  }

  lemma SeparatorsMet(h: Heap, root: Pid, n: nat, key: Key)
    requires IsTree(h, root, n) && OnSeparator(h, root, n, key)
    ensures Stores(Contents(h, root, n), key)
  {
    hide Precedes, Shape, OnSeparator, Contents;
    SeparatorsAreStored(h, root, n, Unbounded, Unbounded, key);
  }
}
