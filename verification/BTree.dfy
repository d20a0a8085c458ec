/** btree_insert as written: a descent that leaves breadcrumbs, a loop that plans splits from the leaf
    up, a loop that applies them from the top down, and the insertion into a leaf (src/tree/btree.c).
    It is proved to make the pages what TreeTheorem.InsertAll says. */
module BTrees {
  import opened Keys
  import opened Pages
  import opened PageLaws
  import opened PageRuns
  import opened Trees
  import opened TreeInsert
  import opened TreeRefinement
  import opened TreeCascades
  import opened TreeSpace
  import opened TreeTheorem

  const MAX_PATH: nat := 16

  datatype Breadcrumb = Breadcrumb(node: Pid, newNode: Pid, fNode: Pid, partitionIdx: nat, isFull: bool)

  // ----- Levels of a path -----

  /** The plan of the i-th page of the path. */
  function PlanAt(h: Heap, path: seq<Pid>, i: nat, key: Key, value: seq<Byte>, next: Pid): Plan
    requires i < |path| && AllIn(h, path)
  {
    PlanOf(h, path[i..], key, value, next)
  }

  /** The key that the i-th page receives: the stored key for the leaf, the child's separator above it. */
  function Incoming(h: Heap, path: seq<Pid>, i: nat, key: Key, value: seq<Byte>, next: Pid): Key
    requires i < |path| && AllIn(h, path)
  {
    if i == |path| - 1 then key else PlanAt(h, path, i + 1, key, value, next).sep
  }

  /** A breadcrumb says what the plan of its page says, and which page receives. */
  ghost predicate CrumbOf(b: Breadcrumb, h: Heap, path: seq<Pid>, i: nat, key: Key, value: seq<Byte>, next: Pid)
    requires i < |path| && AllIn(h, path)
  {
    var plan := PlanAt(h, path, i, key, value, next);
    && b.isFull == plan.full
    && (plan.full ==> b.newNode == plan.newPid && b.partitionIdx == plan.q)
    && b.fNode == if plan.full && Precedes(plan.sep, Incoming(h, path, i, key, value, next)) then plan.newPid else path[i]
  }

  lemma CrumbPlan(b: Breadcrumb, h: Heap, path: seq<Pid>, i: nat, key: Key, value: seq<Byte>, next: Pid)
    requires i < |path| && AllIn(h, path) && CrumbOf(b, h, path, i, key, value, next)
    ensures var plan := PlanAt(h, path, i, key, value, next);
            b.isFull == plan.full && (plan.full ==> b.newNode == plan.newPid && b.partitionIdx == plan.q)
  {
    hide PlanAt, Precedes;
  }

  /** What a breadcrumb decides, in numbers. A page splits when the page below it does and it has no room for the
      key pushed up from there, the leaf when it has no room for the pair; the split point is the least prefix of
      at least 1992 bytes; the new page receives when the key at the split point comes before the incoming one. */
  ghost predicate Decided(bc: seq<Breadcrumb>, h: Heap, path: seq<Pid>, i: nat, key: Key, value: seq<Byte>, first: Pid)
    requires i < |path| <= |bc| && AllIn(h, path)
  {
    var b, p, last := bc[i], h[path[i]], |path| - 1;
    && b.node == path[i]
    && (i < last ==> bc[i + 1].isFull && bc[i + 1].partitionIdx < |h[path[i + 1]].cells|)
    && var incoming := if i == last then key else h[path[i + 1]].cells[bc[i + 1].partitionIdx].key;
       && (b.isFull <==> NoRoom(p, |incoming| + if i == last then |value| else 0))
       && (if b.isFull
           then && SplitsAt(p.cells, b.partitionIdx) && b.partitionIdx < |p.cells|
                && b.newNode == first + (last - i)
                && b.fNode == if Precedes(p.cells[b.partitionIdx].key, incoming) then b.newNode else b.node
           else b.fNode == b.node)
  }

  /** What the plan of any level of any path says, in numbers. */
  lemma PlanMeaning(h: Heap, path: seq<Pid>, i: nat, key: Key, value: seq<Byte>, next: Pid)
    requires i < |path| && AllIn(h, path) && Splittable(h, path, key, value, next) && PagesValid(h)
    requires |key| + |value| + CELL_HEADER + 3 < U32
    ensures var p, plan := h[path[i]], PlanAt(h, path, i, key, value, next);
            && (plan.full <==>
                if i == |path| - 1 then NoRoom(p, |key| + |value|)
                else var c := PlanAt(h, path, i + 1, key, value, next); c.full && NoRoom(p, |c.sep|))
            && (plan.full ==>
                  && SplitsAt(p.cells, plan.q) && plan.q < |p.cells| && plan.sep == p.cells[plan.q].key
                  && plan.newPid == next + (|path| - 1 - i))
  {
    hide IsFull, PartitionIdx, PlanAt, Splittable, NoRoom, SplitsAt, Valid;
    assert path[i] in h;
    PlanStep(h, path, i, key, value, next);
    PlanNumbers(h, path, i, key, value, next);
    SplitPoint(h[path[i]].cells);
    if i == |path| - 1 {
      FullMeaning(h[path[i]], |key|, |value|);
    } else {
      assert path[i + 1] in h;
      PlanStep(h, path, i + 1, key, value, next);
      var c := PlanAt(h, path, i + 1, key, value, next);
      if c.full {
        SepFits(h[path[i + 1]], c);
        FullMeaning(h[path[i]], |c.sep|, 0);
      }
    }
  }

  /** The planned breadcrumbs decide every level from the s-th one down. */
  lemma PlannedDecides(bc: seq<Breadcrumb>, h: Heap, path: seq<Pid>, s: nat, i: nat, key: Key, value: seq<Byte>, first: Pid)
    requires s <= i < |path| <= |bc| && Planned(bc, h, path, s, key, value, first) && PagesValid(h)
    requires Splittable(h, path, key, value, first) && |key| + |value| + CELL_HEADER + 3 < U32
    requires i + 1 < |path| ==> PlanAt(h, path, i + 1, key, value, first).full
    ensures Decided(bc, h, path, i, key, value, first)
  {
    hide PlanAt, Splittable, NoRoom, SplitsAt, Precedes, PagesValid;
    PlanMeaning(h, path, i, key, value, first);
    assert CrumbOf(bc[i], h, path, i, key, value, first);
    if i + 1 < |path| {
      PlanMeaning(h, path, i + 1, key, value, first);
      assert CrumbOf(bc[i + 1], h, path, i + 1, key, value, first);
    }
  }

  lemma AllDecided(bc: seq<Breadcrumb>, h: Heap, path: seq<Pid>, s: nat, key: Key, value: seq<Byte>, first: Pid)
    requires s < |path| <= |bc| && Planned(bc, h, path, s, key, value, first) && Supplied(h, path, key, value, first)
    requires s + 1 < |path| ==> PlanAt(h, path, s + 1, key, value, first).full
    ensures forall i | s <= i < |path| :: Decided(bc, h, path, i, key, value, first)
  {
    hide PlanAt, Decided, Planned, Receivers;
    forall i | s <= i < |path| ensures Decided(bc, h, path, i, key, value, first) {
      if i + 1 < |path| { SplitsBelow(h, path, s + 1, i + 1, key, value, first); }
      PlannedDecides(bc, h, path, s, i, key, value, first);
    }
  }

  /** The breadcrumbs carry the path. */
  ghost predicate OnPath(bc: seq<Breadcrumb>, path: seq<Pid>) {
    |path| <= |bc| && forall i | 0 <= i < |path| :: bc[i].node == path[i]
  }

  /** The breadcrumbs from the s-th page down carry its plan. */
  ghost predicate Planned(bc: seq<Breadcrumb>, h: Heap, path: seq<Pid>, s: nat, key: Key, value: seq<Byte>, next: Pid) {
    OnPath(bc, path) && AllIn(h, path) && forall i | s <= i < |path| :: CrumbOf(bc[i], h, path, i, key, value, next)
  }

  /** The pages while splits are planned: the old ones, and empty ones allocated from `next` on, a leaf first. */
  ghost predicate Allocated(h: Heap, pages: Heap, next: Pid, next': Pid) {
    && (forall x: Pid :: x in pages <==> x in h || next <= x < next')
    && forall x | x in pages :: pages[x] == if x < next then (if x in h then h[x] else pages[x]) else EmptyPage(x == next, false)
  }

  lemma {:induction false} SplittableAt(h: Heap, path: seq<Pid>, i: nat, key: Key, value: seq<Byte>, next: Pid)
    requires i < |path| && AllIn(h, path) && Splittable(h, path, key, value, next)
    ensures Splittable(h, path[i..], key, value, next)
    decreases i
  {
    if i == 0 {
      assert path[0..] == path;
    } else {
      SplittableAt(h, path, i - 1, key, value, next);
      assert path[i - 1..][1..] == path[i..];
    }
  }

  /** New pages are numbered from the leaf up, and a page only splits when the one below it does. */
  lemma {:induction false} PlanNumbers(h: Heap, path: seq<Pid>, i: nat, key: Key, value: seq<Byte>, next: Pid)
    requires i < |path| && AllIn(h, path)
    ensures var plan := PlanAt(h, path, i, key, value, next);
            && (plan.full ==> plan.newPid == next + (|path| - 1 - i) && plan.next == next + (|path| - i))
            && (plan.full && i + 1 < |path| ==> PlanAt(h, path, i + 1, key, value, next).full)
            && (!plan.full && i + 1 < |path| ==> plan.next == PlanAt(h, path, i + 1, key, value, next).next)
            && (!plan.full && i + 1 == |path| ==> plan.next == next)
            && next <= plan.next <= next + (|path| - i)
    decreases |path| - i
  {
    hide IsFull, PartitionIdx;
    if i + 1 < |path| {
      assert path[i..][1..] == path[i + 1..];
      PlanNumbers(h, path, i + 1, key, value, next);
    }
  }

  // ----- The pages afterwards, level by level -----

  /** The pages with the path's levels from i down still to be written: `done` above, untouched pages and
      empty new ones below. */
  ghost predicate Staged(pages: Heap, h: Heap, done: Heap, path: seq<Pid>, i: nat, next: Pid)
    requires i <= |path|
  {
    && pages.Keys == done.Keys
    && forall x | x in pages ::
         pages[x] == if x >= next then (if x > next + (|path| - 1) - i then done[x] else EmptyPage(x == next, false))
                     else if x in path[..i] then done[x]
                     else if x in h then h[x] else pages[x]
  }

  /** The pages that exist afterwards, and those that are not touched. */
  lemma {:induction false} ApplyKeys(h: Heap, path: seq<Pid>, key: Key, value: seq<Byte>, next: Pid)
    requires path != [] && AllIn(h, path) && Splittable(h, path, key, value, next) && Fresh(h, next)
    ensures var f := ApplyPath(h, path, key, value, next);
            && (forall x: Pid :: x in f <==> x in h || next <= x < PlanOf(h, path, key, value, next).next)
            && (forall x | x in h && x !in path :: f[x] == h[x])
    decreases |path|
  {
    hide NewPages, IsFull, PartitionIdx, PlanOf, Splittable;
    PlanNumbers(h, path, 0, key, value, next);
    assert path[0..] == path && path[0] in h;
    if |path| > 1 {
      SplitBelow(h, path, key, value, next);
      PlanNumbers(h, path, 1, key, value, next);
      ApplyKeys(h, path[1..], key, value, next);
    }
  }

  lemma LevelBelow(h: Heap, path: seq<Pid>, i: nat, key: Key, value: seq<Byte>, next: Pid)
    requires 0 < i < |path| && AllIn(h, path) && Fresh(h, next) && Distinct(path)
    requires Splittable(h, path, key, value, next) && Splittable(h, path[1..], key, value, next)
    requires LevelDone(h, ApplyPath(h, path[1..], key, value, next), path[1..], i - 1, key, value, next)
    ensures LevelDone(h, ApplyPath(h, path, key, value, next), path, i, key, value, next)
  {
    hide NewPages, PlanOf, Splittable, ApplyPath;
    assert path[1..][i - 1..] == path[i..] && path[1..][i - 1] == path[i];
    ApplyFirst(h, path, key, value, next);
    PlanNumbers(h, path, 0, key, value, next);
    PlanNumbers(h, path, i, key, value, next);
    assert path[0..] == path;
    assert path[i] in h && path[0] in h;
  }

  lemma ApplyFirst(h: Heap, path: seq<Pid>, key: Key, value: seq<Byte>, next: Pid)
    requires |path| > 1 && AllIn(h, path) && Splittable(h, path, key, value, next) && Splittable(h, path[1..], key, value, next)
    ensures var f, below, plan := ApplyPath(h, path, key, value, next), ApplyPath(h, path[1..], key, value, next), PlanOf(h, path, key, value, next);
            forall x | x in below && x != path[0] && (plan.full ==> x != plan.newPid) :: x in f && f[x] == below[x]
  {
    hide NewPages, PlanOf, Splittable;
  }

  /** ApplyPath changes each page of the path as its own level says. */
  lemma {:induction false} ApplyLevels(h: Heap, path: seq<Pid>, i: nat, key: Key, value: seq<Byte>, next: Pid)
    requires i < |path| && AllIn(h, path) && Splittable(h, path, key, value, next) && Fresh(h, next) && Distinct(path)
    ensures LevelDone(h, ApplyPath(h, path, key, value, next), path, i, key, value, next)
    decreases |path|
  {
    hide NewPages, PlanOf, Splittable;
    if i == 0 {
      assert path[0..] == path;
      PlanNumbers(h, path, 0, key, value, next);
      assert path[0] in h;
    } else {
      SplitBelow(h, path, key, value, next);
      assert Distinct(path[1..]);
      ApplyLevels(h, path[1..], i - 1, key, value, next);
      LevelBelow(h, path, i, key, value, next);
    }
  }

  ghost predicate LevelDone(h: Heap, f: Heap, path: seq<Pid>, i: nat, key: Key, value: seq<Byte>, next: Pid)
    requires i < |path| && AllIn(h, path)
  {
    && Splittable(h, path[i..], key, value, next)
    && path[i] in f && f[path[i]] == NewPages(h, path[i..], key, value, next).0
    && var plan := PlanAt(h, path, i, key, value, next);
       plan.full ==> plan.newPid in f && f[plan.newPid] == NewPages(h, path[i..], key, value, next).1
  }

  /** What a staged heap holds at the levels still to be written. */
  lemma StagedAt(pages: Heap, h: Heap, done: Heap, path: seq<Pid>, i: nat, k: nat, next: Pid)
    requires i <= k < |path| && AllIn(h, path) && Distinct(path) && Fresh(h, next) && h.Keys <= done.Keys
    requires Staged(pages, h, done, path, i, next)
    ensures path[k] in pages && pages[path[k]] == h[path[k]]
    ensures next + (|path| - 1) - k in done ==>
              next + (|path| - 1) - k in pages && pages[next + (|path| - 1) - k] == EmptyPage(k == |path| - 1, false)
  {
    assert path[k] in h && path[k] !in path[..i];
  }

  lemma StagedKeys(pages: Heap, h: Heap, done: Heap, path: seq<Pid>, i: nat, next: Pid)
    requires i <= |path| && Staged(pages, h, done, path, i, next)
    ensures pages.Keys == done.Keys
  {}

  /** Nothing is left to be written. */
  lemma StagedAll(pages: Heap, h: Heap, done: Heap, path: seq<Pid>, next: Pid)
    requires Staged(pages, h, done, path, |path|, next) && Fresh(h, next)
    requires (forall x | x in done && x !in h :: next <= x) && (forall x | x in h && x !in path :: x in done && done[x] == h[x])
    ensures pages == done
  {
    assert path[..|path|] == path;
  }

  /** The leaf of the path and its new page are written as the bare halves of the leaf. */
  ghost predicate LeafSplitDone(h: Heap, done: Heap, path: seq<Pid>, q: nat, next: Pid) {
    && path != [] && AllIn(h, path)
    && var leaf := path[|path| - 1];
       && leaf in h && leaf in done && next in done && q < |h[leaf].cells|
       && done[leaf] == SplitLeft(h[leaf], q)
       && done[next] == SplitRight(h[leaf], EmptyPage(true, false), q)
  }

  /** The final pages, but with the leaf of the path as its bare halves. */
  function Halfway(h: Heap, f: Heap, path: seq<Pid>, q: nat, next: Pid): Heap
    requires path != [] && path[|path| - 1] in h && q < |h[path[|path| - 1]].cells|
  {
    var leaf := path[|path| - 1];
    f[leaf := SplitLeft(h[leaf], q)][next := SplitRight(h[leaf], EmptyPage(true, false), q)]
  }

  /** Nothing above a page that does not split splits, and nothing is allocated there. */
  lemma {:induction false} NoSplitsAbove(h: Heap, path: seq<Pid>, i: nat, s: nat, key: Key, value: seq<Byte>, next: Pid)
    requires i <= s < |path| && AllIn(h, path) && !PlanAt(h, path, s, key, value, next).full
    ensures !PlanAt(h, path, i, key, value, next).full
    ensures PlanAt(h, path, i, key, value, next).next == PlanAt(h, path, s, key, value, next).next
    decreases s - i
  {
    hide PlanAt;
    if i < s {
      NoSplitsAbove(h, path, i + 1, s, key, value, next);
      PlanNumbers(h, path, i, key, value, next);
    }
  }

  lemma {:induction false} SplitsBelow(h: Heap, path: seq<Pid>, s: nat, i: nat, key: Key, value: seq<Byte>, next: Pid)
    requires s <= i < |path| && AllIn(h, path) && PlanAt(h, path, s, key, value, next).full
    ensures PlanAt(h, path, i, key, value, next).full
    decreases i - s
  {
    hide PlanAt;
    if s < i {
      SplitsBelow(h, path, s, i - 1, key, value, next);
      PlanNumbers(h, path, i - 1, key, value, next);
    }
  }

  /** A page above one that does not split keeps its bytes. */
  lemma NewPagesUntouched(h: Heap, path: seq<Pid>, i: nat, key: Key, value: seq<Byte>, next: Pid)
    requires i + 1 < |path| && AllIn(h, path) && Splittable(h, path[i..], key, value, next)
    requires !PlanAt(h, path, i + 1, key, value, next).full
    ensures NewPages(h, path[i..], key, value, next).0 == h[path[i]]
  {
    hide PlanOf;
    assert path[i..][1..] == path[i + 1..];
  }

  /** What NewPages says of a leaf that splits: one of its halves with the pair. */
  lemma NewPagesLeaf(h: Heap, path: seq<Pid>, key: Key, value: seq<Byte>, next: Pid)
    requires LeafLast(h, path) && path != [] && Splittable(h, path, key, value, next)
    ensures var last := |path| - 1;
            Splittable(h, path[last..], key, value, next) &&
            var p, plan := h[path[last]], PlanAt(h, path, last, key, value, next);
            var pages := NewPages(h, path[last..], key, value, next);
            if !plan.full then pages.0 == PutLeaf(p, key, value)
            else
              && plan.q < |p.cells| && plan.newPid == next
              && var (l, r) := (SplitLeft(p, plan.q), SplitRight(p, EmptyPage(true, false), plan.q));
                 pages == if Precedes(plan.sep, key) then (l, PutLeaf(r, key, value)) else (PutLeaf(l, key, value), r)
  {
    hide PutLeaf, SplitLeft, SplitRight, Precedes, IsFull, PartitionIdx;
    var last := |path| - 1;
    SplittableAt(h, path, last, key, value, next);
    PlanSep(h, path[last..], key, value, next);
  }

  /** The final pages are the halfway ones with the pair put into the receiving half. */
  lemma HalfwayFacts(h: Heap, path: seq<Pid>, key: Key, value: seq<Byte>, next: Pid)
    requires LeafLast(h, path) && path != [] && Splittable(h, path, key, value, next) && Fresh(h, next) && Distinct(path)
    requires PlanAt(h, path, |path| - 1, key, value, next).full
    ensures var f, plan := ApplyPath(h, path, key, value, next), PlanAt(h, path, |path| - 1, key, value, next);
            && plan.q < |h[path[|path| - 1]].cells|
            && var done := Halfway(h, f, path, plan.q, next);
               var target := if Precedes(plan.sep, key) then next else path[|path| - 1];
               && target in done && f == done[target := PutLeaf(done[target], key, value)]
               && LeafSplitDone(h, done, path, plan.q, next)
               && (forall x: Pid :: x in done <==> x in h || next <= x < PlanOf(h, path, key, value, next).next)
               && (forall x | x in h && x !in path :: done[x] == h[x])
               && (forall i | 0 <= i < |path| - 1 :: LevelDone(h, done, path, i, key, value, next))
  {
    hide PutLeaf, SplitLeft, SplitRight, Precedes, PlanOf, NewPages, ApplyPath, Splittable, LevelDone;
    var last, f := |path| - 1, ApplyPath(h, path, key, value, next);
    var plan := PlanAt(h, path, last, key, value, next);
    NewPagesLeaf(h, path, key, value, next);
    ApplyKeys(h, path, key, value, next);
    ApplyLevels(h, path, last, key, value, next);
    DoneAt(h, f, path, last, key, value, next);
    assert path[last] in h;
    HalfwayLevels(h, path, plan.q, key, value, next);
  }

  lemma DoneAt(h: Heap, f: Heap, path: seq<Pid>, i: nat, key: Key, value: seq<Byte>, next: Pid)
    requires i < |path| && AllIn(h, path) && LevelDone(h, f, path, i, key, value, next)
    ensures path[i] in f && Splittable(h, path[i..], key, value, next) && f[path[i]] == NewPages(h, path[i..], key, value, next).0
    ensures var plan := PlanAt(h, path, i, key, value, next);
            plan.full ==> plan.newPid in f && f[plan.newPid] == NewPages(h, path[i..], key, value, next).1
  {
    hide PlanAt, NewPages, Splittable;
  }

  lemma HalfwayLevels(h: Heap, path: seq<Pid>, q: nat, key: Key, value: seq<Byte>, next: Pid)
    requires path != [] && AllIn(h, path) && Splittable(h, path, key, value, next) && Fresh(h, next) && Distinct(path)
    requires q < |h[path[|path| - 1]].cells|
    ensures var done := Halfway(h, ApplyPath(h, path, key, value, next), path, q, next);
            forall i | 0 <= i < |path| - 1 :: LevelDone(h, done, path, i, key, value, next)
  {
    hide SplitLeft, SplitRight, PlanAt, NewPages, ApplyPath, Splittable;
    var done := Halfway(h, ApplyPath(h, path, key, value, next), path, q, next);
    forall i | 0 <= i < |path| - 1 ensures LevelDone(h, done, path, i, key, value, next) {
      ApplyLevels(h, path, i, key, value, next);
      PlanNumbers(h, path, i, key, value, next);
      assert path[i] in h && path[i] != path[|path| - 1];
    }
  }

  lemma StagedNext(pages: Heap, pages': Heap, h: Heap, done: Heap, path: seq<Pid>, i: nat, next: Pid)
    requires i < |path| && AllIn(h, path) && Fresh(h, next) && h.Keys <= done.Keys
    requires Staged(pages, h, done, path, i, next) && pages'.Keys == pages.Keys
    requires var x := next + (|path| - 1) - i;
             && pages'[path[i]] == done[path[i]]
             && (x in done ==> pages'[x] == done[x])
             && forall y | y in pages && y != path[i] && y != x :: pages'[y] == pages[y]
    ensures Staged(pages', h, done, path, i + 1, next)
  {
    assert path[..i + 1] == path[..i] + [path[i]] && path[i] in h;
  }

  /** What NewPages says of a page above a splitting one. */
  lemma NewPagesAbove(h: Heap, path: seq<Pid>, i: nat, key: Key, value: seq<Byte>, next: Pid)
    requires i + 1 < |path| && LeafLast(h, path) && Splittable(h, path[i..], key, value, next)
    requires PlanAt(h, path, i + 1, key, value, next).full
    ensures var p, plan, c := h[path[i]], PlanAt(h, path, i, key, value, next), PlanAt(h, path, i + 1, key, value, next);
            var pages := NewPages(h, path[i..], key, value, next);
            if !plan.full then pages.0 == AddSep(p, c.sep, path[i + 1], c.newPid)
            else
              && plan.q < |p.cells|
              && var (l, r) := (SplitLeft(p, plan.q), SplitRight(p, EmptyPage(false, false), plan.q));
                 pages == if Precedes(plan.sep, c.sep) then (l, AddSep(r, c.sep, path[i + 1], c.newPid))
                          else (AddSep(l, c.sep, path[i + 1], c.newPid), r)
  {
    hide AddSep, SplitLeft, SplitRight, Precedes, PlanOf;
    assert path[i..][1..] == path[i + 1..] && path[i..][1] == path[i + 1];
    PlanSep(h, path[i..], key, value, next);
  }

  /** A tree on valid pages, with the number of its pairs. */
  ghost predicate IsCounted(h: Heap, root: Pid, n: nat, next: Pid, count: nat) {
    IsTree(h, root, n) && Fresh(h, next) && PagesValid(h) && count == |Contents(h, root, n)| % U32
  }

  class BTree {
    var pages: Heap
    var root: Pid
    var count: nat
    /** The next address malloc hands out. */
    var next: Pid
    ghost var height: nat

    ghost predicate Valid()
      reads this
    {
      IsCounted(pages, root, height, next, count)
    }

    /** btree_init: an empty leaf as root. */
    constructor ()
      ensures Valid() && Contents(pages, root, height) == [] && height == 0 && OneRoot(pages, root)
    {
      pages, root, next := map[1 := EmptyPage(true, true)], 1, 2;
      count, height := 0, 0;
    }

    method Alloc(p: Page) returns (pid: Pid)
      modifies this`pages, this`next
      ensures pid == old(next) && next == old(next) + 1 && pages == old(pages)[pid := p]
    {
      pid := next;
      pages := pages[pid := p];
      next := next + 1;
    }

    /** The decision for one page: if it is full, a new page is allocated, and the incoming key goes to it
        when the partition key comes before that key. */
    method PlanPage(node: Pid, incoming: Key, full: bool, leaf: bool,
                    ghost h: Heap, ghost path: seq<Pid>, ghost i: nat, ghost key: Key, ghost value: seq<Byte>, ghost first: Pid)
      returns (b: Breadcrumb)
      requires i < |path| && AllIn(h, path) && Splittable(h, path, key, value, first) && node == path[i] < first
      requires incoming == Incoming(h, path, i, key, value, first) && full == PlanAt(h, path, i, key, value, first).full
      requires leaf == (i == |path| - 1) == (next == first) && first <= next && Allocated(h, pages, first, next)
      requires next == if leaf then first else PlanAt(h, path, i + 1, key, value, first).next
      modifies this`pages, this`next
      ensures CrumbOf(b, h, path, i, key, value, first) && b.node == node
      ensures next == PlanAt(h, path, i, key, value, first).next && Allocated(h, pages, first, next)
      ensures full ==> next == old(next) + 1
      ensures b.isFull == full && (full ==> SplitsAt(h[node].cells, b.partitionIdx))
    {
      hide IsFull, PartitionIdx, PlanAt, Splittable, Precedes, SplitsAt;
      SplitPoint(h[node].cells);
      PlanStep(h, path, i, key, value, first);
      var q := PartitionIdx(pages[node].cells);
      if full {
        var partition := pages[node].cells[q].key;
        var newNode := Alloc(EmptyPage(leaf, false));
        b := Breadcrumb(node, newNode, if Precedes(partition, incoming) then newNode else node, q, true);
      } else {
        b := Breadcrumb(node, 0, node, q, false);
      }
    }

    /** The decision for the page above one that splits: it is to receive the separator of that one. */
    method PlanAbove(node: Pid, below: Breadcrumb, ghost h: Heap, ghost path: seq<Pid>, ghost i: nat, ghost key: Key,
                     ghost value: seq<Byte>, ghost first: Pid)
      returns (b: Breadcrumb)
      requires i + 1 < |path| && AllIn(h, path) && Splittable(h, path, key, value, first) && Fresh(h, first)
      requires node == path[i] && below.node == path[i + 1] && below.isFull && CrumbOf(below, h, path, i + 1, key, value, first)
      requires next == PlanAt(h, path, i + 1, key, value, first).next > first && Allocated(h, pages, first, next)
      modifies this`pages, this`next
      ensures CrumbOf(b, h, path, i, key, value, first) && b.node == node
      ensures next == PlanAt(h, path, i, key, value, first).next >= old(next) && Allocated(h, pages, first, next)
    {
      hide IsFull, PartitionIdx, PlanAt, Splittable, Precedes, Allocated, CrumbOf;
      assert path[i] in h && path[i + 1] in h;
      CrumbPlan(below, h, path, i + 1, key, value, first);
      PlanStep(h, path, i + 1, key, value, first);
      PlanStep(h, path, i, key, value, first);
      AllocatedKeeps(h, pages, first, next, path[i + 1]);
      AllocatedKeeps(h, pages, first, next, path[i]);
      var child := pages[below.node].cells[below.partitionIdx].key;
      var full := IsFull(pages[node], |child|, 0);
      MakePlanFull(h[path[i]], full, next);
      b := PlanPage(node, child, full, false, h, path, i, key, value, first);
    }

    /** Plans the splits from the full leaf up to the first page that has room, allocating the new pages. */
    method PlanSplits(key: Key, value: seq<Byte>, bc: array<Breadcrumb>, bcLen: nat, ghost path: seq<Pid>) returns (s: nat)
      requires |path| == bcLen > 0 && bcLen <= bc.Length && OnPath(bc[..], path) && AllIn(pages, path) && Fresh(pages, next)
      requires Splittable(pages, path, key, value, next) && PlanAt(pages, path, bcLen - 1, key, value, next).full
      modifies this`pages, this`next, bc
      ensures s < bcLen && Planned(bc[..], old(pages), path, s, key, value, old(next))
      ensures next == PlanAt(old(pages), path, s, key, value, old(next)).next && Allocated(old(pages), pages, old(next), next)
      ensures s == 0 || !PlanAt(old(pages), path, s, key, value, old(next)).full
      ensures s + 1 < bcLen ==> PlanAt(old(pages), path, s + 1, key, value, old(next)).full
    {
      hide IsFull, PartitionIdx, PlanAt, Splittable, Precedes, Allocated, CrumbOf;
      ghost var h, first := pages, next;
      AllocatedNone(h, first);
      assert forall i | 0 <= i < |path| :: path[i] in h;
      s := bcLen - 1;
      var b := PlanPage(bc[s].node, key, true, true, h, path, s, key, value, first);
      CrumbPlan(b, h, path, s, key, value, first);
      bc[s] := b;
      while s > 0 && bc[s].isFull
        invariant s < bcLen && OnPath(bc[..], path)
        invariant s + 1 < bcLen ==> PlanAt(h, path, s + 1, key, value, first).full
        invariant forall i | s <= i < |path| :: CrumbOf(bc[i], h, path, i, key, value, first)
        invariant bc[s].isFull == PlanAt(h, path, s, key, value, first).full
        invariant next == PlanAt(h, path, s, key, value, first).next > first && Allocated(h, pages, first, next)
        decreases s
      {
        CrumbPlan(bc[s], h, path, s, key, value, first);
        b := PlanAbove(bc[s - 1].node, bc[s], h, path, s - 1, key, value, first);
        CrumbPlan(b, h, path, s - 1, key, value, first);
        s := s - 1;
        bc[s] := b;
      }
    }

    /** leaf_node_split or internal_node_split, by the kind of page. */
    method SplitNode(node: Pid, newNode: Pid, q: nat)
      requires node in pages && newNode in pages && node != newNode && CanSplit(pages[node], pages[newNode], q)
      modifies this`pages
      ensures pages == old(pages)[node := SplitLeft(old(pages)[node], q)]
                                 [newNode := SplitRight(old(pages)[node], old(pages)[newNode], q)]
    {
      var p := pages[node];
      pages := pages[node := SplitLeft(p, q)][newNode := SplitRight(p, pages[newNode], q)];
    }

    /** Makes the pointer to the old child lead to its new sibling, then adds a cell that leads to the old child. */
    method LinkChild(fNode: Pid, sep: Key, child: Pid, childNew: Pid)
      requires fNode in pages && TakesSep(pages[fNode], sep, child, childNew)
      modifies this`pages
      ensures pages == old(pages)[fNode := AddSep(old(pages)[fNode], sep, child, childNew)]
    {
      var idx := Rank(KeysOf(pages[fNode].cells), sep);
      pages := pages[fNode := SetChild(pages[fNode], idx, childNew)];
      var (p, off) := GetFreeOffset(pages[fNode], |sep|, 0);
      pages := pages[fNode := InsertCell(p, idx, Cell(off, sep, [], child))];
    }

    /** One level of the downward loop, above a child that is still to be split. */
    method ApplyLevel(b: Breadcrumb, childCrumb: Breadcrumb, ghost i: nat, ghost h: Heap, ghost done: Heap, ghost path: seq<Pid>,
                      ghost key: Key, ghost value: seq<Byte>, ghost first: Pid)
      requires i + 1 < |path| && LeafLast(h, path) && Distinct(path) && Fresh(h, first) && Splittable(h, path, key, value, first)
      requires b.node == path[i] && childCrumb.node == path[i + 1]
      requires CrumbOf(b, h, path, i, key, value, first) && CrumbOf(childCrumb, h, path, i + 1, key, value, first)
      requires childCrumb.isFull && LevelDone(h, done, path, i, key, value, first)
      requires h.Keys <= done.Keys && (!b.isFull ==> first + (|path| - 1) - i !in done)
      requires Staged(pages, h, done, path, i, first) && Supplied(h, path, key, value, first)
      modifies this`pages
      ensures Staged(pages, h, done, path, i + 1, first)
    {
      hide Precedes, SplitLeft, SplitRight, AddSep, PlanAt, Splittable, NewPages, Staged, CanSplit, TakesSep, Supplied;
      ghost var before := pages;
      SuppliedInner(h, path, i, key, value, first);
      PlanStep(h, path, i, key, value, first);
      PlanStep(h, path, i + 1, key, value, first);
      PlanNumbers(h, path, i, key, value, first);
      PlanNumbers(h, path, i + 1, key, value, first);
      NewPagesAbove(h, path, i, key, value, first);
      StagedAt(pages, h, done, path, i, i, first);
      StagedAt(pages, h, done, path, i, i + 1, first);
      StagedKeys(pages, h, done, path, i, first);
      assert path[i] in h && path[i + 1] in h && path[i] != path[i + 1];
      if b.isFull {
        SplitNode(b.node, b.newNode, b.partitionIdx);
      }
      var sep := pages[childCrumb.node].cells[childCrumb.partitionIdx].key;
      LinkChild(b.fNode, sep, childCrumb.node, childCrumb.newNode);
      StagedNext(before, pages, h, done, path, i, first);
    }

    /** The last level of the downward loop: the leaf is split. */
    method ApplyLeaf(b: Breadcrumb, ghost h: Heap, ghost done: Heap, ghost path: seq<Pid>, ghost key: Key, ghost value: seq<Byte>,
                     ghost first: Pid)
      requires path != [] && AllIn(h, path) && Distinct(path) && Fresh(h, first) && Splittable(h, path, key, value, first)
      requires var last := |path| - 1;
               && b.node == path[last] && CrumbOf(b, h, path, last, key, value, first)
               && PlanAt(h, path, last, key, value, first).full
               && LeafSplitDone(h, done, path, PlanAt(h, path, last, key, value, first).q, first)
               && Staged(pages, h, done, path, last, first)
      requires Supplied(h, path, key, value, first)
      requires h.Keys <= done.Keys && (forall x | x in done && x !in h :: first <= x)
      requires forall x | x in h && x !in path :: done[x] == h[x]
      modifies this`pages
      ensures pages == done
    {
      hide PlanAt, Splittable, Staged, SplitLeft, SplitRight, CrumbOf, CanSplit, Supplied;
      ghost var last, before := |path| - 1, pages;
      SuppliedLeaf(h, path, key, value, first);
      CrumbPlan(b, h, path, last, key, value, first);
      PlanNumbers(h, path, last, key, value, first);
      StagedAt(pages, h, done, path, last, last, first);
      StagedKeys(pages, h, done, path, last, first);
      assert path[last] in h;
      SplitNode(b.node, b.newNode, b.partitionIdx);
      StagedNext(before, pages, h, done, path, last, first);
      StagedAll(pages, h, done, path, first);
    }

    /** A new root above the old one and the page that is about to be split off it. */
    method GrowRoot(b: Breadcrumb)
      requires b.node == root && root in pages && b.partitionIdx < |pages[root].cells| && Fresh(pages, next)
      requires FitsRoot(pages[root].cells[b.partitionIdx].key, root, b.newNode)
      modifies this`pages, this`root, this`next, this`height
      ensures root == old(next) && next == old(next) + 1 && height == old(height) + 1
      ensures pages == Unroot(old(pages), old(root))
                       [old(next) := RootPage(old(pages[root].cells[b.partitionIdx].key), old(root), b.newNode)]
    {
      hide GetFreeOffset;
      var node := b.node;
      var sep := pages[node].cells[b.partitionIdx].key;
      var newRoot := Alloc(EmptyPage(false, true));
      var (p, off) := GetFreeOffset(pages[newRoot], |sep|, 0);
      pages := pages[newRoot := InsertCell(p, 0, Cell(off, sep, [], node))];
      pages := pages[newRoot := pages[newRoot].(rightmost := b.newNode)];
      root := newRoot;
      pages := pages[node := pages[node].(root := false)];
      height := height + 1;
    }

    /** Writes all planned splits from the s-th page of the path down to the leaf. */
    method Propagate(bc: array<Breadcrumb>, bcLen: nat, s: nat, ghost h: Heap, ghost done: Heap, ghost path: seq<Pid>,
                     ghost key: Key, ghost value: seq<Byte>, ghost first: Pid)
      requires s < bcLen == |path| <= bc.Length && Goal(h, done, path, s, key, value, first)
      requires Supplied(h, path, key, value, first)
      requires Planned(bc[..], h, path, s, key, value, first)
      requires Staged(pages, h, done, path, s, first)
      modifies this`pages
      ensures pages == done
    {
      hide Precedes, PlanAt, Splittable, NewPages, Staged, SplitLeft, SplitRight, LevelDone, LeafSplitDone, CrumbOf, Supplied;
      ghost var last := |path| - 1;
      var i := s;
      while i + 1 < bcLen
        invariant s <= i <= last && Staged(pages, h, done, path, i, first)
      {
        CrumbPlan(bc[i], h, path, i, key, value, first);
        CrumbPlan(bc[i + 1], h, path, i + 1, key, value, first);
        ApplyLevel(bc[i], bc[i + 1], i, h, done, path, key, value, first);
        i := i + 1;
      }
      assert CrumbOf(bc[i], h, path, last, key, value, first);
      ApplyLeaf(bc[i], h, done, path, key, value, first);
    }

    /** The pair goes into a leaf: allocation, search, cell. */
    method StoreInLeaf(leafNode: Pid, key: Key, value: seq<Byte>)
      requires leafNode in pages && TakesPair(pages[leafNode], key, value)
      modifies this`pages, this`count
      ensures pages == old(pages)[leafNode := PutLeaf(old(pages)[leafNode], key, value)]
      ensures count == (old(count) + 1) % U32
    {
      hide GetFreeOffset, Rank;
      var (p, off) := GetFreeOffset(pages[leafNode], |key|, |value|);
      FreeOffsetKeeps(pages[leafNode], |key|, |value|);
      pages := pages[leafNode := InsertCell(p, Rank(KeysOf(p.cells), key), Cell(off, key, value, 0))];
      count := (count + 1) % U32;
    }

    /** The root is about to split: the new root is written first. `done` is what the downward loop arrives at. */
    method PrepareRoot(bc: array<Breadcrumb>, ghost h: Heap, ghost path: seq<Pid>, ghost key: Key, ghost value: seq<Byte>, ghost first: Pid)
      returns (ghost h0: Heap, ghost done: Heap)
      requires path != [] && |path| <= bc.Length && path[0] == root && root in h && Planned(bc[..], h, path, 0, key, value, first)
      requires LeafLast(h, path) && Distinct(path) && Fresh(h, first) && path == PathOf(h, root, height, key)
      requires Splittable(h, path, key, value, first) && PlanAt(h, path, 0, key, value, first).full
      requires next == PlanOf(h, path, key, value, first).next && Allocated(h, pages, first, next)
      requires Supplied(h, path, key, value, first)
      modifies this`pages, this`root, this`next, this`height
      ensures Supplied(h0, path, key, value, first)
      ensures Goal(h0, done, path, 0, key, value, first) && Planned(bc[..], h0, path, 0, key, value, first)
      ensures Staged(pages, h0, done, path, 0, first)
      ensures Arrives(h, done, bc[|path| - 1].fNode, InsertAll(h, old(root), old(height), key, value, first), root, height, next, key, value)
    {
      hide PutLeaf, SplitLeft, SplitRight, Precedes, NewPages, ApplyPath, Splittable, PlanAt, PlanOf, Staged, Halfway, RootPage, PathOf,
        IsFull, PartitionIdx, LevelDone, LeafSplitDone, Allocated, Goal, Supplied, FitsRoot;
      ghost var last := |path| - 1;
      SuppliedRoot(h, path, key, value, first);
      SuppliedUnroot(h, root, path, key, value, first);
      PlanAtZero(h, path, key, value, first);
      PlanNumbers(h, path, 0, key, value, first);
      SplitsBelow(h, path, 0, last, key, value, first);
      PlanStep(h, path, 0, key, value, first);
      PlanStep(h, path, last, key, value, first);
      AllocatedKeeps(h, pages, first, next, root);
      AllocatedFresh(h, pages, first, next);
      UnrootAllocated(h, pages, root, first, next);
      UnrootPlanned(bc[..], h, root, path, 0, key, value, first);
      UnrootPlans(h, root, path, key, value, first);
      h0 := Unroot(h, root);
      ghost var planned, newRoot := Unroot(pages, root), next;
      assert path[last] in h;
      assert CrumbOf(bc[0], h, path, 0, key, value, first) && CrumbOf(bc[last], h, path, last, key, value, first);
      GrowRoot(bc[0]);
      ghost var top := pages[newRoot];
      HalfwayFacts(h0, path, key, value, first);
      done := Halfway(h0, ApplyPath(h0, path, key, value, first), path, PlanAt(h0, path, last, key, value, first).q, first)[newRoot := top];
      RootGoal(h0, path, key, value, first, newRoot, top);
      StartStageRoot(h0, planned, path, key, value, first, newRoot, top);
    }

    /** The branch taken when the leaf is full: everything but the insertion into the leaf itself. */
    method SplitPath(key: Key, value: seq<Byte>, bc: array<Breadcrumb>, bcLen: nat, ghost path: seq<Pid>)
      returns (leafNode: Pid, ghost s: nat)
      requires |path| == bcLen > 0 && bcLen <= bc.Length && OnPath(bc[..], path) && Supplied(pages, path, key, value, next)
      requires path[0] == root && path == PathOf(pages, root, height, key)
      requires PlanAt(pages, path, bcLen - 1, key, value, next).full
      modifies this`pages, this`next, this`root, this`height, bc
      ensures Arrives(old(pages), pages, leafNode, old(InsertAll(pages, root, height, key, value, next)), root, height, next, key, value)
      ensures leafNode in pages && TakesPair(pages[leafNode], key, value)
      ensures AllConserved(old(pages), pages[leafNode := PutLeaf(pages[leafNode], key, value)], path, key, value, old(next))
      ensures s < bcLen && (s == 0 || !bc[s].isFull) && forall i | s <= i < bcLen :: Decided(bc[..], old(pages), path, i, key, value, old(next))
    {
      hide Decided, TakesPair, AllConserved, InsertAll,
        PutLeaf, NewPages, ApplyPath, Splittable, PlanAt, PlanOf, Staged, Halfway, PathOf, Allocated, Goal, CrumbOf, Arrives;
      ghost var h, first := pages, next;
      var top := PlanSplits(key, value, bc, bcLen, path);
      s := top;
      AllDecided(bc[..], h, path, s, key, value, first);
      CrumbFull(bc[..], h, path, s, key, value, first);
      CrumbFull(bc[..], h, path, bcLen - 1, key, value, first);
      PlanAtZero(h, path, key, value, first);
      ghost var h0, done := h, h;
      if top == 0 && bc[0].isFull {
        h0, done := PrepareRoot(bc, h, path, key, value, first);
      } else {
        done := PrepareInner(bc[..], h, pages, path, s, root, height, key, value, first, next);
      }
      Propagate(bc, bcLen, top, h0, done, path, key, value, first);
      leafNode := bc[bcLen - 1].fNode;
      LeafTakes(bc[..], h0, done, path, s, key, value, first);
      InsertConserves(h, old(root), old(height), key, value, first);
      ArrivesIn(h, done, leafNode, InsertAll(h, old(root), old(height), key, value, first), root, height, next, key, value);
    }

    /** node_bin_search on a page of the path, which is sorted. */
    method Find(node: Pid, key: Key) returns (found: bool, idx: nat)
      requires node in pages && SortedKeys(Seps(pages[node])) && |key| < KEY_LIMIT
      ensures idx == Rank(Seps(pages[node]), key) && (found <==> key in Seps(pages[node]))
    {
      hide Precedes, Rank, SortedKeys;
      var p := pages[node];
      idx := Rank(Seps(p), key);
      found := idx < |p.cells| && p.cells[idx].key == key;
      RankFinds(Seps(p), key);
    }

    /** Follows the key down to a leaf, leaving a breadcrumb per page; stops early when the key is a separator. */
    method Descend(key: Key, bc: array<Breadcrumb>) returns (found: bool, bcLen: nat)
      requires OnTrack(pages, root, height, key) && height < bc.Length && |key| < KEY_LIMIT
      modifies bc
      ensures found <==> OnSeparator(pages, root, height, key)
      ensures !found ==> bcLen == height + 1 && OnPath(bc[..], PathOf(pages, root, height, key))
      ensures !found ==> |PathOf(pages, root, height, key)| == bcLen
    {
      hide Precedes, Rank, PathOf, OnSeparator, SortedKeys, Distinct;
      ghost var path, n := PathOf(pages, root, height, key), height;
      PathLength(pages, root, height, key);
      var node := root;
      bc[0] := Breadcrumb(node, 0, 0, 0, false);
      bcLen := 1;
      assert path[0..] == path;
      while !pages[node].leaf
        invariant node in pages && 0 < bcLen && bcLen + n == height + 1 && |path| == height + 1
        invariant node == path[bcLen - 1] && path[bcLen - 1..] == PathOf(pages, node, n, key)
        invariant forall i | 0 <= i < bcLen :: bc[i].node == path[i]
        invariant OnSeparator(pages, root, height, key) == OnSeparator(pages, node, n, key)
        decreases n
      {
        var idx;
        found, idx := Find(node, key);
        DescendStep(pages, node, n, key);
        if found {
          return true, bcLen;
        }
        assert path[bcLen - 1..][1..] == path[bcLen..];
        node := Kids(pages[node])[idx];
        n := n - 1;
        assert path[bcLen..][0] == path[bcLen];
        bc[bcLen] := Breadcrumb(node, 0, 0, 0, false);
        bcLen := bcLen + 1;
      }
      DescendStep(pages, node, n, key);
      found := false;
    }

    /** btree_insert, in a tree or in what an internal split has left of one. A key met as a separator leaves
        everything as it is. Otherwise the pair goes in, every level conserves its keys, and no page is corrupted.
        A tree is a proper one afterwards exactly when no internal page split, the key was new and no page reused
        a dead extent above a live cell. */
    method Insert(key: Key, value: seq<Byte>) returns (ret: int)
      requires OnTrack(pages, root, height, key) && Fresh(pages, next) && PagesValid(pages)
      requires height < MAX_PATH && next + MAX_PATH < U64 && |key| < KEY_LIMIT && |key| + |value| + CELL_HEADER + 3 < U32
      requires !OnSeparator(pages, root, height, key) ==> Ready(pages, root, height, key, value, next)
      modifies this
      ensures ret == if old(OnSeparator(pages, root, height, key)) then 1 else 0
      ensures ret == 1 ==> unchanged(this)
      ensures ret == 0 ==> Outcome(pages, root, height, next) == old(InsertAll(pages, root, height, key, value, next))
      ensures ret == 0 ==> count == (old(count) + 1) % U32 && Fresh(pages, next) && PagesSound(pages)
      ensures ret == 0 ==> (PagesValid(pages) <==> old(AllKeep(pages, root, height, key, value, next)))
      ensures ret == 0 ==> AllConserved(old(pages), pages, old(PathOf(pages, root, height, key)), key, value, old(next))
      ensures old(OneRoot(pages, root)) ==> OneRoot(pages, root)
      ensures ret == 1 && old(Valid()) ==> Stores(Contents(pages, root, height), key)
      ensures ret == 0 && old(Valid()) && !old(Cascades(pages, root, height, key, value, next)) ==>
                Contents(pages, root, height) == Ins(old(Contents(pages, root, height)), key, value)
      ensures ret == 0 && old(Valid()) ==>
                (Valid() <==> && !old(Cascades(pages, root, height, key, value, next))
                              && !Stores(old(Contents(pages, root, height)), key)
                              && old(AllKeep(pages, root, height, key, value, next)))
    {
      hide Precedes, PlanAt, PlanOf, Splittable, IsFull, PartitionIdx, PathOf, OnSeparator, IsTree, Receivers, Arrives, InsertAll,
        Contents, Ins, Stores, Cascades, PagesValid, PagesSound, TakesPair, AllConserved, LeafLast, Distinct, SortedPath, AllKeep, IsCounted, OneRoot;
      ghost var h, r, n, first := pages, root, height, next;
      ghost var path := PathOf(h, r, n, key);
      var bc := new Breadcrumb[MAX_PATH];
      var found, bcLen := Descend(key, bc);
      if found {
        MetInTree(h, r, n, first, count, key);
        return 1;
      }
      PlanStep(h, path, bcLen - 1, key, value, first);
      SuppliedLeaf(h, path, key, value, first);
      var leafNode := bc[bcLen - 1].node;
      MakePlanFull(h[leafNode], IsFull(h[leafNode], |key|, |value|), first);
      if IsFull(pages[leafNode], |key|, |value|) {
        ghost var s;
        leafNode, s := SplitPath(key, value, bc, bcLen, path);
      } else {
        StayArrives(h, r, n, key, value, first);
      }
      ghost var before := pages;
      ArrivesIn(h, before, leafNode, InsertAll(h, r, n, key, value, first), root, height, next, key, value);
      StoreInLeaf(leafNode, key, value);
      if OneRoot(h, r) { InsertFlags(h, r, n, key, value, first); }
      InsertEffect(h, r, n, key, value, first, old(count), InsertAll(h, r, n, key, value, first), count);
      return 0;
    }
  }

  // ----- What the pages owe each other's callers -----

  /** Everything that is asked of the pages of a path when a pair is to be stored along it. */
  ghost predicate Supplied(h: Heap, path: seq<Pid>, key: Key, value: seq<Byte>, next: Pid) {
    && path != [] && LeafLast(h, path) && Distinct(path) && SortedPath(h, path)
    && Fresh(h, next) && next + |path| < U64 && PagesValid(h)
    && |key| < KEY_LIMIT && |key| + |value| + CELL_HEADER + 3 < U32
    && Splittable(h, path, key, value, next)
    && forall r | r in Receivers(h, path, key, value, next) :: r.Room()
  }

  /** What a page receives, received by the page of the i-th level that gets it. */
  lemma {:induction false} RoomAt(h: Heap, path: seq<Pid>, i: nat, key: Key, value: seq<Byte>, next: Pid)
    requires i < |path| && AllIn(h, path) && Splittable(h, path, key, value, next) && Splittable(h, path[i..], key, value, next)
    requires forall r | r in Receivers(h, path, key, value, next) :: r.Room()
    ensures forall r | r in Receivers(h, path[i..], key, value, next) :: r.Room()
    decreases i
  {
    hide PlanOf, Splittable, HasRoom, Target;
    if i == 0 {
      assert path[0..] == path;
    } else {
      SplitBelow(h, path, key, value, next);
      assert path[1..][i - 1..] == path[i..];
      assert forall r | r in Receivers(h, path[1..], key, value, next) :: r in Receivers(h, path, key, value, next);
      RoomAt(h, path[1..], i - 1, key, value, next);
    }
  }

  /** The half of a sorted page that a key goes to is sorted and of the same kind. */
  lemma TargetSorted(p: Page, plan: Plan, key: Key)
    requires SortedKeys(KeysOf(p.cells)) && (plan.full ==> plan.q < |p.cells|)
    ensures var t := Target(p, plan, key); SortedKeys(KeysOf(t.cells)) && t.leaf == p.leaf
  {
    hide Precedes, Halves, SortedKeys;
    if plan.full {
      HalvesMeaning(p, plan.q);
      var ks, from := KeysOf(p.cells), |p.cells| - |Moved(p, plan.q)|;
      assert KeysOf(p.cells[..plan.q]) == ks[..plan.q] && KeysOf(Moved(p, plan.q)) == ks[from..];
      SortedSlices(ks, plan.q);
      SortedSlices(ks, from);
    }
  }

  lemma SortedSlices(ks: seq<Key>, q: nat)
    requires SortedKeys(ks) && q <= |ks|
    ensures SortedKeys(ks[..q]) && SortedKeys(ks[q..])
  {
    hide Precedes;
  }

  /** An internal level splits as the split of a page asks, and receives its child's separator as it asks. */
  lemma SuppliedInner(h: Heap, path: seq<Pid>, i: nat, key: Key, value: seq<Byte>, next: Pid)
    requires i + 1 < |path| && Supplied(h, path, key, value, next)
    ensures var p, plan, c := h[path[i]], PlanAt(h, path, i, key, value, next), PlanAt(h, path, i + 1, key, value, next);
            && (plan.full ==> CanSplit(p, EmptyPage(false, false), plan.q))
            && (c.full ==> TakesSep(Target(p, plan, c.sep), c.sep, path[i + 1], c.newPid))
  {
    hide PlanAt, Splittable, Valid, HasRoom, Target, SortedKeys, Receivers;
    var p, plan, c := h[path[i]], PlanAt(h, path, i, key, value, next), PlanAt(h, path, i + 1, key, value, next);
    assert path[i] in h && path[i + 1] in h && SortedKeys(Seps(p));
    PlanStep(h, path, i, key, value, next);
    PlanStep(h, path, i + 1, key, value, next);
    PlanNumbers(h, path, i + 1, key, value, next);
    SplittableAt(h, path, i, key, value, next);
    RoomAt(h, path, i, key, value, next);
    if c.full {
      RoomHere(h, path, i, key, value, next);
      HalvesValid(p, plan, c.sep);
      TargetSorted(p, plan, c.sep);
      SepFits(h[path[i + 1]], c);
    }
  }

  lemma RoomHere(h: Heap, path: seq<Pid>, i: nat, key: Key, value: seq<Byte>, next: Pid)
    requires i < |path| && AllIn(h, path) && Splittable(h, path[i..], key, value, next)
    requires forall r | r in Receivers(h, path[i..], key, value, next) :: r.Room()
    requires PlanAt(h, path, i, key, value, next).full ==> PlanAt(h, path, i, key, value, next).q < |h[path[i]].cells|
    ensures var p, plan := h[path[i]], PlanAt(h, path, i, key, value, next);
            if i + 1 == |path| then HasRoom(Target(p, plan, key), |key|, |value|)
            else var c := PlanAt(h, path, i + 1, key, value, next); c.full ==> HasRoom(Target(p, plan, c.sep), |c.sep|, 0)
  {
    hide PlanOf, Splittable, HasRoom, Target;
    var rs := Receivers(h, path[i..], key, value, next);
    assert i + 1 < |path| ==> path[i..][1..] == path[i + 1..];
    if i + 1 == |path| || PlanAt(h, path, i + 1, key, value, next).full { assert rs[0] in rs && rs[0].Room(); }
  }

  /** The leaf splits as the split of a page asks, and receives the pair as it asks. */
  lemma SuppliedLeaf(h: Heap, path: seq<Pid>, key: Key, value: seq<Byte>, next: Pid)
    requires Supplied(h, path, key, value, next)
    ensures var last := |path| - 1;
            var p, plan := h[path[last]], PlanAt(h, path, last, key, value, next);
            && (plan.full ==> CanSplit(p, EmptyPage(true, false), plan.q))
            && TakesPair(Target(p, plan, key), key, value)
  {
    hide PlanAt, Splittable, Valid, HasRoom, Target, SortedKeys, Receivers;
    var last := |path| - 1;
    var p, plan := h[path[last]], PlanAt(h, path, last, key, value, next);
    assert path[last] in h && SortedKeys(Seps(p));
    PlanStep(h, path, last, key, value, next);
    SplittableAt(h, path, last, key, value, next);
    RoomAt(h, path, last, key, value, next);
    RoomHere(h, path, last, key, value, next);
    HalvesValid(p, plan, key);
    TargetSorted(p, plan, key);
  }

  /** A root that splits pushes up a separator that fits in an empty page. */
  lemma SuppliedRoot(h: Heap, path: seq<Pid>, key: Key, value: seq<Byte>, next: Pid)
    requires Supplied(h, path, key, value, next) && PlanAt(h, path, 0, key, value, next).full
    ensures var plan := PlanAt(h, path, 0, key, value, next); plan.q < |h[path[0]].cells| && FitsRoot(plan.sep, path[0], plan.newPid)
  {
    hide PlanAt, Splittable, Valid, Receivers;
    assert path[0] in h;
    PlanStep(h, path, 0, key, value, next);
    PlanNumbers(h, path, 0, key, value, next);
    SepFits(h[path[0]], PlanAt(h, path, 0, key, value, next));
  }

  lemma SuppliedUnroot(h: Heap, root: Pid, path: seq<Pid>, key: Key, value: seq<Byte>, next: Pid)
    requires root in h && Supplied(h, path, key, value, next)
    ensures Supplied(Unroot(h, root), path, key, value, next)
  {
    hide Splittable, Receivers, PagesValid, SortedPath, HasRoom, KeepsValid;
    UnrootPlan(h, root, path, key, value, next);
    UnrootOnTrack(h, root, path);
    UnrootSpace(h, root, path, key, value, next);
  }

  /** After the downward loop the receiving half of the leaf receives the pair as it asks. */
  lemma LeafTakes(bc: seq<Breadcrumb>, h: Heap, done: Heap, path: seq<Pid>, s: nat, key: Key, value: seq<Byte>, first: Pid)
    requires Supplied(h, path, key, value, first) && s < |path| && Planned(bc, h, path, s, key, value, first)
    requires Goal(h, done, path, s, key, value, first)
    ensures var leafNode := bc[|path| - 1].fNode; leafNode in done && TakesPair(done[leafNode], key, value)
  {
    hide PlanAt, Splittable, Receivers, PagesValid, SortedPath, TakesPair, SplitLeft, SplitRight, Precedes;
    var last := |path| - 1;
    assert CrumbOf(bc[last], h, path, last, key, value, first);
    PlanNumbers(h, path, last, key, value, first);
    PlanStep(h, path, last, key, value, first);
    SuppliedLeaf(h, path, key, value, first);
    assert path[last] in h;
  }

  lemma MetInTree(h: Heap, root: Pid, n: nat, next: Pid, count: nat, key: Key)
    requires OnSeparator(h, root, n, key)
    ensures IsCounted(h, root, n, next, count) ==> Stores(Contents(h, root, n), key)
  {
    hide IsTree, OnSeparator, Contents, Stores;
    if IsTree(h, root, n) { SeparatorsMet(h, root, n, key); }
  }

  /** All that an insertion promises, along any path and in a tree. */
  lemma InsertEffect(h: Heap, root: Pid, n: nat, key: Key, value: seq<Byte>, next: Pid, count: nat, o: Outcome, count': nat)
    requires OnTrack(h, root, n, key) && Fresh(h, next) && PagesValid(h) && Ready(h, root, n, key, value, next)
    requires |key| + |value| + CELL_HEADER + 3 < U32 && !OnSeparator(h, root, n, key)
    requires o == InsertAll(h, root, n, key, value, next) && count' == (count + 1) % U32
    ensures Fresh(o.heap, o.next) && PagesSound(o.heap) && (PagesValid(o.heap) <==> AllKeep(h, root, n, key, value, next))
    ensures AllConserved(h, o.heap, PathOf(h, root, n, key), key, value, next)
    ensures IsCounted(h, root, n, next, count) ==>
              && (!Cascades(h, root, n, key, value, next) ==>
                    Contents(o.heap, o.root, o.height) == Ins(Contents(h, root, n), key, value))
              && (IsCounted(o.heap, o.root, o.height, o.next, count') <==>
                    && !Cascades(h, root, n, key, value, next) && !Stores(Contents(h, root, n), key)
                    && AllKeep(h, root, n, key, value, next))
  {
    hide Precedes, Splittable, PathOf, OnSeparator, IsTree, Receivers, InsertAll, Contents, Ins, Stores, SplitsInternal, PagesValid,
      PagesSound, AllConserved, LeafLast, Distinct, SortedPath;
    InsertFresh(h, root, n, key, value, next);
    InsertSpace(h, root, n, key, value, next);
    InsertConserves(h, root, n, key, value, next);
    if IsCounted(h, root, n, next, count) {
      InsertRefines(h, root, n, key, value, next);
      CountGrows(Contents(h, root, n), key, value, count, count');
    }
  }

  lemma ArrivesIn(h: Heap, done: Heap, target: Pid, o: Outcome, root: Pid, height: nat, next: Pid, key: Key, value: seq<Byte>)
    requires Arrives(h, done, target, o, root, height, next, key, value)
    ensures target in done && o == Outcome(done[target := PutLeaf(done[target], key, value)], root, height, next)
  {}

  lemma CountGrows(es: seq<Entry>, key: Key, value: seq<Byte>, count: nat, count': nat)
    requires count == |es| % U32 && count' == (count + 1) % U32
    ensures count' == |Ins(es, key, value)| % U32
  {
    hide Ins, Precedes;
    var r := InsMeaning(es, key, value);
  }

  lemma {:induction false} PathLength(h: Heap, pid: Pid, n: nat, key: Key)
    requires AllIn(h, PathOf(h, pid, n, key))
    ensures |PathOf(h, pid, n, key)| == n + 1
    decreases n
  {
    hide Rank, Precedes;
    var path := PathOf(h, pid, n, key);
    assert path[0] in h;
    if n > 0 {
      var kid := Kids(h[pid])[Rank(Seps(h[pid]), key)];
      assert path[1..] == PathOf(h, kid, n - 1, key);
      assert forall i | 0 <= i < |path| - 1 :: path[1..][i] == path[i + 1];
      PathLength(h, kid, n - 1, key);
    }
  }

  /** The leaf has room: nothing but the leaf is going to change. */
  lemma StayArrives(h: Heap, root: Pid, n: nat, key: Key, value: seq<Byte>, next: Pid)
    requires var path := PathOf(h, root, n, key);
             && LeafLast(h, path) && Distinct(path) && Splittable(h, path, key, value, next) && Fresh(h, next)
             && !PlanAt(h, path, |path| - 1, key, value, next).full
    ensures var path := PathOf(h, root, n, key);
            Arrives(h, h, path[|path| - 1], InsertAll(h, root, n, key, value, next), root, n, next, key, value)
  {
    hide PutLeaf, Precedes, NewPages, ApplyPath, Splittable, PlanOf, PlanAt, PathOf, Unroot, RootPage;
    var path := PathOf(h, root, n, key);
    var last := |path| - 1;
    NoSplitsAbove(h, path, 0, last, key, value, next);
    PlanAtZero(h, path, key, value, next);
    PlanNumbers(h, path, last, key, value, next);
    ApplyKeys(h, path, key, value, next);
    ApplyLevels(h, path, last, key, value, next);
    NewPagesLeaf(h, path, key, value, next);
    assert path[last] in h;
    var f := ApplyPath(h, path, key, value, next);
    forall x | x in h && x != path[last] ensures f[x] == h[x] {
      if x in path {
        var k :| 0 <= k < |path| && path[k] == x;
        NoSplitsAbove(h, path, k + 1, last, key, value, next);
        SplittableAt(h, path, k, key, value, next);
        NewPagesUntouched(h, path, k, key, value, next);
        ApplyLevels(h, path, k, key, value, next);
      }
    }
    assert f == h[path[last] := PutLeaf(h[path[last]], key, value)];
  }

  /** The plan of a page from the plan of the page below it. */
  lemma PlanStep(h: Heap, path: seq<Pid>, i: nat, key: Key, value: seq<Byte>, next: Pid)
    requires i < |path| && AllIn(h, path) && Splittable(h, path, key, value, next)
    ensures var plan, p := PlanAt(h, path, i, key, value, next), h[path[i]];
            && plan == (if i == |path| - 1 then MakePlan(p, IsFull(p, |key|, |value|), next)
                        else var c := PlanAt(h, path, i + 1, key, value, next);
                             MakePlan(p, c.full && IsFull(p, |c.sep|, 0), c.next))
            && (plan.full ==> plan.q < |p.cells| && plan.sep == p.cells[plan.q].key)
  {
    hide IsFull, PartitionIdx;
    SplittableAt(h, path, i, key, value, next);
    assert i + 1 < |path| ==> path[i..][1..] == path[i + 1..];
  }

  lemma AllocatedNone(h: Heap, next: Pid)
    requires Fresh(h, next)
    ensures Allocated(h, h, next, next)
  {}

  lemma AllocatedKeeps(h: Heap, pages: Heap, next: Pid, next': Pid, x: Pid)
    requires Allocated(h, pages, next, next') && x in h && x < next
    ensures x in pages && pages[x] == h[x]
  {}

  lemma AllocatedFresh(h: Heap, pages: Heap, next: Pid, next': Pid)
    requires Fresh(h, next) && Allocated(h, pages, next, next') && 0 < next <= next'
    ensures Fresh(pages, next')
  {}

  lemma MakePlanFull(p: Page, full: bool, next: Pid)
    ensures MakePlan(p, full, next).full == full
  {}

  /** After planning, nothing of the path is written yet. */
  lemma StartStage(h: Heap, pages: Heap, path: seq<Pid>, s: nat, key: Key, value: seq<Byte>, next: Pid, next': Pid)
    requires s < |path| && LeafLast(h, path) && Splittable(h, path, key, value, next) && Fresh(h, next) && Distinct(path)
    requires PlanAt(h, path, |path| - 1, key, value, next).full && !PlanAt(h, path, s, key, value, next).full
    requires s + 1 < |path| ==> PlanAt(h, path, s + 1, key, value, next).full
    requires next' == PlanAt(h, path, s, key, value, next).next && Allocated(h, pages, next, next')
    requires PlanAt(h, path, |path| - 1, key, value, next).q < |h[path[|path| - 1]].cells|
    ensures var done := Halfway(h, ApplyPath(h, path, key, value, next), path, PlanAt(h, path, |path| - 1, key, value, next).q, next);
            Staged(pages, h, done, path, s, next) && next + (|path| - 1) - s !in done
  {
    hide PutLeaf, SplitLeft, SplitRight, Precedes, NewPages, ApplyPath, Splittable, PlanAt, LeafSplitDone, Halfway;
    var last := |path| - 1;
    var done := Halfway(h, ApplyPath(h, path, key, value, next), path, PlanAt(h, path, last, key, value, next).q, next);
    HalfwayFacts(h, path, key, value, next);
    NoSplitsAbove(h, path, 0, s, key, value, next);
    PlanAtZero(h, path, key, value, next);
    PlanNumbers(h, path, s, key, value, next);
    PlanNumbers(h, path, s + 1, key, value, next);
    forall k | 0 <= k < s ensures path[k] in done && done[path[k]] == h[path[k]] {
      NoSplitsAbove(h, path, k + 1, s, key, value, next);
      SplittableAt(h, path, k, key, value, next);
      NewPagesUntouched(h, path, k, key, value, next);
      assert LevelDone(h, done, path, k, key, value, next);
    }
  }

  lemma PlanAtZero(h: Heap, path: seq<Pid>, key: Key, value: seq<Byte>, next: Pid)
    requires path != [] && AllIn(h, path)
    ensures PlanAt(h, path, 0, key, value, next) == PlanOf(h, path, key, value, next)
  {
    assert path[0..] == path;
  }

  /** The same with a new root: the old one has lost its flag, the new one is complete. */
  lemma StartStageRoot(h: Heap, pages: Heap, path: seq<Pid>, key: Key, value: seq<Byte>, next: Pid, next': Pid, top: Page)
    requires LeafLast(h, path) && path != [] && Splittable(h, path, key, value, next) && Fresh(h, next) && Distinct(path)
    requires PlanAt(h, path, |path| - 1, key, value, next).full && PlanOf(h, path, key, value, next).full
    requires next' == PlanOf(h, path, key, value, next).next && Allocated(h, pages, next, next')
    requires PlanAt(h, path, |path| - 1, key, value, next).q < |h[path[|path| - 1]].cells|
    ensures var done := Halfway(h, ApplyPath(h, path, key, value, next), path, PlanAt(h, path, |path| - 1, key, value, next).q, next);
            Staged(pages[next' := top], h, done[next' := top], path, 0, next) && next' !in done
  {
    hide PutLeaf, SplitLeft, SplitRight, Precedes, NewPages, ApplyPath, Splittable, PlanAt, LeafSplitDone, Halfway;
    HalfwayFacts(h, path, key, value, next);
    PlanAtZero(h, path, key, value, next);
    PlanNumbers(h, path, 0, key, value, next);
  }

  lemma UnrootAllocated(h: Heap, pages: Heap, root: Pid, next: Pid, next': Pid)
    requires root in h && Fresh(h, next) && Allocated(h, pages, next, next')
    ensures root in pages && Allocated(Unroot(h, root), Unroot(pages, root), next, next') && Fresh(Unroot(h, root), next)
  {}

  lemma UnrootPlanned(bc: seq<Breadcrumb>, h: Heap, root: Pid, path: seq<Pid>, s: nat, key: Key, value: seq<Byte>, next: Pid)
    requires root in h && s < |path| && Planned(bc, h, path, s, key, value, next) && LeafLast(h, path)
    ensures Planned(bc, Unroot(h, root), path, s, key, value, next) && LeafLast(Unroot(h, root), path)
  {
    hide PlanOf, Precedes;
    forall i | s <= i < |path| ensures CrumbOf(bc[i], Unroot(h, root), path, i, key, value, next) {
      UnrootPlan(h, root, path[i..], key, value, next);
      if i + 1 < |path| { UnrootPlan(h, root, path[i + 1..], key, value, next); }
      assert CrumbOf(bc[i], h, path, i, key, value, next);
    }
  }

  /** What the downward loop needs to know about the pages it is to arrive at. */
  ghost predicate Goal(h: Heap, done: Heap, path: seq<Pid>, s: nat, key: Key, value: seq<Byte>, first: Pid) {
    && s < |path| && LeafLast(h, path) && Distinct(path) && Fresh(h, first)
    && Splittable(h, path, key, value, first)
    && (forall i | s < i < |path| :: PlanAt(h, path, i, key, value, first).full)
    && PlanAt(h, path, |path| - 1, key, value, first).full
    && (forall i | s <= i < |path| - 1 :: LevelDone(h, done, path, i, key, value, first))
    && (PlanAt(h, path, s, key, value, first).full || first + (|path| - 1) - s !in done)
    && LeafSplitDone(h, done, path, PlanAt(h, path, |path| - 1, key, value, first).q, first)
    && h.Keys <= done.Keys
    && (forall x | x in done && x !in h :: first <= x)
    && (forall x | x in h && x !in path :: done[x] == h[x])
  }

  lemma InnerGoal(h: Heap, path: seq<Pid>, s: nat, key: Key, value: seq<Byte>, next: Pid)
    requires s < |path| && LeafLast(h, path) && Splittable(h, path, key, value, next) && Fresh(h, next) && Distinct(path)
    requires PlanAt(h, path, |path| - 1, key, value, next).full && !PlanAt(h, path, s, key, value, next).full
    requires PlanAt(h, path, s + 1, key, value, next).full
    requires PlanAt(h, path, |path| - 1, key, value, next).q < |h[path[|path| - 1]].cells|
    requires var done := Halfway(h, ApplyPath(h, path, key, value, next), path, PlanAt(h, path, |path| - 1, key, value, next).q, next);
             next + (|path| - 1) - s !in done
    ensures var done := Halfway(h, ApplyPath(h, path, key, value, next), path, PlanAt(h, path, |path| - 1, key, value, next).q, next);
            Goal(h, done, path, s, key, value, next)
  {
    hide PlanAt, Splittable, ApplyPath, NewPages, LevelDone, LeafSplitDone, Halfway, Precedes, PutLeaf;
    HalfwayFacts(h, path, key, value, next);
    forall i | s < i < |path| ensures PlanAt(h, path, i, key, value, next).full {
      SplitsBelow(h, path, s + 1, i, key, value, next);
    }
  }

  lemma RootGoal(h: Heap, path: seq<Pid>, key: Key, value: seq<Byte>, next: Pid, newRoot: Pid, top: Page)
    requires path != [] && LeafLast(h, path) && Splittable(h, path, key, value, next) && Fresh(h, next) && Distinct(path)
    requires PlanAt(h, path, 0, key, value, next).full && newRoot == PlanOf(h, path, key, value, next).next
    requires PlanAt(h, path, |path| - 1, key, value, next).q < |h[path[|path| - 1]].cells|
    ensures var done := Halfway(h, ApplyPath(h, path, key, value, next), path, PlanAt(h, path, |path| - 1, key, value, next).q, next);
            Goal(h, done[newRoot := top], path, 0, key, value, next)
  {
    hide PlanAt, Splittable, ApplyPath, NewPages, LeafSplitDone, Halfway, Precedes, PutLeaf, PlanOf;
    var done := Halfway(h, ApplyPath(h, path, key, value, next), path, PlanAt(h, path, |path| - 1, key, value, next).q, next);
    forall i | 0 <= i < |path| ensures PlanAt(h, path, i, key, value, next).full {
      SplitsBelow(h, path, 0, i, key, value, next);
    }
    HalfwayFacts(h, path, key, value, next);
    PlanAtZero(h, path, key, value, next);
    PlanNumbers(h, path, 0, key, value, next);
    AddedSplitDone(h, done, path, PlanAt(h, path, |path| - 1, key, value, next).q, next, newRoot, top);
    var done' := done[newRoot := top];
    forall i | 0 <= i < |path| - 1 ensures LevelDone(h, done', path, i, key, value, next) {
      PlanNumbers(h, path, i, key, value, next);
      assert LevelDone(h, done, path, i, key, value, next) && path[i] in h;
    }
  }

  lemma AddedSplitDone(h: Heap, done: Heap, path: seq<Pid>, q: nat, next: Pid, newRoot: Pid, top: Page)
    requires LeafSplitDone(h, done, path, q, next) && newRoot !in done
    ensures LeafSplitDone(h, done[newRoot := top], path, q, next)
  {}

  /** The halfway pages become the outcome when the pair is put into the target page. */
  ghost predicate Arrives(h: Heap, done: Heap, target: Pid, o: Outcome, root: Pid, height: nat, next: Pid, key: Key, value: seq<Byte>) {
    target in done && o == Outcome(done[target := PutLeaf(done[target], key, value)], root, height, next)
  }

  lemma CrumbFull(bc: seq<Breadcrumb>, h: Heap, path: seq<Pid>, i: nat, key: Key, value: seq<Byte>, next: Pid)
    requires i < |path| && AllIn(h, path) && Planned(bc, h, path, i, key, value, next)
    ensures bc[i].isFull == PlanAt(h, path, i, key, value, next).full
  {
    assert CrumbOf(bc[i], h, path, i, key, value, next);
  }

  /** No new root: the topmost page of the cascade has room. */
  lemma PrepareInner(bc: seq<Breadcrumb>, h: Heap, pages: Heap, path: seq<Pid>, s: nat, root: Pid, height: nat, key: Key, value: seq<Byte>,
                     first: Pid, next: Pid) returns (done: Heap)
    requires s < |path| <= |bc| && Planned(bc, h, path, s, key, value, first)
    requires LeafLast(h, path) && Distinct(path) && Fresh(h, first) && path == PathOf(h, root, height, key)
    requires Splittable(h, path, key, value, first) && !PlanAt(h, path, s, key, value, first).full
    requires PlanAt(h, path, |path| - 1, key, value, first).full
    requires s + 1 < |path| ==> PlanAt(h, path, s + 1, key, value, first).full
    requires next == PlanAt(h, path, s, key, value, first).next && Allocated(h, pages, first, next)
    ensures Goal(h, done, path, s, key, value, first) && Staged(pages, h, done, path, s, first)
    ensures Arrives(h, done, bc[|path| - 1].fNode, InsertAll(h, root, height, key, value, first), root, height, next, key, value)
  {
    hide PutLeaf, SplitLeft, SplitRight, Precedes, NewPages, ApplyPath, Splittable, PlanAt, PlanOf, Staged, Halfway, RootPage, PathOf,
      IsFull, PartitionIdx, LevelDone, LeafSplitDone, Allocated, Goal;
    var last := |path| - 1;
    PlanStep(h, path, last, key, value, first);
    PlanAtZero(h, path, key, value, first);
    assert path[last] in h && CrumbOf(bc[last], h, path, last, key, value, first);
    done := Halfway(h, ApplyPath(h, path, key, value, first), path, PlanAt(h, path, last, key, value, first).q, first);
    HalfwayFacts(h, path, key, value, first);
    StartStage(h, pages, path, s, key, value, first, next);
    InnerGoal(h, path, s, key, value, first);
    NoSplitsAbove(h, path, 0, s, key, value, first);
    PlanNumbers(h, path, last, key, value, first);
  }

  /** Dropping the root flag changes no plan. */
  lemma UnrootPlans(h: Heap, root: Pid, path: seq<Pid>, key: Key, value: seq<Byte>, next: Pid)
    requires root in h && path != [] && LeafLast(h, path) && Splittable(h, path, key, value, next)
    ensures LeafLast(Unroot(h, root), path) && Splittable(Unroot(h, root), path, key, value, next)
    ensures forall i | 0 <= i < |path| :: PlanAt(Unroot(h, root), path, i, key, value, next) == PlanAt(h, path, i, key, value, next)
    ensures PlanOf(Unroot(h, root), path, key, value, next) == PlanOf(h, path, key, value, next)
  {
    hide PlanOf, Splittable;
    UnrootPlan(h, root, path, key, value, next);
    forall i | 0 <= i < |path| ensures PlanAt(Unroot(h, root), path, i, key, value, next) == PlanAt(h, path, i, key, value, next) {
      UnrootPlan(h, root, path[i..], key, value, next);
    }
  }

  /** One step of the descent. */
  lemma DescendStep(h: Heap, pid: Pid, n: nat, key: Key)
    requires pid in h
    ensures n == 0 ==> !OnSeparator(h, pid, n, key)
    ensures n > 0 ==>
              var kid := Kids(h[pid])[Rank(Seps(h[pid]), key)];
              && (OnSeparator(h, pid, n, key) <==> key in Seps(h[pid]) || OnSeparator(h, kid, n - 1, key))
              && PathOf(h, pid, n, key)[1..] == PathOf(h, kid, n - 1, key)
  {
    hide Precedes, Rank;
  }

  lemma RankFinds(ks: seq<Key>, key: Key)
    requires SortedKeys(ks)
    ensures var r := Rank(ks, key); key in ks <==> r < |ks| && ks[r] == key
  {
    hide Precedes;
    if key in ks {
      var i :| 0 <= i < |ks| && ks[i] == key;
      PrecedesTrichotomy(key, key);
      RankUnique(ks, key, i);
    }
  }
}
