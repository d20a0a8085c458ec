/** What a cascade of page splits conserves, from facts about the pages of the path alone: it holds as well
    in trees that an earlier internal split has left without their proper shape (src/tree/btree.c). */
module TreeCascades {
  import opened Keys
  import opened Pages
  import opened Trees
  import opened TreeInsert
  import opened TreeGrowth
  import opened TreeRefinement

  /** Sorted insertion of a key. */
  function Grown(ks: seq<Key>, k: Key): seq<Key> { InsertAt(ks, Rank(ks, k), k) }

  /** The key that the first page of the path receives: its child's separator, or the stored key for the leaf. */
  function Received(h: Heap, path: seq<Pid>, key: Key, value: seq<Byte>, next: Pid): Key
    requires path != [] && AllIn(h, path)
  {
    if |path| == 1 then key else PlanOf(h, path[1..], key, value, next).sep
  }

  /** What a splitting level conserves: its old keys and the key it receives are, in order, the keys of its
      left half, the separator that moves to its parent, and the keys of its right half. A leaf keeps a copy
      of the separator at the front of its right half. */
  ghost predicate LevelConserved(h: Heap, h': Heap, path: seq<Pid>, key: Key, value: seq<Byte>, next: Pid)
    requires path != [] && AllIn(h, path) && path[0] in h'
  {
    var plan, ks, l := PlanOf(h, path, key, value, next), Seps(h[path[0]]), Seps(h'[path[0]]);
    plan.full ==>
      (&& plan.newPid in h'
       && (|path| > 1 ==> PlanOf(h, path[1..], key, value, next).full)
       && var r, grown := Seps(h'[plan.newPid]), Grown(ks, Received(h, path, key, value, next));
          if |path| == 1 then l + r == grown && r != [] && r[0] == plan.sep else l + [plan.sep] + r == grown)
  }

  /** Levels that do not split: the receiving page gains the key, the pages above it stay as they are. */
  ghost predicate LevelGrown(h: Heap, h': Heap, path: seq<Pid>, key: Key, value: seq<Byte>, next: Pid)
    requires path != [] && AllIn(h, path) && path[0] in h'
  {
    !PlanOf(h, path, key, value, next).full ==>
      if |path| > 1 && !PlanOf(h, path[1..], key, value, next).full then h'[path[0]] == h[path[0]]
      else Seps(h'[path[0]]) == Grown(Seps(h[path[0]]), Received(h, path, key, value, next))
  }

  /** The children around a separator that enters at position r: the old child, then its new sibling. */
  function Linked(kids: seq<Pid>, r: nat, child: Pid, newPid: Pid): seq<Pid>
    requires r < |kids|
  {
    kids[..r] + [child, newPid] + kids[r + 1..]
  }

  /** What a level holds below its keys: the pairs of the leaf, the children of an internal page. The half that
      receives the separator gains the new page behind the old child; a right half ends in no child. */
  ghost predicate LevelHolds(h: Heap, h': Heap, path: seq<Pid>, key: Key, value: seq<Byte>, next: Pid)
    requires path != [] && AllIn(h, path) && path[0] in h'
  {
    var p, plan, l := h[path[0]], PlanOf(h, path, key, value, next), h'[path[0]];
    && (plan.full ==> plan.q < |p.cells| && plan.newPid in h')
    && if |path| == 1 then
         EntriesOf(l.cells) + (if plan.full then EntriesOf(h'[plan.newPid].cells) else []) == Ins(EntriesOf(p.cells), key, value)
       else
         var c := PlanOf(h, path[1..], key, value, next);
         c.full ==>
           if !plan.full then Kids(l) == Linked(Kids(p), Rank(Seps(p), c.sep), path[1], c.newPid)
           else
             var ls, rs := Seps(p)[..plan.q], Seps(p)[plan.q + 1..];
             var lk, rk := Kids(p)[..plan.q] + [p.rightmost], Kids(p)[plan.q + 1..|p.cells|] + [0];
             if Precedes(plan.sep, c.sep)
             then Kids(l) == lk && Kids(h'[plan.newPid]) == Linked(rk, Rank(rs, c.sep), path[1], c.newPid)
             else Kids(l) == Linked(lk, Rank(ls, c.sep), path[1], c.newPid) && Kids(h'[plan.newPid]) == rk
  }

  ghost predicate AllConserved(h: Heap, h': Heap, path: seq<Pid>, key: Key, value: seq<Byte>, next: Pid)
    requires path != [] && AllIn(h, path)
    decreases |path|
  {
    && path[0] in h'
    && LevelConserved(h, h', path, key, value, next)
    && LevelGrown(h, h', path, key, value, next)
    && LevelHolds(h, h', path, key, value, next)
    && (|path| > 1 ==> AllConserved(h, h', path[1..], key, value, next))
  }

  /** Every page of the path is sorted. */
  ghost predicate SortedPath(h: Heap, path: seq<Pid>)
    requires AllIn(h, path)
  {
    forall i | 0 <= i < |path| :: SortedKeys(Seps(h[path[i]]))
  }

  /** Every level receives a key that it does not hold. */
  ghost predicate NewEverywhere(h: Heap, path: seq<Pid>, key: Key, value: seq<Byte>, next: Pid)
    requires path != [] && AllIn(h, path)
    decreases |path|
  {
    if |path| == 1 then key !in Seps(h[path[0]])
    else
      && (PlanOf(h, path[1..], key, value, next).full ==> PlanOf(h, path[1..], key, value, next).sep !in Seps(h[path[0]]))
      && NewEverywhere(h, path[1..], key, value, next)
  }

  // ----- Sorted insertion across a split -----

  /** Keys stay strictly sorted exactly when the one that comes in is new. */
  lemma GrownSorted(ks: seq<Key>, k: Key)
    requires SortedKeys(ks)
    ensures SortedKeys(Grown(ks, k)) <==> k !in ks
  {
    hide Precedes;
    if k in ks {
      var i :| 0 <= i < |ks| && ks[i] == k;
      var r, grown := Rank(ks, k), Grown(ks, k);
      PrecedesTrichotomy(k, k);
      assert grown[r] == k && grown[if i < r then i else i + 1] == k;
    } else {
      SepsInsert(ks, k);
    }
  }

  lemma HalvesGrow(ks: seq<Key>, q: nat, k: Key)
    requires SortedKeys(ks) && q < |ks|
    ensures Precedes(ks[q], k) ==> ks[..q] + [ks[q]] + Grown(ks[q + 1..], k) == Grown(ks, k)
    ensures Precedes(ks[q], k) ==> ks[..q] + Grown(ks[q..], k) == Grown(ks, k)
    ensures !Precedes(ks[q], k) ==> Grown(ks[..q], k) + ks[q..] == Grown(ks, k)
  {
    hide Precedes, Rank, InsertAt, SortedKeys;
    if Precedes(ks[q], k) {
      InsertRight(ks, q, Rank(ks[q..], k), k);
      InsertRight(ks, q + 1, Rank(ks[q + 1..], k), k);
      assert ks[..q] + [ks[q]] == ks[..q + 1];
      if q > 0 { BeforeNext(ks, q, k); }
      RankOfRest(ks, q, k);
      RankOfRest(ks, q + 1, k);
    } else {
      RankOfFront(ks, q, k);
      InsertLeft(ks, q, Rank(ks[..q], k), k);
    }
  }

  lemma BeforeNext(ks: seq<Key>, q: nat, k: Key)
    requires SortedKeys(ks) && 0 < q < |ks| && Precedes(ks[q], k)
    ensures Precedes(ks[q - 1], k)
  {
    hide Precedes;
    PrecedesTransitive(ks[q - 1], ks[q], k);
  }

  lemma InsertRight(ks: seq<Key>, c: nat, r: nat, k: Key)
    requires c <= |ks| && r <= |ks| - c
    ensures ks[..c] + InsertAt(ks[c..], r, k) == InsertAt(ks, c + r, k)
  {}

  lemma InsertLeft(ks: seq<Key>, c: nat, r: nat, k: Key)
    requires r <= c <= |ks|
    ensures InsertAt(ks[..c], r, k) + ks[c..] == InsertAt(ks, r, k)
  {}

  lemma RankOfRest(ks: seq<Key>, c: nat, k: Key)
    requires SortedKeys(ks) && c <= |ks| && (c > 0 ==> Precedes(ks[c - 1], k))
    ensures Rank(ks, k) == c + Rank(ks[c..], k)
  {
    hide Precedes;
    RankUnique(ks, k, c + Rank(ks[c..], k));
  }

  lemma RankOfFront(ks: seq<Key>, c: nat, k: Key)
    requires SortedKeys(ks) && c < |ks| && !Precedes(ks[c], k)
    ensures Rank(ks, k) == Rank(ks[..c], k)
  {
    hide Precedes;
    RankUnique(ks, k, Rank(ks[..c], k));
  }

  // ----- One level -----

  lemma LeafConserves(p: Page, plan: Plan, key: Key, value: seq<Byte>)
    requires p.leaf && SortedKeys(Seps(p))
    requires plan.full ==> plan.q < |p.cells| && plan.sep == Seps(p)[plan.q]
    ensures Seps(PutLeaf(p, key, value)) == Grown(Seps(p), key)
    ensures plan.full ==>
              var (l, r) := Halves(p, plan.q);
              if Precedes(plan.sep, key)
              then Seps(l) + Seps(PutLeaf(r, key, value)) == Grown(Seps(p), key)
                && Seps(PutLeaf(r, key, value)) != [] && Seps(PutLeaf(r, key, value))[0] == plan.sep
              else Seps(PutLeaf(l, key, value)) + Seps(r) == Grown(Seps(p), key) && Seps(r) != [] && Seps(r)[0] == plan.sep
  {
    hide Precedes, PutLeaf, Halves, Rank;
    PutLeafMeaning(p, key, value);
    if plan.full {
      var (l, r) := Halves(p, plan.q);
      HalvesMeaning(p, plan.q);
      HalvesEntries(p, plan.q);
      HalvesGrow(Seps(p), plan.q, key);
      PutLeafMeaning(l, key, value);
      PutLeafMeaning(r, key, value);
      if Precedes(plan.sep, key) { FirstStaysFirst(Seps(r), key); }
    }
  }

  lemma FirstStaysFirst(ks: seq<Key>, k: Key)
    requires ks != [] && Precedes(ks[0], k)
    ensures Grown(ks, k)[0] == ks[0]
  {
    hide Precedes;
  }

  lemma InnerConserves(p: Page, plan: Plan, sep: Key, child: Pid, newPid: Pid)
    requires !p.leaf && SortedKeys(Seps(p))
    requires plan.full ==> plan.q < |p.cells| && plan.sep == Seps(p)[plan.q]
    ensures Seps(AddSep(p, sep, child, newPid)) == Grown(Seps(p), sep)
    ensures plan.full ==>
              var (l, r) := Halves(p, plan.q);
              if Precedes(plan.sep, sep)
              then Seps(l) + [plan.sep] + Seps(AddSep(r, sep, child, newPid)) == Grown(Seps(p), sep)
              else Seps(AddSep(l, sep, child, newPid)) + [plan.sep] + Seps(r) == Grown(Seps(p), sep)
  {
    hide Precedes, AddSep, Halves, Rank;
    AddSepMeaning(p, sep, child, newPid);
    if plan.full {
      var ks, q := Seps(p), plan.q;
      var (l, r) := Halves(p, q);
      HalvesMeaning(p, q);
      assert Seps(l) == ks[..q] && Seps(r) == ks[q + 1..];
      assert ks[q..] == [ks[q]] + ks[q + 1..];
      HalvesGrow(ks, q, sep);
      AddSepMeaning(l, sep, child, newPid);
      AddSepMeaning(r, sep, child, newPid);
    }
  }

  lemma LeafHolds(p: Page, plan: Plan, key: Key, value: seq<Byte>)
    requires p.leaf && SortedKeys(Seps(p))
    requires plan.full ==> plan.q < |p.cells| && plan.sep == Seps(p)[plan.q]
    ensures EntriesOf(PutLeaf(p, key, value).cells) == Ins(EntriesOf(p.cells), key, value)
    ensures plan.full ==>
              var (l, r) := Halves(p, plan.q);
              Ins(EntriesOf(p.cells), key, value)
                == if Precedes(plan.sep, key) then EntriesOf(l.cells) + EntriesOf(PutLeaf(r, key, value).cells)
                   else EntriesOf(PutLeaf(l, key, value).cells) + EntriesOf(r.cells)
  {
    hide Precedes, PutLeaf, Halves, Rank, Ins, EntriesOf;
    PutLeafMeaning(p, key, value);
    if plan.full {
      var (l, r) := Halves(p, plan.q);
      HalvesMeaning(p, plan.q);
      HalvesEntries(p, plan.q);
      EntriesBySide(p.cells, plan.q);
      InsBySide(EntriesOf(p.cells)[..plan.q], EntriesOf(p.cells)[plan.q..], plan.sep, key, value);
      PutLeafMeaning(l, key, value);
      PutLeafMeaning(r, key, value);
    }
  }

  lemma InnerHolds(p: Page, plan: Plan, sep: Key, child: Pid, newPid: Pid)
    requires !p.leaf
    requires plan.full ==> plan.q < |p.cells| && plan.sep == Seps(p)[plan.q]
    ensures Kids(AddSep(p, sep, child, newPid)) == Linked(Kids(p), Rank(Seps(p), sep), child, newPid)
    ensures plan.full ==>
              var (l, r) := Halves(p, plan.q);
              var ls, rs := Seps(p)[..plan.q], Seps(p)[plan.q + 1..];
              var lk, rk := Kids(p)[..plan.q] + [p.rightmost], Kids(p)[plan.q + 1..|p.cells|] + [0];
              && Kids(l) == lk && Kids(r) == rk
              && Kids(AddSep(l, sep, child, newPid)) == Linked(lk, Rank(ls, sep), child, newPid)
              && Kids(AddSep(r, sep, child, newPid)) == Linked(rk, Rank(rs, sep), child, newPid)
  {
    hide Precedes, AddSep, Halves, Rank, Kids, Seps;
    AddSepMeaning(p, sep, child, newPid);
    if plan.full {
      var (l, r) := Halves(p, plan.q);
      HalvesKids(p, plan.q);
      AddSepMeaning(l, sep, child, newPid);
      AddSepMeaning(r, sep, child, newPid);
    }
  }

  lemma HalvesKids(p: Page, q: nat)
    requires !p.leaf && q < |p.cells|
    ensures var (l, r) := Halves(p, q);
            && Seps(l) == Seps(p)[..q] && Seps(r) == Seps(p)[q + 1..]
            && Kids(l) == Kids(p)[..q] + [p.rightmost] && Kids(r) == Kids(p)[q + 1..|p.cells|] + [0]
  {
    hide Halves;
    HalvesMeaning(p, q);
  }

  lemma LeafLevel(h: Heap, pid: Pid, key: Key, value: seq<Byte>, next: Pid)
    requires pid in h && h[pid].leaf && SortedKeys(Seps(h[pid])) && Fresh(h, next)
    requires AllIn(h, [pid]) && Splittable(h, [pid], key, value, next)
    ensures var h' := ApplyPath(h, [pid], key, value, next);
            && pid in h' && LevelConserved(h, h', [pid], key, value, next) && LevelGrown(h, h', [pid], key, value, next)
            && LevelHolds(h, h', [pid], key, value, next)
  {
    hide Precedes, Rank, IsFull, PartitionIdx, PutLeaf, Halves, InsertAt, SortedKeys;
    LeafConserves(h[pid], PlanOf(h, [pid], key, value, next), key, value);
    LeafHolds(h[pid], PlanOf(h, [pid], key, value, next), key, value);
  }

  lemma InnerLevel(h: Heap, path: seq<Pid>, key: Key, value: seq<Byte>, next: Pid)
    requires |path| > 1 && AllIn(h, path) && Splittable(h, path, key, value, next) && Fresh(h, next)
    requires !h[path[0]].leaf && SortedKeys(Seps(h[path[0]]))
    ensures var h' := ApplyPath(h, path, key, value, next);
            && path[0] in h' && LevelConserved(h, h', path, key, value, next) && LevelGrown(h, h', path, key, value, next)
            && LevelHolds(h, h', path, key, value, next)
  {
    hide Precedes, Rank, IsFull, PartitionIdx, AddSep, Halves, InsertAt, SortedKeys, Kids, Linked;
    var plan, c := PlanOf(h, path, key, value, next), PlanOf(h, path[1..], key, value, next);
    PlanBounds(h, path, key, value, next);
    if c.full {
      InnerConserves(h[path[0]], plan, c.sep, path[1], c.newPid);
      InnerHolds(h[path[0]], plan, c.sep, path[1], c.newPid);
    }
  }

  // ----- Cascades -----

  /** A cascade of any depth conserves the keys of every level it touches, although the splits are planned
      from the leaf up and written from the top down. Nothing is asked of the tree but that the pages of the
      path differ, that they are sorted, and that the last one is the leaf. */
  lemma {:induction false} CascadeConserves(h: Heap, path: seq<Pid>, key: Key, value: seq<Byte>, next: Pid)
    requires path != [] && LeafLast(h, path) && Distinct(path) && SortedPath(h, path)
    requires Fresh(h, next) && Splittable(h, path, key, value, next)
    ensures AllConserved(h, ApplyPath(h, path, key, value, next), path, key, value, next)
    decreases |path|
  {
    hide PlanOf, NewPages, Splittable, LevelConserved, LevelGrown, LevelHolds, SortedKeys, Seps, ApplyPath;
    assert path[0] in h && SortedKeys(Seps(h[path[0]]));
    if |path| == 1 {
      assert path == [path[0]];
      LeafLevel(h, path[0], key, value, next);
    } else {
      SplitBelow(h, path, key, value, next);
      InnerLevel(h, path, key, value, next);
      CascadeConserves(h, path[1..], key, value, next);
      BelowKept(h, path, key, value, next);
      ConservedElsewhere(h, ApplyPath(h, path[1..], key, value, next), ApplyPath(h, path, key, value, next), path[1..], key, value, next);
    }
  }

  /** Writing a level leaves the levels below it as they are. */
  lemma BelowKept(h: Heap, path: seq<Pid>, key: Key, value: seq<Byte>, next: Pid)
    requires |path| > 1 && AllIn(h, path) && Distinct(path) && Fresh(h, next)
    requires Splittable(h, path, key, value, next) && Splittable(h, path[1..], key, value, next)
    ensures var below, f := ApplyPath(h, path[1..], key, value, next), ApplyPath(h, path, key, value, next);
            forall x | x in below && (x in path[1..] || next <= x < PlanOf(h, path[1..], key, value, next).next) ::
              x in f && f[x] == below[x]
  {
    hide PlanOf, NewPages, Splittable;
    PlanBounds(h, path[1..], key, value, next);
    PlanOrder(h, path, key, value, next);
    assert path[0] in h && path[0] !in path[1..];
    assert forall x | x in path[1..] :: x in h;
  }

  /** Only the pages of the path and those split off them matter. */
  lemma {:induction false} ConservedElsewhere(h: Heap, h1: Heap, h': Heap, path: seq<Pid>, key: Key, value: seq<Byte>, next: Pid)
    requires path != [] && AllIn(h, path) && Fresh(h, next) && Splittable(h, path, key, value, next)
    requires AllConserved(h, h1, path, key, value, next)
    requires forall x | x in h1 && (x in path || next <= x < PlanOf(h, path, key, value, next).next) :: x in h' && h'[x] == h1[x]
    ensures AllConserved(h, h', path, key, value, next)
    decreases |path|
  {
    hide Precedes, Rank, PlanOf, KeysOf, SortedKeys, Kids, EntriesOf, Ins, Linked;
    PlanBounds(h, path, key, value, next);
    assert path[0] in path && path[0] in h;
    if |path| > 1 {
      PlanOrder(h, path, key, value, next);
      ConservedElsewhere(h, h1, h', path[1..], key, value, next);
    }
  }

  lemma PlanOrder(h: Heap, path: seq<Pid>, key: Key, value: seq<Byte>, next: Pid)
    requires |path| > 1 && AllIn(h, path)
    ensures PlanOf(h, path[1..], key, value, next).next <= PlanOf(h, path, key, value, next).next
    ensures PlanOf(h, path, key, value, next).full ==>
              PlanOf(h, path, key, value, next).newPid == PlanOf(h, path[1..], key, value, next).next
  {}
}
