/** The space side of btree_insert: which pages receive a cell, and when the pages stay sound. */
module TreeSpace {
  import opened Keys
  import opened Pages
  import opened PageLaws
  import opened Trees
  import opened TreeInsert
  import opened TreeRefinement

  /** A page that receives a cell, before it does, with the sizes of what it receives. */
  datatype Receiver = Receiver(page: Page, keySize: nat, valueSize: nat) {
    predicate Room() { HasRoom(page, keySize, valueSize) }
    predicate Keeps() { KeepsValid(page, keySize, valueSize) }
  }

  /** The half of a page, or the whole page when it does not split, that a key goes to. */
  function Target(p: Page, plan: Plan, key: Key): Page
    requires plan.full ==> plan.q < |p.cells|
  {
    if !plan.full then p
    else if Precedes(plan.sep, key) then Halves(p, plan.q).1 else Halves(p, plan.q).0
  }

  /** What the pages of the path receive, from the first one down. */
  function Receivers(h: Heap, path: seq<Pid>, key: Key, value: seq<Byte>, next: Pid): seq<Receiver>
    requires path != [] && AllIn(h, path) && Splittable(h, path, key, value, next)
    decreases |path|
  {
    var p, plan := h[path[0]], PlanOf(h, path, key, value, next);
    if |path| == 1 then [Receiver(Target(p, plan, key), |key|, |value|)]
    else
      var c := PlanOf(h, path[1..], key, value, next);
      (if c.full then [Receiver(Target(p, plan, c.sep), |c.sep|, 0)] else []) + Receivers(h, path[1..], key, value, next)
  }

  ghost predicate PagesValid(h: Heap) { forall x | x in h :: Valid(h[x]) }

  ghost predicate PagesSound(h: Heap) { forall x | x in h :: Sound(h[x]) }

  lemma HalvesValid(p: Page, plan: Plan, key: Key)
    requires Valid(p) && (plan.full ==> plan.q < |p.cells|)
    ensures Valid(Target(p, plan, key))
    ensures plan.full ==> Valid(Halves(p, plan.q).0) && Valid(Halves(p, plan.q).1)
  {
    hide Valid, Precedes, SplitLeft, SplitRight;
    if plan.full {
      SplitLeftValid(p, plan.q);
      SplitRightValid(p, plan.q);
    }
  }

  lemma PutLeafValid(p: Page, key: Key, value: seq<Byte>)
    requires Valid(p) && HasRoom(p, |key|, |value|) && |key| + |value| + CELL_HEADER + 3 < U32
    ensures Sound(PutLeaf(p, key, value))
    ensures Valid(PutLeaf(p, key, value)) <==> KeepsValid(p, |key|, |value|)
  {
    hide Valid, Sound, Rank, GetFreeOffset, KeepsValid;
    AllocationSound(p, |key|, |value|);
    InsertValid(p, Rank(KeysOf(p.cells), key), key, value, 0);
    FreeOffsetKeeps(p, |key|, |value|);
  }

  lemma AddSepValid(p: Page, sep: Key, child: Pid, newPid: Pid)
    requires Valid(p) && HasRoom(p, |sep|, 0) && |sep| < NODE_SIZE
    ensures Sound(AddSep(p, sep, child, newPid))
    ensures Valid(AddSep(p, sep, child, newPid)) <==> KeepsValid(p, |sep|, 0)
  {
    hide Valid, Sound, Rank, GetFreeOffset, KeepsValid, HasRoom, SetChild;
    var idx := Rank(KeysOf(p.cells), sep);
    var p' := SetChild(p, idx, newPid);
    SetChildValid(p, idx, newPid, |sep|);
    AllocationSound(p', |sep|, 0);
    RoomGives(p', |sep|, 0);
    FreeOffsetKeeps(p', |sep|, 0);
    SetChildCount(p, idx, newPid);
    InsertValid(p', idx, sep, [], child);
  }

  lemma RoomGives(p: Page, keySize: nat, valueSize: nat)
    requires HasRoom(p, keySize, valueSize)
    ensures FreeSpace(p) >= Need(keySize, valueSize) || HeadFits(p, keySize, valueSize)
  {}

  lemma SepFits(p: Page, plan: Plan)
    requires Valid(p) && plan.full && plan.q < |p.cells| && plan.sep == p.cells[plan.q].key
    ensures |plan.sep| <= NODE_SIZE - NODE_HEADER - SLOT - CELL_HEADER
  {
    ValidCell(p, plan.q);
  }

  /** The new pages of one level: sound when the receiver has room, valid exactly when it stays valid. */
  lemma LevelSpace(h: Heap, path: seq<Pid>, key: Key, value: seq<Byte>, next: Pid)
    requires path != [] && AllIn(h, path) && Splittable(h, path, key, value, next) && PagesValid(h)
    requires |key| + |value| + CELL_HEADER + 3 < U32
    requires forall r | r in Receivers(h, path, key, value, next) :: r.Room()
    ensures var (l, r) := NewPages(h, path, key, value, next);
            var plan := PlanOf(h, path, key, value, next);
            && Sound(l) && (plan.full ==> Sound(r))
            && (Valid(l) && (plan.full ==> Valid(r)) <==>
                if |path| == 1 then KeepsValid(Target(h[path[0]], plan, key), |key|, |value|)
                else var c := PlanOf(h, path[1..], key, value, next);
                     c.full ==> KeepsValid(Target(h[path[0]], plan, c.sep), |c.sep|, 0))
  {
    hide Valid, Sound, Precedes, PutLeaf, AddSep, Halves, PlanOf, Splittable, KeepsValid, HasRoom;
    var p, plan := h[path[0]], PlanOf(h, path, key, value, next);
    var (l, r) := NewPages(h, path, key, value, next);
    PlanSep(h, path, key, value, next);
    ValidSound(l);
    ValidSound(r);
    var rs := Receivers(h, path, key, value, next);
    if |path| == 1 {
      HalvesValid(p, plan, key);
      assert rs[0].Room();
      PutLeafValid(Target(p, plan, key), key, value);
    } else {
      var c := PlanOf(h, path[1..], key, value, next);
      if c.full {
        assert rs[0].Room();
        HalvesValid(p, plan, c.sep);
        SplitBelow(h, path, key, value, next);
        PlanSep(h, path[1..], key, value, next);
        SepFits(h[path[1]], c);
        AddSepValid(Target(p, plan, c.sep), c.sep, path[1], c.newPid);
      } else {
        NoSplitAbove(h, path, key, value, next);
      }
    }
  }

  lemma ValidSound(p: Page)
    ensures Valid(p) ==> Sound(p)
  {}

  lemma NoSplitAbove(h: Heap, path: seq<Pid>, key: Key, value: seq<Byte>, next: Pid)
    requires |path| > 1 && AllIn(h, path) && !PlanOf(h, path[1..], key, value, next).full
    ensures !PlanOf(h, path, key, value, next).full
  {}

  lemma {:induction false} OthersKept(h: Heap, path: seq<Pid>, key: Key, value: seq<Byte>, next: Pid, x: Pid)
    requires path != [] && AllIn(h, path) && Splittable(h, path, key, value, next) && Fresh(h, next)
    requires x in h && x !in path
    ensures var h' := ApplyPath(h, path, key, value, next); x in h' && h'[x] == h[x]
    decreases |path|
  {
    hide NewPages, PlanOf, Splittable;
    if |path| > 1 {
      SplitBelow(h, path, key, value, next);
      OthersKept(h, path[1..], key, value, next, x);
    }
    PlanBounds(h, path, key, value, next);
  }

  /** One page is overwritten and maybe one is added: all pages are fine exactly when these are and the others were. */
  lemma UpdateSpace(below: Heap, h': Heap, x: Pid, l: Page, full: bool, y: Pid, r: Page)
    requires x in below && Valid(below[x]) && (full ==> y !in below)
    requires h' == if full then below[x := l][y := r] else below[x := l]
    ensures PagesValid(h') <==> PagesValid(below) && Valid(l) && (full ==> Valid(r))
    ensures PagesSound(below) && Sound(l) && (full ==> Sound(r)) ==> PagesSound(h')
  {
    hide Valid, Sound;
    if PagesValid(h') {
      forall z | z in below ensures Valid(below[z]) {
        assert z in h' && (z != x ==> h'[z] == below[z]);
      }
      assert h'[x] == l && (full ==> h'[y] == r);
    }
  }

  /** Over the whole path: all pages stay sound, and all stay valid exactly when every receiver does. */
  lemma {:induction false} PathSpace(h: Heap, path: seq<Pid>, key: Key, value: seq<Byte>, next: Pid)
    requires path != [] && AllIn(h, path) && Splittable(h, path, key, value, next) && PagesValid(h)
    requires Distinct(path) && Fresh(h, next)
    requires |key| + |value| + CELL_HEADER + 3 < U32
    requires forall r | r in Receivers(h, path, key, value, next) :: r.Room()
    ensures var h' := ApplyPath(h, path, key, value, next);
            && PagesSound(h')
            && (PagesValid(h') <==> forall r | r in Receivers(h, path, key, value, next) :: r.Keeps())
    decreases |path|
  {
    hide Valid, Sound, Precedes, Target, KeepsValid, HasRoom, NewPages, PlanOf, Splittable;
    var rs, plan := Receivers(h, path, key, value, next), PlanOf(h, path, key, value, next);
    var (l, r) := NewPages(h, path, key, value, next);
    LevelSpace(h, path, key, value, next);
    PlanSep(h, path, key, value, next);
    var below := h;
    if |path| == 1 {
      assert rs == [rs[0]] && rs[0] in rs;
      forall x | x in h ensures Sound(h[x]) { ValidSound(h[x]); }
    } else {
      var rest := path[1..];
      SplitBelow(h, path, key, value, next);
      below := ApplyPath(h, rest, key, value, next);
      var rest' := Receivers(h, rest, key, value, next);
      assert forall r | r in rest' :: r in rs;
      PathSpace(h, rest, key, value, next);
      assert path[0] !in rest;
      OthersKept(h, rest, key, value, next, path[0]);
      ReceiversSplit(h, path, key, value, next);
    }
    NewPidFresh(h, path, key, value, next);
    assert (forall r | r in rs :: r.Keeps()) <==> PagesValid(below) && Valid(l) && (plan.full ==> Valid(r));
    UpdateSpace(below, ApplyPath(h, path, key, value, next), path[0], l, plan.full, plan.newPid, r);
  }

  lemma NewPidFresh(h: Heap, path: seq<Pid>, key: Key, value: seq<Byte>, next: Pid)
    requires path != [] && AllIn(h, path) && Splittable(h, path, key, value, next) && Fresh(h, next)
    ensures PlanOf(h, path, key, value, next).full ==>
              PlanOf(h, path, key, value, next).newPid !in (if |path| == 1 then h else ApplyPath(h, path[1..], key, value, next))
  {
    hide IsFull, PartitionIdx;
    if |path| > 1 { PlanBounds(h, path[1..], key, value, next); }
  }

  lemma ReceiversSplit(h: Heap, path: seq<Pid>, key: Key, value: seq<Byte>, next: Pid)
    requires |path| > 1 && AllIn(h, path) && Splittable(h, path, key, value, next) && Splittable(h, path[1..], key, value, next)
    ensures var c := PlanOf(h, path[1..], key, value, next);
            var rs, rest := Receivers(h, path, key, value, next), Receivers(h, path[1..], key, value, next);
            (forall r | r in rs :: r.Keeps()) <==>
            (forall r | r in rest :: r.Keeps())
            && (c.full ==> KeepsValid(Target(h[path[0]], PlanOf(h, path, key, value, next), c.sep), |c.sep|, 0))
  {
    hide KeepsValid, Target, PlanOf;
    var rs, rest := Receivers(h, path, key, value, next), Receivers(h, path[1..], key, value, next);
    assert forall r | r in rest :: r in rs;
    assert PlanOf(h, path[1..], key, value, next).full ==> rs[0] in rs;
  }
}
