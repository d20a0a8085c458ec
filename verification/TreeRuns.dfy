/** Whole runs of btree_insert, starting from the empty tree. */
module TreeRuns {
  import opened Keys
  import opened Pages
  import opened Trees
  import opened TreeLaws
  import opened TreeInsert
  import opened TreeRefinement
  import opened TreeSpace
  import opened TreeTheorem

  /** A proper tree on proper pages. */
  ghost predicate Proper(t: Outcome) {
    IsTree(t.heap, t.root, t.height) && Fresh(t.heap, t.next) && PagesValid(t.heap)
  }

  ghost function ContentsOf(t: Outcome): seq<Entry> { Contents(t.heap, t.root, t.height) }

  /** What a call makes of the tree: nothing when the key is met as a separator. */
  function After(t: Outcome, e: Entry): Outcome
    requires !OnSeparator(t.heap, t.root, t.height, e.0) ==> Ready(t.heap, t.root, t.height, e.0, e.1, t.next)
  {
    if OnSeparator(t.heap, t.root, t.height, e.0) then t else InsertAll(t.heap, t.root, t.height, e.0, e.1, t.next)
  }

  /** The call stays clear of what the code does not handle. */
  ghost predicate Allowed(t: Outcome, e: Entry) {
    && |e.0| + |e.1| + CELL_HEADER + 3 < U32
    && (OnSeparator(t.heap, t.root, t.height, e.0)
        || (&& Ready(t.heap, t.root, t.height, e.0, e.1, t.next)
            && !Cascades(t.heap, t.root, t.height, e.0, e.1, t.next)
            && AllKeep(t.heap, t.root, t.height, e.0, e.1, t.next)
            && !Stores(ContentsOf(t), e.0)))
  }

  /** A run of calls, each of them allowed where it happens. */
  ghost predicate Reaches(t: Outcome, es: seq<Entry>, t': Outcome)
    decreases |es|
  {
    if es == [] then t' == t else Allowed(t, es[0]) && Reaches(After(t, es[0]), es[1..], t')
  }

  /** btree_init. */
  function Empty(): Outcome { Outcome(map[1 := EmptyPage(true, true)], 1, 0, 2) }

  /** The value stored by the first call for a key. */
  function FirstValue(es: seq<Entry>, key: Key): (r: seq<seq<Byte>>)
    ensures |r| <= 1
  {
    if es == [] then [] else if es[0].0 == key then [es[0].1] else FirstValue(es[1..], key)
  }

  /** One call: the tree stays proper exactly when the call is allowed, among those that have room. */
  lemma StepProper(t: Outcome, e: Entry)
    requires Proper(t) && |e.0| + |e.1| + CELL_HEADER + 3 < U32
    requires !OnSeparator(t.heap, t.root, t.height, e.0) ==> Ready(t.heap, t.root, t.height, e.0, e.1, t.next)
    ensures Proper(After(t, e)) <==> Allowed(t, e)
    ensures Allowed(t, e) ==>
              ContentsOf(After(t, e)) == if OnSeparator(t.heap, t.root, t.height, e.0) then ContentsOf(t) else Ins(ContentsOf(t), e.0, e.1)
    ensures OnSeparator(t.heap, t.root, t.height, e.0) ==> Stores(ContentsOf(t), e.0)
  {
    hide IsTree, PagesValid, Contents, Ins, Stores, InsertAll, OnSeparator, Splittable, SplitsInternal, Receivers, PathOf, AllIn, Precedes;
    if OnSeparator(t.heap, t.root, t.height, e.0) {
      SeparatorsMet(t.heap, t.root, t.height, e.0);
    } else {
      TreesAreOnTrack(t.heap, t.root, t.height, e.0);
      InsertRefines(t.heap, t.root, t.height, e.0, e.1, t.next);
      InsertSpace(t.heap, t.root, t.height, e.0, e.1, t.next);
    }
  }

  /** Sorted insertion adds the pair and nothing else. */
  lemma InsMembers(es: seq<Entry>, key: Key, value: seq<Byte>)
    ensures forall x :: x in Ins(es, key, value) <==> x in es || x == (key, value)
  {
    hide Ins, Precedes;
    var r := InsMeaning(es, key, value);
    assert es == es[..r] + es[r..];
  }

  lemma StoresMember(es: seq<Entry>, key: Key)
    ensures Stores(es, key) <==> exists x :: x in es && x.0 == key
  {
    if Stores(es, key) {
      var i :| 0 <= i < |es| && es[i].0 == key;
      assert es[i] in es;
    }
    if x :| x in es && x.0 == key {
      var i :| 0 <= i < |es| && es[i] == x;
    }
  }

  /** What is stored after a run: what was there, and for every other key its first value in the run. */
  ghost predicate FirstWins(before: seq<Entry>, es: seq<Entry>, after: seq<Entry>) {
    forall x: Entry :: x in after <==> x in before || (!Stores(before, x.0) && FirstValue(es, x.0) == [x.1])
  }

  lemma FirstWinsStep(before: seq<Entry>, mid: seq<Entry>, e: Entry, rest: seq<Entry>, after: seq<Entry>)
    requires mid == if Stores(before, e.0) then before else Ins(before, e.0, e.1)
    requires FirstWins(mid, rest, after)
    ensures FirstWins(before, [e] + rest, after)
  {
    hide Ins;
    var es := [e] + rest;
    assert es[1..] == rest;
    InsMembers(before, e.0, e.1);
    forall x: Entry ensures x in after <==> x in before || (!Stores(before, x.0) && FirstValue(es, x.0) == [x.1]) {
      StoresMember(mid, x.0);
      StoresMember(before, x.0);
      assert FirstValue(es, x.0) == if e.0 == x.0 then [e.1] else FirstValue(rest, x.0);
    }
  }

  /** Every run of allowed calls keeps the tree proper, and stores for every key the first value given for it. */
  lemma {:induction false} RunStores(t: Outcome, es: seq<Entry>, t': Outcome)
    requires Proper(t) && Reaches(t, es, t')
    ensures Proper(t') && FirstWins(ContentsOf(t), es, ContentsOf(t'))
    decreases |es|
  {
    hide IsTree, PagesValid, Contents, Ins, Stores, InsertAll, OnSeparator, Ready, Cascades, AllKeep, FirstWins;
    if es == [] {
      NothingStored(ContentsOf(t));
    } else {
      StepProper(t, es[0]);
      RunStores(After(t, es[0]), es[1..], t');
      FirstWinsStep(ContentsOf(t), ContentsOf(After(t, es[0])), es[0], es[1..], ContentsOf(t'));
      assert [es[0]] + es[1..] == es;
    }
  }

  lemma NothingStored(es: seq<Entry>)
    ensures FirstWins(es, [], es)
  {}

  lemma EmptyProper()
    ensures Proper(Empty()) && ContentsOf(Empty()) == []
  {}

  /** From the empty tree: the leaves hold, in strict key order, exactly the first pair given for every key. */
  lemma BuiltFromEmpty(es: seq<Entry>, t: Outcome)
    requires Reaches(Empty(), es, t)
    ensures Proper(t) && SortedEntries(ContentsOf(t))
    ensures forall k, v :: (k, v) in ContentsOf(t) <==> FirstValue(es, k) == [v]
  {
    hide Contents, Stores, Precedes, Shape, Reaches;
    EmptyProper();
    RunStores(Empty(), es, t);
    ShapeOrdered(t.heap, t.root, t.height, Unbounded, Unbounded);
    forall k, v ensures (k, v) in ContentsOf(t) <==> FirstValue(es, k) == [v] {
      StoresMember([], k);
    }
  }

  /** Without internal splits only a leaf can be a root that splits, so a path never has more than two pages
      and the sixteen breadcrumbs always suffice. */
  lemma {:induction false} TwoLevels(t: Outcome, es: seq<Entry>, t': Outcome)
    requires Proper(t) && t.height <= 1 && Reaches(t, es, t')
    ensures t'.height <= 1
    decreases |es|
  {
    hide Contents, Stores, Splittable, Receivers, ApplyPath, RootPage, AllKeep, Precedes, Shape;
    if es != [] {
      StepProper(t, es[0]);
      if !OnSeparator(t.heap, t.root, t.height, es[0].0) { OneLevelMore(t.heap, t.root, t.height, es[0].0, es[0].1, t.next); }
      TwoLevels(After(t, es[0]), es[1..], t');
    }
  }

  lemma OneLevelMore(h: Heap, root: Pid, n: nat, key: Key, value: seq<Byte>, next: Pid)
    requires IsTree(h, root, n) && n <= 1 && Ready(h, root, n, key, value, next) && !Cascades(h, root, n, key, value, next)
    ensures InsertAll(h, root, n, key, value, next).height <= 1
  {
    hide Splittable, ApplyPath, RootPage, PlanOf, Precedes, Rank, KidsShape;
  }

  /** The first call is allowed for every pair that fits in an empty page. */
  lemma FirstCall(e: Entry)
    requires Need(|e.0|, |e.1|) + SLOT <= NODE_SIZE - NODE_HEADER && |e.0| + |e.1| < NODE_SIZE
    ensures Allowed(Empty(), e) && Reaches(Empty(), [e], After(Empty(), e))
    ensures ContentsOf(After(Empty(), e)) == [e]
  {
    hide Carve;
    var p := EmptyPage(true, true);
    assert PathOf(Empty().heap, 1, 0, e.0) == [1];
    assert PartitionIdx([]) == 0 && !IsFull(p, |e.0|, |e.1|);
    EmptyProper();
    StepProper(Empty(), e);
  }
}
