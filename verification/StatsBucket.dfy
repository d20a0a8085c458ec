/** A sliding window over epochs, kept as a ring of per-epoch sums and two running totals
    (stats_bucket_* in src/scheduler.c). All arithmetic wraps as the C types do. */
module StatsBuckets {
  const U32: nat := 0x1_0000_0000
  const U64: nat := 0x1_0000_0000_0000_0000

  datatype Item = Item(val: nat, elapsed: nat)

  function Sum(s: seq<nat>): nat { if s == [] then 0 else Sum(s[..|s| - 1]) + s[|s| - 1] }

  /** The last `len` elements, or all if there are fewer. */
  function Recent(s: seq<nat>, len: nat): (r: seq<nat>)
    ensures |r| == if |s| <= len then |s| else len
  {
    if |s| <= len then s else s[|s| - len..]
  }

  lemma {:induction false} SumFirst(s: seq<nat>)
    requires s != []
    ensures Sum(s) == s[0] + Sum(s[1..])
    decreases |s|
  {
    if |s| > 1 {
      SumFirst(s[..|s| - 1]);
      assert s[..|s| - 1][1..] == s[1..][..|s| - 2];
    }
  }

  /** What the window loses when a new element comes in. */
  function Evicted(s: seq<nat>, len: nat): nat
    requires len > 0
  {
    if |s| < len then 0 else s[|s| - len]
  }

  lemma WindowMoves(s: seq<nat>, len: nat, x: nat)
    requires len > 0
    ensures Evicted(s, len) <= Sum(Recent(s, len))
    ensures Sum(Recent(s + [x], len)) == Sum(Recent(s, len)) - Evicted(s, len) + x
  {
    var w, w' := Recent(s, len), Recent(s + [x], len);
    if |s| < len {
      assert w' == w + [x] && w'[..|w|] == w;
    } else {
      SumFirst(w);
      assert w' == w[1..] + [x] && w'[..|w'| - 1] == w[1..];
    }
  }

  lemma WindowGrows(s: seq<nat>, len: nat, x: nat)
    requires len > 0 && s != []
    ensures Sum(Recent(s[|s| - 1 := s[|s| - 1] + x], len)) == Sum(Recent(s, len)) + x
  {
    var s' := s[|s| - 1 := s[|s| - 1] + x];
    var w, w' := Recent(s, len), Recent(s', len);
    assert w'[..|w'| - 1] == w[..|w| - 1];
  }

  // ----- Slots of the ring -----

  function Slot(e: nat, len: nat): (r: nat)
    requires len > 0
    ensures r < len
  {
    e % len
  }

  lemma MultipleApart(len: nat, d: int)
    ensures d >= 1 ==> len * d >= len
    ensures d <= -1 ==> len * d + len <= 0
  {
    if d >= 1 { assert len * d == len + len * (d - 1); }
    if d <= -1 { assert len * d + len == len * (d + 1); }
  }

  /** Quotient and remainder are determined. */
  lemma SlotUnique(a: nat, len: nat, q: nat, r: nat)
    requires r < len && a == len * q + r
    ensures Slot(a, len) == r
  {
    var p := a / len;
    assert a == len * p + a % len;
    assert len * (p - q) == r - a % len;
    MultipleApart(len, p - q);
  }

  lemma SlotsApart(e: nat, n: nat, len: nat)
    requires e < n < e + len
    ensures Slot(e, len) != Slot(n, len)
  {
    var a, b := e / len, n / len;
    assert n - e == len * (b - a) + n % len - e % len;
    MultipleApart(len, b - a);
  }

  lemma NextTurn(e: nat, len: nat)
    requires len > 0
    ensures Slot(e + len, len) == Slot(e, len)
  {
    var q, r := e / len, e % len;
    assert e + len == len * (q + 1) + r;
    SlotUnique(e + len, len, q + 1, r);
  }

  lemma SameSlot(e: nat, k: nat, len: nat)
    requires len > 0
    ensures Slot(e + k * len, len) == Slot(e, len)
    decreases k
  {
    hide Slot;
    if k > 0 {
      SameSlot(e, k - 1, len);
      NextTurn(e + (k - 1) * len, len);
      assert e + k * len == e + (k - 1) * len + len;
    }
  }

  /** A 32-bit epoch counter names the right slots for ever exactly when its range is a multiple of the
      number of slots. The window of seven slots in src/main.c does not divide it. */
  lemma SlotsSurviveWrap(len: nat)
    requires 0 < len < U32
    ensures (forall e: nat :: Slot(e % U32, len) == Slot(e, len)) <==> U32 % len == 0
    ensures U32 % 7 != 0
  {
    if U32 % len == 0 {
      forall e: nat ensures Slot(e % U32, len) == Slot(e, len) { SlotWraps(e, len); }
    } else {
      assert Slot(U32 % U32, len) == 0 && Slot(U32, len) != 0;
    }
  }

  lemma SlotWraps(e: nat, len: nat)
    requires 0 < len && U32 % len == 0
    ensures Slot(e % U32, len) == Slot(e, len)
  {
    hide Slot;
    var t, m := e / U32, U32 / len;
    assert m * len == U32;
    assert t * (m * len) == (t * m) * len;
    SameSlot(e % U32, t * m, len);
  }

  lemma SlotOfEpoch(n: nat, len: nat)
    requires 0 < len && (n < U32 || U32 % len == 0)
    ensures Slot(n % U32, len) == Slot(n, len)
  {
    if n >= U32 { SlotWraps(n, len); }
  }

  // ----- Wrapping totals -----

  function Wrap(x: int): (r: nat)
    ensures r < U64
  {
    x % U64
  }

  lemma AddWraps(sum: nat, x: nat)
    ensures Wrap(Wrap(sum) + x) == Wrap(sum + x)
  {}

  lemma WrapSmall(x: nat)
    requires x < U64
    ensures Wrap(x) == x
  {}

  /** Subtracting is exact modulo 2^64, and does not wrap as long as the total itself did not. */
  lemma SubWraps(sum: nat, x: nat)
    requires x <= sum
    ensures Wrap(Wrap(sum) - Wrap(x)) == Wrap(sum - x)
    ensures sum < U64 ==> Wrap(x) <= Wrap(sum)
  {
    var a, b := sum / U64, x / U64;
    assert sum - x == sum % U64 - x % U64 + (a - b) * U64;
    TurnDropped(sum % U64 - x % U64, a - b);
  }

  lemma TurnDropped(a: int, k: int)
    ensures (a + k * U64) % U64 == a % U64
  {}

  // ----- What the ring holds -----

  /** The slots of the epochs in the window hold their sums and times; slots not used yet are zero. */
  ghost predicate Held(items: seq<Item>, vals: seq<nat>, times: seq<nat>) {
    && |items| > 0 && |vals| == |times| > 0
    && (forall e | 0 <= e < |vals| && |vals| <= e + |items| :: items[Slot(e, |items|)] == Item(Wrap(vals[e]), Wrap(times[e])))
    && (forall k | |vals| <= k < |items| :: items[k] == Item(0, 0))
  }

  lemma SlotSmall(e: nat, len: nat)
    requires e < len
    ensures Slot(e, len) == e
  {
    SlotUnique(e, len, 0, e);
  }

  /** The slot that comes next holds the epoch that leaves the window. */
  lemma OldestSlot(items: seq<Item>, vals: seq<nat>, times: seq<nat>)
    requires Held(items, vals, times)
    ensures var len := |items|; items[Slot(|vals|, len)] == Item(Wrap(Evicted(vals, len)), Wrap(Evicted(times, len)))
  {
    hide Slot;
    var n, len := |vals|, |items|;
    if n >= len { NextTurn(n - len, len); } else { SlotSmall(n, len); }
  }

  lemma HeldAdd(items: seq<Item>, vals: seq<nat>, times: seq<nat>, val: nat)
    requires Held(items, vals, times)
    ensures var n, k := |vals| - 1, Slot(|vals| - 1, |items|);
            Held(items[k := items[k].(val := Wrap(items[k].val + val))], vals[n := vals[n] + val], times)
  {
    hide Slot, Wrap;
    var n, len := |vals| - 1, |items|;
    AddWraps(vals[n], val);
    forall e | 0 <= e < n && n < e + len ensures Slot(e, len) != Slot(n, len) { SlotsApart(e, n, len); }
    if n < len { SlotSmall(n, len); }
  }

  lemma HeldMove(items: seq<Item>, vals: seq<nat>, times: seq<nat>, elapsed: nat)
    requires Held(items, vals, times) && elapsed < U64
    ensures Held(items[Slot(|vals|, |items|) := Item(0, elapsed)], vals + [0], times + [elapsed])
  {
    hide Slot, Wrap;
    var n, len := |vals|, |items|;
    WrapSmall(0);
    WrapSmall(elapsed);
    forall e | 0 <= e < n && n < e + len ensures Slot(e, len) != Slot(n, len) { SlotsApart(e, n, len); }
    if n < len { SlotSmall(n, len); }
  }

  class StatsBucket {
    const buf: array<Item>
    var accTime: nat
    var accVal: nat
    const len: nat
    var idx: nat
    /** The values added and the time taken, epoch by epoch, the current one last. */
    ghost var vals: seq<nat>
    ghost var times: seq<nat>

    ghost predicate Valid()
      reads this, buf
    {
      && len == buf.Length && 0 < len < U32
      && Held(buf[..], vals, times)
      && (|vals| <= U32 || U32 % len == 0)
      && idx == (|vals| - 1) % U32
      && accVal == Wrap(Sum(Recent(vals, len)))
      && accTime == Wrap(Sum(Recent(times, len)))
    }

    /** stats_bucket_init. */
    constructor (len: nat)
      requires 0 < len < U32
      ensures Valid() && vals == [0] && times == [0] && this.len == len && fresh(buf)
    {
      buf := new Item[len](_ => Item(0, 0));
      accTime, accVal, this.len, idx := 0, 0, len, 0;
      vals, times := [0], [0];
    }

    /** stats_bucket_add. */
    method Add(val: nat)
      requires Valid() && val < U64
      modifies this, buf
      ensures Valid()
      ensures vals == old(vals)[|old(vals)| - 1 := old(vals)[|old(vals)| - 1] + val] && times == old(times)
    {
      hide Sum, Recent, Slot, Wrap, Held;
      NotEmpty(buf[..], vals, times);
      ghost var n, items := |vals| - 1, buf[..];
      SlotOfEpoch(n, len);
      AddWraps(Sum(Recent(vals, len)), val);
      WindowGrows(vals, len, val);
      HeldAdd(items, vals, times, val);
      accVal := Wrap(accVal + val);
      var k := Slot(idx, len);
      buf[k] := buf[k].(val := Wrap(buf[k].val + val));
      vals := vals[n := vals[n] + val];
      assert buf[..] == items[k := items[k].(val := Wrap(items[k].val + val))];
    }

    /** stats_bucket_move: a new epoch begins, and the slot that the counter names loses its epoch. That is the
        oldest one as long as the counter did not wrap or its range is a multiple of the number of slots. Either
        total is the window's exactly when the slot named holds the evicted value. */
    method Move(elapsed: nat)
      requires Valid() && elapsed < U64
      modifies this, buf
      ensures vals == old(vals) + [0] && times == old(times) + [elapsed] && idx == (old(idx) + 1) % U32
      ensures buf[..] == old(buf[..])[Slot(idx, len) := Item(0, elapsed)]
      ensures accVal == Wrap(Sum(Recent(vals, len))) <==> old(buf[..])[Slot(idx, len)].val == Wrap(Evicted(old(vals), len))
      ensures accTime == Wrap(Sum(Recent(times, len))) <==> old(buf[..])[Slot(idx, len)].elapsed == Wrap(Evicted(old(times), len))
      ensures Valid() <==> old(idx) + 1 < U32 || U32 % len == 0
    {
      hide Sum, Recent, Slot, Wrap, Held;
      NotEmpty(buf[..], vals, times);
      ghost var n, items := |vals|, buf[..];
      NextIdx(n);
      AlignedMove(items, vals, times, idx, elapsed);
      ItemsWrapped(items, vals, times, Slot((idx + 1) % U32, len));
      TotalMoves(vals, len, items[Slot((idx + 1) % U32, len)].val, 0);
      TotalMoves(times, len, items[Slot((idx + 1) % U32, len)].elapsed, elapsed);
      idx := (idx + 1) % U32;
      var nextIdx := Slot(idx, len);
      accVal := Wrap(accVal - buf[nextIdx].val);
      accTime := Wrap(accTime - buf[nextIdx].elapsed);
      accTime := Wrap(accTime + elapsed);
      buf[nextIdx] := Item(0, elapsed);
      vals, times := vals + [0], times + [elapsed];
      assert buf[..] == items[nextIdx := Item(0, elapsed)];
    }
  }

  lemma AlignedMove(items: seq<Item>, vals: seq<nat>, times: seq<nat>, idx: nat, elapsed: nat)
    requires |items| > 0 && Held(items, vals, times) && elapsed < U64 && |vals| > 0 && idx == (|vals| - 1) % U32
    requires |vals| <= U32 || U32 % |items| == 0
    ensures var len := |items|;
            var k := Slot((idx + 1) % U32, len);
            && (idx + 1 < U32 || U32 % len == 0 <==> |vals| + 1 <= U32 || U32 % len == 0)
            && (idx + 1 < U32 || U32 % len == 0 ==>
                  && Held(items[k := Item(0, elapsed)], vals + [0], times + [elapsed])
                  && items[k] == Item(Wrap(Evicted(vals, len)), Wrap(Evicted(times, len))))
  {
    hide Slot, Wrap, Held;
    var n, len := |vals|, |items|;
    NextIdx(n);
    if idx + 1 < U32 || U32 % len == 0 {
      SlotOfEpoch(n, len);
      OldestSlot(items, vals, times);
      HeldMove(items, vals, times, elapsed);
    }
  }

  /** Every slot holds 64-bit values. */
  lemma ItemsWrapped(items: seq<Item>, vals: seq<nat>, times: seq<nat>, k: nat)
    requires Held(items, vals, times) && k < |items|
    ensures items[k].val < U64 && items[k].elapsed < U64
  {
    hide Wrap, Slot;
    var n, len := |vals|, |items|;
    if k < n {
      var e := LastIn(k, n, len);
      assert items[Slot(e, len)] == Item(Wrap(vals[e]), Wrap(times[e]));
    }
  }

  /** The latest epoch before n that lies in slot k. */
  lemma LastIn(k: nat, n: nat, len: nat) returns (e: nat)
    requires k < len && k < n
    ensures e < n <= e + len && Slot(e, len) == k
  {
    hide Slot;
    e := k;
    SlotSmall(k, len);
    while e + len < n
      invariant e < n && Slot(e, len) == k
    {
      NextTurn(e, len);
      e := e + len;
    }
  }

  /** The total after some slot's value is taken off and a new one added: right exactly when that was the evicted one. */
  lemma TotalMoves(s: seq<nat>, len: nat, taken: nat, x: nat)
    requires len > 0 && taken < U64
    ensures var total := Wrap(Sum(Recent(s, len)));
            Wrap(Wrap(total - taken) + x) == Wrap(Sum(Recent(s + [x], len))) <==> taken == Wrap(Evicted(s, len))
    ensures x == 0 ==> Wrap(Wrap(Wrap(Sum(Recent(s, len))) - taken) + x) == Wrap(Wrap(Sum(Recent(s, len))) - taken)
  {
    hide Sum, Recent;
    WindowMoves(s, len, x);
    WrapsEqual(Sum(Recent(s, len)), Evicted(s, len), taken, x);
  }

  lemma WrapsEqual(sum: nat, evicted: nat, taken: nat, x: nat)
    requires evicted <= sum && taken < U64
    ensures Wrap(Wrap(Wrap(sum) - taken) + x) == Wrap(sum - evicted + x) <==> taken == Wrap(evicted)
  {
    var d := sum / U64;
    assert Wrap(sum) == sum - d * U64;
    TurnDropped(sum - taken + x, 0 - d - (Wrap(sum) - taken) / U64);
    SameWrap(sum - taken + x, sum - evicted + x);
  }

  lemma SameWrap(a: int, b: int)
    ensures Wrap(a) == Wrap(b) <==> (a - b) % U64 == 0
  {}

  /** The move that wraps the counter of a bucket with seven slots goes wrong when the fourth last epoch had one
      value and the others none: the oldest of them lies in slot 4, but slot 0 is taken off the total. */
  lemma WrapGoesWrong() returns (items: seq<Item>, vals: seq<nat>, times: seq<nat>)
    ensures |items| == 7 && Held(items, vals, times) && |vals| == U32 && Wrap(Sum(Recent(vals, 7))) > 0
    ensures Slot(U32, 7) == 4 && Slot(U32 % U32, 7) == 0
    ensures items[Slot(U32 % U32, 7)].val != Wrap(Evicted(vals, 7))
    ensures Wrap(Wrap(Sum(Recent(vals, 7))) - items[0].val) != Wrap(Sum(Recent(vals + [0], 7)))
  {
    hide Held, Slot, Sum, Wrap;
    vals := seq(U32, i => if i == U32 - 4 then 1 else 0);
    times := seq(U32, _ => 0);
    items := seq(7, i => if i == 0 then Item(1, 0) else Item(0, 0));
    OneHeld(items, vals, times);
    SlotUnique(U32, 7, 613566756, 4);
    SlotSmall(0, 7);
    OneAmongZeros(Recent(vals, 7), 3);
    WindowMoves(vals, 7, 0);
    WrapSmall(0);
    WrapSmall(1);
  }

  lemma OneHeld(items: seq<Item>, vals: seq<nat>, times: seq<nat>)
    requires |vals| == |times| == U32 && |items| == 7
    requires forall i | 0 <= i < U32 :: vals[i] == (if i == U32 - 4 then 1 else 0) && times[i] == 0
    requires forall k | 0 <= k < 7 :: items[k] == if k == 0 then Item(1, 0) else Item(0, 0)
    ensures Held(items, vals, times)
  {
    forall e | 0 <= e < U32 <= e + 7 ensures Slot(e, 7) == 0 <==> e == U32 - 4 {}
  }

  lemma {:induction false} OneAmongZeros(s: seq<nat>, k: nat)
    requires forall i | 0 <= i < |s| :: s[i] == if i == k then 1 else 0
    ensures Sum(s) == if k < |s| then 1 else 0
    decreases |s|
  {
    if s != [] { OneAmongZeros(s[..|s| - 1], k); }
  }

  lemma NotEmpty(items: seq<Item>, vals: seq<nat>, times: seq<nat>)
    requires Held(items, vals, times)
    ensures |vals| == |times| > 0
  {}

  lemma NextIdx(n: nat)
    requires n > 0
    ensures ((n - 1) % U32 + 1) % U32 == n % U32
  {}

  /** As long as the sums of the window fit in 64 bits the totals are exact, and what the next move
      subtracts is never more than the total. */
  lemma TotalsExact(b: StatsBucket)
    requires b.Valid() && Sum(Recent(b.vals, b.len)) < U64 && Sum(Recent(b.times, b.len)) < U64
    ensures b.accVal == Sum(Recent(b.vals, b.len)) && b.accTime == Sum(Recent(b.times, b.len))
    ensures var next := b.buf[..][Slot(|b.vals|, b.len)]; next.val <= b.accVal && next.elapsed <= b.accTime
  {
    hide Sum, Recent, Slot, Wrap, Held;
    WrapSmall(Sum(Recent(b.vals, b.len)));
    WrapSmall(Sum(Recent(b.times, b.len)));
    OldestSlot(b.buf[..], b.vals, b.times);
    WindowMoves(b.vals, b.len, 0);
    WindowMoves(b.times, b.len, 0);
    SubWraps(Sum(Recent(b.vals, b.len)), Evicted(b.vals, b.len));
    SubWraps(Sum(Recent(b.times, b.len)), Evicted(b.times, b.len));
  }
}
