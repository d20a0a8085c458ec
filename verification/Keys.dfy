/** Byte-string keys and the order that every page is sorted by (src/tree/node.c, __key_compare). */
module Keys {

  type Byte = x: int | 0 <= x < 256
  type Key = seq<Byte>

  /** Key sizes from this bound on would overflow the C comparison's `int` result. */
  const KEY_LIMIT: int := 0x8000_0000

  /** A 32-bit unsigned difference, converted to a 32-bit signed int as C does. */
  function ToInt32(x: int): int {
    var u := x % 0x1_0000_0000;
    if u < 0x8000_0000 then u else u - 0x1_0000_0000
  }

  /** memcmp over the first n bytes: the difference at the first mismatch, or 0. */
  function Memcmp(a: Key, b: Key, n: nat): int
    requires n <= |a| && n <= |b|
  {
    if n == 0 then 0
    else if a[0] != b[0] then a[0] - b[0]
    else Memcmp(a[1..], b[1..], n - 1)
  }

  /** Negative when the cell's key comes first, positive when `key` does. */
  function Compare(cellKey: Key, key: Key): int {
    var cmp := Memcmp(cellKey, key, if |key| < |cellKey| then |key| else |cellKey|);
    if cmp == 0 then ToInt32(|key| - |cellKey|) else cmp
  }

  /** The i-th digit of a key that is continued by an end mark above every byte. */
  function Digit(k: Key, i: nat): int {
    if i < |k| then k[i] else 256
  }

  predicate FirstDifference(a: Key, b: Key, i: nat) {
    && Digit(a, i) < Digit(b, i)
    && forall j: nat | j < i :: Digit(a, j) == Digit(b, j)
  }

  /** Lexicographic order with the end of a key above every byte:
      a proper prefix comes after its extensions. */
  predicate Precedes(a: Key, b: Key) {
    exists i: nat | i < |a| :: FirstDifference(a, b, i)
  }

  /** A nonzero memcmp names the first position where the two byte strings differ. */
  lemma {:induction false} MemcmpMeaning(a: Key, b: Key, n: nat)
    requires n <= |a| && n <= |b|
    ensures Memcmp(a, b, n) == 0 <==> a[..n] == b[..n]
    ensures Memcmp(a, b, n) != 0 ==>
              exists i: nat :: i < n && a[..i] == b[..i] && Memcmp(a, b, n) == Digit(a, i) - Digit(b, i)
  {
    if n == 0 {
    } else if a[0] != b[0] {
      assert a[..0] == b[..0];
      assert a[..n][0] != b[..n][0];
    } else {
      MemcmpMeaning(a[1..], b[1..], n - 1);
      assert a[..n] == [a[0]] + a[1..][..n - 1];
      assert b[..n] == [b[0]] + b[1..][..n - 1];
      if Memcmp(a, b, n) != 0 {
        var i: nat :| i < n - 1 && a[1..][..i] == b[1..][..i] && Memcmp(a, b, n) == Digit(a[1..], i) - Digit(b[1..], i);
        assert a[..i + 1] == [a[0]] + a[1..][..i];
        assert b[..i + 1] == [b[0]] + b[1..][..i];
        assert Memcmp(a, b, n) == Digit(a, i + 1) - Digit(b, i + 1);
      }
    }
  }

  /** Different keys have a first difference; memcmp finds it unless one is a prefix of the other. */
  lemma Mismatch(a: Key, b: Key) returns (i: nat)
    requires a != b
    ensures FirstDifference(a, b, i) || FirstDifference(b, a, i)
    ensures var n := if |b| < |a| then |b| else |a|;
            if i < n then Memcmp(a, b, n) == Digit(a, i) - Digit(b, i) else Memcmp(a, b, n) == 0 && |a| != |b| && i == n
  {
    var n := if |b| < |a| then |b| else |a|;
    assert |a| == |b| ==> a[..n] == a && b[..n] == b;
    MemcmpMeaning(a, b, n);
    i := n;
    if Memcmp(a, b, n) != 0 {
      i :| i < n && a[..i] == b[..i] && Memcmp(a, b, n) == Digit(a, i) - Digit(b, i);
    }
    forall j: nat | j < i ensures Digit(a, j) == Digit(b, j) {
      assert a[..i][j] == b[..i][j];
    }
  }

  lemma DifferenceDecides(a: Key, b: Key, i: nat)
    requires FirstDifference(a, b, i)
    ensures Precedes(a, b) && !Precedes(b, a)
  {
    forall k: nat ensures !FirstDifference(b, a, k) {
      assert k < i ==> Digit(a, k) == Digit(b, k);
    }
  }

  /** The sizes differ by less than the sign bit, or the common bytes already differ. */
  predicate Comparable(a: Key, b: Key) {
    0 - KEY_LIMIT <= |b| - |a| < KEY_LIMIT || Memcmp(a, b, if |b| < |a| then |b| else |a|) != 0
  }

  /** The C comparison decides the order Precedes exactly when the difference of the sizes does not change
      its sign on the way to a signed result. */
  lemma CompareExact(a: Key, b: Key)
    requires |a| < 2 * KEY_LIMIT && |b| < 2 * KEY_LIMIT
    ensures (Compare(a, b) < 0 <==> Precedes(a, b)) && (Compare(a, b) > 0 <==> Precedes(b, a)) && (Compare(a, b) == 0 <==> a == b)
            <==> Comparable(a, b)
  {
    if a == b {
      MemcmpMeaning(a, b, |a|);
      PrecedesTrichotomy(a, b);
    } else {
      var i := Mismatch(a, b);
      if FirstDifference(a, b, i) { DifferenceDecides(a, b, i); } else { DifferenceDecides(b, a, i); }
    }
  }

  /** For keys below 2^31 bytes it always does. */
  lemma CompareMeaning(a: Key, b: Key)
    requires |a| < KEY_LIMIT && |b| < KEY_LIMIT
    ensures Compare(a, b) < 0 <==> Precedes(a, b)
    ensures Compare(a, b) > 0 <==> Precedes(b, a)
    ensures Compare(a, b) == 0 <==> a == b
  {
    hide Compare, Precedes;
    CompareExact(a, b);
  }

  lemma PrecedesTransitive(a: Key, b: Key, c: Key)
    requires Precedes(a, b) && Precedes(b, c)
    ensures Precedes(a, c)
  {
    var i: nat :| i < |a| && FirstDifference(a, b, i);
    var j: nat :| j < |b| && FirstDifference(b, c, j);
    assert FirstDifference(a, c, if i < j then i else j);
  }

  /** Exactly one of a before b, b before a, and a equal to b. */
  lemma PrecedesTrichotomy(a: Key, b: Key)
    ensures (a == b && !Precedes(a, b) && !Precedes(b, a))
         || (a != b && Precedes(a, b) && !Precedes(b, a))
         || (a != b && !Precedes(a, b) && Precedes(b, a))
  {
    if a != b {
      var i := Mismatch(a, b);
      if FirstDifference(a, b, i) { DifferenceDecides(a, b, i); } else { DifferenceDecides(b, a, i); }
    }
  }

  /** A proper prefix sorts after its extension, unlike in the usual order. */
  lemma PrefixComesLast(a: Key, b: Key)
    requires b != []
    ensures Precedes(a + b, a) && !Precedes(a, a + b)
  {
    assert FirstDifference(a + b, a, |a|);
    DifferenceDecides(a + b, a, |a|);
  }
}
