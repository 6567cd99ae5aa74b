/**
 Addition on 48-bit addresses (core/src/mac_address.cpp, `operator+=`, `operator++`, `operator+`):
 a carry goes from byte to byte, last to first, and the loop stops once it is zero.
 Division and remainder truncate, as in C++, and a byte keeps a remainder modulo 256.
 */
module MacAddress {

  type byte = b: int | 0 <= b < 256

  const LENGTH: nat := 6
  /** From here on, a byte plus the value no longer fits an int. */
  const INT_LIMIT: int := 0x8000_0000 - 255

  function Pow(k: nat): (r: int)
    ensures r >= 1
  {
    if k == 0 then 1 else 256 * Pow(k - 1)
  }

  /** Bytes read as one big-endian number. */
  function Value(s: seq<byte>): int {
    if s == [] then 0 else 256 * Value(s[..|s| - 1]) + s[|s| - 1] as int
  }

  /** C++ division of an int by 256. */
  function Quotient(n: int): int {
    if n >= 0 then n / 256 else -(-n / 256)
  }

  /** C++ remainder by 256, then stored in a byte. */
  function StoredRemainder(n: int): (r: byte)
    ensures n == 256 * Quotient(n) + r - if n < 0 && n % 256 != 0 then 256 else 0
  {
    (n - 256 * Quotient(n)) % 256
  }

  /** The bytes after `left` has been added into the last one and carries have gone to the front. */
  function Sum(s: seq<byte>, left: int): (r: seq<byte>)
    ensures |r| == |s|
  {
    if s == [] || left == 0 then s
    else
      var n := |s| - 1;
      Sum(s[..n], Quotient(s[n] + left)) + [StoredRemainder(s[n] + left)]
  }

  /**
   No byte but the first is asked to go below zero by anything but a multiple of 256:
   truncation would then forget to borrow from the byte before it.
   */
  predicate NoBorrow(s: seq<byte>, left: int) {
    |s| <= 1 || left >= 0
    || var n := |s| - 1;
       var val := s[n] + left;
       val >= 0 || (val % 256 == 0 && NoBorrow(s[..n], val / 256))
  }

  lemma SumSplit(s: seq<byte>, pos: nat, left: int)
    requires pos < |s| && left != 0
    ensures var val := s[pos] + left;
      Sum(s[..pos + 1], left) + s[pos + 1..] == Sum(s[..pos], Quotient(val)) + ([StoredRemainder(val)] + s[pos + 1..])
  {
    assert s[..pos + 1][..pos] == s[..pos];
  }

  class Address {
    const mac: array<byte>

    constructor (bytes: seq<byte>)
      requires |bytes| == LENGTH
      ensures fresh(mac) && mac[..] == bytes
    {
      mac := new byte[LENGTH](i requires 0 <= i < LENGTH => bytes[i]);
    }

    /** `operator+=` */
    method Add(value: int)
      requires mac.Length == LENGTH && -0x8000_0000 <= value < INT_LIMIT
      modifies mac
      ensures mac[..] == Sum(old(mac[..]), value)
    {
      var pos, left := mac.Length - 1, value;
      assert mac[..pos + 1] == mac[..] && mac[pos + 1..] == [];
      while pos >= 0 && left != 0
        invariant -1 <= pos < LENGTH
        invariant Sum(mac[..pos + 1], left) + mac[pos + 1..] == Sum(old(mac[..]), value)
        decreases pos
      {
        var val := mac[pos] + left;
        ghost var was := mac[..];
        SumSplit(was, pos, left);
        mac[pos] := StoredRemainder(val);
        left := Quotient(val);
        assert mac[..pos] == was[..pos] && mac[pos..] == [mac[pos]] + was[pos + 1..];
        pos := pos - 1;
      }
      assert mac[..pos + 1] + mac[pos + 1..] == mac[..];
    }

    /** `operator++` */
    method Increment()
      requires mac.Length == LENGTH
      modifies mac
      ensures Value(mac[..]) == (Value(old(mac[..])) + 1) % Pow(LENGTH)
    {
      AddIsExact(mac[..], 1);
      Add(1);
    }

    /** `operator+`: the operand keeps its bytes. */
    method Plus(value: int) returns (r: Address)
      requires mac.Length == LENGTH && -0x8000_0000 <= value < INT_LIMIT
      ensures fresh(r) && fresh(r.mac) && r.mac[..] == Sum(mac[..], value)
    {
      r := new Address(mac[..]);
      r.Add(value);
    }
  }

  lemma {:induction false} ValueRange(s: seq<byte>)
    ensures 0 <= Value(s) < Pow(|s|)
  {
    if s != [] { ValueRange(s[..|s| - 1]); }
  }

  function Error(val: int): int {
    if val < 0 && val % 256 != 0 then 256 else 0
  }

  lemma NoBorrowStep(s: seq<byte>, left: int)
    requires |s| > 1
    ensures var n := |s| - 1;
      NoBorrow(s, left) <==> Error(s[n] + left) == 0 && NoBorrow(s[..n], Quotient(s[n] + left))
  {}

  lemma SumStep(s: seq<byte>, left: int)
    requires s != [] && left != 0
    ensures var n := |s| - 1;
      var val := s[n] + left;
      Value(Sum(s, left)) == 256 * (Value(Sum(s[..n], Quotient(val))) - Quotient(val)) + val + Error(val)
  {
    var n := |s| - 1;
    assert Sum(s, left)[..n] == Sum(s[..n], Quotient(s[n] + left));
  }

  /** x * 256^k, one factor at a time. */
  function Shifted(x: int, k: nat): int {
    if k == 0 then x else 256 * Shifted(x, k - 1)
  }

  lemma {:induction false} ShiftedIs(x: int, k: nat)
    ensures Shifted(x, k) == x * Pow(k)
  {
    if k > 0 {
      ShiftedIs(x, k - 1);
      Distribute(x, Pow(k - 1));
    }
  }

  /** What the loop computes: the sum, every forgotten borrow on top, and something times 2^(8n). */
  lemma {:induction false} SumValue(s: seq<byte>, left: int) returns (forgotten: int, out: int)
    ensures Value(Sum(s, left)) == Value(s) + left + forgotten + Shifted(out, |s|)
    ensures 0 <= forgotten <= if |s| <= 1 then 0 else 2 * Pow(|s| - 1) - 2
    ensures NoBorrow(s, left) <==> forgotten == 0
  {
    if s == [] {
      forgotten, out := 0, -left;
    } else if left == 0 {
      forgotten, out := 0, 0;
      ShiftedIs(0, |s|);
    } else {
      var n := |s| - 1;
      var val := s[n] + left;
      forgotten, out := SumValue(s[..n], Quotient(val));
      SumStep(s, left);
      if n == 0 {
        if Error(val) != 0 { out := out + 1; }
        assert Shifted(out, 1) == 256 * Shifted(out, 0);
      } else {
        NoBorrowStep(s, left);
        forgotten := 256 * forgotten + Error(val);
      }
    }
  }

  lemma Distribute(d: int, p: int)
    ensures 256 * (d * p) == d * (256 * p)
  {}

  lemma SameModulo(x: int, y: int, a: int, m: int)
    requires m > 0 && 0 <= x < m && x == y + a * m
    ensures x == y % m
  {
    assert y == (y / m) * m + y % m;
    var k := a + y / m;
    assert x - y % m == k * m;
    assert k >= 1 ==> k * m >= m;
    assert k <= -1 ==> k * m <= -m;
  }

  /** Main result: addition modulo 2^48 exactly when no borrow is forgotten, so for every value from 0 up. */
  lemma AddIsExact(s: seq<byte>, value: int)
    requires s != []
    ensures Value(Sum(s, value)) == (Value(s) + value) % Pow(|s|) <==> NoBorrow(s, value)
    ensures value >= 0 ==> NoBorrow(s, value)
  {
    var forgotten, out := SumValue(s, value);
    ShiftedIs(out, |s|);
    ValueRange(Sum(s, value));
    var total := Value(s) + value;
    SameModulo(Value(Sum(s, value)), total + forgotten, out, Pow(|s|));
    if forgotten > 0 && (total + forgotten) % Pow(|s|) == total % Pow(|s|) {
      NotAMultiple(total, forgotten, Pow(|s|));
    }
  }

  lemma NotAMultiple(x: int, d: int, m: int)
    requires 0 < d < m
    ensures (x + d) % m != x % m
  {
    var k := (x + d) / m - x / m;
    assert x + d == ((x + d) / m) * m + (x + d) % m && x == (x / m) * m + x % m;
    assert d == k * m + ((x + d) % m - x % m);
    assert k >= 1 ==> k * m >= m;
    assert k <= 0 ==> k * m <= 0;
  }

  /** A borrow from a zero address is forgotten. */
  lemma MinusOneFails()
    ensures var s: seq<byte> := [0, 0, 0, 0, 0, 0]; Sum(s, -1) == [0, 0, 0, 0, 0, 255] && !NoBorrow(s, -1)
  {
    var s: seq<byte> := [0, 0, 0, 0, 0, 0];
    assert s[..5] == [0, 0, 0, 0, 0] && Quotient(-1) == 0 && StoredRemainder(-1) == 255;
    assert Sum(s[..5], 0) == s[..5];
  }

  lemma {:induction false} ValueInjective(s: seq<byte>, t: seq<byte>)
    requires |s| == |t| && Value(s) == Value(t)
    ensures s == t
  {
    if s != [] {
      var n := |s| - 1;
      ValueInjective(s[..n], t[..n]);
      assert s == s[..n] + [s[n]] && t == t[..n] + [t[n]];
    }
  }

  lemma ModuloTwice(x: int, w: int, m: int)
    requires m > 0
    ensures (x % m + w) % m == (x + w) % m
  {
    var y, k := x % m + w, x / m;
    assert x == k * m + x % m;
    assert y == (y / m) * m + y % m;
    assert y % m == x + w + -(k + y / m) * m;
    SameModulo(y % m, x + w, -(k + y / m), m);
  }

  lemma SameValue(x: int, v: int, w: int, once: int, twice: int, atOnce: int, m: int)
    requires m > 0 && once == (x + v) % m && twice == (once + w) % m && atOnce == (x + (v + w)) % m
    ensures twice == atOnce
  {
    ModuloTwice(x + v, w, m);
    assert x + v + w == x + (v + w);
  }

  /** Additions compose: two of them are one addition of the sum. */
  lemma AdditionsCompose(s: seq<byte>, v: nat, w: nat)
    requires s != []
    ensures Sum(Sum(s, v), w) == Sum(s, v + w)
  {
    var once, twice, atOnce := Sum(s, v), Sum(Sum(s, v), w), Sum(s, v + w);
    AddIsExact(s, v);
    AddIsExact(once, w);
    AddIsExact(s, v + w);
    SameValue(Value(s), v, w, Value(once), Value(twice), Value(atOnce), Pow(|s|));
    ValueInjective(twice, atOnce);
  }
}
