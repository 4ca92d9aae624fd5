/** Bytes, machine words and the little arithmetic the rest of the model shares.

    Every machine word is an integer with its width written into its type. Shifts and masks
    are divisions and remainders by powers of two; exclusive or is `Xor` in module Bits. */
module Machine {

  const POW16: int := 0x1_0000
  const POW32: int := 0x1_0000_0000
  const POW64: int := 0x1_0000_0000_0000_0000

  type Byte = x: int | 0 <= x < 0x100
  type U16 = x: int | 0 <= x < POW16
  type U32 = x: int | 0 <= x < POW32
  type U64 = x: int | 0 <= x < POW64

  // Big-endian words inside a byte string.

  function ReadU16(s: seq<Byte>, offset: nat): U16
    requires offset + 2 <= |s|
  {
    var high: int := s[offset];
    high * 0x100 + s[offset + 1]
  }

  function ReadU32(s: seq<Byte>, offset: nat): U32
    requires offset + 4 <= |s|
  {
    var high: int := ReadU16(s, offset);
    high * POW16 + ReadU16(s, offset + 2)
  }

  function ReadU64(s: seq<Byte>, offset: nat): U64
    requires offset + 8 <= |s|
  {
    var high: int := ReadU32(s, offset);
    high * POW32 + ReadU32(s, offset + 4)
  }

  function U16Bytes(v: U16): (s: seq<Byte>)
    ensures |s| == 2
  {
    var n: int := v;
    [n / 0x100, n % 0x100]
  }

  function U32Bytes(v: U32): (s: seq<Byte>)
    ensures |s| == 4
  {
    var n: int := v;
    U16Bytes(n / POW16) + U16Bytes(n % POW16)
  }

  function U64Bytes(v: U64): (s: seq<Byte>)
    ensures |s| == 8
  {
    var n: int := v;
    U32Bytes(n / POW32) + U32Bytes(n % POW32)
  }

  /** `bytes` with those from `base` on replaced by `part`. */
  function Splice(bytes: seq<Byte>, base: nat, part: seq<Byte>): (r: seq<Byte>)
    requires base + |part| <= |bytes|
    ensures |r| == |bytes|
    ensures r[base..base + |part|] == part
    ensures forall i :: 0 <= i < base || base + |part| <= i < |bytes| ==> r[i] == bytes[i]
  {
    bytes[..base] + part + bytes[base + |part|..]
  }

  lemma SpliceIs(before: seq<Byte>, after: seq<Byte>, base: nat, part: seq<Byte>)
    requires |before| == |after| && base + |part| <= |before|
    requires after[base..base + |part|] == part
    requires forall i :: 0 <= i < base || base + |part| <= i < |before| ==> after[i] == before[i]
    ensures after == Splice(before, base, part)
  {
    assert after == after[..base] + after[base..base + |part|] + after[base + |part|..];
  }

  datatype Option<+T> = None | Some(value: T)

  function Min(a: int, b: int): int {
    if a < b then a else b
  }

  lemma MulLe(a: int, b: int, d: int)
    requires a <= b && 0 <= d
    ensures a * d <= b * d
  {
    assert 0 <= (b - a) * d;
  }

  lemma MulLess(a: int, b: int, d: int)
    requires a * d < b * d && 0 <= d
    ensures a < b
  {
    if b <= a {
      MulLe(b, a, d);
    }
  }

  /** Quotient and remainder are the only ones of their kind. */
  lemma DivUnique(a: int, d: int, q: int, r: int)
    requires 0 < d && 0 <= r < d && a == q * d + r
    ensures a / d == q && a % d == r
  {
    var p := a / d;
    assert a == p * d + a % d;
    assert (p - q) * d == r - a % d;
    MulLess(-1, p - q, d);
    MulLess(p - q, 1, d);
  }

  function Pow2(k: nat): (p: nat)
    ensures 0 < p
  {
    if k == 0 then 1 else 2 * Pow2(k - 1)
  }

  lemma {:induction false} Pow2Adds(a: nat, b: nat)
    ensures Pow2(a) * Pow2(b) == Pow2(a + b)
    decreases a
  {
    if a == 0 {
    } else {
      Pow2Adds(a - 1, b);
      var p, q := Pow2(a - 1), Pow2(b);
      assert (2 * p) * q == 2 * (p * q);
    }
  }

  lemma Pow2Of32()
    ensures Pow2(32) == POW32 && Pow2(8) == 0x100
  {
    assert Pow2(2) == 4;
    Pow2Adds(2, 2);
    Pow2Adds(4, 4);
    Pow2Adds(8, 8);
    Pow2Adds(16, 16);
  }

  lemma Pow2Of64()
    ensures Pow2(64) == POW64
  {
    Pow2Of32();
    Pow2Adds(32, 32);
  }

  /** A power of two no larger than a machine word divides its wrap-around point, and is no
      larger than half of it. */
  lemma Pow2DividesPow64(k: nat)
    requires k < 64
    ensures POW64 % Pow2(k) == 0
    ensures 2 * Pow2(k) <= POW64
  {
    Pow2Of64();
    Pow2Adds(k, 64 - k);
    DivUnique(POW64, Pow2(k), Pow2(64 - k), 0);
    MulLe(2, Pow2(64 - k), Pow2(k));
  }

  /** Reducing modulo a multiple of `d` first does not change the remainder by `d`. */
  lemma ModOfMod(x: int, m: int, d: int)
    requires 0 < d && 0 < m && m % d == 0
    ensures (x % m) % d == x % d
  {
    var q, p := x / m, m / d;
    assert x == q * m + x % m;
    assert m == p * d;
    var y := x % m;
    assert y == (y / d) * d + y % d;
    assert x == (q * p) * d + (y / d) * d + y % d by {
      assert q * m == (q * p) * d;
    }
    assert x == (q * p + y / d) * d + y % d;
    DivUnique(x, d, q * p + y / d, y % d);
  }

  /** Addition may be reduced before or after the remainder is taken. */
  lemma ModAdd(x: int, y: int, d: int)
    requires 0 < d
    ensures (x % d + y) % d == (x + y) % d
  {
    var z := x % d + y;
    assert x + y == (x / d + z / d) * d + z % d by {
      assert x == (x / d) * d + x % d;
      assert z == (z / d) * d + z % d;
    }
    DivUnique(x + y, d, x / d + z / d, z % d);
  }

  /** Two numbers less than `d` apart with the same remainder are equal. */
  lemma ModInjective(x: int, y: int, d: int)
    requires 0 < d && x % d == y % d && -d < x - y < d
    ensures x == y
  {
    assert x - y == (x / d - y / d) * d;
    MulLess(-1, x / d - y / d, d);
    MulLess(x / d - y / d, 1, d);
  }

  /** How many entries of `s` have key `a`. */
  function CountBy<T>(s: seq<T>, key: T -> nat, a: nat): nat {
    if s == [] then 0
    else CountBy(s[..|s| - 1], key, a) + if key(s[|s| - 1]) == a then 1 else 0
  }

  lemma {:induction false} CountConcat<T>(s: seq<T>, t: seq<T>, key: T -> nat, a: nat)
    ensures CountBy(s + t, key, a) == CountBy(s, key, a) + CountBy(t, key, a)
    decreases |t|
  {
    if t == [] {
      assert s + t == s;
    } else {
      var n := |t| - 1;
      assert (s + t)[..|s + t| - 1] == s + t[..n];
      CountConcat(s, t[..n], key, a);
    }
  }

  lemma CountPush<T>(s: seq<T>, x: T, key: T -> nat, a: nat)
    ensures CountBy(s + [x], key, a) == CountBy(s, key, a) + if key(x) == a then 1 else 0
  {
    assert (s + [x])[..|s|] == s;
  }

  lemma CountPop<T>(s: seq<T>, key: T -> nat, a: nat)
    requires s != []
    ensures CountBy(s, key, a) == CountBy(s[1..], key, a) + if key(s[0]) == a then 1 else 0
  {
    assert s == [s[0]] + s[1..];
    CountConcat([s[0]], s[1..], key, a);
    CountPush([], s[0], key, a);
    assert [] + [s[0]] == [s[0]];
  }

  lemma SpliceAt(s: seq<Byte>, i: nat, w: seq<Byte>, k: nat)
    requires i + |w| <= |s| && k < |s|
    ensures Splice(s, i, w)[k] == if i <= k < i + |w| then w[k - i] else s[k]
  {
  }

  lemma MoveOver<T>(done: seq<T>, rest: seq<T>)
    requires rest != []
    ensures done + [rest[0]] + rest[1..] == done + rest
  {
  }

  lemma U16Fields(s: seq<Byte>, offset: nat)
    requires offset + 2 <= |s|
    ensures U16Bytes(ReadU16(s, offset)) == s[offset..offset + 2]
  {
    var high: int := s[offset];
    var low: int := s[offset + 1];
    DivUnique(ReadU16(s, offset), 0x100, high, low);
  }

  lemma U32Fields(s: seq<Byte>, offset: nat)
    requires offset + 4 <= |s|
    ensures U32Bytes(ReadU32(s, offset)) == s[offset..offset + 4]
  {
    var high: int := ReadU16(s, offset);
    var low: int := ReadU16(s, offset + 2);
    DivUnique(ReadU32(s, offset), POW16, high, low);
    U16Fields(s, offset);
    U16Fields(s, offset + 2);
  }

  lemma U64Fields(s: seq<Byte>, offset: nat)
    requires offset + 8 <= |s|
    ensures U64Bytes(ReadU64(s, offset)) == s[offset..offset + 8]
  {
    var high: int := ReadU32(s, offset);
    var low: int := ReadU32(s, offset + 4);
    DivUnique(ReadU64(s, offset), POW32, high, low);
    U32Fields(s, offset);
    U32Fields(s, offset + 4);
  }

  lemma ReadBackU16(s: seq<Byte>, offset: nat, v: U16)
    requires offset + 2 <= |s| && s[offset..offset + 2] == U16Bytes(v)
    ensures ReadU16(s, offset) == v
  {
    assert s[offset] == s[offset..offset + 2][0] && s[offset + 1] == s[offset..offset + 2][1];
  }

  lemma ReadBackU32(s: seq<Byte>, offset: nat, v: U32)
    requires offset + 4 <= |s| && s[offset..offset + 4] == U32Bytes(v)
    ensures ReadU32(s, offset) == v
  {
    var n: int := v;
    assert s[offset..offset + 2] == s[offset..offset + 4][..2] == U16Bytes(n / POW16);
    assert s[offset + 2..offset + 4] == s[offset..offset + 4][2..] == U16Bytes(n % POW16);
    ReadBackU16(s, offset, n / POW16);
    ReadBackU16(s, offset + 2, n % POW16);
  }

  lemma ReadBackU64(s: seq<Byte>, offset: nat, v: U64)
    requires offset + 8 <= |s| && s[offset..offset + 8] == U64Bytes(v)
    ensures ReadU64(s, offset) == v
  {
    var n: int := v;
    assert s[offset..offset + 4] == s[offset..offset + 8][..4] == U32Bytes(n / POW32);
    assert s[offset + 4..offset + 8] == s[offset..offset + 8][4..] == U32Bytes(n % POW32);
    ReadBackU32(s, offset, n / POW32);
    ReadBackU32(s, offset + 4, n % POW32);
  }
}
