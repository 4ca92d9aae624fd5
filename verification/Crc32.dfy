/** CRC-32 as the control protocol computes it: the reflected algorithm of section 8 of
    RFC 1952, one table look-up per byte.

    Exclusive or makes registers a vector space over bits and the bit step a linear, injective
    map on it. Everything below follows: the table is eight bit steps, a byte string enters
    the register as one little-endian number, and short bursts of changes always show. */
module Crc32 {
  import opened Machine
  import opened Bits

  const POLYNOMIAL: U32 := 0xEDB88320
  const ALL_ONES: U32 := 0xFFFF_FFFF

  /** One step of polynomial division, least significant bit first. */
  function BitStep(c: nat): nat {
    Reduce(c / 2, c % 2 != 0, POLYNOMIAL)
  }

  function Reduce(half: nat, odd: bool, p: nat): nat {
    if odd then Xor(half, p) else half
  }

  function BitSteps(c: nat, n: nat): nat
    decreases n
  {
    if n == 0 then c else BitSteps(BitStep(c), n - 1)
  }

  // ---------------------------------------------------------------------------------------
  // Linearity and injectivity
  // ---------------------------------------------------------------------------------------

  lemma ReduceLinear(x: nat, y: nat, odd: bool, odd': bool, p: nat)
    ensures Reduce(Xor(x, y), odd != odd', p) == Xor(Reduce(x, odd, p), Reduce(y, odd', p))
  {
    if odd && odd' {
      XorSwap(x, p, y, p);
      XorSelf(p);
      XorZero(Xor(x, y));
    } else if odd {
      XorAssoc(x, p, y);
      XorComm(p, y);
      XorAssoc(x, y, p);
    } else if odd' {
      XorAssoc(x, y, p);
    }
  }

  lemma OddSum(a: nat, b: nat)
    ensures (a + b) % 2 != 0 <==> (a % 2 != 0) != (b % 2 != 0)
  {
  }

  lemma BitStepLinear(a: nat, b: nat)
    ensures BitStep(Xor(a, b)) == Xor(BitStep(a), BitStep(b))
  {
    XorUnfold(a, b);
    OddSum(a, b);
    ReduceLinear(a / 2, b / 2, a % 2 != 0, b % 2 != 0, POLYNOMIAL);
  }

  lemma {:induction false} BitStepsLinear(a: nat, b: nat, n: nat)
    ensures BitSteps(Xor(a, b), n) == Xor(BitSteps(a, n), BitSteps(b, n))
    decreases n
  {
    if n == 0 {
    } else {
      BitStepLinear(a, b);
      BitStepsLinear(BitStep(a), BitStep(b), n - 1);
    }
  }

  lemma {:induction false} BitStepsAdd(c: nat, m: nat, n: nat)
    ensures BitSteps(BitSteps(c, m), n) == BitSteps(c, m + n)
    decreases m
  {
    if m == 0 {
    } else {
      BitStepsAdd(BitStep(c), m - 1, n);
    }
  }

  lemma XorFits32(a: U32, b: U32)
    ensures Xor(a, b) < POW32
  {
    Pow2Of32();
    XorBound(a, b, 32);
  }

  /** On 32-bit registers the bit step stays in range, and only zero steps to zero: the top
      bit of the polynomial is set. */
  lemma BitStepFits(c: U32)
    ensures BitStep(c) < POW32
    ensures BitStep(c) == 0 ==> c == 0
  {
    var half := (c as int) / 2;
    XorFits32(half, POLYNOMIAL);
    XorCancels(POLYNOMIAL, half);
    XorZero(POLYNOMIAL);
    assert Xor(half, POLYNOMIAL) == 0 ==> half == POLYNOMIAL;
  }

  lemma {:induction false} BitStepsFit(c: U32, n: nat)
    ensures BitSteps(c, n) < POW32
    ensures BitSteps(c, n) == 0 ==> c == 0
    decreases n
  {
    if n == 0 {
    } else {
      BitStepFits(c);
      BitStepsFit(BitStep(c), n - 1);
    }
  }

  /** The bit step is a bijection of 32-bit registers; this is the half that detects errors. */
  lemma BitStepsInjective(a: U32, b: U32, n: nat)
    requires BitSteps(a, n) == BitSteps(b, n)
    ensures a == b
  {
    BitStepsLinear(a, b, n);
    XorSelf(BitSteps(a, n));
    XorFits32(a, b);
    BitStepsFit(Xor(a, b), n);
    XorCancels(a, b);
    XorZero(a);
  }

  /** A number shifted up by `k` bits comes down unchanged in `k` steps. */
  lemma {:induction false} BitStepsShift(h: nat, k: nat)
    ensures BitSteps(Pow2(k) * h, k) == h
    decreases k
  {
    if k == 0 {
    } else {
      var x := Pow2(k - 1) * h;
      assert Pow2(k) * h == 2 * x;
      HalfOfEven(x);
      assert BitStep(2 * x) == x;
      BitStepsShift(h, k - 1);
    }
  }

  lemma HalfOfEven(x: nat)
    ensures (2 * x) / 2 == x && (2 * x) % 2 == 0
  {
  }

  // ---------------------------------------------------------------------------------------
  // The table-driven update
  // ---------------------------------------------------------------------------------------

  function TableEntry(index: Byte): U32 {
    BitStepsFit(index, 8);
    BitSteps(index, 8)
  }

  /** The low byte of the register selects the entry; the rest shifts down. */
  function ByteStep(crc: U32, byte: Byte): U32 {
    XorFits32(crc, byte);
    ShiftedFits(crc);
    var index: int := Xor(crc, byte);
    XorFits32(Shr(crc, 8), TableEntry(index % 0x100));
    Xor(Shr(crc, 8), TableEntry(index % 0x100))
  }

  lemma ShiftedFits(crc: U32)
    ensures Shr(crc, 8) < POW32
  {
    ShrDivides(crc, 8);
    Pow2Of32();
  }

  function Update(crc: U32, bytes: seq<Byte>): U32 {
    if bytes == [] then crc
    else ByteStep(Update(crc, bytes[..|bytes| - 1]), bytes[|bytes| - 1])
  }

  function Checksum(bytes: seq<Byte>): U32 {
    XorFits32(Update(ALL_ONES, bytes), ALL_ONES);
    Xor(Update(ALL_ONES, bytes), ALL_ONES)
  }

  lemma SplitLow(x: nat)
    ensures x == Xor(0x100 * Shr(x, 8), x % 0x100)
  {
    Pow2Of32();
    ShrDivides(x, 8);
    var h := Shr(x, 8);
    DivUnique(x, 0x100, h, x - h * 0x100);
    XorOfParts(h, x % 0x100, 8);
  }

  /** One table look-up is eight bit steps, on every register and byte. */
  lemma TableIsBitwise(crc: U32, byte: Byte)
    ensures ByteStep(crc, byte) == BitSteps(Xor(crc, byte), 8)
  {
    var x := Xor(crc, byte);
    var h, l := Shr(x, 8), x % 0x100;
    Pow2Of32();
    SplitLow(x);
    BitStepsLinear(0x100 * h, l, 8);
    BitStepsShift(h, 8);
    XorShift(crc, byte, 8);
    ShrVanishes(byte, 8);
    XorZero(Shr(crc, 8));
  }

  lemma {:induction false} UpdateConcat(crc: U32, a: seq<Byte>, b: seq<Byte>)
    ensures Update(crc, a + b) == Update(Update(crc, a), b)
    decreases |b|
  {
    if b == [] {
      assert a + b == a;
    } else {
      var n := |b| - 1;
      assert (a + b)[..|a + b| - 1] == a + b[..n];
      UpdateConcat(crc, a, b[..n]);
    }
  }

  /** The little-endian number a byte string spells. */
  function Word(bytes: seq<Byte>): nat {
    if bytes == [] then 0
    else
      var n := |bytes| - 1;
      Word(bytes[..n]) + Pow2(8 * n) * bytes[n]
  }

  lemma {:induction false} WordFits(bytes: seq<Byte>)
    ensures Word(bytes) < Pow2(8 * |bytes|)
    decreases |bytes|
  {
    if bytes == [] {
    } else {
      var n := |bytes| - 1;
      WordFits(bytes[..n]);
      Pow2Adds(8 * n, 8);
      Pow2Of32();
      MulLe(bytes[n], 0xFF, Pow2(8 * n));
      assert Pow2(8 * n) * bytes[n] == bytes[n] * Pow2(8 * n);
      assert Pow2(8 * n) * 0x100 == 0xFF * Pow2(8 * n) + Pow2(8 * n);
    }
  }

  lemma {:induction false} WordInjective(s: seq<Byte>, t: seq<Byte>)
    requires |s| == |t| && Word(s) == Word(t)
    ensures s == t
    decreases |s|
  {
    if s == [] {
    } else {
      var n := |s| - 1;
      var p := Pow2(8 * n);
      WordFits(s[..n]);
      WordFits(t[..n]);
      TopAndRest(p, s[n], Word(s[..n]), t[n], Word(t[..n]));
      WordInjective(s[..n], t[..n]);
      assert s == s[..n] + [s[n]] && t == t[..n] + [t[n]];
    }
  }

  lemma TopAndRest(p: nat, a: nat, low: nat, b: nat, low': nat)
    requires low < p && low' < p && low + p * a == low' + p * b
    ensures a == b && low == low'
  {
    DivUnique(low + p * a, p, a, low);
    DivUnique(low + p * a, p, b, low');
  }

  /** A byte that enters after `m` steps is one that was there from the start, `m` bits up. */
  lemma LateByte(x: nat, b: Byte, m: nat)
    ensures BitSteps(Xor(BitSteps(x, m), b), 8) == BitSteps(Xor(x, Pow2(m) * b), m + 8)
  {
    BitStepsShift(b, m);
    BitStepsLinear(x, Pow2(m) * b, m);
    BitStepsAdd(Xor(x, Pow2(m) * b), m, 8);
  }

  lemma XorWord(crc: nat, w: nat, b: nat, m: nat)
    requires w < Pow2(m)
    ensures Xor(Xor(crc, w), Pow2(m) * b) == Xor(crc, w + Pow2(m) * b)
  {
    XorAssoc(crc, w, Pow2(m) * b);
    XorOfParts(b, w, m);
    XorComm(w, Pow2(m) * b);
  }

  lemma ByteEnters(crc: U32, register: U32, w: nat, b: Byte, m: nat, v: nat)
    requires register == BitSteps(Xor(crc, w), m) && w < Pow2(m) && v == w + Pow2(m) * b
    ensures ByteStep(register, b) == BitSteps(Xor(crc, v), m + 8)
  {
    TableIsBitwise(register, b);
    LateByte(Xor(crc, w), b, m);
    XorWord(crc, w, b, m);
  }

  lemma UpdateIsWordStep(crc: U32, bytes: seq<Byte>, m: nat)
    requires bytes != [] && m == 8 * (|bytes| - 1)
    requires Update(crc, bytes[..|bytes| - 1]) == BitSteps(Xor(crc, Word(bytes[..|bytes| - 1])), m)
    ensures Update(crc, bytes) == BitSteps(Xor(crc, Word(bytes)), m + 8)
  {
    var front, b := bytes[..|bytes| - 1], bytes[|bytes| - 1];
    WordFits(front);
    assert Word(bytes) == Word(front) + Pow2(m) * b;
    ByteEnters(crc, Update(crc, front), Word(front), b, m, Word(bytes));
  }

  lemma {:induction false} UpdateIsWordAt(crc: U32, bytes: seq<Byte>, m: nat)
    requires m == 8 * |bytes|
    ensures Update(crc, bytes) == BitSteps(Xor(crc, Word(bytes)), m)
    decreases |bytes|
  {
    if bytes == [] {
      XorZero(crc);
    } else {
      UpdateIsWordAt(crc, bytes[..|bytes| - 1], m - 8);
      UpdateIsWordStep(crc, bytes, m - 8);
    }
  }

  /** A byte string of any length acts on the register as one number: exclusive or it in,
      then step once per bit. */
  lemma UpdateIsWord(crc: U32, bytes: seq<Byte>)
    ensures Update(crc, bytes) == BitSteps(Xor(crc, Word(bytes)), 8 * |bytes|)
  {
    UpdateIsWordAt(crc, bytes, 8 * |bytes|);
  }

  // ---------------------------------------------------------------------------------------
  // Error detection
  // ---------------------------------------------------------------------------------------

  /** Different registers stay different through the same bytes. */
  lemma SuffixKeepsDifference(a: U32, b: U32, bytes: seq<Byte>)
    requires a != b
    ensures Update(a, bytes) != Update(b, bytes)
  {
    if Update(a, bytes) == Update(b, bytes) {
      var w, n := Word(bytes), 8 * |bytes|;
      UpdateIsWord(a, bytes);
      UpdateIsWord(b, bytes);
      BitStepsLinear(a, w, n);
      BitStepsLinear(b, w, n);
      XorInjective(BitSteps(w, n), BitSteps(a, n), BitSteps(b, n));
      BitStepsInjective(a, b, n);
    }
  }

  /** Up to four bytes map injectively onto the register. */
  lemma FourBytesInjective(crc: U32, s: seq<Byte>, t: seq<Byte>)
    requires |s| == |t| <= 4 && s != t
    ensures Update(crc, s) != Update(crc, t)
  {
    if Update(crc, s) == Update(crc, t) {
      UpdateIsWord(crc, s);
      UpdateIsWord(crc, t);
      ShortWordFits(s);
      ShortWordFits(t);
      XorFits32(crc, Word(s));
      XorFits32(crc, Word(t));
      BitStepsInjective(Xor(crc, Word(s)), Xor(crc, Word(t)), 8 * |s|);
      XorInjective(crc, Word(s), Word(t));
      WordInjective(s, t);
    }
  }

  lemma ShortWordFits(s: seq<Byte>)
    requires |s| <= 4
    ensures Word(s) < POW32
  {
    WordFits(s);
    Pow2Of32();
    Pow2Adds(8 * |s|, 32 - 8 * |s|);
    MulLe(1, Pow2(32 - 8 * |s|), Pow2(8 * |s|));
  }

  /** Two messages that differ only inside a window of at most four bytes have different
      checksums. */
  lemma BurstChangesChecksum(before: seq<Byte>, s: seq<Byte>, t: seq<Byte>, after: seq<Byte>)
    requires |s| == |t| <= 4 && s != t
    ensures Checksum(before + s + after) != Checksum(before + t + after)
  {
    var crc := Update(ALL_ONES, before);
    UpdateConcat(ALL_ONES, before, s);
    UpdateConcat(ALL_ONES, before, t);
    UpdateConcat(ALL_ONES, before + s, after);
    UpdateConcat(ALL_ONES, before + t, after);
    FourBytesInjective(crc, s, t);
    SuffixKeepsDifference(Update(crc, s), Update(crc, t), after);
    if Checksum(before + s + after) == Checksum(before + t + after) {
      XorInjective(ALL_ONES, Update(ALL_ONES, before + s + after), Update(ALL_ONES, before + t + after));
    }
  }
}
