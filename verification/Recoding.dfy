/** The three signed recodings of a scalar. */
module Recoding {
  import opened Congruence
  import opened Digits

  const SCALAR_BOUND: nat := 0x8000000000000000000000000000000000000000000000000000000000000000

  /** A scalar is an integer below 2^255; it need not be reduced modulo the group order. */
  type Scalar = x: nat | x < SCALAR_BOUND witness 0

  const TWO_64: nat := 0x1_0000_0000_0000_0000

  /** The byte of x with index i. */
  function ByteAt(x: nat, i: nat): nat {
    ShiftRight(x, 8 * i) % 256
  }

  /** The 64-bit word of x with index i. */
  function WordAt(x: nat, i: nat): nat {
    ShiftRight(x, 64 * i) % TWO_64
  }

  /** Conversion to a signed byte, which wraps around. */
  function I8(x: int): int {
    (x + 128) % 256 - 128
  }

  /** Left shift of a 64-bit word, which loses the bits above the word. */
  function ShiftLeft64(x: nat, k: nat): nat {
    (x * TwoTo(k)) % TWO_64
  }

  /** Bitwise or. */
  function BitOr(a: nat, b: nat): nat {
    if a == 0 then b
    else (if a % 2 == 1 || b % 2 == 1 then 1 else 0) + 2 * BitOr(a / 2, b / 2)
  }

  lemma ShiftedMultiple(h: nat, p: int)
    requires p > 0 && h % (2 * p) == 0
    ensures h % 2 == 0 && (h / 2) % p == 0
  {
    var q := h / (2 * p);
    DivMod(h, 2 * p);
    assert h == 2 * (q * p);
    DivModUnique(h / 2, p, q, 0);
  }

  /** Where the first word has no bit at k or above and the second none below k, the or is the sum. */
  lemma {:induction false} OrOfDisjoint(lo: nat, hi: nat, k: nat)
    requires lo < TwoTo(k) && hi % TwoTo(k) == 0
    ensures BitOr(lo, hi) == lo + hi
  {
    if lo > 0 {
      ShiftedMultiple(hi, TwoTo(k - 1));
      OrOfDisjoint(lo / 2, hi / 2, k - 1);
    }
  }

  lemma WordSize(j: nat, k: nat)
    requires j + k == 64
    ensures TwoTo(j + k) == TWO_64
  {
    var n := (j + k) / 16;
    assert TwoTo(4) == 16;
    TwoToAdd(n, n);
    TwoToAdd(2 * n, 2 * n);
    TwoToAdd(4 * n, 4 * n);
    TwoToAdd(8 * n, 8 * n);
  }

  lemma ScalarSize(n: nat)
    requires n == 255
    ensures TwoTo(n) == SCALAR_BOUND
  {
    var k := (n + 1) / 4;
    WordSize(0, k);
    TwoToAdd(k, k);
    TwoToAdd(2 * k, 2 * k);
    assert TwoTo(n + 1) == 2 * TwoTo(n);
  }

  /** A window inside one word. */
  lemma WordOfWindow(x: nat, u: nat, b: nat, w: nat)
    requires b + w <= 64
    ensures ShiftRight(WordAt(x, u), b) % TwoTo(w) == ShiftRight(x, 64 * u + b) % TwoTo(w)
  {
    var y := ShiftRight(x, 64 * u);
    WordSize(b, 64 - b);
    ShiftShift(x, 64 * u, b);
    LowBits(y, b, 64 - b);
    LowBits(ShiftRight(y, b), w, 64 - b - w);
  }

  lemma MultipleMinusMultiple(h: int, q: int, a: int, b: int)
    ensures h * b - q * (a * b) == (h - q * a) * b
  {}

  lemma MultipleMod(c: int, a: int, b: int)
    requires b > 0 && a * b > 0
    ensures ((c * b) % (a * b)) % b == 0
  {
    var q := (c * b) / (a * b);
    DivMod(c * b, a * b);
    MultipleMinusMultiple(c, q, a, b);
    MultipleIsZero(b, c - q * a);
    CongIs(b, (c - q * a) * b, 0);
  }

  /** The high part of a window, shifted within a word of a b values. */
  lemma ShiftedWord(h: nat, a: nat, b: nat)
    requires a > 0 && b > 0 && a * b > 0
    ensures (((h % (a * b)) * b) % (a * b)) % b == 0
    ensures Cong(a * b, ((h % (a * b)) * b) % (a * b), h * b)
  {
    var n := a * b;
    Residue(n, h);
    Mul(n, h % n, h, b, b);
    Residue(n, (h % n) * b);
    MultipleMod(h % n, a, b);
  }

  lemma CongFactor(a: int, b: int, x: int, y: int)
    requires a > 0 && b > 0 && a * b > 0 && Cong(a * b, x, y)
    ensures Cong(a, x, y)
  {
    Difference(a * b, x, y);
    var q := AsMultiple(a * b, x - y);
    assert x - y == (q * b) * a;
    MultipleIsZero(a, q * b);
    Difference(a, x, y);
  }

  /** The parts of a window that two words share do not overlap. */
  lemma WordsDisjoint(x: nat, u: nat, b: nat)
    requires 0 < b < 64
    ensures ShiftRight(WordAt(x, u), b) < TwoTo(64 - b)
    ensures ShiftLeft64(WordAt(x, u + 1), 64 - b) % TwoTo(64 - b) == 0
  {
    WordSize(b, 64 - b);
    TwoToAdd(b, 64 - b);
    ShiftBound(WordAt(x, u), b, 64 - b);
    ShiftedWord(ShiftRight(x, 64 * (u + 1)), TwoTo(b), TwoTo(64 - b));
  }

  lemma LowPart(x: nat, u: nat, b: nat)
    requires 0 < b < 64
    ensures ShiftRight(WordAt(x, u), b) == ShiftRight(x, 64 * u + b) % TwoTo(64 - b)
  {
    WordSize(b, 64 - b);
    ShiftShift(x, 64 * u, b);
    LowBits(ShiftRight(x, 64 * u), b, 64 - b);
  }

  lemma HighPart(x: nat, u: nat, b: nat, w: nat)
    requires 0 < b < 64 && w <= 64
    ensures Cong(TwoTo(w), ShiftLeft64(WordAt(x, u), 64 - b), ShiftRight(x, 64 * u) * TwoTo(64 - b))
  {
    var h := ShiftRight(x, 64 * u);
    WordSize(b, 64 - b);
    TwoToAdd(b, 64 - b);
    ShiftedWord(h, TwoTo(b), TwoTo(64 - b));
    WordSize(w, 64 - w);
    TwoToAdd(w, 64 - w);
    CongFactor(TwoTo(w), TwoTo(64 - w), ShiftLeft64(WordAt(x, u), 64 - b), h * TwoTo(64 - b));
  }

  /** A window that two words share. */
  lemma WordsOfWindow(x: nat, u: nat, b: nat, w: nat)
    requires 0 < b < 64 && w <= 64
    ensures (ShiftRight(WordAt(x, u), b) + ShiftLeft64(WordAt(x, u + 1), 64 - b)) % TwoTo(w)
         == ShiftRight(x, 64 * u + b) % TwoTo(w)
  {
    var z, h := ShiftRight(x, 64 * u + b), ShiftRight(x, 64 * (u + 1));
    LowPart(x, u, b);
    HighPart(x, u + 1, b, w);
    assert z == h * TwoTo(64 - b) + z % TwoTo(64 - b) by {
      ShiftShift(x, 64 * u + b, 64 - b);
      ShiftSplit(z, 64 - b);
    }
    Add(TwoTo(w), z % TwoTo(64 - b), z % TwoTo(64 - b), ShiftLeft64(WordAt(x, u + 1), 64 - b), h * TwoTo(64 - b));
    CongIs(TwoTo(w), ShiftRight(WordAt(x, u), b) + ShiftLeft64(WordAt(x, u + 1), 64 - b), z);
  }

  // Width-w non-adjacent form.

  /** The digits of a width-w non-adjacent form: odd or zero, small, and sparse. */
  ghost predicate IsSparse(d: seq<int>, w: nat)
    requires w >= 1
  {
    && (forall i :: 0 <= i < |d| && d[i] != 0 ==> d[i] % 2 == 1 && -TwoTo(w - 1) < d[i] < TwoTo(w - 1))
    && (forall i, j :: 0 <= i < j < |d| && j < i + w ==> d[i] == 0 || d[j] == 0)
  }

  /** A buffer of bits from bit b of word u on, as the recoders assemble it. */
  function BitBuffer(x: nat, u: nat, b: nat, w: nat): nat
    requires b < 64 && w <= 8
  {
    if b < 64 - w then ShiftRight(WordAt(x, u), b)
    else BitOr(ShiftRight(WordAt(x, u), b), ShiftLeft64(WordAt(x, u + 1), 64 - b))
  }

  lemma WindowBits(x: nat, u: nat, b: nat, w: nat)
    requires b < 64 && w <= 8
    ensures BitBuffer(x, u, b, w) % TwoTo(w) == ShiftRight(x, 64 * u + b) % TwoTo(w)
  {
    if b < 64 - w {
      WordOfWindow(x, u, b, w);
    } else {
      WordsDisjoint(x, u, b);
      OrOfDisjoint(ShiftRight(WordAt(x, u), b), ShiftLeft64(WordAt(x, u + 1), 64 - b), 64 - b);
      WordsOfWindow(x, u, b, w);
    }
  }

  /** The digit for an odd window, with the wrapping subtraction of signed bytes. */
  function NafDigit(window: nat, width: nat): int {
    if window < width / 2 then I8(window) else I8(I8(window) - I8(width))
  }

  lemma Wrap(x: int)
    requires -384 <= x < 384
    ensures I8(x) == if x < -128 then x + 256 else if x < 128 then x else x - 256
  {}

  /** The wrapping subtraction of signed bytes is exact. */
  lemma DigitExact(window: nat, half: nat)
    requires 1 <= half <= 128 && window < 2 * half
    ensures NafDigit(window, 2 * half) == if window < half then window else window - 2 * half
  {
    Wrap(window);
    Wrap(2 * half);
    Wrap(I8(window) - I8(2 * half));
  }

  lemma SmallPower(w: nat)
    requires 2 <= w <= 8
    ensures TwoTo(w) == (if w == 2 then 4 else if w == 3 then 8 else if w == 4 then 16 else if w == 5 then 32
                         else if w == 6 then 64 else if w == 7 then 128 else 256)
    ensures TwoTo(w) == 2 * TwoTo(w - 1)
  {
    assert TwoTo(3) == 8;
    assert TwoTo(5) == 32;
    assert TwoTo(8) == 256;
  }

  lemma NafDigitExact(window: nat, w: nat)
    requires 2 <= w <= 8 && window % 2 == 1 && window <= TwoTo(w)
    ensures TwoTo(w) == 2 * TwoTo(w - 1) <= 256
    ensures NafDigit(window, TwoTo(w)) == if window < TwoTo(w - 1) then window else window - TwoTo(w)
    ensures NafDigit(window, TwoTo(w)) % 2 == 1 && -TwoTo(w - 1) < NafDigit(window, TwoTo(w)) < TwoTo(w - 1)
  {
    SmallPower(w);
    DigitExact(window, TwoTo(w - 1));
    assert TwoTo(w - 1) == 2 * TwoTo(w - 2);
  }

  lemma SkipBits(x: nat, pos: nat, k: nat)
    ensures ShiftRight(x, pos) == ShiftRight(x, pos + k) * TwoTo(k) + ShiftRight(x, pos) % TwoTo(k)
  {
    ShiftShift(x, pos, k);
    ShiftSplit(ShiftRight(x, pos), k);
  }

  /** A scalar has no bit at 255 or above. */
  lemma HighBits(x: Scalar, pos: nat)
    ensures pos <= 255 ==> ShiftRight(x, pos) < TwoTo(255 - pos)
    ensures pos >= 255 ==> ShiftRight(x, pos) == 0
  {
    var n := 255;
    ScalarSize(n);
    if pos <= n {
      ShiftBound(x, pos, n - pos);
    } else {
      TwoToMonotone(n, pos);
      ShiftUnique(x, pos, 0, x);
    }
  }

  lemma EvenHalf(carry: nat, bits: nat, r: nat)
    requires carry <= 1 && (carry + bits) % 2 == 0 && bits % 2 == r % 2
    ensures carry + r == (carry + r / 2) * 2
  {}

  lemma LowestBit(r: nat, bits: nat, w: nat)
    requires w >= 1 && bits == r % TwoTo(w)
    ensures bits % 2 == r % 2
  {
    LowBits(r, 1, w - 1);
    assert TwoTo(1) == 2;
  }

  lemma OddPlaces(n: int, c: int, width: int, place: int)
    ensures (n + c * width) * place == n * place + c * (place * width)
  {}

  /** An even window: the carry passes to the next position. */
  lemma EvenStep(x: Scalar, pos: nat, w: nat, carry: nat, bits: nat)
    requires 2 <= w <= 8 && pos < 256 && carry <= 1 && bits == ShiftRight(x, pos) % TwoTo(w)
    requires (carry + bits) % 2 == 0
    ensures (carry + ShiftRight(x, pos)) * TwoTo(pos) == (carry + ShiftRight(x, pos + 1)) * TwoTo(pos + 1)
    ensures pos == 255 ==> carry == 0
  {
    var r := ShiftRight(x, pos);
    LowestBit(r, bits, w);
    EvenHalf(carry, bits, r);
    OddPlaces(0, carry + r / 2, 2, TwoTo(pos));
    assert pos == 255 ==> r == 0 by { HighBits(x, pos); }
  }

  /** An odd window: its digit and the new carry account for it. */
  lemma OddStep(x: nat, pos: nat, w: nat, carry: nat, bits: nat, carry': nat, n: int)
    requires bits == ShiftRight(x, pos) % TwoTo(w)
    requires n == carry + bits - carry' * TwoTo(w)
    ensures (carry + ShiftRight(x, pos)) * TwoTo(pos)
            == n * TwoTo(pos) + (carry' + ShiftRight(x, pos + w)) * TwoTo(pos + w)
  {
    var r' := ShiftRight(x, pos + w);
    SkipBits(x, pos, w);
    TwoToAdd(pos, w);
    assert (carry' + r') * TwoTo(w) == carry' * TwoTo(w) + r' * TwoTo(w);
    OddPlaces(n, carry' + r', TwoTo(w), TwoTo(pos));
  }

  /** No carry leaves the last window. */
  lemma LastWindow(x: Scalar, pos: nat, w: nat, carry: nat, bits: nat)
    requires 2 <= w <= 8 && pos < 256 && carry <= 1 && bits == ShiftRight(x, pos) % TwoTo(w)
    requires (carry + bits) % 2 == 1 && pos + w > 255
    ensures carry + bits < TwoTo(w - 1)
  {
    var r := ShiftRight(x, pos);
    assert r < TwoTo(w - 1) by {
      HighBits(x, pos);
      TwoToMonotone(255 - pos, w - 1);
    }
    assert bits <= r by { ShiftSplit(r, w); Monotone(0, ShiftRight(r, w), TwoTo(w)); }
    assert TwoTo(w - 1) == 2 * TwoTo(w - 2);
  }

  /** A digit at pos keeps the string sparse when every earlier one lies at least w below it. */
  lemma SparseExtend(d: seq<int>, w: nat, pos: nat, digit: int)
    requires w >= 1 && pos < |d| && IsSparse(d, w)
    requires forall i :: 0 <= i < |d| && d[i] != 0 ==> i + w <= pos
    requires digit % 2 == 1 && -TwoTo(w - 1) < digit < TwoTo(w - 1)
    ensures IsSparse(d[pos := digit], w)
  {}

  /** The state of NonAdjacentForm between two windows. */
  ghost predicate NafState(d: seq<int>, x: Scalar, w: nat, pos: nat, carry: nat)
    requires w >= 1
  {
    && |d| == 256 && carry <= 1 && (pos > 255 ==> carry == 0)
    && (forall i :: 0 <= i < |d| && d[i] != 0 ==> i + w <= pos)
    && IsSparse(d, w)
    && Value(d, 1, 256) + (carry + ShiftRight(x, pos)) * TwoTo(pos) == x
  }

  lemma EvenWindow(d: seq<int>, x: Scalar, w: nat, pos: nat, carry: nat, bits: nat)
    requires 2 <= w <= 8 && pos < 256 && NafState(d, x, w, pos, carry)
    requires bits == ShiftRight(x, pos) % TwoTo(w) && (carry + bits) % 2 == 0
    ensures NafState(d, x, w, pos + 1, carry)
  {
    EvenStep(x, pos, w, carry, bits);
  }

  /** The digit of an odd window, and whether it borrows from the next one. */
  method SignedDigit(window: nat, w: nat) returns (digit: int, carry: nat)
    requires 2 <= w <= 8 && window % 2 == 1 && window <= TwoTo(w)
    ensures carry == (if window < TwoTo(w - 1) then 0 else 1) && digit == window - carry * TwoTo(w)
    ensures digit % 2 == 1 && -TwoTo(w - 1) < digit < TwoTo(w - 1)
  {
    var width := TwoTo(w);
    NafDigitExact(window, w);
    carry := if window < width / 2 then 0 else 1;
    digit := NafDigit(window, width);
  }

  lemma NoCarryPast255(x: Scalar, w: nat, pos: nat, carry: nat, bits: nat)
    requires 2 <= w <= 8 && pos < 256 && carry <= 1
    requires bits == ShiftRight(x, pos) % TwoTo(w) && (carry + bits) % 2 == 1
    ensures bits < TwoTo(w) && (pos + w > 255 ==> carry + bits < TwoTo(w - 1))
  {
    ShiftSplit(ShiftRight(x, pos), w);
    if pos + w > 255 {
      LastWindow(x, pos, w, carry, bits);
    }
  }

  lemma OddValue(d: seq<int>, x: Scalar, w: nat, pos: nat, carry: nat, bits: nat, digit: int, carry': nat)
    requires |d| == 256 && pos < 256 && d[pos] == 0
    requires bits == ShiftRight(x, pos) % TwoTo(w) && digit == carry + bits - carry' * TwoTo(w)
    ensures Value(d[pos := digit], 1, 256) + (carry' + ShiftRight(x, pos + w)) * TwoTo(pos + w)
         == Value(d, 1, 256) + (carry + ShiftRight(x, pos)) * TwoTo(pos)
  {
    OddStep(x, pos, w, carry, bits, carry', digit);
    ValueUpdate(d, 1, 256, pos, digit);
  }

  lemma OddWindow(d: seq<int>, x: Scalar, w: nat, pos: nat, carry: nat, bits: nat, digit: int, carry': nat)
    requires 2 <= w <= 8 && pos < 256 && NafState(d, x, w, pos, carry)
    requires bits == ShiftRight(x, pos) % TwoTo(w) && digit == carry + bits - carry' * TwoTo(w)
    requires digit % 2 == 1 && -TwoTo(w - 1) < digit < TwoTo(w - 1)
    requires carry' <= 1 && (pos + w > 255 ==> carry' == 0)
    ensures NafState(d[pos := digit], x, w, pos + w, carry')
  {
    OddValue(d, x, w, pos, carry, bits, digit, carry');
    SparseExtend(d, w, pos, digit);
  }

  lemma Position(pos: nat)
    ensures 64 * (pos / 64) + pos % 64 == pos
  {}

  lemma WindowAtPosition(x: nat, pos: nat, w: nat)
    requires w <= 8
    ensures BitBuffer(x, pos / 64, pos % 64, w) % TwoTo(w) == ShiftRight(x, pos) % TwoTo(w)
  {
    WindowBits(x, pos / 64, pos % 64, w);
    Position(pos);
  }

  /** The bits of the window at pos, read through the bit buffer. */
  method ReadWindow(x: nat, pos: nat, w: nat) returns (bits: nat)
    requires w <= 8
    ensures bits == ShiftRight(x, pos) % TwoTo(w)
  {
    var bitBuf := BitBuffer(x, pos / 64, pos % 64, w);
    WindowAtPosition(x, pos, w);
    bits := bitBuf % TwoTo(w);
  }

  /** The width-w non-adjacent form of a scalar. */
  method NonAdjacentForm(x: Scalar, w: nat) returns (naf: seq<int>)
    requires 2 <= w <= 8
    ensures |naf| == 256 && IsSparse(naf, w) && Value(naf, 1, 256) == x
  {
    var digits := new int[256](_ => 0);
    var pos: nat, carry: nat := 0, 0;
    ValueTrim(digits[..], 1, 0, 256);
    while pos < 256
      invariant NafState(digits[..], x, w, pos, carry)
      decreases 256 - pos
    {
      var bits := ReadWindow(x, pos, w);
      var window := carry + bits;
      ghost var before := digits[..];
      if window % 2 == 0 {
        EvenWindow(before, x, w, pos, carry, bits);
        pos := pos + 1;
      } else {
        NoCarryPast255(x, w, pos, carry, bits);
        var digit, carry' := SignedDigit(window, w);
        OddWindow(before, x, w, pos, carry, bits, digit, carry');
        digits[pos] := digit;
        assert digits[..] == before[pos := digit];
        pos, carry := pos + w, carry';
      }
    }
    HighBits(x, pos);
    naf := digits[..];
  }

  // Radix 16.

  lemma Nibbles(y: nat)
    ensures (y % 256) % 16 == y % 16 && ((y % 256) / 16) % 16 == (y / 16) % 16
  {}

  lemma NibblesOfByte(x: nat, i: nat)
    ensures ByteAt(x, i) % 16 == ShiftRight(x, 4 * (2 * i)) % 16
    ensures (ByteAt(x, i) / 16) % 16 == ShiftRight(x, 4 * (2 * i + 1)) % 16
  {
    var y := ShiftRight(x, 8 * i);
    assert TwoTo(4) == 16;
    ShiftShift(x, 8 * i, 4);
    ShiftSplit(y, 4);
    DivModUnique(y, 16, ShiftRight(y, 4), y % 16);
    assert 8 * i == 4 * (2 * i) && 8 * i + 4 == 4 * (2 * i + 1);
    Nibbles(y);
  }

  /** The state of the recentering loop of ToRadix16 after i digits. */
  ghost predicate Radix16State(d: seq<int>, x: Scalar, i: nat) {
    && |d| == 64 && i <= 63
    && (forall j :: 0 <= j < i ==> -8 <= d[j] < 8)
    && (forall j :: i < j < 64 ==> 0 <= d[j] <= if j == 63 then 7 else 15)
    && 0 <= d[i] <= (if i == 63 then 8 else 16)
    && Value(d, 4, 64) == x
  }

  lemma Recenter(d: seq<int>, x: Scalar, i: nat, carry: int)
    requires i < 63 && Radix16State(d, x, i) && carry == (d[i] + 8) / 16
    ensures Radix16State(d[i := d[i] - carry * 16][i + 1 := d[i + 1] + carry], x, i + 1)
  {
    var e := d[i := d[i] - carry * 16];
    ValueUpdate(d, 4, 64, i, d[i] - carry * 16);
    ValueUpdate(e, 4, 64, i + 1, d[i + 1] + carry);
    assert TwoTo(4 * (i + 1)) == TwoTo(4 * i + 4) == TwoTo(4 * i) * 16 by {
      TwoToAdd(4 * i, 4);
      assert TwoTo(4) == 16;
    }
    assert (-carry * 16) * TwoTo(4 * i) + carry * (TwoTo(4 * i) * 16) == 0;
  }

  lemma NibblesAreScalar(d: seq<int>, x: Scalar)
    requires |d| == 64 && forall j: nat :: j < 64 ==> d[j] == ShiftRight(x, 4 * j) % 16
    ensures Radix16State(d, x, 0)
  {
    var n := 255;
    assert TwoTo(4) == 16;
    PlainDigits(d, x, 4, 64);
    ScalarSize(n);
    ShiftUnique(x, n + 1, 0, x);
    assert TwoTo(4 * 64) == TwoTo(n + 1);
    HighBits(x, 4 * 63);
    assert TwoTo(3) == 8;
  }

  /** A scalar in radix 16, with digits in [-8, 8) and the last one at most 8. */
  method ToRadix16(x: Scalar) returns (digits: seq<int>)
    ensures |digits| == 64 && Value(digits, 4, 64) == x
    ensures (forall i :: 0 <= i < 63 ==> -8 <= digits[i] < 8) && 0 <= digits[63] <= 8
  {
    var output := new int[64](_ => 0);
    for i := 0 to 32
      invariant forall j :: 0 <= j < 2 * i ==> output[j] == ShiftRight(x, 4 * j) % 16
    {
      NibblesOfByte(x, i);
      output[2 * i] := ByteAt(x, i) % 16;
      output[2 * i + 1] := (ByteAt(x, i) / 16) % 16;
    }
    NibblesAreScalar(output[..], x);
    for i := 0 to 63
      invariant Radix16State(output[..], x, i)
    {
      ghost var before := output[..];
      var carry := (output[i] + 8) / 16;
      Recenter(before, x, i, carry);
      output[i] := output[i] - carry * 16;
      output[i + 1] := output[i + 1] + carry;
      assert output[..] == before[i := before[i] - carry * 16][i + 1 := before[i + 1] + carry];
    }
    digits := output[..];
  }

  // Radix 2^w.

  /** The number of digits that may be nonzero. */
  function SizeHint(w: nat): nat
    requires 6 <= w <= 8
  {
    if w == 8 then (256 + w - 1) / w + 1 else (256 + w - 1) / w
  }

  /** The buffer for radix 2^w, which reads nothing beyond the last word. */
  function ShortBitBuffer(x: nat, u: nat, b: nat, w: nat): nat
    requires b < 64 && w <= 8
  {
    if u == 3 then ShiftRight(WordAt(x, u), b) else BitBuffer(x, u, b, w)
  }

  /** The last word holds all the bits above it. */
  lemma HighWord(x: Scalar, u: nat)
    requires u == 3
    ensures WordAt(x, u) == ShiftRight(x, 64 * u)
  {
    var n := 255;
    ScalarSize(n);
    WordSize(0, n - 191);
    ShiftBound(x, 64 * u, n - 64 * u);
    TwoToMonotone(n - 64 * u, n - 191);
  }

  lemma ShortWindow(x: Scalar, pos: nat, w: nat)
    requires w <= 8 && pos < 256
    ensures ShortBitBuffer(x, pos / 64, pos % 64, w) % TwoTo(w) == ShiftRight(x, pos) % TwoTo(w)
  {
    var u, b := pos / 64, pos % 64;
    if u == 3 {
      HighWord(x, u);
      ShiftShift(x, 64 * u, b);
      assert 64 * u + b == pos;
    } else {
      WindowAtPosition(x, pos, w);
    }
  }

  function DigitsCount(w: nat): nat
    requires w > 0
  {
    (256 + w - 1) / w
  }

  lemma DigitsCountIs(w: nat)
    requires 6 <= w <= 8
    ensures DigitsCount(w) == (if w == 6 then 43 else if w == 7 then 37 else 32)
  {}

  /** The state of ToRadix2w after i digits. */
  ghost predicate Radix2wState(d: seq<int>, x: Scalar, w: nat, i: nat, carry: nat)
    requires w > 0
  {
    && |d| == 43 && i <= 43 && carry <= 1
    && (forall j :: 0 <= j < i ==> -TwoTo(w - 1) <= d[j] < TwoTo(w - 1))
    && (forall j :: i <= j < 43 ==> d[j] == 0)
    && Value(d, w, 43) + (carry + ShiftRight(x, w * i)) * TwoTo(w * i) == x
  }

  lemma NextPlace(x: nat, w: nat, i: nat, carry: nat, bits: nat, carry': nat, digit: int)
    requires bits == ShiftRight(x, w * i) % TwoTo(w) && digit == carry + bits - carry' * TwoTo(w)
    ensures (carry + ShiftRight(x, w * i)) * TwoTo(w * i)
         == digit * TwoTo(w * i) + (carry' + ShiftRight(x, w * (i + 1))) * TwoTo(w * (i + 1))
  {
    OddStep(x, w * i, w, carry, bits, carry', digit);
    assert w * i + w == w * (i + 1);
  }

  lemma Radix2wExtend(d: seq<int>, x: Scalar, w: nat, i: nat, carry: nat, bits: nat, carry': nat, digit: int)
    requires w > 0 && i < 43 && Radix2wState(d, x, w, i, carry) && carry' <= 1
    requires bits == ShiftRight(x, w * i) % TwoTo(w) && digit == carry + bits - carry' * TwoTo(w)
    requires -TwoTo(w - 1) <= digit < TwoTo(w - 1)
    ensures Radix2wState(d[i := digit], x, w, i + 1, carry')
  {
    NextPlace(x, w, i, carry, bits, carry', digit);
    ValueUpdate(d, w, 43, i, digit);
  }

  /** Recenter a coefficient, with the conversion of the digit to a signed byte. */
  method RecenterCoefficient(coef: nat, w: nat) returns (carry: nat, digit: int)
    requires 6 <= w <= 8 && coef <= TwoTo(w)
    ensures carry == (if coef < TwoTo(w - 1) then 0 else 1)
    ensures digit == coef - carry * TwoTo(w) && -TwoTo(w - 1) <= digit < TwoTo(w - 1)
  {
    var radix := TwoTo(w);
    SmallPower(w);
    carry := (coef + radix / 2) / radix;
    if coef < TwoTo(w - 1) {
      DivModUnique(coef + radix / 2, radix, 0, coef + radix / 2);
    } else {
      DivModUnique(coef + radix / 2, radix, 1, coef - radix / 2);
    }
    Wrap(coef - carry * radix);
    digit := I8(coef - carry * radix);
  }

  /** What ToRadix2w promises of its digits. */
  ghost predicate IsRadix2w(d: seq<int>, x: Scalar, w: nat)
    requires 6 <= w <= 8
  {
    && |d| == 43 && Value(d, w, 43) == x
    && (forall i :: 0 <= i < 43 ==> -TwoTo(w - 1) <= d[i] < TwoTo(w - 1))
    && (forall i :: SizeHint(w) <= i < 43 ==> d[i] == 0)
  }

  lemma NoFinalCarry(radix: nat, t: nat, bound: nat, v: int, carry: nat, x: nat)
    requires (radix == 64 || radix == 128) && t >= 8 * bound && x < bound && carry <= 1
    requires (radix - 1) * v >= -(radix / 2) * (t - 1) && v + carry * t == x
    ensures carry == 0
  {
    assert carry == 1 ==> v == x - t;
  }

  lemma PlaceBounds(lo: int, hi: int, e: int, c: int, v: int, digit: int)
    requires lo * e <= v <= hi * e && lo <= digit <= hi && c >= 0
    ensures lo * (e + c) <= v + digit * c <= hi * (e + c)
  {
    Monotone(lo, digit, c);
    Monotone(digit, hi, c);
    assert lo * (e + c) == lo * e + lo * c && hi * (e + c) == hi * e + hi * c;
  }

  lemma DigitBounds(h: int, t: int, v: int, digit: int)
    requires t >= 0 && h > 0 && -h <= digit < h
    requires -h * (t - 1) <= (2 * h - 1) * v <= (h - 1) * (t - 1)
    ensures -h * (t * (2 * h) - 1) <= (2 * h - 1) * (v + digit * t) <= (h - 1) * (t * (2 * h) - 1)
  {
    var c := (2 * h - 1) * t;
    PlaceBounds(-h, h - 1, t - 1, c, (2 * h - 1) * v, digit);
    assert t * (2 * h) - 1 == (t - 1) + c;
    assert (2 * h - 1) * (v + digit * t) == (2 * h - 1) * v + digit * c;
  }

  /** What n signed digits of b bits can be worth: between the values of the least and of the greatest digits. */
  lemma {:induction false} ValueBounds(d: seq<int>, b: nat, n: nat)
    requires b > 0 && n <= |d| && forall j :: 0 <= j < n ==> -TwoTo(b - 1) <= d[j] < TwoTo(b - 1)
    ensures -TwoTo(b - 1) * (TwoTo(b * n) - 1) <= (TwoTo(b) - 1) * Value(d, b, n)
    ensures (TwoTo(b) - 1) * Value(d, b, n) <= (TwoTo(b - 1) - 1) * (TwoTo(b * n) - 1)
  {
    if n == 0 {
      assert TwoTo(b * n) == 1;
    } else {
      ValueBounds(d, b, n - 1);
      assert b * n == b * (n - 1) + b;
      TwoToAdd(b * (n - 1), b);
      DigitBounds(TwoTo(b - 1), TwoTo(b * (n - 1)), Value(d, b, n - 1), d[n - 1]);
    }
  }

  lemma FinalCarry(d: seq<int>, x: Scalar, w: nat, n: nat, carry: nat)
    requires 6 <= w <= 7 && n <= |d| && w * n >= 258 && carry <= 1
    requires forall j :: 0 <= j < n ==> -TwoTo(w - 1) <= d[j] < TwoTo(w - 1)
    requires Value(d, w, n) + carry * TwoTo(w * n) == x
    ensures carry == 0
  {
    var k := 255;
    SmallPower(w);
    ValueBounds(d, w, n);
    ScalarSize(k);
    TwoToMonotone(k + 3, w * n);
    TwoToAdd(k, 3);
    assert TwoTo(3) == 8;
    NoFinalCarry(TwoTo(w), TwoTo(w * n), TwoTo(k), Value(d, w, n), carry, x);
  }

  /** For w below 8 the final carry is zero, whatever the loop leaves. */
  lemma Radix2wDone(d: seq<int>, x: Scalar, w: nat, carry: nat)
    requires 6 <= w <= 7 && Radix2wState(d, x, w, DigitsCount(w), carry)
    ensures carry == 0 && IsRadix2w(d, x, w)
  {
    DigitsCountIs(w);
    HighBits(x, w * DigitsCount(w));
    ValueTrim(d, w, DigitsCount(w), 43);
    FinalCarry(d, x, w, DigitsCount(w), carry);
    assert TwoTo(w - 1) >= 1;
  }

  /** For w = 8 the final carry goes into the extra digit. */
  lemma Radix256Done(d: seq<int>, x: Scalar, carry: nat)
    requires Radix2wState(d, x, 8, 32, carry)
    ensures IsRadix2w(d[32 := carry], x, 8)
  {
    HighBits(x, 8 * 32);
    ValueUpdate(d, 8, 43, 32, carry);
    assert TwoTo(7) == 128;
  }

  method ReadShortWindow(x: Scalar, pos: nat, w: nat) returns (bits: nat)
    requires w <= 8 && pos < 256
    ensures bits == ShiftRight(x, pos) % TwoTo(w) && bits < TwoTo(w)
  {
    var bitBuf := ShortBitBuffer(x, pos / 64, pos % 64, w);
    ShortWindow(x, pos, w);
    bits := bitBuf % TwoTo(w);
  }

  lemma OffsetBound(w: nat, i: nat)
    requires 6 <= w <= 8 && i < DigitsCount(w)
    ensures w * i < 256
  {
    DigitsCountIs(w);
  }

  /** The last step of ToRadix2w. */
  method FoldCarry(output: array<int>, x: Scalar, w: nat, carry: nat)
    requires 6 <= w <= 8 && output.Length == 43
    requires Radix2wState(output[..], x, w, DigitsCount(w), carry)
    modifies output
    ensures IsRadix2w(output[..], x, w)
  {
    var count := DigitsCount(w);
    ghost var before := output[..];
    DigitsCountIs(w);
    if w == 8 {
      Radix256Done(before, x, carry);
      output[count] := output[count] + carry;
      assert output[..] == before[32 := carry];
    } else {
      Radix2wDone(before, x, w, carry);
      output[count - 1] := output[count - 1] + I8(carry * TwoTo(w));
      assert output[..] == before;
    }
  }

  /** A scalar in radix 2^w, with digits that are signed bytes in [-2^(w-1), 2^(w-1)). */
  method ToRadix2w(x: Scalar, w: nat) returns (digits: seq<int>)
    requires 6 <= w <= 8
    ensures IsRadix2w(digits, x, w)
  {
    var carry: nat := 0;
    var output := new int[43](_ => 0);
    var count := DigitsCount(w);
    DigitsCountIs(w);
    ValueTrim(output[..], w, 0, 43);
    var i := 0;
    while i < count
      invariant 0 <= i <= count <= 43
      invariant Radix2wState(output[..], x, w, i, carry)
    {
      ghost var before := output[..];
      OffsetBound(w, i);
      var bits := ReadShortWindow(x, w * i, w);
      var carry', digit := RecenterCoefficient(carry + bits, w);
      Radix2wExtend(before, x, w, i, carry, bits, carry', digit);
      output[i] := digit;
      assert output[..] == before[i := digit];
      carry, i := carry', i + 1;
    }
    FoldCarry(output, x, w, carry);
    digits := output[..];
  }

  lemma ExtraDigit(t: nat, v: int, digit: int, x: nat)
    requires -128 * (t - 1) <= 255 * v <= 127 * (t - 1) && v + digit * t == x && 2 * x < t
    ensures digit == if 255 * x > 127 * (t - 1) then 1 else 0
  {
    if digit >= 2 {
      Monotone(2, digit, t);
    } else if digit <= -1 {
      Monotone(digit, -1, t);
    }
  }

  /** For w = 8 the extra digit is one exactly for the scalars that 32 digits cannot express. */
  lemma CarryOutOfRadix256(d: seq<int>, x: Scalar)
    requires IsRadix2w(d, x, 8)
    ensures d[32] == if 255 * x > 127 * (2 * SCALAR_BOUND - 1) then 1 else 0
  {
    var n := 32;
    ValueTrim(d, 8, n + 1, 43);
    ValueBounds(d, 8, n);
    ScalarSize(8 * n - 1);
    assert TwoTo(8 * n) == 2 * SCALAR_BOUND;
    assert TwoTo(7) == 128;
    ExtraDigit(2 * SCALAR_BOUND, Value(d, 8, n), d[n], x);
  }
}
