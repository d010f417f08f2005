/** Byte strings and the integers that they spell in little-endian order. */
module ByteStrings {
  import opened Congruence
  import opened ByteConversion
  import opened Edwards
  import opened Recoding

  type Bytes = seq<bv8>

  function LittleEndian(b: Bytes): nat {
    if |b| == 0 then 0 else b[0] as nat + 256 * LittleEndian(b[1..])
  }

  /** The n lowest bytes of x. */
  function Spell(x: nat, n: nat): (b: Bytes)
    ensures |b| == n
  {
    if n == 0 then [] else [(x % 256) as bv8] + Spell(x / 256, n - 1)
  }

  lemma EightMore(n: nat)
    ensures TwoTo(8 * (n + 1)) == 256 * TwoTo(8 * n)
  {
    TwoToAdd(8, 8 * n);
    assert TwoTo(8) == 256;
  }

  lemma {:induction false} LittleEndianBound(b: Bytes)
    ensures LittleEndian(b) < TwoTo(8 * |b|)
  {
    if |b| > 0 {
      LittleEndianBound(b[1..]);
      EightMore(|b| - 1);
    }
  }

  lemma DropByte(x: nat, m: nat)
    requires x < 256 * m
    ensures x / 256 < m && x % 256 + 256 * (x / 256) == x
  {}

  /** Spelling and reading are mutually inverse. */
  lemma {:induction false} ReadSpelled(x: nat, n: nat)
    requires x < TwoTo(8 * n)
    ensures LittleEndian(Spell(x, n)) == x
  {
    if n > 0 {
      EightMore(n - 1);
      DropByte(x, TwoTo(8 * (n - 1)));
      ByteOf(x % 256);
      ReadSpelled(x / 256, n - 1);
      assert Spell(x, n)[1..] == Spell(x / 256, n - 1);
    }
  }

  lemma LowByte(y: nat, x: nat, h: nat)
    requires y == x + 256 * h && x < 256
    ensures y % 256 == x && y / 256 == h
  {}

  lemma {:induction false} SpellRead(b: Bytes)
    ensures Spell(LittleEndian(b), |b|) == b
  {
    if |b| > 0 {
      SpellRead(b[1..]);
      ByteBack(b[0]);
      LowByte(LittleEndian(b), b[0] as nat, LittleEndian(b[1..]));
      assert b == [b[0]] + b[1..];
    }
  }

  lemma MoveByte(x: int, y: int, m: int, z: int)
    ensures x + 256 * (y + m * z) == (x + 256 * y) + (256 * m) * z
  {}

  lemma {:induction false} ReadAppended(a: Bytes, b: Bytes)
    ensures LittleEndian(a + b) == LittleEndian(a) + TwoTo(8 * |a|) * LittleEndian(b)
  {
    if |a| == 0 {
      assert a + b == b;
    } else {
      ReadAppended(a[1..], b);
      EightMore(|a| - 1);
      assert (a + b)[1..] == a[1..] + b;
      MoveByte(a[0] as nat, LittleEndian(a[1..]), TwoTo(8 * (|a| - 1)), LittleEndian(b));
    }
  }

  lemma ThirtyTwoBytes(n: nat)
    requires n == 32
    ensures TwoTo(8 * n) == 2 * TOP_BIT && TwoTo(8 * (n - 1)) == TOP_BIT / 128
  {
    ScalarSize(8 * n - 1);
    EightMore(n - 1);
  }

  /** The integer of 32 bytes. */
  function Read32(b: Bytes): Bytes32
    requires |b| == 32
  {
    LittleEndianBound(b);
    ThirtyTwoBytes(|b|);
    LittleEndian(b)
  }

  function Spell32(x: Bytes32): Bytes {
    Spell(x, 32)
  }

  lemma RoundTrip32(x: Bytes32, b: Bytes)
    ensures Read32(Spell32(x)) == x
    ensures |b| == 32 ==> Spell32(Read32(b)) == b
  {
    var n := |Spell32(x)|;
    ThirtyTwoBytes(n);
    ReadSpelled(x, n);
    SpellRead(b);
  }

  /** The last byte of 32 holds the high bits. */
  lemma TopByte(b: Bytes)
    requires |b| == 32
    ensures Read32(b) == LittleEndian(b[..31]) + (TOP_BIT / 128) * (b[31] as nat)
    ensures LittleEndian(b[..31]) < TOP_BIT / 128
  {
    assert b == b[..31] + [b[31]];
    ReadAppended(b[..31], [b[31]]);
    LittleEndianBound(b[..31]);
    ThirtyTwoBytes(|b|);
    assert LittleEndian([b[31]]) == b[31] as nat;
  }
}
