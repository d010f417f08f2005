/** Secret keys: their expansion, and the two routines that clamp a scalar. */
module SecretKeys {
  import opened Digits
  import opened Edwards
  import opened Recoding
  import opened ByteConversion
  import opened ByteStrings
  import opened ScalarArithmetic

  /** Clamping clears the three lowest bits and bit 255, and sets bit 254. */
  function Clamp(x: Bytes32): nat {
    x % (TOP_BIT / 2) - x % 8 + TOP_BIT / 2
  }

  lemma EighthOfHalf(x: nat)
    ensures (x - x % 8) % 8 == 0
  {}

  lemma Multiple8(y: nat, q: nat, k: nat, x: nat)
    requires x == (8 * k) * q + y
    ensures x % 8 == y % 8 && (y - x % 8 + 8 * k) % 8 == 0
  {
    assert x == 8 * (k * q) + y;
  }

  /**
    A clamped scalar is a multiple of the cofactor with bit 254 as its highest bit; the bits from 3 to 253 are
    kept, and clamping again has no effect.
  */
  lemma ClampContract(x: Bytes32)
    ensures Clamp(x) % 8 == 0 && TOP_BIT / 2 <= Clamp(x) < TOP_BIT
    ensures (Clamp(x) - TOP_BIT / 2) / 8 == (x % (TOP_BIT / 2)) / 8
    ensures Clamp(Clamp(x)) == Clamp(x)
  {
    EighthOfHalf(x % (TOP_BIT / 2));
    EighthOfHalf(x);
    assert TOP_BIT / 2 == 8 * (TOP_BIT / 16);
    assert x == (TOP_BIT / 2) * (x / (TOP_BIT / 2)) + x % (TOP_BIT / 2);
    Multiple8(x % (TOP_BIT / 2), x / (TOP_BIT / 2), TOP_BIT / 16, x);
  }

  // The masks.

  lemma Low8(a: nat, h: nat)
    ensures (a + 256 * h) % 8 == a % 8
  {
    assert a + 256 * h == a + 8 * (32 * h);
  }

  lemma FirstByte(b: Bytes, c: Bytes)
    requires |b| == |c| > 0 && b[1..] == c[1..] && c[0] as nat == b[0] as nat - b[0] as nat % 8
    ensures LittleEndian(c) == LittleEndian(b) - LittleEndian(b) % 8
  {
    var x, h := b[0] as nat, LittleEndian(b[1..]);
    assert LittleEndian(b) == x + 256 * h && LittleEndian(c) == x - x % 8 + 256 * h;
    Low8(x, h);
  }

  lemma HighParts(lo: nat, q: nat, r: nat, k: nat)
    requires lo < k && r < 64
    ensures k * (64 * q + r) == (64 * k) * q + k * r
    ensures (lo + k * (64 * q + r)) % (64 * k) == lo + k * r
  {
    var x := lo + k * (64 * q + r);
    assert k * (64 * q + r) == (64 * k) * q + k * r;
    assert k * r <= k * 63;
    DivMod(x, 64 * k);
    DivModUnique(x, 64 * k, q, lo + k * r);
  }

  lemma Low8OfParts(lo: nat, hi: nat, j: nat)
    ensures (lo + (8 * j) * hi) % 8 == lo % 8
  {
    assert lo + (8 * j) * hi == lo + 8 * (j * hi);
  }

  /** The remainders that clamping takes, by parts. */
  lemma PartsOfClamp(lo: nat, hi: nat, j: nat)
    requires lo < 8 * j
    ensures var x := lo + (8 * j) * hi;
            x % (64 * (8 * j)) - x % 8 + 64 * (8 * j) == (lo - lo % 8) + (8 * j) * (64 + hi % 64)
  {
    HighParts(lo, hi / 64, hi % 64, 8 * j);
    Low8OfParts(lo, hi, j);
  }

  lemma ClampedParts(lo: nat, lo': nat, hi: nat, hi': nat)
    requires lo < TOP_BIT / 128 && hi < 256 && lo' == lo - lo % 8 && hi' == 64 + hi % 64
    ensures 0 <= lo + (TOP_BIT / 128) * hi < 2 * TOP_BIT
    ensures lo' + (TOP_BIT / 128) * hi' == Clamp(lo + (TOP_BIT / 128) * hi)
  {
    PartsOfClamp(lo, hi, TOP_BIT / 1024);
  }

  /** The string with its first byte and its last byte masked. */
  lemma MaskedIsClamped(b: Bytes, c: Bytes)
    requires |b| == |c| == 32 && c[0] == b[0] & 248 && c[31] == (b[31] & 127) | 64 && b[1..31] == c[1..31]
    ensures Read32(c) == Clamp(Read32(b))
  {
    MaskLow(b[0]);
    MaskHigh(b[31]);
    TopByte(b);
    TopByte(c);
    FirstByte(b[..31], c[..31]);
    ClampedParts(LittleEndian(b[..31]), LittleEndian(c[..31]), b[31] as nat, c[31] as nat);
  }

  // The routines.

  datatype ExpandedSecretKey = ExpandedSecretKey(key: Scalar, nonce: Bytes)

  /** Splits the hash of a secret key into a clamped scalar and a nonce. */
  method Expand(hash: Bytes) returns (expanded: ExpandedSecretKey)
    requires |hash| == 64
    ensures expanded.key == Clamp(Read32(hash[..32])) && expanded.nonce == hash[32..]
  {
    var lower := new bv8[32](i requires 0 <= i < 32 => hash[i]);
    var upper := hash[32..64];
    assert lower[..] == hash[..32];
    lower[0] := lower[0] & 248;
    lower[31] := lower[31] & 63;
    lower[31] := lower[31] | 64;
    MaskHigh(hash[31]);
    MaskedIsClamped(hash[..32], lower[..]);
    ClampContract(Read32(hash[..32]));
    expanded := ExpandedSecretKey(FromBits(Read32(lower[..])), upper);
  }

  /** The clamping of the derivation of public keys, with another mask for the last byte. */
  method MangleScalarBits(bits: array<bv8>)
    requires bits.Length == 32
    modifies bits
    ensures Read32(bits[..]) == Clamp(Read32(old(bits[..])))
    ensures FromBits(Read32(bits[..])) == Clamp(Read32(old(bits[..])))
  {
    ghost var b := bits[..];
    bits[0] := bits[0] & 248;
    bits[31] := bits[31] & 127;
    bits[31] := bits[31] | 64;
    MaskedIsClamped(b, bits[..]);
    ClampContract(Read32(b));
  }
}
