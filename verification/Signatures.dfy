/** The encoding of signatures, which admits one string for each signature. */
module Signatures {
  import opened Options
  import opened Edwards
  import opened Recoding
  import opened ByteConversion
  import opened ByteStrings
  import opened ScalarArithmetic

  datatype SignatureError = BytesLengthError | ScalarFormatError | PointDecompressionError | ArrayLengthError
      | VerifyError

  datatype InternalSignature = InternalSignature(R: Bytes32, s: Scalar)

  /** Accepts a scalar at once when its four high bits are unset, and otherwise checks that it is reduced. */
  function CheckScalar(bytes: Bytes): Result<Scalar, SignatureError>
    requires |bytes| == 32
  {
    if bytes[31] & 240 == 0 then Ok(FromBits(Read32(bytes)))
    else match FromCanonicalBytes(Read32(bytes))
      case None => Err(ScalarFormatError)
      case Some(x) => Ok(x)
  }

  function SignatureToBytes(sig: InternalSignature): Bytes {
    Spell32(sig.R) + Spell32(sig.s)
  }

  function SignatureFromBytes(bytes: Bytes): Result<InternalSignature, SignatureError> {
    if |bytes| != 64 then Err(BytesLengthError)
    else
      match CheckScalar(bytes[32..])
      case Err(e) => Err(e)
      case Ok(s) => Ok(InternalSignature(Read32(bytes[..32]), s))
  }

  lemma BelowNibble(lo: nat, hi: nat, k: nat)
    requires lo < k
    ensures lo + k * hi < k * 16 <==> hi < 16
  {
    if hi < 16 {
      assert k * hi <= k * 15;
    } else {
      assert k * hi >= k * 16;
    }
  }

  /** The four high bits are those from 2^252 on. */
  lemma HighBitsUnset(bytes: Bytes)
    requires |bytes| == 32
    ensures bytes[31] & 240 == 0 <==> Read32(bytes) < TOP_BIT / 8
  {
    HighNibble(bytes[31]);
    TopByte(bytes);
    BelowNibble(LittleEndian(bytes[..31]), bytes[31] as nat, TOP_BIT / 128);
  }

  /** Both paths of the check accept exactly the reduced scalars. */
  lemma CheckScalarContract(bytes: Bytes)
    requires |bytes| == 32
    ensures CheckScalar(bytes) == if Read32(bytes) < L then Ok(Read32(bytes)) else Err(ScalarFormatError)
  {
    HighBitsUnset(bytes);
    FromCanonicalBytesContract(Read32(bytes));
  }

  /** A signature survives encoding and decoding exactly when its scalar is reduced. */
  lemma SignatureRoundTrip(sig: InternalSignature)
    ensures SignatureFromBytes(SignatureToBytes(sig)) == if sig.s < L then Ok(sig) else Err(ScalarFormatError)
  {
    var b := SignatureToBytes(sig);
    assert b[..32] == Spell32(sig.R) && b[32..] == Spell32(sig.s);
    RoundTrip32(sig.R, b[..32]);
    RoundTrip32(sig.s, b[32..]);
    CheckScalarContract(b[32..]);
  }

  /** No two strings are decoded to the same signature. */
  lemma SignatureReencode(bytes: Bytes)
    requires SignatureFromBytes(bytes).Ok?
    ensures SignatureToBytes(SignatureFromBytes(bytes).value) == bytes
    ensures SignatureFromBytes(bytes).value.s < L
  {
    CheckScalarContract(bytes[32..]);
    RoundTrip32(0, bytes[..32]);
    RoundTrip32(0, bytes[32..]);
    assert bytes == bytes[..32] + bytes[32..];
  }
}
