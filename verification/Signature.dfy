/** Padding a signature to its full width, and comparing a recovered integer with a digest. */
module Signature {
  import opened B = Base64

  const SIGNATURE_LENGTH: nat := 512

  /** A byte as a number. */
  type Octet = n: nat | n < 256

  function Values(s: seq<Byte>): (r: seq<Octet>)
    ensures |r| == |s| && forall i :: 0 <= i < |s| ==> r[i] == s[i] as nat
  {
    if s == [] then [] else Values(s[..|s| - 1]) + [s[|s| - 1] as nat]
  }

  function Zeros(n: nat): (z: seq<Octet>)
    ensures |z| == n && forall i :: 0 <= i < n ==> z[i] == 0
  {
    seq(n, i => 0)
  }

  /** The big-endian value of a byte string. */
  function BigEndian(s: seq<Octet>): nat {
    if s == [] then 0 else BigEndian(s[..|s| - 1]) * 256 + s[|s| - 1]
  }

  /** `signFile`'s in-place shift: `size` bytes move to the end of the buffer, zeros fill the front. */
  method PadInPlace(signature: array<Octet>, size: nat)
    requires size <= signature.Length
    modifies signature
    ensures signature[..] == Zeros(signature.Length - size) + old(signature[..])[..size]
  {
    if size < signature.Length {
      var padding := signature.Length - size;
      var i := signature.Length - 1;
      while i >= 0
        invariant -1 <= i < signature.Length
        invariant forall k :: 0 <= k <= i ==> signature[k] == old(signature[k])
        invariant forall k :: i < k < signature.Length ==>
            signature[k] == if k >= padding then old(signature[k - padding]) else 0
      {
        if i >= padding {
          signature[i] := signature[i - padding];
        } else {
          signature[i] := 0;
        }
        i := i - 1;
      }
    }
  }

  lemma {:induction false} ZerosAddNothing(n: nat, s: seq<Octet>)
    ensures BigEndian(Zeros(n) + s) == BigEndian(s)
    decreases |s|, n
  {
    var all := Zeros(n) + s;
    if s != [] {
      assert all[..|all| - 1] == Zeros(n) + s[..|s| - 1];
      ZerosAddNothing(n, s[..|s| - 1]);
    } else if n > 0 {
      assert all[..|all| - 1] == Zeros(n - 1) + s;
      ZerosAddNothing(n - 1, s);
    }
  }

  lemma BigEndianSplits(s: seq<Octet>)
    requires s != []
    ensures BigEndian(s) / 256 == BigEndian(s[..|s| - 1]) && BigEndian(s) % 256 == s[|s| - 1]
  {}

  lemma {:induction false} BigEndianInjective(s: seq<Octet>, t: seq<Octet>)
    requires |s| == |t| && BigEndian(s) == BigEndian(t)
    ensures s == t
    decreases |s|
  {
    if s != [] {
      BigEndianSplits(s);
      BigEndianSplits(t);
      BigEndianInjective(s[..|s| - 1], t[..|t| - 1]);
      assert s == s[..|s| - 1] + [s[|s| - 1]] && t == t[..|t| - 1] + [t[|t| - 1]];
    }
  }

  // ----- The recovered integer -----

  /** `Integer::ByteCount`. */
  function ByteCount(t: nat): nat {
    if t == 0 then 0 else 1 + ByteCount(t / 256)
  }

  /** `Integer::GetByte`, 0 being the least significant. */
  function GetByte(t: nat, i: nat): Octet {
    if i == 0 then t % 256 else GetByte(t / 256, i - 1)
  }

  /** The `ByteCount` bytes of `t`, most significant first. */
  function BytesOf(t: nat): (s: seq<Octet>)
    ensures |s| == ByteCount(t)
  {
    if t == 0 then [] else BytesOf(t / 256) + [t % 256]
  }

  lemma {:induction false} BytesOfValue(t: nat)
    ensures BigEndian(BytesOf(t)) == t
  {
    if t != 0 {
      BytesOfValue(t / 256);
      assert BytesOf(t)[..ByteCount(t) - 1] == BytesOf(t / 256);
    }
  }

  lemma {:induction false} GetByteIs(t: nat, i: nat)
    requires i < ByteCount(t)
    ensures GetByte(t, i) == BytesOf(t)[ByteCount(t) - 1 - i]
  {
    if i > 0 {
      GetByteIs(t / 256, i - 1);
    }
  }

  lemma {:induction false} FitsItsWidth(s: seq<Octet>)
    ensures ByteCount(BigEndian(s)) <= |s|
    decreases |s|
  {
    if s != [] {
      BigEndianSplits(s);
      FitsItsWidth(s[..|s| - 1]);
    }
  }

  /** The end of `checkSignature`: `t` is the recovered integer and `h` the digest. */
  method MatchesDigest(t: nat, h: seq<Octet>) returns (ok: bool)
    ensures ok <==> t != 0 && t == BigEndian(h)
  {
    var s := Zeros(|h|);
    var i := ByteCount(t);
    FitsItsWidth(h);
    if i > |s| {
      return false;
    }
    var buf := 0;
    while i > 0
      invariant 0 <= i <= ByteCount(t) <= |h| == |s|
      invariant buf == ByteCount(t) - i
      invariant s[..buf] == BytesOf(t)[..buf]
      invariant s[buf..] == Zeros(|h| - buf)
    {
      i := i - 1;
      GetByteIs(t, i);
      s := s[buf := GetByte(t, i)];
      buf := buf + 1;
    }
    var size := ByteCount(t);
    if size == 0 {
      return false;
    }
    if size < |h| {
      s := Zeros(|h| - size) + s;
      s := s[..|h|];
    }
    assert s == Zeros(|h| - size) + BytesOf(t);
    ZerosAddNothing(|h| - size, BytesOf(t));
    BytesOfValue(t);
    if BigEndian(h) == t {
      BigEndianInjective(s, h);
    }
    ok := s == h;
  }

  /** `checkSignature`: `recover` stands for the public-key operation. The first 512 decoded bytes must be
      there; their recovered integer must be the digest's value, and not zero. */
  method CheckSignature(base64Signature: seq<Byte>, recover: seq<Byte> -> nat, h: seq<Octet>) returns (ok: bool)
    ensures var bytes := Decoded(base64Signature);
            ok <==> |bytes| >= SIGNATURE_LENGTH
                    && recover(bytes[..SIGNATURE_LENGTH]) != 0
                    && recover(bytes[..SIGNATURE_LENGTH]) == BigEndian(h)
  {
    var signature := new Byte[SIGNATURE_LENGTH];
    TerminatorEndsDigits(base64Signature);
    var l;
    ghost var lookedAt;
    l, lookedAt := Atob(base64Signature + [0], signature, SIGNATURE_LENGTH);
    if l != SIGNATURE_LENGTH {
      return false;
    }
    assert signature[..] == Decoded(base64Signature)[..SIGNATURE_LENGTH];
    ok := MatchesDigest(recover(signature[..]), h);
  }

  // ----- From signer to checker -----

  /** A signature padded to full width decodes, after its trip through the manifest, to the 512 bytes the
      checker insists on, with the integer it stood for. */
  lemma PaddedSignatureArrives(raw: seq<Octet>, padded: seq<Byte>, after: seq<Byte>)
    requires |raw| <= SIGNATURE_LENGTH && Values(padded) == Zeros(SIGNATURE_LENGTH - |raw|) + raw
    requires after == [] || From64(after[0]) == INVALID
    ensures |Decoded(Encoded(padded) + after)| == SIGNATURE_LENGTH
    ensures BigEndian(Values(Decoded(Encoded(padded) + after))) == BigEndian(raw)
  {
    DecodedEncoded(padded, after);
    ZerosAddNothing(SIGNATURE_LENGTH - |raw|, raw);
    assert |padded| == |Values(padded)|;
  }

  /** Its text fits a manifest line: 683 characters, none of them a newline or a NUL. */
  lemma SignatureTextFitsALine(padded: seq<Byte>)
    requires |padded| == SIGNATURE_LENGTH
    ensures |Encoded(padded)| == 683
    ensures forall i :: 0 <= i < |Encoded(padded)| ==> Encoded(padded)[i] != 0 && Encoded(padded)[i] != 10
  {
    EncodedLengthIs(padded);
    CharsAreStrict(Encode(padded));
  }

  /** Without the padding a shorter signature would always be rejected: the checker wants 512 bytes. */
  lemma UnpaddedIsRejected(raw: seq<Byte>, after: seq<Byte>)
    requires after == [] || From64(after[0]) == INVALID
    ensures |Decoded(Encoded(raw) + after)| >= SIGNATURE_LENGTH <==> |raw| >= SIGNATURE_LENGTH
  {
    DecodedEncoded(raw, after);
  }
}
