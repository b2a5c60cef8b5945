/** The updater's Base64 codec (section 5 of RFC 4648, without padding): `btoa` and `atob`. */
module Base64 {

  type Byte = bv8

  function To64(x: Byte): Byte {
    var c := x & 63;
    if c < 26 then c + 65
    else if c < 52 then c - 26 + 97
    else if c < 62 then c - 52 + 48
    else if c == 62 then 45
    else 95
  }

  const INVALID: Byte := 255

  function From64(c: Byte): Byte {
    if 65 <= c <= 90 then c - 65
    else if 97 <= c <= 122 then c - 97 + 26
    else if 48 <= c <= 57 then c - 48 + 52
    else if c == 45 || c == 43 then 62
    else if c == 95 || c == 47 then 63
    else INVALID
  }

  lemma ToFrom64(x: Byte)
    requires x < 64
    ensures From64(To64(x)) == x
  {}

  /** Decoding accepts two spellings of the last two digits; encoding writes `-` and `_`. */
  lemma FromTo64(c: Byte)
    ensures From64(c) == INVALID || From64(c) < 64
    ensures From64(c) != INVALID ==> (To64(From64(c)) == c <==> c != 43 && c != 47)
  {}

  // ----- The alphabet of section 5 of RFC 4648 -----

  const UPPER := "ABCDEFGHIJKLMNOPQRSTUVWXYZ"
  const LOWER := "abcdefghijklmnopqrstuvwxyz"
  const DECIMAL := "0123456789"

  lemma UpperAt(i: nat)
    requires i < 26
    ensures |UPPER| == 26 && UPPER[i] as int == 65 + i
  {}

  lemma LowerAt(i: nat)
    requires i < 26
    ensures |LOWER| == 26 && LOWER[i] as int == 97 + i
  {}

  lemma DecimalAt(i: nat)
    requires i < 10
    ensures |DECIMAL| == 10 && DECIMAL[i] as int == 48 + i
  {}

  /** The table: 26 capitals, 26 small letters, ten digits, minus and underline. */
  function Alphabet(i: nat): char
    requires i < 64
  {
    if i < 26 then UpperAt(i); UPPER[i]
    else if i < 52 then LowerAt(i - 26); LOWER[i - 26]
    else if i < 62 then DecimalAt(i - 52); DECIMAL[i - 52]
    else if i == 62 then '-'
    else '_'
  }

  lemma ToInt(x: Byte)
    ensures x < 26 ==> (x + 65) as int == x as int + 65
    ensures 26 <= x < 52 ==> (x - 26 + 97) as int == x as int + 71
    ensures 52 <= x < 62 ==> (x - 52 + 48) as int == x as int - 4
    ensures x < 64 ==> x & 63 == x
  {}

  /** Digits are written with the table's characters; minus and underline are also read as plus and slash, and
      nothing else is read as a digit. */
  lemma AlphabetExactly(x: Byte, c: Byte)
    ensures x < 64 ==> To64(x) as int == Alphabet(x as int) as int
    ensures From64(c) != INVALID <==> c == 43 || c == 47 || exists d: Byte :: d < 64 && c == To64(d)
    ensures From64('+' as int as Byte) == 62 && From64('/' as int as Byte) == 63
  {
    ToInt(x);
    if x < 64 {
      var i := x as int;
      if i < 26 {
        UpperAt(i);
      } else if i < 52 {
        LowerAt(i - 26);
      } else if i < 62 {
        DecimalAt(i - 52);
      }
    }
    FromTo64(c);
    if From64(c) != INVALID && c != 43 && c != 47 {
      assert From64(c) < 64 && c == To64(From64(c));
    }
    forall d: Byte | d < 64 ensures From64(To64(d)) == d {
      ToFrom64(d);
    }
  }

  // ----- Reference: the 6-bit digits of a byte string -----

  // The four digits of three bytes, and the three bytes of four digits.
  function E0(x: Byte): Byte { x >> 2 }
  function E1(x: Byte, y: Byte): Byte { ((x << 4) | (y >> 4)) & 63 }
  function E2(y: Byte, z: Byte): Byte { ((y << 2) | (z >> 6)) & 63 }
  function E3(z: Byte): Byte { z & 63 }
  function D0(a: Byte, b: Byte): Byte { (a << 2) | (b >> 4) }
  function D1(b: Byte, c: Byte): Byte { (b << 4) | (c >> 2) }
  function D2(c: Byte, d: Byte): Byte { (c << 6) | d }

  /** The digits of `x`, most significant bits first, the last one filled with zero bits. */
  function Encode(x: seq<Byte>): seq<Byte> {
    if |x| == 0 then []
    else if |x| == 1 then [E0(x[0]), E1(x[0], 0)]
    else if |x| == 2 then [E0(x[0]), E1(x[0], x[1]), E2(x[1], 0)]
    else [E0(x[0]), E1(x[0], x[1]), E2(x[1], x[2]), E3(x[2])] + Encode(x[3..])
  }

  /** What `atob` makes of a run of digits; a single trailing digit still yields a byte, its low bits
      taken from the marker of the invalid character that follows. */
  function Decode(v: seq<Byte>): seq<Byte> {
    if |v| == 0 then []
    else if |v| == 1 then [D0(v[0], 48)]
    else if |v| == 2 then [D0(v[0], v[1])]
    else if |v| == 3 then [D0(v[0], v[1]), D1(v[1], v[2])]
    else [D0(v[0], v[1]), D1(v[1], v[2]), D2(v[2], v[3])] + Decode(v[4..])
  }

  predicate Digits(v: seq<Byte>) {
    forall i :: 0 <= i < |v| ==> v[i] < 64
  }

  /** How many digits `n` bytes take, and how many bytes `n` digits yield. */
  function EncodedLength(n: nat): nat {
    n / 3 * 4 + if n % 3 == 0 then 0 else n % 3 + 1
  }

  function DecodedLength(n: nat): nat {
    n / 4 * 3 + if n % 4 == 0 then 0 else if n % 4 == 1 then 1 else n % 4 - 1
  }

  lemma {:induction false} EncodeDigits(x: seq<Byte>)
    ensures Digits(Encode(x)) && |Encode(x)| == EncodedLength(|x|)
    decreases |x|
  {
    if |x| >= 3 {
      EncodeDigits(x[3..]);
    }
  }

  lemma {:induction false} DecodeLength(v: seq<Byte>)
    ensures |Decode(v)| == DecodedLength(|v|)
    decreases |v|
  {
    if |v| >= 4 {
      DecodeLength(v[4..]);
    }
  }

  // ----- Round trips -----

  lemma BlockRoundTrip(x: Byte, y: Byte, z: Byte)
    ensures D0(E0(x), E1(x, y)) == x && D1(E1(x, y), E2(y, z)) == y && D2(E2(y, z), E3(z)) == z
  {}

  lemma {:induction false} DecodeEncode(x: seq<Byte>)
    ensures Decode(Encode(x)) == x
    decreases |x|
  {
    if |x| >= 3 {
      var v := Encode(x);
      assert v[4..] == Encode(x[3..]);
      assert Decode(v) == [D0(v[0], v[1]), D1(v[1], v[2]), D2(v[2], v[3])] + Decode(v[4..]);
      BlockRoundTrip(x[0], x[1], x[2]);
      DecodeEncode(x[3..]);
      assert x == [x[0], x[1], x[2]] + x[3..];
    } else if |x| == 2 {
      BlockRoundTrip(x[0], x[1], 0);
      assert x == [x[0], x[1]];
    } else if |x| == 1 {
      BlockRoundTrip(x[0], 0, 0);
    }
  }

  /** No dangling digit, and no set bit beyond the last whole byte. */
  predicate Canonical(v: seq<Byte>) {
    match |v| % 4
    case 0 => true
    case 1 => false
    case 2 => v[|v| - 1] & 15 == 0
    case _ => v[|v| - 1] & 3 == 0
  }

  lemma BlockBack(a: Byte, b: Byte, c: Byte, d: Byte)
    requires a < 64 && b < 64 && c < 64 && d < 64
    ensures var x, y, z := D0(a, b), D1(b, c), D2(c, d);
            E0(x) == a && E1(x, y) == b && E2(y, z) == c && E3(z) == d
    ensures E1(D0(a, b), 0) == b <==> b & 15 == 0
    ensures E2(D1(b, c), 0) == c <==> c & 3 == 0
  {}

  lemma DecodeStep(v: seq<Byte>)
    requires |v| >= 4
    ensures Decode(v) == [D0(v[0], v[1]), D1(v[1], v[2]), D2(v[2], v[3])] + Decode(v[4..])
  {}

  lemma EncodeStep(x: Byte, y: Byte, z: Byte, rest: seq<Byte>)
    ensures Encode([x, y, z] + rest) == [E0(x), E1(x, y), E2(y, z), E3(z)] + Encode(rest)
  {
    assert ([x, y, z] + rest)[3..] == rest;
  }

  lemma EncodeDecodeBlock(v: seq<Byte>)
    requires Digits(v) && |v| >= 4
    ensures Encode(Decode(v)) == v[..4] + Encode(Decode(v[4..]))
  {
    var a, b, c, d := v[0], v[1], v[2], v[3];
    BlockBack(a, b, c, d);
    DecodeStep(v);
    EncodeStep(D0(a, b), D1(b, c), D2(c, d), Decode(v[4..]));
    assert v[..4] == [a, b, c, d];
  }

  lemma SameAfterPrefix(p: seq<Byte>, a: seq<Byte>, b: seq<Byte>)
    ensures p + a == p + b <==> a == b
  {
    assert a == (p + a)[|p|..] && b == (p + b)[|p|..];
  }

  lemma TwoDigitsBack(v: seq<Byte>, a: Byte, b: Byte)
    requires v == [a, b] && a < 64 && b < 64
    ensures Encode(Decode(v)) == v <==> Canonical(v)
  {
    var x := D0(a, b);
    assert Decode(v) == [x];
    assert Encode([x]) == [E0(x), E1(x, 0)];
    BlockBack(a, b, 0, 0);
    assert Canonical(v) <==> b & 15 == 0;
  }

  lemma ThreeDigitsBack(v: seq<Byte>, a: Byte, b: Byte, c: Byte)
    requires v == [a, b, c] && a < 64 && b < 64 && c < 64
    ensures Encode(Decode(v)) == v <==> Canonical(v)
  {
    var x, y := D0(a, b), D1(b, c);
    assert Decode(v) == [x, y];
    assert Encode([x, y]) == [E0(x), E1(x, y), E2(y, 0)];
    BlockBack(a, b, c, 0);
    assert Canonical(v) <==> c & 3 == 0;
  }

  lemma OneDigitBack(v: seq<Byte>)
    requires |v| == 1
    ensures Encode(Decode(v)) != v && !Canonical(v)
  {
    assert |Decode(v)| == 1;
    assert |Encode(Decode(v))| == 2;
  }

  lemma CanonicalTail(v: seq<Byte>)
    requires |v| >= 4
    ensures Canonical(v) <==> Canonical(v[4..])
  {
    assert |v[4..]| % 4 == |v| % 4;
    assert |v| > 4 ==> v[4..][|v| - 5] == v[|v| - 1];
  }

  /** Re-encoding what was decoded gives the digits back exactly for canonical digits. */
  lemma {:induction false} EncodeDecode(v: seq<Byte>)
    requires Digits(v)
    ensures Encode(Decode(v)) == v <==> Canonical(v)
    decreases |v|
  {
    if |v| == 1 {
      OneDigitBack(v);
    } else if |v| == 2 {
      TwoDigitsBack(v, v[0], v[1]);
    } else if |v| == 3 {
      ThreeDigitsBack(v, v[0], v[1], v[2]);
    } else if |v| >= 4 {
      EncodeDecodeBlock(v);
      EncodeDecode(v[4..]);
      CanonicalTail(v);
      SameAfterPrefix(v[..4], Encode(Decode(v[4..])), v[4..]);
      assert v == v[..4] + v[4..];
    }
  }

  // ----- The digits are the bits, regrouped -----

  function BitsOfByte(b: Byte): seq<bool> {
    [b & 128 != 0, b & 64 != 0, b & 32 != 0, b & 16 != 0, b & 8 != 0, b & 4 != 0, b & 2 != 0, b & 1 != 0]
  }

  function BitsOfDigit(d: Byte): seq<bool> {
    [d & 32 != 0, d & 16 != 0, d & 8 != 0, d & 4 != 0, d & 2 != 0, d & 1 != 0]
  }

  function Join(parts: seq<seq<bool>>): seq<bool> {
    if parts == [] then [] else parts[0] + Join(parts[1..])
  }

  /** The bits of a byte string, most significant first. */
  function ByteBits(x: seq<Byte>): seq<bool> {
    Join(seq(|x|, i requires 0 <= i < |x| => BitsOfByte(x[i])))
  }

  function DigitBits(v: seq<Byte>): seq<bool> {
    Join(seq(|v|, i requires 0 <= i < |v| => BitsOfDigit(v[i])))
  }

  /** The zero bits that fill the last digit. */
  function Filling(n: nat): seq<bool> {
    if n % 3 == 0 then [] else if n % 3 == 1 then [false, false, false, false] else [false, false]
  }

  lemma {:induction false} JoinConcat(a: seq<seq<bool>>, b: seq<seq<bool>>)
    ensures Join(a + b) == Join(a) + Join(b)
    decreases |a|
  {
    if a == [] {
      assert a + b == b;
    } else {
      assert (a + b)[1..] == a[1..] + b;
      JoinConcat(a[1..], b);
    }
  }

  lemma JoinThree(p: seq<bool>, q: seq<bool>, r: seq<bool>)
    ensures Join([p]) == p
    ensures Join([p, q]) == p + q
    ensures Join([p, q, r]) == p + q + r
  {
    assert [p, q][1..] == [q] && [p, q, r][1..] == [q, r] && [q, r][1..] == [r];
    assert Join([p]) == p && Join([q]) == q && Join([r]) == r;
    assert Join([q, r]) == q + r;
  }

  lemma JoinFour(p: seq<bool>, q: seq<bool>, r: seq<bool>, t: seq<bool>)
    ensures Join([p, q, r, t]) == p + q + r + t
  {
    JoinThree(q, r, t);
    assert [p, q, r, t][1..] == [q, r, t];
    assert p + (q + r + t) == p + q + r + t;
  }

  lemma ThreeBytes(x: Byte, y: Byte, z: Byte, rest: seq<Byte>)
    ensures ByteBits([x, y, z] + rest) == BitsOfByte(x) + BitsOfByte(y) + BitsOfByte(z) + ByteBits(rest)
  {
    var all := [x, y, z] + rest;
    var head := [BitsOfByte(x), BitsOfByte(y), BitsOfByte(z)];
    var tail := seq(|rest|, i requires 0 <= i < |rest| => BitsOfByte(rest[i]));
    assert seq(|all|, i requires 0 <= i < |all| => BitsOfByte(all[i])) == head + tail;
    JoinConcat(head, tail);
    JoinThree(BitsOfByte(x), BitsOfByte(y), BitsOfByte(z));
  }

  lemma FourDigits(a: Byte, b: Byte, c: Byte, d: Byte, rest: seq<Byte>)
    ensures DigitBits([a, b, c, d] + rest) ==
        BitsOfDigit(a) + BitsOfDigit(b) + BitsOfDigit(c) + BitsOfDigit(d) + DigitBits(rest)
  {
    var all := [a, b, c, d] + rest;
    var head := [BitsOfDigit(a), BitsOfDigit(b), BitsOfDigit(c), BitsOfDigit(d)];
    var tail := seq(|rest|, i requires 0 <= i < |rest| => BitsOfDigit(rest[i]));
    assert seq(|all|, i requires 0 <= i < |all| => BitsOfDigit(all[i])) == head + tail;
    JoinConcat(head, tail);
    JoinFour(BitsOfDigit(a), BitsOfDigit(b), BitsOfDigit(c), BitsOfDigit(d));
  }

  lemma Regroup(x: seq<bool>, y: seq<bool>, z: seq<bool>, a: seq<bool>, b: seq<bool>, c: seq<bool>, d: seq<bool>)
    requires |x| == |y| == |z| == 8 && |a| == |b| == |c| == |d| == 6
    requires a == x[..6] && b == x[6..] + y[..4] && c == y[4..] + z[..2] && d == z[2..]
    ensures x + y + z == a + b + c + d
  {}

  lemma BitTests(x: Byte, y: Byte, z: Byte)
    ensures var d := E0(x);
            && (d & 32 != 0) == (x & 128 != 0) && (d & 16 != 0) == (x & 64 != 0) && (d & 8 != 0) == (x & 32 != 0)
            && (d & 4 != 0) == (x & 16 != 0) && (d & 2 != 0) == (x & 8 != 0) && (d & 1 != 0) == (x & 4 != 0)
    ensures var d := E1(x, y);
            && (d & 32 != 0) == (x & 2 != 0) && (d & 16 != 0) == (x & 1 != 0) && (d & 8 != 0) == (y & 128 != 0)
            && (d & 4 != 0) == (y & 64 != 0) && (d & 2 != 0) == (y & 32 != 0) && (d & 1 != 0) == (y & 16 != 0)
    ensures var d := E2(y, z);
            && (d & 32 != 0) == (y & 8 != 0) && (d & 16 != 0) == (y & 4 != 0) && (d & 8 != 0) == (y & 2 != 0)
            && (d & 4 != 0) == (y & 1 != 0) && (d & 2 != 0) == (z & 128 != 0) && (d & 1 != 0) == (z & 64 != 0)
    ensures var d := E3(z);
            && (d & 32 != 0) == (z & 32 != 0) && (d & 16 != 0) == (z & 16 != 0) && (d & 8 != 0) == (z & 8 != 0)
            && (d & 4 != 0) == (z & 4 != 0) && (d & 2 != 0) == (z & 2 != 0) && (d & 1 != 0) == (z & 1 != 0)
  {}

  lemma BitsE0(x: Byte)
    ensures BitsOfDigit(E0(x)) == BitsOfByte(x)[..6]
  {
    BitTests(x, 0, 0);
  }

  lemma TwoThenFour(p: seq<bool>, q: seq<bool>)
    requires |p| == |q| == 8
    ensures p[6..] + q[..4] == [p[6], p[7], q[0], q[1], q[2], q[3]]
  {}

  lemma FourThenTwo(p: seq<bool>, q: seq<bool>)
    requires |p| == |q| == 8
    ensures p[4..] + q[..2] == [p[4], p[5], p[6], p[7], q[0], q[1]]
  {}

  lemma BitsE1(x: Byte, y: Byte)
    ensures BitsOfDigit(E1(x, y)) == BitsOfByte(x)[6..] + BitsOfByte(y)[..4]
  {
    BitTests(x, y, 0);
    TwoThenFour(BitsOfByte(x), BitsOfByte(y));
  }

  lemma BitsE2(y: Byte, z: Byte)
    ensures BitsOfDigit(E2(y, z)) == BitsOfByte(y)[4..] + BitsOfByte(z)[..2]
  {
    BitTests(0, y, z);
    FourThenTwo(BitsOfByte(y), BitsOfByte(z));
  }

  lemma BitsE3(z: Byte)
    ensures BitsOfDigit(E3(z)) == BitsOfByte(z)[2..]
  {
    BitTests(0, 0, z);
  }

  lemma BlockBits(x: Byte, y: Byte, z: Byte)
    ensures BitsOfByte(x) + BitsOfByte(y) + BitsOfByte(z) ==
            BitsOfDigit(E0(x)) + BitsOfDigit(E1(x, y)) + BitsOfDigit(E2(y, z)) + BitsOfDigit(E3(z))
  {
    BitsE0(x);
    BitsE1(x, y);
    BitsE2(y, z);
    BitsE3(z);
    Regroup(BitsOfByte(x), BitsOfByte(y), BitsOfByte(z),
            BitsOfDigit(E0(x)), BitsOfDigit(E1(x, y)), BitsOfDigit(E2(y, z)), BitsOfDigit(E3(z)));
  }

  lemma FewBytes(x: Byte, y: Byte)
    ensures ByteBits([x]) == BitsOfByte(x)
    ensures ByteBits([x, y]) == BitsOfByte(x) + BitsOfByte(y)
  {
    JoinThree(BitsOfByte(x), BitsOfByte(y), []);
    assert seq(1, i requires 0 <= i < 1 => BitsOfByte([x][i])) == [BitsOfByte(x)];
    assert seq(2, i requires 0 <= i < 2 => BitsOfByte([x, y][i])) == [BitsOfByte(x), BitsOfByte(y)];
  }

  lemma FewDigits(a: Byte, b: Byte, c: Byte)
    ensures DigitBits([a, b]) == BitsOfDigit(a) + BitsOfDigit(b)
    ensures DigitBits([a, b, c]) == BitsOfDigit(a) + BitsOfDigit(b) + BitsOfDigit(c)
  {
    JoinThree(BitsOfDigit(a), BitsOfDigit(b), BitsOfDigit(c));
    assert seq(2, i requires 0 <= i < 2 => BitsOfDigit([a, b][i])) == [BitsOfDigit(a), BitsOfDigit(b)];
    assert seq(3, i requires 0 <= i < 3 => BitsOfDigit([a, b, c][i])) ==
        [BitsOfDigit(a), BitsOfDigit(b), BitsOfDigit(c)];
  }

  lemma ZeroBits()
    ensures BitsOfByte(0) == [false, false, false, false] + [false, false] + [false, false]
  {}

  lemma OneByteBits(x: Byte)
    ensures DigitBits(Encode([x])) == ByteBits([x]) + Filling(1)
  {
    FewBytes(x, 0);
    FewDigits(E0(x), E1(x, 0), 0);
    BitsE0(x);
    BitsE1(x, 0);
    ZeroBits();
    SplitAt(BitsOfByte(x), 6, [false, false, false, false]);
  }

  lemma TwoByteBits(x: Byte, y: Byte)
    ensures DigitBits(Encode([x, y])) == ByteBits([x, y]) + Filling(2)
  {
    FewBytes(x, y);
    FewDigits(E0(x), E1(x, y), E2(y, 0));
    BitsE0(x);
    BitsE1(x, y);
    BitsE2(y, 0);
    ZeroBits();
    SplitTwice(BitsOfByte(x), BitsOfByte(y), [false, false]);
  }

  lemma SplitAt(p: seq<bool>, n: nat, fill: seq<bool>)
    requires n <= |p|
    ensures p[..n] + (p[n..] + fill) == p + fill
  {}

  lemma SplitTwice(p: seq<bool>, q: seq<bool>, fill: seq<bool>)
    requires |p| == |q| == 8
    ensures p[..6] + (p[6..] + q[..4]) + (q[4..] + fill) == p + q + fill
  {}

  lemma BlockRegroups(x: Byte, y: Byte, z: Byte, rest: seq<Byte>, fill: seq<bool>)
    requires DigitBits(Encode(rest)) == ByteBits(rest) + fill
    ensures DigitBits(Encode([x, y, z] + rest)) == ByteBits([x, y, z] + rest) + fill
  {
    EncodeStep(x, y, z, rest);
    ThreeBytes(x, y, z, rest);
    FourDigits(E0(x), E1(x, y), E2(y, z), E3(z), Encode(rest));
    BlockBits(x, y, z);
    Reassociate(BitsOfByte(x) + BitsOfByte(y) + BitsOfByte(z), ByteBits(rest), fill);
  }

  /** Encoding is RFC 4648's regrouping: the same bits, six to a digit, zero bits filling the last one. */
  lemma {:induction false} EncodeRegroupsBits(x: seq<Byte>)
    ensures DigitBits(Encode(x)) == ByteBits(x) + Filling(|x|)
    decreases |x|
  {
    if |x| >= 3 {
      var rest := x[3..];
      EncodeRegroupsBits(rest);
      assert Filling(|x|) == Filling(|rest|);
      BlockRegroups(x[0], x[1], x[2], rest, Filling(|rest|));
      assert x == [x[0], x[1], x[2]] + rest;
    } else if |x| == 2 {
      TwoByteBits(x[0], x[1]);
      assert x == [x[0], x[1]];
    } else if |x| == 1 {
      OneByteBits(x[0]);
      assert x == [x[0]];
    } else {
      assert x == [];
    }
  }

  lemma Reassociate(a: seq<bool>, b: seq<bool>, c: seq<bool>)
    ensures a + (b + c) == a + b + c
  {}

  // ----- And back: the bytes are the bits of the digits, as far as they make up whole bytes -----

  lemma PrefixesJoin(p: seq<bool>, a: seq<bool>, b: seq<bool>)
    requires a <= b
    ensures p + a <= p + b
  {}

  lemma BlockBytes(a: Byte, b: Byte, c: Byte, d: Byte)
    requires a < 64 && b < 64 && c < 64 && d < 64
    ensures BitsOfByte(D0(a, b)) + BitsOfByte(D1(b, c)) + BitsOfByte(D2(c, d)) ==
            BitsOfDigit(a) + BitsOfDigit(b) + BitsOfDigit(c) + BitsOfDigit(d)
  {
    BlockBack(a, b, c, d);
    BlockBits(D0(a, b), D1(b, c), D2(c, d));
  }

  lemma WholeBytes(
      x: seq<bool>, y: seq<bool>, z: seq<bool>, a: seq<bool>, b: seq<bool>, c: seq<bool>, d: seq<bool>)
    requires |x| == |y| == |z| == 8 && |a| == |b| == |c| == |d| == 6 && x + y + z == a + b + c + d
    ensures x <= a + b && x + y <= a + b + c
  {
    assert x == (x + y + z)[..8] && x + y == (x + y + z)[..16];
    assert (a + b + c + d)[..8] == (a + b)[..8] && (a + b + c + d)[..16] == (a + b + c)[..16];
  }

  lemma FewDigitsRegroup(a: Byte, b: Byte, c: Byte)
    requires a < 64 && b < 64 && c < 64
    ensures ByteBits(Decode([a, b])) <= DigitBits([a, b])
    ensures ByteBits(Decode([a, b, c])) <= DigitBits([a, b, c])
  {
    var x, y := D0(a, b), D1(b, c);
    assert Decode([a, b]) == [x] && Decode([a, b, c]) == [x, y];
    BlockBytes(a, b, c, 0);
    WholeBytes(BitsOfByte(x), BitsOfByte(y), BitsOfByte(D2(c, 0)),
               BitsOfDigit(a), BitsOfDigit(b), BitsOfDigit(c), BitsOfDigit(0));
    FewDigits(a, b, c);
    FewBytes(x, y);
  }

  /** Without a dangling digit the bytes carry the bits of the digits, from the first on, canonical or not. */
  lemma {:induction false} DecodeRegroupsBits(v: seq<Byte>)
    requires Digits(v) && |v| % 4 != 1
    ensures ByteBits(Decode(v)) <= DigitBits(v) && |Decode(v)| == |v| * 6 / 8
    decreases |v|
  {
    DecodeLength(v);
    if |v| >= 4 {
      var a, b, c, d, rest := v[0], v[1], v[2], v[3], v[4..];
      DecodeStep(v);
      assert v == [a, b, c, d] + rest;
      FourDigits(a, b, c, d, rest);
      ThreeBytes(D0(a, b), D1(b, c), D2(c, d), Decode(rest));
      BlockBytes(a, b, c, d);
      DecodeRegroupsBits(rest);
      PrefixesJoin(BitsOfDigit(a) + BitsOfDigit(b) + BitsOfDigit(c) + BitsOfDigit(d),
        ByteBits(Decode(rest)), DigitBits(rest));
    } else if |v| >= 2 {
      FewDigitsRegroup(v[0], v[1], if |v| == 3 then v[2] else 0);
      assert v == [v[0], v[1]] || v == [v[0], v[1], v[2]];
    }
  }

  /** A dangling digit yields one more byte all the same: its six bits and two set ones. */
  lemma {:induction false} DanglingDigit(v: seq<Byte>, d: Byte)
    requires |v| % 4 == 0 && d < 64
    ensures Decode(v + [d]) == Decode(v) + [(d << 2) | 3]
    decreases |v|
  {
    if |v| >= 4 {
      assert (v + [d])[4..] == v[4..] + [d];
      DecodeStep(v + [d]);
      DecodeStep(v);
      DanglingDigit(v[4..], d);
    } else {
      assert v + [d] == [d];
    }
  }

  // ----- Text -----

  /** Base64 text of digits. */
  function Chars(v: seq<Byte>): seq<Byte> {
    if v == [] then [] else [To64(v[0])] + Chars(v[1..])
  }

  /** What encoding `x` writes, before the terminating NUL. */
  function Encoded(x: seq<Byte>): seq<Byte> {
    Chars(Encode(x))
  }

  /** The digits up to the first character that is none. */
  function DigitsOf(a: seq<Byte>): (v: seq<Byte>)
    ensures |v| <= |a| && Digits(v)
    ensures |v| < |a| ==> From64(a[|v|]) == INVALID
  {
    if a == [] || From64(a[0]) == INVALID then []
    else
      FromTo64(a[0]);
      [From64(a[0])] + DigitsOf(a[1..])
  }

  /** Each digit is that of its character. */
  lemma {:induction false} DigitsOfAt(a: seq<Byte>, i: nat)
    requires i < |DigitsOf(a)|
    ensures DigitsOf(a)[i] == From64(a[i]) != INVALID
  {
    FromTo64(a[0]);
    if i > 0 {
      DigitsOfAt(a[1..], i - 1);
    }
  }

  /** What decoding the text `a` yields. */
  function Decoded(a: seq<Byte>): seq<Byte> {
    Decode(DigitsOf(a))
  }

  lemma {:induction false} CharsConcat(v: seq<Byte>, w: seq<Byte>)
    ensures Chars(v + w) == Chars(v) + Chars(w)
    decreases |v|
  {
    if v == [] {
      assert v + w == w;
    } else {
      assert (v + w)[1..] == v[1..] + w;
      CharsConcat(v[1..], w);
    }
  }

  lemma {:induction false} CharsLength(v: seq<Byte>)
    ensures |Chars(v)| == |v|
    decreases |v|
  {
    if v != [] {
      CharsLength(v[1..]);
    }
  }

  lemma {:induction false} DigitsOfChars(v: seq<Byte>, tail: seq<Byte>)
    requires Digits(v) && (tail == [] || From64(tail[0]) == INVALID)
    ensures DigitsOf(Chars(v) + tail) == v
    decreases |v|
  {
    if v == [] {
      assert Chars(v) + tail == tail;
    } else {
      var text := Chars(v) + tail;
      assert text[1..] == Chars(v[1..]) + tail;
      ToFrom64(v[0]);
      DigitsOfChars(v[1..], tail);
      assert v == [v[0]] + v[1..];
    }
  }

  /** Only the characters encoding can write. */
  predicate StrictAlphabet(s: seq<Byte>) {
    forall i :: 0 <= i < |s| ==> From64(s[i]) != INVALID && s[i] != 43 && s[i] != 47
  }

  lemma {:induction false} CharsOfDigits(s: seq<Byte>)
    requires StrictAlphabet(s)
    ensures Chars(DigitsOf(s)) == s
    decreases |s|
  {
    if s != [] {
      FromTo64(s[0]);
      CharsOfDigits(s[1..]);
      assert s == [s[0]] + s[1..];
    }
  }

  lemma {:induction false} CharsAreStrict(v: seq<Byte>)
    ensures StrictAlphabet(Chars(v))
    ensures forall i :: 0 <= i < |Chars(v)| ==> Chars(v)[i] != 0 && Chars(v)[i] != 10
    decreases |v|
  {
    if v != [] {
      CharsAreStrict(v[1..]);
      To64Strict(v[0]);
    }
  }

  lemma To64Strict(x: Byte)
    ensures var c := To64(x); From64(c) != INVALID && c != 43 && c != 47 && c != 0 && c != 10
  {}

  /** Decoding inverts encoding, for every byte string and whatever follows the text. */
  lemma DecodedEncoded(x: seq<Byte>, tail: seq<Byte>)
    requires tail == [] || From64(tail[0]) == INVALID
    ensures Decoded(Encoded(x) + tail) == x
  {
    EncodeDigits(x);
    DigitsOfChars(Encode(x), tail);
    DecodeEncode(x);
  }

  /** Encoding inverts decoding exactly for canonical text: the strict alphabet throughout, no dangling
      digit, no stray bits. */
  lemma EncodedDecoded(s: seq<Byte>)
    ensures Encoded(Decoded(s)) == s <==> StrictAlphabet(s) && Canonical(DigitsOf(s))
  {
    var v := DigitsOf(s);
    EncodeDigits(Decode(v));
    EncodeDecode(v);
    if Encoded(Decoded(s)) == s {
      CharsAreStrict(Encode(Decode(v)));
      DigitsOfChars(Encode(Decode(v)), []);
      assert s + [] == s;
    } else if StrictAlphabet(s) {
      CharsOfDigits(s);
    }
  }

  lemma EncodedLengthIs(x: seq<Byte>)
    ensures |Encoded(x)| == EncodedLength(|x|)
  {
    EncodeDigits(x);
    CharsLength(Encode(x));
  }

  // ----- The loops -----

  /** The characters one round writes for what is left of the input. */
  function Block(x: seq<Byte>): (r: seq<Byte>)
    requires x != []
    ensures 2 <= |r| <= 4
  {
    var y := if |x| > 1 then x[1] else 0;
    var z := if |x| > 2 then x[2] else 0;
    if |x| < 2 then [To64(x[0] >> 2), To64((x[0] << 4) | (y >> 4))]
    else if |x| < 3 then [To64(x[0] >> 2), To64((x[0] << 4) | (y >> 4)), To64((y << 2) | (z >> 6))]
    else [To64(x[0] >> 2), To64((x[0] << 4) | (y >> 4)), To64((y << 2) | (z >> 6)), To64(z)]
  }

  lemma LongBlock(x: seq<Byte>)
    requires |x| >= 3
    ensures Encoded(x) == Block(x) + Encoded(x[3..])
  {
    CharsConcat([E0(x[0]), E1(x[0], x[1]), E2(x[1], x[2]), E3(x[2])], Encode(x[3..]));
    CharsOfFour(E0(x[0]), E1(x[0], x[1]), E2(x[1], x[2]), E3(x[2]));
    Masking(x[0], x[1], x[2]);
  }

  lemma TwoByteBlock(x: seq<Byte>)
    requires |x| == 2
    ensures Encoded(x) == Block(x)
  {
    CharsOfFour(E0(x[0]), E1(x[0], x[1]), E2(x[1], 0), 0);
    Masking(x[0], x[1], 0);
  }

  lemma OneByteBlock(x: seq<Byte>)
    requires |x| == 1
    ensures Encoded(x) == Block(x)
  {
    CharsOfFour(E0(x[0]), E1(x[0], 0), 0, 0);
    Masking(x[0], 0, 0);
  }

  lemma EncodedStep(x: seq<Byte>)
    requires x != []
    ensures Encoded(x) == Block(x) + Encoded(if |x| < 3 then [] else x[3..])
  {
    assert Encoded([]) == [];
    if |x| >= 3 {
      LongBlock(x);
    } else if |x| == 2 {
      TwoByteBlock(x);
    } else {
      OneByteBlock(x);
    }
  }

  lemma CharsOfFour(a: Byte, b: Byte, c: Byte, d: Byte)
    ensures Chars([a, b]) == [To64(a), To64(b)]
    ensures Chars([a, b, c]) == [To64(a), To64(b), To64(c)]
    ensures Chars([a, b, c, d]) == [To64(a), To64(b), To64(c), To64(d)]
  {
    assert [a, b][1..] == [b] && [a, b, c][1..] == [b, c] && [a, b, c, d][1..] == [b, c, d];
    assert [b, c][1..] == [c] && [b, c, d][1..] == [c, d] && [c, d][1..] == [d];
    assert Chars([b]) == [To64(b)] && Chars([c]) == [To64(c)] && Chars([d]) == [To64(d)];
    assert Chars([b, c]) == [To64(b), To64(c)] && Chars([c, d]) == [To64(c), To64(d)];
    assert Chars([b, c, d]) == [To64(b), To64(c), To64(d)];
  }

  lemma Masking(x: Byte, y: Byte, z: Byte)
    ensures To64(E0(x)) == To64(x >> 2)
    ensures To64(E1(x, y)) == To64((x << 4) | (y >> 4))
    ensures To64(E2(y, z)) == To64((y << 2) | (z >> 6))
    ensures To64(E3(z)) == To64(z)
  {}

  /** One round of `btoa`, starting at `a[start]`. */
  method WriteBlock(b: seq<Byte>, a: array<Byte>, start: nat) returns (p: nat)
    requires b != [] && start + |Block(b)| <= a.Length
    modifies a
    ensures p == start + |Block(b)|
    ensures a[..] == old(a[..])[..start] + Block(b) + old(a[..])[p..]
  {
    var y := if |b| > 1 then b[1] else 0;
    var z := if |b| > 2 then b[2] else 0;
    ghost var blk := Block(b);
    var c0, c1, c2, c3 := To64(b[0] >> 2), To64((b[0] << 4) | (y >> 4)), To64((y << 2) | (z >> 6)), To64(z);
    assert blk == if |b| < 2 then [c0, c1] else if |b| < 3 then [c0, c1, c2] else [c0, c1, c2, c3];
    p := start;
    a[p] := c0;
    a[p + 1] := c1;
    p := p + 2;
    if |b| < 2 {
      return;
    }
    a[p] := c2;
    p := p + 1;
    if |b| < 3 {
      return;
    }
    a[p] := c3;
    p := p + 1;
  }

  lemma Splice(written: seq<Byte>, under: seq<Byte>, blk: seq<Byte>, now: seq<Byte>)
    requires |written| + |blk| <= |under|
    requires var before := written + under[|written|..];
             now == before[..|written|] + blk + before[|written| + |blk|..]
    ensures now == (written + blk) + under[|written + blk|..]
  {}

  lemma Terminate(written: seq<Byte>, under: seq<Byte>)
    requires |written| < |under|
    ensures (written + under[|written|..])[|written| := 0] == written + [0] + under[|written| + 1..]
  {}

  lemma LastBlock(written: seq<Byte>, left: seq<Byte>, whole: seq<Byte>)
    requires left != [] && written + Encoded(left) == whole
    ensures (written + Block(left)) + Encoded(if |left| < 3 then [] else left[3..]) == whole
    ensures |written| + |Block(left)| <= |whole|
  {
    EncodedStep(left);
  }

  /** The loop of `btoa`. */
  method WriteBlocks(b: seq<Byte>, a: array<Byte>) returns (p: nat)
    requires |Encoded(b)| <= a.Length
    modifies a
    ensures p == |Encoded(b)|
    ensures a[..] == Encoded(b) + old(a[..])[p..]
  {
    var left := b;
    p := 0;
    ghost var written, under, whole := [], a[..], Encoded(b);
    while left != []
      invariant |written| == p <= |whole|
      invariant written + Encoded(left) == whole
      invariant a[..] == written + under[p..]
      decreases |left|
    {
      LastBlock(written, left, whole);
      ghost var blk := Block(left);
      p := WriteBlock(left, a, p);
      Splice(written, under, blk, a[..]);
      written := written + blk;
      left := if |left| < 3 then [] else left[3..];
    }
    assert written == whole;
  }

  /** `btoa`: needs room for the text and its NUL, and writes nothing else. */
  method Btoa(b: seq<Byte>, a: array<Byte>) returns (p: nat)
    requires EncodedLength(|b|) < a.Length
    modifies a
    ensures p == EncodedLength(|b|)
    ensures a[..] == Encoded(b) + [0] + old(a[..])[p + 1..]
  {
    EncodedLengthIs(b);
    p := WriteBlocks(b, a);
    Terminate(Encoded(b), old(a[..]));
    ghost var before := a[..];
    a[p] := 0;
    assert a[..] == before[p := 0];
  }

  function Min(x: int, y: int): int {
    if x < y then x else y
  }

  /** The inner loop of `atob`: up to four digits from `a[off]` on, and the marker after the last if fewer. */
  method ReadGroup(a: seq<Byte>, off: nat, c: array<Byte>) returns (i: nat, ghost lookedAt: nat)
    requires c.Length == 4 && off <= |DigitsOf(a)| < |a|
    modifies c
    ensures i == Min(4, |DigitsOf(a)| - off)
    ensures forall k :: 0 <= k < i ==> c[k] == DigitsOf(a)[off + k]
    ensures i < 4 ==> c[i] == INVALID
    ensures lookedAt <= |DigitsOf(a)| + 1
  {
    i := 0;
    lookedAt := off;
    while i < 4
      invariant 0 <= i <= 4 && off + i <= |DigitsOf(a)|
      invariant lookedAt == off + i
      invariant forall k :: 0 <= k < i ==> c[k] == DigitsOf(a)[off + k]
    {
      DigitAt(a, off + i);
      c[i] := From64(a[off + i]);
      lookedAt := lookedAt + 1;
      if c[i] == INVALID {
        return;
      }
      i := i + 1;
    }
  }

  lemma {:induction false} DigitAt(a: seq<Byte>, k: nat)
    requires k <= |DigitsOf(a)| < |a|
    ensures if k < |DigitsOf(a)| then From64(a[k]) == DigitsOf(a)[k] && DigitsOf(a)[k] < 64 else From64(a[k]) == INVALID
    decreases |a|
  {
    if 0 < k {
      DigitAt(a[1..], k - 1);
    }
  }

  // The bytes as `atob` computes them, also when a character it uses was no digit.
  function B0(a: Byte, b: Byte): Byte { (a << 2) | ((b & 0x30) >> 4) }
  function B1(b: Byte, c: Byte): Byte { (b << 4) | ((c & 0x3c) >> 2) }

  lemma MaskedDigits(a: Byte, b: Byte, c: Byte)
    ensures b < 64 ==> B0(a, b) == D0(a, b)
    ensures c < 64 ==> B1(b, c) == D1(b, c)
    ensures B0(a, INVALID) == D0(a, 48)
  {}

  /** The bytes of one group of at most four digits; `c1` is the marker when there is only one. */
  function GroupBytes(i: nat, c0: Byte, c1: Byte, c2: Byte, c3: Byte): (r: seq<Byte>)
    requires 1 <= i <= 4
    ensures |r| == if i < 3 then 1 else i - 1
  {
    if i < 3 then [B0(c0, c1)]
    else if i == 3 then [B0(c0, c1), B1(c1, c2)]
    else [B0(c0, c1), B1(c1, c2), D2(c2, c3)]
  }

  lemma DecodeGroup(v: seq<Byte>, off: nat, i: nat, c0: Byte, c1: Byte, c2: Byte, c3: Byte)
    requires Digits(v) && off < |v| && i == Min(4, |v| - off)
    requires c0 == v[off] && c1 == (if i > 1 then v[off + 1] else INVALID)
    requires (i > 2 ==> c2 == v[off + 2]) && (i > 3 ==> c3 == v[off + 3])
    ensures Decode(v[off..]) == GroupBytes(i, c0, c1, c2, c3) + (if i == 4 then Decode(v[off + 4..]) else [])
  {
    MaskedDigits(c0, c1, c2);
    if i == 4 {
      assert v[off..][4..] == v[off + 4..];
      DecodeStep(v[off..]);
    }
  }

  /** One round of `atob` after reading: writes what the group yields and the buffer has room for. */
  method WriteGroup(i: nat, c0: Byte, c1: Byte, c2: Byte, c3: Byte, b: array<Byte>, start: nat, blen: int)
    returns (p: nat, more: bool)
    requires 1 <= i <= 4 && start < blen <= b.Length
    modifies b
    ensures p == Min(blen, start + |GroupBytes(i, c0, c1, c2, c3)|) > start
    ensures b[..] == old(b[..])[..start] + GroupBytes(i, c0, c1, c2, c3)[..p - start] + old(b[..])[p..]
    ensures more <==> i == 4 && p == start + 3
  {
    p := start;
    more := false;
    ghost var bytes := GroupBytes(i, c0, c1, c2, c3);
    var b0, b1, b2 := B0(c0, c1), B1(c1, c2), D2(c2, c3);
    b[p] := b0;
    p := p + 1;
    if p >= blen || i < 3 {
      assert bytes[..1] == [b0];
      return;
    }
    b[p] := b1;
    p := p + 1;
    if p >= blen || i < 4 {
      assert bytes[..2] == [b0, b1];
      return;
    }
    b[p] := b2;
    p := p + 1;
    more := true;
    assert bytes[..3] == [b0, b1, b2];
  }

  /** How `atob` leaves its buffer after writing `p` bytes. */
  ghost predicate Filled(b: seq<Byte>, under: seq<Byte>, whole: seq<Byte>, p: nat) {
    p <= |whole| && p <= |b| == |under| && b == whole[..p] + under[p..]
  }

  lemma FillMore(
      b: seq<Byte>, now: seq<Byte>, under: seq<Byte>, whole: seq<Byte>, start: nat, p: nat, bytes: seq<Byte>,
      rest: seq<Byte>)
    requires Filled(b, under, whole, start) && whole[start..] == bytes + rest
    requires start <= p <= start + |bytes| && p <= |b|
    requires now == b[..start] + bytes[..p - start] + b[p..]
    ensures Filled(now, under, whole, p)
    ensures p == start + |bytes| ==> whole[p..] == rest
  {
    assert whole == whole[..start] + (bytes + rest);
    assert whole[..p] == whole[..start] + bytes[..p - start];
  }

  lemma RoundFills(v: seq<Byte>, off: nat, i: nat, c0: Byte, c1: Byte, c2: Byte, c3: Byte,
                   before: seq<Byte>, now: seq<Byte>, under: seq<Byte>, whole: seq<Byte>, start: nat, p: nat)
    requires Digits(v) && off < |v| && i == Min(4, |v| - off)
    requires c0 == v[off] && c1 == (if i > 1 then v[off + 1] else INVALID)
    requires (i > 2 ==> c2 == v[off + 2]) && (i > 3 ==> c3 == v[off + 3])
    requires Filled(before, under, whole, start) && whole[start..] == Decode(v[off..])
    requires start <= p <= start + |GroupBytes(i, c0, c1, c2, c3)| && p <= |before|
    requires now == before[..start] + GroupBytes(i, c0, c1, c2, c3)[..p - start] + before[p..]
    ensures Filled(now, under, whole, p)
    ensures i == 4 && p == start + 3 ==> whole[p..] == Decode(v[off + 4..])
    ensures i < 4 && p == start + |GroupBytes(i, c0, c1, c2, c3)| ==> p == |whole|
  {
    DecodeGroup(v, off, i, c0, c1, c2, c3);
    FillMore(before, now, under, whole, start, p, GroupBytes(i, c0, c1, c2, c3), if i == 4
        then Decode(v[off + 4..]) else []);
  }

  /** `atob`: decodes up to the first character that is no digit or until `blen` bytes are written. It reads
      at most one character past the digits and writes nothing past what it returns. */
  method Atob(a: seq<Byte>, b: array<Byte>, blen: int) returns (p: nat, ghost lookedAt: nat)
    requires |DigitsOf(a)| < |a|
    requires blen <= b.Length
    modifies b
    ensures p == if blen <= 0 then 0 else Min(blen, |Decoded(a)|)
    ensures Filled(b[..], old(b[..]), Decoded(a), p)
    ensures lookedAt <= |DigitsOf(a)| + 1
  {
    var c := new Byte[4];
    var off := 0;
    p := 0;
    lookedAt := 0;
    c[3] := 0;
    ghost var v, whole, under := DigitsOf(a), Decoded(a), b[..];
    assert v[0..] == v && whole[0..] == whole;
    while true
      invariant off <= |v|
      invariant p == 0 || p <= blen
      invariant Filled(b[..], under, whole, p) && whole[p..] == Decode(v[off..])
      invariant lookedAt <= |v| + 1
      decreases |v| - off
    {
      var i;
      i, lookedAt := ReadGroup(a, off, c);
      if p >= blen || i == 0 {
        return;
      }
      ghost var before, start := b[..], p;
      var c0, c1, c2, c3 := c[0], c[1], c[2], c[3];
      var more;
      p, more := WriteGroup(i, c0, c1, c2, c3, b, p, blen);
      RoundFills(v, off, i, c0, c1, c2, c3, before, b[..], under, whole, start, p);
      if !more {
        return;
      }
      off := off + 4;
    }
  }

  // ----- The string overloads -----

  lemma {:induction false} TerminatorEndsDigits(s: seq<Byte>)
    ensures DigitsOf(s + [0]) == DigitsOf(s)
    decreases |s|
  {
    if s == [] {
      assert s + [0] == [0];
    } else {
      assert (s + [0])[1..] == s[1..] + [0] && (s + [0])[0] == s[0];
      TerminatorEndsDigits(s[1..]);
    }
  }

  /** The buffer sizes the callers compute, with C's integer division, always suffice: both string
      overloads, and the public key in `SignatureChecker`. */
  lemma SizesSuffice(a: seq<Byte>, n: nat)
    ensures |Decoded(a)| <= |a| * 3 / 4 + 3
    ensures |Decoded(a)| <= |a| / 4 * 3 + 3
    ensures EncodedLength(n) < n * 4 / 3 + 4
  {
    DecodeLength(DigitsOf(a));
  }

  method AtobString(in_: seq<Byte>) returns (out: seq<Byte>)
    ensures out == Decoded(in_)
  {
    var size := |in_| * 3 / 4 + 3;
    var buffer := new Byte[size];
    TerminatorEndsDigits(in_);
    SizesSuffice(in_, 0);
    var p;
    ghost var lookedAt;
    p, lookedAt := Atob(in_ + [0], buffer, size);
    out := buffer[..p];
  }

  method BtoaString(in_: seq<Byte>) returns (out: seq<Byte>)
    ensures out == Encoded(in_)
  {
    var buffer := new Byte[|in_| * 4 / 3 + 4];
    SizesSuffice([], |in_|);
    EncodedLengthIs(in_);
    var p := Btoa(in_, buffer);
    out := buffer[..p];
  }
}
