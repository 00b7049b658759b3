/**
  UTF-8 to and from UCS-2 (unicode.c), section 3 of RFC 3629 restricted to the
  Basic Multilingual Plane. A C string is the sequence of its bytes or units
  before the terminator.
 */
module Utf8 {
  import opened Bytes
  import opened Precompose

  ghost predicate NonNul(b: seq<Byte>) {
    forall i :: 0 <= i < |b| ==> b[i] > 0
  }

  /** mbCharLen: the number of leading one bits, where none means 1 and a single one means "stop". */
  function CharLen(c: Byte): (n: nat)
    ensures n <= 8
  {
    if c == 0 then 0
    else if c < 0x80 then 1
    else if c < 0xC0 then 0
    else if c < 0xE0 then 2
    else if c < 0xF0 then 3
    else if c < 0xF8 then 4
    else if c < 0xFC then 5
    else if c < 0xFE then 6
    else if c < 0xFF then 7
    else 8
  }

  /** The character steps stay inside the string; otherwise the C code runs past the terminator. */
  predicate Fits(b: seq<Byte>)
    decreases |b|
  {
    b == [] || CharLen(b[0]) == 0 || (CharLen(b[0]) <= |b| && Fits(b[CharLen(b[0])..]))
  }

  /** The bits of c below m, a power of two. */
  function Bits(c: nat, m: nat): (r: nat)
    requires m > 0
    ensures r < m
  {
    c % m
  }

  /** The two top bits are 10. */
  predicate TopBits(c: Byte) {
    c / 64 == 2
  }

  /** The unit for the n bytes at the front of b: '*' for an illegal sequence, '~' for one beyond 0xFFFF. */
  function DecodeChar(b: seq<Byte>, n: nat): (u: Unit)
    requires 1 <= n <= |b|
  {
    if n == 1 then b[0]
    else if n == 2 then
      var c16: nat := Bits(b[1], 64) + Bits(b[0], 32) * 64;
      if c16 > 0x7F && TopBits(b[1]) then c16 else 42
    else if n == 3 then
      var c16: nat := Bits(b[2], 64) + Bits(b[1], 64) * 64 + Bits(b[0], 16) * 4096;
      if c16 > 0x7FF && TopBits(b[1]) && TopBits(b[2]) then c16 else 42
    else 126
  }

  function Decode(b: seq<Byte>): (s: seq<Unit>)
    requires Fits(b)
    decreases |b|
  {
    if b == [] || CharLen(b[0]) == 0 then []
    else [DecodeChar(b, CharLen(b[0]))] + Decode(b[CharLen(b[0])..])
  }

  /** One unit in one to three bytes, from its high byte hi and low byte lo. */
  function EncodeChar(u: Unit): (b: seq<Byte>)
    ensures 1 <= |b| <= 3
  {
    var lo, hi := u % 256, u / 256;
    if u < 0x80 then [lo]
    else if u < 0x800 then [0xC0 + hi % 8 * 4 + lo / 64, 0x80 + lo % 64]
    else [0xE0 + hi / 16, 0x80 + hi % 16 * 4 + lo / 64, 0x80 + lo % 64]
  }

  function Encode(s: seq<Unit>): (b: seq<Byte>)
    ensures |b| <= 3 * |s|
  {
    if s == [] then [] else EncodeChar(s[0]) + Encode(s[1..])
  }

  // ----- well-formed strings, by the RFC's grammar and not by the code -----

  predicate Tail(c: Byte) {
    0x80 <= c <= 0xBF
  }

  /** The length of the shortest-form character at the front, or 0. Surrogate code points are let through. */
  function WellFormedChar(b: seq<Byte>): (n: nat)
    ensures n <= |b| && n <= 3
  {
    if |b| >= 1 && 0x01 <= b[0] <= 0x7F then 1
    else if |b| >= 2 && 0xC2 <= b[0] <= 0xDF && Tail(b[1]) then 2
    else if |b| >= 3 && b[0] == 0xE0 && 0xA0 <= b[1] <= 0xBF && Tail(b[2]) then 3
    else if |b| >= 3 && 0xE1 <= b[0] <= 0xEF && Tail(b[1]) && Tail(b[2]) then 3
    else 0
  }

  predicate WellFormed(b: seq<Byte>)
    decreases |b|
  {
    b == [] || (WellFormedChar(b) > 0 && WellFormed(b[WellFormedChar(b)..]))
  }

  // ----- one character -----

  lemma TwoBytes(x: nat, y: nat)
    requires x < 64 && 2 <= y < 32
    ensures EncodeChar(y * 64 + x) == [0xC0 + y, 0x80 + x]
  {
    var u, q, r := y * 64 + x, y / 4, y % 4;
    assert u == 256 * q + (64 * r + x);
    assert u / 256 == q && u % 256 == 64 * r + x;
  }

  lemma ThreeBytes(x: nat, y: nat, z: nat)
    requires x < 64 && y < 64 && z < 16 && z * 4096 + y * 64 + x >= 0x800
    ensures EncodeChar(z * 4096 + y * 64 + x) == [0xE0 + z, 0x80 + y, 0x80 + x]
  {
    var u, q, r := z * 4096 + y * 64 + x, y / 4, y % 4;
    var hi, lo := 16 * z + q, 64 * r + x;
    assert u == 256 * hi + lo;
    assert u / 256 == hi && u % 256 == lo;
    assert hi / 16 == z && hi % 16 == q && lo / 64 == r && lo % 64 == x;
  }

  lemma TwoBytesRead(x: nat, y: nat, b: seq<Byte>)
    requires x < 64 && 2 <= y < 32
    requires |b| >= 2 && b[0] == 0xC0 + y && b[1] == 0x80 + x
    ensures WellFormedChar(b) == CharLen(b[0]) == 2
    ensures DecodeChar(b, 2) == y * 64 + x
  {
    assert Bits(b[1], 64) == x && Bits(b[0], 32) == y && TopBits(b[1]);
  }

  lemma ThreeBytesRead(x: nat, y: nat, z: nat, b: seq<Byte>)
    requires x < 64 && y < 64 && z < 16 && z * 4096 + y * 64 + x >= 0x800
    requires |b| >= 3 && b[0] == 0xE0 + z && b[1] == 0x80 + y && b[2] == 0x80 + x
    ensures WellFormedChar(b) == CharLen(b[0]) == 3
    ensures DecodeChar(b, 3) == z * 4096 + y * 64 + x
  {
    assert Bits(b[2], 64) == x && Bits(b[1], 64) == y && Bits(b[0], 16) == z;
    assert TopBits(b[1]) && TopBits(b[2]);
  }

  lemma Split(u: Unit) returns (x: nat, y: nat, z: nat)
    ensures x < 64 && y < 64 && z < 16 && u == z * 4096 + y * 64 + x
    ensures u < 0x800 ==> z == 0 && y < 32
    ensures u >= 0x80 ==> z > 0 || y >= 2
  {
    x, y, z := u % 64, u / 64 % 64, u / 4096;
  }

  /** An encoded unit reads back as itself, whatever follows it. */
  lemma EncodeCharShape(u: Unit, rest: seq<Byte>)
    requires u > 0
    ensures var b := EncodeChar(u) + rest;
            && WellFormedChar(b) == CharLen(b[0]) == |EncodeChar(u)|
            && DecodeChar(b, |EncodeChar(u)|) == u
            && b[|EncodeChar(u)|..] == rest
  {
    var x, y, z := Split(u);
    var b := EncodeChar(u) + rest;
    if u < 0x80 {
      assert EncodeChar(u) == [u];
    } else if u < 0x800 {
      TwoBytes(x, y);
      TwoBytesRead(x, y, b);
    } else {
      ThreeBytes(x, y, z);
      ThreeBytesRead(x, y, z, b);
    }
  }

  /** A well-formed character is the encoding of what it decodes to. */
  lemma DecodeCharInverse(b: seq<Byte>)
    requires WellFormedChar(b) > 0
    ensures CharLen(b[0]) == WellFormedChar(b)
    ensures EncodeChar(DecodeChar(b, WellFormedChar(b))) == b[..WellFormedChar(b)]
  {
    if WellFormedChar(b) == 2 {
      TwoBytes(b[1] - 0x80, b[0] - 0xC0);
      TwoBytesRead(b[1] - 0x80, b[0] - 0xC0, b);
    } else if WellFormedChar(b) == 3 {
      ThreeBytes(b[2] - 0x80, b[1] - 0x80, b[0] - 0xE0);
      ThreeBytesRead(b[2] - 0x80, b[1] - 0x80, b[0] - 0xE0, b);
    }
  }

  lemma DecodeCharNonZero(b: seq<Byte>, n: nat)
    requires NonNul(b) && 1 <= n <= |b|
    ensures DecodeChar(b, n) > 0
  {
  }

  // ----- whole strings -----

  lemma {:induction false} WellFormedFits(b: seq<Byte>)
    requires WellFormed(b)
    ensures Fits(b) && NonNul(b)
    decreases |b|
  {
    if b != [] {
      var n := WellFormedChar(b);
      DecodeCharInverse(b);
      WellFormedFits(b[n..]);
      assert forall i :: n <= i < |b| ==> b[i] == b[n..][i - n];
    }
  }

  lemma {:induction false} DecodeNonZero(b: seq<Byte>)
    requires Fits(b) && NonNul(b)
    ensures NonZero(Decode(b))
    decreases |b|
  {
    if b != [] && CharLen(b[0]) > 0 {
      DecodeCharNonZero(b, CharLen(b[0]));
      DecodeNonZero(b[CharLen(b[0])..]);
    }
  }

  lemma {:induction false} EncodeWellFormed(s: seq<Unit>)
    requires NonZero(s)
    ensures WellFormed(Encode(s))
  {
    if s != [] {
      EncodeCharShape(s[0], Encode(s[1..]));
      EncodeWellFormed(s[1..]);
    }
  }

  /** Decoding undoes encoding, for every string of non-zero units. */
  lemma {:induction false} DecodeEncode(s: seq<Unit>)
    requires NonZero(s)
    ensures Fits(Encode(s)) && Decode(Encode(s)) == s
  {
    if s != [] {
      EncodeCharShape(s[0], Encode(s[1..]));
      DecodeEncode(s[1..]);
    }
  }

  lemma EncodeCons(c: Unit, s: seq<Unit>)
    ensures Encode([c] + s) == EncodeChar(c) + Encode(s)
  {
    assert ([c] + s)[1..] == s;
  }

  lemma DecodeHead(b: seq<Byte>) returns (c: Unit, n: nat)
    requires b != [] && WellFormed(b) && Fits(b)
    ensures 0 < n <= |b| && WellFormed(b[n..]) && Fits(b[n..])
    ensures Decode(b) == [c] + Decode(b[n..])
    ensures b == EncodeChar(c) + b[n..]
  {
    n := WellFormedChar(b);
    DecodeCharInverse(b);
    c := DecodeChar(b, n);
    assert b == b[..n] + b[n..];
  }

  lemma {:induction false} EncodeDecode(b: seq<Byte>)
    requires WellFormed(b) && Fits(b)
    ensures Encode(Decode(b)) == b
    decreases |b|
  {
    if b != [] {
      var c, n := DecodeHead(b);
      EncodeDecode(b[n..]);
      EncodeCons(c, Decode(b[n..]));
    }
  }

  /** Encoding undoes decoding exactly on the well-formed strings. */
  lemma EncodeDecodeIff(b: seq<Byte>)
    requires Fits(b) && NonNul(b)
    ensures Encode(Decode(b)) == b <==> WellFormed(b)
  {
    DecodeNonZero(b);
    EncodeWellFormed(Decode(b));
    if WellFormed(b) {
      EncodeDecode(b);
    }
  }

  // ----- what is not representable -----

  lemma Associates(a: seq<Byte>, b: seq<Byte>, c: seq<Byte>)
    ensures a + b + c == a + (b + c)
  {
  }

  lemma HeadAppend(s: seq<Unit>, u: seq<Unit>)
    requires s != []
    ensures s + u == [s[0]] + (s[1..] + u)
  {
  }

  lemma DecodeOne(c: Unit, rest: seq<Byte>)
    requires c > 0 && Fits(rest)
    ensures Fits(EncodeChar(c) + rest) && Decode(EncodeChar(c) + rest) == [c] + Decode(rest)
  {
    EncodeCharShape(c, rest);
  }

  /** Encoded text in front of anything is decoded first. */
  lemma {:induction false} DecodeAfterEncoded(s: seq<Unit>, b: seq<Byte>, t: seq<Byte>)
    requires NonZero(s) && Fits(b) && t == Encode(s) + b
    ensures Fits(t) && Decode(t) == s + Decode(b)
    decreases |s|
  {
    if s == [] {
      assert t == b;
    } else {
      var c, rest := EncodeChar(s[0]), Encode(s[1..]) + b;
      assert t == c + rest by { Associates(c, Encode(s[1..]), b); }
      DecodeAfterEncoded(s[1..], b, rest);
      DecodeOne(s[0], rest);
      HeadAppend(s, Decode(b));
    }
  }

  /** A character of four bytes, by section 4 of RFC 3629. */
  predicate WellFormedFour(c: seq<Byte>) {
    && |c| == 4 && 0xF0 <= c[0] <= 0xF4 && Tail(c[1]) && Tail(c[2]) && Tail(c[3])
    && (c[0] == 0xF0 ==> c[1] >= 0x90) && (c[0] == 0xF4 ==> c[1] <= 0x8F)
  }

  /** Two or three bytes that start like a character but are none: a wrong tail, or not the shortest form. */
  predicate Illegal(c: seq<Byte>) {
    || (|c| == 2 && 0xC0 <= c[0] <= 0xDF && WellFormedChar(c) == 0)
    || (|c| == 3 && 0xE0 <= c[0] <= 0xEF && WellFormedChar(c) == 0)
  }

  lemma IllegalTwo(c: seq<Byte>, b: seq<Byte>)
    requires Illegal(c) && |c| == 2 && |b| >= 2 && b[0] == c[0] && b[1] == c[1]
    ensures DecodeChar(b, 2) == '*' as int
  {
    if Tail(c[1]) {
      assert Bits(b[0], 32) == b[0] - 0xC0;
    }
  }

  lemma IllegalThree(c: seq<Byte>, b: seq<Byte>)
    requires Illegal(c) && |c| == 3 && |b| >= 3 && b[0] == c[0] && b[1] == c[1] && b[2] == c[2]
    ensures DecodeChar(b, 3) == '*' as int
  {
    if Tail(c[1]) && Tail(c[2]) {
      assert c[0] == 0xE0 && c[1] < 0xA0;
      assert Bits(b[0], 16) == 0 && Bits(b[1], 64) < 32;
    }
  }

  /** A character beyond the Basic Multilingual Plane becomes one '~', and what follows is still decoded. */
  lemma FourBytesAreTilde(s: seq<Unit>, c: seq<Byte>, rest: seq<Byte>)
    requires NonZero(s) && WellFormedFour(c) && Fits(rest)
    ensures Fits(Encode(s) + (c + rest)) && Decode(Encode(s) + (c + rest)) == s + (['~' as int] + Decode(rest))
  {
    assert (c + rest)[4..] == rest;
    DecodeAfterEncoded(s, c + rest, Encode(s) + (c + rest));
  }

  /** An illegal character becomes one '*', and what follows is still decoded. */
  lemma IllegalIsStar(s: seq<Unit>, c: seq<Byte>, rest: seq<Byte>)
    requires NonZero(s) && Illegal(c) && Fits(rest)
    ensures Fits(Encode(s) + (c + rest)) && Decode(Encode(s) + (c + rest)) == s + (['*' as int] + Decode(rest))
  {
    var b := c + rest;
    assert b[|c|..] == rest;
    if |c| == 2 {
      IllegalTwo(c, b);
    } else {
      IllegalThree(c, b);
    }
    DecodeAfterEncoded(s, b, Encode(s) + b);
  }

  /** A tail byte where a character should start ends the text. */
  lemma StrayTailEnds(s: seq<Unit>, c: Byte, rest: seq<Byte>)
    requires NonZero(s) && Tail(c)
    ensures Fits(Encode(s) + ([c] + rest)) && Decode(Encode(s) + ([c] + rest)) == s
  {
    DecodeAfterEncoded(s, [c] + rest, Encode(s) + ([c] + rest));
  }

  // ----- the C functions -----

  /** mbCharLen: counts the leading one bits with a mask. */
  method MbCharLen(c: Byte) returns (n: nat)
    ensures n == CharLen(c)
  {
    if c == 0 {
      return 0;
    }
    var mask, count := 0x80, 0;
    while mask > 0 && c / mask % 2 == 1
      invariant count <= 8 && mask == [0x80, 0x40, 0x20, 0x10, 8, 4, 2, 1, 0][count]
      invariant c >= [0, 0x80, 0xC0, 0xE0, 0xF0, 0xF8, 0xFC, 0xFE, 0xFF][count]
      decreases mask
    {
      count := count + 1;
      mask := mask / 2;
    }
    n := if count == 0 then 1 else if count == 1 then 0 else count;
  }

  /** Where the conversion stands: the bytes from p on decode to the units from p16 on. */
  ghost predicate DecodesTo(str: seq<Byte>, p: nat, all: seq<Unit>, p16: nat)
    decreases |str| - p
  {
    && p <= |str| && p16 <= |all|
    && if p == |str| || CharLen(str[p]) == 0 then p16 == |all|
       else
         var clen := CharLen(str[p]);
         && p + clen <= |str| && p16 < |all| && all[p16] == DecodeChar(str[p..], clen)
         && DecodesTo(str, p + clen, all, p16 + 1)
  }

  lemma {:induction false} DecodesToRest(str: seq<Byte>, p: nat, all: seq<Unit>, p16: nat)
    requires p <= |str| && p16 <= |all| && Fits(str[p..]) && Decode(str[p..]) == all[p16..]
    ensures DecodesTo(str, p, all, p16)
    decreases |str| - p
  {
    if p < |str| && CharLen(str[p]) > 0 {
      var clen := CharLen(str[p]);
      assert str[p..][clen..] == str[p + clen..];
      assert all[p16..][1..] == all[p16 + 1..];
      DecodesToRest(str, p + clen, all, p16 + 1);
    }
  }

  lemma DecodesToAll(str: seq<Byte>)
    requires Fits(str)
    ensures DecodesTo(str, 0, Decode(str), 0)
  {
    assert str[0..] == str && Decode(str)[0..] == Decode(str);
    DecodesToRest(str, 0, Decode(str), 0);
  }

  /** mbStrLen: the number of units UTF8toUCS2 writes. */
  method MbStrLen(str: seq<Byte>) returns (len: nat)
    requires Fits(str)
    ensures len == |Decode(str)|
  {
    len := 0;
    var p := 0;
    DecodesToAll(str);
    while p < |str|
      invariant DecodesTo(str, p, Decode(str), len)
      decreases |str| - p
    {
      var clen := MbCharLen(str[p]);
      if clen == 0 {
        return;
      }
      len := len + 1;
      p := p + clen;
    }
  }

  /** UTF8toUCS2: the result fits the mbStrLen + 1 units allocated for it. */
  method UTF8toUCS2(str: seq<Byte>) returns (str16: array<Unit>)
    requires Fits(str)
    ensures fresh(str16) && str16[..] == Decode(str) + [0]
  {
    var cInString := MbStrLen(str);
    str16 := new Unit[cInString + 1];
    ghost var all := Decode(str);
    var p: nat, p16: nat := 0, 0;
    DecodesToAll(str);
    while p < |str|
      invariant DecodesTo(str, p, all, p16)
      invariant forall i :: 0 <= i < p16 ==> str16[i] == all[i]
      decreases |str| - p
    {
      var clen := MbCharLen(str[p]);
      if clen == 0 {
        break;
      }
      str16[p16] := DecodeChar(str[p..], clen);
      p16 := p16 + 1;
      p := p + clen;
    }
    str16[p16] := 0;
  }

  /** UCS2toUTF8: the result and its terminator fit the 3 * len + 1 bytes allocated for it. */
  method UCS2toUTF8(str16: seq<Unit>) returns (str8: array<Byte>)
    ensures fresh(str8) && str8.Length == 3 * |str16| + 1
    ensures str8[..|Encode(str16)|] == Encode(str16) && str8[|Encode(str16)|] == 0
  {
    str8 := new Byte[3 * |str16| + 1];
    ghost var all := Encode(str16);
    var p8: nat, p16: nat := 0, 0;
    assert str16[0..] == str16 && all[0..] == all;
    while p16 < |str16|
      invariant p16 <= |str16| && p8 <= |all|
      invariant Encode(str16[p16..]) == all[p8..]
      invariant forall i :: 0 <= i < p8 ==> str8[i] == all[i]
    {
      var bytes := EncodeChar(str16[p16]);
      EncodeStep(str16, p16, all[p8..]);
      Put(str8, p8, bytes);
      assert forall i :: p8 <= i < p8 + |bytes| ==> all[i] == all[p8..][i - p8];
      p8 := p8 + |bytes|;
      p16 := p16 + 1;
    }
    str8[p8] := 0;
  }

  lemma EncodeStep(s: seq<Unit>, p: nat, rest: seq<Byte>)
    requires p < |s| && Encode(s[p..]) == rest
    ensures var n := |EncodeChar(s[p])|;
            n <= |rest| && rest[..n] == EncodeChar(s[p]) && Encode(s[p + 1..]) == rest[n..]
  {
    assert s[p..][1..] == s[p + 1..];
  }
}
