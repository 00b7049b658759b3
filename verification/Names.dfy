/**
  File names between Unix (precomposed UTF-8) and AFP (decomposed UTF-8),
  codepage.c. One direction rewrites bytes, the other decodes to UCS-2, composes
  and encodes again.
 */
module Names {
  import opened Bytes
  import opened Precompose
  import opened Utf8

  // ----- towards AFP: bytes -----

  /** The one rewriting convert_utf8pre_to_utf8dec knows, with `room` bytes left in the destination. */
  function Decomposed(src: seq<Byte>, room: int): (r: seq<Byte>)
    ensures |r| <= if room <= 0 then 0 else room + 2
    decreases |src|
  {
    if src == [] || room <= 0 then []
    else if |src| >= 2 && src[0] == 0xC3 && src[1] == 0xA4 then [0x61, 0xCC, 0x88] + Decomposed(src[2..], room - 3)
    else [src[0]] + Decomposed(src[1..], room - 1)
  }

  /** The same with a destination that is large enough. */
  function ToAfp(src: seq<Byte>): (r: seq<Byte>)
    decreases |src|
  {
    if src == [] then []
    else if |src| >= 2 && src[0] == 0xC3 && src[1] == 0xA4 then [0x61, 0xCC, 0x88] + ToAfp(src[2..])
    else [src[0]] + ToAfp(src[1..])
  }

  lemma {:induction false} EnoughRoom(src: seq<Byte>, room: int)
    requires |ToAfp(src)| <= room
    ensures Decomposed(src, room) == ToAfp(src)
    decreases |src|
  {
    if src != [] {
      if |src| >= 2 && src[0] == 0xC3 && src[1] == 0xA4 {
        EnoughRoom(src[2..], room - 3);
      } else {
        EnoughRoom(src[1..], room - 1);
      }
    }
  }

  /** A destination that is too small gets a prefix that fills it. */
  lemma {:induction false} CutShort(src: seq<Byte>, room: int)
    ensures Decomposed(src, room) <= ToAfp(src)
    ensures Decomposed(src, room) == ToAfp(src) || |Decomposed(src, room)| >= room
    decreases |src|
  {
    if src != [] && room > 0 {
      if |src| >= 2 && src[0] == 0xC3 && src[1] == 0xA4 {
        CutShort(src[2..], room - 3);
      } else {
        CutShort(src[1..], room - 1);
      }
    }
  }

  predicate IsUmlaut(src: seq<Byte>, i: nat)
    requires i < |src|
  {
    src[i] == 0xC3 && i + 1 < |src| && src[i + 1] == 0xA4
  }

  function Piece(src: seq<Byte>, i: nat): (r: seq<Byte>)
    requires i < |src|
  {
    if IsUmlaut(src, i) then [0x61, 0xCC, 0x88] else [src[i]]
  }

  /** Where the rewriting stands: the bytes from i on are rewritten to those of `all` from j on. */
  ghost predicate RewritesTo(src: seq<Byte>, i: nat, destLen: nat, all: seq<Byte>, j: nat)
    decreases |src| - i
  {
    && i <= |src| && j <= |all|
    && if i == |src| || j >= destLen then j == |all|
       else
         var piece := Piece(src, i);
         && j + |piece| <= |all| && (forall k :: 0 <= k < |piece| ==> all[j + k] == piece[k])
         && RewritesTo(src, if IsUmlaut(src, i) then i + 2 else i + 1, destLen, all, j + |piece|)
  }

  lemma {:induction false} RewritesToRest(src: seq<Byte>, i: nat, destLen: nat, all: seq<Byte>, j: nat)
    requires i <= |src| && j <= |all| && Decomposed(src[i..], destLen - j) == all[j..]
    ensures RewritesTo(src, i, destLen, all, j)
    decreases |src| - i
  {
    if i < |src| && j < destLen {
      var piece := Piece(src, i);
      var next := if IsUmlaut(src, i) then i + 2 else i + 1;
      assert src[i..][next - i..] == src[next..];
      assert all[j..] == piece + Decomposed(src[next..], destLen - (j + |piece|));
      assert forall k :: 0 <= k < |piece| ==> all[j + k] == all[j..][k];
      assert all[j + |piece|..] == all[j..][|piece|..];
      RewritesToRest(src, next, destLen, all, j + |piece|);
    }
  }

  /** The loop of convert_utf8pre_to_utf8dec. */
  method RewriteInto(src: seq<Byte>, dest: array<Byte>, destLen: nat, ghost all: seq<Byte>) returns (j: nat)
    requires dest.Length >= destLen + 2 && RewritesTo(src, 0, destLen, all, 0)
    modifies dest
    ensures j == |all| <= dest.Length
    ensures forall k :: 0 <= k < j ==> dest[k] == all[k]
    ensures forall k :: j <= k < dest.Length ==> dest[k] == old(dest[k])
  {
    j := 0;
    var i := 0;
    while i < |src| && j < destLen
      invariant j <= destLen + 2 && RewritesTo(src, i, destLen, all, j)
      invariant forall k :: 0 <= k < j ==> dest[k] == all[k]
      invariant forall k :: j <= k < dest.Length ==> dest[k] == old(dest[k])
      decreases |src| - i
    {
      var piece := Piece(src, i);
      Put(dest, j, piece);
      j := j + |piece|;
      i := if IsUmlaut(src, i) then i + 2 else i + 1;
    }
  }

  /**
    convert_utf8pre_to_utf8dec: j < dest_len is looked at once for a write of up to
    three bytes, so the destination needs two spare bytes.
   */
  method Utf8PreToUtf8Dec(src: seq<Byte>, dest: array<Byte>, destLen: nat) returns (j: nat)
    requires dest.Length >= destLen + 2
    modifies dest
    ensures j == |Decomposed(src, destLen)| && dest[..j] == Decomposed(src, destLen)
    ensures dest[j..] == old(dest[j..])
  {
    ghost var all := Decomposed(src, destLen);
    assert src[0..] == src && all[0..] == all;
    RewritesToRest(src, 0, destLen, all, 0);
    j := RewriteInto(src, dest, destLen, all);
  }

  // ----- towards Unix: UCS-2 -----

  ghost function ToUnix(t: Table, src: seq<Byte>): (r: seq<Byte>)
    requires Fits(src)
  {
    Encode(Compose(t, Decode(src)))
  }

  const PATH16_SIZE: nat := 384

  /** The composition loop of convert_utf8dec_to_utf8pre, over its fixed buffer. */
  method ComposePath(t: Table, delta: seq<nat>, path16dec: array<Unit>, ghost s: seq<Unit>) returns (path16pre: array<Unit>, len: nat)
    requires Composing(t) && IsDelta(delta, |t| - 1)
    requires NonZero(s) && path16dec[..] == s + [0] && |s| < PATH16_SIZE
    ensures fresh(path16pre) && path16pre.Length == PATH16_SIZE && len < PATH16_SIZE
    ensures path16pre[..len] == Compose(t, s) && path16pre[len] == 0
  {
    path16pre := new Unit[PATH16_SIZE];
    var p16dec: nat, prev: Unit := 0, 0;
    len := 0;
    ghost var all := Compose(t, s);
    ComposeSize(t, s);
    while path16dec[p16dec] > 0
      invariant p16dec <= |s| && len <= |all|
      invariant path16dec[..] == s + [0]
      invariant prev > 0 <==> p16dec > 0
      invariant p16dec == 0 ==> len == 0
      invariant 0 < p16dec < |s| ==> ComposeFrom(t, prev, s[p16dec..]) == all[len..]
      invariant p16dec == |s| ==> len == |all|
      invariant forall i :: 0 <= i < len ==> path16pre[i] == all[i]
      decreases |s| - p16dec
    {
      var c := path16dec[p16dec];
      assert p16dec < |s| && c == s[p16dec];
      if prev > 0 {
        var comp := UCS2precompose(t, delta, prev, c);
        ComposeStep(t, prev, s, p16dec, all[len..]);
        if comp != -1 {
          prev := comp;
        } else {
          assert all[len..][1..] == all[len + 1..];
          path16pre[len] := prev;
          prev := c;
          len := len + 1;
        }
      } else {
        assert all[0..] == all;
        prev := c;
      }
      p16dec := p16dec + 1;
      if path16dec[p16dec] == 0 {
        assert s[p16dec..] == [];
        path16pre[len] := prev;
        len := len + 1;
      }
    }
    path16pre[len] := 0;
  }

  lemma ComposeStep(t: Table, prev: Unit, s: seq<Unit>, i: nat, rest: seq<Unit>)
    requires Composing(t) && i < |s| && ComposeFrom(t, prev, s[i..]) == rest
    ensures var c := Pair(t, prev, s[i]);
            if c != -1 then c > 0 && ComposeFrom(t, c, s[i + 1..]) == rest
            else rest != [] && rest[0] == prev && ComposeFrom(t, s[i], s[i + 1..]) == rest[1..]
  {
    assert s[i..][1..] == s[i + 1..];
  }

  /** convert_utf8dec_to_utf8pre. */
  method Utf8DecToUtf8Pre(t: Table, delta: seq<nat>, src: seq<Byte>, dest: array<Byte>)
    requires Composing(t) && IsDelta(delta, |t| - 1)
    requires NonNul(src) && Fits(src) && |Decode(src)| < PATH16_SIZE
    requires |ToUnix(t, src)| < dest.Length
    modifies dest
    ensures dest[..|ToUnix(t, src)|] == ToUnix(t, src) && dest[|ToUnix(t, src)|] == 0
  {
    DecodeNonZero(src);
    ComposeSize(t, Decode(src));
    EncodeWellFormed(Compose(t, Decode(src)));
    WellFormedFits(ToUnix(t, src));
    var path16dec := UTF8toUCS2(src);
    var path16pre, len := ComposePath(t, delta, path16dec, Decode(src));
    var pathUTF8pre := UCS2toUTF8(path16pre[..len]);
    CopyString(pathUTF8pre, ToUnix(t, src), dest);
  }

  /** Copies bytes up to and including the terminator. */
  method CopyString(from: array<Byte>, ghost s: seq<Byte>, dest: array<Byte>)
    requires NonNul(s) && |s| < from.Length && from[..|s|] == s && from[|s|] == 0
    requires |s| < dest.Length && from != dest
    modifies dest
    ensures dest[..|s|] == s && dest[|s|] == 0
  {
    assert forall i :: 0 <= i < |s| ==> from[i] == from[..|s|][i];
    var p := 0;
    while from[p] != 0
      invariant p <= |s|
      invariant dest[..p] == s[..p]
      decreases |s| - p
    {
      dest[p] := from[p];
      p := p + 1;
    }
    dest[p] := 0;
  }

  // ----- round trip -----

  /** What the byte rewriting means on characters: a-umlaut becomes a and the combining diaeresis. */
  function Swap(s: seq<Unit>): (r: seq<Unit>) {
    if s == [] then []
    else (if s[0] == 0xE4 then [0x61, 0x308] else [s[0]]) + Swap(s[1..])
  }

  /** What the stored table knows about the letter a. */
  ghost predicate KnowsUmlaut(t: Table) {
    && Pair(t, 0x61, 0x308) == 0xE4
    && forall a: Unit :: Pair(t, a, 0x61) == -1
  }

  lemma ToAfpCopies(c: Byte, rest: seq<Byte>)
    requires c != 0xC3 || rest == [] || rest[0] != 0xA4
    ensures ToAfp([c] + rest) == [c] + ToAfp(rest)
  {
    assert ([c] + rest)[1..] == rest;
  }

  lemma ToAfpRewrites(rest: seq<Byte>)
    ensures ToAfp([0xC3, 0xA4] + rest) == [0x61, 0xCC, 0x88] + ToAfp(rest)
  {
    assert ([0xC3, 0xA4] + rest)[2..] == rest;
  }

  lemma ToAfpCopiesTwo(a: Byte, b: Byte, rest: seq<Byte>)
    requires Tail(b) && !(a == 0xC3 && b == 0xA4)
    ensures ToAfp([a, b] + rest) == [a, b] + ToAfp(rest)
  {
    ToAfpCopies(b, rest);
    ToAfpCopies(a, [b] + rest);
    assert [a, b] + rest == [a] + ([b] + rest);
  }

  lemma ToAfpCopiesThree(a: Byte, b: Byte, c: Byte, rest: seq<Byte>)
    requires a != 0xC3 && Tail(b) && Tail(c)
    ensures ToAfp([a, b, c] + rest) == [a, b, c] + ToAfp(rest)
  {
    ToAfpCopiesTwo(b, c, rest);
    ToAfpCopies(a, [b, c] + rest);
    assert [a, b, c] + rest == [a] + ([b, c] + rest);
  }

  lemma ToAfpOne(c: Unit, rest: seq<Byte>)
    requires 0 < c < 0x80
    ensures ToAfp(EncodeChar(c) + rest) == EncodeChar(c) + ToAfp(rest)
  {
    assert EncodeChar(c) == [c];
    ToAfpCopies(c, rest);
  }

  lemma ToAfpTwo(x: nat, y: nat, rest: seq<Byte>)
    requires x < 64 && 2 <= y < 32
    ensures var c := y * 64 + x;
            ToAfp(EncodeChar(c) + rest) == (if c == 0xE4 then [0x61, 0xCC, 0x88] else EncodeChar(c)) + ToAfp(rest)
  {
    TwoBytes(x, y);
    if y * 64 + x == 0xE4 {
      ToAfpRewrites(rest);
    } else {
      ToAfpCopiesTwo(0xC0 + y, 0x80 + x, rest);
    }
  }

  lemma ToAfpThree(x: nat, y: nat, z: nat, rest: seq<Byte>)
    requires x < 64 && y < 64 && z < 16 && z * 4096 + y * 64 + x >= 0x800
    ensures var c := z * 4096 + y * 64 + x;
            ToAfp(EncodeChar(c) + rest) == EncodeChar(c) + ToAfp(rest)
  {
    ThreeBytes(x, y, z);
    ToAfpCopiesThree(0xE0 + z, 0x80 + y, 0x80 + x, rest);
  }

  /** Continuation bytes are never the first byte of the rewritten pair. */
  lemma ToAfpChar(c: Unit, rest: seq<Byte>)
    requires c > 0
    ensures ToAfp(EncodeChar(c) + rest) == (if c == 0xE4 then [0x61, 0xCC, 0x88] else EncodeChar(c)) + ToAfp(rest)
  {
    var x, y, z := Split(c);
    if c < 0x80 {
      ToAfpOne(c, rest);
    } else if c < 0x800 {
      ToAfpTwo(x, y, rest);
    } else {
      ToAfpThree(x, y, z, rest);
    }
  }

  lemma EncodeUmlaut(rest: seq<Unit>)
    ensures Encode([0x61, 0x308] + rest) == [0x61, 0xCC, 0x88] + Encode(rest)
  {
    TwoBytes(8, 12);
    assert [0x61, 0x308] + rest == [0x61] + ([0x308] + rest);
    EncodeCons(0x61, [0x308] + rest);
    EncodeCons(0x308, rest);
  }

  lemma {:induction false} ToAfpEncode(s: seq<Unit>)
    requires NonZero(s)
    ensures ToAfp(Encode(s)) == Encode(Swap(s))
  {
    if s != [] {
      ToAfpChar(s[0], Encode(s[1..]));
      ToAfpEncode(s[1..]);
      if s[0] == 0xE4 {
        EncodeUmlaut(Swap(s[1..]));
      } else {
        EncodeCons(s[0], Swap(s[1..]));
      }
    }
  }

  lemma {:induction false} SwapNonZero(s: seq<Unit>)
    requires NonZero(s)
    ensures NonZero(Swap(s))
  {
    if s != [] {
      SwapNonZero(s[1..]);
    }
  }

  /** What a rewritten string looks like at the front. */
  lemma SwapFront(s: seq<Unit>)
    requires s != []
    ensures var (t, rest) := (Swap(s), Swap(s[1..]));
            if s[0] == 0xE4 then |t| >= 2 && t[0] == 0x61 && t[1] == 0x308 && t[1..] == [0x308] + rest && t[2..] == rest
            else t[0] == s[0] && t[1..] == rest
  {
  }

  /** Composing the rewritten character with nothing before it. */
  lemma UmlautComposes(t: Table, rest: seq<Unit>)
    requires KnowsUmlaut(t)
    ensures ComposeFrom(t, 0x61, [0x308] + rest) == ComposeFrom(t, 0xE4, rest)
  {
    assert ([0x308] + rest)[1..] == rest;
  }

  /** A character that is a result is not the second half of a pattern. */
  lemma UmlautIsFirst(t: Table, prev: Unit)
    requires Composing(t) && KnowsUmlaut(t)
    ensures Pair(t, prev, 0xE4) == -1
  {
    var k: nat :| HasPair(t, 0x61, 0x308, k) && t[k].precomposed == 0xE4;
    assert IsResult(t, 0xE4, k);
  }

  lemma {:induction false} ComposeFromSwap(t: Table, prev: Unit, s: seq<Unit>)
    requires Composing(t) && KnowsUmlaut(t)
    ensures ComposeFrom(t, prev, Swap(s)) == ComposeFrom(t, prev, s)
    decreases |s|
  {
    if s != [] {
      SwapFront(s);
      if s[0] == 0xE4 {
        UmlautIsFirst(t, prev);
        UmlautComposes(t, Swap(s[1..]));
        ComposeFromSwap(t, 0xE4, s[1..]);
      } else {
        var c := Pair(t, prev, s[0]);
        ComposeFromSwap(t, if c != -1 then c else s[0], s[1..]);
      }
    }
  }

  /** Composition undoes the rewriting on every string. */
  lemma ComposeSwap(t: Table, s: seq<Unit>)
    requires Composing(t) && KnowsUmlaut(t)
    ensures Compose(t, Swap(s)) == Compose(t, s)
  {
    if s != [] {
      SwapFront(s);
      if s[0] == 0xE4 {
        UmlautComposes(t, Swap(s[1..]));
      }
      ComposeFromSwap(t, s[0], s[1..]);
    }
  }

  /** There and back on a well-formed name composes it, whatever it held. */
  lemma ThereAndBack(t: Table, name: seq<Byte>)
    requires Composing(t) && KnowsUmlaut(t)
    requires WellFormed(name) && Fits(name)
    ensures Fits(ToAfp(name)) && ToUnix(t, ToAfp(name)) == Encode(Compose(t, Decode(name)))
  {
    var s := Decode(name);
    WellFormedFits(name);
    DecodeNonZero(name);
    EncodeDecode(name);
    ToAfpEncode(s);
    SwapNonZero(s);
    DecodeEncode(Swap(s));
    ComposeSwap(t, s);
  }

  lemma {:induction false} ToAfpNonNul(name: seq<Byte>)
    requires NonNul(name)
    ensures NonNul(ToAfp(name))
    decreases |name|
  {
    if name != [] {
      ToAfpNonNul(name[1..]);
      if |name| >= 2 {
        ToAfpNonNul(name[2..]);
      }
    }
  }

  /**
    Name round trip: a name sent to the server and read back is the same bytes
    if and only if it is well-formed UTF-8 (of at most three bytes a character)
    and no two neighbouring characters of it compose.
   */
  lemma NameRoundTripIff(t: Table, name: seq<Byte>)
    requires Composing(t) && KnowsUmlaut(t)
    requires NonNul(name) && Fits(ToAfp(name))
    ensures ToUnix(t, ToAfp(name)) == name <==> WellFormed(name) && Fits(name) && Normal(t, Decode(name))
  {
    var units := Decode(ToAfp(name));
    ToAfpNonNul(name);
    DecodeNonZero(ToAfp(name));
    ComposeSize(t, units);
    ComposeNormalForm(t, units);
    EncodeWellFormed(Compose(t, units));
    DecodeEncode(Compose(t, units));
    if WellFormed(name) {
      WellFormedFits(name);
      ThereAndBack(t, name);
      EncodeDecode(name);
      ComposeNormalForm(t, Decode(name));
    }
  }
}
