/** Bytes on the wire and in buffers, and big-endian integers made of them. */
module Bytes {
  type Byte = n: nat | n < 256

  function Be16(b: seq<Byte>): (n: nat)
    requires |b| == 2
    ensures n < 0x1_0000
  {
    var hi: nat, lo: nat := b[0], b[1];
    hi * 0x100 + lo
  }

  function Be32(b: seq<Byte>): (n: nat)
    requires |b| == 4
    ensures n < 0x1_0000_0000
  {
    Be16(b[..2]) * 0x1_0000 + Be16(b[2..])
  }

  function ToBe16(n: nat): (b: seq<Byte>)
    requires n < 0x1_0000
    ensures |b| == 2 && Be16(b) == n
  {
    [n / 0x100, n % 0x100]
  }

  function ToBe32(n: nat): (b: seq<Byte>)
    requires n < 0x1_0000_0000
    ensures |b| == 4 && Be32(b) == n
  {
    var b := ToBe16(n / 0x1_0000) + ToBe16(n % 0x1_0000);
    assert b[..2] == ToBe16(n / 0x1_0000) && b[2..] == ToBe16(n % 0x1_0000);
    b
  }

  /** The most significant byte comes first. */
  lemma MostSignificantFirst(a: Byte, b: Byte, c: Byte, d: Byte)
    ensures Be16([a, b]) == a * 256 + b
    ensures Be32([a, b, c, d]) == a * 16777216 + b * 65536 + c * 256 + d
  {
    assert [a, b, c, d][..2] == [a, b] && [a, b, c, d][2..] == [c, d];
  }

  lemma SliceOfFirst(a: seq<Byte>, b: seq<Byte>, i: nat, j: nat)
    requires i <= j <= |a|
    ensures (a + b)[i..j] == a[i..j]
  {
  }

  lemma SliceOfSecond(a: seq<Byte>, b: seq<Byte>)
    ensures (a + b)[|a|..|a| + |b|] == b
  {
  }

  /** Cutting a concatenation inside its first part. */
  lemma CutInFirst(a: seq<Byte>, b: seq<Byte>, n: nat)
    requires n <= |a|
    ensures (a + b)[..n] == a[..n] && (a + b)[n..] == a[n..] + b
  {
  }

  lemma SliceOfSlice(b: seq<Byte>, lo: nat, hi: nat, i: nat, j: nat)
    requires lo <= hi <= |b| && i <= j <= hi - lo
    ensures b[lo..hi][i..j] == b[lo + i..lo + j]
  {
    var s, t := b[lo..hi][i..j], b[lo + i..lo + j];
    forall k | 0 <= k < j - i ensures s[k] == t[k] {
      assert s[k] == b[lo..hi][i + k] == b[lo + (i + k)];
      assert t[k] == b[lo + i + k];
    }
  }

  /** Stores bytes at buf[at..]. */
  method Put(buf: array<Byte>, at: nat, bytes: seq<Byte>)
    requires at + |bytes| <= buf.Length
    modifies buf
    ensures forall i :: at <= i < at + |bytes| ==> buf[i] == bytes[i - at]
    ensures forall i :: 0 <= i < buf.Length && !(at <= i < at + |bytes|) ==> buf[i] == old(buf[i])
  {
    forall i | 0 <= i < |bytes| {
      buf[at + i] := bytes[i];
    }
  }
}
