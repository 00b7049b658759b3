/**
  Canonical composition of UCS-2 characters (unicode.c, codepage.c): the uniform
  binary search over the composition table, for a table of any size, and the
  greedy pairwise composition of a string built on it.
 */
module Precompose {
  import opened Arith

  /** char16 */
  type Unit = n: nat | n < 0x10000

  datatype Row = Row(precomposed: Unit, pattern: nat)
  type Table = seq<Row>

  function Needle(first: Unit, second: Unit): (n: nat) {
    first * 0x10000 + second
  }

  /** Row 0 is the dummy entry; the N rows after it are in strictly increasing order of their patterns. */
  ghost predicate Searchable(t: Table) {
    && |t| >= 1 && t[0].pattern == 0
    && forall i, j :: 0 <= i < j < |t| ==> t[i].pattern < t[j].pattern
  }

  ghost predicate HasPair(t: Table, first: Unit, second: Unit, k: nat) {
    1 <= k < |t| && t[k].pattern == Needle(first, second)
  }

  /** The composition of two characters, or -1: what the table says, without any search. */
  ghost function Pair(t: Table, first: Unit, second: Unit): (r: int)
    ensures -1 <= r < 0x10000
  {
    if k: nat :| HasPair(t, first, second, k) then t[k].precomposed else -1
  }

  // ----- the search steps -----

  /** Entry j of the step table for N rows: N / 2^(j+1), rounded to the nearest integer. */
  function Step(n: nat, j: nat): (d: nat) {
    (n + Pow2(j)) / Pow2(j + 1)
  }

  ghost predicate IsDelta(delta: seq<nat>, n: nat) {
    && |delta| >= 1 && delta[|delta| - 1] == 0
    && forall j :: 0 <= j < |delta| ==> delta[j] == Step(n, j)
  }

  /** Halving twice is quartering, and the next step is half of what is left, rounded up. */
  lemma Halving(n: nat, p: nat)
    requires p >= 1
    ensures n / (2 * p) == n / p / 2
    ensures (n + p) / (2 * p) == (n / p + 1) / 2
  {
    var q, r := n / p, n % p;
    var h, b := q / 2, q % 2;
    assert n == q * p + r;
    assert q * p == h * (2 * p) + b * p;
    DivIs(n, 2 * p, h, b * p + r);
    if b == 0 {
      DivIs(n + p, 2 * p, h, p + r);
    } else {
      DivIs(n + p, 2 * p, h + 1, r);
    }
  }

  /** The steps stored in unicode.c are those for its 997 rows. */
  lemma StoredDelta()
    ensures IsDelta([499, 249, 125, 62, 31, 16, 8, 4, 2, 1, 0], 997)
  {
    assert Pow2(1) == 2;
    assert Pow2(3) == 8;
    assert Pow2(5) == 32;
    assert Pow2(7) == 128;
    assert Pow2(9) == 512;
    assert Pow2(11) == 2048;
  }

  /** Rows that hold the pair lie within m of row i. */
  ghost predicate Near(t: Table, first: Unit, second: Unit, i: int, m: nat) {
    forall k: nat :: HasPair(t, first, second, k) ==> i - m <= k <= i + m
  }

  /** One comparison halves the width. */
  lemma Narrows(t: Table, first: Unit, second: Unit, i: nat, m: nat, d: nat)
    requires Searchable(t) && i < |t| && t[i].pattern != Needle(first, second)
    requires Near(t, first, second, i, m) && d == (m + 1) / 2
    ensures Near(t, first, second, if Needle(first, second) < t[i].pattern then i - d else i + d, m / 2)
    ensures d == 0 ==> forall k: nat :: !HasPair(t, first, second, k)
  {
    forall k: nat | HasPair(t, first, second, k)
      ensures if Needle(first, second) < t[i].pattern then k < i else k > i
    {
      assert t[k].pattern == Needle(first, second);
    }
  }

  /**
    UCS2precompose: the uniform binary search is sound, complete and never
    leaves rows 0..N, for every table size N. Only two zero characters, which no
    pattern holds, may find the dummy row.
   */
  method UCS2precompose(t: Table, delta: seq<nat>, first: Unit, second: Unit) returns (r: int)
    requires Searchable(t) && IsDelta(delta, |t| - 1)
    ensures first > 0 || second > 0 ==>
              && r == Pair(t, first, second)
              && (r == -1 <==> forall k: nat :: !HasPair(t, first, second, k))
              && (forall k: nat :: HasPair(t, first, second, k) ==> r == t[k].precomposed)
    ensures first == second == 0 ==> r == -1 || r == t[0].precomposed
  {
    var n := |t| - 1;
    var i: int := delta[0];
    var j := 0;
    var needle := Needle(first, second);
    ghost var m: nat := n / 2;    // half the width of what is left to search
    assert Pow2(1) == 2;
    while delta[j] != 0
      invariant j < |delta| && m == n / Pow2(j + 1)
      invariant 0 <= i - m && i + m <= n
      invariant Near(t, first, second, i, m)
      invariant delta[j] == 0 ==> forall k: nat :: !HasPair(t, first, second, k)
      decreases |delta| - j
    {
      j := j + 1;
      Halving(n, Pow2(j));
      assert delta[j] == (m + 1) / 2;
      if needle != t[i].pattern {
        Narrows(t, first, second, i, m, delta[j]);
      }
      if needle < t[i].pattern {
        i := i - delta[j];
      } else if needle > t[i].pattern {
        i := i + delta[j];
      } else {
        assert first > 0 || second > 0 ==> HasPair(t, first, second, i);
        return t[i].precomposed;
      }
      m := m / 2;
    }
    r := -1;
  }

  // ----- greedy composition of a string -----

  /** The loop of convert_utf8dec_to_utf8pre with `prev` kept back for the next character. */
  ghost function ComposeFrom(t: Table, prev: Unit, s: seq<Unit>): (r: seq<Unit>)
    decreases |s|
  {
    if s == [] then [prev]
    else
      var c := Pair(t, prev, s[0]);
      if c != -1 then ComposeFrom(t, c, s[1..]) else [prev] + ComposeFrom(t, s[0], s[1..])
  }

  ghost function Compose(t: Table, s: seq<Unit>): (r: seq<Unit>) {
    if s == [] then [] else ComposeFrom(t, s[0], s[1..])
  }

  /** A string of characters, without the terminator. */
  ghost predicate NonZero(s: seq<Unit>) {
    forall i :: 0 <= i < |s| ==> s[i] > 0
  }

  /** No two neighbours compose. */
  ghost predicate Normal(t: Table, s: seq<Unit>) {
    forall i :: 0 <= i < |s| - 1 ==> Pair(t, s[i], s[i + 1]) == -1
  }

  ghost predicate IsResult(t: Table, c: Unit, k: nat) {
    1 <= k < |t| && t[k].precomposed == c
  }

  /** What the stored table satisfies besides being in order. */
  ghost predicate Composing(t: Table) {
    && Searchable(t)
    && (forall c: Unit, k: nat, l: nat :: IsResult(t, c, k) && IsResult(t, c, l) ==> k == l)
    && (forall k :: 1 <= k < |t| ==> t[k].precomposed > 0 && t[k].pattern < 0x1_0000_0000)
    && (forall a: Unit, b: Unit, k: nat, l: nat :: HasPair(t, a, b, k) ==> !IsResult(t, b, l))
  }

  lemma {:induction false} ComposeFromNormal(t: Table, prev: Unit, s: seq<Unit>)
    requires Composing(t)
    ensures Normal(t, ComposeFrom(t, prev, s))
    ensures ComposeFrom(t, prev, s) != []
    ensures forall before: Unit :: Pair(t, before, prev) == -1 ==> Pair(t, before, ComposeFrom(t, prev, s)[0]) == -1
    decreases |s|
  {
    if s != [] {
      var c := Pair(t, prev, s[0]);
      if c != -1 {
        ComposeFromNormal(t, c, s[1..]);
        var k: nat :| HasPair(t, prev, s[0], k);
        assert IsResult(t, c, k);
        forall before: Unit ensures Pair(t, before, c) == -1 {
        }
      } else {
        ComposeFromNormal(t, s[0], s[1..]);
      }
    }
  }

  lemma {:induction false} ComposeFromFixed(t: Table, prev: Unit, s: seq<Unit>)
    requires Normal(t, [prev] + s)
    ensures ComposeFrom(t, prev, s) == [prev] + s
    decreases |s|
  {
    if s != [] {
      assert ([prev] + s)[0] == prev && ([prev] + s)[1] == s[0];
      forall i | 0 <= i < |s| - 1 ensures Pair(t, s[i], s[i + 1]) == -1 {
        assert s[i] == ([prev] + s)[i + 1] && s[i + 1] == ([prev] + s)[i + 2];
      }
      assert [s[0]] + s[1..] == s;
      ComposeFromFixed(t, s[0], s[1..]);
    }
  }

  /** Composition reaches a normal form, and leaves exactly the normal forms alone. */
  lemma ComposeNormalForm(t: Table, s: seq<Unit>)
    requires Composing(t)
    ensures Normal(t, Compose(t, s))
    ensures Compose(t, s) == s <==> Normal(t, s)
    ensures Compose(t, Compose(t, s)) == Compose(t, s)
  {
    if s != [] {
      ComposeFromNormal(t, s[0], s[1..]);
    }
    NormalFixed(t, s);
    NormalFixed(t, Compose(t, s));
  }

  lemma NormalFixed(t: Table, s: seq<Unit>)
    ensures Normal(t, s) ==> Compose(t, s) == s
  {
    if s != [] && Normal(t, s) {
      assert [s[0]] + s[1..] == s;
      ComposeFromFixed(t, s[0], s[1..]);
    }
  }

  lemma {:induction false} ComposeFromSize(t: Table, prev: Unit, s: seq<Unit>)
    requires Composing(t) && prev > 0 && NonZero(s)
    ensures |ComposeFrom(t, prev, s)| <= 1 + |s|
    ensures NonZero(ComposeFrom(t, prev, s))
    decreases |s|
  {
    if s != [] {
      var c := Pair(t, prev, s[0]);
      ComposeFromSize(t, if c != -1 then c else s[0], s[1..]);
    }
  }

  /** The result fits where the input did, and has no terminator inside. */
  lemma ComposeSize(t: Table, s: seq<Unit>)
    requires Composing(t) && NonZero(s)
    ensures |Compose(t, s)| <= |s|
    ensures NonZero(Compose(t, s))
  {
    if s != [] {
      ComposeFromSize(t, s[0], s[1..]);
    }
  }

  // ----- meaning: full decomposition through the table -----

  /** Decomposition is well-founded: both halves of a pattern come before its result. */
  ghost predicate WellFounded(t: Table, rank: Unit -> nat) {
    forall a: Unit, b: Unit, k: nat :: HasPair(t, a, b, k) ==>
      rank(a) < rank(t[k].precomposed) && rank(b) < rank(t[k].precomposed)
  }

  ghost function First(n: nat): (u: Unit)
    requires n < 0x1_0000_0000
  {
    n / 0x10000
  }

  ghost function Second(n: nat): (u: Unit) {
    n % 0x10000
  }

  lemma Halves(t: Table, k: nat)
    requires Composing(t) && 1 <= k < |t|
    ensures HasPair(t, First(t[k].pattern), Second(t[k].pattern), k)
  {
  }

  /** Everything a character stands for, decomposed as far as the table goes. */
  ghost function Unfold(t: Table, rank: Unit -> nat, c: Unit): (r: seq<Unit>)
    requires Composing(t) && WellFounded(t, rank)
    decreases rank(c)
  {
    if k: nat :| IsResult(t, c, k) then
      Halves(t, k);
      Unfold(t, rank, First(t[k].pattern)) + Unfold(t, rank, Second(t[k].pattern))
    else [c]
  }

  ghost function UnfoldAll(t: Table, rank: Unit -> nat, s: seq<Unit>): (r: seq<Unit>)
    requires Composing(t) && WellFounded(t, rank)
  {
    if s == [] then [] else Unfold(t, rank, s[0]) + UnfoldAll(t, rank, s[1..])
  }

  /** Composing two characters does not change what they stand for. */
  lemma PairUnfolds(t: Table, rank: Unit -> nat, a: Unit, b: Unit)
    requires Composing(t) && WellFounded(t, rank)
    requires Pair(t, a, b) != -1
    ensures Unfold(t, rank, Pair(t, a, b)) == Unfold(t, rank, a) + Unfold(t, rank, b)
  {
    var c: Unit := Pair(t, a, b);
    var k: nat :| HasPair(t, a, b, k) && t[k].precomposed == c;
    assert IsResult(t, c, k);
    assert First(t[k].pattern) == a && Second(t[k].pattern) == b;
    forall l: nat | IsResult(t, c, l) ensures l == k {
    }
  }

  lemma UnfoldCons(t: Table, rank: Unit -> nat, c: Unit, s: seq<Unit>)
    requires Composing(t) && WellFounded(t, rank)
    ensures UnfoldAll(t, rank, [c] + s) == Unfold(t, rank, c) + UnfoldAll(t, rank, s)
  {
    assert ([c] + s)[1..] == s;
  }

  lemma {:induction false} ComposeFromUnfolds(t: Table, rank: Unit -> nat, prev: Unit, s: seq<Unit>)
    requires Composing(t) && WellFounded(t, rank)
    ensures UnfoldAll(t, rank, ComposeFrom(t, prev, s)) == UnfoldAll(t, rank, [prev] + s)
    decreases |s|
  {
    if s == [] {
      assert [prev] + s == [prev];
    } else {
      var c := Pair(t, prev, s[0]);
      var rest := s[1..];
      assert s == [s[0]] + rest;
      if c != -1 {
        ComposeFromUnfolds(t, rank, c, rest);
        MergeUnfolds(t, rank, prev, s[0], rest);
      } else {
        ComposeFromUnfolds(t, rank, s[0], rest);
        UnfoldCons(t, rank, prev, ComposeFrom(t, s[0], rest));
        UnfoldCons(t, rank, prev, s);
      }
    }
  }

  lemma MergeUnfolds(t: Table, rank: Unit -> nat, a: Unit, b: Unit, rest: seq<Unit>)
    requires Composing(t) && WellFounded(t, rank)
    requires Pair(t, a, b) != -1
    ensures UnfoldAll(t, rank, [Pair(t, a, b) as Unit] + rest) == UnfoldAll(t, rank, [a] + ([b] + rest))
  {
    PairUnfolds(t, rank, a, b);
    UnfoldCons(t, rank, Pair(t, a, b), rest);
    UnfoldCons(t, rank, b, rest);
    UnfoldCons(t, rank, a, [b] + rest);
  }

  /** Composition preserves meaning: the output unfolds to what the input unfolds to. */
  lemma ComposePreservesMeaning(t: Table, rank: Unit -> nat, s: seq<Unit>)
    requires Composing(t) && WellFounded(t, rank)
    ensures UnfoldAll(t, rank, Compose(t, s)) == UnfoldAll(t, rank, s)
  {
    if s != [] {
      ComposeFromUnfolds(t, rank, s[0], s[1..]);
      assert [s[0]] + s[1..] == s;
    }
  }
}
