/** Byte strings and the few operations of Go's `strings` package that the
    error constructor relies on: `strings.Index` with a one-byte pattern,
    `strings.Contains` with a one-byte pattern and `strings.TrimSpace`.
    A Go `string` is an immutable sequence of bytes and all of its indexing
    and slicing is by byte, so it is modelled as `seq<byte>`. */
module GoStrings {

  newtype byte = b: int | 0 <= b < 256

  type Bytes = seq<byte>

  const Space: byte := 32
  const Hash: byte := 35
  const Percent: byte := 37
  const Plus: byte := 43
  const Minus: byte := 45
  const Zero: byte := 48
  const Colon: byte := 58
  const LowerW: byte := 119

  /** The bytes `strings.TrimSpace` removes from either end of an ASCII
      string: tab, line feed, vertical tab, form feed, carriage return and
      space. */
  predicate IsSpace(b: byte) {
    9 <= b <= 13 || b == 32
  }

  /** `strings.Index(s, string(c))`: the index of the first `c` in `s`, or -1. */
  function IndexByte(s: Bytes, c: byte): (r: int)
    ensures -1 <= r < |s|
    ensures r == -1 <==> c !in s
    ensures 0 <= r ==> s[r] == c && c !in s[..r]
  {
    if s == [] then -1
    else if s[0] == c then 0
    else
      var r := IndexByte(s[1..], c);
      assert s[1..][..if r < 0 then 0 else r] == s[1..if r < 0 then 1 else r + 1];
      if r < 0 then -1 else r + 1
  }

  /** In `u + [c] + v` with no `c` in `u`, the first `c` is the one after `u`. */
  lemma IndexByteAfter(u: Bytes, c: byte, v: Bytes)
    requires c !in u
    ensures IndexByte(u + [c] + v, c) == |u|
  {
    var s := u + [c] + v;
    var r := IndexByte(s, c);
    assert s[|u|] == c;
    assert s[..|u|] == u;
    assert r <= |u|;
  }

  /** When the first `c` of `u + [c] + v` is its last byte, `v` is empty. */
  lemma FirstIsLast(u: Bytes, c: byte, v: Bytes)
    requires c !in u
    requires IndexByte(u + [c] + v, c) == |u + [c] + v| - 1
    ensures v == []
  {
    IndexByteAfter(u, c, v);
  }

  /** A byte other than `c` in front moves the first `c` back by one. */
  lemma IndexByteCons(x: byte, v: Bytes, c: byte)
    requires x != c
    ensures IndexByte([x] + v, c) == if IndexByte(v, c) < 0 then -1 else IndexByte(v, c) + 1
  {
    assert ([x] + v)[1..] == v;
  }

  /** True when `s` has no whitespace at either end. */
  predicate Trimmed(s: Bytes) {
    s == [] || (!IsSpace(s[0]) && !IsSpace(s[|s| - 1]))
  }

  /** The number of whitespace bytes `s` starts with. */
  function LeadingSpace(s: Bytes): (n: nat)
    ensures n <= |s|
    ensures n < |s| ==> !IsSpace(s[n])
    decreases |s|
  {
    if s != [] && IsSpace(s[0]) then
      var n := LeadingSpace(s[1..]);
      assert n < |s| - 1 ==> s[1..][n] == s[n + 1];
      1 + n
    else 0
  }

  /** The number of whitespace bytes `s` ends with. */
  function TrailingSpace(s: Bytes): (n: nat)
    ensures n <= |s|
    ensures n < |s| ==> !IsSpace(s[|s| - n - 1])
    decreases |s|
  {
    if s != [] && IsSpace(s[|s| - 1]) then
      var n := TrailingSpace(s[..|s| - 1]);
      assert n < |s| - 1 ==> s[..|s| - 1][|s| - 1 - n - 1] == s[|s| - n - 2];
      1 + n
    else 0
  }

  /** `strings.TrimSpace` on ASCII text: `start` skips the leading
      whitespace, `stop` then backs off the trailing whitespace after
      `start`, and the result is `s[start:stop]`. */
  function TrimSpace(s: Bytes): (r: Bytes)
    ensures Trimmed(r)
    ensures |r| <= |s|
  {
    var start := LeadingSpace(s);
    var stop := |s| - TrailingSpace(s[start..]);
    assert start < stop ==> s[start..][stop - start - 1] == s[stop - 1];
    s[start..stop]
  }

  /** The bytes of `s` at positions `lo` up to `hi` exist and are all
      whitespace. */
  predicate AllSpace(s: Bytes, lo: int, hi: int) {
    forall j | lo <= j < hi :: 0 <= j < |s| && IsSpace(s[j])
  }

  /** Everything `LeadingSpace` counts is whitespace. */
  lemma {:induction false} LeadingAllSpace(s: Bytes)
    ensures AllSpace(s, 0, LeadingSpace(s))
    decreases |s|
  {
    if s != [] && IsSpace(s[0]) {
      LeadingAllSpace(s[1..]);
      assert forall j | 1 <= j < LeadingSpace(s) :: s[j] == s[1..][j - 1];
    }
  }

  /** Everything `TrailingSpace` counts is whitespace. */
  lemma {:induction false} TrailingAllSpace(s: Bytes)
    ensures AllSpace(s, |s| - TrailingSpace(s), |s|)
    decreases |s|
  {
    if s != [] && IsSpace(s[|s| - 1]) {
      TrailingAllSpace(s[..|s| - 1]);
      assert forall j | |s| - TrailingSpace(s) <= j < |s| - 1 :: s[j] == s[..|s| - 1][j];
    }
  }

  /** `LeadingSpace` is singled out by its two properties: whitespace up to
      `i`, and no whitespace at `i`. */
  lemma {:induction false} LeadingSpaceAt(s: Bytes, i: nat)
    requires i <= |s| && AllSpace(s, 0, i) && (i == |s| || !IsSpace(s[i]))
    ensures LeadingSpace(s) == i
    decreases i
  {
    if i > 0 {
      var t := s[1..];
      assert forall j | 0 <= j < i - 1 :: t[j] == s[j + 1];
      assert i - 1 < |t| ==> t[i - 1] == s[i];
      LeadingSpaceAt(t, i - 1);
    }
  }

  /** `TrailingSpace` is singled out by its two properties: whitespace in
      the last `k` bytes, and no whitespace just before them. */
  lemma {:induction false} TrailingSpaceAt(s: Bytes, k: nat)
    requires k <= |s| && AllSpace(s, |s| - k, |s|) && (k == |s| || !IsSpace(s[|s| - k - 1]))
    ensures TrailingSpace(s) == k
    decreases k
  {
    if k > 0 {
      var t := s[..|s| - 1];
      assert forall j | |t| - (k - 1) <= j < |t| :: t[j] == s[j];
      assert k - 1 < |t| ==> t[|t| - (k - 1) - 1] == s[|s| - k - 1];
      TrailingSpaceAt(t, k - 1);
    }
  }

  /** `r` is the infix of `s` at `i` that neither starts nor ends with
      whitespace and has only whitespace before and after it in `s`. */
  predicate TrimmedInfix(s: Bytes, i: nat, r: Bytes) {
    i + |r| <= |s| && r == s[i..i + |r|] && Trimmed(r) &&
    AllSpace(s, 0, i) && AllSpace(s, i + |r|, |s|)
  }

  /** `TrimSpace(s)` is the infix of `s` that starts after the leading
      whitespace, neither starts nor ends with whitespace, and is followed
      only by whitespace. */
  lemma TrimSpaceIsInfix(s: Bytes)
    ensures TrimmedInfix(s, LeadingSpace(s), TrimSpace(s))
  {
    var start := LeadingSpace(s);
    var l := s[start..];
    var stop := |s| - TrailingSpace(l);
    assert TrimSpace(s) == s[start..stop] && |TrimSpace(s)| == stop - start;
    assert AllSpace(s, 0, start) by {
      LeadingAllSpace(s);
    }
    assert AllSpace(s, stop, |s|) by {
      TrailingAllSpace(l);
      SpaceInSuffix(s, start, stop - start);
    }
  }

  /** Conversely, there is only one such infix: whatever `r` satisfies
      `TrimmedInfix` is `TrimSpace(s)`. */
  lemma TrimmedInfixIsTrimSpace(s: Bytes, i: nat, r: Bytes)
    requires TrimmedInfix(s, i, r)
    ensures r == TrimSpace(s)
  {
    if r == [] {
      assert AllSpace(s, 0, |s|);
      LeadingSpaceAt(s, |s|);
      assert s[|s|..] == [];
    } else {
      assert s[i] == r[0];
      LeadingSpaceAt(s, i);
      var l, k := s[i..], |s| - i - |r|;
      assert forall j | |l| - k <= j < |l| :: l[j] == s[j + i];
      assert l[|l| - k - 1] == r[|r| - 1];
      TrailingSpaceAt(l, k);
    }
  }

  /** Whitespace at the end of the suffix `s[i..]` is whitespace at the end
      of `s`. */
  lemma SpaceInSuffix(s: Bytes, i: nat, n: nat)
    requires i + n <= |s|
    requires AllSpace(s[i..], n, |s| - i)
    ensures AllSpace(s, i + n, |s|)
  {
    forall j | i + n <= j < |s|
      ensures IsSpace(s[j])
    {
      assert s[j] == s[i..][j - i];
    }
  }

  /** Trimming text that is already trimmed changes nothing. */
  lemma TrimmedIsFixpoint(s: Bytes)
    requires Trimmed(s)
    ensures TrimSpace(s) == s
  {
    TrimmedInfixIsTrimSpace(s, 0, s);
  }

  /** `strings.TrimSpace` is idempotent. */
  lemma TrimSpaceIdempotent(s: Bytes)
    ensures TrimSpace(TrimSpace(s)) == TrimSpace(s)
  {
    TrimmedIsFixpoint(TrimSpace(s));
  }

  /** A byte that is not whitespace stops the count of leading whitespace. */
  lemma {:induction false} LeadingAround(u: Bytes, c: byte, x: Bytes)
    requires !IsSpace(c)
    ensures LeadingSpace(u + [c] + x) == LeadingSpace(u)
    decreases |u|
  {
    var w := u + [c] + x;
    if u == [] {
      assert w[0] == c;
    } else {
      assert w[0] == u[0];
      if IsSpace(u[0]) {
        assert w[1..] == u[1..] + [c] + x;
        LeadingAround(u[1..], c, x);
      }
    }
  }

  /** A byte that is not whitespace stops the count of trailing whitespace. */
  lemma {:induction false} TrailingAfter(p: Bytes, c: byte, x: Bytes)
    requires !IsSpace(c)
    ensures TrailingSpace(p + [c] + x) == TrailingSpace(x)
    decreases |x|
  {
    var w := p + [c] + x;
    if x == [] {
      assert w[|w| - 1] == c;
    } else {
      assert w[|w| - 1] == x[|x| - 1];
      if IsSpace(x[|x| - 1]) {
        assert w[..|w| - 1] == p + [c] + x[..|x| - 1];
        TrailingAfter(p, c, x[..|x| - 1]);
      }
    }
  }

  /** Around a byte that is not whitespace, trimming drops the leading
      whitespace of the left part and the trailing whitespace of the right
      part, and nothing else. */
  lemma TrimLengthAround(u: Bytes, c: byte, x: Bytes)
    requires !IsSpace(c)
    ensures |TrimSpace(u + [c] + x)| == |u| - LeadingSpace(u) + 1 + |x| - TrailingSpace(x)
  {
    var w := u + [c] + x;
    LeadingAround(u, c, x);
    var start := LeadingSpace(u);
    assert w[start..] == u[start..] + [c] + x;
    TrailingAfter(u[start..], c, x);
  }

  /** Past a byte that is not whitespace, a suffix ends with the same
      whitespace as the whole text. */
  lemma TrailingSpaceOfSuffix(s: Bytes, i: nat)
    requires i < |s| && !IsSpace(s[i])
    ensures TrailingSpace(s) == TrailingSpace(s[i..])
  {
    var l := s[i..];
    var k := TrailingSpace(l);
    TrailingAllSpace(l);
    assert l[0] == s[i];
    assert k < |l|;
    SpaceInSuffix(s, i, |l| - k);
    assert l[|l| - k - 1] == s[|s| - k - 1];
    TrailingSpaceAt(s, k);
  }

  /** Trimming removes at least the trailing whitespace. */
  lemma TrimSpaceBound(s: Bytes)
    ensures |TrimSpace(s)| + TrailingSpace(s) <= |s|
  {
    var start := LeadingSpace(s);
    var k := TrailingSpace(s[start..]);
    assert |TrimSpace(s)| == |s| - k - start;
    if start < |s| {
      TrailingSpaceOfSuffix(s, start);
    }
  }

  /** Inserting a non-whitespace byte before another one makes the trimmed
      text one byte longer. */
  lemma TrimSpaceDropsInsertedByte(u: Bytes, c: byte, d: byte, rest: Bytes)
    requires !IsSpace(c) && !IsSpace(d)
    ensures |TrimSpace(u + [c] + [d] + rest)| == |TrimSpace(u + [d] + rest)| + 1
  {
    TrimLengthAround(u + [c], d, rest);
    LeadingAround(u, c, []);
    assert u + [c] + [] == u + [c];
    TrimLengthAround(u, d, rest);
  }

  /** Two non-whitespace bytes in front of `rest` survive trimming, so the
      trimmed text is longer than `rest` trimmed. */
  lemma TrimSpaceDropsTwoBytes(c: byte, d: byte, rest: Bytes)
    requires !IsSpace(c) && !IsSpace(d)
    ensures |TrimSpace([c] + [d] + rest)| > |TrimSpace(rest)|
  {
    TrimLengthAround([c], d, rest);
    assert LeadingSpace([c]) == 0;
    TrimSpaceBound(rest);
  }
}
