/** The 32-bit FNV-1a hash (Fowler-Noll-Vo, IETF Internet-Draft
    draft-eastlake-fnv, section 2), as Go's `hash/fnv.New32a` computes it:
    start from the offset basis and, for each byte, xor the byte into the
    state and multiply by the FNV prime modulo 2^32. `bv32` arithmetic wraps
    modulo 2^32 exactly as Go's `uint32` does. */
module Fnv {
  import opened GoStrings

  const OffsetBasis32: bv32 := 2166136261
  const Prime32: bv32 := 16777619

  /** One FNV-1a round: xor, then multiply. */
  function Step(h: bv32, b: byte): bv32 {
    (h ^ (b as bv32)) * Prime32
  }

  /** The state reached from `h` after writing the bytes of `s`, first byte
      first. */
  function Absorb(h: bv32, s: Bytes): bv32
    decreases |s|
  {
    if s == [] then h else Absorb(Step(h, s[0]), s[1..])
  }

  /** `fnv.New32a()`, one `Write(s)`, then `Sum32()`. */
  function Sum32a(s: Bytes): (h: bv32)
    ensures s == [] ==> h == OffsetBasis32
    ensures s != [] ==> h == Step(Absorb(OffsetBasis32, s[..|s| - 1]), s[|s| - 1])
  {
    if s == [] then OffsetBasis32
    else
      AbsorbSnoc(OffsetBasis32, s[..|s| - 1], s[|s| - 1]);
      assert s[..|s| - 1] + [s[|s| - 1]] == s;
      Absorb(OffsetBasis32, s)
  }

  /** Writing `a` and then `b` leaves the same state as writing `a + b` in
      one call: the hash is a left fold, so it can be streamed. */
  lemma {:induction false} AbsorbConcat(h: bv32, a: Bytes, b: Bytes)
    ensures Absorb(h, a + b) == Absorb(Absorb(h, a), b)
    decreases |a|
  {
    if a != [] {
      assert (a + b)[0] == a[0] && (a + b)[1..] == a[1..] + b;
      AbsorbConcat(Step(h, a[0]), a[1..], b);
    } else {
      assert a + b == b;
    }
  }

  /** Appending one byte performs exactly one more round. */
  lemma AbsorbSnoc(h: bv32, s: Bytes, b: byte)
    ensures Absorb(h, s + [b]) == Step(Absorb(h, s), b)
  {
    AbsorbConcat(h, s, [b]);
  }

  /** The per-byte loop that `hash/fnv` runs in `Write`, proved to compute
      `Sum32a`. */
  method Hash32a(data: Bytes) returns (h: bv32)
    ensures h == Sum32a(data)
  {
    h := OffsetBasis32;
    var i := 0;
    while i < |data|
      invariant 0 <= i <= |data|
      invariant h == Sum32a(data[..i])
    {
      assert data[..i + 1][..i] == data[..i];
      h := Step(h, data[i]);
      i := i + 1;
    }
    assert data[..i] == data;
  }

  /** Test vectors of the FNV-1a 32-bit hash: "a" and "foobar". */
  lemma KnownVectors()
    ensures Sum32a([97]) == 0xe40c292c
    ensures Sum32a([102, 111, 111, 98, 97, 114]) == 0xbf9cf968
  {
    var foobar: Bytes := [102, 111, 111, 98, 97, 114];
    assert Step(OffsetBasis32, 102) == 0xe30c2799;
    assert Step(0xe30c2799, 111) == 0x6222e842;
    assert Step(0x6222e842, 111) == 0xa9f37ed7;
    assert Step(0xa9f37ed7, 98) == 0x3f5076ef;
    assert Step(0x3f5076ef, 97) == 0x39aaa18a;
    assert Step(0x39aaa18a, 114) == 0xbf9cf968;
    assert foobar[1..][1..][1..][1..][1..][1..] == [];
  }
}
