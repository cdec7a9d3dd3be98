/** Which argument each directive of a `fmt` template consumes, reduced to
    what the `%w` scan of the error constructor needs: `%%` prints a percent
    sign and consumes no argument, `%` followed by any other byte is a verb
    that consumes the next argument, and a `%` at the very end consumes
    nothing. Flags, width, precision, `*` and explicit argument indexes
    such as `%[2]w` are not part of this model. */
module Fmt {
  import opened GoStrings

  /** The verb bytes of `t`, one per argument consumed, in order. */
  function Verbs(t: Bytes): (v: Bytes)
    decreases |t|
  {
    if |t| < 2 then []
    else if t[0] != Percent then Verbs(t[1..])
    else if t[1] == Percent then Verbs(t[2..])
    else [t[1]] + Verbs(t[2..])
  }

  /** The position, among the arguments, of the one the first `%w` verb
      consumes, or -1 when the template has no `%w` verb: the argument
      `fmt.Errorf` wraps. */
  function IntendedWrapArg(t: Bytes): (k: int)
    ensures -1 <= k < |Verbs(t)|
    ensures k == -1 <==> LowerW !in Verbs(t)
    ensures 0 <= k ==> Verbs(t)[k] == LowerW && LowerW !in Verbs(t)[..k]
  {
    IndexByte(Verbs(t), LowerW)
  }

  /** The `%w` scan with literal percent signs skipped: it walks the
      template one directive at a time and counts only the directives that
      consume an argument. */
  method WrapArgScan(template: Bytes) returns (k: int)
    ensures k == IntendedWrapArg(template)
  {
    var s, n, i := |template|, 0, 0;
    ghost var done: Bytes := [];
    while i < s
      invariant 0 <= i <= s
      invariant Verbs(template) == done + Verbs(template[i..])
      invariant LowerW !in done && n == |done|
    {
      VerbsFrom(template, i);
      if template[i] == Percent && i + 1 < s {
        if template[i + 1] == LowerW {
          var after := Verbs(template[i + 2..]);
          assert Verbs(template) == done + [LowerW] + after;
          IndexByteAfter(done, LowerW, after);
          return n;
        }
        if template[i + 1] != Percent {
          done, n := done + [template[i + 1]], n + 1;
        }
        i := i + 2;
      } else {
        i := i + 1;
      }
    }
    assert template[i..] == [];
    assert done == Verbs(template);
    k := -1;
  }

  /** One directive or literal byte of `t`, read at `i`. */
  lemma VerbsFrom(t: Bytes, i: int)
    requires 0 <= i < |t|
    ensures Verbs(t[i..]) ==
              if t[i] != Percent || i + 1 == |t| then Verbs(t[i + 1..])
              else if t[i + 1] == Percent then Verbs(t[i + 2..])
              else [t[i + 1]] + Verbs(t[i + 2..])
  {
    var r := t[i..];
    if i + 1 < |t| {
      assert r[0] == t[i] && r[1] == t[i + 1] && r[1..] == t[i + 1..] && r[2..] == t[i + 2..];
    }
  }

  /** True when no `%` follows another `%` in `t`, so that every `%`
      starts a directive. */
  predicate NoLiteralPercent(t: Bytes) {
    forall i | 0 <= i < |t| - 1 :: !(t[i] == Percent && t[i + 1] == Percent)
  }

  /** A suffix of a template without literal percent signs has none. */
  lemma NoLiteralPercentDrop(t: Bytes, n: int)
    requires NoLiteralPercent(t) && 0 <= n <= |t|
    ensures NoLiteralPercent(t[n..])
  {
    var u := t[n..];
    assert forall i | 0 <= i < |u| :: u[i] == t[i + n];
  }
}
