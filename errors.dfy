/** The structured error of package `errors` (error.go): an error value built
    from a formatted message of the form `tag#code:message`, with a 32-bit
    FNV-1a identity, the call site that built it and an optional wrapped
    cause; and the two walks over a chain of wrapped Go errors, `Extract`
    and `First`.

    What Go computes outside this package is taken as input: the text
    `fmt.Errorf(message, args...).Error()` (`text`), the text
    `fmt.Sprintf(message, args...)` (`sprinted`), and the frames that
    `runtime.Caller` can see (`frames`). */
module Errors {
  import opened GoStrings
  import Fnv
  import Strconv
  import Fmt

  datatype Option<+T> = None | Some(value: T)

  /** The call site recorded by `Trace`: file, line and function name. */
  datatype Site = Site(file: Bytes, line: int, funk: Bytes)

  /** `errors.Error`. Its fields are set while `Trace` builds it and never
      change afterwards. */
  datatype Error = Error(
    wrapped: Option<GoError>,
    message: Bytes,
    tag: Bytes,
    code: Bytes,
    id: bv32,
    trace: Site)

  /** A non-nil Go `error`: either this package's `*Error`, or any other
      error, known by its text and by what its `Unwrap` method returns
      (`None` when it has no such method or the method returns nil). */
  datatype GoError = Lib(err: Error) | Foreign(text: Bytes, cause: Option<GoError>)

  /** An argument of the formatted message: an error, or any other value. */
  datatype Arg = ErrorArg(err: GoError) | OtherArg

  // ---------------------------------------------------------------------
  // The head of a message: `tag#code:` before the first colon
  // ---------------------------------------------------------------------

  /** The tag, code and message `Trace` takes from a formatted text. */
  datatype Parts = Parts(tag: Bytes, code: Bytes, message: Bytes)

  /** The bytes before the first colon of `m` (all of `m` when it has none). */
  function Head(m: Bytes): (h: Bytes)
    ensures Colon !in h
    ensures Colon in m ==> |h| < |m| && m == h + [Colon] + m[|h| + 1..]
  {
    var i := IndexByte(m, Colon);
    if i < 0 then m else m[..i]
  }

  /** True when `m` starts with a head: its first colon is not its first
      byte and no space comes before it. */
  predicate HasHead(m: Bytes) {
    Colon in m && Head(m) != [] && Space !in Head(m)
  }

  /** The parse in `Trace` (error.go:32-38). */
  function Split(m: Bytes): (p: Parts)
    ensures Colon !in p.tag && Colon !in p.code
    ensures Hash !in p.tag && Space !in p.tag && Space !in p.code
    ensures !HasHead(m) ==> p == Parts([], [], TrimSpace(m))
    ensures HasHead(m) ==> m == Head(m) + [Colon] + p.message
    ensures HasHead(m) && Hash in Head(m) ==> Head(m) == p.tag + [Hash] + p.code
    ensures HasHead(m) && Hash !in Head(m) ==> p.tag == Head(m) && p.code == []
  {
    var i := IndexByte(m, Colon);
    if i > 0 && Space !in m[..i] then
      var head := m[..i];
      assert Head(m) == head && HasHead(m);
      assert m == head + [Colon] + m[i + 1..];
      var k := IndexByte(head, Hash);
      if k >= 0 then
        var tag, code := head[..k], head[k + 1..];
        assert head == tag + [Hash] + code;
        assert forall b | b in tag || b in code :: b in head;
        Parts(tag, code, m[i + 1..])
      else
        Parts(head, [], m[i + 1..])
    else
      assert !HasHead(m);
      Parts([], [], TrimSpace(m))
  }

  // ---------------------------------------------------------------------
  // Canonical rendering
  // ---------------------------------------------------------------------

  /** The text `Error` formats before trimming it. */
  function Joined(tag: Bytes, code: Bytes, message: Bytes): (j: Bytes)
    ensures |message| <= |j| && j[|j| - |message|..] == message
    ensures j == message <==> tag == [] && code == []
    ensures code != [] ==> Hash in j
  {
    if code != [] && tag != [] then tag + [Hash] + code + [Colon] + message
    else if code != [] then [Hash] + code + [Colon] + message
    else if tag != [] then tag + [Colon] + message
    else message
  }

  /** `(*Error).Error` and `(*Error).String` (error.go:115-128, 145-147):
      `tag#code:message`, `#code:message`, `tag:message` or `message`, with
      the whitespace at both ends removed. */
  function Render(e: Error): (s: Bytes)
    ensures Trimmed(s)
    ensures e.tag == [] && e.code == [] ==> s == TrimSpace(e.message)
  {
    TrimSpace(Joined(e.tag, e.code, e.message))
  }

  /** True when the head of `m` holds a `#` with nothing after it, as in
      `a#:x` or `#:x`: the only heads whose `#` `Render` cannot restore. */
  predicate DropsHash(m: Bytes) {
    HasHead(m) && IndexByte(Head(m), Hash) == |Head(m)| - 1
  }

  /** Rendering inverts parsing: an error whose tag, code and message were
      split from `m` renders as `m` trimmed, exactly when the head of `m`
      does not end with its first `#`. Otherwise `m` is `tag#:message`, the
      code is empty, and the `#` is dropped, and with it the colon when the
      tag is empty too. */
  lemma RenderInvertsSplit(e: Error, m: Bytes)
    requires Parts(e.tag, e.code, e.message) == Split(m)
    ensures Render(e) == TrimSpace(m) <==> !DropsHash(m)
    ensures DropsHash(m) ==>
              e.code == [] && m == e.tag + [Hash] + [Colon] + e.message &&
              Render(e) == TrimSpace(if e.tag == [] then e.message else e.tag + [Colon] + e.message)
  {
    if DropsHash(m) {
      DropsHashShape(m);
      TrimDropsHash(e.tag, e.message);
    } else {
      RenderRestoresText(e, m);
    }
  }

  /** The text comes back whenever no `#` is lost. */
  lemma RenderRestoresText(e: Error, m: Bytes)
    requires Parts(e.tag, e.code, e.message) == Split(m)
    requires !DropsHash(m)
    ensures Render(e) == TrimSpace(m)
  {
    if !HasHead(m) {
      TrimSpaceIdempotent(m);
    } else {
      var h := Head(m);
      assert m == h + [Colon] + e.message;
      if Hash in h {
        HashInHead(e, m);
      } else {
        assert e.tag == h && e.code == [];
      }
    }
  }

  /** A head whose first `#` is not its last byte leaves a non-empty code,
      and the text is `tag#code:message` again. */
  lemma HashInHead(e: Error, m: Bytes)
    requires Parts(e.tag, e.code, e.message) == Split(m)
    requires HasHead(m) && !DropsHash(m) && Hash in Head(m)
    ensures e.code != [] && Joined(e.tag, e.code, e.message) == m
  {
    var h := Head(m);
    assert h == e.tag + [Hash] + e.code;
    IndexByteAfter(e.tag, Hash, e.code);
    if e.tag == [] {
      assert h == [Hash] + e.code;
    }
    assert m == h + [Colon] + e.message;
  }

  /** A head that ends with its first `#` has an empty code. */
  lemma DropsHashShape(m: Bytes)
    requires DropsHash(m)
    ensures var p := Split(m);
            p.code == [] && m == p.tag + [Hash] + [Colon] + p.message
  {
    var h, p := Head(m), Split(m);
    assert IndexByte(h, Hash) == |h| - 1;
    assert h == p.tag + [Hash] + p.code;
    FirstIsLast(p.tag, Hash, p.code);
    assert h == p.tag + [Hash];
    assert m == h + [Colon] + p.message;
  }

  /** Dropping `#` (and the colon after a bare `#`) shortens the text. */
  lemma TrimDropsHash(tag: Bytes, rest: Bytes)
    ensures TrimSpace(Joined(tag, [], rest)) != TrimSpace(tag + [Hash] + [Colon] + rest)
  {
    if tag != [] {
      TrimSpaceDropsInsertedByte(tag, Hash, Colon, rest);
    } else {
      assert tag + [Hash] == [Hash];
      TrimSpaceDropsTwoBytes(Hash, Colon, rest);
    }
  }

  /** A text of the package's tests, `test:`: the tag is `test`, the
      message is empty, and the error renders as the text. */
  lemma TagOnlyExample()
    ensures var m: Bytes := [116, 101, 115, 116, 58];
            Split(m) == Parts([116, 101, 115, 116], [], []) &&
            Render(Error(None, [], [116, 101, 115, 116], [], 0, Site([], 0, []))) == m
  {
    var test: Bytes := [116, 101, 115, 116];
    var m := test + [Colon];
    assert m == [116, 101, 115, 116, 58];
    assert Split(m) == Parts(test, [], []) by {
      assert m == test + [Colon] + [];
      IndexByteAfter(test, Colon, []);
      assert Space !in test && Hash !in test;
      assert HasHead(m) && Head(m) == test;
      assert m == test + [Colon] + Split(m).message;
    }
    assert Render(Error(None, [], test, [], 0, Site([], 0, []))) == m by {
      assert Joined(test, [], []) == m;
      TrimmedIsFixpoint(m);
    }
  }

  // ---------------------------------------------------------------------
  // The wrapped argument
  // ---------------------------------------------------------------------

  /** True when the two bytes of `t` at `i` are `%w`. */
  predicate MarkerAt(t: Bytes, i: int) {
    0 <= i && i + 2 <= |t| && t[i] == Percent && t[i + 1] == LowerW
  }

  /** True when no `%w` starts before position `n` of `t`. */
  predicate NoMarkerBefore(t: Bytes, n: int) {
    forall i | 0 <= i < n :: !MarkerAt(t, i)
  }

  /** The index of the first `%w` in `t`, or -1. */
  function FirstMarker(t: Bytes): (r: int)
    ensures -1 <= r < |t|
    ensures r < 0 ==> NoMarkerBefore(t, |t|)
    ensures 0 <= r ==> MarkerAt(t, r) && NoMarkerBefore(t, r)
  {
    if |t| < 2 then -1
    else if t[0] == Percent && t[1] == LowerW then
      assert MarkerAt(t, 0);
      0
    else
      var r := FirstMarker(t[1..]);
      assert forall i | 1 <= i < |t| :: MarkerAt(t, i) == MarkerAt(t[1..], i - 1);
      if r < 0 then -1 else
        assert MarkerAt(t, r + 1);
        r + 1
  }

  /** The argument position `Trace` takes the cause from: the number of `%`
      bytes before the first `%w` of the template, if there is one. */
  function WrapArgIndex(template: Bytes): (k: Option<nat>)
    ensures k.None? <==> NoMarkerBefore(template, |template|)
  {
    var p := FirstMarker(template);
    if p < 0 then None else Some(multiset(template[..p])[Percent])
  }

  /** The scan in `Trace` stops at the first `%w` it meets. */
  lemma MarkerFound(t: Bytes, i: int)
    requires MarkerAt(t, i)
    requires NoMarkerBefore(t, i)
    ensures WrapArgIndex(t) == Some(multiset(t[..i])[Percent])
  {
  }

  /** What the type assertion `args[k].(error)` needs in order not to panic:
      the selected argument exists and is an error. */
  predicate WrapArgFits(template: Bytes, args: seq<Arg>) {
    match WrapArgIndex(template)
    case None => true
    case Some(k) => k < |args| && args[k].ErrorArg?
  }

  /** The cause an error built from `template` and `args` wraps. */
  function WrappedCause(template: Bytes, args: seq<Arg>): (c: Option<GoError>)
    requires WrapArgFits(template, args)
    ensures c.None? <==> NoMarkerBefore(template, |template|)
    ensures c.Some? ==> ErrorArg(c.value) in args
  {
    match WrapArgIndex(template)
    case None => None
    case Some(k) => Some(args[k].err)
  }

  /** A prefix with no `%w` in it moves the first `%w` by its length. */
  lemma FirstMarkerShift(t: Bytes, n: int)
    requires 0 <= n <= |t|
    requires NoMarkerBefore(t, n)
    ensures FirstMarker(t) == if FirstMarker(t[n..]) < 0 then -1 else FirstMarker(t[n..]) + n
  {
    var u := t[n..];
    assert forall j | n <= j < |t| :: MarkerAt(t, j) == MarkerAt(u, j - n);
    var q := FirstMarker(u);
    if q < 0 {
      assert NoMarkerBefore(t, |t|);
    } else {
      assert MarkerAt(t, q + n);
      assert NoMarkerBefore(t, q + n);
    }
  }

  /** Skipping a prefix with no `%w` in it: the index counts the `%` bytes
      of the prefix, then those of the rest. */
  lemma WrapArgIndexShift(t: Bytes, n: int)
    requires 0 <= n <= |t|
    requires NoMarkerBefore(t, n)
    ensures WrapArgIndex(t) ==
              match WrapArgIndex(t[n..])
              case None => None
              case Some(k) => Some(multiset(t[..n])[Percent] + k)
  {
    FirstMarkerShift(t, n);
    var u := t[n..];
    var q := FirstMarker(u);
    if 0 <= q {
      assert t[..q + n] == t[..n] + u[..q];
      assert multiset(t[..q + n])[Percent] == multiset(t[..n])[Percent] + multiset(u[..q])[Percent];
      assert WrapArgIndex(u) == Some(multiset(u[..q])[Percent]);
      assert WrapArgIndex(t) == Some(multiset(t[..q + n])[Percent]);
    } else {
      assert WrapArgIndex(u) == None && WrapArgIndex(t) == None;
    }
  }

  /** The argument position `k`, or none when `k` is -1. */
  function AsIndex(k: int): Option<nat> {
    if k < 0 then None else Some(k)
  }

  /** Without literal percent signs the scan picks the argument that
      `fmt.Errorf` wraps: every `%` then starts a directive that consumes
      one argument. */
  lemma {:induction false} WrapArgIndexAsIntended(t: Bytes)
    requires Fmt.NoLiteralPercent(t)
    ensures WrapArgIndex(t) == AsIndex(Fmt.IntendedWrapArg(t))
    decreases |t|
  {
    if |t| < 2 {
      assert FirstMarker(t) < 0;
    } else if t[0] != Percent {
      Fmt.NoLiteralPercentDrop(t, 1);
      WrapArgIndexAsIntended(t[1..]);
      SkipLiteralByte(t);
    } else if t[1] == LowerW {
      MarkerFound(t, 0);
      assert Fmt.Verbs(t) == [LowerW] + Fmt.Verbs(t[2..]);
    } else {
      assert t[1] != Percent;
      Fmt.NoLiteralPercentDrop(t, 2);
      WrapArgIndexAsIntended(t[2..]);
      SkipOtherVerb(t);
    }
  }

  /** A first byte other than `%` changes neither index. */
  lemma SkipLiteralByte(t: Bytes)
    requires |t| >= 2 && t[0] != Percent
    ensures WrapArgIndex(t) == WrapArgIndex(t[1..])
    ensures Fmt.IntendedWrapArg(t) == Fmt.IntendedWrapArg(t[1..])
  {
    WrapArgIndexShift(t, 1);
    assert t[..1] == [t[0]];
  }

  /** A leading verb other than `%w` and `%%` moves both indexes by one. */
  lemma SkipOtherVerb(t: Bytes)
    requires |t| >= 2 && t[0] == Percent && t[1] != Percent && t[1] != LowerW
    ensures WrapArgIndex(t) ==
              match WrapArgIndex(t[2..]) case None => None case Some(k) => Some(k + 1)
    ensures var k := Fmt.IntendedWrapArg(t[2..]);
            Fmt.IntendedWrapArg(t) == if k < 0 then -1 else k + 1
  {
    assert !MarkerAt(t, 0) && !MarkerAt(t, 1);
    WrapArgIndexShift(t, 2);
    assert t[..2] == [Percent, t[1]];
    assert multiset(t[..2])[Percent] == 1;
    var v := Fmt.Verbs(t[2..]);
    assert Fmt.Verbs(t) == [t[1]] + v;
    IndexByteCons(t[1], v, LowerW);
  }

  /** The scan counts both bytes of a literal `%%`: in `%% %w` it picks the
      third argument where `fmt.Errorf` wraps the first, so a call with the
      one error it needs panics; in `%%w`, which has no `%w` verb, it still
      picks an argument. */
  lemma WrapArgIndexCountsLiteralPercent(cause: GoError)
    ensures var t: Bytes := [Percent, Percent, Space, Percent, LowerW];
            WrapArgIndex(t) == Some(2) && Fmt.IntendedWrapArg(t) == 0 &&
            !WrapArgFits(t, [ErrorArg(cause)])
    ensures var t: Bytes := [Percent, Percent, LowerW];
            WrapArgIndex(t) == Some(1) && Fmt.IntendedWrapArg(t) == -1
  {
    var t: Bytes := [Percent, Percent, Space, Percent, LowerW];
    assert !MarkerAt(t, 0) && !MarkerAt(t, 1) && !MarkerAt(t, 2);
    MarkerFound(t, 3);
    assert t[..3] == [Percent] + [Percent] + [Space];
    var pw: Bytes := [Percent, LowerW];
    assert t[2..] == [Space] + pw && ([Space] + pw)[1..] == pw;
    assert Fmt.Verbs(pw) == [LowerW] + Fmt.Verbs([]);
    assert Fmt.Verbs(t) == Fmt.Verbs([Space] + pw) == Fmt.Verbs(pw);
    var t2: Bytes := [Percent, Percent, LowerW];
    assert !MarkerAt(t2, 0);
    MarkerFound(t2, 1);
    assert t2[..1] == [Percent];
    assert Fmt.Verbs(t2) == [];
  }

  // ---------------------------------------------------------------------
  // Construction
  // ---------------------------------------------------------------------

  /** `runtime.Caller(skip)` as seen from inside `Trace`, where `frames[0]`
      is `Trace` itself; an unavailable frame leaves the fields empty. */
  function CallerSite(frames: seq<Site>, skip: int): (site: Site)
    ensures site in frames || site == Site([], 0, [])
    ensures skip < 0 || |frames| <= skip ==> site == Site([], 0, [])
  {
    if 0 <= skip < |frames| then frames[skip] else Site([], 0, [])
  }

  /** `Trace` (error.go:31-75): parse the formatted text, record the call
      site `deep + 1` frames up, take the wrapped cause from the argument
      the first `%w` of the template lines up with, and hash
      `code ++ tag ++ sprinted`. */
  method Trace(deep: int, template: Bytes, args: seq<Arg>, text: Bytes, sprinted: Bytes, frames: seq<Site>)
    returns (e: Error)
    requires WrapArgFits(template, args)
    ensures Parts(e.tag, e.code, e.message) == Split(text)
    ensures e.wrapped == WrappedCause(template, args)
    ensures e.id == Fnv.Sum32a(e.code + e.tag + sprinted)
    ensures e.trace == CallerSite(frames, deep + 1)
  {
    // The scan for `%w` (error.go:56-65) is independent of the parse and the
    // call site, so it is done first here.
    var s, k := |template|, 0;
    var wrapped: Option<GoError> := None;
    var i := 0;
    while i < s
      invariant 0 <= i <= s
      invariant k == multiset(template[..i])[Percent]
      invariant NoMarkerBefore(template, i)
      invariant wrapped == None
    {
      if i + 2 <= s && template[i] == Percent && template[i + 1] == LowerW {
        MarkerFound(template, i);
        wrapped := Some(args[k].err);
        break;
      }
      assert template[..i + 1] == template[..i] + [template[i]];
      if template[i] == Percent {
        k := k + 1;
      }
      i := i + 1;
    }
    if wrapped == None {
      assert FirstMarker(template) < 0;
    }

    var p := Split(text);
    var site := CallerSite(frames, deep + 1);

    // The identity field is still zero here, so the hash is always taken.
    var id: bv32 := 0;
    if id == 0 {
      id := Fnv.Hash32a(p.code + p.tag + sprinted);
    }
    e := Error(wrapped, p.message, p.tag, p.code, id, site);
  }

  /** `New` (error.go:27-29): `Trace` with `deep` = 1, so the call site is
      the caller of `New`. */
  method New(template: Bytes, args: seq<Arg>, text: Bytes, sprinted: Bytes, frames: seq<Site>)
    returns (e: Error)
    requires WrapArgFits(template, args)
    ensures Parts(e.tag, e.code, e.message) == Split(text)
    ensures e.wrapped == WrappedCause(template, args)
    ensures e.id == Fnv.Sum32a(e.code + e.tag + sprinted)
    ensures e.trace == CallerSite(frames, 2)
  {
    e := Trace(1, template, args, text, sprinted, frames);
  }

  /** `(*Error).CodeNumber` (error.go:104-109): the code read by
      `strconv.Atoi` when that is positive, otherwise -1. */
  function CodeNumber(e: Error): (n: int)
    ensures n == -1 || 0 < n <= Strconv.MaxInt64
  {
    var n := Strconv.Atoi(e.code);
    if n > 0 then n else -1
  }

  /** A code of decimal digits reads as its value, clamped to the largest
      64-bit `int`; a zero value reads as -1. */
  lemma CodeNumberOfDigits(e: Error)
    requires e.code != [] && Strconv.AllDigits(e.code)
    ensures var v := Strconv.DecimalValue(e.code);
            CodeNumber(e) == if v == 0 then -1 else if v <= Strconv.MaxInt64 then v else Strconv.MaxInt64
  {
    Strconv.AtoiDigits([], e.code);
    assert [] + e.code == e.code;
  }

  /** An empty code and a code that starts with `-` read as -1: `Atoi`
      gives 0 or a number that is not positive. */
  lemma CodeNumberEmptyOrNegative(e: Error)
    ensures e.code == [] ==> CodeNumber(e) == -1
    ensures e.code != [] && e.code[0] == Minus ==> CodeNumber(e) == -1
  {
  }

  /** A code with a non-digit (other than a leading `+`) before its digits
      overflow reads as -1. */
  lemma CodeNumberNotPositive(e: Error, p: Bytes, x: byte, q: Bytes)
    requires Strconv.AllDigits(p) && Strconv.DecimalValue(p) <= Strconv.MaxUint64
    requires !Strconv.IsDigit(x) && (p != [] || x != Plus)
    ensures e.code == p + [x] + q ==> CodeNumber(e) == -1
  {
    if e.code == p + [x] + q {
      var c := e.code;
      if p == [] && x == Minus {
      } else {
        assert c[0] != Plus && c[0] != Minus by {
          if p != [] { assert c[0] == p[0] && Strconv.IsDigit(p[0]); }
        }
        Strconv.SyntaxErrorAtNonDigit(p, x, q);
      }
    }
  }

  /** A code whose leading digits already exceed 2^64 - 1 reads as the
      largest 64-bit `int`, whatever follows them: `strconv` reports the
      overflow before it looks at the rest. */
  lemma CodeNumberOverflow(e: Error, p: Bytes, q: Bytes)
    requires e.code == p + q && p != [] && Strconv.AllDigits(p)
    requires Strconv.DecimalValue(p) > Strconv.MaxUint64
    ensures CodeNumber(e) == Strconv.MaxInt64
  {
    Strconv.AccumulateDigits(p);
    Strconv.AccumulateConcat(p, q, 0);
    assert e.code[0] == p[0] && Strconv.IsDigit(p[0]);
  }

  // ---------------------------------------------------------------------
  // Unwrapping and the chain walks
  // ---------------------------------------------------------------------

  /** How many causes follow `err` in its chain. */
  function Depth(err: GoError): nat {
    match err
    case Lib(e) => (match e.wrapped case None => 0 case Some(c) => 1 + Depth(c))
    case Foreign(_, cause) => (match cause case None => 0 case Some(c) => 1 + Depth(c))
  }

  /** `errors.Unwrap` on a single-cause error; on an `*Error` it is
      `(*Error).Unwrap` (error.go:149-151). */
  function Unwrap(err: GoError): (r: Option<GoError>)
    ensures r.None? <==> Depth(err) == 0
    ensures r.Some? ==> Depth(r.value) + 1 == Depth(err)
  {
    match err
    case Lib(e) => e.wrapped
    case Foreign(_, cause) => cause
  }

  /** The chain of `err`: `err` itself, then each cause in turn, ending with
      the first error that wraps nothing. */
  function Chain(err: GoError): (c: seq<GoError>)
    ensures |c| == Depth(err) + 1
    ensures c[0] == err
    decreases Depth(err)
  {
    match Unwrap(err)
    case None => [err]
    case Some(next) => [err] + Chain(next)
  }

  /** Each element of a chain unwraps to the next, and the last one wraps
      nothing. */
  lemma {:induction false} ChainLinks(err: GoError)
    ensures var c := Chain(err);
            (forall i | 0 <= i < |c| - 1 :: Unwrap(c[i]) == Some(c[i + 1])) &&
            Unwrap(c[|c| - 1]) == None
    decreases Depth(err)
  {
    var c := Chain(err);
    match Unwrap(err)
    case None =>
    case Some(next) =>
      ChainLinks(next);
      var d := Chain(next);
      assert c == [err] + d;
      assert forall i | 1 <= i < |c| - 1 :: c[i] == d[i - 1] && c[i + 1] == d[i];
  }

  /** The properties `Chain` promises single it out: any sequence that
      starts with `err`, unwraps each element to the next, and ends with an
      element that wraps nothing, is `Chain(err)`. */
  lemma {:induction false} ChainIsUnique(err: GoError, s: seq<GoError>)
    requires s != [] && s[0] == err
    requires forall i | 0 <= i < |s| - 1 :: Unwrap(s[i]) == Some(s[i + 1])
    requires Unwrap(s[|s| - 1]) == None
    ensures s == Chain(err)
    decreases |s|
  {
    if |s| > 1 {
      assert Unwrap(s[0]) == Some(s[1]);
      ChainIsUnique(s[1], s[1..]);
    }
  }

  /** `Extract` (error.go:165-175): the list of `from` and every error
      below it, found by unwrapping one level at a time. */
  method Extract(from: GoError) returns (o: seq<GoError>)
    ensures o == Chain(from)
  {
    o := [from];
    var cur := from;
    while true
      invariant o + Chain(cur)[1..] == Chain(from)
      decreases Depth(cur)
    {
      var err := Unwrap(cur);
      if err.None? {
        return;
      }
      var next := err.value;
      assert Chain(cur)[1..] == Chain(next) == [next] + Chain(next)[1..];
      o := o + [next];
      cur := next;
    }
  }

  /** `First` (error.go:177-183): what `errors.As(from, &e)` finds for an
      `*Error` target, the first `*Error` of the chain, or `None`. */
  function First(from: GoError): (r: Option<Error>)
    ensures r.Some? ==> Lib(r.value) in Chain(from)
    decreases Depth(from)
  {
    match from
    case Lib(e) => Some(e)
    case Foreign(_, cause) =>
      match cause
      case None => None
      case Some(c) =>
        assert Chain(from) == [from] + Chain(c);
        First(c)
  }

  /** `First` looks through foreign wrappers: it finds the first `*Error`
      of `Chain(from)`, and finds nothing exactly when the chain holds
      none. */
  lemma {:induction false} FirstIsFirstLibInChain(from: GoError)
    ensures First(from).None? <==> forall i | 0 <= i < |Chain(from)| :: Chain(from)[i].Foreign?
    ensures First(from).Some? ==>
              exists i | 0 <= i < |Chain(from)| ::
                Chain(from)[i] == Lib(First(from).value) &&
                forall j | 0 <= j < i :: Chain(from)[j].Foreign?
    decreases Depth(from)
  {
    var c := Chain(from);
    match from
    case Lib(e) =>
      assert c[0] == Lib(e);
    case Foreign(_, cause) =>
      match cause
      case None =>
        assert c == [from];
      case Some(next) =>
        FirstIsFirstLibInChain(next);
        var d := Chain(next);
        assert c == [from] + d;
        if First(from).Some? {
          var i :| 0 <= i < |d| && d[i] == Lib(First(next).value) &&
                   forall j | 0 <= j < i :: d[j].Foreign?;
          assert c[i + 1] == d[i];
          assert forall j | 0 <= j < i + 1 :: c[j].Foreign? by {
            forall j | 0 <= j < i + 1 ensures c[j].Foreign? {
              if j > 0 { assert c[j] == d[j - 1]; }
            }
          }
        } else {
          assert First(next).None?;
          assert forall k | 0 <= k < |Chain(next)| :: Chain(next)[k].Foreign?;
          assert forall i | 0 <= i < |c| :: c[i].Foreign? by {
            forall i | 0 <= i < |c| ensures c[i].Foreign? {
              if i > 0 {
                assert c[i] == d[i - 1];
                assert d[i - 1].Foreign?;
              }
            }
          }
        }
  }

  /** Two foreign wrappers around an `*Error` do not hide it. */
  lemma FirstThroughTwoWrappers(a: Error, second: Bytes, third: Bytes)
    ensures First(Foreign(third, Some(Foreign(second, Some(Lib(a)))))) == Some(a)
    ensures |Chain(Foreign(third, Some(Foreign(second, Some(Lib(a))))))| == 3 + Depth(Lib(a))
  {
    var inner := Foreign(second, Some(Lib(a)));
    assert First(inner) == First(Lib(a)) == Some(a);
    assert Depth(Foreign(third, Some(inner))) == 1 + Depth(inner) == 2 + Depth(Lib(a));
  }
}
