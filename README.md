# sokool/errors in Dafny

A model of the error type of the Go package `errors` (`error.go`), with the
properties of its parsing, rendering, wrapping, identity and chain walks
proved.

Package `errors` builds an error from a `fmt` template and its arguments. The
formatted text may start with a head `tag#code:`, `tag:` or `#code:`. The
head is the part before the first colon, and it may not contain a space.
`Trace` splits the text into tag, code and message. It records the call site,
takes the wrapped cause from the argument that the first `%w` of the template
lines up with, and sets a 32-bit FNV-1a identity over code, tag and the
`Sprintf` text. `Error()` renders the parts back as text. `Extract` lists an
error and everything it wraps. `First` finds the first `*Error` in that chain.

Modules:

- `GoStrings` (`go_strings.dfy`) covers Go strings as byte sequences and the
  three `strings` functions the constructor uses: `Index` with a one-byte
  pattern, `Contains` with a one-byte pattern, and `TrimSpace`. `TrimSpace`
  gets a characterisation as the unique trimmed infix, proved in both
  directions, plus idempotence and length facts.
- `Fnv` (`fnv.dfy`) is 32-bit FNV-1a, as `hash/fnv.New32a` computes it. It has
  the per-byte loop, a proof that the loop computes the fold, a proof that
  the fold can be streamed, and two test vectors.
- `Strconv` (`strconv.dfy`) is `strconv.Atoi` for a 64-bit `int`. It covers
  syntax errors and range clamping, with the digit loop proved equal to the
  decimal value.
- `Fmt` (`fmt_verbs.dfy`) holds the arguments that the directives of a `fmt`
  template consume. It is used as the reference for the `%w` scan, and it
  holds the corrected scan.
- `Errors` (`errors.dfy`) covers the error value, `Trace`, `New`,
  `CodeNumber`, `Error`/`String`, `Unwrap`, `Extract` and `First`.

Inputs that Go computes outside this package are parameters of `Trace`:

- `text` is `fmt.Errorf(message, args...).Error()`.
- `sprinted` is `fmt.Sprintf(message, args...)`.
- `frames` is the call stack that `runtime.Caller` sees.
- `args` holds the arguments, each either an error or some other value.

The package's accessors (`ID`, `Tag`, `Code`, `Message`, `Func`, `Line`,
`File`) are the fields of the `Error` datatype.

The `%w` loop at error.go:56-65 iterates with `for i := range message`. That
visits rune starts, not every byte. The model visits every byte instead, and
the result is the same. `%` and `w` are ASCII, and every ASCII byte of a Go
string starts a rune. No byte of a multi-byte UTF-8 sequence is `%`.

## Model

| member | source | states |
|---|---|---|
| `GoStrings.IndexByte` | error.go:34-36 | The result is the index of the first `c`, or -1 exactly when there is no `c`. No `c` comes before the result. |
| `GoStrings.IndexByteAfter` | error.go:34 | In `u + [c] + v` with no `c` in `u`, the first `c` is at `|u|`. |
| `GoStrings.TrimSpace` | error.go:32 | The result has no ASCII whitespace at either end and is no longer than the input. |
| `GoStrings.TrimSpaceIsInfix` | error.go:32 | `TrimSpace(s)` is the infix of `s` after the leading whitespace. It neither starts nor ends with whitespace, and only whitespace surrounds it. |
| `GoStrings.TrimmedInfixIsTrimSpace` | error.go:32 | Converse of `TrimSpaceIsInfix`: any infix with those properties is `TrimSpace(s)`, so the two characterise it. |
| `GoStrings.TrimSpaceIdempotent` | error.go:127-128 | Trimming twice gives the same text as trimming once. |
| `GoStrings.TrimmedIsFixpoint` | error.go:128 | Text without whitespace at its ends is left unchanged. |
| `GoStrings.TrimLengthAround` | error.go:128 | Around a non-whitespace byte, trimming removes exactly the leading whitespace of the left part and the trailing whitespace of the right part. |
| `GoStrings.TrimSpaceBound` | error.go:128 | Trimming removes at least the trailing whitespace. |
| `GoStrings.TrimSpaceDropsInsertedByte` | error.go:120-128 | Inserting a non-whitespace byte before another one makes the trimmed text exactly one byte longer. |
| `Errors.Head` | error.go:34 | The head contains no colon. When the text has a colon, the text is the head, a colon, and the rest. |
| `Errors.Split` | error.go:32-38 | Tag and code contain no colon or space, and the tag contains no `#`. Without a head, tag and code are empty and the message is the trimmed text. With a head, the text is `head:message` with the message untrimmed. A head with a `#` is `tag#code`, split at its first `#`. A head without one is the tag, with an empty code. |
| `Errors.Render` | error.go:115-128 | The rendered text is trimmed. An error without tag and code renders as its trimmed message. |
| `Errors.Joined` | error.go:120-126 | The joined text ends with the message. It is the message alone exactly when tag and code are both empty, and it contains a `#` whenever there is a code. |
| `Errors.RenderInvertsSplit` | error.go:32-38 | Parsing then rendering gives back the trimmed text if and only if the head does not end with its first `#`. In the other case, the code is empty, the text is `tag#:message`, and the rendering drops the `#`. It also drops the colon when the tag is empty. |
| `Errors.RenderRestoresText` | error.go:115-128 | Without a lost `#`, rendering the parts of a text gives back the trimmed text. |
| `Errors.HashInHead` | error.go:36-37 | A head whose first `#` is not its last byte leaves a non-empty code. Tag, `#`, code, colon and message then rejoin to the original text. |
| `Errors.DropsHashShape` | error.go:36-37 | A head ending with its first `#` gives an empty code, and the text is `tag#:message`. |
| `Errors.TrimDropsHash` | error.go:120-128 | Rendering `tag#:rest` without its `#` gives a different text. |
| `Errors.TagOnlyExample` | error_test.go:41-46 | `test:` parses to tag `test` with an empty code and message, and it renders back as `test:`. |
| `Errors.FirstMarker` | error.go:57-58 | The result is the position of the first `%w`, or -1 when there is none. No `%w` starts before it. |
| `Errors.WrapArgIndex` | error.go:56-65 | The scan picks no argument exactly when no `%w` occurs anywhere in the template. |
| `Errors.WrappedCause` | error.go:59 | The cause is absent exactly when the template has no `%w`. Otherwise it is an error that is one of the arguments. |
| `Errors.MarkerFound` | error.go:58-60 | The scan stops at the first `%w`. The argument index is the number of `%` bytes before it. |
| `Errors.FirstMarkerShift` | error.go:57-65 | Skipping a prefix without `%w` moves the first `%w` back by the prefix length. |
| `Errors.WrapArgIndexShift` | error.go:57-65 | Skipping a prefix without `%w` adds the prefix's `%` count to the argument index. |
| `Errors.WrapArgIndexAsIntended` | error.go:56-65 | For templates without a literal `%%`, the index the scan picks is the argument that `fmt.Errorf` wraps, and the scan finds none exactly when the template has no `%w` verb. |
| `Errors.SkipLiteralByte` | error.go:62-64 | A leading byte other than `%` changes neither the scan's index nor the intended one. |
| `Errors.SkipOtherVerb` | error.go:62-64 | A leading verb other than `%w` and `%%` shifts both indexes by one. |
| `Errors.WrapArgIndexCountsLiteralPercent` | error.go:56-65 | In `%% %w` the scan picks argument 2 where `fmt.Errorf` wraps argument 0, and a call with its one error argument does not satisfy `args[k].(error)`. In `%%w` the scan picks argument 1 although the template has no `%w` verb. |
| `Fmt.IntendedWrapArg` | error.go:59 | The result is the index, among the consumed arguments, of the first `%w` verb, or -1 exactly when there is none. No `%w` verb comes before it. |
| `Fmt.WrapArgScan` | error.go:56-65 | The corrected loop, which skips `%%`, returns exactly `IntendedWrapArg`. |
| `Fmt.NoLiteralPercentDrop` | error.go:57 | A suffix of a template without `%%` has no `%%` either. |
| `Errors.Trace` | error.go:31-75 | Tag, code and message are `Split(text)`. The wrapped cause is the argument at the scan's index, or none without `%w`. The id is FNV-1a over code, tag and the `Sprintf` text, taken unconditionally because the id is still zero. The call site is frame `deep + 1`, or empty when that frame is missing. |
| `Errors.CallerSite` | error.go:41-42 | The recorded site is one of the frames or the empty site. It is the empty site whenever the frame index is out of range, i.e. when `runtime.Caller` reports `ok` false. |
| `Errors.New` | error.go:27-29 | Same as `Trace` with `deep` = 1, so the call site is frame 2 as seen from `Trace`, i.e. the caller of `New`. |
| `Errors.CodeNumber` | error.go:104-109 | The result is -1 or a positive 64-bit `int`. |
| `Errors.CodeNumberOfDigits` | error.go:104-109 | A code of digits reads as its decimal value, clamped to the largest 64-bit `int`. Zero reads as -1. |
| `Errors.CodeNumberEmptyOrNegative` | error.go:104-109 | An empty code and a code starting with `-` read as -1. |
| `Errors.CodeNumberNotPositive` | error.go:104-109 | A code with a non-digit (other than a leading `+`) before its digits overflow reads as -1. |
| `Errors.CodeNumberOverflow` | error.go:104-109 | Leading digits above 2^64 - 1 read as the largest 64-bit `int`, whatever follows them. |
| `Strconv.Accumulate` | error.go:105 | A value the digit loop returns never exceeds 2^64 - 1, and it is only returned for a string of digits. |
| `Strconv.ParseUint10` | error.go:105 | `ParseUint` in base 10 returns a value exactly when the string is non-empty, all digits, and at most 2^64 - 1 in value. That value is the decimal value of the digits. |
| `Strconv.Atoi` | error.go:105 | The result lies within the range of a 64-bit `int`. The empty string reads as 0, and a negative result needs a leading `-`. |
| `Strconv.ParseInt64` | error.go:105 | The result always lies within the range of a 64-bit `int`. |
| `Strconv.AccumulateConcat` | error.go:105 | Parsing `a + b` is parsing `a`, then continuing with `b` from its value. An error in `a` stops there. |
| `Strconv.AccumulateDigits` | error.go:105 | On digits, the loop returns the decimal value, or a range error exactly when that value exceeds 2^64 - 1. |
| `Strconv.SyntaxErrorAtNonDigit` | error.go:105 | A non-digit after digits that have not overflowed is a syntax error. |
| `Strconv.AtoiDigits` | error.go:105 | An optionally signed digit string reads as its value, clamped to the 64-bit range. |
| `Fnv.Hash32a` | error.go:69-71 | The per-byte xor-multiply loop returns `Sum32a(data)`, the FNV-1a fold. |
| `Fnv.Sum32a` | error.go:69-71 | The hash of the empty string is the offset basis. The hash of a non-empty string is one more xor-multiply round, with its last byte, over the hash of the rest. |
| `Fnv.AbsorbConcat` | error.go:70 | Writing `a`, then `b`, gives the same state as writing `a + b` at once. |
| `Fnv.AbsorbSnoc` | error.go:70 | One more byte is one more round. |
| `Fnv.KnownVectors` | error.go:69-71 | FNV-1a-32 of "a" is 0xe40c292c, and of "foobar" is 0xbf9cf968. |
| `Errors.Unwrap` | error.go:149-151 | Unwrapping returns nothing exactly when the depth is zero, and otherwise returns an error one level shallower. |
| `Errors.Chain` | error.go:165-175 | The chain starts with the error itself and has one element per level. |
| `Errors.ChainLinks` | error.go:165-175 | Each element of the chain unwraps to the next, and the last unwraps to nothing. |
| `Errors.ChainIsUnique` | error.go:165-175 | Any sequence with the properties of `ChainLinks` that starts at `err` is `Chain(err)`. |
| `Errors.Extract` | error.go:165-175 | The unwrapping loop returns exactly `Chain(from)`. |
| `Errors.FirstIsFirstLibInChain` | error.go:177-183 | `First` finds nothing if and only if every element of the chain is a foreign error. Otherwise it returns the first `*Error` of the chain, and only foreign errors precede it. |
| `Errors.First` | error.go:177-183 | An `*Error` that `First` finds is an element of the chain of `from`. |
| `Errors.FirstThroughTwoWrappers` | error_test.go:111-119 | An `*Error` inside two foreign `%w` wrappers is found by `First`, and the chain is three levels plus its own depth. |

## Left out

- `runtime.Caller` and `runtime.FuncForPC`: the stack is an input (`frames`), and the frame `runtime.Caller(deep + 1)` selects is an index into it.
- `fmt` formatting: the `Errorf` and `Sprintf` texts are inputs. The `Verbs` reference only covers `%%`, `%` plus one byte, and a trailing `%`. It does not cover flags, width, precision, `*` or explicit indexes such as `%[2]w`.
- Unicode whitespace: `strings.TrimSpace` also trims non-ASCII spaces such as U+0085 and U+00A0. The model trims ASCII whitespace only.
- `(*Error).MarshalJSON` (error.go:153-163) is JSON encoding of the fields and is not modelled.
- `(*Error).Exp` (error.go:81-82) has an empty body and is not modelled.
- The code after the `return` in `Error()` (error.go:129-142) is unreachable and is not modelled.
- The commented-out stack walk (error.go:45-54) and the `call` field (error.go:18), which nothing sets or reads, are not modelled.
- Reference identity of `*Error` values: the model compares errors by value.
- Nil errors: `Trace` always returns an error, and `First`'s nil result is `None`.
- Extract, First: the model covers only finite chains of non-nil errors. `GoError` has no nil value, so `Extract(nil)` returning `[nil]` (error.go:166-170) and `First(nil)` returning nil (error.go:179-182) are not modelled. A `GoError` also cannot contain itself, so a foreign error whose `Unwrap` returns itself or an earlier link is not modelled either. On such an error, the `for` loop of `Extract` (error.go:167-174) and the walk of `errors.As` (error.go:179) never end. The termination measure `Depth` relies on this finiteness.
- Multi-error `Unwrap() []error` and custom `As` methods of foreign errors: `GoError` has at most one cause, and `First` matches only this package's `*Error`.
- The panic of `args[k].(error)` when the index is out of range or the argument is not an error: `Trace` requires `WrapArgFits` instead. `WrapArgIndexCountsLiteralPercent` shows a call that violates it.
- Platforms with a 32-bit `int`: `Atoi` is modelled for a 64-bit `int`.
- Several expectations in error_test.go disagree with error.go, and the model follows error.go:
  - The tests call `Errorf`, `Name`, `Err` and `ErrL`, which error.go does not define.
  - They expect a caller-derived name and code for texts without a head.
  - They expect a space after the colon when rendering, e.g. `#e87: failed` for `#e87:failed`, whereas error.go:123 prints none.
  - They expect `#h6b7` for `#h6b7:`, whereas error.go:123 keeps the colon.
  - They expect the message after a head to be trimmed, e.g. `invalid hostname`, whereas error.go:35 keeps the whitespace and only the rendered text is trimmed.

## Findings

| source | as written | input that shows it | evidently intended | confidence | as-written member | corrected member |
|---|---|---|---|---|---|---|
| error.go:56-65 | Every `%` byte before the first `%w` counts as a consumed argument, including both bytes of a literal `%%` | `New("%% %w", err)` picks `args[2]` and panics; `%%w` picks an argument although `fmt` prints it literally | Count only the directives that consume an argument, so `%% %w` wraps `args[0]` and `%%w` wraps nothing | not executed | `Errors.WrapArgIndexCountsLiteralPercent` | `Fmt.WrapArgScan` |

`Errors.Trace` keeps the scan as written. `Errors.WrapArgIndexAsIntended` proves that the two scans agree on every template without `%%`.
