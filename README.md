# envconf in Dafny

A model of the Go package `envconf` (`envconf.go`). The package loads configuration from environment variables into a Go struct. It has five parts:

- **Environment construction and lookup.** `New` turns `KEY=VALUE` strings into a map. `Environment.Get` tries the exact key first, then any key equal under case folding, and trims white space from the value.
- **List splitting.** `splitList` splits a comma-separated list. A backslash escapes the character after it and is then removed (`removeEscape`).
- **Literal decoding.** `decodeLiteral` converts one string by the target's kind: signed or unsigned integer (base 0, bit-width checked), bool, string, or a slice of these, which goes through `decodeSlice`.
- **Structural descent.** `decode`, `decodeField` and `indirect` walk the target struct. The key of a field is `name + sep + segment`, where the segment is the field's `env` tag or else its name. Fields tagged `-` are skipped and nested structs are recursed into. The decoder records which keys it consumed.
- **Strict mode.** `DecodeStrict` rejects a variable that carries the prefix (compared case-insensitively by `hasPrefixFold`) but was neither consumed nor ignored.

Go reflection is replaced by a type descriptor, `Kinds.Kind`, and a matching value tree, `Kinds.Value`. `PtrV(None)` is a nil pointer. The imperative parts of the source are methods: `New`, `Get`, `splitList`, `decodeSlice`, `decodeField` with its field loop, `indirect`, `decode` and `DecodeStrict`. Each method takes the target value and returns the updated one. Each is proved equal to a specification function, and the properties are proved about those functions as lemmas.

Go randomises map iteration order. Where the code ranges over the environment, the order is an explicit parameter `order`. `IsIterationOrder` requires it to list every key of the map exactly once. The lemmas hold for every such order. The order changes a decode only when two keys are case variants of each other, such as `Xa` and `xA`. Module `OrderLaws` proves that without such keys every decode, and whether `DecodeStrict` fails, is the same under any two orders; which unrecognized variable it names may still differ.

Modules, in dependency order:

| file | module |
|---|---|
| wrappers.dfy | `Wrappers` |
| text.dfy | `Text`: folding, white space, `hasPrefixFold`, `removeEscape` |
| strconv.dfy | `Strconv`: the `strconv` parsers the code calls |
| environment.dfy | `Environment`: `New`, `Get` |
| split.dfy | `ListSplit`: `splitList` |
| segments.dfy | `Segments`: an index-wise reading of a list, for every input |
| kinds.dfy | `Kinds`: the descriptor and the value tree |
| literal.dfy | `Literal`: `decodeLiteral`, `decodeSlice` |
| decoder.dfy | `Decoder`: `decodeField`, `indirect`, `decode`, `Decode` |
| decode_laws.dfy | `DecodeLaws`: consumed keys, absent keys, idempotence |
| strict.dfy | `Strict`: `DecodeStrict` |
| order_laws.dfy | `OrderLaws`: results under two different map orders |

Where the code and its documentation disagree, the model follows the code:

- `decodeField` swallows every `decodeLiteral` error, "Unsupported type" included (envconf.go:105-106). So a leaf that fails to convert is left alone silently, and decoding never fails for that reason.
- Pointer fields inside a struct are leaves. `decodeField` tests only for struct kind before calling `Get` (envconf.go:99-100). `indirect` runs only on the top-level target and on slice elements.
- `sep` is prepended even when the prefix is empty (envconf.go:122).

## Model

| member | source | states |
|---|---|---|
| Environment.SplitEntry | envconf.go:26 | An entry yields a pair exactly when it contains `=`. The key is the text before the first `=` and contains no `=`. The value is everything after it, further `=` included. |
| Environment.New | envconf.go:23-31 | The map built entry by entry is `EnvOf(environ)`, the in-order fold with later entries overwriting earlier ones. |
| Environment.EnvOfKeys | envconf.go:23-31 | A key is in the map exactly when some entry defines it. An entry without `=` defines nothing. |
| Environment.EnvOfLastWins | envconf.go:25-28 | A key holds the value of the last entry that defines it. |
| Environment.SplitEntryExamples | envconf.go:26 | `A=b=c` splits at its first `=` into `A` and `b=c`, `USER` has no `=`, and `B=` gives `B` with the empty value. |
| Environment.EnvOfSnoc | envconf.go:25-29 | One more entry with an `=` sets its key in the map built so far, and one without an `=` leaves that map unchanged. |
| Environment.NewExample | envconf.go:23-31 | `["A=b=c", "USER", "A=d", "B="]` gives `{A: "d", B: ""}`. |
| Environment.FoldScanSpec | envconf.go:42-46 | The fallback scan finds a value exactly when some key in the order folds to the name. The value is such a key's value, trimmed. |
| Environment.Lookup | envconf.go:39-41 | An exact key takes precedence: its trimmed value is returned. |
| Environment.LookupSpec | envconf.go:38-48 | Get succeeds exactly when some key equals the name under case folding. The value is the trimmed value of such a key. |
| Environment.Get | envconf.go:38-48 | The loop returns `Lookup`'s value with `ok = true`, or `("", false)` when nothing matches. |
| Environment.CaseVariantFound | envconf.go:38-48 | Every case variant of a stored key finds a value. With one matching key, it finds that key's value. |
| Environment.AnyFoldMatchPossible | envconf.go:42-46 | When the name is not an exact key, each fold-matching key is what Get returns under some iteration order. |
| Text.EqualFoldPointwise | envconf.go:43 | Fold-equal means same length and equal lower-cased characters at every position. |
| Text.TrimLeftSpec | envconf.go:40 | The result is a suffix of the input, drops only white space, and starts with a non-space character or is empty. |
| Text.TrimRightSpec | envconf.go:40 | The result is a prefix of the input, drops only white space, and ends with a non-space character or is empty. |
| Text.TrimSpace | envconf.go:40 | `strings.TrimSpace`, white space removed at both ends, is never longer than its input. TrimSpaceSpec states what it removes. |
| Text.TrimSpaceSpec | envconf.go:40 | The trimmed value has no white space at either end. It is empty exactly when the input is all white space. An input not padded at either end is returned as is. |
| Text.TrimSpaceIdempotent | envconf.go:40 | Trimming twice is trimming once. |
| Text.HasPrefixFold | envconf.go:241-243 | The definition: the text is at least as long as the prefix, and its first `len(prefix)` characters equal the prefix under case folding. HasPrefixFoldIsFoldedPrefix characterises it. |
| Text.HasPrefixFoldIsFoldedPrefix | envconf.go:241-243 | `hasPrefixFold(s, prefix)` holds exactly when the folded prefix is a prefix of the folded string. |
| Text.RemoveEscapes | envconf.go:246-251 | Removing escapes never lengthens a text. |
| Text.RemoveEscapesNoBackslash | envconf.go:246-251 | No backslash survives. |
| Text.RemoveEscapesPlain | envconf.go:246-251 | A text without backslashes is unchanged. |
| Text.RemoveEscapesAppend | envconf.go:196 | Removing escapes works piecewise over a concatenation. |
| Strconv.SplitBase | envconf.go:134 | Base 0 picks base 2, 8, 10 or 16. It is decimal exactly when the text does not start with `0`. |
| Strconv.ParseUint | envconf.go:142 | A result is below 2^bits. A sign or an empty text is rejected. |
| Strconv.ParseInt | envconf.go:134 | A result lies in the signed range of the bit width. An empty text is rejected. |
| Strconv.ParseBool | envconf.go:159 | Only the twelve spellings of `strconv.ParseBool` are accepted, each at most five characters long. The value is true exactly when the first character is `1`, `t` or `T`. |
| Strconv.ParseFormatBool | envconf.go:159 | ParseBool reads back `true` and `false`. |
| Strconv.ParseUintDecimal | envconf.go:142 | A decimal rendering parses back to its number exactly when the number fits the width, and is rejected otherwise. |
| Strconv.ParseFormatUint | envconf.go:142 | ParseUint inverts FormatInt on every natural below 2^bits and rejects every larger one. |
| Strconv.ParseFormatInt | envconf.go:134 | ParseInt inverts FormatInt on the signed range of the width and rejects everything outside it. |
| ListSplit.SplitList | envconf.go:178-211 | The loop's `isEscaped`, `hasEscape`, `lastIndex` and `index` produce `Split(source)`, the index-wise reference reading of the list. |
| ListSplit.SplitNoBackslash | envconf.go:183-209 | No piece contains a backslash. |
| ListSplit.PiecesEscape | envconf.go:184-191 | An escaped piece never ends the piece being read, so an escaped comma never splits. |
| ListSplit.SplitJoinCons | envconf.go:193-200 | An escaped piece, a comma and the rest split into that piece followed by the rest's pieces. |
| ListSplit.SplitJoinLast | envconf.go:203-209 | An escaped final piece comes back, unless it is empty. |
| ListSplit.SplitJoin | envconf.go:178-211 | Splitting an escaped comma-joined list of backslash-free pieces gives the pieces back. Interior empty pieces are kept. Only an empty final piece is lost. |
| Segments.Escaped | envconf.go:184-191 | The definition: a character is escaped when the character before it is a backslash that is not itself escaped. |
| Segments.IsSeparator | envconf.go:193-200 | The definition: a separator is a comma that is not escaped. |
| Segments.NextSeparator | envconf.go:184-193 | The first comma at or after a position that no unescaped backslash precedes, or the end of the text. No separator lies before it. |
| Segments.PiecesSegment | envconf.go:183-202 | Reading from an unescaped position, the current piece ends at the next separator, or at the end of the text when there is none. |
| Segments.PiecesSegments | envconf.go:183-209 | From an unescaped position on, the pieces are the raw segments between separators with backslashes removed. An empty final segment is dropped. |
| Segments.SplitSegments | envconf.go:178-211 | For every input, splitList gives the raw segments between unescaped commas, each with its backslashes removed. The final segment is dropped exactly when it is empty (`a\b,c` gives `ab` and `c`, and `a,\` keeps an empty last piece). |
| Segments.SegmentsFromCount | envconf.go:193-200 | There is one segment more than there are unescaped commas. |
| Segments.SplitCount | envconf.go:178-211 | For every input, splitList gives one piece per unescaped comma, plus one when text follows the last unescaped comma. |
| ListSplit.SplitTrailingComma | envconf.go:203 | `""` gives no pieces and `"a,"` gives `["a"]`. |
| ListSplit.SplitLeadingComma | envconf.go:193-200 | `",a"` gives `["", "a"]`. |
| ListSplit.SplitEscapedExample | envconf.go:184-199 | `"a\,b,c"` gives `["a,b", "c"]`. |
| Kinds.Zero | envconf.go:219 | The zero value of a struct kind is a struct value. |
| Kinds.ZeroHasKind | envconf.go:219 | `reflect.New(t).Elem()` is a value of kind `t`. |
| Literal.Decoded | envconf.go:131-174 | A failed conversion leaves a non-slice target unchanged. Struct, pointer and other kinds never convert. A slice target stays a slice. |
| Literal.DecodedHasKind | envconf.go:131-174 | Conversion keeps the target a value of its kind, integers within their width. |
| Literal.DecodedSuccessIgnoresTarget | envconf.go:131-174 | Whether a conversion succeeds, and what a successful one stores, does not depend on the target's old value. |
| Literal.DecodedInt | envconf.go:133-140 | A signed field accepts a formatted number exactly when it fits the width, and then stores that number. |
| Literal.DecodedUint | envconf.go:141-148 | An unsigned field accepts a formatted number exactly when it is non-negative and fits the width. A negative one leaves the target unchanged. |
| Literal.DecodedBool | envconf.go:158-164 | A bool field reads `true` and `false` back. |
| Literal.DecodedStrings | envconf.go:166-171 | A `[]string` field gets the pieces of an escaped comma-joined list, verbatim and in order, except that an empty final piece is lost (`a,` gives `["a"]`). |
| Literal.DecodedPiecesCount | envconf.go:218-224 | There is at most one element per piece, and one per piece exactly when no piece failed. |
| Literal.DecodedSliceLength | envconf.go:215-226 | A successful slice has `len(splitList(source))` elements. |
| Literal.DecodedPiecesElement | envconf.go:218-223 | Element `j` is piece `j` decoded on its own into a fresh zero element. |
| Literal.DecodedPiecesFailure | envconf.go:220-222 | On failure, the piece right after the stored elements is the one that failed. The earlier pieces stay stored. |
| Literal.DecodeLiteral | envconf.go:131-174 | The dispatch returns exactly `Decoded(source, k, v)`. |
| Literal.DecodeSlice | envconf.go:215-226 | Truncate, then append each piece decoded in order, stopping at the first failure. The result is `DecodedPieces(Split(source))`. |
| Decoder.FieldDecoded | envconf.go:98-127 | A struct keeps its shape, one member per field. |
| Decoder.Skipped | envconf.go:115-118 | The definition: a field whose `env` tag is `-` is skipped. |
| Decoder.Segment | envconf.go:119-121 | The definition: a field's key segment is its `env` tag, or its name when the tag is empty. |
| Decoder.MemberDecoded | envconf.go:114-118 | A field tagged `-` is left alone and consumes nothing. |
| Decoder.MembersDecoded | envconf.go:113-125 | The field loop keeps one member per field. |
| Decoder.MembersDecodedAt | envconf.go:113-125 | After `i` iterations, member `j` is decoded on its own if `j < i` and untouched otherwise. |
| Decoder.MembersDecodedStep | envconf.go:113-125 | An iteration decodes member `i - 1` from its original value and appends that member's keys. |
| Decoder.FieldDecodedHasKind | envconf.go:98-127 | decodeField keeps the target a value of its kind. |
| Decoder.DecodeField | envconf.go:98-127 | A leaf is looked up with Get and converted. The key is recorded only after a successful conversion. A struct is walked field by field. The result is `FieldDecoded`. |
| Decoder.DecodeMembers | envconf.go:113-125 | The field loop yields `MembersDecoded` after all fields. |
| Decoder.Base | envconf.go:231-236 | The base kind is not a pointer and keeps the no-pointer-slices property. |
| Decoder.Deref | envconf.go:230-238 | Following the pointer chain ends at a value of the base kind. |
| Decoder.Store | envconf.go:230-238 | Writing back through the chain allocates every nil pointer. It keeps the kind and puts the new base value at the end. |
| Decoder.Indirect | envconf.go:230-238 | The loop ends at the base kind and at `Deref(k, v)`, a nil pointer standing for a fresh zero value. |
| Decoder.Decoding | envconf.go:88-94 | For every typed target, decode fails, with the non-pointer error, exactly when the target is not a non-nil pointer. Otherwise the result has the target's kind and every pointer on its chain allocated. |
| Decoder.DecodeCollecting | envconf.go:88-94 | The method returns the error unchanged, or the decoded target and the consumed keys, as `Decoding` says. |
| Decoder.Decode | envconf.go:53-55 | For every typed target, Decode fails exactly when the target is not a non-nil pointer, leaving it unchanged. Otherwise it returns the decoded target. |
| DecodeLaws.LeavesShape | envconf.go:99-122 | Every key looked up is a non-struct leaf. Under a struct, every key starts with `name + sep`. |
| DecodeLaws.FieldKeys | envconf.go:101-125 | The recorded keys are exactly the leaves whose key is found and whose value converts, in visiting order. |
| DecodeLaws.ConsumedKeysAreLeaves | envconf.go:101-110 | A key is recorded exactly when some leaf with that key is found and converts. A recorded key is found by Get and, under a struct, starts with `name + sep`. |
| DecodeLaws.StructMembersDecoded | envconf.go:113-125 | Each struct member is decoded on its own under `name + sep + segment`, and a skipped member keeps its value. |
| DecodeLaws.AbsentLeavesUnchanged | envconf.go:101-104 | When no leaf key is in the environment in any case, decodeField changes nothing and records nothing. |
| DecodeLaws.FieldDecodedIdempotent | envconf.go:98-127 | Under the same map order, decoding the result again gives the same value and the same keys. |
| DecodeLaws.StoreTwice | envconf.go:230-238 | Writing through the chain twice is writing once with the second value. |
| DecodeLaws.DecodingIdempotent | envconf.go:88-94 | Under the same map order, decoding into the result of a successful decode gives the same outcome. |
| DecodeLaws.NilDecodedAsZero | envconf.go:230-238 | A nil pointer below the target decodes as if it pointed to a zero value. |
| DecodeLaws.DecodingKeys | envconf.go:88-127 | The keys a successful decode records are the consumed leaves under the prefix. |
| Strict.Unrecognized | envconf.go:64-83 | The definition: a key has the prefix up to case, is not literally ignored, and equals no consumed key and no ignored key up to case. |
| Strict.FirstUnrecognized | envconf.go:64-83 | The scan from a position on returns a key of the order that is unrecognized, if it returns one. |
| Strict.FirstUnrecognizedSpec | envconf.go:64-84 | The scan reports a key exactly when some key is unrecognized. The reported key is unrecognized, and every key before it in map order is recognized. |
| Strict.Verdict | envconf.go:64-85 | An error from the strict pass is always an unrecognized-variable error. |
| Strict.VerdictSpec | envconf.go:59-85 | The strict pass succeeds exactly when no variable is unrecognized. A rejected variable is in the environment and is unrecognized. |
| Strict.VerdictOrderIndependent | envconf.go:64 | For given consumed keys, the order of the strict scan decides which variable is reported, never whether one is. |
| Strict.ExactIgnoreRedundant | envconf.go:68-80 | The exact ignore test is subsumed by the case-insensitive one. |
| Strict.ConsumedRecognized | envconf.go:72-76 | A consumed key is never rejected, in any letter case. |
| Strict.UnprefixedRecognized | envconf.go:65-67 | A variable without the prefix is never rejected. |
| Strict.UnmatchedRejected | envconf.go:59-85 | A prefixed variable that is not ignored and folds to no leaf key is rejected, for example the key of a `-`-tagged field. |
| Strict.DecodeStrict | envconf.go:59-85 | A decode error is returned as is with the target unchanged. Otherwise the target holds the decoded value and the error names the first unrecognized variable in map order, if any. |
| OrderLaws.LookupOrderIndependent | envconf.go:38-48 | Without case-variant keys, Get returns the same result under any two map orders. |
| OrderLaws.FieldDecodedOrderIndependent | envconf.go:98-127 | Without case-variant keys, decodeField gives the same value and keys under any two map orders. |
| OrderLaws.MembersOrderIndependent | envconf.go:113-125 | Without case-variant keys, the field loop gives the same members and keys under any two map orders. |
| OrderLaws.DecodingOrderIndependent | envconf.go:88-94 | Without case-variant keys, decode gives the same outcome under any two map orders. |
| OrderLaws.FieldDecodedIdempotentAcrossOrders | envconf.go:98-127 | Without case-variant keys, decoding the result again under another map order gives the same value and keys. |
| OrderLaws.DecodingIdempotentAcrossOrders | envconf.go:88-94 | Without case-variant keys, decoding into the result of a successful decode under another map order gives the same outcome. |
| OrderLaws.StrictOrderIndependent | envconf.go:59-85 | Without case-variant keys, map order never decides whether DecodeStrict fails. The decode is the same, and only which variable is reported may differ. |
| OrderLaws.CaseVariantLookups | envconf.go:42-46 | With keys `Xa = 1` and `xA = zz`, Get of `XA` returns `1` under one order and `zz` under the other. |
| OrderLaws.CaseVariantsOrderDependent | envconf.go:42-46 | With keys `Xa = 1` and `xA = zz`, a bool leaf keyed `XA` consumes the key under one order and is left alone under the other. |
| OrderLaws.StrictNameOrderDependent | envconf.go:64-85 | With keys `A_x` and `A_y`, no case variants, prefix `A` and nothing consumed or ignored, DecodeStrict names `A_x` under one order and `A_y` under the other. |

## Left out

- `Load` (envconf.go:17-19) reads `os.Environ()`, which is process I/O. `New` takes the entries as a sequence.
- The float branch of `decodeLiteral` (envconf.go:149-156): there is no float kind, so floating-point parsing is not modelled.
- Go map iteration order: one order per decode call is a parameter. Go may pick a fresh order for each `range`, that is for each `Get` and for the strict pass. Without case-variant keys this makes no difference: `OrderLaws.LookupOrderIndependent` proves that Get does not depend on the order.
- Case-variant duplicate keys: when the environment holds two keys such as `Xa` and `xA`, which value a leaf gets, whether its key is consumed, and so whether `DecodeStrict` fails all depend on Go's order (`OrderLaws.CaseVariantsOrderDependent`). The idempotence lemmas of `DecodeLaws` assume one order for both decodes. The `OrderLaws` lemmas for two orders assume no case-variant keys.
- Text.EqualFold: folds ASCII letters only. Go's `strings.EqualFold` uses Unicode simple case folding.
- Text: strings are sequences of Unicode scalar values, not UTF-8 bytes. `hasPrefixFold` compares lengths in characters, where Go compares them in bytes.
- Strconv.ParseUint, Strconv.ParseInt: reject the underscores that base-0 parsing accepts between digits (`ParseInt` parses its body with `ParseUint`). They do not tell a syntax error from a range error, because envconf only tests for `err != nil`.
- Decoder.Decoding: an untyped nil target cannot be written as a `Kind` and `Value`. Go does not return the non-pointer error for it: `value.Type()` at envconf.go:91 panics on the zero `reflect.Value`.
- Error messages: `decode` and `DecodeStrict` return `NonPointer` or `Unrecognized(key)`, not formatted strings.
- Unexported fields are not modelled; Go panics when reflection sets one.
- Slices of pointers are excluded by the precondition `NoPointerElems`, for any kind with a `[]*T` anywhere inside it. For `[]*T`, `decodeSlice` appends a `T` to a `[]*T` and `reflect.Append` panics, but only once a piece converts. A target with such a field still decodes in Go when the field's key is absent, its list is empty, or its first piece fails to convert. The model does not cover those targets.
- Recursive Go types (a struct with a `*T` or `[]T` field of its own type) cannot be written as a `Kind`, which is an inductive datatype; such a type is described only down to its first pointer or slice field, for instance as `Ptr(Other)`. The decode is the same, because a pointer field is a leaf that never converts and a struct slice element never converts either.
- A nil slice and an empty slice are one value. The aliasing of a slice's backing array after `SetLen(0)` is not modelled.
- Pointers are a value tree: `Store` rebuilds the chain instead of mutating shared memory, so aliasing between pointers is not modelled.
- Decoder.FieldDecoded: a struct kind paired with a value of another shape is left alone. Go's typing rules that case out.
- DecodeLaws.NilDecodedAsZero: is stated for a nil pointer one level below the target. The general case is what `Deref` and `Store` express.
