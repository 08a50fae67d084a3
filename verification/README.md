# Database descriptor parsing in gohs (Hyperscan bindings for Go)

A compiled Hyperscan database describes itself with a one-line descriptor, the Go type
`DbInfo`, for example `Version: 5.4.11 Features: AVX2 AVX512 Mode: STREAM`. The package
checks the descriptor against one fixed, anchored regular expression,

    ^Version: (\d+\.\d+\.\d+) Features: ([\w\s]+)? Mode: (\w+)$

and reads two fields out of it: `Version()` returns the `X.Y.Z` group and `Mode()` hands
the trailing mode word to `ParseModeFlag`. When the descriptor does not match, both fail
with an error wrapping `ErrInvalid`, returning `""` and mode `0`.

This project models that descriptor logic in Dafny:

- `char_classes.dfy` (`CharClasses`): the ASCII classes of Go's RE2 syntax
  (`\d` = `[0-9]`, `\w` = `[0-9A-Za-z_]`, `\s` = `[\t\n\f\r ]`) and the greedy run a
  repetition of one class consumes.
- `info_grammar.dfy` (`InfoGrammar`): the grammar as a declarative predicate. A string
  matches when it is the rendering of some well-formed `Fields` value (three non-empty
  digit runs, a features text over `[\w\s]` that may be empty, a non-empty mode word).
  Without the multi-line flag `^` and `$` anchor at the very start and end of the text,
  so the whole string must be one rendering. The module proves that anchoring: any text
  in front of a descriptor is rejected, and text after it is accepted only when it is
  made of word characters, which then simply lengthen the mode word.
- `info_parser.dfy` (`InfoParser`): a hand-written left-to-right scanner in place of the
  regular-expression engine, proved sound, complete (a round trip from fields to text and
  back) and therefore unique in the decomposition it finds. Uniqueness is why
  leftmost-first matching has no choice to make: the digit runs end at `.` or a space, and
  the features run ends at the colon of ` Mode: `, which no class contains.
- `db_info.dfy` (`DbInfos`): `DbInfo` with its methods `String`, `Version` and `Mode`,
  the submatch list `FindStringSubmatch`, and the descriptor-level properties.
- `errors.dfy` (`Errors`): Go's `(value, error)` results, `fmt.Errorf("...%w", err)`
  wrapping and `errors.Is`.

`ParseModeFlag` is defined elsewhere in the package and is not part of this model; `Mode`
takes it as a parameter, a total function from the mode word to a `(ModeFlag, error)`
result, and the contracts say exactly when and on what it is called.

The optional features group, `([\w\s]+)?`, describes the same strings as `[\w\s]*`; an
absent group is reported as `""`, so `FindStringSubmatch` still returns four entries.
With no features the descriptor keeps both spaces around the empty group
(`Version: 1.2.3 Features:  Mode: BLOCK`). Although the descriptor carries a features
text, the code never returns it, so neither does the model.

## Model

| member | source | states |
|---|---|---|
| `CharClasses.RunLength` | hyperscan/common.go:56 | a greedy `\d+`, `\w+` or `[\w\s]+` takes a prefix whose characters all lie in the class and stops at the first character outside it |
| `InfoGrammar.Matches` | hyperscan/common.go:56 | the anchored regular expression as a predicate: a string matches when it is the rendering of some well-formed fields (three digit runs, a `[\w\s]*` features text, a `\w+` mode word), the definition every other contract is stated against |
| `InfoGrammar.VersionGroup` | hyperscan/common.go:56 | the version group of a descriptor is three non-empty digit runs joined by two dots, and it directly follows `Version: ` |
| `InfoGrammar.NoTextBefore` | hyperscan/common.go:56 | no descriptor equals another descriptor with text in front of it |
| `InfoGrammar.TextAfterExtendsMode` | hyperscan/common.go:56 | a descriptor followed by more text is a descriptor only if that text is word characters that lengthen the mode word |
| `InfoGrammar.ModeExtended` | hyperscan/common.go:56 | word characters after a descriptor are taken into the mode word by `(\w+)$`: the longer text is the rendering of the same fields with a lengthened mode word |
| `InfoGrammar.SuffixAccepted` | hyperscan/common.go:56 | end anchoring in both directions: a matching string followed by `y` matches exactly when `y` is made of word characters |
| `InfoGrammar.PrefixRejected` | hyperscan/common.go:56 | the match is anchored at the start: a non-empty prefix in front of a matching string makes it non-matching |
| `InfoGrammar.SuffixRejected` | hyperscan/common.go:56 | the match is anchored at the end: a suffix starting with a non-word character (a space, a newline) makes a matching string non-matching |
| `InfoParser.Parse` | hyperscan/common.go:56 | the left-to-right scanner that stands in for the regular-expression engine; what it computes is stated by the four lemmas below, against `InfoGrammar.Matches` |
| `InfoParser.ParseSound` | hyperscan/common.go:56 | whatever the scanner accepts is well-formed fields that render back to the scanned text |
| `InfoParser.ParseRender` | hyperscan/common.go:56 | round trip: scanning the rendering of well-formed fields returns exactly those fields |
| `InfoParser.ParseAccepts` | hyperscan/common.go:56 | the scanner accepts a string if and only if the anchored grammar matches it |
| `InfoParser.ParseFindsEveryDecomposition` | hyperscan/common.go:56 | every way of splitting a string by the grammar is the one the scanner returns |
| `InfoParser.DecompositionUnique` | hyperscan/common.go:56 | two well-formed field sets that render to the same text are equal, so the capture groups are determined by the text |
| `DbInfos.DbInfo.String` | hyperscan/common.go:61 | `String()` hands back the descriptor text unchanged: converting it back gives the same `DbInfo` |
| `DbInfos.FindStringSubmatch` | hyperscan/common.go:54-56 | the submatch list has `infoMatches` (4) entries exactly when the grammar matches and is empty otherwise; on a match it is the whole text, the version, features and mode groups of the descriptor's decomposition |
| `DbInfos.MatchedVersion` | hyperscan/common.go:71 | the group `Version` returns on a match is a dotted triple of digit runs that directly follows `Version: ` |
| `DbInfos.DbInfo.Version` | hyperscan/common.go:63-72 | on a non-matching text returns `""` and an error wrapping `ErrInvalid`; on a matching one returns no error and exactly the `X.Y.Z` group, a dotted triple right after `Version: ` |
| `DbInfos.DbInfo.Mode` | hyperscan/common.go:74-83 | on a non-matching text returns mode 0 and an error wrapping `ErrInvalid` whatever `ParseModeFlag` would do; on a matching one returns exactly `ParseModeFlag` of the trailing mode word, a non-empty run of `[0-9A-Za-z_]` |
| `DbInfos.AccessorsAgree` | hyperscan/common.go:64-83 | `Version` succeeds exactly when the grammar matches, and then `Mode` consults `ParseModeFlag` on the fourth submatch; when `Version` fails, `Mode` fails with an equal error wrapping `ErrInvalid` |
| `DbInfos.AccessorsOnDescriptor` | hyperscan/common.go:64-83 | on the rendering of well-formed fields `Version` returns their version and `Mode` returns `ParseModeFlag` of their mode word |
| `DbInfos.FeaturesDoNotMatter` | hyperscan/common.go:67-82 | replacing the features text by any other `[\w\s]*` text changes neither accessor's result |
| `DbInfos.EmptyFeaturesAccepted` | hyperscan/common.go:56 | `Version: 1.2.3 Features:  Mode: BLOCK` is accepted: version `1.2.3`, mode word `BLOCK` |
| `DbInfos.GarbageRejected` | hyperscan/common.go:67-80 | `DbInfo("garbage")` makes both accessors fail with an error that `errors.Is` recognises as `ErrInvalid` |
| `DbInfos.AnchoredAtStart` | hyperscan/common.go:56 | text in front of a valid descriptor makes both accessors fail with the invalid-descriptor error |
| `DbInfos.AnchoredAtEnd` | hyperscan/common.go:56 | text after a valid descriptor that starts with a non-word character makes both accessors fail with the invalid-descriptor error |
| `DbInfos.TrailingWordAccepted` | hyperscan/common.go:56-82 | word characters appended to a descriptor are accepted: `Version` still returns the same version with no error and `Mode` consults `ParseModeFlag` on the lengthened mode word |
| `DbInfos.AnchoredAtEndExactly` | hyperscan/common.go:56-80 | after text is appended to a descriptor, `Version` succeeds exactly when that text is word characters; otherwise both accessors fail with the invalid-descriptor error |

## Left out

- The cgo pass-throughs `Version()`, `ValidPlatform()`, `UnmarshalDatabase`, `UnmarshalBlockDatabase`, `UnmarshalStreamDatabase`, `UnmarshalVectoredDatabase`, `SerializedDatabaseSize`, `SerializedDatabaseInfo`, `Size`, `Info`, `Close`, `Marshal`, `Unmarshal` and `StreamSize` (hyperscan/common.go:85-194): each forwards to a Hyperscan C function whose behaviour is not visible here.
- The interface types and wrapper constructors (`Database`, `BlockDatabase`, `StreamDatabase`, `VectoredDatabase`, `newBaseDatabase`, `newBlockDatabase`, `newStreamDatabase`, `newVectoredDatabase`): they only compose other types and have no behaviour of their own.
- `ParseModeFlag`: it is not part of this model; `Mode` receives it as a parameter.
- The regular-expression engine: the grammar is stated directly and a dedicated scanner stands in for Go's `regexp` package.
- Byte-level strings: Go strings are bytes that `regexp` decodes as UTF-8, while the model works on sequences of characters. Every character the grammar accepts is ASCII and an undecodable byte matches no class, so this does not change which descriptors are accepted.
- Error identity: each failing call in Go builds its own error with `fmt.Errorf`, so two failures are never the same pointer; the model compares errors as values, so "the same error" in the contracts means an equal error, one that `errors.Is` recognises as `ErrInvalid` and that carries the same context.
- Error message text: `fmt.Errorf("database info, %w", ErrInvalid)` is modelled as a wrapped error carrying its context string; the formatted message is not.
- `ModeFlag` width: Go's `ModeFlag` is an unsigned integer; the model uses `nat`, since the only value it produces itself is 0.
