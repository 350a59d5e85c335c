# Text content of a SwiftUI `Text` node, modelled in Dafny

ViewInspector lets tests look inside SwiftUI view values. For a `Text` node it
offers two accessors, and they are what this project models
(`Sources/ViewInspector/SwiftUI/Text.swift`, lines 35-111):

- `string()` rebuilds the plain text. It tries three shapes in a fixed order:
  1. a concatenation of two texts (`storage|anyTextStorage|first` and `second`), handled recursively;
  2. a verbatim string (`storage|verbatim`);
  3. a localization key (`storage|anyTextStorage` → `key` → labels `key`, `hasFormatting`, `arguments`).

  For a formatted key, a fold rewrites the conversion tokens `%lld`, `%ld`,
  `%d`, `%lf` and `%f` to `%@`. The descriptions of the arguments' `value`s are
  then substituted into the result.
- `attributedString()` rebuilds the styled text. A concatenation appends its
  halves' attributed strings. Any other node takes `string()`'s text, and each
  recognized modifier except a font provider other than `SystemProvider`
  adds an attribute over the whole text. An
  unrecognized modifier fails the whole call with `notSupported`.

The reflective resolver these accessors call is not part of this model. Each
`Text` value is a datatype with one field for each path the accessors resolve
(`TextModel.Text`, `Storage`, `AnyTextStorage`, `LocalizedStringKey`,
`Modifier`). A resolved-and-cast value is a `Probe`: `Absent` (the resolver
throws), `Mistyped` (the `as?` cast gives nil) or `Found(v)`. So `try X as? T`
and `try? X as? T` differ exactly where the Swift code does.

Files:

- `wrappers.dfy`: `Option` and `Result`.
- `text_model.dfy`: the node shape and the path probes.
- `format.dfy`: the token-rewrite fold and the `%@` substitution.
- `text_string.dfy`: `string()` and a reference semantics over text fragments.
- `attributed.dfy`: attributed strings as text plus runs, the modifier dispatch,
  the mutable string class and the `attributedString()` method.
- `examples.dfy`: worked cases, stated for all strings.

An attributed string is a text plus a list of runs `(start, length, attribute)`.
Appending shifts the second operand's runs by the first one's length.
`AttributesAt(runs, k)` lists the attributes that cover position `k`.

Two behaviours of the code worth noting, both of which the model follows:

- A node with none of the three shapes does not simply yield nil. When
  `storage|anyTextStorage` or its `key` is missing, the call throws, because
  the code uses plain `try` there (Text.swift:46-49).
- Bold and italic are recognized by the modifier's exact description, not by
  resolving a flag (Text.swift:83, 87).

## Model

| member | source | states |
|---|---|---|
| `TextModel.Halves` | Sources/ViewInspector/SwiftUI/Text.swift:36-37 | the concatenation shape is taken exactly when both `first` and `second` resolve to a `Text`, and then the halves are those two values, in that order; each half is a strictly smaller node |
| `TextModel.Verbatim` | Sources/ViewInspector/SwiftUI/Text.swift:42-43 | a verbatim string is seen exactly when `storage|verbatim` resolves to a `String`, and it is that stored string |
| `TextModel.Modifiers` | Sources/ViewInspector/SwiftUI/Text.swift:81 | the modifier list when `modifiers` resolves, otherwise no modifiers (the `try?` in the source) |
| `TextString.StringOf` | Sources/ViewInspector/SwiftUI/Text.swift:35-67 | definition of `string()`; a concatenation never reads as nil; properties stated by `StringOfConcatenation`, `ConcatenationFirst`, `StringOfVerbatim`, `StringOfKey`, `StringOfIgnoresModifiers` and `StringOfEncode` |
| `TextString.LocalizedString` | Sources/ViewInspector/SwiftUI/Text.swift:46-66 | definition of the key branch; properties stated by `StringOfKey` and `FormattedKey` |
| `TextString.Descriptions` | Sources/ViewInspector/SwiftUI/Text.swift:59-61 | succeeds exactly when every argument has a `value`; then it yields that value's description for each argument, in the same order and with the same count; otherwise it fails with `NotFound("value")` |
| `TextString.StringOfConcatenation` | Sources/ViewInspector/SwiftUI/Text.swift:36-41 | a concatenation's text is the first half's followed by the second half's; a nil half counts as ""; the first half's error, then the second's, propagates |
| `TextString.ConcatenationFirst` | Sources/ViewInspector/SwiftUI/Text.swift:36-45 | the concatenation shape takes precedence: nodes with the same halves have the same text whatever their verbatim or key fields |
| `TextString.StringOfVerbatim` | Sources/ViewInspector/SwiftUI/Text.swift:42-45 | without a concatenation, a verbatim string is returned exactly, unformatted |
| `TextString.StringOfKey` | Sources/ViewInspector/SwiftUI/Text.swift:46-66 | every outcome of the key shape: a missing `storage|anyTextStorage`, `key` record or label throws; a label of the wrong type gives nil; `hasFormatting == false` returns the key unchanged; a missing argument `value` throws; otherwise the rewritten key is filled with the argument descriptions |
| `TextString.StringOfIgnoresModifiers` | Sources/ViewInspector/SwiftUI/Text.swift:35-67 | the plain text does not depend on the node's modifiers |
| `TextString.StringOfEncode` | Sources/ViewInspector/SwiftUI/Text.swift:35-67 | for every text fragment (verbatim, key, or concatenation), `string()` on its stored form returns the fragment's text |
| `Format.ReplaceAll` | Sources/ViewInspector/SwiftUI/Text.swift:64 | definition of `replacingOccurrences(of:with:)`, left to right and non-overlapping; properties stated by `ReplaceRemoves`, `ReplaceKeepsAbsent` and `ReplaceHead` |
| `Format.RewriteTokens` | Sources/ViewInspector/SwiftUI/Text.swift:63-65 | definition of the `reduce` over the patterns; properties stated by `RewriteRemovesAll` and `RewriteHead` |
| `Format.RewriteFormat` | Sources/ViewInspector/SwiftUI/Text.swift:62-65 | definition of the rewrite of the key; properties stated by `RewriteFormatRemovesTokens`, `RewriteFormatPlain`, `RewriteFormatIdempotent` and `RewriteWoven` |
| `Format.Substitute` | Sources/ViewInspector/SwiftUI/Text.swift:66 | definition of `String(format:arguments:)` on `%@`; properties stated by `SubstituteNoArgs`, `SubstitutePlain`, `SubstituteFirst` and `SubstituteInOrder` |
| `Format.ReplaceRemoves` | Sources/ViewInspector/SwiftUI/Text.swift:63-64 | after `replacingOccurrences(of: p, with: "%@")`, the token `p` no longer occurs |
| `Format.ReplaceKeepsAbsent` | Sources/ViewInspector/SwiftUI/Text.swift:63-64 | replacing one token by `%@` never creates an occurrence of another token |
| `Format.RewriteRemovesAll` | Sources/ViewInspector/SwiftUI/Text.swift:62-65 | no pattern the fold visits occurs in its result |
| `Format.RewriteFormatRemovesTokens` | Sources/ViewInspector/SwiftUI/Text.swift:62-65 | none of `%lld`, `%ld`, `%d`, `%lf`, `%f` occurs in the rewritten format |
| `Format.RewriteFormatPlain` | Sources/ViewInspector/SwiftUI/Text.swift:62-65 | a format without `%` is not changed by the rewrite |
| `Format.RewriteFormatIdempotent` | Sources/ViewInspector/SwiftUI/Text.swift:62-65 | rewriting twice equals rewriting once |
| `Format.TokenHeadMatch` | Sources/ViewInspector/SwiftUI/Text.swift:62-64 | the five tokens are prefix-free: a text that starts with one of them starts with another exactly when the two are the same token |
| `Format.RewriteHead` | Sources/ViewInspector/SwiftUI/Text.swift:62-65 | a leading token or `%@` is kept as one unit by the fold: it becomes `%@` if the fold visits it and stays otherwise, and the rest of the text is rewritten on its own |
| `Format.RewriteWoven` | Sources/ViewInspector/SwiftUI/Text.swift:62-65 | for any `%`-free texts interleaved with any of `%lld`, `%ld`, `%d`, `%lf`, `%f`, the rewrite replaces each token by exactly one `%@` and keeps the texts around them |
| `TextString.FormattedKey` | Sources/ViewInspector/SwiftUI/Text.swift:46-66 | a formatted key made of `%`-free texts and any of the five tokens reads, through `string()`, as the same texts with the arguments in place of the tokens, in order |
| `Format.SubstituteNoArgs` | Sources/ViewInspector/SwiftUI/Text.swift:66 | with no arguments the format comes back unchanged |
| `Format.SubstitutePlain` | Sources/ViewInspector/SwiftUI/Text.swift:66 | a format without `%` takes no argument |
| `Format.SubstituteFirst` | Sources/ViewInspector/SwiftUI/Text.swift:66 | the first placeholder takes the first argument, and the rest is substituted with the remaining arguments |
| `Format.SubstituteInOrder` | Sources/ViewInspector/SwiftUI/Text.swift:66 | the placeholders are filled with the arguments one for one, left to right |
| `Attributed.Concat` | Sources/ViewInspector/SwiftUI/Text.swift:72-74 | definition of `append`; properties stated by `ConcatLayout`, `ConcatWellFormed`, `ConcatAttributes` and `ConcatAttributesEverywhere` |
| `Attributed.Recognize` | Sources/ViewInspector/SwiftUI/Text.swift:83-106 | definition of the modifier dispatch; an unsupported modifier fails with its own description; properties stated by `RecognizeOutcomes` |
| `Attributed.StyleRuns` | Sources/ViewInspector/SwiftUI/Text.swift:82-107 | definition of the modifier loop; properties stated by `StyleRunsSpec` and `StyleRunsErrorSticks` |
| `Attributed.AttributedOf` | Sources/ViewInspector/SwiftUI/Text.swift:69-111 | definition of `attributedString()`; a concatenation never reads as nil; properties stated by `AttributedMatchesString`, `NilStringGivesNil`, `StringErrorPropagates`, `AttributedConcatenation`, `StyledNodeAttributes` and `UnsupportedModifierFails`, and implemented by `AttributedString` |
| `Attributed.ConcatLayout` | Sources/ViewInspector/SwiftUI/Text.swift:72-74 | append adds the text lengths, keeps the first operand's runs and shifts the second operand's runs by the first text's length |
| `Attributed.ConcatWellFormed` | Sources/ViewInspector/SwiftUI/Text.swift:72-74 | append keeps every run inside the text |
| `Attributed.ConcatAttributes` | Sources/ViewInspector/SwiftUI/Text.swift:72-74 | after append, each position of the first text keeps its attributes, and each position of the second text carries the second operand's attributes for that position |
| `Attributed.RecognizeOutcomes` | Sources/ViewInspector/SwiftUI/Text.swift:83-106 | a modifier fails with `NotSupported(description)` exactly when it has none of the four shapes; a non-system font provider adds nothing and does not throw; otherwise only a system provider with a missing field fails |
| `Attributed.StyleRunsSpec` | Sources/ViewInspector/SwiftUI/Text.swift:82-107 | the modifier loop succeeds exactly when every modifier is handled; it then yields one full-range run per contributed attribute, in modifier order; otherwise it fails with the first failing modifier's error |
| `Attributed.StyleRunsErrorSticks` | Sources/ViewInspector/SwiftUI/Text.swift:104-106 | once a modifier has thrown, the later modifiers change nothing |
| `Attributed.FullRangeAttributes` | Sources/ViewInspector/SwiftUI/Text.swift:79-107 | runs over `[0, length)` put every contributed attribute on every position of the text |
| `Attributed.AttributedMatchesString` | Sources/ViewInspector/SwiftUI/Text.swift:69-110 | when it succeeds, the attributed text equals `string()`'s text, nil exactly where `string()` is nil, with every run inside the text |
| `Attributed.ConcatAttributesEverywhere` | Sources/ViewInspector/SwiftUI/Text.swift:72-74 | at every position of an appended string, the attributes are those of the operand that position came from |
| `Attributed.NilStringGivesNil` | Sources/ViewInspector/SwiftUI/Text.swift:69-110 | a node that is not a concatenation and whose `string()` is nil has a nil attributed string |
| `Attributed.StringErrorPropagates` | Sources/ViewInspector/SwiftUI/Text.swift:69-110 | whenever `string()` throws, `attributedString()` throws as well |
| `Attributed.AttributedConcatenation` | Sources/ViewInspector/SwiftUI/Text.swift:70-75 | a concatenation's attributed string is its halves' appended, a nil half counting as empty, so the lengths add up; an error in either half propagates |
| `Attributed.StyledNodeAttributes` | Sources/ViewInspector/SwiftUI/Text.swift:77-108 | for a non-concatenated node, every position carries exactly the attributes its modifiers contribute, in order; a missing modifier list gives no attributes |
| `Attributed.UnsupportedModifierFails` | Sources/ViewInspector/SwiftUI/Text.swift:104-106 | the first modifier of no recognized shape fails the whole call with `NotSupported(description)` |
| `Attributed.MutableAttributedString.constructor` | Sources/ViewInspector/SwiftUI/Text.swift:78 | `NSMutableAttributedString(string:)` holds the text with no runs |
| `Attributed.MutableAttributedString.Length` | Sources/ViewInspector/SwiftUI/Text.swift:79 | the length is the number of characters of the text |
| `Attributed.MutableAttributedString.Append` | Sources/ViewInspector/SwiftUI/Text.swift:72-74 | `append` makes the value the old value appended with the operand and keeps every run inside the text |
| `Attributed.MutableAttributedString.AddAttribute` | Sources/ViewInspector/SwiftUI/Text.swift:84-86 | `addAttributes(_:range:)` keeps the text and adds one run over the given range |
| `Attributed.AttributedString` | Sources/ViewInspector/SwiftUI/Text.swift:69-111 | `attributedString()` builds, by appending and by a loop over the modifiers, a fresh well-formed attributed string whose value is `AttributedOf(t)`, or fails with its error |
| `Examples.IntegerArgument` | Sources/ViewInspector/SwiftUI/Text.swift:46-66 | a formatted key `a + "%d" + b` with one argument reads `a + v + b` (for example "Count: %d items" with 5 gives "Count: 5 items") |
| `Examples.LongConversions` | Sources/ViewInspector/SwiftUI/Text.swift:62-65 | none of the five tokens occurs inside another, so `%lld` and `%ld` each become exactly one `%@` and the texts around them are kept |
| `Examples.StyledVerbatim` | Sources/ViewInspector/SwiftUI/Text.swift:42-45 | a node with only a verbatim string has that string as its text and the given modifiers |
| `Examples.StyledConcatenation` | Sources/ViewInspector/SwiftUI/Text.swift:70-75 | two styled verbatim texts concatenated read as their concatenation; each keeps its own attributes on its own characters (bold "Hello, " over [0, 7), italic "World!" over [7, 13)) |
| `Examples.UnderlineNotSupported` | Sources/ViewInspector/SwiftUI/Text.swift:104-106 | a node with an "underline" modifier still has its plain text, but its attributed string fails with `NotSupported("underline")` |

## Left out

- `Sources/ViewInspector/SwiftUI/LazyVStack.swift`: its accessors only call the reflective resolver with fixed paths, and that resolver is not part of this model.
- The reflective resolver `Inspector.attribute` and the type-prefix check behind `InspectableView.init`: neither is part of this model. Their results are the `Probe`/`Option` fields of the node datatypes.
- `text()` and `text(_:)` (Text.swift:15-27): they only delegate to `child()`, `child(at:)` and `init`, which are not part of this model. Likewise, `first.inspect().text()` is modelled as the half itself.
- `String(format:arguments:)` is modelled only as left-to-right replacement of `%@` by successive arguments. Surplus `%@` are copied literally and surplus arguments are ignored. Foundation's `%%`, positional arguments and tokens such as `%s` are not modelled. Tokens outside the five rewritten ones pass through unchanged.
- `String(describing:)` of an argument's value is taken as given: an argument's `value` field holds its description.
- Font payloads (`CGFloat` size, `Font.Weight`, `Font.Design`, `Font.system`) are opaque values carried into attributes. The force casts `as!` at Text.swift:93-95 are assumed to succeed; the crash on a wrong type is not modelled. A missing `size`, `weight` or `design` throws, as the plain `try` does.
- `NSAttributedString` lengths count UTF-16 code units; here a length is the number of characters.
- Strings are compared character by character (code points). `replacingOccurrences(of:with:)` with its default options (Text.swift:64) and the modifier-description comparisons (Text.swift:83, 87) compare by canonical equivalence instead, so the two can differ on text that holds combining marks or precomposed characters; the model does not capture that.
- Attributes are a log of runs, one per application, in application order. `addAttributes(_:range:)` replaces the value already stored under the same key over that range, so the last application wins: two weight modifiers leave only the second weight on the text, while the log keeps both. `StyledNodeAttributes` and `FullRangeAttributes` speak of this log; their "in order" is not the per-character attribute dictionary of `NSAttributedString`.
- Attribute keys (`"Bold"`, `"Italic"`, `"Font"`, `"FontWeight"`) are constructors of `Attributed.Attribute` rather than strings.
- Platform gating (`@available`) and the `ViewType.Text` type-prefix declaration.
