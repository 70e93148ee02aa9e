# Field violations and bad-request details

A Dafny model of the bad-request half of `sin`, a Go package that builds
the structured error details attached to failed RPC responses. It covers
three parts of `bad_request.go`:

- **The rule-formatter registry.** A fixed table maps a rule name to a
  formatter. The rule names are `required`, `max`, `min`, `numeric`, `gt`,
  `gte`, `eq`, `lt`, `lte`, `oneof` and `invalid`. A formatter turns a field
  name and the rule's parameters into a description such as
  `age must be greater than 18`. A name that is not in the table falls back
  to the `invalid` formatter, so the lookup never fails.
- **Field violations.** A field violation pairs a field with a description.
  It is built either from a rule or from caller-supplied text, and it
  serialises to `{Field, Description}`.
- **The bad-request aggregate.** This is an ordered list of violations that
  grows by appending in place. It serialises to one message per violation,
  in order.

Files and modules:

- `go_text.dfy` (module `GoText`): the pieces of Go's standard library the
  formatters use. These are `strings.Split` on a one-character separator
  (bad_request.go:118) and `fmt`'s `%v` on a `[]string` (bad_request.go:119),
  which prints the elements separated by single spaces inside brackets.
  `Join` is the model's own helper that spells out that separation; the
  source does not call `strings.Join`. `%v` on a `string` is the identity
  and is written as plain concatenation.
- `rules.dfy` (module `Rules`): the registry as a `map` from names to the
  `Rule` datatype, `Lookup` with its fallback, one function per formatter
  (`RequiredText`, `MaxText`, ..., `InvalidText`), and `Format`, which runs
  the formatter a `Rule` stands for.
- `bad_request.dfy` (module `BadRequests`): the `FieldViolation` datatype,
  its two constructors, the two `google.rpc.BadRequest` message records,
  and the `BadRequest` class.

The formatters are modelled exactly as written, quirks included:

- `max` has identical singular and plural branches. It always ends with
  `character)`.
- `min` with count `"1"` gives `... (minimum is 1 characters`, with no
  closing parenthesis.

Lemmas pin down both quirks. `max` tests `count == "1"`
(bad_request.go:81), but both branches print `character)`; the model keeps
both branches as written.

A formatter that reads `params[0]` makes Go panic when there are no
parameters. The model turns this into a precondition: `Format` and
`NewFieldViolationWithRule` require a parameter whenever the looked-up
rule reads one.

## Model

| member | source | states |
|---|---|---|
| `GoText.Split` | bad_request.go:118 | `strings.Split` on one character always gives at least one piece, and no piece contains the separator |
| `GoText.FormatStringSlice` | bad_request.go:119 | `%v` of a `[]string` is bracketed: it starts with `[` and ends with `]` |
| `GoText.JoinSplit` | bad_request.go:118-119 | joining the pieces of a split with the separator gives back the original text, for every text (the empty text included) |
| `GoText.SplitJoin` | bad_request.go:118 | the converse: a non-empty list of pieces without the separator is recovered by splitting their join |
| `GoText.FormatSplitOnSpace` | bad_request.go:118-119 | printing with `%v` the pieces of a text split on spaces gives the text itself in brackets |
| `GoText.Join` | bad_request.go:119 | the separation `%v` puts between slice elements; its contract is stated by `GoText.JoinSplit` and `GoText.SplitJoin` (join undoes split and split undoes join) |
| `Rules.Registry` | bad_request.go:75-124 | the fixed rule table; `Rules.RegistryKeys` states that its keys are exactly the eleven rule names, `Rules.LookupKey` that each name maps to its own formatter |
| `Rules.Rule.NeedsParam` | bad_request.go:79-117 | the rules whose formatter reads `params[0]` unchecked (lines 80, 87, 97, 101, 105, 109, 113, 117); `Rules.OnlyFirstParamMatters` states that no formatter reads more than that, and that the others read no parameter at all |
| `Rules.Format` | bad_request.go:53 | the call `formatter(field, params...)` on the looked-up formatter; its texts are stated by `Rules.ParameterlessRules`, `Rules.MaxIgnoresPlural`, `Rules.MinClosedUnlessOne`, `Rules.ComparisonTemplate`, `Rules.OneOfShowsList`, `Rules.OnlyFirstParamMatters` and `Rules.DescriptionNamesField` |
| `Rules.RequiredText` | bad_request.go:76-78 | `field can't be blank`, stated by `Rules.ParameterlessRules` |
| `Rules.MaxText` | bad_request.go:79-85 | `field is too long (maximum is N character)` on both branches, stated by `Rules.MaxIgnoresPlural` |
| `Rules.MinText` | bad_request.go:86-92 | `field is too short (minimum is N characters)`, without the `)` when N is `"1"`, stated by `Rules.MinClosedUnlessOne` |
| `Rules.NumericText` | bad_request.go:93-95 | `field is not a number`, stated by `Rules.ParameterlessRules` |
| `Rules.GtText` | bad_request.go:96-99 | `field must be greater than T`, stated by `Rules.ComparisonTemplate` |
| `Rules.GteText` | bad_request.go:100-103 | `field must be greater than or equal to T`, stated by `Rules.ComparisonTemplate` |
| `Rules.EqText` | bad_request.go:104-107 | `field must be equal to T`, stated by `Rules.ComparisonTemplate` |
| `Rules.LtText` | bad_request.go:108-111 | `field must be less than T`, stated by `Rules.ComparisonTemplate` |
| `Rules.LteText` | bad_request.go:112-115 | `field must be less than or equal to T`, stated by `Rules.ComparisonTemplate` |
| `Rules.OneOfText` | bad_request.go:116-120 | `field is not included in the list [list]`, stated by `Rules.OneOfShowsList` |
| `Rules.InvalidText` | bad_request.go:121-123 | `field is invalid`, stated by `Rules.ParameterlessRules`; every unregistered name ends here (`BadRequests.UnknownRuleFallsBack`) |
| `Rules.Lookup` | bad_request.go:47-50 | a registered name finds the formatter whose key it is; any other name finds `invalid`; the lookup is total |
| `Rules.RegistryKeys` | bad_request.go:75-124 | the registry's keys are exactly the names of the eleven formatters |
| `Rules.LookupKey` | bad_request.go:47-50 | every formatter is found again under its own key |
| `Rules.DescriptionNamesField` | bad_request.go:76-123 | every formatter's text starts with the field name and a space and has more after it |
| `Rules.ParameterlessRules` | bad_request.go:76-123 | `required` gives `field can't be blank`, `numeric` gives `field is not a number`, `invalid` gives `field is invalid`, whatever the parameters are |
| `Rules.OnlyFirstParamMatters` | bad_request.go:76-123 | the text depends on the parameters only through `params[0]`, and only for the rules that read it |
| `Rules.MaxIgnoresPlural` | bad_request.go:79-85 | `max` gives `field is too long (maximum is N character)` for every count N, `"1"` or not |
| `Rules.MinClosedUnlessOne` | bad_request.go:86-92 | `min` ends in `)` if and only if the count is not `"1"`; both exact texts |
| `Rules.ComparisonTemplate` | bad_request.go:96-115 | `gt`, `gte`, `eq`, `lt` and `lte` give `field must be greater than T`, `... greater than or equal to T`, `... equal to T`, `... less than T` and `... less than or equal to T`, where T is the threshold |
| `Rules.OneOfShowsList` | bad_request.go:116-120 | `oneof` gives `field is not included in the list [list]`, with the list unchanged; an empty list gives `[]` |
| `BadRequests.FieldViolation.Serialize` | bad_request.go:66-71 | the message carries the violation's field and description unchanged |
| `BadRequests.SerializeInjective` | bad_request.go:66-71 | two violations serialise to the same message if and only if they are equal |
| `BadRequests.NewFieldViolationWithRule` | bad_request.go:46-55 | the field is stored as given; the description starts with the field; an unregistered rule gives exactly `field is invalid` |
| `BadRequests.NewFieldViolation` | bad_request.go:58-63 | field and description are stored verbatim |
| `BadRequests.WithRuleIsFormattedText` | bad_request.go:46-55 | a rule-built violation equals the verbatim violation holding the looked-up formatter's text |
| `BadRequests.UnknownRuleFallsBack` | bad_request.go:47-50 | an unregistered rule name builds the same violation as the name `invalid` |
| `BadRequests.RequiredExample` | bad_request.go:76-78 | `required` on `email` gives `email can't be blank` |
| `BadRequests.Messages` | bad_request.go:29-37 | the serialised list has exactly one entry per violation |
| `BadRequests.MessagesAt` | bad_request.go:31-33 | entry i of the serialised list is violation i serialised, so nothing is dropped or reordered |
| `BadRequests.MessagesAppend` | bad_request.go:23-37 | serialising a concatenation gives the serialised parts, concatenated in order |
| `BadRequests.BadRequest.constructor` | bad_request.go:16-20 | a new aggregate holds the given violations in the given order |
| `BadRequests.BadRequest.WithFieldViolations` | bad_request.go:23-26 | the aggregate becomes the old list followed by the added violations, and the same object is returned |
| `BadRequests.BadRequest.Serialize` | bad_request.go:29-37 | the loop produces one message per violation, in order (entry i is violation i serialised); an empty aggregate gives an empty list |
| `BadRequests.ChainedEqualsCombined` | bad_request.go:16-37 | building with `a` then appending `b` serialises exactly as building with `a + b`: `a`'s messages, then `b`'s |

## Left out

- `debug_info.go` (`NewDebugInfo`, `DebugInfo.Serialize`) is not part of this model. Its behaviour rests on `github.com/pkg/errors`: a run-time check for a `StackTrace()` method and the `%+v` rendering of stack frames. Neither is modelled.
- Wire encoding of the `google.rpc.BadRequest` message is left out. The messages are plain records.
- `fmt.Sprintf` in general is left out. Only `%v` on a string and on a `[]string` is modelled, as the formatters use them.
- Formatters that read `params[0]` panic in Go when called without parameters. This is modelled as a precondition, not as an error path.
- Slice aliasing is left out. `NewBadRequest` keeps the caller's variadic slice, and `append` may share a backing array. Here the aggregate owns its list as a value.
- A nil result list and an empty one are the same value here.
- Concurrency is left out. The registry is never written after start-up, so it is a constant, and the aggregate is used by one caller at a time.
- Field violations are Go pointers to records that are never changed after construction. Here they are values, so a nil `*FieldViolation` cannot be represented: in Go, `NewBadRequest(nil).Serialize()` panics at bad_request.go:68, where `Serialize` reads `v.field` through the nil pointer. The model has no such case.
