# A verified model of the leveled logger in `log/logger.go`

The Go package `logs` provides one process-wide logger. It has three parts:

- a minimum level, `Info` < `Warning` < `Error` < `Fatal`;
- a colour flag;
- a set of writers.

`Log(level, format, args...)` works in four steps:

1. It coerces an unknown level to `Info`.
2. It drops messages below the logger's level.
3. It renders the template with `format_message`, which replaces `{N}` and `{N:spec}` placeholders with the formatted arguments.
4. It writes `get_tag(level) + message` to every writer in the set. On `Fatal`, the process exits after the first write.

Writers added with `AddWriter` sit behind a colour filter. The filter deletes SGR escape sequences.

The Dafny model follows the structure of the source:

| file | module | models |
|---|---|---|
| `decimal.dfy` | `Decimal` | Go's 64-bit `int`; the text of `%d`; the `%Wd` and `%0Wd` width forms |
| `format.dfy` | `Format` | `format_arg`; `format_message`, both as a reference function `Render` and as the imperative loop `FormatMessage`, proved equal to it |
| `format_laws.dfy` | `FormatLaws` | properties of the template engine: how a template is read, how placeholders render, `%d` round trips, worked examples |
| `color_filter.dfy` | `ColorFilter` | the filter `color_filter_writer.Write` applies, `ESC '[' [0-9;]* 'm'` deleted in one left-to-right pass |
| `tag.dfy` | `Tag` | `get_tag`, with the timestamp as a parameter |
| `logger.dfy` | `Logs` | the `Logger` object as a class; `New` and its `sync.Once`; `Log` |
| `wrappers.dfy` | `Wrappers` | an `Option` type |

Some of the code's behaviour may be unexpected. The model keeps it as written:

- **An unterminated `{` duplicates text.** When a `{` has no `}` after it, `format_message` has already written the text before the `{`. It then writes the rest of the template from the start of the current turn, so that text appears twice: `"Broken: {0"` renders as `"Broken: Broken: {0"`. A plain reading of the interface would expect the template back unchanged. The model follows the code.
- **A negative index panics.** `{-1}` makes Go index `args[-1]`, which panics. `Render` returns `Panic`, and `Log` then returns the outcome `Panicked` with no writes.
- **`get_tag` ignores its `color` argument.** Every writer gets the same tag. A filtered writer loses the colour codes only because its filter strips them.
- **`New` ignores its `buffer` argument.** The first logger always writes to standard output only.
- **`Fatal` exits only if there is a writer.** With an empty writer set there is no write and no exit.
- **`CancelWriter` deletes map keys.** The map is keyed by the filter wrappers, so cancelling a writer other than standard output that was passed to `AddWriter` changes nothing. Standard output is a key of its own, the one `New` puts in the map, so cancelling it removes that entry but not the filter entries `AddWriter` made for it.
- **`AddWriter` always adds an entry.** Each call makes a new wrapper, so adding the same writer twice leaves two entries.
- **The colour filter is not idempotent.** `ESC[ESC[0mm` becomes `ESC[m`, which is itself an SGR sequence. The model does not claim the output is free of escape sequences.

## Model

| member | source | states |
|---|---|---|
| `Decimal.Digits` | log/logger.go:120 | the digits `%d` prints for a non-negative number: at least one digit, never a leading zero, a single digit exactly for numbers below 10 |
| `Decimal.ValueOfDigits` | log/logger.go:120 | reading back the digits `%d` prints gives the number printed |
| `Decimal.ValueOfLeadingZeros` | log/logger.go:122 | zeros in front of a digit string leave its value unchanged |
| `Decimal.ZeroFill` | log/logger.go:122 | `%0Wd` is the sign, then zeros, then the digits; its length is the larger of W and the plain `%d` length |
| `Decimal.SpaceFill` | log/logger.go:122 | `%Wd` is spaces followed by the plain `%d` text |
| `Decimal.SpacePadAligns` | log/logger.go:122 | `%Wd` right-aligns the plain `%d` text in a field of W characters, padded with spaces, unless the number needs more width |
| `Format.FormatArg` | log/logger.go:116-133 | a string argument is returned as it is, whatever the spec; a value of another type is shown by its `%v` text |
| `Format.IndexFrom` | log/logger.go:140 | a found position is the requested character, at or after the start of the search |
| `Format.ScanInt` | log/logger.go:156 | a `%d` scan succeeds only with a number that fits a Go `int` |
| `Format.Chunk` | log/logger.go:139-151 | one loop turn writes one or two pieces, and the first is literal text |
| `Format.DigitRun` | log/logger.go:156 | the digit run `%d` reads lies within the input |
| `Format.DigitRunAll` | log/logger.go:156 | every character of that run is a decimal digit |
| `Format.ChunkEnd` | log/logger.go:169 | each turn moves the position forward, by at least 2 unless it reaches the end, so the loop terminates |
| `Format.FindBraces` | log/logger.go:140-153 | the two `IndexByte` searches of a turn cut out the pieces `Chunk` describes, and the next turn starts where `ChunkEnd` says |
| `Format.FormatPlaceholder` | log/logger.go:153-167 | the two `Sscanf` attempts, the bounds check and the call to `format_arg` give what `RenderPlaceholder` gives |
| `Format.ScanFrom` | log/logger.go:140-169 | one turn of the loop moves the position forward and appends exactly the rendered first turn of the remaining template |
| `Format.FormatMessage` | log/logger.go:135-173 | the builder loop returns the reference rendering `Render` of the template |
| `Format.ExpandAppend` | log/logger.go:136-172 | rendering the pieces of two consecutive stretches of template gives the first rendering followed by the second |
| `Format.ConcatAssoc` | log/logger.go:136-172 | appending to the builder is associative, and a panic propagates from any position |
| `FormatLaws.IndexFromFirst` | log/logger.go:140 | `IndexByte` finds the first occurrence: every earlier position holds another character |
| `FormatLaws.IndexFromNone` | log/logger.go:141 | the search fails if and only if the character does not occur at or after the start |
| `FormatLaws.TurnNoBrace` | log/logger.go:140-143 | if no `{` occurs from the turn's start on, the turn writes the rest of the template as it is and the scan stops |
| `FormatLaws.TurnUnclosed` | log/logger.go:145-151 | if a `{` is the first from the turn's start and no `}` follows it, the turn writes the text before the `{`, then the rest of the template from the start of the turn, and the scan stops |
| `FormatLaws.TurnClosed` | log/logger.go:145-153 | the first `{` from the turn's start and the first `}` after it make the placeholder: the text before the `{` is written, the specifier is the text between the braces, and the next turn starts after the `}` |
| `FormatLaws.ParseShift` | log/logger.go:139-170 | the scan from a position depends only on the template text from that position on |
| `FormatLaws.ParseTemplate` | log/logger.go:139-169 | scanning a template written from literals without `{` and specifiers without `}` recovers those literals and specifiers in order |
| `FormatLaws.RenderTemplate` | log/logger.go:135-173 | the message of such a template is each literal followed by the text of its placeholder, in order, with the trailing literal last; a panicking placeholder makes the message panic |
| `FormatLaws.RenderPlainText` | log/logger.go:140-143 | a template without `{` comes back unchanged, whatever the arguments, including any stray `}` |
| `FormatLaws.RenderUnterminated` | log/logger.go:145-151 | a `{` that no `}` follows makes the text before it appear twice: `prefix + "{" + rest` renders as `prefix + prefix + "{" + rest` |
| `FormatLaws.ScanIntReadsBack` | log/logger.go:156 | `%d` reads back the text `%d` prints for any Go `int`, and stops before the next character that is not a decimal digit |
| `FormatLaws.ScanIntSkipsBlanks` | log/logger.go:162 | `%d` skips leading blanks: space, tab, vertical tab, form feed and carriage return |
| `FormatLaws.ScanSpecWord` | log/logger.go:156 | after the index, `:%s` reads the word up to the next blank or newline |
| `FormatLaws.PlaceholderIndex` | log/logger.go:162-166 | `{N}` with N in range renders argument N with the empty spec |
| `FormatLaws.PlaceholderIndexSpec` | log/logger.go:156-161 | `{N:spec}` with N in range renders argument N with the spec |
| `FormatLaws.PlaceholderPastEnd` | log/logger.go:158-166 | an index at or past the end of the arguments renders as nothing |
| `FormatLaws.PlaceholderNegative` | log/logger.go:158-159 | a negative index panics |
| `FormatLaws.PlaceholderUnreadable` | log/logger.go:156-167 | a specifier that does not start with a number, such as `{}` or `{x}`, renders as nothing |
| `FormatLaws.IntArgReadsBack` | log/logger.go:118-122 | an `int` printed with no spec or with a `W`/`0W` spec reads back through `%d` as the same number, and a width spec gives a field of W characters unless the number needs more |
| `FormatLaws.ZeroPadScans` | log/logger.go:122 | the zero-padded form reads back as the number and is as wide as the width asks, or wider when the number needs it |
| `FormatLaws.ExampleValue` | main.go:11 | `"Value: {0}"` with `100` renders as `"Value: 100"` |
| `FormatLaws.ExampleHex` | main.go:13 | the argument `0x10A` prints as `"266"` |
| `FormatLaws.PlaceholderPadded` | main.go:14 | `{0:05}` with `100` renders as `"00100"` |
| `FormatLaws.ExampleMissing` | log/logger.go:158-166 | `"Missing: {5}"` with two arguments renders as `"Missing: "` |
| `FormatLaws.ExampleBroken` | log/logger.go:145-151 | `"Broken: {0"` renders as `"Broken: Broken: {0"` |
| `FormatLaws.ExampleTrailing` | log/logger.go:162-166 | `{0abc}` fails the `%d:%s` scan, and the `%d` scan then renders argument 0 with the empty spec |
| `FormatLaws.ExampleEmptySpec` | log/logger.go:156-166 | `{0:}` has no word after the colon and renders argument 0 with the empty spec |
| `FormatLaws.ExampleUnderscore` | log/logger.go:156-166 | `%d` stops at an underscore: `{1_0}` reads the index 1, fails the `:%s` scan, and renders argument 1 with the empty spec |
| `FormatLaws.ExampleNegative` | log/logger.go:158-159 | `{-1}` panics |
| `ColorFilter.ParamRun` | log/logger.go:57 | the greedy `[0-9;]*` run is no longer than its input |
| `ColorFilter.MatchLen` | log/logger.go:57 | a match of the pattern is at least three bytes long and lies within the input |
| `ColorFilter.Strip` | log/logger.go:56-59 | the filtered bytes are never longer than the input |
| `ColorFilter.MatchSgr` | log/logger.go:57 | the pattern matches an SGR sequence wherever one starts, whatever follows it |
| `ColorFilter.MatchIsSgr` | log/logger.go:57 | whatever the pattern matches is an SGR sequence |
| `ColorFilter.StripDropsSgr` | log/logger.go:58 | an SGR sequence at the start of the input is deleted |
| `ColorFilter.StripKeepsPlain` | log/logger.go:58 | text without ESC is kept as it is, ahead of the filtered rest |
| `ColorFilter.StripNoEsc` | log/logger.go:58 | input without an ESC byte passes through unchanged |
| `ColorFilter.JoinTokens` | log/logger.go:58 | the input is exactly its kept bytes and its deleted sequences, in order |
| `ColorFilter.TokensSgr` | log/logger.go:57-58 | every deleted piece is an SGR sequence |
| `ColorFilter.StripKeepsTokens` | log/logger.go:58 | the filter's output is exactly the kept bytes, in their order |
| `ColorFilter.StripLeftmost` | log/logger.go:58 | if the tokens delete only SGR sequences and no kept byte starts a match, the filter gives exactly the kept bytes |
| `ColorFilter.TokensLeftmost` | log/logger.go:57-58 | the left-to-right split of any input deletes only SGR sequences and keeps no byte at which a match starts |
| `ColorFilter.PlainAndSgr` | log/logger.go:57-58 | text assembled from plain bytes other than ESC and SGR sequences filters to exactly its plain bytes |
| `ColorFilter.StripNotIdempotent` | log/logger.go:57-58 | `ESC[ESC[0mm` filters to `ESC[m`, which filtering a second time deletes |
| `Tag.GetTagIgnoresColor` | log/logger.go:87-114 | the `color` argument makes no difference to the tag |
| `Tag.PlainTag` | log/logger.go:113 | without colour, or for a level without a case, the tag is the timestamp followed by the level's label |
| `Tag.ColoursAreSgr` | log/logger.go:91-97 | each colour constant is an SGR sequence with the stated parameters |
| `Tag.ColouredTag` | log/logger.go:100-110 | a coloured tag is the timestamp in one colour, then the label in a second colour, then a reset; Error and Fatal share their colours |
| `Tag.AllParamsColours` | log/logger.go:92-97 | the colour parameters are all digits and semicolons |
| `Tag.StripColouredTag` | log/logger.go:56-114 | filtering a coloured tag and a message gives the plain tag and the filtered message |
| `Logs.Clamp` | log/logger.go:176-178 | a level outside `Info`..`Fatal` becomes `Info`; a valid level is kept |
| `Logs.FilteredWriterGetsPlainTag` | log/logger.go:56-66 | a writer behind a filter receives the plain tag and the filtered message, whether or not the logger colours its tags |
| `Logs.Logger.constructor` | log/logger.go:46-50 | the new logger has the given level and colour flag and standard output as its only writer |
| `Logs.Logger.AddWriter` | log/logger.go:62-67 | adds exactly one new filter entry around the writer, even for a writer added before; the set grows by one and the level and colour flag are unchanged |
| `Logs.Logger.CancelWriter` | log/logger.go:69-73 | deletes exactly the key `writer`; a writer of the caller's own, other than standard output, is never a key, so cancelling one that was passed to `AddWriter` leaves the set as it was; nothing else changes |
| `Logs.Logger.SetLevel` | log/logger.go:75-79 | sets the level and changes nothing else |
| `Logs.Logger.IsColorAvailable` | log/logger.go:81-85 | sets the colour flag and changes nothing else |
| `Logs.Logger.Log` | log/logger.go:175-194 | a clamped level below the logger's level, or a logger level above `Fatal`, writes nothing; a panicking template writes nothing and panics; otherwise the message is delivered as `Delivered` says |
| `Logs.Logger.Dispatch` | log/logger.go:186-193 | every write is the tag for its writer followed by the message, and no writer is written twice; below `Fatal` every writer gets exactly one write; on `Fatal` exactly one writer gets the message and the process exits, unless there is no writer, in which case nothing is written and the call returns |
| `Logs.WriteKeeps` | log/logger.go:186-188 | one more write, to a writer not yet visited, keeps the writes tagged and distinct, and adds that writer to the visited set |
| `Logs.DestsHas` | log/logger.go:186-188 | every write's writer is among the writers written to |
| `Logs.FatalRouted` | log/logger.go:190-192 | a `Fatal` message written to one writer of a non-empty set ends in an exit after that one write |
| `Logs.FatalDelivered` | log/logger.go:186-192 | a `Fatal` message whose one write carries the tag and the message is delivered as `Delivered` says, ending in an exit |
| `Logs.AllDelivered` | log/logger.go:186-193 | writes to every writer of the set, once each, each carrying its tag and the message, are delivered as `Delivered` says |
| `Logs.Registry.constructor` | log/logger.go:27-30 | before the first `New` there is no instance |
| `Logs.Registry.New` | log/logger.go:43-54 | the first call makes a fresh logger from `level` and `color`, with standard output as its only writer whatever `buffer` is; every later call returns that same logger and changes nothing; the instance and the returned logger are always valid |

## Left out

- The `float64` branch of `format_arg` (log/logger.go:123-127): the model has no floating point and no Go verb formatting. A `float64` argument is modelled as `Other`, carrying the text `%v` gives it; the spec then makes no difference.
- `Format.FormatArg`: for an `int` with a spec other than the `W`/`0W` width forms, the result is `printf(spec, i)`. `printf` is a parameter that stands for Go's `fmt.Sprintf("%" + spec + "d", i)`, whose semantics are not modelled. Width specs above 1000000 also go to `printf`.
- The default branch of `format_arg` (log/logger.go:130-131): `%v` of an arbitrary value is modelled as text the argument carries.
- `Format.ScanInt`: `fmt.Sscanf` is modelled only as far as this template engine uses it:
  - it skips the ASCII blanks space, tab, vertical tab, form feed and carriage return before a number;
  - the Unicode spaces Go's scanner also skips (U+0085, U+00A0, U+1680, U+2000 to U+200A, U+2028, U+2029, U+202F, U+205F, U+3000) are not modelled;
  - it reads an optional sign and then decimal digits, and stops at the first other character, an underscore included;
  - for `:%s`, it reads the word up to one of those blanks or a newline.
  
  What follows the scanned index is ignored, so `{0abc}` and `{0:}` render argument 0.
- `time.Now()` (log/logger.go:88): the timestamp is a parameter. `Log` takes a clock, and the k-th write of a call gets the timestamp `clock(k)`, since the source reads the time once per writer.
- Real I/O: `io.Writer.Write`, `os.Stdout` and `os.Exit(0)`.
  - `Log` returns the sequence of writes it makes and an outcome (`Returned`, `Exited` or `Panicked`).
  - `Exited` stands for `os.Exit(0)`; the exit status is not modelled.
  - Write errors are ignored by the source and are not modelled.
  - A writer is a `Dest`: standard output, a writer the caller owns, or the filter the k-th `AddWriter` call made.
  - `Received` is what the writer under a chain of filters finally gets.
- Concurrency: `sync.Once`, `sync.RWMutex`, and `Log`'s reads of the logger without the lock. All operations are modelled as sequential.
- The map iteration order of `Log`: `Dispatch` picks any writer not yet visited, so the proved properties hold for every order.
- Bytes: each `char` stands for one byte, and UTF-8 is not modelled.
- `main.go` is an example caller. Its calls appear as the worked examples `ExampleValue`, `ExampleHex` and `PlaceholderPadded`.
