# Log-channel parser and schema-change op dispatcher, in Dafny

This project models two small pieces of CockroachDB.

**The logging code generator's input parser** (`readInput` in
`pkg/util/log/gen/main.go`). The generator reads the logging `.proto` file line
by line. It trims white space around each line and skips blank lines. It
tracks whether it is inside `enum Severity` or `enum Channel`. It gathers the
`//` comment lines that precede each member, and a `reserved` line discards
them. For every member line it emits an `info` record holding:
- the raw comment;
- a `Comment` that starts "// The `KEY` severity" (or "channel");
- a `PComment` with the comment markers removed;
- a title-cased `Name`;
- the upper- and lower-case key.

`CHANNEL_MAX` is never emitted as a channel. The model is:
- the loop, as the method `LogGen.ReadInput`;
- one loop iteration, as the function `LogGen.Step`;
- the whole scan, as the left fold `LogGen.Scan`.

The method is proved equal to the fold. The lemmas about the fold state what
the parser guarantees: it is never inside both blocks; blank lines are
ignored; records are only appended; every record comes from a member line of
its own block; the gathered comment is always empty or a run of whole `//`
lines, each ending in a newline.
The `strings` functions the parser uses (`TrimSpace`, `HasPrefix`,
`TrimPrefix`, `Split`, `ReplaceAll`, `ToUpper`, `ToLower`) are in module
`GoStrings`, with their own properties proved.

**The op-function dispatcher of the declarative schema changer**
(`pkg/sql/schemachanger/scplan/internal/opgen/op_funcs.go`). The pieces are:
- `makeTargetsWithElementMap` indexes the targets of a schema change by their
  element, and panics on a duplicate.
- `checkOpFunc` checks that a registered op function takes the element (and
  optionally the targets map) and returns a pointer to an operation. It also
  classifies the operation as a mutation, validation or backfill.
- `makeOpsFunc` checks all the functions registered for one element type and
  requires them to agree on one kind. It returns the compiled function, which
  calls each of them and keeps the results that are not nil.
- `newLogEventBase`, `newLogEventOp` and `statementForDropJob` build the event
  and drop-job records for an element from its target and statement.

Go reflection is replaced by an explicit description of each registered value:
its parameter types, its result type and the operation interfaces that result
type implements. The value's behaviour is a Dafny function value. Panics are
`Outcome.Panic` values. Both Go's `errors.AssertionFailedf` panics and its
index-out-of-range panics are modelled, and so is the panic of a reflective call
whose argument does not fit the function's parameters.

Two behaviours of `checkOpFunc` worth noting:
- A result type implementing several operation kinds is not an error:
  `checkOpFunc` takes the first of mutation, validation, backfill
  (op_funcs.go:173-184).
- A result type implementing none of them is returned as an error, not raised
  as a panic (op_funcs.go:180-182).

## Model

| member | source | states |
|---|---|---|
| LogGen.ReadInput | pkg/util/log/gen/main.go:100-169 | the records are exactly those of the left fold `Scan` over the trimmed lines of the input split at newlines |
| LogGen.KindOf | pkg/util/log/gen/main.go:110-139 | classifies a trimmed line; each kind holds exactly when the line is empty or starts with its prefix (`enum Severity`, `enum Channel`, `}`, `//`, `reserved`) |
| LogGen.MemberStep | pkg/util/log/gen/main.go:140-165 | the member branch: the key is the first field; a record for it goes to the open block's list (never CHANNEL_MAX to the channel list) and the gathered comment is reset |
| LogGen.MakeInfo | pkg/util/log/gen/main.go:141-153 | the record keeps the raw comment; Comment is "// The `key` kind" followed by the raw comment less a leading "// key"; PComment is Comment with every "// " and then every "//" removed, so no "//" is left and it is no longer than Comment; Name is the lower-cased key with underscores turned into spaces, passed through the title-casing function, with the spaces removed, so it has no space; NAME and NameLower are the upper- and lower-cased key, as long as the key, with no lower-case and no upper-case ASCII letter respectively, and lower-casing NAME gives NameLower |
| LogGen.PCommentOfUncommentedMember | pkg/util/log/gen/main.go:144-148 | a member with no comment before it (key and kind free of slashes) gets the plain sentence "The `key` kind" as its PComment |
| LogGen.StripLeadingMarker | pkg/util/log/gen/main.go:148 | removing "// " and then "//" from "// " followed by slash-free text gives that text |
| LogGen.CommentHeaderSentence | pkg/util/log/gen/main.go:144 | the Comment header is "// " followed by the sentence "The `key` kind", which holds no slash when key and kind hold none |
| LogGen.Step | pkg/util/log/gen/main.go:109-165 | one loop iteration over a trimmed line, branch for branch: blank lines skipped, the block headers and the closing brace switching blocks, lines outside both blocks ignored, comment lines gathered, a reserved line clearing them, any other line a member |
| LogGen.Scan | pkg/util/log/gen/main.go:108-166 | the loop over all lines, as a left fold of Step from the initial state |
| LogGen.Trimmed | pkg/util/log/gen/main.go:109 | every input line trimmed of its surrounding white space |
| LogGen.BlockOpensOnlyFromOutside | pkg/util/log/gen/main.go:114-121 | a block opens only from outside both blocks, on a line starting with its header |
| LogGen.BlockClosesOnlyOnBrace | pkg/util/log/gen/main.go:117-126 | an open block closes only on a line starting with `}`, and closing one never opens the other |
| LogGen.OutsideLineEmitsNothing | pkg/util/log/gen/main.go:128-130 | outside both blocks a line emits no record and keeps the gathered comment |
| LogGen.CommentHandling | pkg/util/log/gen/main.go:132-139 | inside a block a `//` line is appended to the gathered comment with a newline, a `reserved` line clears it, a member line clears it and keeps the block |
| LogGen.MemberLineEmits | pkg/util/log/gen/main.go:140-165 | a member line appends exactly its own record to its block's list and nothing to the other list; a CHANNEL_MAX line appends nothing |
| LogGen.StepOnlyAppends | pkg/util/log/gen/main.go:143-164 | one line only appends to the two record lists |
| LogGen.StepKeepsCommentShape | pkg/util/log/gen/main.go:132-139 | one line without a newline of its own keeps the gathered comment empty or a run of whole `//` lines, each ending in a newline (it starts with `//`, ends with a newline, and every other newline is followed by `//`) |
| LogGen.ScanLast | pkg/util/log/gen/main.go:108-166 | the scan of a longer input is one more loop iteration on the scan of its prefix |
| LogGen.NeverInBothBlocks | pkg/util/log/gen/main.go:114-127 | after any input the parser is not inside both blocks |
| LogGen.BlankLineIgnored | pkg/util/log/gen/main.go:110-112 | inserting an empty line anywhere does not change the result |
| LogGen.MapLinesConcat | pkg/util/log/gen/main.go:108-109 | trimming lines one by one commutes with concatenating the inputs |
| LogGen.WhiteSpaceLineIgnored | pkg/util/log/gen/main.go:109-112 | inserting a line of white space anywhere in the raw input does not change the result |
| LogGen.RecordsOnlyAppended | pkg/util/log/gen/main.go:143-164 | the records of an input are a prefix of the records of any longer input |
| LogGen.NoHeaderNoRecords | pkg/util/log/gen/main.go:114-130 | with no `enum Severity` or `enum Channel` line the parser stays in its initial state and emits nothing |
| LogGen.RawCommentShape | pkg/util/log/gen/main.go:132-139 | after any lines without newlines the gathered comment is empty or a run of whole `//` lines, each ending in a newline |
| LogGen.TrimmedLinesHaveNoNewline | pkg/util/log/gen/main.go:108-109 | the trimmed lines of the input split at newlines hold no newline |
| LogGen.GatheredCommentShape | pkg/util/log/gen/main.go:108-139 | after any input the comment readInput has gathered is empty or a run of whole `//` lines, each ending in a newline |
| LogGen.AppendCommentLine | pkg/util/log/gen/main.go:132-135 | appending a `//` line without a newline of its own, then a newline, keeps the comment a run of whole `//` lines, each ending in a newline |
| LogGen.SeverityGrowth | pkg/util/log/gen/main.go:143-153 | a line that adds a severity record is a member line inside the Severity block, and the record is that member's |
| LogGen.ChannelGrowth | pkg/util/log/gen/main.go:154-164 | a line that adds a channel record is a member line other than CHANNEL_MAX inside the Channel block, and the record is that member's |
| LogGen.SeverityRecordOrigin | pkg/util/log/gen/main.go:143-153 | every severity record was made from some member line read inside the Severity block, with the comment gathered before it |
| LogGen.ChannelRecordOrigin | pkg/util/log/gen/main.go:154-164 | every channel record was made from some member line other than CHANNEL_MAX read inside the Channel block |
| GoStrings.IsSpace | pkg/util/log/gen/main.go:109 | the white-space characters of Go's unicode.IsSpace: tab to carriage return, space, U+0085, U+00A0 and the other Unicode White_Space code points |
| GoStrings.TrimSpace | pkg/util/log/gen/main.go:109 | the result occurs in the input with only white space before and after it, so only leading and trailing white space is removed; neither end of it is white space; it is empty exactly when the input is all white space |
| GoStrings.HasPrefix | pkg/util/log/gen/main.go:115-132 | the text starts with the prefix |
| GoStrings.TrimSpaceIdempotent | pkg/util/log/gen/main.go:109 | trimming an already trimmed line changes nothing |
| GoStrings.TrimPrefix | pkg/util/log/gen/main.go:144 | with the prefix present, prefix plus result is the input; otherwise the input is unchanged |
| GoStrings.Split | pkg/util/log/gen/main.go:108 | at least one piece, no piece contains the separator, joining the pieces with it gives the input back, and the first piece is the text before the first separator |
| GoStrings.Join | pkg/util/log/gen/main.go:108 | the pieces with the separator between consecutive ones, the inverse of Split |
| GoStrings.SplitJoin | pkg/util/log/gen/main.go:108 | splitting pieces joined by a separator they do not contain gives back the pieces |
| GoStrings.SplitPiece | pkg/util/log/gen/main.go:108 | text without the separator splits into itself alone |
| GoStrings.SplitPieceThenSep | pkg/util/log/gen/main.go:108 | a piece followed by the separator splits off as the first piece |
| GoStrings.FirstField | pkg/util/log/gen/main.go:140 | the key is a prefix of the line without a space, ending at the line's end or at a space |
| GoStrings.ReplaceAll | pkg/util/log/gen/main.go:141-148 | replacing with nothing never lengthens the text |
| GoStrings.ReplaceAllWithoutOccurrence | pkg/util/log/gen/main.go:141-148 | text without the pattern comes back unchanged |
| GoStrings.ReplaceAllOfPattern | pkg/util/log/gen/main.go:148 | the pattern alone becomes the replacement |
| GoStrings.ReplaceAllAtMatch | pkg/util/log/gen/main.go:148 | text starting with the pattern becomes the replacement followed by the rest replaced |
| GoStrings.ReplaceAllSkipOne | pkg/util/log/gen/main.go:148 | text not starting with the pattern keeps its first character and replaces the rest |
| GoStrings.ReplaceAllConcat | pkg/util/log/gen/main.go:148 | when no occurrence straddles the boundary, replacing in a concatenation is the concatenation of the replaced parts |
| GoStrings.NoOccurrenceWithoutFirst | pkg/util/log/gen/main.go:148 | text without the pattern's first character holds no occurrence of it |
| GoStrings.ReplaceCharRemovesIt | pkg/util/log/gen/main.go:141-142 | replacing a character with text free of it leaves none of it |
| GoStrings.ReplaceAllKeepsHead | pkg/util/log/gen/main.go:148 | a first character that cannot start the pattern survives the replacement |
| GoStrings.NoDoubleSlashCons | pkg/util/log/gen/main.go:148 | a character before text without "//" makes no "//" unless both are slashes |
| GoStrings.RemoveDoubleSlash | pkg/util/log/gen/main.go:148 | after removing every "//" none is left |
| GoStrings.UpperChar | pkg/util/log/gen/main.go:150 | an ASCII lower-case letter goes to its upper-case letter, every other character is kept |
| GoStrings.LowerChar | pkg/util/log/gen/main.go:151 | an ASCII upper-case letter goes to its lower-case letter, every other character is kept |
| GoStrings.ToUpper | pkg/util/log/gen/main.go:150 | keeps the length and upper-cases each character in place |
| GoStrings.ToLower | pkg/util/log/gen/main.go:151 | keeps the length and lower-cases each character in place |
| GoStrings.ToUpperHasNoLower | pkg/util/log/gen/main.go:150 | an upper-cased string has no lower-case ASCII letter |
| GoStrings.ToLowerHasNoUpper | pkg/util/log/gen/main.go:151 | a lower-cased string has no upper-case ASCII letter |
| GoStrings.LowerOfUpper | pkg/util/log/gen/main.go:150-151 | lower-casing the upper-cased key gives the lower-cased key |
| GoStrings.ToUpperIdempotent | pkg/util/log/gen/main.go:150 | upper-casing twice is upper-casing once |
| OpGen.MakeTargetsWithElementMap | pkg/sql/schemachanger/scplan/internal/opgen/op_funcs.go:80-97 | succeeds exactly when no two targets share an element, and otherwise panics with an assertion failure; on success it keeps the target state and rollback flag, and the map sends each target's element to its position and holds nothing else |
| OpGen.IndexMeansDistinct | pkg/sql/schemachanger/scplan/internal/opgen/op_funcs.go:74-78 | a map indexing every target by its element exists only when the elements are distinct |
| OpGen.CheckOpFunc | pkg/sql/schemachanger/scplan/internal/opgen/op_funcs.go:144-185 | a non-function, a wrong parameter list and a wrong result list are each rejected exactly when they occur, in that order; a well-shaped function gets Mutation, else Validation, else Backfill, each exactly when its result type implements it and none before it, and an unknown-category error exactly when it implements none |
| OpGen.FirstKindWins | pkg/sql/schemachanger/scplan/internal/opgen/op_funcs.go:173-179 | a result type implementing several kinds gets the first of Mutation, Validation, Backfill |
| OpGen.MakeOpsFunc | pkg/sql/schemachanger/scplan/internal/opgen/op_funcs.go:103-117 | succeeds exactly when every function passes the check with one common kind; then it keeps all functions in order and returns that kind (the zero kind for none); on failure the error is that of the first function that fails the check or disagrees with the earlier kind |
| OpGen.MixedKindsRejected | pkg/sql/schemachanger/scplan/internal/opgen/op_funcs.go:111-114 | two functions of different kinds never compile together |
| OpGen.RunOpsFunc | pkg/sql/schemachanger/scplan/internal/opgen/op_funcs.go:118-134 | panics in the reflective call exactly when some function's parameters do not fit the element (and the targets map); otherwise returns the fold `Emitted`: each function called with the element alone or with the targets map too, as it declares, keeping the non-nil results |
| OpGen.CompiledAcceptsItsType | pkg/sql/schemachanger/scplan/internal/opgen/op_funcs.go:103-134 | the functions compiled for an element type run without that panic exactly on elements of that type |
| OpGen.CompiledAreFuncs | pkg/sql/schemachanger/scplan/internal/opgen/op_funcs.go:103-117 | every value of a successful compilation is a function the compiled function can call |
| OpGen.Emitted | pkg/sql/schemachanger/scplan/internal/opgen/op_funcs.go:118-134 | never more operations than functions |
| OpGen.Invoke | pkg/sql/schemachanger/scplan/internal/opgen/op_funcs.go:124-128 | a function declaring one parameter is called with the element alone, otherwise with the element and the targets map |
| OpGen.PresentAppend | pkg/sql/schemachanger/scplan/internal/opgen/op_funcs.go:129-131 | a further result adds its operation at the end exactly when it is not nil |
| OpGen.EmittedIsPresentResults | pkg/sql/schemachanger/scplan/internal/opgen/op_funcs.go:118-134 | when no call panics, the compiled function returns exactly the non-nil results of its functions, in registration order |
| OpGen.EmittedConcat | pkg/sql/schemachanger/scplan/internal/opgen/op_funcs.go:118-134 | registering functions after others appends their operations after the others' |
| OpGen.ElementOnlyIgnoresMap | pkg/sql/schemachanger/scplan/internal/opgen/op_funcs.go:124-125 | functions taking only the element emit the same whatever the targets map |
| OpGen.NilResultSkipped | pkg/sql/schemachanger/scplan/internal/opgen/op_funcs.go:129-131 | a nil result between two operations is dropped and the order kept |
| OpGen.NewLogEventBase | pkg/sql/schemachanger/scplan/internal/opgen/op_funcs.go:24-38 | an element absent from the map panics with an assertion failure; the call succeeds exactly when the target and its statement exist, and then carries the target's metadata, the authorization, and the statement's redacted text and tag |
| OpGen.NewLogEventOp | pkg/sql/schemachanger/scplan/internal/opgen/op_funcs.go:40-53 | the same success and panic conditions; on success it holds the base event, the target's element and its target status |
| OpGen.StatementForDropJobOf | pkg/sql/schemachanger/scplan/internal/opgen/op_funcs.go:55-66 | looks the target up at the element's index, or at 0 for an absent element; panics only by indexing out of range; on success holds the stripped redacted statement, its ID and the rollback flag |
| OpGen.LogEventForTarget | pkg/sql/schemachanger/scplan/internal/opgen/op_funcs.go:24-53 | over a well-built index, every target's element yields that target's log event, exactly when its statement exists |
| OpGen.LogEventForStrangerPanics | pkg/sql/schemachanger/scplan/internal/opgen/op_funcs.go:25-30 | over a well-built index, an element of no target makes both log-event builders panic with an assertion failure |
| OpGen.DropJobStatementForTarget | pkg/sql/schemachanger/scplan/internal/opgen/op_funcs.go:55-66 | over a well-built index, every target's element yields that target's statement |
| OpGen.DropJobStrangerUsesFirstTarget | pkg/sql/schemachanger/scplan/internal/opgen/op_funcs.go:55-56 | an element absent from the map silently gets the first target's statement, where the log-event builders panic |

## Left out

- Reading the `.proto` file (`os.ReadFile` and its error) is outside the model: `LogGen.ReadInput` takes the file's contents.
- The rest of the generator (`main`, `run`, the templates, `gofmt`, writing the output files) is not part of this model.
- `cases.Title` is a parameter `title` of the parser, not modelled: `Name` is that function applied as the source applies it, and beyond that it is only known to contain no space.
- LogGen.MakeInfo: the case mapping is ASCII-only, where Go's `strings.ToUpper` and `strings.ToLower` map all of Unicode.
- Strings are sequences of code points. Go splits and trims UTF-8 bytes, which gives the same pieces for valid UTF-8.
- GoStrings.ReplaceAll: an empty pattern, for which Go inserts the replacement between every character, is excluded; the parser never uses one.
- `redact.RedactableString.StripMarkers` is a parameter `stripMarkers` of `OpGen.StatementForDropJobOf`, not modelled.
- OpGen.RunOpsFunc: reflect.Value.Call accepts an argument whose type is assignable to the parameter's; the model accepts only the identical type, which is exact for the parameter lists checkOpFunc admits (the element's own concrete type and `*targetsWithElementMap`).
- Reflection is replaced by the `OpFuncValue` description. A nil function value (which makes reflection panic) is not modelled, and neither is a function that panics when called.
- `protoutil.Clone` is a value copy: Dafny datatypes are values, so aliasing between the events and the target state is not modelled.
- Go compares map keys by pointer identity; the model compares elements by value, and an element's `id` stands for its identity.
- Error and panic messages are not modelled, only which error or panic occurs.
- OpGen.MakeOpsFunc: on failure it returns only the error, and the Go function's nil function and zero kind are not separate results.
