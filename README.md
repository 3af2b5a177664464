# Batch file renamer — a Dafny model

This project models the core of a command-line batch renamer written in C#
(`src/Renamer/Program.cs`). The program works in four stages:

- It parses the command line into an `Options` record.
- It validates and normalises the options: template tokens, the sequence
  width, the case and conflict modes, and the extensions.
- It walks the files of a folder and plans one `from -> to` rename per file.
  The plan applies the hidden-file and extension filters, the literal and
  regex replacements, the case mode, the extension change, and the template or
  prefix/suffix. It then sanitises the name, truncates it to the length limit,
  and applies the conflict policy: skip, overwrite, or `name_1`, `name_2`, ….
- `Main` maps the outcome to an exit code: 0 for success or help, 2 for a
  usage error, 1 for any other exception.

The model has one module per concern:

- `Wrappers` holds `Option` and `Result`.
- `Text` holds the .NET string primitives the program relies on: `Trim`,
  ordinal `Replace`, `Split` with its options, and ASCII case mapping.
- `Numbers` holds 32-bit integers, `int.Parse`, the decimal text of an integer
  and the zero-padded format `seq.ToString("000")`.
- `CommandLine` holds `Options`, `Options.Parse`, the `OptionException`
  messages and `Main`'s exit codes.
- `Validation` holds `Validate`.
- `Names` holds `NormalizeExt`, `SanitizeFileName`, `ApplyCase`, template
  substitution and the length rule.
- `Paths` holds `FileInfo.Extension`, `GetFileNameWithoutExtension` and
  `Path.Combine`.
- `Conflicts` holds the conflict policy.
- `Planner` holds the body of the planning loop for one file.
- `Planning` holds the loop itself.
- `Program` holds `Main`.

Where the source updates variables in a loop, the model does the same. This
covers:

- the argument loop of `Parse`;
- the token loop and the filter-list loop of `Validate`;
- the character loop of `SanitizeFileName`;
- the `do … while` of the increment policy;
- the `foreach` of `Run`.

Each of those methods is proved equal to a function that states the same
result on values. The properties are proved about those functions.

Where the source has a defect (see "## Findings"), the model keeps a member
for the code as written, shows the defect on it, and uses a corrected member
everywhere else. In particular `Run` plans with `PlanOne`, which sanitises a
`--change-ext` value before appending it; `PlanOneAsWritten` appends it as
the source does.

The program's dependencies on its environment become parameters:

- the folder's listing is a `seq<FileRec>`;
- the paths for which `File.Exists` holds are a `set<string>`;
- the current directory is `cwd`;
- `Path.GetInvalidFileNameChars`, `Regex.Replace`, `TextInfo.ToTitleCase` and
  `DateTime.Now.ToString(format)` are fields of a `Host` value.

## Model

| member | source | states |
|---|---|---|
| Numbers.DecimalValue | src/Renamer/Program.cs:130 | The decimal digits of `n` denote `n`. |
| Numbers.DecimalInjective | src/Renamer/Program.cs:173 | Different numbers have different decimal texts. |
| Numbers.ZerosDoNotCount | src/Renamer/Program.cs:130 | Leading zeros keep a digit string all digits and do not change its value. |
| Numbers.PaddedDenotes | src/Renamer/Program.cs:130 | `seq.ToString` with a zero-padded format, for `n >= 0`: all digits, it denotes `n`, and its length is the larger of the width and the number of digits of `n`. |
| Numbers.Padded | src/Renamer/Program.cs:130 | The padded text is at least `width` long and at least one character; it is digits only, except a leading minus sign exactly for a negative value. |
| Numbers.IntText | src/Renamer/Program.cs:173 | `inc` in `{finalName}_{inc}{finalExt}` is never empty and holds only digits and a leading minus sign; for `n >= 0` it is all digits and denotes `n`. |
| Numbers.DigitsOfValue | src/Renamer/Program.cs:310-312 | The digit parser returns the value of any non-empty digit string. |
| Numbers.ParseInt32 | src/Renamer/Program.cs:310-312 | `int.Parse` accepts only values within 32 bits. |
| Numbers.ParseSignedDigits | src/Renamer/Program.cs:310-312 | An optionally signed digit string parses to its value exactly when that value fits in 32 bits. |
| Numbers.IntTextRoundTrip | src/Renamer/Program.cs:310-312 | `int.Parse` of the decimal text of any 32-bit integer returns that integer. |
| Numbers.Inc32 | src/Renamer/Program.cs:181 | `seq++` keeps the counter a 32-bit integer. |
| Numbers.Wrap32 | src/Renamer/Program.cs:181 | Wrapping yields a 32-bit value congruent to its input modulo 2^32. |
| Numbers.Inc32Wraps | src/Renamer/Program.cs:181 | Incrementing a wrapped counter is wrapping the next count, so the counter after `k` increments is the start plus `k`, wrapped. |
| CommandLine.Defaults | src/Renamer/Program.cs:263-283 | A new `Options` has sequence start 1, 3 digits, maximum length 255, empty prefix and suffix, and no `--apply` or help. |
| CommandLine.ExitCode | src/Renamer/Program.cs:7-33 | Exit code 0 exactly on success; 2 for an `OptionException`; 1 for the exception `int.Parse` throws. |
| CommandLine.Message | src/Renamer/Program.cs:49-321 | The `Unknown argument` and `Missing value` messages end with the offending argument; the unknown-token message (as intended) holds the token right after its fixed opening. |
| CommandLine.AsWrittenMessageHidesToken | src/Renamer/Program.cs:49 | As written, the unknown-token message is the same for every token (see Findings). |
| CommandLine.MessageNamesToken | src/Renamer/Program.cs:49 | With the intended interpolation, equal messages mean equal tokens: the message names the rejected token. |
| CommandLine.Arity | src/Renamer/Program.cs:295-318 | Every flag consumes at most two following arguments. |
| CommandLine.FlagOf | src/Renamer/Program.cs:293-321 | An argument is recognised exactly when it is one of the flag spellings or `-h` (which means `--help`); anything else is unknown. |
| CommandLine.SpellingRoundTrip | src/Renamer/Program.cs:293-321 | Every flag's spelling is recognised as that flag. |
| CommandLine.SetSwitch | src/Renamer/Program.cs:295-317 | A switch turns its own setting on (`--help`/`-h`, `--recursive`, `--include-hidden`, `--apply`) and changes no text or number setting. |
| CommandLine.SetPair | src/Renamer/Program.cs:305-306 | `--replace` and `--regex` store their two values, in order, as their own setting, and change no one-value text setting and no number. |
| CommandLine.SetText | src/Renamer/Program.cs:296-318 | A text flag sets its own property to the value and leaves every other text setting and every number unchanged. |
| CommandLine.SetNumber | src/Renamer/Program.cs:310-312 | A number flag sets its own property and leaves the other numbers and every text setting unchanged. |
| CommandLine.Assign | src/Renamer/Program.cs:293-321 | Applying one flag fails exactly when it is a number flag whose value `int.Parse` rejects, and then it fails with that value; otherwise the integers stay in 32 bits. |
| CommandLine.AssignSettings | src/Renamer/Program.cs:293-321 | After a successful flag, its own setting holds what the flag assigns (on for a switch, both values for a pair, the value or the parsed number otherwise); every other setting, switches included, is kept, and so is the filter list. |
| CommandLine.RoundAt | src/Renamer/Program.cs:290-322 | One pass of the loop always moves the index forward, and never past the end. |
| CommandLine.ScanFrom | src/Renamer/Program.cs:288-323 | A successful scan from any index ends with 32-bit integer settings. |
| CommandLine.Scan | src/Renamer/Program.cs:288-323 | A successful scan of all arguments ends with 32-bit integer settings. |
| CommandLine.WithFolder | src/Renamer/Program.cs:325-326 | An absent or blank folder becomes the current directory, any other folder is kept, and no other setting changes. |
| CommandLine.ParseArgs | src/Renamer/Program.cs:285-332 | A successful parse has 32-bit integers and a folder. |
| CommandLine.NextValues | src/Renamer/Program.cs:291 | `Next()` called `n` times succeeds exactly when `n` more arguments follow, and yields exactly those arguments. |
| CommandLine.ReadFlag | src/Renamer/Program.cs:290-322 | One iteration of the loop body does what one step of the scan specifies. |
| CommandLine.Parse | src/Renamer/Program.cs:285-332 | The imperative loop and the folder default compute `ParseArgs`. |
| CommandLine.RoundPrefix | src/Renamer/Program.cs:288-323 | A successful step does not depend on arguments after those it consumes. |
| CommandLine.RoundShift | src/Renamer/Program.cs:288-323 | A step does not depend on the arguments before its index, up to the shift of the index. |
| CommandLine.ScanShift | src/Renamer/Program.cs:288-323 | Scanning from an index does not depend on the arguments before it. |
| CommandLine.ScanFromAppend | src/Renamer/Program.cs:288-323 | Scanning `p + q` from inside `p` scans `p`, then scans `q` from the options reached. |
| CommandLine.ScanAppend | src/Renamer/Program.cs:288-323 | The loop is compositional: once a prefix parses, the rest is parsed from the options it produced. |
| CommandLine.UnknownArgumentRejected | src/Renamer/Program.cs:320-321 | An unrecognised argument after a valid prefix makes the parse fail with `Unknown argument`, whatever follows. |
| CommandLine.MissingValueRejected | src/Renamer/Program.cs:291 | A flag at the end without enough values fails with `Missing value`, including `--replace`/`--regex` with one value. |
| CommandLine.ScanFromKeeps | src/Renamer/Program.cs:288-323 | Scanning arguments that never name a flag leaves that flag's setting unchanged. |
| CommandLine.ScanKeeps | src/Renamer/Program.cs:288-323 | Scanning arguments that never name a flag leaves that flag's setting unchanged. |
| CommandLine.ScanFromSwitchOn | src/Renamer/Program.cs:288-323 | A switch that is on stays on whatever arguments follow. |
| CommandLine.ScanAtFlag | src/Renamer/Program.cs:288-323 | A one-value flag followed by its value is applied to the options so far, and the scan continues after the value. |
| CommandLine.LastTextFlagWins | src/Renamer/Program.cs:296-326 | When no later argument spells that one-value text flag and the parse succeeds, the options hold its last value; for `--folder`, a blank last value gives the current directory and any other value is kept. |
| CommandLine.LastPairFlagWins | src/Renamer/Program.cs:305-306 | When no later argument spells that `--replace` or `--regex` flag and the parse succeeds, the options hold its last two values. |
| CommandLine.SwitchGiven | src/Renamer/Program.cs:295-317 | A switch given anywhere is on after a successful parse. |
| CommandLine.LastNumberFlagWins | src/Renamer/Program.cs:310-312 | When no later argument spells that number flag and the parse succeeds, its value parsed and the option holds it. |
| CommandLine.BadNumberIsFatal | src/Renamer/Program.cs:310-312 | A number flag whose value `int.Parse` rejects makes the parse fail with that value, whatever follows. |
| CommandLine.FolderDefaults | src/Renamer/Program.cs:325-326 | With a non-blank current directory the parsed folder is never blank; with no `--folder` it is the current directory. |
| Text.TrimStart | src/Renamer/Program.cs:92 | The result is no longer than the input and does not start with white space. |
| Text.TrimEnd | src/Renamer/Program.cs:92 | The result is no longer than the input and does not end with white space. |
| Text.TrimStartDrops | src/Renamer/Program.cs:92 | `TrimStart` removes a prefix of the input, and everything it removes is white space. |
| Text.TrimEndDrops | src/Renamer/Program.cs:92 | `TrimEnd` removes a suffix of the input, and everything it removes is white space. |
| Text.Trim | src/Renamer/Program.cs:92 | The result is no longer than the input and has no white space at either end. |
| Text.TrimIsPiece | src/Renamer/Program.cs:92 | `Trim` returns a contiguous piece of its input and drops only white space on both sides. |
| Text.TrimBlank | src/Renamer/Program.cs:325 | Trimming gives the empty string exactly for a blank string. |
| Text.TrimKeepsTrimmed | src/Renamer/Program.cs:92 | `Trim` leaves a string without white space at either end alone. |
| Text.Lower | src/Renamer/Program.cs:94 | `ToLowerInvariant` keeps the length, leaves no upper-case ASCII letter, and changes only upper-case letters. |
| Text.Upper | src/Renamer/Program.cs:232 | `ToUpperInvariant` keeps the length, leaves no lower-case ASCII letter, and changes only lower-case letters. |
| Text.LowerOfUpper | src/Renamer/Program.cs:44-48 | Lower-casing forgets an earlier upper-casing, which is what makes the case-insensitive comparisons agree. |
| Text.ReplaceChar | src/Renamer/Program.cs:235 | `Replace(char, char)` keeps the length, replaces exactly the `from` characters, and leaves none of them behind. |
| Text.ReplaceAll | src/Renamer/Program.cs:120 | Ordinal `Replace` leaves a string shorter than the pattern, or one without the pattern's first character, unchanged. |
| Text.ReplaceJoin | src/Renamer/Program.cs:120 | Replacing a pattern in pieces joined by that pattern, none of which holds its first character, gives the pieces joined by the replacement. |
| Text.ReplaceAbsent | src/Renamer/Program.cs:137-140 | Ordinal `Replace` returns the string unchanged when the pattern does not occur. |
| Text.ReplaceBySelf | src/Renamer/Program.cs:120 | Replacing a pattern by itself is the identity. |
| Text.ReplaceWhole | src/Renamer/Program.cs:137-140 | The pattern on its own becomes the replacement. |
| Text.Split | src/Renamer/Program.cs:61 | `Split` yields at least one piece, and no piece holds the separator. |
| Text.SplitJoin | src/Renamer/Program.cs:61 | Joining the pieces of `Split` with the separator gives back the input. |
| Text.Entries | src/Renamer/Program.cs:61 | With `RemoveEmptyEntries` and `TrimEntries`, every entry is non-empty, trimmed and free of the separator; every entry is a trimmed piece of `Split`, and every piece that is not blank gives an entry. |
| Text.EntriesAppend | src/Renamer/Program.cs:61 | The entries of `a` joined to `b` by the separator are the entries of `a` followed by those of `b`, so the entries keep the order of the input. |
| Paths.LastDot | src/Renamer/Program.cs:111-115 | The index found is the last `.` of the name; when there is none, the name has no dot. |
| Paths.Extension | src/Renamer/Program.cs:111 | `FileInfo.Extension` is a suffix of the name; it is empty exactly when the name has no dot, and otherwise starts with the last dot (a trailing dot gives `.`). |
| Paths.Stem | src/Renamer/Program.cs:115 | `GetFileNameWithoutExtension` is a prefix of the name, and the whole name when it has no dot. |
| Paths.StemAndExtension | src/Renamer/Program.cs:111-115 | The extension is empty or a dot followed by no further dot, and the stem followed by the extension gives back the name, a trailing dot included (`a.` has stem `a` and extension `.`). |
| Paths.CombineLead | src/Renamer/Program.cs:153 | `Path.Combine` puts something before the file name that depends only on the directory and its first character, so the result ends with the file name. |
| Paths.Combine | src/Renamer/Program.cs:153 | `Path.Combine` with an empty file gives the directory; the result ends with the file; a relative file is put after the directory. |
| Paths.NestedNotInDirectory | src/Renamer/Program.cs:153 | Combining a directory with a relative name that holds a separator gives a path not directly inside that directory. |
| Paths.AppendedNotInDirectory | src/Renamer/Program.cs:153 | A separator-free name followed by a part that holds a separator, but does not start with one, combines to a path outside the directory. |
| Names.NormalizeExtShape | src/Renamer/Program.cs:90-95 | `NormalizeExt` always yields a normal form: a leading dot, no upper-case ASCII letter, and no trailing white space. |
| Names.NormalizeExtFixesNormal | src/Renamer/Program.cs:90-95 | The normal forms are exactly the fixed points of `NormalizeExt`. |
| Names.NormalizeExtIdempotent | src/Renamer/Program.cs:90-95 | Normalising twice is normalising once. |
| Names.NormalizeExt | src/Renamer/Program.cs:90-95 | The normalised extension starts with a dot and has no upper-case ASCII letter. |
| Names.Masked | src/Renamer/Program.cs:243-250 | The buffer has the name's length; a character changes exactly when it is invalid and not `_`, and then it becomes `_`. |
| Names.SanitizedKeepsClean | src/Renamer/Program.cs:240-252 | A trimmed name without invalid characters comes out of `SanitizeFileName` unchanged. |
| Names.SanitizeFileName | src/Renamer/Program.cs:240-252 | The loop computes `Sanitized`: no longer than the input, and with no invalid character left (when `_` is valid). |
| Names.ApplyCase | src/Renamer/Program.cs:227-238 | Lower and upper modes give the input lower- or upper-cased (ASCII), of the same length; title mode leaves no space; any other mode returns the input unchanged. The mode is matched ignoring case. |
| Names.LowerCaseIdempotent | src/Renamer/Program.cs:231 | Applying the lower-case mode twice is applying it once. |
| Names.WithoutDots | src/Renamer/Program.cs:138 | `TrimStart('.')` drops exactly the leading dots. |
| Names.Substitute | src/Renamer/Program.cs:136-140 | A template without `{` is used literally for every file. |
| Names.SubstituteRenders | src/Renamer/Program.cs:136-140 | For any template made of brace-free text and the four tokens, with values free of `{`, the chained `Replace` calls put each token's value in place of the token, and no `{` is left. |
| Names.RenderHasNoBrace | src/Renamer/Program.cs:136-140 | Rendering brace-free text and token values free of `{` leaves no `{`. |
| Names.SequenceTemplate | src/Renamer/Program.cs:130-140 | The template `{n}` yields exactly the zero-padded sequence number. |
| Names.UpperCaseTokenStaysLiteral | src/Renamer/Program.cs:136-140 | The validator accepts `{NAME}` (ignoring case), but the case-sensitive replacement leaves it in the name literally. |
| Names.Limit | src/Renamer/Program.cs:150 | The limit is always positive; it is `MaxLength` when that is positive, else 255. |
| Names.Truncate | src/Renamer/Program.cs:150-151 | The result is the longest prefix within the limit, counted in Unicode scalar values: the whole name when it fits, otherwise exactly the limit's length. |
| Validation.StopAt | src/Renamer/Program.cs:45 | The lazy group stops at the first `}` or line feed, and neither occurs before it. |
| Validation.Tokens | src/Renamer/Program.cs:45 | No captured token contains `}` or a line feed. |
| Validation.NoTokensNoMatch | src/Renamer/Program.cs:45 | There are no tokens exactly when no `{` is followed, before any line feed, by a `}`. |
| Validation.TokensBraced | src/Renamer/Program.cs:45 | Every token is found in the template between `{` and `}`. |
| Validation.TokensConcat | src/Renamer/Program.cs:45 | After text without `{`, a braced token free of `}` and line feeds is the first token, and the scan resumes right after its `}`. |
| Validation.NoBraceNoTokens | src/Renamer/Program.cs:41-51 | A template without `{` has no tokens, so it always passes the check. |
| Validation.SameIgnoringCaseLower | src/Renamer/Program.cs:43 | `OrdinalIgnoreCase` comparison, character by character, agrees with comparing the lower-case spellings. |
| Validation.AllowedIgnoresCase | src/Renamer/Program.cs:44-48 | The allowed-token check gives the same answer for a token and its upper- or lower-cased spelling. |
| Validation.FirstBadTokenFound | src/Renamer/Program.cs:45-50 | The check reports nothing exactly when every trimmed token is allowed; otherwise it reports the trimmed token at the first position whose trimmed token is not allowed, all earlier ones being allowed. |
| Validation.SingleToken | src/Renamer/Program.cs:45-49 | The template `{x}` yields the single token `x`, rejected exactly when its trimmed text is not one of the four. |
| Validation.NormalizeAllAt | src/Renamer/Program.cs:61-62 | Position `k` of the filter list holds the `k`-th entry normalised. |
| Validation.NormalizeAllNormal | src/Renamer/Program.cs:61-62 | Every element of the filter list is in normal form. |
| Validation.Normalized | src/Renamer/Program.cs:53-64 | The normalising assignments leave the template, the width and the two modes unchanged. |
| Validation.CheckTokens | src/Renamer/Program.cs:45-50 | The token loop returns the first trimmed token that is not allowed. |
| Validation.NormalizeEach | src/Renamer/Program.cs:60-63 | The loop builds the list of normalised entries in order. |
| Validation.NormalizeOptions | src/Renamer/Program.cs:53-64 | The two assignments produce `Normalized(o)`. |
| Validation.Validate | src/Renamer/Program.cs:41-87 | Validation succeeds exactly when every check passes, and then returns the normalised options. Otherwise it fails with the first failing check's error, in the source's order: unknown token (naming it), sequence digits, name case, conflict. |
| Validation.ValidatedExtensionsNormal | src/Renamer/Program.cs:53-64 | After validation the new extension and every listed filter extension are in normal form. |
| Conflicts.ConflictMode | src/Renamer/Program.cs:158 | The mode is lower-case and as long as the option; it is `increment` when no `--conflict` is given, and an already lower-case value is kept. |
| Conflicts.CandidateInjective | src/Renamer/Program.cs:173 | Different counters give different candidate paths. |
| Conflicts.TriedNext | src/Renamer/Program.cs:171-175 | The candidates tried before `k` are those tried before `k - 1`, plus candidate `k - 1`. |
| Conflicts.TriedFresh | src/Renamer/Program.cs:171-175 | Candidate `k` is none of those tried before it. |
| Conflicts.TriedSize | src/Renamer/Program.cs:171-175 | Before the `k`-th candidate, `k - 1` distinct paths have been tried. |
| Conflicts.TriedBound | src/Renamer/Program.cs:171-175 | If candidates `1 .. k-1` all exist, at least `k - 1` paths exist, so the probe ends. |
| Conflicts.FreeIndex | src/Renamer/Program.cs:169-176 | The counter settled on is the least one, from the start on, whose candidate does not exist. |
| Conflicts.ProbeIncrement | src/Renamer/Program.cs:169-176 | The `do … while` returns the first free `base_k` candidate; it does not exist. |
| Conflicts.Resolve | src/Renamer/Program.cs:155-178 | A free target is kept, and the file is dropped exactly when its target exists under `skip`. |
| Conflicts.ResolveTarget | src/Renamer/Program.cs:153-178 | The conflict code computes `Resolve` for the lower-cased mode, which defaults to increment. |
| Conflicts.ResolveOutcome | src/Renamer/Program.cs:153-178 | A free target is kept; a file is skipped exactly when its target exists under `skip`; only `overwrite` yields an existing path; otherwise the result is the first free `base_k`, with all earlier candidates existing. |
| Conflicts.ResolveKeepsExtension | src/Renamer/Program.cs:153-178 | Every chosen target ends with the final extension. |
| Conflicts.ResolveInDirectory | src/Renamer/Program.cs:153-178 | With a base name and an extension free of separators, every chosen target lies directly in the file's directory, or is the directory itself when both are empty. |
| Conflicts.ResolveLeavesDirectory | src/Renamer/Program.cs:153-178 | With an extension that holds a separator after its first character, every chosen target lies outside the file's directory. |
| Planner.Admitted | src/Renamer/Program.cs:109-113 | A hidden file is never admitted without `--include-hidden`; with no filter list any other file is admitted; with a non-empty list an admitted file's lower-cased extension is in it. |
| Planner.Processed | src/Renamer/Program.cs:117-124 | With no replacement and no case mode the stem is kept; the lower and upper case modes give a lower- or upper-case name. |
| Planner.ProcessedReplaceOnly | src/Renamer/Program.cs:118-120 | With `--replace` alone, the name is the ordinal `Replace` of the old text by the new one, an absent new text counting as empty. |
| Planner.ProcessedRegexAfterReplace | src/Renamer/Program.cs:121-122 | The regex replacement applies to the stem as the literal replacement left it, an absent replacement counting as empty. |
| Planner.ProcessedCaseLast | src/Renamer/Program.cs:123-124 | The case mode applies last, to the stem as both replacements left it. |
| Planner.ProcessedReplaceThenLower | src/Renamer/Program.cs:117-124 | With `--replace` and the lower mode, the name is the lower-cased result of the replacement. |
| Planner.FinalExt | src/Renamer/Program.cs:127 | Without `--change-ext` the file's own extension is kept; a trimmed `--change-ext` value without invalid characters becomes the extension as given; any value brings no invalid character other than `_` (corrected, see Findings). |
| Planner.Composed | src/Renamer/Program.cs:129-145 | A template without `{` is the name; without a template the result is the prefix, then the processed name, then the suffix, and nothing else. |
| Planner.BaseName | src/Renamer/Program.cs:115-151 | The new name is within the length limit (in Unicode scalar values), and every character in it is `_` or a valid file-name character. |
| Planner.NewBaseName | src/Renamer/Program.cs:115-151 | Steps 1 to 4 of the loop body compute the final extension and `BaseName`. |
| Planner.PlanWith | src/Renamer/Program.cs:108-180 | Once the final extension is chosen: a file the filters reject is not planned, and a planned rename moves the file itself. |
| Planner.PlanOneAsWritten | src/Renamer/Program.cs:108-180 | The loop body as written: a file the filters reject is not planned, and a planned rename moves the file itself. |
| Planner.PlanOne | src/Renamer/Program.cs:108-180 | The loop body with the new extension sanitised: the same properties, and the same plan as written whenever `--change-ext` is not given or is trimmed and free of invalid characters. |
| Planner.NormalChangeExtAsWritten | src/Renamer/Program.cs:127 | A normalised `--change-ext` value without invalid characters, as `Validate` leaves an ordinary one, plans exactly as line 127 as written. |
| Planner.PlanFile | src/Renamer/Program.cs:108-180 | One pass of the loop body, with its `continue`s, computes `PlanOne`. |
| Planner.PlanOneSource | src/Renamer/Program.cs:109-113 | A planned rename moves the file it was planned for, and only files the filters admit are planned. |
| Planner.PlanOneTarget | src/Renamer/Program.cs:153-180 | An admitted file is dropped exactly when its target exists under `skip`. A planned target exists only under `overwrite`, and it ends with the final extension. |
| Planner.PlanWithInDirectory | src/Renamer/Program.cs:153-180 | With `/` invalid, a single-component file name and a separator-free final extension, the file renamed and its target lie directly in the file's directory, or the target is the directory itself when the new name and extension are both empty. |
| Planner.PlanOneInDirectory | src/Renamer/Program.cs:127-180 | With the new extension sanitised and `/` invalid, every planned rename keeps the file in its directory (or targets the directory itself, when name and extension are both empty). |
| Planner.ChangeExtStaysInDirectory | src/Renamer/Program.cs:127-180 | With the new extension sanitised, a non-blank `--change-ext` value keeps every planned target directly in the file's directory. |
| Planner.AsWrittenChangeExtLeavesDirectory | src/Renamer/Program.cs:127-153 | As written, a `--change-ext` value starting with a dot and holding a separator puts every planned target outside the file's directory. |
| Planner.AsWrittenChangeExtExample | src/Renamer/Program.cs:53-153 | As written, `--change-ext .x/y` passes normalisation unchanged and `/d/a.txt` is planned to a path outside `/d`. |
| Planner.HiddenLeftAlone | src/Renamer/Program.cs:109 | Hidden files are never planned without `--include-hidden`. |
| Planner.FilterNeedsExtension | src/Renamer/Program.cs:111-113 | After validation, a filter with at least one entry never admits a file without an extension. |
| Planning.Planned | src/Renamer/Program.cs:102-182 | At most one rename per file, and the counter is the start plus the number of renames planned, wrapped to 32 bits. |
| Planning.Step | src/Renamer/Program.cs:180-181 | A file either changes nothing or appends its rename and increments the counter. |
| Planning.PlannedStep | src/Renamer/Program.cs:106-182 | The first `i + 1` files are planned by one step after the first `i`. |
| Planning.WrapStep | src/Renamer/Program.cs:181 | Each increment keeps the counter at the wrapped count. |
| Planning.PlannedSources | src/Renamer/Program.cs:106-182 | Whatever holds of each file's own rename holds of every planned rename, for some listed file. |
| Planning.PlanFor | src/Renamer/Program.cs:106-182 | The per-file planner is defined everywhere and is `PlanOne`. |
| Planning.Run | src/Renamer/Program.cs:99-182 | The `foreach` computes the plan of `Planned` for the enumerated files, in order. |
| Planning.RunRenamesAdmittedFiles | src/Renamer/Program.cs:106-182 | Every planned rename moves one of the listed files that the filters admit. |
| Planning.RunStaysInDirectories | src/Renamer/Program.cs:106-182 | With `/` invalid, every rename `Run` plans moves a listed file within its own directory: source and target lie directly in it, or the target is the directory itself when name and extension are both empty. |
| Program.Execute | src/Renamer/Program.cs:7-33 | A parse error exits with its code and no plan; help exits 0 first; a failed check exits 2; otherwise the normalised options are planned and the run exits 0. |

## Left out

- File-system I/O is replaced by parameters:
  - `Directory.GetFiles`, with or without recursion, becomes the list `files` given to `Run`. `--recursive` therefore has no effect inside the model.
  - `File.Exists` becomes the fixed set `existing`.
  - `FileInfo.Attributes` becomes the `hidden` flag.
- `Validate` is modelled without its folder check (lines 38-39), which depends on `Directory.Exists`. The model also omits the creation of the undo-log directory (lines 66-70).
- `Options.Parse` omits `Path.GetFullPath` (line 329): the folder is kept as given, or as the current directory `cwd`.
- The preview output, the apply phase and the undo log (lines 184-223) are not part of this model:
  - `File.Move`;
  - `Directory.CreateDirectory`;
  - the counters of renamed files and errors;
  - the console output.
  Any exception these or `Run` throw would make `Main` exit with 1, and that is not modelled either.
- `PrintHelp` and all console output are left out.
- `Regex.Replace`, `TextInfo.ToTitleCase`, `Path.GetInvalidFileNameChars` and `DateTime.Now.ToString(format)` are opaque host functions (`Host`). An invalid regex or date format, which throws in the source, is therefore not modelled.
- The regex `\{(.*?)\}` of the token check is modelled by `Tokens` for this one pattern only.
- `ToLowerInvariant`/`ToUpperInvariant` are modelled on ASCII letters only. Non-ASCII letters are left unchanged.
- `Path.Combine` is modelled with `/` as the only separator.
- `Paths.InDirectory` is textual: a directory combined with a non-empty name free of `/`. It does not treat the names `.` and `..` specially, and it does not resolve links.
- `FileInfo.FullName` is taken to be `Combine(dir, name)`.
- `Names.ApplyCase`: for title case the model states only that no space remains, since `ToTitleCase` is a host function.
- `Planning.Run`: it does not check planned targets against each other or against the sources renamed earlier in the same run, since the source checks only `File.Exists` at planning time.
- `Names.Truncate`/`Planner.BaseName`: lengths count Unicode scalar values, not UTF-16 code units. For a name with characters outside the Basic Multilingual Plane, the source's limit (`Length` and `Substring`, lines 150-151) is tighter, and its cut can split a surrogate pair, which a Dafny `string` cannot hold.
- `Conflicts.Candidate`/`Conflicts.FreeIndex`: the probe counter `inc` is an unbounded natural. In the source it is an `int` (lines 169-174) that would wrap after 2^31 - 1 existing candidates.
- `Numbers.ParseInt32`: `int.Parse` is modelled for the default `NumberStyles.Integer`: ASCII digits, an optional sign, and leading or trailing white space from U+0009 to U+000D and U+0020 only. Culture-specific signs and non-ASCII digits are not modelled.
- `Numbers.Padded`/`Numbers.IntText`: a negative number is printed with `-`. The source's `ToString(format)` and interpolation (lines 130 and 173) use the current culture's `NegativeSign`, which is not modelled.

## Findings

| source | as written | input that shows it | evidently intended | confidence | as-written member | corrected member |
|---|---|---|---|---|---|---|
| src/Renamer/Program.cs:49 | The message is built with `'{{token}}'` in an interpolated string. That doubled brace is an escape, so the message always reads `Unknown token '{token}'` and never names the token. | `--template "{foo}"` | The message names the rejected token, e.g. `Unknown token 'foo'`. | not executed | CommandLine.AsWrittenMessageHidesToken | CommandLine.MessageNamesToken |
| src/Renamer/Program.cs:127 | The `--change-ext` value becomes the final extension as it is, and is appended after `SanitizeFileName` has cleaned the name (lines 147 and 153). `NormalizeExt` (lines 90-95) keeps a `/`, so the target path can leave the file's directory. | `--change-ext ".x/y"` on `/d/a.txt` plans `/d/a.x/y`, a file `y` in the sub-directory `/d/a.x`. | The new extension is sanitised like the name, so every target stays in the file's directory (`/d/a.x_y`). | not executed | Planner.AsWrittenChangeExtExample | Planner.PlanOneInDirectory |
