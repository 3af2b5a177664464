/** The option model and the argument parser (`Options`, `Options.Parse`,
    `OptionException`). `None` stands for a property that is still null. */
module CommandLine {
  import opened Wrappers
  import opened Text
  import opened Numbers

  datatype Options = Options(
    folder: Option<string>,
    recursive: bool,
    includeHidden: bool,
    filterExt: Option<string>,
    filterExtList: Option<seq<string>>,
    template: Option<string>,
    prefix: string,
    suffix: string,
    replaceOld: Option<string>,
    replaceNew: Option<string>,
    regexPattern: Option<string>,
    regexReplacement: Option<string>,
    changeExt: Option<string>,
    dateFormat: Option<string>,
    sequenceStart: int,
    sequenceDigits: int,
    maxLength: int,
    nameCase: Option<string>,
    conflict: Option<string>,
    apply: bool,
    undoLog: Option<string>,
    showHelp: bool)

  /** A freshly constructed `Options`: property initialisers only. */
  function Defaults(): (o: Options)
    ensures o.sequenceStart == 1 && o.sequenceDigits == 3 && o.maxLength == 255
    ensures o.prefix == "" && o.suffix == "" && !o.apply && !o.showHelp
  {
    Options(None, false, false, None, None, None, "", "", None, None, None, None,
            None, None, 1, 3, 255, None, None, false, None, false)
  }

  /** The three integer properties hold 32-bit values. */
  predicate IntsInRange(o: Options)
  {
    IsInt32(o.sequenceStart) && IsInt32(o.sequenceDigits) && IsInt32(o.maxLength)
  }

  /** `string.IsNullOrEmpty(s)` negated. */
  predicate HasText(s: Option<string>)
  {
    s.Some? && s.value != []
  }

  /** Problems reported through `OptionException` (exit code 2). */
  datatype OptionError =
    | UnknownArgument(arg: string)
    | MissingValue(flag: string)
    | UnknownToken(token: string)
    | SequenceDigitsOutOfRange
    | BadNameCase
    | BadConflict

  /** `Usage` is an `OptionException`; `BadInteger` is the format or overflow
      exception `int.Parse` throws, which `Main` treats as fatal. */
  datatype Error = Usage(problem: OptionError) | BadInteger(text: string)

  /** `Main`'s mapping of an outcome to the process exit code. */
  function ExitCode(r: Result<(), Error>): (code: int)
    ensures code == 0 <==> r.Success?
    ensures r.Failure? && r.error.Usage? ==> code == 2
    ensures r.Failure? && r.error.BadInteger? ==> code == 1
  {
    match r
    case Success(_) => 0
    case Failure(Usage(_)) => 2
    case Failure(BadInteger(_)) => 1
  }

  const AllowedTokensText: string := " in --template. Allowed: {name}, {ext}, {n}, {date}"

  /** The text of each `OptionException`, with the offending token named. */
  function Message(e: OptionError): (r: string)
    ensures e.UnknownArgument? ==> |e.arg| <= |r| && r[|r| - |e.arg|..] == e.arg
    ensures e.MissingValue? ==> |e.flag| <= |r| && r[|r| - |e.flag|..] == e.flag
    ensures e.UnknownToken? ==> 15 + |e.token| <= |r| && r[15..15 + |e.token|] == e.token
  {
    match e
    case UnknownArgument(a) => "Unknown argument: " + a
    case MissingValue(a) => "Missing value for " + a
    case UnknownToken(t) => "Unknown token '" + t + "'" + AllowedTokensText
    case SequenceDigitsOutOfRange => "--sequence-digits must be 1..8"
    case BadNameCase => "--name-case must be lower|upper|title|none"
    case BadConflict => "--conflict must be skip|overwrite|increment"
  }

  /** The messages as `Parse` and `Validate` build them: in the unknown-token
      message the doubled braces of the interpolated string yield the literal
      `{token}`. */
  function MessageAsWritten(e: OptionError): string
  {
    match e
    case UnknownToken(_) => "Unknown token '{token}'" + AllowedTokensText
    case _ => Message(e)
  }

  /** As written, the unknown-token message is the same whatever the token. */
  lemma AsWrittenMessageHidesToken(a: string, b: string)
    ensures MessageAsWritten(UnknownToken(a)) == MessageAsWritten(UnknownToken(b))
  {
  }

  /** Corrected, the message determines the token it reports. */
  lemma {:induction false} MessageNamesToken(a: string, b: string)
    requires Message(UnknownToken(a)) == Message(UnknownToken(b))
    ensures a == b
  {
    var p := "Unknown token '";
    var q := "'" + AllowedTokensText;
    var ma := Message(UnknownToken(a));
    assert ma == p + a + q;
    assert |a| == |b|;
    assert a == ma[|p|..|p| + |a|];
  }

  // ----- flags ---------------------------------------------------------------

  /** The flags `Parse` recognises; `--help` and `-h` are one flag. */
  datatype Flag =
    | Help | Folder | Recursive | IncludeHidden | FilterExt
    | Template | Prefix | Suffix | Replace | Regex
    | ChangeExt | DateFormat | SequenceStart | SequenceDigits | MaxLength
    | NameCase | Conflict | Apply | UndoLog

  /** How each flag is spelled on the command line (`--help` also answers
      to `-h`). */
  function Spelling(f: Flag): string
  {
    match f
    case Help => "--help"
    case Folder => "--folder"
    case Recursive => "--recursive"
    case IncludeHidden => "--include-hidden"
    case FilterExt => "--filter-ext"
    case Template => "--template"
    case Prefix => "--prefix"
    case Suffix => "--suffix"
    case Replace => "--replace"
    case Regex => "--regex"
    case ChangeExt => "--change-ext"
    case DateFormat => "--date-format"
    case SequenceStart => "--sequence-start"
    case SequenceDigits => "--sequence-digits"
    case MaxLength => "--max-length"
    case NameCase => "--name-case"
    case Conflict => "--conflict"
    case Apply => "--apply"
    case UndoLog => "--undo-log"
  }

  /** The `switch (a)` of `Parse`: which flag an argument names, if any. An
      argument names a flag exactly when it is that flag's spelling, or `-h`. */
  function FlagOf(a: string): (r: Option<Flag>)
    ensures r.Some? ==> a == Spelling(r.value) || (a == "-h" && r.value == Help)
    ensures r.None? ==> a != "-h" && forall f :: a != Spelling(f)
  {
    match a
    case "--help" => Some(Help)
    case "-h" => Some(Help)
    case "--folder" => Some(Folder)
    case "--recursive" => Some(Recursive)
    case "--include-hidden" => Some(IncludeHidden)
    case "--filter-ext" => Some(FilterExt)
    case "--template" => Some(Template)
    case "--prefix" => Some(Prefix)
    case "--suffix" => Some(Suffix)
    case "--replace" => Some(Replace)
    case "--regex" => Some(Regex)
    case "--change-ext" => Some(ChangeExt)
    case "--date-format" => Some(DateFormat)
    case "--sequence-start" => Some(SequenceStart)
    case "--sequence-digits" => Some(SequenceDigits)
    case "--max-length" => Some(MaxLength)
    case "--name-case" => Some(NameCase)
    case "--conflict" => Some(Conflict)
    case "--apply" => Some(Apply)
    case "--undo-log" => Some(UndoLog)
    case _ => None
  }

  /** Every spelling is recognised as its own flag. */
  lemma SpellingRoundTrip(f: Flag)
    ensures FlagOf(Spelling(f)) == Some(f)
  {
  }

  /** How many following arguments a flag consumes through `Next()`. */
  function Arity(f: Flag): (n: nat)
    ensures n <= 2
  {
    match f
    case Help | Recursive | IncludeHidden | Apply => 0
    case Replace | Regex => 2
    case _ => 1
  }

  /** Flags whose value goes through `int.Parse`. */
  predicate IsNumberFlag(f: Flag)
  {
    f.SequenceStart? || f.SequenceDigits? || f.MaxLength?
  }

  /** Flags whose one value is kept as text. */
  predicate IsTextFlag(f: Flag)
  {
    Arity(f) == 1 && !IsNumberFlag(f)
  }

  /** The text a text flag last set (prefix and suffix are never null). */
  function TextSetting(o: Options, f: Flag): Option<string>
    requires IsTextFlag(f)
  {
    match f
    case Folder => o.folder
    case FilterExt => o.filterExt
    case Template => o.template
    case Prefix => Some(o.prefix)
    case Suffix => Some(o.suffix)
    case ChangeExt => o.changeExt
    case DateFormat => o.dateFormat
    case NameCase => o.nameCase
    case Conflict => o.conflict
    case UndoLog => o.undoLog
  }

  /** The value a number flag last set. */
  function NumberSetting(o: Options, f: Flag): int
    requires IsNumberFlag(f)
  {
    match f
    case SequenceStart => o.sequenceStart
    case SequenceDigits => o.sequenceDigits
    case MaxLength => o.maxLength
  }

  /** What a flag sets in `Options`: a boolean, a text, a number, or the
      two texts of `--replace` and `--regex`. */
  datatype Setting =
    | SwitchValue(on: bool)
    | TextValue(text: Option<string>)
    | NumberValue(number: int)
    | PairValue(first: Option<string>, second: Option<string>)

  /** The properties flag `f` sets. Together with `FilterExtList`, which no
      flag sets, they are all the properties of `Options`. */
  function SettingOf(o: Options, f: Flag): Setting
  {
    match f
    case Help => SwitchValue(o.showHelp)
    case Recursive => SwitchValue(o.recursive)
    case IncludeHidden => SwitchValue(o.includeHidden)
    case Apply => SwitchValue(o.apply)
    case Replace => PairValue(o.replaceOld, o.replaceNew)
    case Regex => PairValue(o.regexPattern, o.regexReplacement)
    case SequenceStart => NumberValue(o.sequenceStart)
    case SequenceDigits => NumberValue(o.sequenceDigits)
    case MaxLength => NumberValue(o.maxLength)
    case Folder => TextValue(o.folder)
    case FilterExt => TextValue(o.filterExt)
    case Template => TextValue(o.template)
    case Prefix => TextValue(Some(o.prefix))
    case Suffix => TextValue(Some(o.suffix))
    case ChangeExt => TextValue(o.changeExt)
    case DateFormat => TextValue(o.dateFormat)
    case NameCase => TextValue(o.nameCase)
    case Conflict => TextValue(o.conflict)
    case UndoLog => TextValue(o.undoLog)
  }

  /** For a number flag, `SettingOf` carries `NumberSetting`. */
  lemma NumberSettingOf(o: Options, f: Flag)
    requires IsNumberFlag(f)
    ensures SettingOf(o, f) == NumberValue(NumberSetting(o, f))
  {
  }

  /** For a text flag, `SettingOf` carries `TextSetting`. */
  lemma TextSettingOf(o: Options, f: Flag)
    requires IsTextFlag(f)
    ensures SettingOf(o, f) == TextValue(TextSetting(o, f))
  {
  }

  /** What a successful flag with values `vals` sets its properties to. */
  function Assigned(f: Flag, vals: seq<string>): Setting
    requires |vals| == Arity(f)
    requires IsNumberFlag(f) ==> ParseInt32(vals[0]).Some?
  {
    if Arity(f) == 0 then SwitchValue(true)
    else if Arity(f) == 2 then PairValue(Some(vals[0]), Some(vals[1]))
    else if IsNumberFlag(f) then NumberValue(ParseInt32(vals[0]).value)
    else TextValue(Some(vals[0]))
  }

  /** The switches: each sets its own boolean. */
  function SetSwitch(o: Options, f: Flag): (r: Options)
    requires Arity(f) == 0
    ensures SettingOf(r, f) == SwitchValue(true)
    ensures r.sequenceStart == o.sequenceStart && r.sequenceDigits == o.sequenceDigits && r.maxLength == o.maxLength
    ensures forall g :: IsTextFlag(g) ==> TextSetting(r, g) == TextSetting(o, g)
  {
    match f
    case Help => o.(showHelp := true)
    case Recursive => o.(recursive := true)
    case IncludeHidden => o.(includeHidden := true)
    case Apply => o.(apply := true)
  }

  /** The two-value flags: `--replace` and `--regex` store both values. */
  function SetPair(o: Options, f: Flag, first: string, second: string): (r: Options)
    requires Arity(f) == 2
    ensures SettingOf(r, f) == PairValue(Some(first), Some(second))
    ensures r.sequenceStart == o.sequenceStart && r.sequenceDigits == o.sequenceDigits && r.maxLength == o.maxLength
    ensures forall g :: IsTextFlag(g) ==> TextSetting(r, g) == TextSetting(o, g)
  {
    if f.Replace? then o.(replaceOld := Some(first), replaceNew := Some(second))
    else o.(regexPattern := Some(first), regexReplacement := Some(second))
  }

  /** The one-value text flags: each stores its value. */
  function SetText(o: Options, f: Flag, v: string): (r: Options)
    requires IsTextFlag(f)
    ensures SettingOf(r, f) == TextValue(Some(v))
    ensures TextSetting(r, f) == Some(v)
    ensures forall g :: IsTextFlag(g) && g != f ==> TextSetting(r, g) == TextSetting(o, g)
    ensures r.sequenceStart == o.sequenceStart && r.sequenceDigits == o.sequenceDigits && r.maxLength == o.maxLength
  {
    match f
    case Folder => o.(folder := Some(v))
    case FilterExt => o.(filterExt := Some(v))
    case Template => o.(template := Some(v))
    case Prefix => o.(prefix := v)
    case Suffix => o.(suffix := v)
    case ChangeExt => o.(changeExt := Some(v))
    case DateFormat => o.(dateFormat := Some(v))
    case NameCase => o.(nameCase := Some(v))
    case Conflict => o.(conflict := Some(v))
    case UndoLog => o.(undoLog := Some(v))
  }

  /** The number flags: each stores the parsed value. */
  function SetNumber(o: Options, f: Flag, n: int): (r: Options)
    requires IsNumberFlag(f)
    ensures SettingOf(r, f) == NumberValue(n)
    ensures NumberSetting(r, f) == n
    ensures forall g :: IsNumberFlag(g) && g != f ==> NumberSetting(r, g) == NumberSetting(o, g)
    ensures forall g :: IsTextFlag(g) ==> TextSetting(r, g) == TextSetting(o, g)
  {
    match f
    case SequenceStart => o.(sequenceStart := n)
    case SequenceDigits => o.(sequenceDigits := n)
    case MaxLength => o.(maxLength := n)
  }

  /** One case of the `switch`: what flag `f` does with the values `Next()`
      handed it. */
  function Assign(o: Options, f: Flag, vals: seq<string>): (r: Result<Options, Error>)
    requires |vals| == Arity(f)
    requires IntsInRange(o)
    ensures r.Success? ==> IntsInRange(r.value)
    ensures r.Failure? <==> IsNumberFlag(f) && ParseInt32(vals[0]).None?
    ensures r.Failure? ==> r.error == BadInteger(vals[0])
  {
    if Arity(f) == 0 then Success(SetSwitch(o, f))
    else if Arity(f) == 2 then Success(SetPair(o, f, vals[0], vals[1]))
    else if IsNumberFlag(f) then
      match ParseInt32(vals[0])
      case None => Failure(BadInteger(vals[0]))
      case Some(n) => Success(SetNumber(o, f, n))
    else Success(SetText(o, f, vals[0]))
  }

  /** What a successful `Assign` sets: the flag's own setting takes its value
      (parsed, for a number flag), and every other setting is kept. */
  lemma AssignSettings(o: Options, f: Flag, vals: seq<string>)
    requires |vals| == Arity(f) && IntsInRange(o)
    requires Assign(o, f, vals).Success?
    ensures var r := Assign(o, f, vals).value;
      && (IsTextFlag(f) ==> TextSetting(r, f) == Some(vals[0]))
      && (IsNumberFlag(f) ==> NumberSetting(r, f) == ParseInt32(vals[0]).value)
      && (forall g :: IsTextFlag(g) && g != f ==> TextSetting(r, g) == TextSetting(o, g))
      && (forall g :: IsNumberFlag(g) && g != f ==> NumberSetting(r, g) == NumberSetting(o, g))
      && SettingOf(r, f) == Assigned(f, vals)
      && (forall g :: g != f ==> SettingOf(r, g) == SettingOf(o, g))
      && r.filterExtList == o.filterExtList
  {
    var r := Assign(o, f, vals).value;
    forall g | g != f
      ensures SettingOf(r, g) == SettingOf(o, g)
    {
      if Arity(f) == 0 {
        SetSwitchFrame(o, f, g);
      } else if Arity(f) == 2 {
        SetPairFrame(o, f, vals[0], vals[1], g);
      } else if IsNumberFlag(f) {
        SetNumberFrame(o, f, ParseInt32(vals[0]).value, g);
      } else {
        SetTextFrame(o, f, vals[0], g);
      }
    }
  }

  /** A switch keeps every other flag's setting. */
  lemma SetSwitchFrame(o: Options, f: Flag, g: Flag)
    requires Arity(f) == 0 && g != f
    ensures SettingOf(SetSwitch(o, f), g) == SettingOf(o, g)
  {
  }

  /** `--replace` and `--regex` keep every other flag's setting. */
  lemma SetPairFrame(o: Options, f: Flag, first: string, second: string, g: Flag)
    requires Arity(f) == 2 && g != f
    ensures SettingOf(SetPair(o, f, first, second), g) == SettingOf(o, g)
  {
  }

  /** A number flag keeps every other flag's setting. */
  lemma SetNumberFrame(o: Options, f: Flag, n: int, g: Flag)
    requires IsNumberFlag(f) && g != f
    ensures SettingOf(SetNumber(o, f, n), g) == SettingOf(o, g)
  {
  }

  /** A text flag keeps every other flag's setting. */
  lemma SetTextFrame(o: Options, f: Flag, v: string, g: Flag)
    requires IsTextFlag(f) && g != f
    ensures SettingOf(SetText(o, f, v), g) == SettingOf(o, g)
  {
  }

  /** One pass of the `for` loop: the `switch` on the argument at `i`, the
      values `Next()` hands it and what it assigns, with the index after the
      last value it consumed; or the error that ends the parse. */
  function RoundAt(args: seq<string>, i: nat, o: Options): (r: Result<(Options, nat), Error>)
    requires IntsInRange(o) && i < |args|
    ensures r.Success? ==> i < r.value.1 <= |args| && IntsInRange(r.value.0)
  {
    match FlagOf(args[i])
    case None => Failure(Usage(UnknownArgument(args[i])))
    case Some(f) =>
      if |args| <= i + Arity(f) then Failure(Usage(MissingValue(args[i])))
      else
        match Assign(o, f, args[i + 1..i + Arity(f) + 1])
        case Failure(e) => Failure(e)
        case Success(o') => Success((o', i + Arity(f) + 1))
  }

  /** The `for` loop of `Parse` from index `i` on, as a recursive function. */
  function ScanFrom(args: seq<string>, i: nat, o: Options): (r: Result<Options, Error>)
    requires IntsInRange(o) && i <= |args|
    ensures r.Success? ==> IntsInRange(r.value)
    decreases |args| - i
  {
    if i == |args| then Success(o)
    else
      match RoundAt(args, i, o)
      case Failure(e) => Failure(e)
      case Success((o', j)) => ScanFrom(args, j, o')
  }

  /** The argument scan: the whole loop, from the first argument. */
  function Scan(args: seq<string>, o: Options): (r: Result<Options, Error>)
    requires IntsInRange(o)
    ensures r.Success? ==> IntsInRange(r.value)
  {
    ScanFrom(args, 0, o)
  }

  /** After the loop: an absent or blank folder becomes the current
      directory; nothing else changes. */
  function WithFolder(o: Options, cwd: string): (r: Options)
    ensures o.folder.Some? && !IsBlank(o.folder.value) ==> r.folder == o.folder
    ensures o.folder.None? || IsBlank(o.folder.value) ==> r.folder == Some(cwd)
    ensures forall g :: g != Folder ==> SettingOf(r, g) == SettingOf(o, g)
    ensures r.filterExtList == o.filterExtList
  {
    if o.folder.None? || IsBlank(o.folder.value) then o.(folder := Some(cwd)) else o
  }

  /** What `Options.Parse` returns for `args` when the current directory is `cwd`. */
  function ParseArgs(args: seq<string>, cwd: string): (r: Result<Options, Error>)
    ensures r.Success? ==> IntsInRange(r.value) && r.value.folder.Some?
  {
    match Scan(args, Defaults())
    case Success(o) => Success(WithFolder(o, cwd))
    case Failure(e) => Failure(e)
  }

  /** `Next()` called `n` times for the flag at index `i`: each call moves to
      the following argument and yields it, or fails when there is none. */
  method NextValues(args: seq<string>, i: nat, n: nat) returns (vals: Option<seq<string>>)
    requires i < |args|
    ensures vals.Some? <==> i + n < |args|
    ensures vals.Some? ==> vals.value == args[i + 1..i + n + 1]
  {
    var j := i;
    var taken := [];
    while |taken| < n
      invariant i <= j < |args|
      invariant j == i + |taken| && taken == args[i + 1..j + 1]
      invariant |taken| <= n
    {
      if j + 1 >= |args| {
        return None;
      }
      j := j + 1;
      taken := taken + [args[j]];
    }
    return Some(taken);
  }

  /** One pass of the `for` loop of `Options.Parse`: the `switch` on the
      argument at `i`, with its values taken by `Next()`. */
  method ReadFlag(args: seq<string>, i: nat, option: Options) returns (r: Result<(Options, nat), Error>)
    requires i < |args| && IntsInRange(option)
    ensures r == RoundAt(args, i, option)
  {
    var a := args[i];
    var flag := FlagOf(a);
    if flag.None? {
      return Failure(Usage(UnknownArgument(a)));
    }
    var f := flag.value;
    var vals := NextValues(args, i, Arity(f));
    if vals.None? {
      return Failure(Usage(MissingValue(a)));
    }
    var next := Assign(option, f, vals.value);
    if next.Failure? {
      return Failure(next.error);
    }
    return Success((next.value, i + Arity(f) + 1));
  }

  /** `Options.Parse`: an index loop in which `Next()` advances the index past
      each value a flag consumes, and fails when the arguments run out. */
  method Parse(args: seq<string>, cwd: string) returns (r: Result<Options, Error>)
    ensures r == ParseArgs(args, cwd)
  {
    var option := Defaults();
    var i := 0;
    while i < |args|
      invariant 0 <= i <= |args|
      invariant IntsInRange(option)
      invariant Scan(args, Defaults()) == ScanFrom(args, i, option)
      decreases |args| - i
    {
      var read := ReadFlag(args, i, option);
      if read.Failure? {
        return Failure(read.error);
      }
      option, i := read.value.0, read.value.1;
    }
    if option.folder.None? || IsBlank(option.folder.value) {
      option := option.(folder := Some(cwd));
    }
    return Success(option);
  }

  // ----- properties of the scan ----------------------------------------------

  /** A pass that succeeds inside `p` reads only `p`: what follows does not
      change it. */
  lemma RoundPrefix(p: seq<string>, q: seq<string>, i: nat, o: Options)
    requires IntsInRange(o) && i < |p| && RoundAt(p, i, o).Success?
    ensures RoundAt(p + q, i, o) == RoundAt(p, i, o)
  {
    var f := FlagOf(p[i]).value;
    assert (p + q)[i] == p[i];
    assert (p + q)[i + 1..i + Arity(f) + 1] == p[i + 1..i + Arity(f) + 1];
  }

  /** A pass at index `j` of `q` is the same pass at index `|p| + j` of
      `p + q`, with its next index moved along by `|p|`. */
  lemma RoundShift(p: seq<string>, q: seq<string>, j: nat, o: Options)
    requires IntsInRange(o) && j < |q|
    ensures RoundAt(q, j, o).Failure? ==> RoundAt(p + q, |p| + j, o) == RoundAt(q, j, o)
    ensures RoundAt(q, j, o).Success? ==>
              RoundAt(p + q, |p| + j, o) == Success((RoundAt(q, j, o).value.0, |p| + RoundAt(q, j, o).value.1))
  {
    assert (p + q)[|p| + j] == q[j];
    var f := FlagOf(q[j]);
    if f.Some? && j + Arity(f.value) < |q| {
      var k := Arity(f.value);
      assert (p + q)[|p| + j + 1..|p| + j + k + 1] == q[j + 1..j + k + 1];
    }
  }

  /** Scanning `p + q` from inside `q` is scanning `q` alone. */
  lemma {:induction false} ScanShift(p: seq<string>, q: seq<string>, j: nat, o: Options)
    requires IntsInRange(o) && j <= |q|
    ensures ScanFrom(p + q, |p| + j, o) == ScanFrom(q, j, o)
    decreases |q| - j
  {
    if j < |q| {
      RoundShift(p, q, j, o);
      var r := RoundAt(q, j, o);
      if r.Success? {
        var (o', k) := r.value;
        assert RoundAt(p + q, |p| + j, o) == Success((o', |p| + k));
        assert ScanFrom(q, j, o) == ScanFrom(q, k, o');
        ScanShift(p, q, k, o');
        assert ScanFrom(p + q, |p| + j, o) == ScanFrom(p + q, |p| + k, o');
      } else {
        assert RoundAt(p + q, |p| + j, o) == r;
      }
    } else {
      assert |p| + j == |p + q|;
    }
  }

  /** Once `p` scans successfully from `i`, `p + q` scans on into `q` from
      the options `p` produced. */
  lemma {:induction false} ScanFromAppend(p: seq<string>, q: seq<string>, i: nat, o: Options)
    requires IntsInRange(o) && i <= |p| && ScanFrom(p, i, o).Success?
    ensures ScanFrom(p + q, i, o) == Scan(q, ScanFrom(p, i, o).value)
    decreases |p| - i
  {
    if i == |p| {
      ScanShift(p, q, 0, o);
    } else {
      RoundPrefix(p, q, i, o);
      var r := RoundAt(p, i, o).value;
      ScanFromAppend(p, q, r.1, r.0);
    }
  }

  /** Scanning is compositional: once a prefix scans successfully, the rest is
      scanned from the options the prefix produced. */
  lemma ScanAppend(p: seq<string>, q: seq<string>, o: Options)
    requires IntsInRange(o)
    requires Scan(p, o).Success?
    ensures Scan(p + q, o) == Scan(q, Scan(p, o).value)
  {
    ScanFromAppend(p, q, 0, o);
  }

  /** An argument that names no flag is rejected and named, wherever it
      stands after a well-formed prefix and whatever follows it. */
  lemma UnknownArgumentRejected(p: seq<string>, a: string, q: seq<string>, cwd: string)
    requires Scan(p, Defaults()).Success?
    requires FlagOf(a).None?
    ensures ParseArgs(p + [a] + q, cwd) == Failure(Usage(UnknownArgument(a)))
  {
    ScanAppend(p, [a] + q, Defaults());
    assert p + [a] + q == p + ([a] + q);
  }

  /** A flag that takes a value but ends the argument list is a "Missing
      value"; so is a two-value flag followed by only one value. */
  lemma MissingValueRejected(p: seq<string>, a: string, v: string, cwd: string)
    requires Scan(p, Defaults()).Success?
    requires FlagOf(a).Some? && Arity(FlagOf(a).value) > 0
    ensures ParseArgs(p + [a], cwd) == Failure(Usage(MissingValue(a)))
    ensures Arity(FlagOf(a).value) == 2 ==> ParseArgs(p + [a, v], cwd) == Failure(Usage(MissingValue(a)))
  {
    ScanAppend(p, [a], Defaults());
    ScanAppend(p, [a, v], Defaults());
  }

  /** Arguments that never name flag `f` leave its setting as it was. */
  lemma {:induction false} ScanFromKeeps(q: seq<string>, i: nat, o: Options, f: Flag)
    requires IntsInRange(o) && i <= |q|
    requires forall x :: x in q ==> FlagOf(x) != Some(f)
    requires ScanFrom(q, i, o).Success?
    ensures SettingOf(ScanFrom(q, i, o).value, f) == SettingOf(o, f)
    decreases |q| - i
  {
    if i < |q| {
      assert q[i] in q;
      RoundAtSettings(q, i, o, f);
      var next := RoundAt(q, i, o).value;
      assert ScanFrom(q, i, o) == ScanFrom(q, next.1, next.0);
      ScanFromKeeps(q, next.1, next.0, f);
    }
  }

  /** The same for the whole scan. */
  lemma ScanKeeps(q: seq<string>, o: Options, f: Flag)
    requires IntsInRange(o)
    requires forall x :: x in q ==> FlagOf(x) != Some(f)
    requires Scan(q, o).Success?
    ensures SettingOf(Scan(q, o).value, f) == SettingOf(o, f)
  {
    ScanFromKeeps(q, 0, o, f);
  }

  /** A switch that is on stays on, whatever the arguments that follow. */
  lemma {:induction false} ScanFromSwitchOn(q: seq<string>, i: nat, o: Options, f: Flag)
    requires IntsInRange(o) && i <= |q| && Arity(f) == 0
    requires SettingOf(o, f) == SwitchValue(true)
    requires ScanFrom(q, i, o).Success?
    ensures SettingOf(ScanFrom(q, i, o).value, f) == SwitchValue(true)
    decreases |q| - i
  {
    if i < |q| {
      RoundAtSettings(q, i, o, f);
      var next := RoundAt(q, i, o).value;
      assert ScanFrom(q, i, o) == ScanFrom(q, next.1, next.0);
      ScanFromSwitchOn(q, next.1, next.0, f);
    }
  }

  /** A successful round keeps every setting its flag does not name, and
      leaves a switch that is on still on. */
  lemma RoundAtSettings(q: seq<string>, i: nat, o: Options, f: Flag)
    requires IntsInRange(o) && i < |q| && RoundAt(q, i, o).Success?
    ensures FlagOf(q[i]) != Some(f) ==> SettingOf(RoundAt(q, i, o).value.0, f) == SettingOf(o, f)
    ensures Arity(f) == 0 && SettingOf(o, f) == SwitchValue(true) ==>
      SettingOf(RoundAt(q, i, o).value.0, f) == SwitchValue(true)
  {
    var g := FlagOf(q[i]).value;
    var vals := q[i + 1..i + Arity(g) + 1];
    assert RoundAt(q, i, o).value.0 == Assign(o, g, vals).value;
    AssignSettings(o, g, vals);
  }

  /** After a well-formed prefix, a flag and its values are assigned, and
      the scan carries on from the options they produce. */
  lemma ScanAtFlag(p: seq<string>, a: string, vals: seq<string>, q: seq<string>)
    requires Scan(p, Defaults()).Success?
    requires FlagOf(a).Some? && |vals| == Arity(FlagOf(a).value)
    ensures var next := Assign(Scan(p, Defaults()).value, FlagOf(a).value, vals);
      Scan(p + [a] + vals + q, Defaults()) == if next.Failure? then Failure(next.error) else Scan(q, next.value)
  {
    ScanAppend(p, [a] + vals + q, Defaults());
    assert p + [a] + vals + q == p + ([a] + vals + q);
    var r := [a] + vals + q;
    assert r[0] == a && r[1..|vals| + 1] == vals;
    var next := Assign(Scan(p, Defaults()).value, FlagOf(a).value, vals);
    if next.Success? {
      ScanShift([a] + vals, q, 0, next.value);
      assert ([a] + vals) + q == r;
    }
  }

  /** The last occurrence of a text flag wins: whatever set it before, the
      parsed options carry the value of the last `flag value` pair. For
      `--folder` a blank last value gives the current directory. */
  lemma LastTextFlagWins(p: seq<string>, a: string, v: string, q: seq<string>, cwd: string)
    requires Scan(p, Defaults()).Success?
    requires FlagOf(a).Some? && IsTextFlag(FlagOf(a).value)
    requires forall x :: x in q ==> FlagOf(x) != FlagOf(a)
    requires ParseArgs(p + [a, v] + q, cwd).Success?
    ensures var o := ParseArgs(p + [a, v] + q, cwd).value;
      && (!FlagOf(a).value.Folder? ==> TextSetting(o, FlagOf(a).value) == Some(v))
      && (FlagOf(a).value.Folder? ==> o.folder == if IsBlank(v) then Some(cwd) else Some(v))
  {
    var f := FlagOf(a).value;
    var args := p + [a, v] + q;
    assert args == p + [a] + [v] + q;
    ScanAtFlag(p, a, [v], q);
    var o1 := Assign(Scan(p, Defaults()).value, f, [v]).value;
    AssignSettings(Scan(p, Defaults()).value, f, [v]);
    ScanKeeps(q, o1, f);
    var o2 := Scan(args, Defaults()).value;
    TextSettingOf(o2, f);
    assert ParseArgs(args, cwd).value == WithFolder(o2, cwd);
  }

  /** The last `--replace` or `--regex` wins: the parsed options carry both
      of its values. */
  lemma LastPairFlagWins(p: seq<string>, a: string, v: string, w: string, q: seq<string>, cwd: string)
    requires Scan(p, Defaults()).Success?
    requires FlagOf(a).Some? && Arity(FlagOf(a).value) == 2
    requires forall x :: x in q ==> FlagOf(x) != FlagOf(a)
    requires ParseArgs(p + [a, v, w] + q, cwd).Success?
    ensures SettingOf(ParseArgs(p + [a, v, w] + q, cwd).value, FlagOf(a).value) == PairValue(Some(v), Some(w))
  {
    var f := FlagOf(a).value;
    assert p + [a, v, w] + q == p + [a] + [v, w] + q;
    ScanAtFlag(p, a, [v, w], q);
    var o1 := Assign(Scan(p, Defaults()).value, f, [v, w]).value;
    AssignSettings(Scan(p, Defaults()).value, f, [v, w]);
    ScanKeeps(q, o1, f);
  }

  /** A switch given as a flag is on in the parsed options, whatever
      follows it. */
  lemma SwitchGiven(p: seq<string>, a: string, q: seq<string>, cwd: string)
    requires Scan(p, Defaults()).Success?
    requires FlagOf(a).Some? && Arity(FlagOf(a).value) == 0
    requires ParseArgs(p + [a] + q, cwd).Success?
    ensures SettingOf(ParseArgs(p + [a] + q, cwd).value, FlagOf(a).value) == SwitchValue(true)
  {
    var f := FlagOf(a).value;
    assert p + [a] + q == p + [a] + [] + q;
    ScanAtFlag(p, a, [], q);
    var o1 := Assign(Scan(p, Defaults()).value, f, []).value;
    AssignSettings(Scan(p, Defaults()).value, f, []);
    ScanFromSwitchOn(q, 0, o1, f);
  }

  /** The last occurrence of a number flag wins, with the value `int.Parse`
      reads from its text. */
  lemma LastNumberFlagWins(p: seq<string>, a: string, v: string, q: seq<string>, cwd: string)
    requires Scan(p, Defaults()).Success?
    requires FlagOf(a).Some? && IsNumberFlag(FlagOf(a).value)
    requires forall x :: x in q ==> FlagOf(x) != FlagOf(a)
    requires ParseArgs(p + [a, v] + q, cwd).Success?
    ensures ParseInt32(v).Some?
    ensures NumberSetting(ParseArgs(p + [a, v] + q, cwd).value, FlagOf(a).value) == ParseInt32(v).value
  {
    var f := FlagOf(a).value;
    assert p + [a, v] + q == p + [a] + [v] + q;
    ScanAtFlag(p, a, [v], q);
    if Assign(Scan(p, Defaults()).value, f, [v]).Success? {
      var o1 := Assign(Scan(p, Defaults()).value, f, [v]).value;
      AssignSettings(Scan(p, Defaults()).value, f, [v]);
      ScanKeeps(q, o1, f);
      var o := ParseArgs(p + [a, v] + q, cwd).value;
      assert SettingOf(o, f) == NumberValue(ParseInt32(v).value);
      NumberSettingOf(o, f);
    }
  }

  /** A number flag whose value `int.Parse` rejects fails the whole parse, and
      not with an `OptionException`. */
  lemma BadNumberIsFatal(p: seq<string>, a: string, v: string, q: seq<string>, cwd: string)
    requires Scan(p, Defaults()).Success?
    requires FlagOf(a).Some? && IsNumberFlag(FlagOf(a).value) && ParseInt32(v).None?
    ensures ParseArgs(p + [a, v] + q, cwd) == Failure(BadInteger(v))
  {
    assert p + [a, v] + q == p + [a] + [v] + q;
    ScanAtFlag(p, a, [v], q);
  }

  /** The parsed folder is never blank, and without `--folder` it is the
      current directory. */
  lemma FolderDefaults(args: seq<string>, cwd: string)
    requires !IsBlank(cwd)
    requires ParseArgs(args, cwd).Success?
    ensures var o := ParseArgs(args, cwd).value; o.folder.Some? && !IsBlank(o.folder.value)
    ensures (forall x :: x in args ==> FlagOf(x) != Some(Folder)) ==> ParseArgs(args, cwd).value.folder == Some(cwd)
  {
    if forall x :: x in args ==> FlagOf(x) != Some(Folder) {
      ScanKeeps(args, Defaults(), Folder);
    }
  }
}
