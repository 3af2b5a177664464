/** The planning half of `Run`: for every enumerated file, the filters, the
    name transforms, the length rule and the conflict policy, producing the
    list of `from -> to` pairs that a dry run prints and `--apply` performs. */
module Planner {
  import opened Wrappers
  import opened Text
  import opened Numbers
  import opened Names
  import opened CommandLine
  import opened Validation
  import opened Paths
  import opened Conflicts

  /** A file as `FileInfo` shows it: its directory, its name (the last path
      component, without `/`) and whether it carries the hidden attribute. */
  datatype FileRec = FileRec(dir: string, name: string, hidden: bool)

  /** One planned rename. */
  datatype Entry = Entry(from: string, to: string)

  /** What the planner takes from its host: the characters
      `Path.GetInvalidFileNameChars` lists, `Regex.Replace(input, pattern,
      replacement)`, `TextInfo.ToTitleCase`, and the run's `DateTime.Now`
      formatted with a given format string. */
  datatype Host = Host(
    invalid: set<char>,
    regexReplace: (string, string, string) -> string,
    titleCase: string -> string,
    formatNow: string -> string)

  // ----- the transforms of one file ---------------------------------------------

  /** The two filters: hidden files unless `--include-hidden`, and, when the
      filter list is non-empty, files whose lower-cased extension it lacks. */
  predicate Admitted(o: Options, f: FileRec): (r: bool)
    ensures f.hidden && !o.includeHidden ==> !r
    ensures (o.includeHidden || !f.hidden) && (o.filterExtList.None? || o.filterExtList == Some([])) ==> r
    ensures r && o.filterExtList.Some? && o.filterExtList.value != [] ==> Lower(Extension(f.name)) in o.filterExtList.value
  {
    && (o.includeHidden || !f.hidden)
    && (o.filterExtList.None? || |o.filterExtList.value| == 0
        || Lower(Extension(f.name)) in o.filterExtList.value)
  }

  /** Step 1: literal replace, regex replace, then the case mode, each only
      when its option is non-empty. */
  function Processed(o: Options, stem: string, host: Host): (r: string)
    ensures !HasText(o.replaceOld) && !HasText(o.regexPattern) && !HasText(o.nameCase) ==> r == stem
    ensures HasText(o.nameCase) && Lower(o.nameCase.value) == "lower" ==> IsLower(r)
    ensures HasText(o.nameCase) && Lower(o.nameCase.value) == "upper" ==> IsUpper(r)
  {
    var p1 := if HasText(o.replaceOld) then ReplaceAll(stem, o.replaceOld.value, OrElse(o.replaceNew, "")) else stem;
    var p2 := if HasText(o.regexPattern) then host.regexReplace(p1, o.regexPattern.value, OrElse(o.regexReplacement, "")) else p1;
    if HasText(o.nameCase) then ApplyCase(p2, o.nameCase.value, host.titleCase) else p2
  }

  /** With `--replace` alone, step 1 is the ordinal `Replace` of the old
      text by the new one, an absent new text counting as empty. */
  lemma ProcessedReplaceOnly(o: Options, stem: string, host: Host)
    requires HasText(o.replaceOld) && !HasText(o.regexPattern) && !HasText(o.nameCase)
    ensures Processed(o, stem, host) == ReplaceAll(stem, o.replaceOld.value, OrElse(o.replaceNew, ""))
  {
  }

  /** The regex replacement applies to the result of the literal one. */
  lemma ProcessedRegexAfterReplace(o: Options, stem: string, host: Host)
    requires HasText(o.regexPattern) && !HasText(o.nameCase)
    ensures Processed(o, stem, host)
         == host.regexReplace(Processed(o.(regexPattern := None), stem, host), o.regexPattern.value, OrElse(o.regexReplacement, ""))
  {
  }

  /** The case mode comes last: it applies to the stem as both
      replacements left it. */
  lemma ProcessedCaseLast(o: Options, stem: string, host: Host)
    requires HasText(o.nameCase)
    ensures Processed(o, stem, host) == ApplyCase(Processed(o.(nameCase := None), stem, host), o.nameCase.value, host.titleCase)
  {
  }

  /** A lower-case mode lower-cases the replaced stem: with `--replace`
      alone besides it, the name is `Lower` of the replaced stem. */
  lemma ProcessedReplaceThenLower(o: Options, stem: string, host: Host)
    requires HasText(o.replaceOld) && !HasText(o.regexPattern)
    requires HasText(o.nameCase) && Lower(o.nameCase.value) == "lower"
    ensures Processed(o, stem, host) == Lower(ReplaceAll(stem, o.replaceOld.value, OrElse(o.replaceNew, "")))
  {
    ProcessedCaseLast(o, stem, host);
    ProcessedReplaceOnly(o.(nameCase := None), stem, host);
  }

  /** Step 2 as written: `--change-ext` when given, else the file's own
      extension. A new extension is used as given, separators included (see
      `AsWrittenChangeExtLeavesDirectory`). */
  function FinalExtAsWritten(o: Options, ext: string): string
  {
    if HasText(o.changeExt) then o.changeExt.value else ext
  }

  /** Step 2 as intended: a `--change-ext` value goes through
      `SanitizeFileName` like the name it is appended to, so it brings no
      invalid character into the target. */
  function FinalExt(o: Options, ext: string, invalid: set<char>): (r: string)
    ensures !HasText(o.changeExt) ==> r == ext
    ensures CleanChangeExt(o, invalid) ==> r == o.changeExt.value
    ensures forall c :: c in r ==> c in ext || c == '_' || c !in invalid
  {
    if HasText(o.changeExt) then
      if CleanChangeExt(o, invalid) then SanitizedKeepsClean(o.changeExt.value, invalid); Sanitized(o.changeExt.value, invalid)
      else Sanitized(o.changeExt.value, invalid)
    else ext
  }

  /** A `--change-ext` value that sanitising leaves alone: given, trimmed,
      and free of invalid characters. */
  predicate CleanChangeExt(o: Options, invalid: set<char>)
  {
    && HasText(o.changeExt)
    && Trim(o.changeExt.value) == o.changeExt.value
    && forall c :: c in o.changeExt.value ==> c !in invalid
  }

  /** The run's date text: `--date-format`, or `yyyyMMdd` when it is empty. */
  function DateText(o: Options, host: Host): string
  {
    host.formatNow(if HasText(o.dateFormat) then o.dateFormat.value else "yyyyMMdd")
  }

  /** Step 3: the template with its tokens substituted, or prefix, name and
      suffix. */
  function Composed(o: Options, processed: string, finalExt: string, seqNo: int, host: Host): (r: string)
    requires DigitsOk(o.sequenceDigits)
    ensures HasText(o.template) && '{' !in o.template.value ==> r == o.template.value
    ensures !HasText(o.template) ==>
      && |r| == |o.prefix| + |processed| + |o.suffix|
      && r[..|o.prefix|] == o.prefix
      && r[|o.prefix|..|o.prefix| + |processed|] == processed
      && r[|o.prefix| + |processed|..] == o.suffix
  {
    if HasText(o.template) then
      Substitute(o.template.value, processed, finalExt, Padded(seqNo, o.sequenceDigits), DateText(o, host))
    else o.prefix + processed + o.suffix
  }

  /** The new name without extension, for the final extension `finalExt`:
      composed, sanitised, then cut to the length limit. */
  function BaseName(o: Options, f: FileRec, finalExt: string, seqNo: int, host: Host): (r: string)
    requires DigitsOk(o.sequenceDigits)
    ensures |r| <= Limit(o.maxLength)
    ensures forall c :: c in r ==> c == '_' || c !in host.invalid
    ensures '_' !in host.invalid ==> forall c :: c in r ==> c !in host.invalid
  {
    var name := Composed(o, Processed(o, Stem(f.name), host), finalExt, seqNo, host);
    var r := Truncate(Sanitized(name, host.invalid), o.maxLength);
    assert forall c :: c in r ==> c in Sanitized(name, host.invalid);
    r
  }

  /** The body of the `foreach` once the final extension `finalExt` is
      chosen: the entry planned for `f` when the counter stands at `seqNo`,
      or `None` when the file is filtered out or skipped. */
  function PlanWith(o: Options, f: FileRec, finalExt: string, existing: set<string>, seqNo: int, host: Host): (r: Option<Entry>)
    requires DigitsOk(o.sequenceDigits)
    ensures !Admitted(o, f) ==> r.None?
    ensures r.Some? ==> r.value.from == Combine(f.dir, f.name)
  {
    if !Admitted(o, f) then None
    else
      match Resolve(ConflictMode(o), f.dir, BaseName(o, f, finalExt, seqNo, host), finalExt, existing)
      case None => None
      case Some(to) => Some(Entry(Combine(f.dir, f.name), to))
  }

  /** The body of the `foreach` as written, with the `--change-ext` value
      appended unsanitised. */
  function PlanOneAsWritten(o: Options, f: FileRec, existing: set<string>, seqNo: int, host: Host): (r: Option<Entry>)
    requires DigitsOk(o.sequenceDigits)
    ensures !Admitted(o, f) ==> r.None?
    ensures r.Some? ==> r.value.from == Combine(f.dir, f.name)
  {
    PlanWith(o, f, FinalExtAsWritten(o, Extension(f.name)), existing, seqNo, host)
  }

  /** The body of the `foreach`, with the new extension sanitised: the entry
      planned for `f`, or `None` when the file is filtered out or skipped. */
  function PlanOne(o: Options, f: FileRec, existing: set<string>, seqNo: int, host: Host): (r: Option<Entry>)
    requires DigitsOk(o.sequenceDigits)
    ensures !Admitted(o, f) ==> r.None?
    ensures r.Some? ==> r.value.from == Combine(f.dir, f.name)
    ensures !HasText(o.changeExt) || CleanChangeExt(o, host.invalid) ==> r == PlanOneAsWritten(o, f, existing, seqNo, host)
  {
    PlanWith(o, f, FinalExt(o, Extension(f.name), host.invalid), existing, seqNo, host)
  }

  /** After `Validate` the new extension is in normal form, so the
      corrected planner differs from line 127 as written only for a value
      holding an invalid character: an ordinary `--change-ext .jpg` plans
      the same rename either way. */
  lemma NormalChangeExtAsWritten(o: Options, f: FileRec, existing: set<string>, seqNo: int, host: Host)
    requires DigitsOk(o.sequenceDigits)
    requires HasText(o.changeExt) && IsNormalExt(o.changeExt.value)
    requires forall c :: c in o.changeExt.value ==> c !in host.invalid
    ensures PlanOne(o, f, existing, seqNo, host) == PlanOneAsWritten(o, f, existing, seqNo, host)
  {
    var e := o.changeExt.value;
    assert !IsWhiteSpace(e[0]) by { assert e[0] == '.'; }
    TrimKeepsTrimmed(e);
  }

  /** Steps 1 to 4 of the loop body: the transforms, the new extension, the
      composition, sanitising and truncation. */
  method NewBaseName(o: Options, f: FileRec, seqNo: int, host: Host) returns (finalExt: string, finalName: string)
    requires DigitsOk(o.sequenceDigits)
    ensures finalExt == FinalExt(o, Extension(f.name), host.invalid)
    ensures finalName == BaseName(o, f, finalExt, seqNo, host)
  {
    var ext := Extension(f.name);
    var processed := Processed(o, Stem(f.name), host);
    finalExt := FinalExt(o, ext, host.invalid);
    finalName := Composed(o, processed, finalExt, seqNo, host);
    finalName := SanitizeFileName(finalName, host.invalid);
    var max := Limit(o.maxLength);
    if |finalName| > max {
      finalName := finalName[..max];
    }
  }

  /** One pass of the loop body, in the order of `Run`'s loop; `None` where
      the loop `continue`s. */
  method PlanFile(o: Options, f: FileRec, existing: set<string>, seqNo: int, host: Host) returns (entry: Option<Entry>)
    requires DigitsOk(o.sequenceDigits)
    ensures entry == PlanOne(o, f, existing, seqNo, host)
  {
    if !o.includeHidden && f.hidden {
      return None;
    }
    var ext := Extension(f.name);
    if o.filterExtList.Some? && |o.filterExtList.value| > 0 && Lower(ext) !in o.filterExtList.value {
      return None;
    }
    var finalExt, finalName := NewBaseName(o, f, seqNo, host);
    var target := ResolveTarget(o, f.dir, finalName, finalExt, existing);
    if target.None? {
      return None;
    }
    return Some(Entry(Combine(f.dir, f.name), target.value));
  }

  /** `e` renames `f`, which the filters admit. */
  predicate Moves(o: Options, f: FileRec, e: Entry)
  {
    Admitted(o, f) && e.from == Combine(f.dir, f.name)
  }

  /** A planned entry comes from an admitted file and renames that file. */
  lemma PlanOneSource(o: Options, f: FileRec, existing: set<string>, seqNo: int, host: Host)
    requires DigitsOk(o.sequenceDigits)
    ensures var r := PlanOne(o, f, existing, seqNo, host);
      (r.Some? ==> Moves(o, f, r.value))
      && (!Admitted(o, f) ==> r.None?)
  {
  }

  /** An admitted file is dropped only when its target exists and the policy
      is `skip`; a planned target exists only under `overwrite`, and it ends
      with the final extension. */
  lemma PlanOneTarget(o: Options, f: FileRec, existing: set<string>, seqNo: int, host: Host)
    requires DigitsOk(o.sequenceDigits)
    ensures var ext := FinalExt(o, Extension(f.name), host.invalid);
      var target := Combine(f.dir, BaseName(o, f, ext, seqNo, host) + ext);
      var r := PlanOne(o, f, existing, seqNo, host);
      && (Admitted(o, f) && r.None? <==> Admitted(o, f) && target in existing && ConflictMode(o) == "skip")
      && (r.Some? && r.value.to in existing ==> r.value.to == target && ConflictMode(o) == "overwrite")
      && (r.Some? && ext != [] ==> EndsWith(r.value.to, ext))
  {
    var ext := FinalExt(o, Extension(f.name), host.invalid);
    var base := BaseName(o, f, ext, seqNo, host);
    ResolveOutcome(ConflictMode(o), f.dir, base, ext, existing);
    if ext != [] {
      ResolveKeepsExtension(ConflictMode(o), f.dir, base, ext, existing);
    }
  }

  /** Hidden files are left alone unless `--include-hidden` is given. */
  lemma HiddenLeftAlone(o: Options, f: FileRec, existing: set<string>, seqNo: int, host: Host)
    requires DigitsOk(o.sequenceDigits) && f.hidden && !o.includeHidden
    ensures PlanOne(o, f, existing, seqNo, host).None?
  {
    PlanOneSource(o, f, existing, seqNo, host);
  }

  /** After validation a non-empty `--filter-ext` never admits a file without
      an extension: every listed extension starts with a dot. */
  lemma FilterNeedsExtension(o: Options, f: FileRec)
    requires o.filterExtList.None? && Extension(f.name) == []
    requires HasText(o.filterExt) && Entries(o.filterExt.value, ',') != []
    ensures !Admitted(Normalized(o), f)
  {
    ValidatedExtensionsNormal(o);
    var list := Normalized(o).filterExtList.value;
    assert Lower(Extension(f.name)) == [];
  }

  /** The characters of a file's extension are characters of its name. */
  lemma ExtensionChars(name: string)
    ensures forall c :: c in Extension(name) ==> c in name
  {
    var e := Extension(name);
    forall c | c in e ensures c in name {
      var i :| 0 <= i < |e| && e[i] == c;
      assert name[|name| - |e| + i] == c;
    }
  }

  /** When the invalid characters include the separator, the file's name is a
      single non-empty component and the final extension holds no separator,
      the file renamed lies directly in its directory, and so does its target;
      the only exception is an empty name with an empty extension, which
      `Path.Combine` turns into the directory itself. */
  lemma PlanWithInDirectory(o: Options, f: FileRec, finalExt: string, existing: set<string>, seqNo: int, host: Host)
    requires DigitsOk(o.sequenceDigits)
    requires '/' in host.invalid && f.name != [] && '/' !in f.name && '/' !in finalExt
    ensures var r := PlanWith(o, f, finalExt, existing, seqNo, host);
      r.Some? ==>
        && InDirectory(r.value.from, f.dir)
        && (|| InDirectory(r.value.to, f.dir)
            || (BaseName(o, f, finalExt, seqNo, host) + finalExt == [] && r.value.to == f.dir))
  {
    var base := BaseName(o, f, finalExt, seqNo, host);
    assert '/' !in base;
    ResolveInDirectory(ConflictMode(o), f.dir, base, finalExt, existing);
  }

  /** With the new extension sanitised, every planned rename stays in the
      file's directory, given that `/` is an invalid file-name character. */
  lemma PlanOneInDirectory(o: Options, f: FileRec, existing: set<string>, seqNo: int, host: Host)
    requires DigitsOk(o.sequenceDigits)
    requires '/' in host.invalid && f.name != [] && '/' !in f.name
    ensures var r := PlanOne(o, f, existing, seqNo, host);
      r.Some? ==>
        && InDirectory(r.value.from, f.dir)
        && (InDirectory(r.value.to, f.dir) || r.value.to == f.dir)
  {
    ExtensionChars(f.name);
    var ext := FinalExt(o, Extension(f.name), host.invalid);
    assert '/' !in ext;
    PlanWithInDirectory(o, f, ext, existing, seqNo, host);
  }

  /** An admitted file whose target does not exist is planned to that
      target. */
  lemma PlanWithFreeTarget(o: Options, f: FileRec, finalExt: string, existing: set<string>, seqNo: int, host: Host)
    requires DigitsOk(o.sequenceDigits) && Admitted(o, f)
    requires Combine(f.dir, BaseName(o, f, finalExt, seqNo, host) + finalExt) !in existing
    ensures PlanWith(o, f, finalExt, existing, seqNo, host)
         == Some(Entry(Combine(f.dir, f.name), Combine(f.dir, BaseName(o, f, finalExt, seqNo, host) + finalExt)))
  {
  }

  /** As written, a `--change-ext` value that starts with a dot and holds a
      separator sends every planned rename out of the file's directory, into
      a sub-directory, even with `/` among the invalid characters. */
  lemma AsWrittenChangeExtLeavesDirectory(o: Options, f: FileRec, existing: set<string>, seqNo: int, host: Host)
    requires DigitsOk(o.sequenceDigits) && '/' in host.invalid && f.dir != []
    requires HasText(o.changeExt) && o.changeExt.value[0] == '.' && '/' in o.changeExt.value
    ensures var r := PlanOneAsWritten(o, f, existing, seqNo, host);
      r.Some? ==> !InDirectory(r.value.to, f.dir)
  {
    var ext := o.changeExt.value;
    var base := BaseName(o, f, ext, seqNo, host);
    assert '/' !in base;
    ResolveLeavesDirectory(ConflictMode(o), f.dir, base, ext, existing);
  }

  /** The escape happens: `--change-ext ".x/y"` survives normalisation
      unchanged, and `/d/a.txt` gets a rename planned outside `/d`. */
  lemma AsWrittenChangeExtExample(o: Options, f: FileRec, host: Host)
    requires o == Defaults().(changeExt := Some(".x/y")) && f == FileRec("/d", "a.txt", false)
    requires '/' in host.invalid
    ensures NormalizeExt(".x/y") == ".x/y"
    ensures var r := PlanOneAsWritten(o, f, {}, 1, host);
      r.Some? && !InDirectory(r.value.to, f.dir)
  {
    ChangeExtNormal();
    assert FinalExtAsWritten(o, Extension(f.name)) == ".x/y";
    assert PlanOneAsWritten(o, f, {}, 1, host) == PlanWith(o, f, ".x/y", {}, 1, host);
    assert Admitted(o, f);
    PlanWithFreeTarget(o, f, ".x/y", {}, 1, host);
    AsWrittenChangeExtLeavesDirectory(o, f, {}, 1, host);
  }

  /** `NormalizeExt` keeps the separator of `.x/y`. */
  lemma ChangeExtNormal()
    ensures NormalizeExt(".x/y") == ".x/y"
  {
    TrimKeepsTrimmed(".x/y");
    LowerKeepsLower(".x/y");
  }

  /** A non-blank new extension is still non-empty after sanitising. */
  lemma SanitizedNotEmpty(ext: string, invalid: set<char>)
    requires !IsBlank(ext)
    ensures Sanitized(ext, invalid) != []
  {
    var i :| 0 <= i < |ext| && !IsWhiteSpace(ext[i]);
    var m := Masked(ext, invalid);
    assert !IsWhiteSpace(m[i]);
    TrimBlank(m);
  }

  /** With the new extension sanitised, a non-blank `--change-ext` value
      (every value `Validate` normalises is one) keeps every planned target
      directly in the file's directory. */
  lemma ChangeExtStaysInDirectory(o: Options, f: FileRec, existing: set<string>, seqNo: int, host: Host)
    requires DigitsOk(o.sequenceDigits)
    requires '/' in host.invalid && f.name != [] && '/' !in f.name
    requires HasText(o.changeExt) && !IsBlank(o.changeExt.value)
    ensures var r := PlanOne(o, f, existing, seqNo, host);
      r.Some? ==> InDirectory(r.value.to, f.dir)
  {
    ExtensionChars(f.name);
    var ext := FinalExt(o, Extension(f.name), host.invalid);
    SanitizedNotEmpty(o.changeExt.value, host.invalid);
    assert '/' !in ext && ext != [];
    PlanWithInDirectory(o, f, ext, existing, seqNo, host);
  }
}
