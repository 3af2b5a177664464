/** `Validate`, without its directory checks: template tokens, the sequence
    width, the two enumerations, and the normalised extensions. */
module Validation {
  import opened Wrappers
  import opened Text
  import opened Names
  import opened CommandLine

  /** Index of the first `}` or line feed at or after `i` (or `|t|`). */
  function StopAt(t: string, i: nat): (j: nat)
    requires i <= |t|
    ensures i <= j <= |t|
    ensures j < |t| ==> t[j] == '}' || t[j] == '\n'
    ensures forall k :: i <= k < j ==> t[k] != '}' && t[k] != '\n'
    decreases |t| - i
  {
    if i == |t| || t[i] == '}' || t[i] == '\n' then i else StopAt(t, i + 1)
  }

  /** The captured groups of the matches of `\{(.*?)\}`, left to right: a `{`
      starts a match when a `}` follows it before any line feed (`.` does not
      match a line feed), the lazy group stops at the first such `}`, and the
      next search starts after it. */
  function Tokens(t: string): (r: seq<string>)
    ensures forall k :: 0 <= k < |r| ==> '}' !in r[k] && '\n' !in r[k]
    decreases |t|
  {
    if t == [] then []
    else if t[0] == '{' then
      var j := StopAt(t, 1);
      if j < |t| && t[j] == '}' then [t[1..j]] + Tokens(t[j + 1..])
      else Tokens(t[1..])
    else Tokens(t[1..])
  }

  /** A template without `{` has no tokens to check. */
  lemma {:induction false} NoBraceNoTokens(t: string)
    requires '{' !in t
    ensures Tokens(t) == []
    decreases |t|
  {
    if t != [] {
      assert forall c :: c in t[1..] ==> c in t;
      NoBraceNoTokens(t[1..]);
    }
  }

  /** Skipping the first character of `t` shifts every stop index by one. */
  lemma {:induction false} StopAtShift(t: string, i: nat)
    requires 1 <= i <= |t|
    ensures StopAt(t[1..], i - 1) + 1 == StopAt(t, i)
    decreases |t| - i
  {
    if i < |t| {
      assert t[1..][i - 1] == t[i];
      if t[i] != '}' && t[i] != '\n' {
        StopAtShift(t, i + 1);
      }
    }
  }

  /** The `{` at `i` starts a match: a `}` follows before any line feed. */
  predicate OpensMatch(t: string, i: nat)
    requires i < |t|
  {
    t[i] == '{' && StopAt(t, i + 1) < |t| && t[StopAt(t, i + 1)] == '}'
  }

  ghost predicate HasMatch(t: string)
  {
    exists i :: 0 <= i < |t| && OpensMatch(t, i)
  }

  /** The regular expression finds no match exactly when there are no tokens. */
  lemma {:induction false} NoTokensNoMatch(t: string)
    ensures Tokens(t) == [] <==> !HasMatch(t)
    decreases |t|
  {
    if t != [] && !OpensMatch(t, 0) {
      assert Tokens(t) == Tokens(t[1..]);
      NoTokensNoMatch(t[1..]);
      HasMatchTail(t);
    } else if t != [] {
      assert Tokens(t) != [];
      assert OpensMatch(t, 0);
    }
  }

  /** Without a match at the front, a match is one in the rest. */
  lemma HasMatchTail(t: string)
    requires t != [] && !OpensMatch(t, 0)
    ensures HasMatch(t) <==> HasMatch(t[1..])
  {
    forall i | 1 <= i < |t|
      ensures OpensMatch(t, i) == OpensMatch(t[1..], i - 1)
    {
      StopAtShift(t, i + 1);
    }
    if HasMatch(t) {
      var i :| 0 <= i < |t| && OpensMatch(t, i);
      assert OpensMatch(t[1..], i - 1);
    }
    if HasMatch(t[1..]) {
      var i :| 0 <= i < |t[1..]| && OpensMatch(t[1..], i);
      assert OpensMatch(t, i + 1);
    }
  }

  /** `{x}` occurs in `t` at index `i`. */
  predicate BracedAt(t: string, x: string, i: nat)
  {
    i + |x| + 2 <= |t| && t[i..i + |x| + 2] == "{" + x + "}"
  }

  /** `x` occurs in `t` between a `{` and a `}`. */
  ghost predicate Braced(t: string, x: string)
  {
    exists i: nat :: BracedAt(t, x, i)
  }

  lemma BracedShift(t: string, m: nat, x: string)
    requires m <= |t| && Braced(t[m..], x)
    ensures Braced(t, x)
  {
    var i: nat :| BracedAt(t[m..], x, i);
    assert t[m + i..m + i + |x| + 2] == t[m..][i..i + |x| + 2];
    assert BracedAt(t, x, m + i);
  }

  /** Every token is the text between a `{` and a `}` of the template. */
  lemma {:induction false} TokensBraced(t: string)
    ensures forall k :: 0 <= k < |Tokens(t)| ==> Braced(t, Tokens(t)[k])
    decreases |t|
  {
    if t != [] {
      if OpensMatch(t, 0) {
        var j := StopAt(t, 1);
        TokensBraced(t[j + 1..]);
        assert t[0..|t[1..j]| + 2] == "{" + t[1..j] + "}";
        assert BracedAt(t, t[1..j], 0);
        forall k | 1 <= k < |Tokens(t)| ensures Braced(t, Tokens(t)[k]) {
          BracedShift(t, j + 1, Tokens(t[j + 1..])[k - 1]);
        }
      } else {
        TokensBraced(t[1..]);
        forall k | 0 <= k < |Tokens(t)| ensures Braced(t, Tokens(t)[k]) {
          BracedShift(t, 1, Tokens(t[1..])[k]);
        }
      }
    }
  }

  /** After text without `{`, a braced token free of `}` and line feeds is
      the next token, and the search goes on after its `}`. */
  lemma {:induction false} TokensConcat(a: string, x: string, b: string)
    requires '{' !in a && '}' !in x && '\n' !in x
    ensures Tokens(a + "{" + x + "}" + b) == [x] + Tokens(b)
    decreases |a|
  {
    var t := a + "{" + x + "}" + b;
    if a == [] {
      var j := StopAt(t, 1);
      forall k | 1 <= k <= |x| ensures t[k] != '}' && t[k] != '\n' {
        assert t[k] == x[k - 1];
        assert x[k - 1] in x;
      }
      assert t[|x| + 1] == '}';
      assert j == |x| + 1;
      assert t[1..j] == x;
      assert t[j + 1..] == b;
    } else {
      assert t[0] == a[0] && a[0] in a;
      assert t[1..] == a[1..] + "{" + x + "}" + b;
      assert forall c :: c in a[1..] ==> c in a;
      TokensConcat(a[1..], x, b);
    }
  }

  /** `OrdinalIgnoreCase` equality: the strings agree character by
      character once both are lower-cased. */
  predicate SameIgnoringCase(a: string, b: string)
    decreases |a|
  {
    if a == [] then b == []
    else b != [] && LowerChar(a[0]) == LowerChar(b[0]) && SameIgnoringCase(a[1..], b[1..])
  }

  /** The set `{ "name", "ext", "n", "date" }` under `OrdinalIgnoreCase`. */
  predicate IsAllowedToken(token: string)
  {
    || SameIgnoringCase(token, "name")
    || SameIgnoringCase(token, "ext")
    || SameIgnoringCase(token, "n")
    || SameIgnoringCase(token, "date")
  }

  /** Comparing ignoring case is comparing the lower-case spellings. */
  lemma {:induction false} SameIgnoringCaseLower(a: string, b: string)
    ensures SameIgnoringCase(a, b) <==> Lower(a) == Lower(b)
    decreases |a|
  {
    if a != [] && b != [] {
      SameIgnoringCaseLower(a[1..], b[1..]);
      assert Lower(a) == [LowerChar(a[0])] + Lower(a[1..]);
      assert Lower(b) == [LowerChar(b[0])] + Lower(b[1..]);
    }
  }

  /** The check ignores case: a token is allowed exactly when its upper-case
      or lower-case spelling is. */
  lemma AllowedIgnoresCase(token: string)
    ensures IsAllowedToken(Upper(token)) <==> IsAllowedToken(token)
    ensures IsAllowedToken(Lower(token)) <==> IsAllowedToken(token)
  {
    LowerOfUpper(token);
    LowerKeepsLower(Lower(token));
    forall w | w in ["name", "ext", "n", "date"]
      ensures SameIgnoringCase(Upper(token), w) <==> SameIgnoringCase(token, w)
      ensures SameIgnoringCase(Lower(token), w) <==> SameIgnoringCase(token, w)
    {
      SameIgnoringCaseLower(Upper(token), w);
      SameIgnoringCaseLower(Lower(token), w);
      SameIgnoringCaseLower(token, w);
    }
  }

  /** The first token whose trimmed text is not allowed, trimmed. */
  function FirstBadToken(tokens: seq<string>): Option<string>
  {
    if tokens == [] then None
    else if !IsAllowedToken(Trim(tokens[0])) then Some(Trim(tokens[0]))
    else FirstBadToken(tokens[1..])
  }

  /** The check reports nothing exactly when every trimmed token is allowed,
      and what it reports is the first trimmed token that is not allowed. */
  lemma FirstBadTokenFound(tokens: seq<string>)
    ensures FirstBadToken(tokens).None? <==> forall k :: 0 <= k < |tokens| ==> IsAllowedToken(Trim(tokens[k]))
    ensures FirstBadToken(tokens).Some? ==>
      exists k :: 0 <= k < |tokens| && FirstBadAt(tokens, k) && FirstBadToken(tokens).value == Trim(tokens[k])
  {
    if FirstBadToken(tokens).None? {
      NoBadToken(tokens);
    } else {
      var k := FirstBadIndex(tokens);
      assert !IsAllowedToken(Trim(tokens[k]));
    }
  }

  /** Without a report, every trimmed token is allowed. */
  lemma {:induction false} NoBadToken(tokens: seq<string>)
    requires FirstBadToken(tokens).None?
    ensures forall k :: 0 <= k < |tokens| ==> IsAllowedToken(Trim(tokens[k]))
  {
    if tokens != [] {
      var rest := tokens[1..];
      NoBadToken(rest);
      forall k | 1 <= k < |tokens| ensures IsAllowedToken(Trim(tokens[k])) {
        assert tokens[k] == rest[k - 1];
      }
    }
  }

  /** The index of the reported token: the first one not allowed. */
  lemma {:induction false} FirstBadIndex(tokens: seq<string>) returns (k: nat)
    requires FirstBadToken(tokens).Some?
    ensures k < |tokens| && FirstBadAt(tokens, k) && FirstBadToken(tokens) == Some(Trim(tokens[k]))
  {
    if !IsAllowedToken(Trim(tokens[0])) {
      k := 0;
    } else {
      var rest := tokens[1..];
      assert FirstBadToken(tokens) == FirstBadToken(rest);
      var j := FirstBadIndex(rest);
      k := j + 1;
      FirstBadAtShift(tokens, j);
    }
  }

  /** After an allowed first token, the first bad token of the rest is the
      first bad token of all. */
  lemma FirstBadAtShift(tokens: seq<string>, j: nat)
    requires tokens != [] && IsAllowedToken(Trim(tokens[0]))
    requires j < |tokens| - 1 && FirstBadAt(tokens[1..], j)
    ensures FirstBadAt(tokens, j + 1) && tokens[j + 1] == tokens[1..][j]
  {
    var rest := tokens[1..];
    forall m | 0 <= m < j + 1 ensures IsAllowedToken(Trim(tokens[m])) {
      if m > 0 {
        assert tokens[m] == rest[m - 1];
      }
    }
  }

  /** Token `k` is not allowed, and every token before it is. */
  predicate FirstBadAt(tokens: seq<string>, k: nat)
    requires k < |tokens|
  {
    !IsAllowedToken(Trim(tokens[k])) && forall m :: 0 <= m < k ==> IsAllowedToken(Trim(tokens[m]))
  }

  predicate TemplateOk(template: Option<string>)
  {
    !HasText(template) || FirstBadToken(Tokens(template.value)).None?
  }

  predicate DigitsOk(digits: int)
  {
    1 <= digits <= 8
  }

  predicate IsNameCase(v: string)
  {
    v == "lower" || v == "upper" || v == "title" || v == "none"
  }

  predicate IsConflictMode(v: string)
  {
    v == "skip" || v == "overwrite" || v == "increment"
  }

  predicate NameCaseOk(v: Option<string>)
  {
    !HasText(v) || IsNameCase(Lower(v.value))
  }

  predicate ConflictOk(v: Option<string>)
  {
    !HasText(v) || IsConflictMode(Lower(v.value))
  }

  /** Every check of `Validate` passes. */
  predicate Acceptable(o: Options)
  {
    TemplateOk(o.template) && DigitsOk(o.sequenceDigits) && NameCaseOk(o.nameCase) && ConflictOk(o.conflict)
  }

  /** `NormalizeExt` applied to each element, in order. */
  function NormalizeAll(parts: seq<string>): (r: seq<string>)
    ensures |r| == |parts|
  {
    if parts == [] then [] else NormalizeAll(parts[..|parts| - 1]) + [NormalizeExt(parts[|parts| - 1])]
  }

  /** Position `k` of the list holds the normalised `k`-th part. */
  lemma {:induction false} NormalizeAllAt(parts: seq<string>, k: nat)
    requires k < |parts|
    ensures NormalizeAll(parts)[k] == NormalizeExt(parts[k])
  {
    if k < |parts| - 1 {
      NormalizeAllAt(parts[..|parts| - 1], k);
    }
  }

  /** The options after `Validate`'s two assignments: a non-empty
      `ChangeExt` in normal form, and `FilterExtList` built from a non-empty
      `FilterExt`. Nothing the later checks read is touched. */
  function Normalized(o: Options): (v: Options)
    ensures v.template == o.template && v.sequenceDigits == o.sequenceDigits
    ensures v.nameCase == o.nameCase && v.conflict == o.conflict
  {
    o.(changeExt := if HasText(o.changeExt) then Some(NormalizeExt(o.changeExt.value)) else o.changeExt,
       filterExtList := if HasText(o.filterExt) then Some(NormalizeAll(Entries(o.filterExt.value, ','))) else o.filterExtList)
  }

  /** The `foreach` over the template's matches: the first token that is
      not allowed, if any. */
  method CheckTokens(template: string) returns (bad: Option<string>)
    ensures bad == FirstBadToken(Tokens(template))
  {
    var tokens := Tokens(template);
    for k := 0 to |tokens|
      invariant FirstBadToken(tokens) == FirstBadToken(tokens[k..])
    {
      assert tokens[k..][1..] == tokens[k + 1..];
      var token := Trim(tokens[k]);
      if !IsAllowedToken(token) {
        return Some(token);
      }
    }
    assert tokens[|tokens|..] == [];
    return None;
  }

  /** The `foreach` that builds `FilterExtList` from the filter's entries: one
      normalised extension per entry, in the entries' order. */
  method NormalizeEach(parts: seq<string>) returns (list: seq<string>)
    ensures list == NormalizeAll(parts)
  {
    list := [];
    for k := 0 to |parts|
      invariant list == NormalizeAll(parts[..k])
    {
      assert parts[..k + 1][..k] == parts[..k];
      list := list + [NormalizeExt(parts[k])];
    }
    assert parts[..|parts|] == parts;
  }

  /** The two assignments of `Validate`: `ChangeExt` normalised, and the
      filter split into normalised extensions. */
  method NormalizeOptions(o: Options) returns (opts: Options)
    ensures opts == Normalized(o)
  {
    opts := o;
    if HasText(opts.changeExt) {
      opts := opts.(changeExt := Some(NormalizeExt(opts.changeExt.value)));
    }
    if HasText(opts.filterExt) {
      var list := NormalizeEach(Entries(opts.filterExt.value, ','));
      opts := opts.(filterExtList := Some(list));
    }
  }

  /** `Validate`: the checks in the order `Validate` makes them, each failing with its own
      `OptionException`; on success the normalised options. */
  method Validate(o: Options) returns (r: Result<Options, OptionError>)
    ensures r.Success? <==> Acceptable(o)
    ensures r.Success? ==> r.value == Normalized(o)
    ensures !TemplateOk(o.template) ==>
              r == Failure(UnknownToken(FirstBadToken(Tokens(o.template.value)).value))
    ensures TemplateOk(o.template) && !DigitsOk(o.sequenceDigits) ==>
              r == Failure(SequenceDigitsOutOfRange)
    ensures TemplateOk(o.template) && DigitsOk(o.sequenceDigits) && !NameCaseOk(o.nameCase) ==>
              r == Failure(BadNameCase)
    ensures TemplateOk(o.template) && DigitsOk(o.sequenceDigits) && NameCaseOk(o.nameCase) && !ConflictOk(o.conflict) ==>
              r == Failure(BadConflict)
  {
    if HasText(o.template) {
      var bad := CheckTokens(o.template.value);
      if bad.Some? {
        return Failure(UnknownToken(bad.value));
      }
    }
    var opts := NormalizeOptions(o);
    if opts.sequenceDigits < 1 || opts.sequenceDigits > 8 {
      return Failure(SequenceDigitsOutOfRange);
    }
    if !NameCaseOk(opts.nameCase) {
      return Failure(BadNameCase);
    }
    if !ConflictOk(opts.conflict) {
      return Failure(BadConflict);
    }
    return Success(opts);
  }

  /** After validation every extension the planner compares against is in
      normal form, hence a fixed point of `NormalizeExt`. */
  lemma ValidatedExtensionsNormal(o: Options)
    requires o.filterExtList.None?
    ensures var v := Normalized(o);
      && (HasText(o.changeExt) ==> v.changeExt.Some? && IsNormalExt(v.changeExt.value))
      && (v.filterExtList.Some? ==>
            forall k :: 0 <= k < |v.filterExtList.value| ==> IsNormalExt(v.filterExtList.value[k]))
  {
    if HasText(o.changeExt) {
      NormalizeExtShape(o.changeExt.value);
    }
    if HasText(o.filterExt) {
      NormalizeAllNormal(Entries(o.filterExt.value, ','));
    }
  }

  /** Each element of `NormalizeAll` is in normal form. */
  lemma NormalizeAllNormal(parts: seq<string>)
    ensures forall k :: 0 <= k < |parts| ==> IsNormalExt(NormalizeAll(parts)[k])
  {
    forall k | 0 <= k < |parts|
      ensures IsNormalExt(NormalizeAll(parts)[k])
    {
      NormalizeAllAt(parts, k);
      NormalizeExtShape(parts[k]);
    }
  }

  /** A template that is one braced token `{x}` yields exactly `x`, and the
      check reports `x` trimmed unless it is one of the four. */
  lemma SingleToken(x: string)
    requires '}' !in x && '\n' !in x
    ensures Tokens("{" + x + "}") == [x]
    ensures FirstBadToken([x]) == if IsAllowedToken(Trim(x)) then None else Some(Trim(x))
  {
    var t := "{" + x + "}";
    var j := StopAt(t, 1);
    forall k | 1 <= k <= |x| ensures t[k] != '}' && t[k] != '\n' {
      assert t[k] == x[k - 1];
      assert x[k - 1] in x;
    }
    assert t[|x| + 1] == '}';
    assert j == |x| + 1;
    assert t[1..j] == x;
    assert t[j + 1..] == [];
  }
}
