/** The per-name helpers of the renamer: extension normalisation, file-name
    sanitising, case conversion, template substitution and the length limit. */
module Names {
  import opened Text
  import opened Numbers

  /** The extension with a leading dot, added when it has none. */
  function Dotted(t: string): (d: string)
    ensures |d| >= 1 && d[0] == '.'
    ensures |t| > 0 && t[0] == '.' ==> d == t
  {
    if |t| > 0 && t[0] == '.' then t else "." + t
  }

  /** `NormalizeExt`: trim, make sure of a leading dot, lower-case. */
  function NormalizeExt(ext: string): (r: string)
    ensures |r| >= 1 && r[0] == '.' && IsLower(r)
  {
    Lower(Dotted(Trim(ext)))
  }

  /** The normal form of an extension: a leading dot, no upper-case ASCII
      letter and no white space at either end. */
  predicate IsNormalExt(e: string)
  {
    |e| >= 1 && e[0] == '.' && IsLower(e) && !IsWhiteSpace(e[|e| - 1])
  }

  /** Lower-casing a dotted string that ends in a non-space gives a normal form. */
  lemma LowerDottedNormal(d: string)
    requires |d| >= 1 && d[0] == '.' && !IsWhiteSpace(d[|d| - 1])
    ensures IsNormalExt(Lower(d))
  {
    var r := Lower(d);
    assert r[0] == LowerChar(d[0]);
    assert r[|r| - 1] == LowerChar(d[|d| - 1]);
    LowerCharKeepsSpace(d[|d| - 1]);
  }

  /** `NormalizeExt` yields the normal form. */
  lemma NormalizeExtShape(ext: string)
    ensures IsNormalExt(NormalizeExt(ext))
  {
    var t := Trim(ext);
    var dotted := Dotted(t);
    if |t| > 0 && t[0] == '.' {
      assert dotted == t;
    } else if t == [] {
      assert dotted == ".";
    } else {
      assert dotted[|dotted| - 1] == t[|t| - 1];
    }
    LowerDottedNormal(dotted);
  }

  /** The normal forms are exactly the fixed points of `NormalizeExt`. */
  lemma NormalizeExtFixesNormal(ext: string)
    ensures IsNormalExt(ext) <==> NormalizeExt(ext) == ext
  {
    if IsNormalExt(ext) {
      TrimKeepsTrimmed(ext);
      LowerKeepsLower(ext);
    }
    if NormalizeExt(ext) == ext {
      NormalizeExtShape(ext);
    }
  }

  /** Normalising an extension a second time changes nothing. */
  lemma NormalizeExtIdempotent(ext: string)
    ensures NormalizeExt(NormalizeExt(ext)) == NormalizeExt(ext)
  {
    NormalizeExtShape(ext);
    NormalizeExtFixesNormal(NormalizeExt(ext));
  }

  /** `SanitizeFileName` before its final `Trim`: every character from the
      invalid set becomes `_`, every other character stays where it is. */
  function Masked(name: string, invalid: set<char>): (m: string)
    ensures |m| == |name|
    ensures forall i :: 0 <= i < |name| ==> m[i] == name[i] || m[i] == '_'
    ensures forall i :: 0 <= i < |name| ==> (m[i] == name[i] <==> name[i] !in invalid || name[i] == '_')
    ensures '_' !in invalid ==> forall c :: c in m ==> c !in invalid
    ensures forall c :: c in m ==> c == '_' || c !in invalid
  {
    seq(|name|, i requires 0 <= i < |name| => if name[i] in invalid then '_' else name[i])
  }

  /** What `SanitizeFileName` returns. */
  function Sanitized(name: string, invalid: set<char>): (r: string)
    ensures |r| <= |name|
    ensures '_' !in invalid ==> forall c :: c in r ==> c !in invalid
    ensures forall c :: c in r ==> c == '_' || c !in invalid
  {
    TrimChars(Masked(name, invalid));
    Trim(Masked(name, invalid))
  }

  /** A trimmed name without invalid characters comes out of
      `SanitizeFileName` unchanged. */
  lemma SanitizedKeepsClean(name: string, invalid: set<char>)
    requires Trim(name) == name
    requires forall c :: c in name ==> c !in invalid
    ensures Sanitized(name, invalid) == name
  {
    var m := Masked(name, invalid);
    forall i | 0 <= i < |name| ensures m[i] == name[i] {
      assert name[i] in name;
    }
    assert m == name;
  }

  /** `SanitizeFileName`: fills a buffer character by character, then trims.
      The result holds no invalid character and is no longer than the input. */
  method SanitizeFileName(name: string, invalid: set<char>) returns (r: string)
    ensures r == Sanitized(name, invalid)
    ensures |r| <= |name|
    ensures '_' !in invalid ==> forall c :: c in r ==> c !in invalid
  {
    var sb := "";
    for i := 0 to |name|
      invariant |sb| == i
      invariant forall k :: 0 <= k < i ==> sb[k] == Masked(name, invalid)[k]
    {
      var ch := name[i];
      if ch in invalid {
        sb := sb + ['_'];
      } else {
        sb := sb + [ch];
      }
    }
    assert sb == Masked(name, invalid);
    r := Trim(sb);
  }

  /** `ApplyCase`. Lower and upper case are the ASCII mappings; title case goes
      through the host's `TextInfo.ToTitleCase`, given here as `titleCase`,
      with `_` treated as a word separator on the way in and out. */
  function ApplyCase(input: string, mode: string, titleCase: string -> string): (r: string)
    ensures Lower(mode) == "lower" ==> r == Lower(input) && |r| == |input| && IsLower(r)
    ensures Lower(mode) == "upper" ==> r == Upper(input) && |r| == |input| && IsUpper(r)
    ensures Lower(mode) == "title" ==> ' ' !in r
    ensures Lower(mode) !in {"lower", "upper", "title"} ==> r == input
  {
    match Lower(mode)
    case "lower" => Lower(input)
    case "upper" => Upper(input)
    case "title" => ReplaceChar(titleCase(ReplaceChar(input, '_', ' ')), ' ', '_')
    case _ => input
  }

  /** Lower-case mode is idempotent: applying it to its own output changes nothing. */
  lemma LowerCaseIdempotent(input: string, titleCase: string -> string)
    ensures ApplyCase(ApplyCase(input, "lower", titleCase), "lower", titleCase)
         == ApplyCase(input, "lower", titleCase)
  {
    assert Lower("lower") == "lower";
    LowerKeepsLower(Lower(input));
  }

  /** `String.TrimStart('.')`: the extension without its leading dots. */
  function WithoutDots(ext: string): (r: string)
    ensures |r| <= |ext| && r == ext[|ext| - |r|..]
    ensures r == [] || r[0] != '.'
    ensures forall i :: 0 <= i < |ext| - |r| ==> ext[i] == '.'
  {
    if ext != [] && ext[0] == '.' then WithoutDots(ext[1..]) else ext
  }

  /** The template step: `{name}`, `{ext}`, `{n}` and `{date}` are replaced in
      that order, each by an ordinal, case-sensitive `String.Replace`. A
      template without `{` is used literally, whatever the file. */
  function Substitute(template: string, name: string, ext: string, n: string, date: string): (r: string)
    ensures '{' !in template ==> r == template
  {
    var s1 := ReplaceAll(template, "{name}", name);
    var s2 := ReplaceAll(s1, "{ext}", WithoutDots(ext));
    var s3 := ReplaceAll(s2, "{n}", n);
    ReplaceAll(s3, "{date}", date)
  }

  /** The four tokens the template step replaces. */
  datatype Token = NameToken | ExtToken | SeqToken | DateToken

  /** How a token is written in a template: a `{`, a word, a `}`. */
  function TokenText(t: Token): (s: string)
    ensures |s| >= 3 && s[0] == '{' && '{' !in s[1..]
  {
    match t
    case NameToken => "{name}"
    case ExtToken => "{ext}"
    case SeqToken => "{n}"
    case DateToken => "{date}"
  }

  /** Two different tokens differ at their second or third character. */
  lemma TokensDiffer(t: Token, u: Token)
    requires t != u
    ensures TokenText(t)[1] != TokenText(u)[1] || TokenText(t)[2] != TokenText(u)[2]
  {
  }

  /** A template read as literal text and tokens. */
  datatype Piece = Literal(text: string) | Placeholder(token: Token)

  function PieceText(p: Piece): string
  {
    match p
    case Literal(s) => s
    case Placeholder(t) => TokenText(t)
  }

  /** The template text the pieces spell. */
  function Spell(ps: seq<Piece>): string
  {
    if ps == [] then "" else PieceText(ps[0]) + Spell(ps[1..])
  }

  /** No literal piece holds a `{`. */
  predicate BraceFree(ps: seq<Piece>)
  {
    forall k :: 0 <= k < |ps| && ps[k].Literal? ==> '{' !in ps[k].text
  }

  /** The value a token stands for: the processed name, the final extension
      without its leading dots, the padded sequence number, the date. */
  function TokenValue(t: Token, name: string, ext: string, n: string, date: string): string
  {
    match t
    case NameToken => name
    case ExtToken => WithoutDots(ext)
    case SeqToken => n
    case DateToken => date
  }

  /** What one piece means: its literal text, or its token's value. */
  function RenderPiece(p: Piece, name: string, ext: string, n: string, date: string): string
  {
    match p
    case Literal(s) => s
    case Placeholder(t) => TokenValue(t, name, ext, n, date)
  }

  /** What a template means: its literal text, with every token standing for
      its value. */
  function Render(ps: seq<Piece>, name: string, ext: string, n: string, date: string): string
  {
    if ps == [] then "" else RenderPiece(ps[0], name, ext, n, date) + Render(ps[1..], name, ext, n, date)
  }

  /** Without `{` in the literal text or in the values, the rendered
      template has none. */
  lemma {:induction false} RenderHasNoBrace(ps: seq<Piece>, name: string, ext: string, n: string, date: string)
    requires BraceFree(ps)
    requires '{' !in name && '{' !in WithoutDots(ext) && '{' !in n && '{' !in date
    ensures '{' !in Render(ps, name, ext, n, date)
  {
    if ps != [] {
      var rest := ps[1..];
      assert BraceFree(rest) by {
        forall k | 0 <= k < |rest| ensures rest[k] == ps[k + 1] { }
      }
      RenderHasNoBrace(rest, name, ext, n, date);
      var h := RenderPiece(ps[0], name, ext, n, date);
      assert '{' !in h by { assert ps[0].Literal? ==> '{' !in ps[0].text; }
      assert Render(ps, name, ext, n, date) == h + Render(rest, name, ext, n, date);
    }
  }

  /** One replacement pass on pieces: the placeholders of `t` become the
      literal text `v`. */
  function FillPiece(p: Piece, t: Token, v: string): Piece
  {
    if p == Placeholder(t) then Literal(v) else p
  }

  function Fill(ps: seq<Piece>, t: Token, v: string): (r: seq<Piece>)
    ensures |r| == |ps|
  {
    if ps == [] then [] else [FillPiece(ps[0], t, v)] + Fill(ps[1..], t, v)
  }

  /** One `String.Replace` of the template step is one filling pass: with
      no `{` in the literal text or the value, replacing the token's text
      spells the pieces with that token filled in. */
  lemma {:induction false} FillReplaces(ps: seq<Piece>, t: Token, v: string)
    requires BraceFree(ps) && '{' !in v
    ensures ReplaceAll(Spell(ps), TokenText(t), v) == Spell(Fill(ps, t, v))
    ensures BraceFree(Fill(ps, t, v))
  {
    var pat := TokenText(t);
    if ps != [] {
      var rest := ps[1..];
      assert BraceFree(rest) by {
        forall k | 0 <= k < |rest| ensures rest[k] == ps[k + 1] { }
      }
      FillReplaces(rest, t, v);
      var tail := Spell(rest);
      match ps[0]
      case Literal(s) =>
        assert '{' !in s by { assert ps[0].Literal?; }
        ReplaceSkip(s, tail, pat, v);
      case Placeholder(u) =>
        if u == t {
          ReplaceHead(tail, pat, v);
        } else {
          TokensDiffer(u, t);
          var i := if TokenText(u)[1] != pat[1] then 1 else 2;
          ReplaceMismatch(TokenText(u), tail, pat, v, i);
        }
    }
    FillBraceFree(ps, t, v);
  }

  /** Filling a token with a value free of `{` keeps the pieces free of `{`. */
  lemma {:induction false} FillBraceFree(ps: seq<Piece>, t: Token, v: string)
    requires BraceFree(ps) && '{' !in v
    ensures BraceFree(Fill(ps, t, v))
  {
    if ps != [] {
      var rest := ps[1..];
      assert BraceFree(rest) by {
        forall k | 0 <= k < |rest| ensures rest[k] == ps[k + 1] { }
      }
      FillBraceFree(rest, t, v);
      var f := Fill(ps, t, v);
      assert f[1..] == Fill(rest, t, v);
      forall k | 0 <= k < |f| && f[k].Literal? ensures '{' !in f[k].text {
        if k > 0 {
          assert f[k] == Fill(rest, t, v)[k - 1];
        }
      }
    }
  }

  /** Filling the four tokens in turn renders the template. */
  lemma {:induction false} FilledRender(ps: seq<Piece>, name: string, ext: string, n: string, date: string)
    ensures Spell(Fill(Fill(Fill(Fill(ps, NameToken, name), ExtToken, WithoutDots(ext)), SeqToken, n), DateToken, date))
         == Render(ps, name, ext, n, date)
  {
    if ps != [] {
      FilledRender(ps[1..], name, ext, n, date);
      var f1 := Fill(ps, NameToken, name);
      var f2 := Fill(f1, ExtToken, WithoutDots(ext));
      var f3 := Fill(f2, SeqToken, n);
      var f4 := Fill(f3, DateToken, date);
      assert f1[1..] == Fill(ps[1..], NameToken, name);
      assert f2[1..] == Fill(f1[1..], ExtToken, WithoutDots(ext));
      assert f3[1..] == Fill(f2[1..], SeqToken, n);
      assert f4[1..] == Fill(f3[1..], DateToken, date);
      FilledPiece(ps[0], name, ext, n, date);
      assert f4[0] == FillPiece(FillPiece(FillPiece(FillPiece(ps[0], NameToken, name), ExtToken, WithoutDots(ext)), SeqToken, n), DateToken, date);
      assert Spell(f4) == PieceText(f4[0]) + Spell(f4[1..]);
    }
  }

  /** Filling the four tokens in turn turns one piece into its meaning. */
  lemma FilledPiece(p: Piece, name: string, ext: string, n: string, date: string)
    ensures PieceText(FillPiece(FillPiece(FillPiece(FillPiece(p, NameToken, name), ExtToken, WithoutDots(ext)), SeqToken, n), DateToken, date))
         == RenderPiece(p, name, ext, n, date)
  {
    match p
    case Literal(s) =>
    case Placeholder(t) =>
      match t
      case NameToken =>
        assert FillPiece(p, NameToken, name) == Literal(name);
      case ExtToken =>
        assert FillPiece(p, NameToken, name) == p;
        assert FillPiece(p, ExtToken, WithoutDots(ext)) == Literal(WithoutDots(ext));
      case SeqToken =>
        assert FillPiece(FillPiece(p, NameToken, name), ExtToken, WithoutDots(ext)) == p;
        assert FillPiece(p, SeqToken, n) == Literal(n);
      case DateToken =>
        assert FillPiece(FillPiece(FillPiece(p, NameToken, name), ExtToken, WithoutDots(ext)), SeqToken, n) == p;
  }

  /** The template step computes what the template means: for a template
      spelled from literal text and tokens, with no `{` in the literal text
      or in the values, `Substitute` renders it, and no `{` remains. */
  lemma SubstituteRenders(ps: seq<Piece>, name: string, ext: string, n: string, date: string)
    requires BraceFree(ps)
    requires '{' !in name && '{' !in WithoutDots(ext) && '{' !in n && '{' !in date
    ensures Substitute(Spell(ps), name, ext, n, date) == Render(ps, name, ext, n, date)
    ensures '{' !in Substitute(Spell(ps), name, ext, n, date)
  {
    var f1 := Fill(ps, NameToken, name);
    var f2 := Fill(f1, ExtToken, WithoutDots(ext));
    var f3 := Fill(f2, SeqToken, n);
    FillReplaces(ps, NameToken, name);
    FillReplaces(f1, ExtToken, WithoutDots(ext));
    FillReplaces(f2, SeqToken, n);
    FillReplaces(f3, DateToken, date);
    FilledRender(ps, name, ext, n, date);
    RenderHasNoBrace(ps, name, ext, n, date);
  }

  /** The template `{n}` yields exactly the padded sequence number. */
  lemma SequenceTemplate(seqNo: int, width: nat, name: string, ext: string, date: string)
    ensures Substitute("{n}", name, ext, Padded(seqNo, width), date) == Padded(seqNo, width)
  {
    var p := Padded(seqNo, width);
    assert ReplaceAll("{n}", "{name}", name) == "{n}";
    assert ReplaceAll("{n}", "{ext}", WithoutDots(ext)) == "{n}";
    ReplaceWhole("{n}", p);
    assert '{' !in p by {
      forall i | 0 <= i < |p| ensures p[i] != '{' { }
    }
    assert ReplaceAll(p, "{date}", date) == p;
  }

  /** Substitution is case-sensitive: `{NAME}` is not replaced, although the
      template check accepts it (its token compares equal ignoring case). */
  lemma UpperCaseTokenStaysLiteral(name: string, ext: string, n: string, date: string)
    ensures Substitute("{NAME}", name, ext, n, date) == "{NAME}"
  {
    var t := "{NAME}";
    assert '{' !in t[1..] by { assert t[1..] == "NAME}"; }
    assert t + "" == t;
    ReplaceMismatch(t, "", "{name}", name, 1);
    ReplaceMismatch(t, "", "{ext}", WithoutDots(ext), 1);
    ReplaceMismatch(t, "", "{n}", n, 1);
    ReplaceMismatch(t, "", "{date}", date, 1);
  }

  /** The effective limit: `MaxLength` when positive, otherwise 255. */
  function Limit(maxLength: int): (m: nat)
    ensures m > 0
    ensures maxLength > 0 ==> m == maxLength
  {
    if maxLength <= 0 then 255 else maxLength
  }

  /** The length rule: the longest prefix of `s` within the limit. */
  function Truncate(s: string, maxLength: int): (r: string)
    ensures |r| <= Limit(maxLength) && |r| <= |s|
    ensures r == s[..|r|]
    ensures |s| <= Limit(maxLength) ==> r == s
    ensures |s| > Limit(maxLength) ==> |r| == Limit(maxLength)
  {
    var max := Limit(maxLength);
    if |s| > max then s[..max] else s
  }
}
