/** String primitives of the .NET base library that the renamer relies on:
    `Char.IsWhiteSpace`, `String.Trim`, ordinal `String.Replace`, `String.Split`
    and the ASCII part of invariant-culture case mapping. */
module Text {

  /** `Char.IsWhiteSpace`: the Unicode space separators, line and paragraph
      separators, and the control characters U+0009..U+000D and U+0085. */
  predicate IsWhiteSpace(c: char)
  {
    || ('\U{0009}' <= c <= '\U{000D}')
    || c == ' ' || c == '\U{0085}' || c == '\U{00A0}' || c == '\U{1680}'
    || ('\U{2000}' <= c <= '\U{200A}')
    || c == '\U{2028}' || c == '\U{2029}' || c == '\U{202F}' || c == '\U{205F}' || c == '\U{3000}'
  }

  /** `String.IsNullOrWhiteSpace` for a non-null string. */
  predicate IsBlank(s: string)
  {
    forall i :: 0 <= i < |s| ==> IsWhiteSpace(s[i])
  }

  /** `String.TrimStart()`: drops the longest all-white-space prefix. */
  function TrimStart(s: string): (r: string)
    ensures |r| <= |s|
    ensures r == [] || !IsWhiteSpace(r[0])
  {
    if s != [] && IsWhiteSpace(s[0]) then TrimStart(s[1..]) else s
  }

  /** What `TrimStart` drops is white space, and what it keeps is the rest
      of `s`. */
  lemma {:induction false} TrimStartDrops(s: string)
    ensures TrimStart(s) == s[|s| - |TrimStart(s)|..]
    ensures forall i :: 0 <= i < |s| - |TrimStart(s)| ==> IsWhiteSpace(s[i])
    decreases |s|
  {
    if s != [] && IsWhiteSpace(s[0]) {
      TrimStartDrops(s[1..]);
      forall i | 1 <= i < |s| - |TrimStart(s)| ensures IsWhiteSpace(s[i]) {
        assert s[i] == s[1..][i - 1];
      }
    }
  }

  /** `String.TrimEnd()`: drops the longest all-white-space suffix. */
  function TrimEnd(s: string): (r: string)
    ensures |r| <= |s|
    ensures r == [] || !IsWhiteSpace(r[|r| - 1])
  {
    if s != [] && IsWhiteSpace(s[|s| - 1]) then TrimEnd(s[..|s| - 1]) else s
  }

  /** What `TrimEnd` drops is white space, and what it keeps is the start
      of `s`. */
  lemma {:induction false} TrimEndDrops(s: string)
    ensures TrimEnd(s) == s[..|TrimEnd(s)|]
    ensures forall i :: |TrimEnd(s)| <= i < |s| ==> IsWhiteSpace(s[i])
    decreases |s|
  {
    if s != [] && IsWhiteSpace(s[|s| - 1]) {
      TrimEndDrops(s[..|s| - 1]);
      forall i | |TrimEnd(s)| <= i < |s| - 1 ensures IsWhiteSpace(s[i]) {
        assert s[i] == s[..|s| - 1][i];
      }
    }
  }

  /** `String.Trim()`: the result neither starts nor ends with white space. */
  function Trim(s: string): (r: string)
    ensures |r| <= |s|
    ensures r == [] || (!IsWhiteSpace(r[0]) && !IsWhiteSpace(r[|r| - 1]))
  {
    TrimEndDrops(TrimStart(s));
    TrimEnd(TrimStart(s))
  }

  /** The trimmed string is the piece of `s` that starts after the leading
      white space. */
  lemma TrimPiece(s: string)
    ensures var k := |s| - |TrimStart(s)|;
      Trim(s) == s[k..k + |Trim(s)|]
  {
    var t := TrimStart(s);
    var r := TrimEnd(t);
    assert Trim(s) == r;
    TrimStartDrops(s);
    TrimEndDrops(t);
    PrefixOfSuffix(s, t, r);
  }

  /** A prefix `r` of a suffix `t` of `s` is the slice of `s` where `t` starts. */
  lemma PrefixOfSuffix(s: string, t: string, r: string)
    requires |t| <= |s| && t == s[|s| - |t|..]
    requires |r| <= |t| && r == t[..|r|]
    ensures r == s[|s| - |t|..|s| - |t| + |r|]
  {
  }

  /** What follows the trimmed piece is white space. */
  lemma TrimTail(s: string)
    ensures var k := |s| - |TrimStart(s)|;
      forall i :: k + |Trim(s)| <= i < |s| ==> IsWhiteSpace(s[i])
  {
    var t := TrimStart(s);
    var k := |s| - |t|;
    var r := TrimEnd(t);
    TrimStartDrops(s);
    TrimEndDrops(t);
    assert Trim(s) == r;
    forall i | k + |r| <= i < |s|
      ensures IsWhiteSpace(s[i])
    {
      assert s[i] == t[i - k];
    }
  }

  /** Trimming only cuts white space away from the two ends: the result is
      the piece of `s` that starts after the leading white space. */
  lemma TrimIsPiece(s: string)
    ensures var t := TrimStart(s);
      Trim(s) == s[|s| - |t|..|s| - |t| + |Trim(s)|]
      && (forall i :: 0 <= i < |s| - |t| ==> IsWhiteSpace(s[i]))
      && (forall i :: |s| - |t| + |Trim(s)| <= i < |s| ==> IsWhiteSpace(s[i]))
  {
    TrimPiece(s);
    TrimTail(s);
    TrimStartDrops(s);
  }

  /** Every character of the trimmed string comes from the original. */
  lemma TrimChars(s: string)
    ensures forall c :: c in Trim(s) ==> c in s
  {
    TrimIsPiece(s);
    var k := |s| - |TrimStart(s)|;
    forall c | c in Trim(s) ensures c in s {
      var i :| 0 <= i < |Trim(s)| && Trim(s)[i] == c;
      assert s[k + i] == c;
    }
  }

  /** Trimming yields the empty string exactly for a blank string. */
  lemma TrimBlank(s: string)
    ensures Trim(s) == [] <==> IsBlank(s)
  {
    TrimIsPiece(s);
    if Trim(s) != [] {
      var k := |s| - |TrimStart(s)|;
      assert s[k] == Trim(s)[0];
    }
  }

  /** Trimming a string that already has no white space at either end leaves it alone. */
  lemma {:induction false} TrimKeepsTrimmed(s: string)
    requires s == [] || (!IsWhiteSpace(s[0]) && !IsWhiteSpace(s[|s| - 1]))
    ensures Trim(s) == s
  {
    assert TrimStart(s) == s;
    assert TrimEnd(s) == s;
  }

  /** ASCII part of `Char.ToLowerInvariant`. */
  function LowerChar(c: char): char
  {
    if 'A' <= c <= 'Z' then (c as int + 32) as char else c
  }

  /** ASCII part of `Char.ToUpperInvariant`. */
  function UpperChar(c: char): char
  {
    if 'a' <= c <= 'z' then (c as int - 32) as char else c
  }

  /** Lower-casing neither makes nor unmakes white space. */
  lemma LowerCharKeepsSpace(c: char)
    ensures IsWhiteSpace(LowerChar(c)) == IsWhiteSpace(c)
  {
  }

  predicate IsLower(s: string)
  {
    forall i :: 0 <= i < |s| ==> !('A' <= s[i] <= 'Z')
  }

  predicate IsUpper(s: string)
  {
    forall i :: 0 <= i < |s| ==> !('a' <= s[i] <= 'z')
  }

  /** `String.ToLowerInvariant`, restricted to ASCII letters. */
  function Lower(s: string): (r: string)
    ensures |r| == |s| && IsLower(r)
    ensures forall i :: 0 <= i < |s| ==> r[i] == s[i] || ('A' <= s[i] <= 'Z' && r[i] == s[i] + ('a' - 'A'))
  {
    seq(|s|, i requires 0 <= i < |s| => LowerChar(s[i]))
  }

  /** `String.ToUpperInvariant`, restricted to ASCII letters. */
  function Upper(s: string): (r: string)
    ensures |r| == |s| && IsUpper(r)
    ensures forall i :: 0 <= i < |s| ==> r[i] == s[i] || ('a' <= s[i] <= 'z' && r[i] == s[i] - ('a' - 'A'))
  {
    seq(|s|, i requires 0 <= i < |s| => UpperChar(s[i]))
  }

  /** Lower-casing never turns a character into white space, so a string
      without white space at its ends keeps that shape. */
  lemma LowerKeepsTrimmed(s: string)
    requires s != [] && !IsWhiteSpace(s[0]) && !IsWhiteSpace(s[|s| - 1])
    ensures Trim(Lower(s)) == Lower(s)
  {
    var r := Lower(s);
    assert r[0] == LowerChar(s[0]);
    assert r[|r| - 1] == LowerChar(s[|s| - 1]);
    TrimKeepsTrimmed(r);
  }

  /** Lower-casing an already lower-case string changes nothing. */
  lemma LowerKeepsLower(s: string)
    requires IsLower(s)
    ensures Lower(s) == s
  {
  }

  /** Lower-casing forgets an earlier upper-casing. */
  lemma LowerOfUpper(s: string)
    ensures Lower(Upper(s)) == Lower(s)
  {
    var u := Upper(s);
    forall i | 0 <= i < |s| ensures Lower(u)[i] == Lower(s)[i] {
      assert Lower(u)[i] == LowerChar(UpperChar(s[i]));
    }
  }

  /** `String.Replace(char, char)`. */
  function ReplaceChar(s: string, from: char, to: char): (r: string)
    ensures |r| == |s|
    ensures from != to ==> from !in r
    ensures forall i :: 0 <= i < |s| ==> r[i] == (if s[i] == from then to else s[i])
  {
    seq(|s|, i requires 0 <= i < |s| => if s[i] == from then to else s[i])
  }

  /** `pat` occurs in `s` starting at position `i`. */
  predicate OccursAt(s: string, pat: string, i: int)
  {
    0 <= i && i + |pat| <= |s| && s[i..i + |pat|] == pat
  }

  ghost predicate Occurs(s: string, pat: string)
  {
    exists i :: OccursAt(s, pat, i)
  }

  /** Ordinal `String.Replace(string, string)`: every occurrence of `pat`,
      found left to right without overlap, becomes `rep`. A string too short
      to hold `pat`, or without the character `pat` starts with, is returned
      unchanged. */
  function ReplaceAll(s: string, pat: string, rep: string): (r: string)
    requires pat != []
    ensures |s| < |pat| ==> r == s
    ensures pat[0] !in s ==> r == s
    decreases |s|
  {
    if |s| < |pat| then s
    else if s[..|pat|] == pat then rep + ReplaceAll(s[|pat|..], pat, rep)
    else [s[0]] + ReplaceAll(s[1..], pat, rep)
  }

  /** When `pat` does not occur, `Replace` returns the string unchanged. */
  lemma {:induction false} ReplaceAbsent(s: string, pat: string, rep: string)
    requires pat != []
    requires !Occurs(s, pat)
    ensures ReplaceAll(s, pat, rep) == s
    decreases |s|
  {
    if |s| >= |pat| {
      assert !OccursAt(s, pat, 0);
      assert s[..|pat|] != pat;
      forall i | 0 <= i && i + |pat| <= |s| - 1 ensures !OccursAt(s[1..], pat, i) {
        assert s[1..][i..i + |pat|] == s[i + 1..i + 1 + |pat|];
        assert !OccursAt(s, pat, i + 1);
      }
      ReplaceAbsent(s[1..], pat, rep);
    }
  }

  /** Replacing a pattern by itself is the identity. */
  lemma {:induction false} ReplaceBySelf(s: string, pat: string)
    requires pat != []
    ensures ReplaceAll(s, pat, pat) == s
    decreases |s|
  {
    if |s| >= |pat| {
      if s[..|pat|] == pat {
        ReplaceBySelf(s[|pat|..], pat);
        assert s == s[..|pat|] + s[|pat|..];
      } else {
        ReplaceBySelf(s[1..], pat);
        assert s == [s[0]] + s[1..];
      }
    }
  }

  /** The pattern itself becomes the replacement. */
  lemma ReplaceWhole(pat: string, rep: string)
    requires pat != []
    ensures ReplaceAll(pat, pat, rep) == rep
  {
    assert pat[..|pat|] == pat;
    assert pat[|pat|..] == [];
  }

  /** A character that does not start `pat` is copied unchanged. */
  lemma ReplaceStep(c: char, y: string, pat: string, rep: string)
    requires pat != [] && c != pat[0]
    ensures ReplaceAll([c] + y, pat, rep) == [c] + ReplaceAll(y, pat, rep)
  {
    var s := [c] + y;
    assert s[1..] == y;
    if |s| >= |pat| {
      assert s[..|pat|][0] == c;
    }
  }

  /** A front none of whose characters starts `pat` is copied unchanged, and
      the replacement carries on after it. */
  lemma {:induction false} ReplaceSkip(x: string, y: string, pat: string, rep: string)
    requires pat != [] && pat[0] !in x
    ensures ReplaceAll(x + y, pat, rep) == x + ReplaceAll(y, pat, rep)
    decreases |x|
  {
    if x == [] {
      assert x + y == y;
    } else {
      var t := x[1..];
      assert x[0] != pat[0] by { assert x[0] in x; }
      assert pat[0] !in t by {
        forall i | 0 <= i < |t| ensures t[i] != pat[0] { assert t[i] == x[i + 1]; }
      }
      ReplaceSkip(t, y, pat, rep);
      assert x == [x[0]] + t;
      ReplaceCons(x[0], t, y, pat, rep);
    }
  }

  /** One more leading character that cannot start the pattern is copied. */
  lemma ReplaceCons(c: char, t: string, y: string, pat: string, rep: string)
    requires pat != [] && c != pat[0]
    requires ReplaceAll(t + y, pat, rep) == t + ReplaceAll(y, pat, rep)
    ensures ReplaceAll([c] + t + y, pat, rep) == [c] + t + ReplaceAll(y, pat, rep)
  {
    assert [c] + t + y == [c] + (t + y);
    ReplaceStep(c, t + y, pat, rep);
  }

  /** An occurrence of `pat` at the front becomes `rep`. */
  lemma ReplaceHead(y: string, pat: string, rep: string)
    requires pat != []
    ensures ReplaceAll(pat + y, pat, rep) == rep + ReplaceAll(y, pat, rep)
  {
    assert (pat + y)[..|pat|] == pat;
    assert (pat + y)[|pat|..] == y;
  }

  /** A front `t` that differs from `pat` at position `i`, and whose later
      characters never start `pat`, is copied unchanged. */
  lemma ReplaceMismatch(t: string, y: string, pat: string, rep: string, i: nat)
    requires pat != [] && i < |t| && i < |pat| && t[i] != pat[i]
    requires pat[0] !in t[1..]
    ensures ReplaceAll(t + y, pat, rep) == t + ReplaceAll(y, pat, rep)
  {
    var s := t + y;
    if |s| >= |pat| {
      assert s[..|pat|][i] == t[i];
      assert s[1..] == t[1..] + y;
      ReplaceSkip(t[1..], y, pat, rep);
      assert t == [t[0]] + t[1..];
    }
  }

  /** `String.Join(sep, parts)` with a string separator. */
  function JoinWith(parts: seq<string>, sep: string): string
    requires |parts| >= 1
  {
    if |parts| == 1 then parts[0] else parts[0] + sep + JoinWith(parts[1..], sep)
  }

  /** What `Replace` does, stated through `Join`: when no piece between the
      occurrences of `pat` holds the character `pat` starts with, replacing
      `pat` by `rep` is joining the same pieces with `rep` instead. */
  lemma {:induction false} ReplaceJoin(parts: seq<string>, pat: string, rep: string)
    requires pat != [] && |parts| >= 1
    requires forall k :: 0 <= k < |parts| ==> pat[0] !in parts[k]
    ensures ReplaceAll(JoinWith(parts, pat), pat, rep) == JoinWith(parts, rep)
  {
    if |parts| > 1 {
      var tail := parts[1..];
      var rest := JoinWith(tail, pat);
      assert JoinWith(parts, pat) == parts[0] + (pat + rest);
      ReplaceSkip(parts[0], pat + rest, pat, rep);
      ReplaceHead(rest, pat, rep);
      assert forall k :: 0 <= k < |tail| ==> tail[k] == parts[k + 1];
      ReplaceJoin(tail, pat, rep);
      assert JoinWith(parts, rep) == parts[0] + (rep + JoinWith(tail, rep));
    }
  }

  /** `String.Split(sep)`: the pieces between separators, in order, none of
      which contains `sep`; joining them back with `sep` gives `s`
      (`SplitJoin`). */
  function Split(s: string, sep: char): (r: seq<string>)
    ensures |r| >= 1
    ensures forall k :: 0 <= k < |r| ==> sep !in r[k]
  {
    if s == [] then [[]]
    else
      var rest := Split(s[1..], sep);
      if s[0] == sep then [[]] + rest
      else [[s[0]] + rest[0]] + rest[1..]
  }

  /** `String.Join(sep, parts)`. */
  function Join(parts: seq<string>, sep: char): string
    requires |parts| >= 1
  {
    if |parts| == 1 then parts[0] else parts[0] + [sep] + Join(parts[1..], sep)
  }

  /** Joining the pieces of `Split` with the separator gives back the
      string. */
  lemma {:induction false} SplitJoin(s: string, sep: char)
    ensures Join(Split(s, sep), sep) == s
    decreases |s|
  {
    if s != [] {
      var rest := Split(s[1..], sep);
      SplitJoin(s[1..], sep);
      if s[0] == sep {
        assert Join(Split(s, sep), sep) == [] + [sep] + Join(rest, sep);
      } else if |rest| == 1 {
        assert Join(Split(s, sep), sep) == [s[0]] + rest[0];
      } else {
        assert Join(Split(s, sep), sep) == [s[0]] + rest[0] + [sep] + Join(rest[1..], sep);
        assert Join(rest, sep) == rest[0] + [sep] + Join(rest[1..], sep);
      }
      assert s == [s[0]] + s[1..];
    }
  }

  /** Splitting at a separator splits each side on its own. */
  lemma {:induction false} SplitAppend(a: string, b: string, sep: char)
    ensures Split(a + [sep] + b, sep) == Split(a, sep) + Split(b, sep)
  {
    if a == [] {
      assert a + [sep] + b == [sep] + b;
      SplitConsSep(b, sep);
    } else {
      SplitAppend(a[1..], b, sep);
      assert a == [a[0]] + a[1..];
      SplitAppendStep(a[0], a[1..], b, sep);
    }
  }

  /** The step of `SplitAppend`: one more character in front of `x`. */
  lemma SplitAppendStep(c: char, x: string, b: string, sep: char)
    requires Split(x + [sep] + b, sep) == Split(x, sep) + Split(b, sep)
    ensures Split([c] + x + [sep] + b, sep) == Split([c] + x, sep) + Split(b, sep)
  {
    var t := x + [sep] + b;
    assert [c] + x + [sep] + b == [c] + t;
    if c == sep {
      SplitConsSep(t, sep);
      SplitConsSep(x, sep);
    } else {
      SplitConsOther(c, t, sep);
      SplitConsOther(c, x, sep);
      ConsFirstPiece(c, Split(x, sep), Split(b, sep));
    }
  }

  /** Gluing `c` onto the first piece commutes with appending pieces. */
  lemma ConsFirstPiece(c: char, u: seq<string>, v: seq<string>)
    requires |u| >= 1
    ensures [[c] + (u + v)[0]] + (u + v)[1..] == ([[c] + u[0]] + u[1..]) + v
  {
    assert (u + v)[0] == u[0] && (u + v)[1..] == u[1..] + v;
  }

  /** A separator in front opens an empty first piece. */
  lemma SplitConsSep(x: string, sep: char)
    ensures Split([sep] + x, sep) == [[]] + Split(x, sep)
  {
    assert ([sep] + x)[1..] == x;
  }

  /** Any other character in front joins the first piece. */
  lemma SplitConsOther(c: char, x: string, sep: char)
    requires c != sep
    ensures Split([c] + x, sep) == [[c] + Split(x, sep)[0]] + Split(x, sep)[1..]
  {
    assert ([c] + x)[1..] == x;
  }

  /** What `TrimEntries | RemoveEmptyEntries` lets through: a non-empty
      string without the separator that neither starts nor ends with white
      space, so that trimming it changes nothing (`TrimKeepsTrimmed`). */
  predicate IsEntry(x: string, sep: char)
  {
    x != [] && sep !in x && !IsWhiteSpace(x[0]) && !IsWhiteSpace(x[|x| - 1])
  }

  /** `String.Split(sep, RemoveEmptyEntries | TrimEntries)`: each piece of
      `Split` trimmed, and the pieces left empty dropped. Every entry is such
      a trimmed piece, and every piece that is not blank gives an entry. */
  function Entries(s: string, sep: char): (r: seq<string>)
    ensures forall k :: 0 <= k < |r| ==> IsEntry(r[k], sep)
    ensures forall k :: 0 <= k < |r| ==> IsTrimmedPiece(r[k], Split(s, sep))
    ensures forall j :: 0 <= j < |Split(s, sep)| && Trim(Split(s, sep)[j]) != [] ==>
              Trim(Split(s, sep)[j]) in r
  {
    var parts := Split(s, sep);
    EntriesShape(parts, sep);
    EntriesArePieces(parts);
    PiecesAreEntries(parts);
    TrimmedNonEmpty(parts)
  }

  /** `x` is one of the pieces, trimmed. */
  ghost predicate IsTrimmedPiece(x: string, parts: seq<string>)
  {
    exists j :: 0 <= j < |parts| && x == Trim(parts[j])
  }

  /** The pieces trimmed, without those left empty. */
  function TrimmedNonEmpty(parts: seq<string>): seq<string>
  {
    if parts == [] then []
    else if Trim(parts[0]) == [] then TrimmedNonEmpty(parts[1..])
    else [Trim(parts[0])] + TrimmedNonEmpty(parts[1..])
  }

  /** A piece without the separator that is not blank trims to an entry. */
  lemma TrimmedEntry(x: string, sep: char)
    requires sep !in x && Trim(x) != []
    ensures IsEntry(Trim(x), sep)
  {
    TrimChars(x);
  }

  /** Pieces without the separator give entries. */
  lemma {:induction false} EntriesShape(parts: seq<string>, sep: char)
    requires forall k :: 0 <= k < |parts| ==> sep !in parts[k]
    ensures forall k :: 0 <= k < |TrimmedNonEmpty(parts)| ==> IsEntry(TrimmedNonEmpty(parts)[k], sep)
  {
    if parts != [] {
      var rest := TrimmedNonEmpty(parts[1..]);
      EntriesShape(parts[1..], sep);
      if Trim(parts[0]) != [] {
        TrimmedEntry(parts[0], sep);
        assert TrimmedNonEmpty(parts) == [Trim(parts[0])] + rest;
      }
    }
  }

  /** Every entry is a trimmed piece. */
  lemma EntriesArePieces(parts: seq<string>)
    ensures forall k :: 0 <= k < |TrimmedNonEmpty(parts)| ==>
              IsTrimmedPiece(TrimmedNonEmpty(parts)[k], parts)
  {
    forall k | 0 <= k < |TrimmedNonEmpty(parts)|
      ensures IsTrimmedPiece(TrimmedNonEmpty(parts)[k], parts)
    {
      EntryIsPiece(parts, k);
    }
  }

  /** Entry `k` is a trimmed piece. */
  lemma {:induction false} EntryIsPiece(parts: seq<string>, k: nat)
    requires k < |TrimmedNonEmpty(parts)|
    ensures IsTrimmedPiece(TrimmedNonEmpty(parts)[k], parts)
    decreases |parts|
  {
    var rest := TrimmedNonEmpty(parts[1..]);
    if Trim(parts[0]) == [] {
      EntryIsPiece(parts[1..], k);
      PieceOfTail(rest[k], parts);
    } else if k == 0 {
      assert TrimmedNonEmpty(parts)[0] == Trim(parts[0]);
    } else {
      assert TrimmedNonEmpty(parts)[k] == rest[k - 1];
      EntryIsPiece(parts[1..], k - 1);
      PieceOfTail(rest[k - 1], parts);
    }
  }

  /** A trimmed piece of the later pieces is a trimmed piece of all. */
  lemma PieceOfTail(x: string, parts: seq<string>)
    requires parts != [] && IsTrimmedPiece(x, parts[1..])
    ensures IsTrimmedPiece(x, parts)
  {
    var j :| 0 <= j < |parts[1..]| && x == Trim(parts[1..][j]);
    assert parts[1..][j] == parts[j + 1];
  }

  /** Every piece that is not blank gives an entry. */
  lemma PiecesAreEntries(parts: seq<string>)
    ensures forall j :: 0 <= j < |parts| && Trim(parts[j]) != [] ==>
              Trim(parts[j]) in TrimmedNonEmpty(parts)
  {
    forall j | 0 <= j < |parts| && Trim(parts[j]) != []
      ensures Trim(parts[j]) in TrimmedNonEmpty(parts)
    {
      PieceIsEntry(parts, j);
    }
  }

  /** Piece `j`, when not blank, gives an entry. */
  lemma {:induction false} PieceIsEntry(parts: seq<string>, j: nat)
    requires j < |parts| && Trim(parts[j]) != []
    ensures Trim(parts[j]) in TrimmedNonEmpty(parts)
    decreases j
  {
    var rest := TrimmedNonEmpty(parts[1..]);
    if j > 0 {
      assert parts[1..][j - 1] == parts[j];
      PieceIsEntry(parts[1..], j - 1);
      var i :| 0 <= i < |rest| && rest[i] == Trim(parts[j]);
      if Trim(parts[0]) == [] {
        assert TrimmedNonEmpty(parts) == rest;
      } else {
        assert TrimmedNonEmpty(parts)[i + 1] == rest[i];
      }
    }
  }

  /** Entries keep the order of the pieces: the entries of two lists are the
      entries of the first followed by those of the second. */
  lemma {:induction false} TrimmedNonEmptyAppend(a: seq<string>, b: seq<string>)
    ensures TrimmedNonEmpty(a + b) == TrimmedNonEmpty(a) + TrimmedNonEmpty(b)
  {
    if a == [] {
      assert a + b == b;
    } else {
      assert (a + b)[0] == a[0];
      assert (a + b)[1..] == a[1..] + b;
      TrimmedNonEmptyAppend(a[1..], b);
    }
  }

  /** The entries of `a,b` are the entries of `a` followed by those of `b`. */
  lemma EntriesAppend(a: string, b: string, sep: char)
    ensures Entries(a + [sep] + b, sep) == Entries(a, sep) + Entries(b, sep)
  {
    SplitAppend(a, b, sep);
    TrimmedNonEmptyAppend(Split(a, sep), Split(b, sep));
  }
}
