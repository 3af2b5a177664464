/** What happens when the target of a rename already exists: skip the file,
    overwrite the target, or try `name_1`, `name_2`, … until one is free. */
module Conflicts {
  import opened Wrappers
  import opened Text
  import opened Numbers
  import opened CommandLine
  import opened Paths

  /** `(o.Conflict ?? "increment").ToLowerInvariant()`. */
  function ConflictMode(o: Options): (r: string)
    ensures IsLower(r) && |r| == |OrElse(o.conflict, "increment")|
    ensures o.conflict.None? ==> r == "increment"
    ensures o.conflict.Some? && IsLower(o.conflict.value) ==> r == o.conflict.value
  {
    var m := OrElse(o.conflict, "increment");
    assert IsLower(m) ==> Lower(m) == m by {
      if IsLower(m) { LowerKeepsLower(m); }
    }
    Lower(m)
  }

  /** The `k`-th path the increment policy tries: `base_k` plus the extension,
      in the file's directory. */
  function Candidate(dir: string, base: string, k: nat, ext: string): string
  {
    Combine(dir, base + "_" + IntText(k) + ext)
  }

  /** Different counters give different candidates. */
  lemma CandidateInjective(dir: string, base: string, ext: string, a: nat, b: nat)
    requires Candidate(dir, base, a, ext) == Candidate(dir, base, b, ext)
    ensures a == b
  {
    var fa := base + "_" + IntText(a) + ext;
    var fb := base + "_" + IntText(b) + ext;
    assert fa[0] == fb[0] by {
      if base == [] { assert fa[0] == '_' == fb[0]; } else { assert fa[0] == base[0] == fb[0]; }
    }
    CombineLead(dir, fa);
    CombineLead(dir, fb);
    var l := Lead(dir, fa[0]);
    assert fa == Candidate(dir, base, a, ext)[|l|..];
    assert fb == Candidate(dir, base, b, ext)[|l|..];
    var da := Decimal(Abs(a));
    var db := Decimal(Abs(b));
    assert |da| == |db|;
    assert da == fa[|base| + 1..|base| + 1 + |da|];
    assert db == fb[|base| + 1..|base| + 1 + |db|];
    DecimalInjective(a, b);
  }

  /** The candidates numbered `1 .. k - 1`. */
  ghost function Tried(dir: string, base: string, ext: string, k: nat): set<string>
  {
    set j | 1 <= j < k :: Candidate(dir, base, j, ext)
  }

  /** The candidates tried before the `k`-th are those tried before the
      `k - 1`-th and the `k - 1`-th itself. */
  lemma TriedNext(dir: string, base: string, ext: string, k: nat)
    requires k > 1
    ensures Tried(dir, base, ext, k) == Tried(dir, base, ext, k - 1) + {Candidate(dir, base, k - 1, ext)}
  {
  }

  /** The `k`-th candidate is none of those tried before it. */
  lemma TriedFresh(dir: string, base: string, ext: string, k: nat)
    requires k >= 1
    ensures Candidate(dir, base, k, ext) !in Tried(dir, base, ext, k)
  {
    if Candidate(dir, base, k, ext) in Tried(dir, base, ext, k) {
      var j :| 1 <= j < k && Candidate(dir, base, j, ext) == Candidate(dir, base, k, ext);
      CandidateInjective(dir, base, ext, j, k);
    }
  }

  /** `k - 1` distinct candidates have been tried before the `k`-th. */
  lemma {:induction false} TriedSize(dir: string, base: string, ext: string, k: nat)
    requires k >= 1
    ensures |Tried(dir, base, ext, k)| == k - 1
  {
    if k > 1 {
      TriedSize(dir, base, ext, k - 1);
      TriedNext(dir, base, ext, k);
      TriedFresh(dir, base, ext, k - 1);
    }
  }

  /** A set holds at least as many elements as any subset of it. */
  lemma {:induction false} SubsetSize(a: set<string>, b: set<string>)
    requires a <= b
    ensures |a| <= |b|
    decreases |b|
  {
    if a != {} {
      var x :| x in a;
      SubsetSize(a - {x}, b - {x});
    }
  }

  /** When candidates `1 .. k - 1` all exist, there are at least `k - 1`
      existing paths. */
  lemma TriedBound(dir: string, base: string, ext: string, existing: set<string>, k: nat)
    requires k >= 1
    requires forall j :: 1 <= j < k ==> Candidate(dir, base, j, ext) in existing
    ensures k - 1 <= |existing|
  {
    TriedSize(dir, base, ext, k);
    SubsetSize(Tried(dir, base, ext, k), existing);
  }

  /** The counter the increment policy settles on, searching upwards from `k`:
      the least one from `k` on whose candidate does not exist. */
  function FreeIndex(dir: string, base: string, ext: string, existing: set<string>, k: nat): (r: nat)
    requires k >= 1
    requires forall j :: 1 <= j < k ==> Candidate(dir, base, j, ext) in existing
    ensures r >= k && Candidate(dir, base, r, ext) !in existing
    ensures forall j :: 1 <= j < r ==> Candidate(dir, base, j, ext) in existing
    decreases |existing| + 1 - k
  {
    if Candidate(dir, base, k, ext) !in existing then k
    else
      TriedBound(dir, base, ext, existing, k + 1);
      FreeIndex(dir, base, ext, existing, k + 1)
  }

  /** The `do { … } while (File.Exists(candidate))` loop: tries `base_1`,
      `base_2`, … and returns the first that does not exist. */
  method ProbeIncrement(dir: string, base: string, ext: string, existing: set<string>) returns (candidate: string)
    ensures candidate == Candidate(dir, base, FreeIndex(dir, base, ext, existing, 1), ext)
    ensures candidate !in existing
  {
    var inc := 1;
    candidate := Candidate(dir, base, inc, ext);
    inc := inc + 1;
    while candidate in existing
      invariant inc >= 2 && candidate == Candidate(dir, base, inc - 1, ext)
      invariant forall j :: 1 <= j < inc - 1 ==> Candidate(dir, base, j, ext) in existing
      invariant FreeIndex(dir, base, ext, existing, 1) == FreeIndex(dir, base, ext, existing, inc - 1)
      decreases |existing| + 2 - inc
    {
      TriedBound(dir, base, ext, existing, inc);
      candidate := Candidate(dir, base, inc, ext);
      inc := inc + 1;
    }
  }

  /** The target after the conflict policy `mode` (already lower-cased), or
      `None` when the file is skipped. */
  function Resolve(mode: string, dir: string, base: string, ext: string, existing: set<string>): (r: Option<string>)
    ensures Combine(dir, base + ext) !in existing ==> r == Some(Combine(dir, base + ext))
    ensures r.None? <==> Combine(dir, base + ext) in existing && mode == "skip"
  {
    var target := Combine(dir, base + ext);
    if target !in existing then Some(target)
    else if mode == "skip" then None
    else if mode == "overwrite" then Some(target)
    else Some(Candidate(dir, base, FreeIndex(dir, base, ext, existing, 1), ext))
  }

  /** Step 5 of the loop body: the target path, after the conflict policy;
      `None` where `Run`'s loop skips the file. */
  method ResolveTarget(o: Options, dir: string, finalName: string, finalExt: string, existing: set<string>)
    returns (target: Option<string>)
    ensures target == Resolve(ConflictMode(o), dir, finalName, finalExt, existing)
  {
    var targetPath := Combine(dir, finalName + finalExt);
    if targetPath in existing {
      var mode := ConflictMode(o);
      if mode == "skip" {
        return None;
      } else if mode == "overwrite" {
      } else {
        targetPath := ProbeIncrement(dir, finalName, finalExt, existing);
      }
    }
    return Some(targetPath);
  }

  /** The four outcomes of the policy: a free target is kept; an existing one
      is dropped under `skip`, kept only under `overwrite`, and otherwise
      replaced by the first free `base_k`, all of `base_1 .. base_(k-1)`
      existing. Only `overwrite` ever yields a path that exists. */
  lemma ResolveOutcome(mode: string, dir: string, base: string, ext: string, existing: set<string>)
    ensures var target := Combine(dir, base + ext);
      var r := Resolve(mode, dir, base, ext, existing);
      && (target !in existing ==> r == Some(target))
      && (r.None? <==> target in existing && mode == "skip")
      && (r.Some? && r.value in existing ==> r.value == target && mode == "overwrite")
      && (target in existing && mode != "skip" && mode != "overwrite" ==>
            exists k :: k >= 1 && r == Some(Candidate(dir, base, k, ext))
                     && r.value !in existing
                     && forall j :: 1 <= j < k ==> Candidate(dir, base, j, ext) in existing)
  {
    var target := Combine(dir, base + ext);
    if target in existing && mode != "skip" && mode != "overwrite" {
      var k := FreeIndex(dir, base, ext, existing, 1);
      assert Resolve(mode, dir, base, ext, existing) == Some(Candidate(dir, base, k, ext));
    }
  }

  /** Whatever the policy picks ends with the extension it was given. */
  lemma ResolveKeepsExtension(mode: string, dir: string, base: string, ext: string, existing: set<string>)
    requires ext != []
    ensures var r := Resolve(mode, dir, base, ext, existing);
      r.Some? ==> EndsWith(r.value, ext)
  {
    var r := Resolve(mode, dir, base, ext, existing);
    if r.Some? {
      var front := base;
      if r.value != Combine(dir, base + ext) {
        front := base + "_" + IntText(FreeIndex(dir, base, ext, existing, 1));
      }
      assert r.value == Combine(dir, front + ext);
      CombineLead(dir, front + ext);
      EndsWithConcat(front, ext);
      EndsWithTrans(r.value, front + ext, ext);
    }
  }

  /** With a base name and an extension free of separators, every target the
      policy picks lies directly in `dir`. The one exception is an empty base
      name with an empty extension: then the target is `dir` itself. */
  lemma ResolveInDirectory(mode: string, dir: string, base: string, ext: string, existing: set<string>)
    requires '/' !in base && '/' !in ext
    ensures var r := Resolve(mode, dir, base, ext, existing);
      r.Some? ==> InDirectory(r.value, dir) || (base + ext == [] && r.value == dir)
  {
    var r := Resolve(mode, dir, base, ext, existing);
    if r.Some? {
      var target := Combine(dir, base + ext);
      if r.value == target {
        if base + ext != [] {
          assert '/' !in base + ext;
        }
      } else {
        var k := FreeIndex(dir, base, ext, existing, 1);
        var x := base + "_" + IntText(k) + ext;
        assert '/' !in IntText(k);
        assert '/' !in x;
        assert r.value == Combine(dir, x);
      }
    }
  }

  /** A separator inside the extension, after a leading character that is
      not one, takes every target the policy picks out of `dir`. */
  lemma ResolveLeavesDirectory(mode: string, dir: string, base: string, ext: string, existing: set<string>)
    requires dir != [] && '/' !in base && ext != [] && ext[0] != '/' && '/' in ext
    ensures var r := Resolve(mode, dir, base, ext, existing);
      r.Some? ==> !InDirectory(r.value, dir)
  {
    var r := Resolve(mode, dir, base, ext, existing);
    if r.Some? {
      if r.value == Combine(dir, base + ext) {
        AppendedNotInDirectory(dir, base, ext);
      } else {
        var k := FreeIndex(dir, base, ext, existing, 1);
        assert '/' !in IntText(k);
        var front := base + "_" + IntText(k);
        assert '/' !in front;
        assert r.value == Combine(dir, front + ext);
        AppendedNotInDirectory(dir, front, ext);
      }
    }
  }
}
