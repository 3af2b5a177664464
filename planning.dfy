/** The planning loop of `Run`: every enumerated file in turn, with the
    sequence counter advancing once per planned rename. The loop is stated
    for any per-file planner `one`, which maps a file and the current
    sequence number to its rename or to nothing; `Run` uses `PlanOne`. */
module Planning {
  import opened Wrappers
  import opened Numbers
  import opened CommandLine
  import opened Validation
  import opened Paths
  import opened Planner

  /** The state of the loop between two files: the renames planned so far and
      the sequence number the next one gets. */
  datatype Progress = Progress(plan: seq<Entry>, seqNo: int)

  /** A per-file planner defined on every file and counter. */
  ghost predicate Total(one: (FileRec, int) --> Option<Entry>)
  {
    forall f, n :: one.requires(f, n)
  }

  /** The loop over a list of files, as a function: each file that gets an
      entry adds it and advances the counter; any other file changes
      nothing. The counter is always the start plus the number of entries,
      wrapped to 32 bits as C#'s `int` wraps. */
  function Planned(one: (FileRec, int) --> Option<Entry>, start: int, files: seq<FileRec>): (p: Progress)
    requires IsInt32(start) && Total(one)
    ensures |p.plan| <= |files|
    ensures p.seqNo == Wrap32(start + |p.plan|)
  {
    if files == [] then
      WrapInRange(start);
      Progress([], start)
    else
      var before := Planned(one, start, files[..|files| - 1]);
      var p := Step(one, before, files[|files| - 1]);
      WrapStep(start, |before.plan|, before.seqNo, |p.plan|, p.seqNo);
      p
  }

  /** One pass of the loop on the progress so far: it either leaves the
      progress alone or adds the file's entry and moves the counter on by
      one. */
  function Step(one: (FileRec, int) --> Option<Entry>, p: Progress, f: FileRec): (r: Progress)
    requires IsInt32(p.seqNo) && Total(one)
    ensures || (one(f, p.seqNo).None? && r == p)
            || (one(f, p.seqNo).Some? && r == Progress(p.plan + [one(f, p.seqNo).value], Inc32(p.seqNo)))
  {
    match one(f, p.seqNo)
    case None => p
    case Some(e) => Progress(p.plan + [e], Inc32(p.seqNo))
  }

  /** `Planned` of the first `i + 1` files: one step after the first `i`. */
  lemma PlannedStep(one: (FileRec, int) --> Option<Entry>, start: int, files: seq<FileRec>, i: nat)
    requires IsInt32(start) && Total(one) && i < |files|
    ensures Planned(one, start, files[..i + 1]) == Step(one, Planned(one, start, files[..i]), files[i])
  {
    assert files[..i + 1][..i] == files[..i];
  }

  /** A counter already in range is its own 32-bit wrap. */
  lemma WrapInRange(x: int)
    requires IsInt32(x)
    ensures Wrap32(x) == x
  {
  }

  /** Moving the counter on with each planned entry keeps it at the wrapped
      count. */
  lemma WrapStep(start: int, n: nat, c: int, n2: nat, next: int)
    requires c == Wrap32(start + n)
    requires (n2 == n && next == c) || (n2 == n + 1 && next == Inc32(c))
    ensures next == Wrap32(start + n2)
  {
    if n2 == n + 1 {
      Inc32Wraps(start + n);
    }
  }

  /** Whatever holds of every entry the planner gives a file holds of every
      planned rename, for one of the listed files. */
  lemma {:induction false} PlannedSources(one: (FileRec, int) --> Option<Entry>, start: int, files: seq<FileRec>,
                                          P: (FileRec, Entry) -> bool)
    requires IsInt32(start) && Total(one)
    requires forall f, n :: one(f, n).Some? ==> P(f, one(f, n).value)
    ensures var plan := Planned(one, start, files).plan;
      forall k :: 0 <= k < |plan| ==> exists j :: 0 <= j < |files| && P(files[j], plan[k])
  {
    if files != [] {
      var last := |files| - 1;
      var before := Planned(one, start, files[..last]);
      PlannedSources(one, start, files[..last], P);
      PlannedStep(one, start, files, last);
      assert files[..last + 1] == files;
      var plan := Planned(one, start, files).plan;
      forall k | 0 <= k < |plan|
        ensures exists j :: 0 <= j < |files| && P(files[j], plan[k])
      {
        if k < |before.plan| {
          var j :| 0 <= j < last && P(files[..last][j], before.plan[k]);
          assert files[..last][j] == files[j];
        } else {
          assert P(files[last], plan[k]);
        }
      }
    }
  }

  /** The per-file planner of `Run`. */
  function PlanFor(o: Options, existing: set<string>, host: Host): (one: (FileRec, int) --> Option<Entry>)
    requires DigitsOk(o.sequenceDigits)
    ensures Total(one)
    ensures forall f, n :: one(f, n) == PlanOne(o, f, existing, n, host)
  {
    (f: FileRec, n: int) requires DigitsOk(o.sequenceDigits) => PlanOne(o, f, existing, n, host)
  }

  /** The planning loop of `Run`: the list of renames in enumeration order. */
  method Run(o: Options, files: seq<FileRec>, existing: set<string>, host: Host) returns (plan: seq<Entry>)
    requires IsInt32(o.sequenceStart) && DigitsOk(o.sequenceDigits)
    ensures plan == Planned(PlanFor(o, existing, host), o.sequenceStart, files).plan
  {
    var one := PlanFor(o, existing, host);
    plan := [];
    var seqNo := o.sequenceStart;
    for i := 0 to |files|
      invariant Progress(plan, seqNo) == Planned(one, o.sequenceStart, files[..i])
    {
      PlannedStep(one, o.sequenceStart, files, i);
      var entry := PlanFile(o, files[i], existing, seqNo, host);
      assert entry == one(files[i], seqNo);
      if entry.Some? {
        plan := plan + [entry.value];
        seqNo := Inc32(seqNo);
      }
    }
    assert files[..|files|] == files;
  }

  /** Every rename `Run` plans moves one of the listed files that the
      filters admit. */
  lemma RunRenamesAdmittedFiles(o: Options, files: seq<FileRec>, existing: set<string>, host: Host)
    requires IsInt32(o.sequenceStart) && DigitsOk(o.sequenceDigits)
    ensures var plan := Planned(PlanFor(o, existing, host), o.sequenceStart, files).plan;
      forall k :: 0 <= k < |plan| ==> exists j :: 0 <= j < |files| && Moves(o, files[j], plan[k])
  {
    var one := PlanFor(o, existing, host);
    forall f, n | one(f, n).Some?
      ensures Moves(o, f, one(f, n).value)
    {
      PlanOneSource(o, f, existing, n, host);
    }
    PlannedSources(one, o.sequenceStart, files, (f, e) => Moves(o, f, e));
  }

  /** A listed file has a single, non-empty name component. */
  predicate NamedFile(f: FileRec)
  {
    f.name != [] && '/' !in f.name
  }

  /** When `/` is an invalid file-name character, every rename `Run` plans
      moves a listed file within its own directory: the source and the
      target lie directly in that directory, or the target is the directory
      itself when the new name and extension are both empty. */
  lemma RunStaysInDirectories(o: Options, files: seq<FileRec>, existing: set<string>, host: Host)
    requires IsInt32(o.sequenceStart) && DigitsOk(o.sequenceDigits)
    requires '/' in host.invalid
    requires forall j :: 0 <= j < |files| ==> NamedFile(files[j])
    ensures var plan := Planned(PlanFor(o, existing, host), o.sequenceStart, files).plan;
      forall k :: 0 <= k < |plan| ==>
        exists j ::
          && 0 <= j < |files|
          && InDirectory(plan[k].from, files[j].dir)
          && (InDirectory(plan[k].to, files[j].dir) || plan[k].to == files[j].dir)
  {
    var one := PlanFor(o, existing, host);
    var P := (f: FileRec, e: Entry) =>
      NamedFile(f) ==> InDirectory(e.from, f.dir) && (InDirectory(e.to, f.dir) || e.to == f.dir);
    forall f, n | one(f, n).Some?
      ensures P(f, one(f, n).value)
    {
      if NamedFile(f) {
        PlanOneInDirectory(o, f, existing, n, host);
      }
    }
    PlannedSources(one, o.sequenceStart, files, P);
  }
}
