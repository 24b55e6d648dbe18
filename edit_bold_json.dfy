/**
 * edit_bold_json.py: compute the interleaved slice timing of a 44-slice
 * acquisition with a repetition time of 2.45 s, then, for every
 * subject directory under the top directory, write the corrected
 * sidecars of runs 1 to 6 (see RestRuns). Entries of the top directory
 * that are not directories are skipped.
 */
module EditBoldJson {
  import opened Base
  import opened Json
  import opened Store
  import opened SliceTiming
  import opened RestRuns

  /** Repetition time, in seconds. */
  const TR: real := 2.45

  /** Number of slices per volume. */
  const NumSlices: nat := 44

  /** The slice indices in acquisition order: the second half of the volume paired with the first. */
  function SliceOrder(): (r: seq<nat>)
    ensures |r| == NumSlices
  {
    Interleave<nat>(Range(NumSlices)).value
  }

  /** `interleaved`: the start time of each slice, in acquisition order. */
  function Interleaved(): (r: seq<real>)
    ensures |r| == NumSlices
  {
    Interleave(SliceTimes(TR, NumSlices)).value
  }

  /** The value written under `SliceTiming`. */
  function Timing(): JsonValue {
    TimingJson(Interleaved())
  }

  /** Pair k of the acquisition order is slice k + 22 followed by slice k. */
  lemma SliceOrderAt(k: nat)
    requires k < NumSlices / 2
    ensures SliceOrder()[2 * k] == k + NumSlices / 2
    ensures SliceOrder()[2 * k + 1] == k
  {
    InterleaveAt<nat>(Range(NumSlices), k);
  }

  /** The acquisition order is a permutation of the slices 0 to 43: each occurs exactly once. */
  lemma SliceOrderPermutes()
    ensures multiset(SliceOrder()) == multiset(Range(NumSlices))
    ensures forall j :: 0 <= j < NumSlices ==> multiset(SliceOrder())[j] == 1
    ensures forall p, q :: 0 <= p < q < NumSlices ==> SliceOrder()[p] != SliceOrder()[q]
  {
    InterleavePermutes<nat>(Range(NumSlices));
    InterleaveIndicesBijective(NumSlices);
    forall j | 0 <= j < NumSlices
      ensures multiset(SliceOrder())[j] == 1
    {
      EverySliceOnce(NumSlices, j);
    }
  }

  /** Each written time is the start of the slice at that position of the order, and lies in [0, TR). */
  lemma InterleavedTimes()
    ensures forall p :: 0 <= p < NumSlices ==> Interleaved()[p] == SliceOrder()[p] as real * (TR / NumSlices as real)
    ensures forall p :: 0 <= p < NumSlices ==> 0.0 <= Interleaved()[p] < TR
    ensures Timing().JArray? && |Timing().items| == NumSlices
  {
    InterleavedTimesFollowIndices(TR, NumSlices);
    InterleavedTimesWithinTR(TR, NumSlices);
  }

  /** q is the corrected file of a run in a subject directory `top/<s>`. */
  ghost predicate IsOutput(t: Tree, top: Path, q: Path) {
    && q.Child? && q.parent.Child? && q.parent.parent == top
    && IsDir(t, q.parent)
    && IsCorrectedPath(q.parent, q, RunBound)
  }

  /** q is the corrected file of a run in a subject directory whose name is in done. */
  ghost predicate IsOutputIn(t: Tree, top: Path, done: set<string>, q: Path) {
    IsOutput(t, top, q) && q.parent.name in done
  }

  /** Between t and t', no path was removed, and only corrected files of subject directories were added or changed. */
  ghost predicate OnlyOutputsWritten(t: Tree, t': Tree, top: Path) {
    && (forall q :: q in t ==> q in t')
    && (forall q :: q in t' ==> q in t || IsOutput(t, top, q))
    && (forall q :: q in t && !IsOutput(t, top, q) ==> t'[q] == t[q])
  }

  /** Between t and t', no path was removed and only corrected files of the subjects in done were added or changed. */
  ghost predicate Frame(t: Tree, t': Tree, top: Path, done: set<string>) {
    && (forall q :: q in t ==> q in t')
    && (forall q :: q in t' ==> q in t || IsOutputIn(t, top, done, q))
    && (forall q :: q in t && !IsOutputIn(t, top, done, q) ==> t'[q] == t[q])
  }

  /** Run i of dir was corrected: t' holds its source in t with the new timing, at its corrected path. */
  ghost predicate WroteRun(t: Tree, t': Tree, dir: Path, i: nat, timing: JsonValue) {
    && RunCorrectable(t, dir, i)
    && Join(dir, CorrectedName(i)) in t'
    && t'[Join(dir, CorrectedName(i))] == JsonFile(WithTiming(t[Join(dir, RestName(i))].obj, timing))
  }

  /** Every run of every subject directory named in done was corrected. */
  ghost predicate AllWritten(t: Tree, t': Tree, top: Path, done: set<string>, timing: JsonValue) {
    forall s, i :: s in done && IsDir(t, Join(top, s)) && 1 <= i < RunBound ==> WroteRun(t, t', Join(top, s), i, timing)
  }

  /** A subject not yet visited still looks, in t', as it does in t. */
  lemma SubjectUntouched(t: Tree, t': Tree, top: Path, done: set<string>, s: string)
    requires Frame(t, t', top, done) && s !in done
    ensures IsDir(t', Join(top, s)) == IsDir(t, Join(top, s))
    ensures forall i :: RunCorrectable(t', Join(top, s), i) == RunCorrectable(t, Join(top, s), i)
    ensures forall i :: Join(Join(top, s), RestName(i)) in t ==> t'[Join(Join(top, s), RestName(i))] == t[Join(Join(top, s), RestName(i))]
  {
    var d := Join(top, s);
    assert !IsOutputIn(t, top, done, d);
    forall i
      ensures RunCorrectable(t', d, i) == RunCorrectable(t, d, i)
    {
      assert !IsOutputIn(t, top, done, Join(d, RestName(i)));
      assert !IsOutputIn(t, top, done, Join(d, CorrectedName(i)));
    }
    forall i | Join(d, RestName(i)) in t
      ensures t'[Join(d, RestName(i))] == t[Join(d, RestName(i))]
    {
      assert !IsOutputIn(t, top, done, Join(d, RestName(i)));
    }
  }

  /** Correcting runs 1 to k-1 of subject s keeps the frame, with s now among the subjects written. */
  lemma SubjectFrame(t: Tree, t': Tree, top: Path, done: set<string>, s: string, timing: JsonValue, k: nat)
    requires Frame(t, t', top, done) && s !in done
    requires IsDir(t, Join(top, s)) && k <= RunBound && Correctable(t', Join(top, s), k)
    ensures Frame(t, Corrected(t', Join(top, s), timing, k), top, done + {s})
  {
    var d := Join(top, s);
    var u := Corrected(t', d, timing, k);
    forall q | q in t
      ensures q in u
    {
      CorrectedKeys(t', d, timing, k, q);
    }
    forall q | q in u
      ensures q in t || IsOutputIn(t, top, done + {s}, q)
    {
      CorrectedKeys(t', d, timing, k, q);
      if IsCorrectedPath(d, q, k) {
        var i :| 1 <= i < k && q == Join(d, CorrectedName(i));
        assert IsCorrectedPath(d, q, RunBound);
      }
    }
    forall q | q in t && !IsOutputIn(t, top, done + {s}, q)
      ensures u[q] == t[q]
    {
      CorrectedElsewhere(t', d, timing, k, q);
    }
  }

  /** Correcting runs 1 to k-1 of subject s keeps the runs written for the other subjects. */
  lemma SubjectKeepsOthers(t: Tree, t': Tree, top: Path, done: set<string>, s: string, timing: JsonValue, k: nat)
    requires AllWritten(t, t', top, done, timing) && s !in done
    requires Correctable(t', Join(top, s), k)
    ensures AllWritten(t, Corrected(t', Join(top, s), timing, k), top, done, timing)
  {
    var d := Join(top, s);
    forall s', i | s' in done && IsDir(t, Join(top, s')) && 1 <= i < RunBound
      ensures WroteRun(t, Corrected(t', d, timing, k), Join(top, s'), i, timing)
    {
      var out := Join(Join(top, s'), CorrectedName(i));
      assert WroteRun(t, t', Join(top, s'), i, timing);
      assert !IsCorrectedPath(d, out, k);
      CorrectedElsewhere(t', d, timing, k, out);
    }
  }

  /** Correcting all runs of subject s writes every run of s. */
  lemma SubjectWritten(t: Tree, t': Tree, top: Path, done: set<string>, s: string, timing: JsonValue)
    requires Frame(t, t', top, done) && AllWritten(t, t', top, done, timing) && s !in done
    requires Correctable(t', Join(top, s), RunBound)
    ensures AllWritten(t, Corrected(t', Join(top, s), timing, RunBound), top, done + {s}, timing)
  {
    var d := Join(top, s);
    var u := Corrected(t', d, timing, RunBound);
    SubjectKeepsOthers(t, t', top, done, s, timing, RunBound);
    SubjectUntouched(t, t', top, done, s);
    forall s', i | s' in done + {s} && IsDir(t, Join(top, s')) && 1 <= i < RunBound
      ensures WroteRun(t, u, Join(top, s'), i, timing)
    {
      if s' == s {
        CorrectedRun(t', d, timing, RunBound, i);
      }
    }
  }

  /** The loop invariant: the frame holds, and every visited subject directory was fully corrected. */
  ghost predicate Progress(t: Tree, t': Tree, top: Path, done: set<string>, timing: JsonValue) {
    && Frame(t, t', top, done)
    && AllWritten(t, t', top, done, timing)
    && (forall s :: s in done && IsDir(t, Join(top, s)) ==> Correctable(t, Join(top, s), RunBound))
  }

  /** Skipping an entry that is not a directory keeps the invariant. */
  lemma SkipStep(t: Tree, t': Tree, top: Path, done: set<string>, s: string, timing: JsonValue)
    requires Progress(t, t', top, done, timing) && s !in done && !IsDir(t, Join(top, s))
    ensures Progress(t, t', top, done + {s}, timing)
  {
  }

  /** Correcting every run of a subject directory keeps the invariant. */
  lemma CorrectStep(t: Tree, t': Tree, top: Path, done: set<string>, s: string, timing: JsonValue)
    requires Progress(t, t', top, done, timing) && s !in done && IsDir(t, Join(top, s))
    requires Correctable(t', Join(top, s), RunBound)
    ensures Progress(t, Corrected(t', Join(top, s), timing, RunBound), top, done + {s}, timing)
  {
    SubjectUntouched(t, t', top, done, s);
    SubjectFrame(t, t', top, done, s, timing, RunBound);
    SubjectWritten(t, t', top, done, s, timing);
  }

  /** A run that cannot be corrected ends the script with only corrected files written. */
  lemma FailStep(t: Tree, t': Tree, top: Path, done: set<string>, s: string, timing: JsonValue, k: nat)
    requires Progress(t, t', top, done, timing) && s !in done && IsDir(t, Join(top, s))
    requires 1 <= k < RunBound && Correctable(t', Join(top, s), k) && !RunCorrectable(t', Join(top, s), k)
    ensures !Correctable(t, Join(top, s), RunBound)
    ensures OnlyOutputsWritten(t, Corrected(t', Join(top, s), timing, k), top)
  {
    SubjectUntouched(t, t', top, done, s);
    SubjectFrame(t, t', top, done, s, timing, k);
  }

  /** Once every entry is visited, every subject directory is corrected and nothing else changed. */
  lemma Finish(t: Tree, t': Tree, top: Path, names: set<string>, timing: JsonValue)
    requires Progress(t, t', top, names, timing)
    requires forall n :: n in names <==> Join(top, n) in t
    ensures forall s :: IsDir(t, Join(top, s)) ==> Correctable(t, Join(top, s), RunBound)
    ensures OnlyOutputsWritten(t, t', top)
    ensures forall s, i :: IsDir(t, Join(top, s)) && 1 <= i < RunBound ==> WroteRun(t, t', Join(top, s), i, timing)
  {
  }

  /**
   * One pass of the main loop: an entry that is not a directory is skipped,
   * a subject directory has its runs corrected, and a run that cannot be
   * corrected stops the script.
   */
  method CorrectSubject(ghost t: Tree, t0: Tree, top: Path, ghost done: set<string>, s: string, timing: JsonValue)
    returns (t': Tree, err: Option<IoError>)
    requires Progress(t, t0, top, done, timing) && s !in done
    ensures err.None? ==> Progress(t, t', top, done + {s}, timing)
    ensures err.Some? ==> IsDir(t, Join(top, s)) && !Correctable(t, Join(top, s), RunBound)
    ensures err.Some? ==> OnlyOutputsWritten(t, t', top)
  {
    var d := Join(top, s);
    SubjectUntouched(t, t0, top, done, s);
    if !IsDir(t0, d) {
      SkipStep(t, t0, top, done, s, timing);
      return t0, None;
    }
    t', err := CorrectRuns(t0, d, timing);
    if err.Some? {
      ghost var k :| 1 <= k < RunBound && Correctable(t0, d, k) && !RunCorrectable(t0, d, k) &&
        t' == Corrected(t0, d, timing, k);
      FailStep(t, t0, top, done, s, timing, k);
      return;
    }
    CorrectStep(t, t0, top, done, s, timing);
  }

  /** The script's main loop over the entries of the top directory, given their names. */
  method CorrectEntries(t: Tree, top: Path, names: set<string>, timing: JsonValue) returns (t': Tree, err: Option<IoError>)
    ensures err.None? ==> Progress(t, t', top, names, timing)
    ensures err.Some? ==> OnlyOutputsWritten(t, t', top)
    ensures err.Some? ==> exists s :: IsDir(t, Join(top, s)) && !Correctable(t, Join(top, s), RunBound)
  {
    t' := t;
    var pending := names;
    ghost var done: set<string> := {};
    while pending != {}
      invariant pending <= names && done == names - pending
      invariant Progress(t, t', top, done, timing)
      decreases |pending|
    {
      var s :| s in pending;
      pending := pending - {s};
      assert names - pending == done + {s};
      var e;
      t', e := CorrectSubject(t, t', top, done, s, timing);
      if e.Some? {
        return t', e;
      }
      done := done + {s};
    }
    return t', None;
  }

  /** The whole script: list the top directory, then correct every subject directory in it. */
  method Run(t: Tree, top: Path) returns (t': Tree, err: Option<IoError>)
    ensures err.None? <==> IsDir(t, top) && forall s :: IsDir(t, Join(top, s)) ==> Correctable(t, Join(top, s), RunBound)
    ensures OnlyOutputsWritten(t, t', top)
    ensures err.None? ==> forall s, i :: IsDir(t, Join(top, s)) && 1 <= i < RunBound ==> WroteRun(t, t', Join(top, s), i, Timing())
  {
    var timing := Timing();
    var listing := ListDir(t, top);
    if listing.Err? {
      return t, Some(listing.error);
    }
    t', err := CorrectEntries(t, top, listing.value, timing);
    if err.None? {
      Finish(t, t', top, listing.value, timing);
    }
  }
}
