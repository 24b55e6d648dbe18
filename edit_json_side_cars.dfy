/**
 * edit_json_side_cars.py: the same interleaved slice timing as
 * edit_bold_json.py, written into the sidecars of runs 1 to 6. The
 * loop runs once per entry of the top directory, but every pass reads
 * and writes the files directly in the top directory: the entry name
 * is never used.
 */
module EditJsonSideCars {
  import opened Base
  import opened Json
  import opened Store
  import opened SliceTiming
  import opened RestRuns
  import EditBoldJson

  /** Repetition time, in seconds. */
  const TR: real := 2.45

  /** Number of slices per volume. */
  const NumSlices: nat := 44

  /**
   * `interleaved`, built from this script's own constants. The script repeats
   * edit_bold_json.py's computation rather than sharing it; this copy mirrors
   * that, and `SameTimingAsBold` proves the two equal.
   */
  function Interleaved(): (r: seq<real>)
    ensures |r| == NumSlices
  {
    Interleave(SliceTimes(TR, NumSlices)).value
  }

  /** The value written under `SliceTiming`. */
  function Timing(): JsonValue {
    TimingJson(Interleaved())
  }

  /** Both slice-timing scripts write the same list, entry by entry. */
  lemma SameTimingAsBold()
    ensures |Interleaved()| == |EditBoldJson.Interleaved()| == 44
    ensures forall p :: 0 <= p < NumSlices ==> Interleaved()[p] == EditBoldJson.Interleaved()[p]
    ensures Timing() == EditBoldJson.Timing()
  {
  }

  /** The list has the pair layout of the other script: pair k is slice k + 22, then slice k, all in [0, TR). */
  lemma InterleavedLayout(k: nat)
    requires k < NumSlices / 2
    ensures Interleaved()[2 * k] == (k + NumSlices / 2) as real * (TR / NumSlices as real)
    ensures Interleaved()[2 * k + 1] == k as real * (TR / NumSlices as real)
    ensures 0.0 <= Interleaved()[2 * k] < TR && 0.0 <= Interleaved()[2 * k + 1] < TR
  {
    InterleaveAt(SliceTimes(TR, NumSlices), k);
    SliceTimesWithinTR(TR, NumSlices);
  }

  /** The slice indices behind the list are a permutation of 0 to 43. */
  lemma SliceOrderPermutes()
    ensures multiset(Interleave<nat>(Range(NumSlices)).value) == multiset(Range(NumSlices))
    ensures forall p :: 0 <= p < NumSlices ==> Interleaved()[p] == Interleave<nat>(Range(NumSlices)).value[p] as real * (TR / NumSlices as real)
  {
    InterleavePermutes<nat>(Range(NumSlices));
    InterleavedTimesFollowIndices(TR, NumSlices);
  }

  /**
   * The script's loop. With no entry under top nothing is done; otherwise
   * the first pass corrects the runs of top and every later pass rewrites
   * the same files with the same content.
   */
  method Run(t: Tree, top: Path) returns (t': Tree, err: Option<IoError>)
    ensures err.Some? && !IsDir(t, top) ==> t' == t
    ensures IsDir(t, top) && Children(t, top) == {} ==> err.None? && t' == t
    ensures IsDir(t, top) && Children(t, top) != {} ==>
      (err.None? <==> Correctable(t, top, RunBound)) &&
      (err.None? ==> t' == Corrected(t, top, Timing(), RunBound))
    ensures !IsDir(t, top) ==> err.Some?
    ensures err.Some? && IsDir(t, top) ==> exists k :: (1 <= k < RunBound && Correctable(t, top, k) &&
      !RunCorrectable(t, top, k) && t' == Corrected(t, top, Timing(), k))
  {
    var timing := Timing();
    var listing := ListDir(t, top);
    if listing.Err? {
      return t, Some(listing.error);
    }
    t' := t;
    var pending := listing.value;
    while pending != {}
      invariant pending <= listing.value
      invariant pending == listing.value ==> t' == t
      invariant pending != listing.value ==> Correctable(t, top, RunBound) && t' == Corrected(t, top, timing, RunBound)
      decreases |pending|
    {
      var s :| s in pending;
      var before := t';
      var e;
      t', e := CorrectRuns(before, top, timing);
      if e.Some? {
        if pending != listing.value {
          CorrectedTwice(t, top, timing);
          assert false;
        }
        return t', e;
      }
      if pending != listing.value {
        CorrectedTwice(t, top, timing);
      }
      pending := pending - {s};
    }
    return t', None;
  }
}
