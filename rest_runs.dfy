/**
 * The per-directory step common to edit_bold_json.py and
 * edit_json_side_cars.py: for runs 1 to 6, read `rest-<i>.json`, set its
 * `SliceTiming` field and write the result to `rest-<i>-corrected.json`
 * in the same directory.
 */
module RestRuns {
  import opened Base
  import opened Json
  import opened Numerals
  import opened Store

  /** `range(1, 7)`: the runs are 1 to 6; the loop bound is one past the last run. */
  const RunBound: nat := 7

  /** `'rest-{}.json'.format(i)` */
  function RestName(i: nat): string {
    "rest-" + ShowNat(i) + ".json"
  }

  /** `'rest-{}-corrected.json'.format(i)` */
  function CorrectedName(i: nat): string {
    "rest-" + ShowNat(i) + "-corrected.json"
  }

  /** No corrected file name is a source file name, so a source file is never overwritten. */
  lemma RestNeverCorrected(i: nat, j: nat)
    ensures RestName(i) != CorrectedName(j)
  {
    var a, b := ShowNat(i), ShowNat(j);
    if |RestName(i)| == |CorrectedName(j)| {
      assert |a| == |b| + 10;
      var k := 5 + |b|;
      assert CorrectedName(j)[k] == '-';
      assert RestName(i)[k] == a[|b|];
      assert IsDigit(a[|b|]);
    }
  }

  /** Different runs are written to different files. */
  lemma CorrectedNameInjective(i: nat, j: nat)
    ensures CorrectedName(i) == CorrectedName(j) ==> i == j
  {
    if CorrectedName(i) == CorrectedName(j) {
      var a, b := ShowNat(i), ShowNat(j);
      assert |a| == |b|;
      assert a == CorrectedName(i)[5..5 + |a|];
      assert b == CorrectedName(j)[5..5 + |b|];
      ShowNatInjective(i, j);
    }
  }

  /** Different runs are read from different files. */
  lemma RestNameInjective(i: nat, j: nat)
    ensures RestName(i) == RestName(j) ==> i == j
  {
    if RestName(i) == RestName(j) {
      var a, b := ShowNat(i), ShowNat(j);
      assert |a| == |b|;
      assert a == RestName(i)[5..5 + |a|];
      assert b == RestName(j)[5..5 + |b|];
      ShowNatInjective(i, j);
    }
  }

  /** The interleaved slice times as the JSON list stored under `SliceTiming`. */
  function TimingJson(times: seq<real>): (v: JsonValue)
    ensures v.JArray? && |v.items| == |times|
    ensures forall p :: 0 <= p < |times| ==> v.items[p] == JFloat(Finite(times[p]))
  {
    JArray(seq(|times|, p requires 0 <= p < |times| => JFloat(Finite(times[p]))))
  }

  /** `js["SliceTiming"] = interleaved` */
  function WithTiming(js: JsonObject, timing: JsonValue): JsonObject {
    js["SliceTiming" := timing]
  }

  /** The corrected sidecar differs from its source only in the `SliceTiming` key. */
  lemma WithTimingChangesOnlySliceTiming(js: JsonObject, timing: JsonValue)
    ensures WithTiming(js, timing).Keys == js.Keys + {"SliceTiming"}
    ensures WithTiming(js, timing)["SliceTiming"] == timing
    ensures forall k :: k in js && k != "SliceTiming" ==> WithTiming(js, timing)[k] == js[k]
  {
  }

  /** Run i of dir can be corrected: its source holds JSON and its corrected file can be opened for writing. */
  predicate RunCorrectable(t: Tree, dir: Path, i: nat) {
    && Join(dir, RestName(i)) in t
    && t[Join(dir, RestName(i))].JsonFile?
    && IsDir(t, dir)
    && !IsDir(t, Join(dir, CorrectedName(i)))
  }

  /** Runs 1 to upto-1 of dir can all be corrected. */
  predicate Correctable(t: Tree, dir: Path, upto: nat) {
    forall i :: 1 <= i < upto ==> RunCorrectable(t, dir, i)
  }

  /** t after runs 1 to upto-1 of dir have been corrected: each corrected file is its source with the new timing. */
  function Corrected(t: Tree, dir: Path, timing: JsonValue, upto: nat): Tree
    requires Correctable(t, dir, upto)
    decreases upto
  {
    if upto <= 1 then t
    else
      var i := upto - 1;
      assert RunCorrectable(t, dir, i);
      Corrected(t, dir, timing, i)[Join(dir, CorrectedName(i)) := JsonFile(WithTiming(t[Join(dir, RestName(i))].obj, timing))]
  }

  /** q is the corrected file of one of the runs 1 to upto-1 of dir. */
  predicate IsCorrectedPath(dir: Path, q: Path, upto: nat) {
    exists i :: 1 <= i < upto && q == Join(dir, CorrectedName(i))
  }

  /** Corrected adds exactly the corrected files to the paths of t. */
  lemma {:induction false} CorrectedKeys(t: Tree, dir: Path, timing: JsonValue, upto: nat, q: Path)
    requires Correctable(t, dir, upto)
    ensures q in Corrected(t, dir, timing, upto) <==> q in t || IsCorrectedPath(dir, q, upto)
    decreases upto
  {
    if upto > 1 {
      var k := upto - 1;
      CorrectedKeys(t, dir, timing, k, q);
      if IsCorrectedPath(dir, q, upto) && q != Join(dir, CorrectedName(k)) {
        var j :| 1 <= j < upto && q == Join(dir, CorrectedName(j));
        assert IsCorrectedPath(dir, q, k);
      }
      if q == Join(dir, CorrectedName(k)) {
        assert IsCorrectedPath(dir, q, upto);
      }
    }
  }

  /** Corrected leaves every other path as it was in t. */
  lemma {:induction false} CorrectedElsewhere(t: Tree, dir: Path, timing: JsonValue, upto: nat, q: Path)
    requires Correctable(t, dir, upto)
    requires q in t && !IsCorrectedPath(dir, q, upto)
    ensures q in Corrected(t, dir, timing, upto) && Corrected(t, dir, timing, upto)[q] == t[q]
    decreases upto
  {
    if upto > 1 {
      var k := upto - 1;
      assert q != Join(dir, CorrectedName(k));
      CorrectedElsewhere(t, dir, timing, k, q);
    }
  }

  /** Corrected writes, for each run i, the source of run i with the new timing into the corrected file of run i. */
  lemma {:induction false} CorrectedRun(t: Tree, dir: Path, timing: JsonValue, upto: nat, i: nat)
    requires Correctable(t, dir, upto) && 1 <= i < upto
    ensures RunCorrectable(t, dir, i)
    ensures Join(dir, CorrectedName(i)) in Corrected(t, dir, timing, upto)
    ensures Corrected(t, dir, timing, upto)[Join(dir, CorrectedName(i))] == JsonFile(WithTiming(t[Join(dir, RestName(i))].obj, timing))
    decreases upto
  {
    var k := upto - 1;
    if i < k {
      CorrectedRun(t, dir, timing, k, i);
      CorrectedNameInjective(i, k);
    }
  }

  /** The source files are never among the corrected files. */
  lemma RestIsNotCorrected(dir: Path, i: nat, upto: nat)
    ensures !IsCorrectedPath(dir, Join(dir, RestName(i)), upto)
  {
    forall j | 1 <= j < upto
      ensures Join(dir, RestName(i)) != Join(dir, CorrectedName(j))
    {
      RestNeverCorrected(i, j);
    }
  }

  /** Correcting some runs does not change whether any run can be corrected. */
  lemma CorrectableAfter(t: Tree, dir: Path, timing: JsonValue, upto: nat, i: nat)
    requires Correctable(t, dir, upto)
    ensures RunCorrectable(Corrected(t, dir, timing, upto), dir, i) == RunCorrectable(t, dir, i)
  {
    var u := Corrected(t, dir, timing, upto);
    var rest, out := Join(dir, RestName(i)), Join(dir, CorrectedName(i));
    RestIsNotCorrected(dir, i, upto);
    CorrectedKeys(t, dir, timing, upto, rest);
    if rest in t {
      CorrectedElsewhere(t, dir, timing, upto, rest);
    }
    assert !IsCorrectedPath(dir, dir, upto);
    CorrectedKeys(t, dir, timing, upto, dir);
    if dir in t {
      CorrectedElsewhere(t, dir, timing, upto, dir);
    }
    if 1 <= i < upto {
      CorrectedRun(t, dir, timing, upto, i);
    } else {
      if IsCorrectedPath(dir, out, upto) {
        var j :| 1 <= j < upto && out == Join(dir, CorrectedName(j));
        CorrectedNameInjective(i, j);
      }
      CorrectedKeys(t, dir, timing, upto, out);
      if out in t {
        CorrectedElsewhere(t, dir, timing, upto, out);
      }
    }
  }

  /** One more loop iteration: run i can be corrected in the partly corrected tree exactly when it can in t, and correcting it reads its untouched source. */
  lemma CorrectedStep(t: Tree, dir: Path, timing: JsonValue, i: nat)
    requires 1 <= i && Correctable(t, dir, i)
    ensures RunCorrectable(Corrected(t, dir, timing, i), dir, i) == RunCorrectable(t, dir, i)
    ensures RunCorrectable(t, dir, i) ==> Correctable(t, dir, i + 1)
    ensures RunCorrectable(t, dir, i) ==>
      var u := Corrected(t, dir, timing, i);
      Corrected(t, dir, timing, i + 1) == u[Join(dir, CorrectedName(i)) := JsonFile(WithTiming(u[Join(dir, RestName(i))].obj, timing))]
  {
    CorrectableAfter(t, dir, timing, i, i);
    if RunCorrectable(t, dir, i) {
      RestIsNotCorrected(dir, i, i);
      CorrectedElsewhere(t, dir, timing, i, Join(dir, RestName(i)));
    }
  }

  /** The inner loop `for i in range(1, 7)` over one directory: stops at the first run that cannot be read or written. */
  method CorrectRuns(t: Tree, dir: Path, timing: JsonValue) returns (t': Tree, err: Option<IoError>)
    ensures err.None? <==> Correctable(t, dir, RunBound)
    ensures err.None? ==> t' == Corrected(t, dir, timing, RunBound)
    ensures err.Some? ==> exists k :: (1 <= k < RunBound && Correctable(t, dir, k) && !RunCorrectable(t, dir, k) &&
      t' == Corrected(t, dir, timing, k))
  {
    t' := t;
    for i := 1 to RunBound
      invariant Correctable(t, dir, i)
      invariant t' == Corrected(t, dir, timing, i)
    {
      CorrectedStep(t, dir, timing, i);
      var loaded := Load(t', Join(dir, RestName(i)));
      if loaded.Err? {
        assert !RunCorrectable(t, dir, i);
        return t', Some(loaded.error);
      }
      var js := WithTiming(loaded.value, timing);
      var dumped := Dump(t', Join(dir, CorrectedName(i)), js);
      if dumped.Err? {
        assert !RunCorrectable(t, dir, i);
        return t', Some(dumped.error);
      }
      t' := dumped.value;
    }
    return t', None;
  }

  /** Correcting a directory a second time rewrites the same files with the same content: the tree does not change further. */
  lemma CorrectedTwice(t: Tree, dir: Path, timing: JsonValue)
    requires Correctable(t, dir, RunBound)
    ensures Correctable(Corrected(t, dir, timing, RunBound), dir, RunBound)
    ensures Corrected(Corrected(t, dir, timing, RunBound), dir, timing, RunBound) == Corrected(t, dir, timing, RunBound)
  {
    var u := Corrected(t, dir, timing, RunBound);
    forall i | 1 <= i < RunBound
      ensures RunCorrectable(u, dir, i)
    {
      CorrectableAfter(t, dir, timing, RunBound, i);
    }
    CorrectedFixed(t, dir, timing, RunBound);
  }

  lemma {:induction false} CorrectedFixed(t: Tree, dir: Path, timing: JsonValue, upto: nat)
    requires Correctable(t, dir, RunBound) && upto <= RunBound
    requires Correctable(Corrected(t, dir, timing, RunBound), dir, upto)
    ensures Corrected(Corrected(t, dir, timing, RunBound), dir, timing, upto) == Corrected(t, dir, timing, RunBound)
    decreases upto
  {
    var u := Corrected(t, dir, timing, RunBound);
    if upto > 1 {
      var k := upto - 1;
      CorrectedFixed(t, dir, timing, k);
      var rest, out := Join(dir, RestName(k)), Join(dir, CorrectedName(k));
      CorrectedRun(t, dir, timing, RunBound, k);
      RestIsNotCorrected(dir, k, RunBound);
      CorrectedElsewhere(t, dir, timing, RunBound, rest);
      assert u[rest] == t[rest];
      assert u[out] == JsonFile(WithTiming(t[rest].obj, timing));
      assert u[out := u[out]] == u;
    }
  }
}
