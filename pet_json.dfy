/**
 * pet_json.py: for every subject (by position in a fixed list of
 * subject numbers) and every PET run 1 to 4, load the run's sidecar,
 * overwrite it with a table of fixed acquisition entries, and add the
 * fields taken from the first DICOM file of the run together with the
 * acquisition time of every DICOM file of the run.
 *
 * DICOM files are read by a function from file name to header (pydicom
 * is not part of this model), and the natural ordering of a directory
 * listing is a function from a set of names to a sequence (natsort is
 * not part of this model).
 */
module PetJson {
  import opened Base
  import opened Json
  import opened Numerals
  import opened Text
  import opened Store

  /** A DICOM attribute tag: group and element, written as four hexadecimal digits each. */
  datatype Tag = Tag(group: string, element: string)

  /** A DICOM header, reduced to the text of its attributes. */
  type DicomHeader = map<Tag, string>

  /** Series Time (0008,0031). */
  const SeriesTime: Tag := Tag("0008", "0031")

  /** Acquisition Date (0008,0022). */
  const AcquisitionDate: Tag := Tag("0008", "0022")

  /** Pixel Spacing (0028,0030): row and column spacing separated by a slash. */
  const PixelSpacing: Tag := Tag("0028", "0030")

  /** Slice Thickness (0018,0050). */
  const SliceThickness: Tag := Tag("0018", "0050")

  /** Acquisition Time (0008,0032). */
  const AcquisitionTime: Tag := Tag("0008", "0032")

  /** Why the script stops: a file it cannot open or parse, a DICOM file it cannot read, or a missing attribute. */
  datatype PetError =
    | IoFailure(io: IoError)
    | UnreadableDicom(name: string)
    | MissingTag(name: string, tag: Tag)

  /** The subject numbers, in the order the subjects are enumerated. */
  const SubjectIds: seq<nat> := [303, 305, 306, 308, 309, 310, 311, 312, 313, 314, 315, 316, 318,
                                 319, 322, 324, 325, 326, 327, 328, 329, 330, 331, 332, 333, 334, 335]

  /** The PET runs of each subject: `range(1, 5)`. */
  const RunBound: nat := 5

  /** The fixed entries describing the modality, the tracer and its administration. */
  const AdministrationEntries: JsonObject :=
    map[
      "Modality" := JStr("petmr"),
      "BodyPart" := JStr("brain"),
      "Unit" := JStr("Bq/ml"),
      "TracerName" := JStr("FDG"),
      "TracerRadLex" := JStr("RID11701"),
      "TracerSNOMED" := JStr("http://purl.bioontology.org/ontology/SNOMEDCT/764660008"),
      "TracerRadionuclide" := JStr("F18"),
      "TracerMolecularWeight" := JFloat(Finite(181.26)),
      "TracerMolecularWeightUnit" := JStr("g/mol"),
      "PharmaceuticalDoseUnit" := JStr("Bq/g"),
      "PharmaceuticalDoseRegimen" := JStr("IV infusion"),
      "PharmaceuticalDoseTime" := JArray([JInt(0), JInt(90)]),
      "PharmaceuticalDoseTimeUnit" := JStr("s"),
      "InjectedRadioactivityUnit" := JStr("MBq"),
      "InjectedMassPerWeightUnit" := JStr("MBq/mL"),
      "SpecificRadioactivityUnit" := JStr("MBq"),
      "ModeOfAdministration" := JStr("infusion")
    ]

  /** The fixed entries describing the infusion, the frames, the acquisition and the reconstruction. */
  const AcquisitionEntries: JsonObject :=
    map[
      "InfusionSpeed" := JFloat(Finite(0.01)),
      "InfusionSpeedUnit" := JStr("mL/s"),
      "InjectedVolumeUnit" := JStr("mL"),
      "FrameTimesStartUnit" := JStr("s"),
      "FrameDuration" := JInt(16),
      "FrameDurationUnit" := JStr("s"),
      "AcquisitionMode" := JStr("list mode"),
      "ImageDecayCorrected" := JBool(true),
      "DiameterFOV" := JInt(258),
      "DiameterFOVUnit" := JStr("mm"),
      "ImageOrientation" := JStr("3D"),
      "ReconMatrixSize" := JInt(344),
      "ReconMethodName" := JStr("3D Iterative"),
      "ReconMethodParameterLabels" := JArray([JStr("Subsets"), JStr("iterations"), JStr("zoom")]),
      "ReconMethodParameterUnit" := JArray([JStr("none"), JStr("none"), JStr("none")]),
      "ReconMethodParameterValues" := JArray([JInt(21), JInt(3), JInt(1)]),
      "ReconMethodImplementationVersion" := JStr("Syngo VB20 P"),
      "ReconFilterType" := JStr("Gaussian"),
      "ReconFilterSize" := JInt(4),
      "AttenuationCorrection" := JStr("DIXON Brain HiRes"),
      "ScatterFraction" := JFloat(Finite(44.32)),
      "DecayCorrectionFactor" := JFloat(Finite(1.07238))
    ]

  /** The fixed entries describing blood sampling. */
  const BloodEntries: JsonObject :=
    map[
      "PlasmaAvail" := JBool(false),
      "MetaboliteAvail" := JBool(false),
      "MetaboliteRecoveryCorrectionApplied" := JBool(false),
      "ContinuousBloodAvail" := JBool(false),
      "ContinuousBloodDispersionCorrected" := JBool(false),
      "BloodDiscreteAvail" := JBool(false),
      "BloodDiscreteDensity" := JStr("g/dl")
    ]

  /** The entries every sidecar receives, whatever it held before. */
  const FixedEntries: JsonObject := AdministrationEntries + AcquisitionEntries + BloodEntries

  /** The keys the first DICOM file of a run supplies. */
  const HeaderKeys: set<string> := {"ImageDecayCorrectionTime", "ScanDate", "ScanStart", "TimeZero", "ImageVoxelSize"}

  /** `js.update(fixed_entries)`: every fixed entry overrides, every other key keeps its value. */
  function MergeFixed(js: JsonObject): (r: JsonObject)
    ensures r.Keys == js.Keys + FixedEntries.Keys
    ensures forall k :: k in FixedEntries ==> r[k] == FixedEntries[k]
    ensures forall k :: k in js && k !in FixedEntries ==> r[k] == js[k]
  {
    js + FixedEntries
  }

  /** `ImageVoxelSize`: the slash-separated parts of the pixel spacing followed by the slice thickness. */
  function VoxelSize(spacing: string, thickness: string): (v: JsonValue)
    ensures v.JArray? && |v.items| == |Split(spacing, '/')| + 1
    ensures forall k :: 0 <= k < |Split(spacing, '/')| ==> v.items[k] == JStr(Split(spacing, '/')[k])
    ensures v.items[|Split(spacing, '/')|] == JStr(thickness)
  {
    var parts := Split(spacing, '/');
    JArray(seq(|parts|, k requires 0 <= k < |parts| => JStr(parts[k])) + [JStr(thickness)])
  }

  /**
   * The fields taken from the first DICOM file of a run, or the first
   * attribute found missing, in the order the script looks them up.
   */
  function HeaderFields(name: string, h: DicomHeader): (r: Result<JsonObject, PetError>)
    ensures r.Ok? <==> SeriesTime in h && AcquisitionDate in h && PixelSpacing in h && SliceThickness in h
    ensures r.Ok? ==> r.value.Keys == HeaderKeys
    ensures r.Err? ==> r.error.MissingTag? && r.error.name == name && r.error.tag !in h
    ensures SeriesTime !in h ==> r == Err(MissingTag(name, SeriesTime))
    ensures SeriesTime in h && AcquisitionDate !in h ==> r == Err(MissingTag(name, AcquisitionDate))
    ensures SeriesTime in h && AcquisitionDate in h && PixelSpacing !in h ==> r == Err(MissingTag(name, PixelSpacing))
    ensures SeriesTime in h && AcquisitionDate in h && PixelSpacing in h && SliceThickness !in h ==>
      r == Err(MissingTag(name, SliceThickness))
  {
    if SeriesTime !in h then Err(MissingTag(name, SeriesTime))
    else if AcquisitionDate !in h then Err(MissingTag(name, AcquisitionDate))
    else if PixelSpacing !in h then Err(MissingTag(name, PixelSpacing))
    else if SliceThickness !in h then Err(MissingTag(name, SliceThickness))
    else Ok(map[
      "ImageDecayCorrectionTime" := JStr(h[SeriesTime]),
      "ScanDate" := JStr(h[AcquisitionDate]),
      "ScanStart" := JStr(h[SeriesTime]),
      "TimeZero" := JStr(h[SeriesTime]),
      "ImageVoxelSize" := VoxelSize(h[PixelSpacing], h[SliceThickness])
    ])
  }

  /** What stops the loop at a DICOM file: it cannot be read, or an attribute looked up for it is missing. */
  function RecordFault(name: string, h: Option<DicomHeader>, first: bool): Option<PetError> {
    if h.None? then Some(UnreadableDicom(name))
    else if first && HeaderFields(name, h.value).Err? then Some(HeaderFields(name, h.value).error)
    else if AcquisitionTime !in h.value then Some(MissingTag(name, AcquisitionTime))
    else None
  }

  /** The fault of the earliest DICOM file from position k on that has one. */
  function FirstFault(dcms: seq<string>, read: string -> Option<DicomHeader>, k: nat): (r: Option<PetError>)
    ensures r.None? <==> forall j :: k <= j < |dcms| ==> RecordFault(dcms[j], read(dcms[j]), j == 0).None?
    ensures r.Some? ==> exists j :: (k <= j < |dcms| && r == RecordFault(dcms[j], read(dcms[j]), j == 0) &&
      forall i :: k <= i < j ==> RecordFault(dcms[i], read(dcms[i]), i == 0).None?)
    decreases |dcms| - k
  {
    if k >= |dcms| then None
    else
      var fault := RecordFault(dcms[k], read(dcms[k]), k == 0);
      if fault.Some? then fault else FirstFault(dcms, read, k + 1)
  }

  /** Every DICOM file of the run can be read and has the attributes looked up for it. */
  predicate Readable(dcms: seq<string>, read: string -> Option<DicomHeader>) {
    FirstFault(dcms, read, 0).None?
  }

  /** The header fields of a run: those of its first DICOM file, or none when it has no DICOM file. */
  function FirstRecordFields(dcms: seq<string>, read: string -> Option<DicomHeader>): JsonObject
    requires Readable(dcms, read)
  {
    if |dcms| == 0 then map[]
    else
      assert RecordFault(dcms[0], read(dcms[0]), true).None?;
      HeaderFields(dcms[0], read(dcms[0]).value).value
  }

  /** The acquisition time of every DICOM file of the run, in order. */
  function FrameTimes(dcms: seq<string>, read: string -> Option<DicomHeader>): seq<string>
    requires Readable(dcms, read)
  {
    seq(|dcms|, k requires 0 <= k < |dcms| =>
      assert RecordFault(dcms[k], read(dcms[k]), k == 0).None?;
      read(dcms[k]).value[AcquisitionTime])
  }

  /** Faults before k are none: the first fault from 0 is the first fault from k. */
  lemma {:induction false} FirstFaultFrom(dcms: seq<string>, read: string -> Option<DicomHeader>, k: nat)
    requires k <= |dcms|
    requires forall j :: 0 <= j < k ==> RecordFault(dcms[j], read(dcms[j]), j == 0).None?
    ensures FirstFault(dcms, read, 0) == FirstFault(dcms, read, k)
    decreases k
  {
    if k > 0 {
      FirstFaultFrom(dcms, read, k - 1);
      assert RecordFault(dcms[k - 1], read(dcms[k - 1]), k - 1 == 0).None?;
    }
  }

  /**
   * The loop over the DICOM files of one run, applied to the sidecar
   * already merged with the fixed entries: the header fields are set
   * while no frame time has been collected, and every file adds one frame time.
   */
  method AssembleSidecar(js: JsonObject, dcms: seq<string>, read: string -> Option<DicomHeader>)
    returns (sidecar: JsonObject, frameTimes: seq<string>, err: Option<PetError>)
    ensures err == FirstFault(dcms, read, 0)
    ensures err.None? ==> sidecar == js + FirstRecordFields(dcms, read) && frameTimes == FrameTimes(dcms, read)
  {
    sidecar := js;
    frameTimes := [];
    for k := 0 to |dcms|
      invariant |frameTimes| == k
      invariant forall j :: 0 <= j < k ==> RecordFault(dcms[j], read(dcms[j]), j == 0).None?
      invariant forall j :: 0 <= j < k ==> frameTimes[j] == read(dcms[j]).value[AcquisitionTime]
      invariant k == 0 ==> sidecar == js
      invariant k > 0 ==> sidecar == js + HeaderFields(dcms[0], read(dcms[0]).value).value
    {
      var name := dcms[k];
      var dcm := read(name);
      if dcm.None? {
        FirstFaultFrom(dcms, read, k);
        return sidecar, frameTimes, Some(UnreadableDicom(name));
      }
      var h := dcm.value;
      if |frameTimes| == 0 {
        if SeriesTime !in h {
          FirstFaultFrom(dcms, read, k);
          return sidecar, frameTimes, Some(MissingTag(name, SeriesTime));
        }
        sidecar := sidecar["ImageDecayCorrectionTime" := JStr(h[SeriesTime])];
        if AcquisitionDate !in h {
          FirstFaultFrom(dcms, read, k);
          return sidecar, frameTimes, Some(MissingTag(name, AcquisitionDate));
        }
        sidecar := sidecar["ScanDate" := JStr(h[AcquisitionDate])];
        sidecar := sidecar["ScanStart" := JStr(h[SeriesTime])];
        sidecar := sidecar["TimeZero" := JStr(h[SeriesTime])];
        if PixelSpacing !in h {
          FirstFaultFrom(dcms, read, k);
          return sidecar, frameTimes, Some(MissingTag(name, PixelSpacing));
        }
        var inPlaneRes := h[PixelSpacing];
        if SliceThickness !in h {
          FirstFaultFrom(dcms, read, k);
          return sidecar, frameTimes, Some(MissingTag(name, SliceThickness));
        }
        var sliceThick := h[SliceThickness];
        sidecar := sidecar["ImageVoxelSize" := VoxelSize(inPlaneRes, sliceThick)];
        assert sidecar == js + HeaderFields(name, h).value;
      }
      if AcquisitionTime !in h {
        FirstFaultFrom(dcms, read, k);
        return sidecar, frameTimes, Some(MissingTag(name, AcquisitionTime));
      }
      frameTimes := frameTimes + [h[AcquisitionTime]];
    }
    FirstFaultFrom(dcms, read, |dcms|);
    return sidecar, frameTimes, None;
  }

  /** The sidecar of a run: the loaded sidecar with the fixed entries, then the fields of the first DICOM file. */
  function Sidecar(js: JsonObject, dcms: seq<string>, read: string -> Option<DicomHeader>): JsonObject
    requires Readable(dcms, read)
  {
    MergeFixed(js) + FirstRecordFields(dcms, read)
  }

  /** No administration entry is a header field. */
  lemma AdministrationNotHeader()
    ensures AdministrationEntries.Keys !! HeaderKeys
  {
    assert "ImageDecayCorrectionTime" !in AdministrationEntries;
    assert "ScanDate" !in AdministrationEntries;
    assert "ScanStart" !in AdministrationEntries;
    assert "TimeZero" !in AdministrationEntries;
    assert "ImageVoxelSize" !in AdministrationEntries;
  }

  /** No acquisition entry is a header field. */
  lemma AcquisitionNotHeader()
    ensures AcquisitionEntries.Keys !! HeaderKeys
  {
    assert "ImageDecayCorrectionTime" !in AcquisitionEntries;
    assert "ScanDate" !in AcquisitionEntries;
    assert "ScanStart" !in AcquisitionEntries;
    assert "TimeZero" !in AcquisitionEntries;
    assert "ImageVoxelSize" !in AcquisitionEntries;
  }

  /** No blood-sampling entry is a header field. */
  lemma BloodNotHeader()
    ensures BloodEntries.Keys !! HeaderKeys
  {
  }

  /** No fixed entry is a header field, so the header fields never displace one. */
  lemma FixedAndHeaderDisjoint()
    ensures FixedEntries.Keys !! HeaderKeys
  {
    AdministrationNotHeader();
    AcquisitionNotHeader();
    BloodNotHeader();
    UnionDisjoint(AdministrationEntries, AcquisitionEntries, BloodEntries, HeaderKeys);
  }

  /** Three objects none of which has a key in keys make a union that has none either. */
  lemma UnionDisjoint(a: JsonObject, b: JsonObject, c: JsonObject, keys: set<string>)
    requires a.Keys !! keys && b.Keys !! keys && c.Keys !! keys
    ensures (a + b + c).Keys !! keys
  {
  }

  /** Every fixed entry survives the header fields. */
  lemma SidecarFixedEntries(js: JsonObject, dcms: seq<string>, read: string -> Option<DicomHeader>)
    requires Readable(dcms, read)
    ensures forall k :: k in FixedEntries ==> k in Sidecar(js, dcms, read) && Sidecar(js, dcms, read)[k] == FixedEntries[k]
  {
    FixedAndHeaderDisjoint();
    var extra := FirstRecordFields(dcms, read);
    if |dcms| > 0 {
      assert RecordFault(dcms[0], read(dcms[0]), true).None?;
    }
    assert extra.Keys <= HeaderKeys;
    LayerKeeps(MergeFixed(js), FixedEntries, extra);
  }

  /** Entries of fixed that extra does not name survive laying extra over an object that holds them. */
  lemma LayerKeeps(merged: JsonObject, fixed: JsonObject, extra: JsonObject)
    requires forall k :: k in fixed ==> k in merged && merged[k] == fixed[k]
    requires fixed.Keys !! extra.Keys
    ensures forall k :: k in fixed ==> k in merged + extra && (merged + extra)[k] == fixed[k]
  {
  }

  /** A key neither fixed nor taken from the header keeps the value it had. */
  lemma SidecarKeepsOthers(js: JsonObject, dcms: seq<string>, read: string -> Option<DicomHeader>)
    requires Readable(dcms, read)
    ensures forall k :: k in js && k !in FixedEntries && k !in HeaderKeys ==> k in Sidecar(js, dcms, read) && Sidecar(js, dcms, read)[k] == js[k]
  {
    if |dcms| > 0 {
      assert RecordFault(dcms[0], read(dcms[0]), true).None?;
    }
  }

  /** No key is removed; the fixed keys, and the header keys when there is a DICOM file, are added. */
  lemma SidecarKeys(js: JsonObject, dcms: seq<string>, read: string -> Option<DicomHeader>)
    requires Readable(dcms, read)
    ensures Sidecar(js, dcms, read).Keys == js.Keys + FixedEntries.Keys + (if |dcms| == 0 then {} else HeaderKeys)
  {
    if |dcms| > 0 {
      assert RecordFault(dcms[0], read(dcms[0]), true).None?;
    }
  }

  /** A run without DICOM files gets the fixed entries and nothing else. */
  lemma NoDicomMergeOnly(js: JsonObject, read: string -> Option<DicomHeader>)
    ensures Readable([], read) && Sidecar(js, [], read) == MergeFixed(js)
  {
  }

  /** The decay-correction time, scan start and time zero are all the series time of the first DICOM file. */
  lemma TimeFieldsAgree(js: JsonObject, dcms: seq<string>, read: string -> Option<DicomHeader>)
    requires Readable(dcms, read) && |dcms| > 0
    ensures read(dcms[0]).Some? && SeriesTime in read(dcms[0]).value
    ensures var s := Sidecar(js, dcms, read);
      && s["ImageDecayCorrectionTime"] == JStr(read(dcms[0]).value[SeriesTime])
      && s["ScanStart"] == s["ImageDecayCorrectionTime"]
      && s["TimeZero"] == s["ImageDecayCorrectionTime"]
      && s["ScanDate"] == JStr(read(dcms[0]).value[AcquisitionDate])
  {
    assert RecordFault(dcms[0], read(dcms[0]), true).None?;
    var h := read(dcms[0]).value;
    var f := FirstRecordFields(dcms, read);
    assert f == HeaderFields(dcms[0], h).value;
    assert f["ImageDecayCorrectionTime"] == f["ScanStart"] == f["TimeZero"] == JStr(h[SeriesTime]);
    assert f["ScanDate"] == JStr(h[AcquisitionDate]);
  }

  /** `ImageVoxelSize` has one entry per slash-separated part of the pixel spacing, plus the slice thickness. */
  lemma VoxelSizeLength(js: JsonObject, dcms: seq<string>, read: string -> Option<DicomHeader>)
    requires Readable(dcms, read) && |dcms| > 0
    ensures read(dcms[0]).Some? && PixelSpacing in read(dcms[0]).value && SliceThickness in read(dcms[0]).value
    ensures var v := Sidecar(js, dcms, read)["ImageVoxelSize"];
      && v.JArray?
      && |v.items| == Count(read(dcms[0]).value[PixelSpacing], '/') + 2
      && v.items[|v.items| - 1] == JStr(read(dcms[0]).value[SliceThickness])
  {
    assert RecordFault(dcms[0], read(dcms[0]), true).None?;
    SplitParts(read(dcms[0]).value[PixelSpacing], '/');
  }

  /** The header fields come from the first DICOM file only: later files cannot change them. */
  lemma HeaderFromFirstOnly(js: JsonObject, dcms: seq<string>, read: string -> Option<DicomHeader>,
                            read': string -> Option<DicomHeader>)
    requires Readable(dcms, read) && Readable(dcms, read')
    requires |dcms| > 0 ==> read(dcms[0]) == read'(dcms[0])
    ensures Sidecar(js, dcms, read) == Sidecar(js, dcms, read')
  {
  }

  /** One frame time per DICOM file, in the order of the files, each its acquisition time. */
  lemma FrameTimesPerFile(dcms: seq<string>, read: string -> Option<DicomHeader>)
    requires Readable(dcms, read)
    ensures |FrameTimes(dcms, read)| == |dcms|
    ensures forall k :: 0 <= k < |dcms| ==>
      read(dcms[k]).Some? && AcquisitionTime in read(dcms[k]).value && FrameTimes(dcms, read)[k] == read(dcms[k]).value[AcquisitionTime]
  {
    forall k | 0 <= k < |dcms|
      ensures read(dcms[k]).Some? && AcquisitionTime in read(dcms[k]).value
    {
      assert RecordFault(dcms[k], read(dcms[k]), k == 0).None?;
    }
  }

  /** The directory name of subject i: `sub-` and the position, zero-padded to two digits. */
  function SubjectDir(i: nat): string {
    "sub-" + Pad2(i)
  }

  /** The sidecar of run `run` of the subject at position i (not its subject number). */
  function SidecarPath(bids: Path, i: nat, run: nat): (p: Path)
    ensures p.Child? && p.parent.Child? && p.parent.name == "pet" && p.parent.parent.Child?
    ensures p.parent.parent == Join(bids, SubjectDir(i))
  {
    Join(Join(Join(bids, SubjectDir(i)), "pet"), SubjectDir(i) + "_task-rest_run-" + ShowNat(run) + "_pet.nii.gz")
  }

  /** The DICOM directory of run `run` of a subject, named by its subject number. */
  function DicomRunDir(dicomDir: Path, subjectId: nat, run: nat): Path {
    Join(Join(dicomDir, ShowNat(subjectId)), "pet-" + ShowNat(run))
  }

  /** The subject directory of a sidecar names the subject's position, which reads back from it. */
  lemma SidecarPathIndex(bids: Path, i: nat, run: nat)
    ensures var d := SidecarPath(bids, i, run).parent.parent.name;
      |d| >= 4 && d[..4] == "sub-" && ParseInt(d[4..]) == Some(i)
  {
    var d := SidecarPath(bids, i, run).parent.parent.name;
    assert d[4..] == Pad2(i);
    ParsePad2(i);
  }

  /** Different subjects or runs have different sidecars. */
  lemma SidecarPathInjective(bids: Path, i: nat, run: nat, i': nat, run': nat)
    ensures SidecarPath(bids, i, run) == SidecarPath(bids, i', run') ==> i == i' && run == run'
  {
    if SidecarPath(bids, i, run) == SidecarPath(bids, i', run') {
      assert SubjectDir(i)[4..] == Pad2(i) && SubjectDir(i')[4..] == Pad2(i');
      Pad2Injective(i, i');
      var a, b := ShowNat(run), ShowNat(run');
      var pre := SubjectDir(i) + "_task-rest_run-";
      var name := SidecarPath(bids, i, run).name;
      assert name == pre + a + "_pet.nii.gz";
      assert name == pre + b + "_pet.nii.gz";
      assert |a| == |b|;
      assert a == name[|pre|..|pre| + |a|];
      assert b == name[|pre|..|pre| + |b|];
      ShowNatInjective(run, run');
    }
  }

  /** The entries of a run's DICOM directory that the script reads: those whose name ends in `.dcm`. */
  function DicomNames(listing: set<string>): (names: set<string>)
    ensures forall d :: d in names <==> d in listing && EndsWith(d, ".dcm")
  {
    set d | d in listing && EndsWith(d, ".dcm")
  }

  /**
   * What `natsorted` promises of the listing it returns: each name of the
   * set exactly once (its numeric-aware order itself is left open).
   */
  ghost predicate NaturalOrder(natOrder: set<string> -> seq<string>) {
    forall names: set<string> :: |natOrder(names)| == |names| && forall x :: x in natOrder(names) <==> x in names
  }

  /** A sequence has at most as many distinct elements as positions. */
  lemma {:induction false} DistinctBound(s: seq<string>)
    ensures |set x | x in s| <= |s|
  {
    if |s| > 0 {
      var init := s[..|s| - 1];
      assert (set x | x in s) == (set x | x in init) + {s[|s| - 1]} by {
        assert s == init + [s[|s| - 1]];
      }
      DistinctBound(init);
    }
  }

  /** A sequence holding each name of a set, and no more positions than the set has names, repeats none. */
  lemma NoRepeats(s: seq<string>, names: set<string>)
    requires |s| == |names| && forall x :: x in s <==> x in names
    ensures forall a, b :: 0 <= a < b < |s| ==> s[a] != s[b]
  {
    forall a, b | 0 <= a < b < |s|
      ensures s[a] != s[b]
    {
      if s[a] == s[b] {
        var rest := s[..b] + s[b + 1..];
        assert s == s[..b] + [s[b]] + s[b + 1..];
        assert (set x | x in s) == (set x | x in rest) by {
          assert s[a] == rest[a];
        }
        assert (set x | x in s) == names;
        DistinctBound(rest);
        assert false;
      }
    }
  }

  /** The sidecar the script assembles for the subject at position i and run `run`, or why it stops there. */
  function RunSidecar(t: Tree, bids: Path, dicomDir: Path, read: string -> Option<DicomHeader>,
                      natOrder: set<string> -> seq<string>, i: nat, run: nat): Result<JsonObject, PetError>
    requires i < |SubjectIds|
  {
    var loaded := Load(t, SidecarPath(bids, i, run));
    if loaded.Err? then Err(IoFailure(loaded.error))
    else
      var listing := ListDir(t, DicomRunDir(dicomDir, SubjectIds[i], run));
      if listing.Err? then Err(IoFailure(listing.error))
      else
        var dcms := natOrder(DicomNames(listing.value));
        var fault := FirstFault(dcms, read, 0);
        if fault.Some? then Err(fault.value) else Ok(Sidecar(loaded.value, dcms, read))
  }

  /**
   * With natsort's contract, a sidecar assembled for a run reads every `.dcm`
   * file of the run's DICOM directory exactly once, and nothing else.
   */
  lemma RunSidecarReadsDicomFiles(t: Tree, bids: Path, dicomDir: Path, read: string -> Option<DicomHeader>,
                                  natOrder: set<string> -> seq<string>, i: nat, run: nat)
    requires NaturalOrder(natOrder)
    requires i < |SubjectIds| && RunSidecar(t, bids, dicomDir, read, natOrder, i, run).Ok?
    ensures var dir := DicomRunDir(dicomDir, SubjectIds[i], run);
      var dcms := natOrder(DicomNames(Children(t, dir)));
      && IsDir(t, dir)
      && Load(t, SidecarPath(bids, i, run)).Ok?
      && (forall d :: d in dcms <==> Join(dir, d) in t && EndsWith(d, ".dcm"))
      && (forall a, b :: 0 <= a < b < |dcms| ==> dcms[a] != dcms[b])
      && Readable(dcms, read)
      && RunSidecar(t, bids, dicomDir, read, natOrder, i, run).value == Sidecar(Load(t, SidecarPath(bids, i, run)).value, dcms, read)
  {
    var dir := DicomRunDir(dicomDir, SubjectIds[i], run);
    var names := DicomNames(Children(t, dir));
    NoRepeats(natOrder(names), names);
  }

  /** Every `.dcm` file of a run whose sidecar is assembled can be read and has an acquisition time. */
  lemma RunSidecarFrameTimes(t: Tree, bids: Path, dicomDir: Path, read: string -> Option<DicomHeader>,
                             natOrder: set<string> -> seq<string>, i: nat, run: nat)
    requires NaturalOrder(natOrder)
    requires i < |SubjectIds| && RunSidecar(t, bids, dicomDir, read, natOrder, i, run).Ok?
    ensures var dir := DicomRunDir(dicomDir, SubjectIds[i], run);
      var dcms := natOrder(DicomNames(Children(t, dir)));
      && |FrameTimes(dcms, read)| == |DicomNames(Children(t, dir))|
      && forall d :: Join(dir, d) in t && EndsWith(d, ".dcm") ==> read(d).Some? && AcquisitionTime in read(d).value
  {
    var dir := DicomRunDir(dicomDir, SubjectIds[i], run);
    var dcms := natOrder(DicomNames(Children(t, dir)));
    RunSidecarReadsDicomFiles(t, bids, dicomDir, read, natOrder, i, run);
    FrameTimesPerFile(dcms, read);
    forall d | Join(dir, d) in t && EndsWith(d, ".dcm")
      ensures read(d).Some? && AcquisitionTime in read(d).value
    {
      var k :| 0 <= k < |dcms| && dcms[k] == d;
    }
  }

  /** The job at position j of the script's nested loop: subject j / 4, run j % 4 + 1. */
  function Job(t: Tree, bids: Path, dicomDir: Path, read: string -> Option<DicomHeader>,
               natOrder: set<string> -> seq<string>, j: nat): Result<JsonObject, PetError>
    requires j < |SubjectIds| * (RunBound - 1)
  {
    RunSidecar(t, bids, dicomDir, read, natOrder, j / (RunBound - 1), j % (RunBound - 1) + 1)
  }

  /** The sidecars assembled so far are those of the first jobs, in order. */
  ghost predicate JobsDone(t: Tree, bids: Path, dicomDir: Path, read: string -> Option<DicomHeader>,
                           natOrder: set<string> -> seq<string>, sidecars: seq<JsonObject>) {
    && |sidecars| <= |SubjectIds| * (RunBound - 1)
    && forall j :: 0 <= j < |sidecars| ==> Job(t, bids, dicomDir, read, natOrder, j) == Ok(sidecars[j])
  }

  /** Appending the sidecar of the next job keeps JobsDone. */
  lemma JobsDoneAppend(t: Tree, bids: Path, dicomDir: Path, read: string -> Option<DicomHeader>,
                       natOrder: set<string> -> seq<string>, sidecars: seq<JsonObject>, sidecar: JsonObject)
    requires JobsDone(t, bids, dicomDir, read, natOrder, sidecars)
    requires |sidecars| < |SubjectIds| * (RunBound - 1)
    requires Job(t, bids, dicomDir, read, natOrder, |sidecars|) == Ok(sidecar)
    ensures JobsDone(t, bids, dicomDir, read, natOrder, sidecars + [sidecar])
  {
    var done := sidecars + [sidecar];
    forall j | 0 <= j < |done|
      ensures Job(t, bids, dicomDir, read, natOrder, j) == Ok(done[j])
    {
      if j < |sidecars| {
        assert done[j] == sidecars[j];
      }
    }
  }

  /** Job 4i + run - 1 is run `run` of the subject at position i. */
  lemma JobOf(t: Tree, bids: Path, dicomDir: Path, read: string -> Option<DicomHeader>,
              natOrder: set<string> -> seq<string>, i: nat, run: nat, j: nat)
    requires i < |SubjectIds| && 1 <= run < RunBound && j == i * (RunBound - 1) + run - 1
    ensures j < |SubjectIds| * (RunBound - 1)
    ensures Job(t, bids, dicomDir, read, natOrder, j) == RunSidecar(t, bids, dicomDir, read, natOrder, i, run)
  {
    assert j / 4 == i && j % 4 == run - 1;
  }

  /**
   * The script's nested loop over subjects and runs: the sidecars, in the
   * order they are assembled, or the first failure.
   */
  method Run(t: Tree, bids: Path, dicomDir: Path, read: string -> Option<DicomHeader>, natOrder: set<string> -> seq<string>)
    returns (sidecars: seq<JsonObject>, err: Option<PetError>)
    ensures err.None? ==> |sidecars| == |SubjectIds| * (RunBound - 1)
    ensures forall j :: 0 <= j < |sidecars| ==> j < |SubjectIds| * (RunBound - 1) && Job(t, bids, dicomDir, read, natOrder, j) == Ok(sidecars[j])
    ensures err.Some? ==> (|sidecars| < |SubjectIds| * (RunBound - 1) &&
      Job(t, bids, dicomDir, read, natOrder, |sidecars|) == Err(err.value))
  {
    sidecars := [];
    for i := 0 to |SubjectIds|
      invariant |sidecars| == i * (RunBound - 1)
      invariant JobsDone(t, bids, dicomDir, read, natOrder, sidecars)
    {
      for run := 1 to RunBound
        invariant |sidecars| == i * (RunBound - 1) + run - 1
        invariant JobsDone(t, bids, dicomDir, read, natOrder, sidecars)
      {
        JobOf(t, bids, dicomDir, read, natOrder, i, run, |sidecars|);
        ghost var expected := RunSidecar(t, bids, dicomDir, read, natOrder, i, run);
        var fpath := SidecarPath(bids, i, run);
        var loaded := Load(t, fpath);
        if loaded.Err? {
          assert expected == Err(IoFailure(loaded.error));
          return sidecars, Some(IoFailure(loaded.error));
        }
        var js := MergeFixed(loaded.value);
        var dicomRunDir := DicomRunDir(dicomDir, SubjectIds[i], run);
        var listing := ListDir(t, dicomRunDir);
        if listing.Err? {
          assert expected == Err(IoFailure(listing.error));
          return sidecars, Some(IoFailure(listing.error));
        }
        var dcms := natOrder(DicomNames(listing.value));
        var sidecar, frameTimes, e := AssembleSidecar(js, dcms, read);
        if e.Some? {
          assert expected == Err(e.value);
          return sidecars, e;
        }
        assert expected == Ok(sidecar);
        JobsDoneAppend(t, bids, dicomDir, read, natOrder, sidecars, sidecar);
        sidecars := sidecars + [sidecar];
      }
    }
    err := None;
  }
}
