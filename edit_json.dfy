/**
 * edit_json.py: rewrite chosen fields of the JSON sidecars of one
 * category and contrast, across the subject directories of a dataset.
 * Each `--edit FIELD VAL` pair becomes an Edit; its value text is
 * coerced int -> float -> string and written over the field, in the
 * order the pairs were given.
 */
module EditJson {
  import opened Base
  import opened Json
  import opened Numerals
  import opened Text
  import opened Store

  /** One `--edit FIELD VAL` argument. */
  datatype Edit = Edit(field: string, value: string)

  datatype EditOutcome = NoEdits | Completed | Failed(error: IoError)

  // ---------------------------------------------------------------------------
  // Value coercion: int(val), else float(val), else the text itself
  // ---------------------------------------------------------------------------

  /** ASCII lower case, enough for Python's case-insensitive "inf" and "nan". */
  function Lower(s: string): (r: string)
    ensures |r| == |s|
  {
    seq(|s|, i requires 0 <= i < |s| => if 'A' <= s[i] <= 'Z' then (s[i] as int + 32) as char else s[i])
  }

  /** The first position of c in s, or None when c does not occur. */
  function IndexOf(s: string, c: char): (r: Option<nat>)
    ensures r.None? ==> c !in s
    ensures r.Some? ==> r.value < |s| && s[r.value] == c
    ensures r.Some? ==> forall j :: 0 <= j < r.value ==> s[j] != c
    decreases |s|
  {
    if s == [] then None
    else if s[0] == c then Some(0)
    else match IndexOf(s[1..], c)
      case None => None
      case Some(k) => Some(k + 1)
  }

  /** 10 raised to an integer power, as an exact real. */
  function Pow10(e: int): (r: real)
    ensures r > 0.0
    decreases if e < 0 then -e else e
  {
    if e == 0 then 1.0 else if e > 0 then 10.0 * Pow10(e - 1) else Pow10(e + 1) / 10.0
  }

  /** A decimal mantissa: "ddd", "ddd.", ".ddd" or "ddd.ddd", with at least one digit. */
  function ParseMantissa(m: string): Option<real> {
    match IndexOf(m, '.')
    case None =>
      if |m| > 0 && AllDigits(m) then Some(DigitsValue(m) as real) else None
    case Some(d) =>
      var whole, fraction := m[..d], m[d + 1..];
      if (|whole| > 0 || |fraction| > 0) && AllDigits(whole) && AllDigits(fraction) then
        Some(DigitsValue(whole + fraction) as real * Pow10(-|fraction|))
      else None
  }

  /** An unsigned float literal: infinity, nan, or a mantissa with an optional exponent `e[sign]digits`. */
  function ParseUnsignedFloat(body: string): Option<Float> {
    var lower := Lower(body);
    if lower == "inf" || lower == "infinity" then Some(Infinity(false))
    else if lower == "nan" then Some(NaN)
    else match IndexOf(lower, 'e')
      case None =>
        (match ParseMantissa(body)
         case None => None
         case Some(r) => Some(Finite(r)))
      case Some(k) =>
        match (ParseMantissa(body[..k]), ParseInt(body[k + 1..]))
        case (Some(r), Some(e)) => Some(Finite(r * Pow10(e)))
        case _ => None
  }

  /** `float(text)`; None where Python raises ValueError. */
  function ParseFloat(text: string): Option<Float> {
    if |text| > 0 && (text[0] == '-' || text[0] == '+') then
      match ParseUnsignedFloat(text[1..])
      case None => None
      case Some(f) =>
        if text[0] == '+' then Some(f)
        else match f
          case Finite(r) => Some(Finite(-r))
          case Infinity(_) => Some(Infinity(true))
          case NaN => Some(NaN)
    else ParseUnsignedFloat(text)
  }

  /** The try/except cascade of the edit loop: int, else float, else the unchanged text. */
  function Coerce(text: string): JsonValue {
    match ParseInt(text)
    case Some(n) => JInt(n)
    case None =>
      match ParseFloat(text)
      case Some(f) => JFloat(f)
      case None => JStr(text)
  }

  lemma LowerDigits(s: string)
    requires AllDigits(s)
    ensures Lower(s) == s
  {
  }

  lemma AllDigitsNoDot(s: string, c: char)
    requires AllDigits(s) && !IsDigit(c)
    ensures c !in s
  {
  }

  /** Every text the int branch accepts is a float literal of the same value, so trying int first loses nothing. */
  lemma IntLiteralIsFloatLiteral(text: string)
    requires ParseInt(text).Some?
    ensures ParseFloat(text) == Some(Finite(ParseInt(text).value as real))
  {
    var signed := |text| > 0 && (text[0] == '-' || text[0] == '+');
    var body := if signed then text[1..] else text;
    assert AllDigits(body) && |body| > 0;
    LowerDigits(body);
    assert Lower(body) != "inf" && Lower(body) != "infinity" && Lower(body) != "nan" by {
      assert !IsDigit('i') && !IsDigit('n');
    }
    AllDigitsNoDot(body, 'e');
    AllDigitsNoDot(body, '.');
    assert ParseMantissa(body) == Some(DigitsValue(body) as real);
    assert ParseUnsignedFloat(body) == Some(Finite(DigitsValue(body) as real));
  }

  /** The value is kept as text exactly when neither int() nor float() accepts it. */
  lemma CoerceKeepsTextIff(text: string)
    ensures Coerce(text) == JStr(text) <==> ParseFloat(text).None?
  {
    if ParseInt(text).Some? {
      IntLiteralIsFloatLiteral(text);
    }
  }

  /** A value written by `str(n)` comes back as the integer n. */
  lemma CoerceShowInt(n: int)
    ensures Coerce(ShowInt(n)) == JInt(n)
  {
    ParseShowInt(n);
  }

  /** An integer literal is stored as an integer: "3" becomes 3. */
  lemma CoerceIntExample()
    ensures Coerce("3") == JInt(3)
  {
    assert DigitsValue("3") == 3;
  }

  /** A decimal literal is stored as a float: "3.5" becomes 3.5. */
  lemma CoerceFloatExample()
    ensures Coerce("3.5") == JFloat(Finite(3.5))
  {
    assert ParseInt("3.5").None? by { assert !IsDigit("3.5"[1]); }
    assert IndexOf("3.5", '.') == Some(1);
    assert "3.5"[..1] + "3.5"[2..] == "35";
    assert DigitsValue("35") == 35 by { assert "35"[..1] == "3"; }
    assert Pow10(-1) == 0.1;
    assert Lower("3.5") == "3.5";
    assert IndexOf("3.5", 'e').None?;
    assert ParseMantissa("3.5") == Some(3.5);
  }

  /** Text that is no number is stored unchanged: "abc" stays "abc". */
  lemma CoerceTextExample()
    ensures Coerce("abc") == JStr("abc")
  {
    assert ParseInt("abc").None? by { assert !IsDigit("abc"[0]); }
    assert Lower("abc") == "abc";
    assert IndexOf("abc", 'e').None?;
    assert IndexOf("abc", '.').None?;
    assert ParseMantissa("abc").None? by { assert !IsDigit("abc"[0]); }
  }

  // ---------------------------------------------------------------------------
  // Applying the edit list to one sidecar
  // ---------------------------------------------------------------------------

  /** The fields the edit list names. */
  function Fields(edits: seq<Edit>): set<string> {
    set k | 0 <= k < |edits| :: edits[k].field
  }

  /** One edit after coercion: the key written and the value written to it. */
  datatype Assignment = Assignment(key: string, value: JsonValue)

  /** The edit list with each value coerced, in the order given. */
  function Assignments(edits: seq<Edit>): (r: seq<Assignment>)
    ensures |r| == |edits|
    ensures forall k :: 0 <= k < |edits| ==> r[k] == Assignment(edits[k].field, Coerce(edits[k].value))
  {
    seq(|edits|, k requires 0 <= k < |edits| => Assignment(edits[k].field, Coerce(edits[k].value)))
  }

  /** The keys a list of assignments writes. */
  function Keys(asg: seq<Assignment>): set<string> {
    set k | 0 <= k < |asg| :: asg[k].key
  }

  /** Performs the assignments in order on an empty object: the last write to a key wins. */
  function Assigned(asg: seq<Assignment>): (o: JsonObject)
    ensures o.Keys == Keys(asg)
    decreases |asg|
  {
    if asg == [] then map[]
    else
      var n := |asg| - 1;
      assert Keys(asg) == Keys(asg[..n]) + {asg[n].key} by {
        assert forall k :: 0 <= k < n ==> asg[..n][k] == asg[k];
      }
      Assigned(asg[..n])[asg[n].key := asg[n].value]
  }

  /** An assignment survives unless a later one writes the same key. */
  lemma {:induction false} LastAssignmentWins(asg: seq<Assignment>, i: nat)
    requires i < |asg|
    requires forall j :: i < j < |asg| ==> asg[j].key != asg[i].key
    ensures Assigned(asg)[asg[i].key] == asg[i].value
    decreases |asg|
  {
    var n := |asg| - 1;
    var prefix := asg[..n];
    if i < n {
      assert prefix[i] == asg[i];
      assert forall j :: i < j < n ==> prefix[j].key != prefix[i].key by {
        assert forall j :: i < j < n ==> prefix[j] == asg[j];
      }
      LastAssignmentWins(prefix, i);
    }
  }

  /** For each named field, the coerced value of the last edit naming it. */
  function Overrides(edits: seq<Edit>): (o: JsonObject)
    ensures o.Keys == Fields(edits)
  {
    var asg := Assignments(edits);
    assert Keys(asg) == Fields(edits) by {
      assert forall k :: 0 <= k < |edits| ==> asg[k].key == edits[k].field;
    }
    Assigned(asg)
  }

  /** Later edits win: a field ends up with the coerced value of the last edit that names it. */
  lemma LastEditWins(edits: seq<Edit>, i: nat)
    requires i < |edits|
    requires forall j :: i < j < |edits| ==> edits[j].field != edits[i].field
    ensures Overrides(edits)[edits[i].field] == Coerce(edits[i].value)
  {
    var asg := Assignments(edits);
    assert forall j :: i < j < |asg| ==> asg[j].key != asg[i].key;
    LastAssignmentWins(asg, i);
  }

  /** Performing one more assignment on top of `js` overwrites one more key. */
  lemma AssignedStep(js: JsonObject, asg: seq<Assignment>, i: nat)
    requires i < |asg|
    ensures js + Assigned(asg[..i + 1]) == (js + Assigned(asg[..i]))[asg[i].key := asg[i].value]
  {
    assert asg[..i + 1][..i] == asg[..i];
    var o := Assigned(asg[..i]);
    assert Assigned(asg[..i + 1]) == o[asg[i].key := asg[i].value];
    assert js + o[asg[i].key := asg[i].value] == (js + o)[asg[i].key := asg[i].value];
  }

  /** The loop of edit_json.py over `args.edit`, overwriting one key per edit. */
  method ApplyEdits(js: JsonObject, edits: seq<Edit>) returns (r: JsonObject)
    ensures r == js + Overrides(edits)
    ensures r.Keys == js.Keys + Fields(edits)
    ensures forall k :: k in js && k !in Fields(edits) ==> r[k] == js[k]
  {
    ghost var asg := Assignments(edits);
    r := js;
    var i := 0;
    while i < |edits|
      invariant 0 <= i <= |edits|
      invariant r == js + Assigned(asg[..i])
    {
      var val := Coerce(edits[i].value);
      AssignedStep(js, asg, i);
      r := r[edits[i].field := val];
      i := i + 1;
    }
    assert asg[..i] == asg;
  }

  /** Applying the same edit list twice gives what applying it once gives. */
  lemma EditsIdempotent(js: JsonObject, edits: seq<Edit>)
    ensures (js + Overrides(edits)) + Overrides(edits) == js + Overrides(edits)
  {
  }

  // ---------------------------------------------------------------------------
  // Which directories and files are edited
  // ---------------------------------------------------------------------------

  /** The subject directories visited: as written, the names that do NOT start with "sub-". */
  predicate VisitsSubject(name: string) {
    !StartsWith(name, "sub-")
  }

  /** A file is edited when `splitext` gives the extension ".json" and the base name ends with the contrast label. */
  predicate SelectsFile(name: string, contrast: string) {
    var (base, ext) := SplitExt(name);
    ext == ".json" && EndsWith(base, contrast)
  }

  /** The selection in plain terms: the name is `<base>.json`, the base is not only dots, and it ends with the contrast. */
  lemma SelectsFileIff(name: string, contrast: string)
    ensures SelectsFile(name, contrast) <==>
      && EndsWith(name, ".json")
      && (exists k :: 0 <= k < |name| - 5 && name[k] != '.')
      && EndsWith(name[..|name| - 5], contrast)
  {
    var (base, ext) := SplitExt(name);
    if SelectsFile(name, contrast) {
      var d := LastIndexOf(name, '.').value;
      assert ext == name[d..] && base == name[..d];
    }
    if EndsWith(name, ".json") {
      var n := |name|;
      assert name[n - 5] == '.';
      assert name[n - 4..] == "json";
      var li := LastIndexOf(name, '.');
      assert li.Some?;
      var d := li.value;
      assert forall j :: d < j < n ==> name[j] != '.' by {
        assert forall j :: d < j < n ==> name[j] == name[d + 1..][j - (d + 1)];
      }
      assert forall j :: n - 4 <= j < n ==> name[j] != '.' by {
        assert forall j :: n - 4 <= j < n ==> name[j] == name[n - 4..][j - (n - 4)];
      }
      assert d == n - 5;
    }
  }

  /**
   * The sidecars the script rewrites: `top/<subject>/<category>/<name>`,
   * where the subject is listed under top and visited, and the name is selected.
   */
  predicate IsTarget(t: Tree, top: Path, category: string, contrast: string, p: Path) {
    && p.Child? && p.parent.Child? && p.parent.parent.Child?
    && p.parent.parent.parent == top
    && p.parent.parent in t
    && VisitsSubject(p.parent.parent.name)
    && p.parent.name == category
    && SelectsFile(p.name, contrast)
  }

  /** The entry was left alone, or it is a JSON file with the edits applied. */
  predicate KeptOrEdited(before: Entry, after: Entry, edits: seq<Edit>) {
    after == before || (before.JsonFile? && after == JsonFile(before.obj + Overrides(edits)))
  }

  /** Editing an already edited file changes nothing, so KeptOrEdited composes. */
  lemma KeptOrEditedTransitive(a: Entry, b: Entry, c: Entry, edits: seq<Edit>)
    requires KeptOrEdited(a, b, edits) && KeptOrEdited(b, c, edits)
    ensures KeptOrEdited(a, c, edits)
  {
    if a.JsonFile? {
      EditsIdempotent(a.obj, edits);
    }
  }

  /** Between t and t', only selected files directly in dir changed, each by having the edits applied. */
  ghost predicate EditedWithin(t: Tree, t': Tree, dir: Path, contrast: string, edits: seq<Edit>) {
    && t'.Keys == t.Keys
    && (forall p :: p in t ==> KeptOrEdited(t[p], t'[p], edits))
    && (forall p :: p in t && t'[p] != t[p] ==> p.Child? && p.parent == dir && SelectsFile(p.name, contrast))
  }

  /** Every selected name of names is, in t', the JSON file of t with the edits applied. */
  ghost predicate EditedAll(t: Tree, t': Tree, dir: Path, names: set<string>, contrast: string, edits: seq<Edit>) {
    forall f :: f in names && SelectsFile(f, contrast) ==>
      && Join(dir, f) in t && Join(dir, f) in t'
      && t[Join(dir, f)].JsonFile?
      && t'[Join(dir, f)] == JsonFile(t[Join(dir, f)].obj + Overrides(edits))
  }

  /** One pass of the inner loop body keeps EditedWithin and adds f to the names already edited. */
  lemma EditFileStep(t: Tree, before: Tree, dir: Path, f: string, done: set<string>, contrast: string, edits: seq<Edit>)
    requires EditedWithin(t, before, dir, contrast, edits)
    requires EditedAll(t, before, dir, done, contrast, edits)
    requires SelectsFile(f, contrast)
    requires Join(dir, f) in before && before[Join(dir, f)].JsonFile?
    ensures
      var p := Join(dir, f);
      var after := before[p := JsonFile(before[p].obj + Overrides(edits))];
      EditedWithin(t, after, dir, contrast, edits) && EditedAll(t, after, dir, done + {f}, contrast, edits)
  {
    var p := Join(dir, f);
    var after := before[p := JsonFile(before[p].obj + Overrides(edits))];
    KeptOrEditedTransitive(t[p], before[p], after[p], edits);
  }

  /**
   * The inner loop can run to its end: dir is a directory (else `os.listdir` raises) and every
   * selected name in it is a JSON file (else `open` or `json.load` raises).
   */
  ghost predicate Editable(t: Tree, dir: Path, contrast: string) {
    && IsDir(t, dir)
    && forall f :: Join(dir, f) in t && SelectsFile(f, contrast) ==> t[Join(dir, f)].JsonFile?
  }

  /** Edits keep directories directories and JSON files JSON files, so they never change whether a directory is editable. */
  lemma EditablePreserved(t: Tree, t': Tree, dir: Path, contrast: string, edits: seq<Edit>)
    requires t'.Keys == t.Keys && forall p :: p in t ==> KeptOrEdited(t[p], t'[p], edits)
    ensures Editable(t', dir, contrast) == Editable(t, dir, contrast)
  {
    assert dir in t ==> KeptOrEdited(t[dir], t'[dir], edits);
    forall f | Join(dir, f) in t
      ensures t'[Join(dir, f)].JsonFile? == t[Join(dir, f)].JsonFile?
    {
      assert KeptOrEdited(t[Join(dir, f)], t'[Join(dir, f)], edits);
    }
  }

  /** Edits every selected JSON file directly in dir (the inner loop over `os.listdir(cat_dpath)`). */
  method EditCategory(t: Tree, dir: Path, contrast: string, edits: seq<Edit>) returns (t': Tree, err: Option<IoError>)
    ensures EditedWithin(t, t', dir, contrast, edits)
    ensures err.None? <==> Editable(t, dir, contrast)
    ensures err.None? ==> EditedAll(t, t', dir, Children(t, dir), contrast, edits)
  {
    t' := t;
    var listing := ListDir(t, dir);
    if listing.Err? {
      return t, Some(listing.error);
    }
    var pending := listing.value;
    while pending != {}
      invariant pending <= listing.value
      invariant EditedWithin(t, t', dir, contrast, edits)
      invariant EditedAll(t, t', dir, listing.value - pending, contrast, edits)
      invariant forall f :: f in pending ==> Join(dir, f) in t && t'[Join(dir, f)] == t[Join(dir, f)]
      decreases |pending|
    {
      var f :| f in pending;
      ghost var done := listing.value - pending;
      pending := pending - {f};
      assert listing.value - pending == done + {f};
      if !SelectsFile(f, contrast) {
        continue;
      }
      var p := Join(dir, f);
      var loaded := Load(t', p);
      if loaded.Err? {
        assert !t[p].JsonFile?;
        return t', Some(loaded.error);
      }
      var js := ApplyEdits(loaded.value, edits);
      // The file was just read from the directory, so opening it for writing cannot fail.
      assert KeptOrEdited(t[dir], t'[dir], edits);
      var dumped := Dump(t', p, js);
      EditFileStep(t, t', dir, f, done, contrast, edits);
      t' := dumped.value;
    }
    assert Editable(t, dir, contrast) by {
      forall f | Join(dir, f) in t && SelectsFile(f, contrast)
        ensures t[Join(dir, f)].JsonFile?
      {
        assert f in listing.value;
      }
    }
    return t', None;
  }

  /** Between t and t', only target sidecars changed, each by having the edits applied. */
  ghost predicate EditedTargets(t: Tree, t': Tree, top: Path, category: string, contrast: string, edits: seq<Edit>) {
    && t'.Keys == t.Keys
    && (forall p :: p in t ==> KeptOrEdited(t[p], t'[p], edits))
    && (forall p :: p in t && t'[p] != t[p] ==> IsTarget(t, top, category, contrast, p))
  }

  /** Every target sidecar of a subject in done holds, in t', its edited content. */
  ghost predicate SubjectsEdited(t: Tree, t': Tree, top: Path, category: string, contrast: string, edits: seq<Edit>, done: set<string>) {
    forall p :: p in t && IsTarget(t, top, category, contrast, p) && p.parent.parent.name in done ==>
      p in t' && t[p].JsonFile? && t'[p] == JsonFile(t[p].obj + Overrides(edits))
  }

  /** One pass of the outer loop body, over subject s, changes only target sidecars of s. */
  lemma EditSubjectFrame(t: Tree, before: Tree, after: Tree, top: Path, s: string, category: string, contrast: string,
                         edits: seq<Edit>)
    requires EditedTargets(t, before, top, category, contrast, edits)
    requires Join(top, s) in t && VisitsSubject(s)
    requires EditedWithin(before, after, Join(Join(top, s), category), contrast, edits)
    ensures EditedTargets(t, after, top, category, contrast, edits)
  {
    forall p | p in t
      ensures KeptOrEdited(t[p], after[p], edits)
      ensures after[p] != t[p] ==> IsTarget(t, top, category, contrast, p)
    {
      KeptOrEditedTransitive(t[p], before[p], after[p], edits);
    }
  }

  /** A file the edits were applied to, after one that was kept or edited, holds the edited original. */
  lemma EditedAfterKept(a: Entry, b: Entry, c: Entry, edits: seq<Edit>)
    requires KeptOrEdited(a, b, edits)
    requires b.JsonFile? && c == JsonFile(b.obj + Overrides(edits))
    ensures a.JsonFile? && c == JsonFile(a.obj + Overrides(edits))
  {
    KeptOrEditedTransitive(a, b, c, edits);
  }

  /** The selected names listed in dir are, after a completed inner loop, edited. */
  lemma EditedAllAt(before: Tree, after: Tree, dir: Path, contrast: string, edits: seq<Edit>, p: Path)
    requires EditedAll(before, after, dir, Children(before, dir), contrast, edits)
    requires p in before && p.Child? && p.parent == dir && SelectsFile(p.name, contrast)
    ensures p in after && before[p].JsonFile? && after[p] == JsonFile(before[p].obj + Overrides(edits))
  {
    assert Join(dir, p.name) == p;
    assert p.name in Children(before, dir);
  }

  /** A pass over subject s leaves the target sidecars of earlier subjects as they were after their own pass. */
  lemma EditSubjectKeepsEarlier(t: Tree, before: Tree, after: Tree, top: Path, s: string, category: string, contrast: string,
                                edits: seq<Edit>, done: set<string>)
    requires EditedTargets(t, before, top, category, contrast, edits)
    requires SubjectsEdited(t, before, top, category, contrast, edits, done)
    requires EditedWithin(before, after, Join(Join(top, s), category), contrast, edits)
    ensures SubjectsEdited(t, after, top, category, contrast, edits, done)
  {
    forall p | p in t && IsTarget(t, top, category, contrast, p) && p.parent.parent.name in done
      ensures p in after && t[p].JsonFile? && after[p] == JsonFile(t[p].obj + Overrides(edits))
    {
      KeptOrEditedTransitive(t[p], before[p], after[p], edits);
    }
  }

  /** A completed pass over subject s leaves every target sidecar of s edited. */
  lemma EditSubjectEditsOwn(t: Tree, before: Tree, after: Tree, top: Path, s: string, category: string, contrast: string,
                            edits: seq<Edit>)
    requires EditedTargets(t, before, top, category, contrast, edits)
    requires EditedWithin(before, after, Join(Join(top, s), category), contrast, edits)
    requires EditedAll(before, after, Join(Join(top, s), category), Children(before, Join(Join(top, s), category)), contrast, edits)
    ensures SubjectsEdited(t, after, top, category, contrast, edits, {s})
  {
    var dir := Join(Join(top, s), category);
    forall p | p in t && IsTarget(t, top, category, contrast, p) && p.parent.parent.name in {s}
      ensures p in after && t[p].JsonFile? && after[p] == JsonFile(t[p].obj + Overrides(edits))
    {
      EditedAllAt(before, after, dir, contrast, edits, p);
      EditedAfterKept(t[p], before[p], after[p], edits);
    }
  }

  /** The targets edited for two sets of subjects are the targets edited for their union. */
  lemma SubjectsEditedUnion(t: Tree, t': Tree, top: Path, category: string, contrast: string, edits: seq<Edit>,
                            a: set<string>, b: set<string>)
    requires SubjectsEdited(t, t', top, category, contrast, edits, a)
    requires SubjectsEdited(t, t', top, category, contrast, edits, b)
    ensures SubjectsEdited(t, t', top, category, contrast, edits, a + b)
  {
  }

  /** A completed pass over subject s extends the subjects whose targets are edited from done to done + {s}. */
  lemma EditSubjectStep(t: Tree, before: Tree, after: Tree, top: Path, s: string, category: string, contrast: string,
                        edits: seq<Edit>, done: set<string>)
    requires EditedTargets(t, before, top, category, contrast, edits)
    requires SubjectsEdited(t, before, top, category, contrast, edits, done)
    requires EditedWithin(before, after, Join(Join(top, s), category), contrast, edits)
    requires EditedAll(before, after, Join(Join(top, s), category), Children(before, Join(Join(top, s), category)), contrast, edits)
    ensures SubjectsEdited(t, after, top, category, contrast, edits, done + {s})
  {
    EditSubjectKeepsEarlier(t, before, after, top, s, category, contrast, edits, done);
    EditSubjectEditsOwn(t, before, after, top, s, category, contrast, edits);
    SubjectsEditedUnion(t, after, top, category, contrast, edits, done, {s});
  }

  /** The whole script can run to its end: top is a directory and the category directory of every visited subject is editable. */
  ghost predicate RunEditable(t: Tree, top: Path, category: string, contrast: string) {
    && IsDir(t, top)
    && forall s :: Join(top, s) in t && VisitsSubject(s) ==> Editable(t, Join(Join(top, s), category), contrast)
  }

  /**
   * As written, a regular file of the dataset whose name does not start with
   * `sub-` (such as `dataset_description.json`) is visited as a subject, and
   * listing its category directory fails, so the run cannot complete.
   */
  lemma VisitedFileFails(t: Tree, top: Path, s: string, category: string, contrast: string)
    requires Join(top, s) in t && !t[Join(top, s)].Dir? && VisitsSubject(s)
    requires Join(Join(top, s), category) !in t
    ensures ListDir(t, Join(Join(top, s), category)).Err?
    ensures ListDir(t, Join(Join(top, s), category)).error.NotADirectory?
    ensures !RunEditable(t, top, category, contrast)
  {
    ListDirBelowFile(t, Join(top, s), category);
  }

  /** The category directories of the subjects in done are editable. */
  ghost predicate SubjectsEditable(t: Tree, top: Path, category: string, contrast: string, done: set<string>) {
    forall s :: s in done ==> Editable(t, Join(Join(top, s), category), contrast)
  }

  /** A completed pass over subject s shows its category directory editable in the original tree. */
  lemma EditableStep(t: Tree, before: Tree, top: Path, s: string, category: string, contrast: string,
                     edits: seq<Edit>, done: set<string>)
    requires EditedTargets(t, before, top, category, contrast, edits)
    requires SubjectsEditable(t, top, category, contrast, done)
    requires Editable(before, Join(Join(top, s), category), contrast)
    ensures SubjectsEditable(t, top, category, contrast, done + {s})
  {
    EditablePreserved(t, before, Join(Join(top, s), category), contrast, edits);
  }

  /** A failed pass over a visited subject shows that the script cannot run to its end on the original tree. */
  lemma NotEditableStep(t: Tree, before: Tree, top: Path, s: string, category: string, contrast: string, edits: seq<Edit>)
    requires EditedTargets(t, before, top, category, contrast, edits)
    requires Join(top, s) in t && VisitsSubject(s)
    requires !Editable(before, Join(Join(top, s), category), contrast)
    ensures !RunEditable(t, top, category, contrast)
  {
    EditablePreserved(t, before, Join(Join(top, s), category), contrast, edits);
  }

  /** Once every visited subject passed, the whole run was editable. */
  lemma AllSubjectsEditable(t: Tree, top: Path, category: string, contrast: string, subjects: set<string>)
    requires IsDir(t, top)
    requires forall s :: Join(top, s) in t && VisitsSubject(s) ==> s in subjects
    requires SubjectsEditable(t, top, category, contrast, subjects)
    ensures RunEditable(t, top, category, contrast)
  {
  }

  /** The whole script: exit when no edit is given, else edit the selected sidecars of every visited subject. */
  method EditRun(t: Tree, top: Path, category: string, contrast: string, edits: seq<Edit>)
    returns (t': Tree, outcome: EditOutcome)
    ensures edits == [] <==> outcome == NoEdits
    ensures outcome == Completed <==> edits != [] && RunEditable(t, top, category, contrast)
    ensures edits == [] ==> t' == t
    ensures t'.Keys == t.Keys
    ensures forall p :: p in t ==> KeptOrEdited(t[p], t'[p], edits)
    ensures forall p :: p in t && t'[p] != t[p] ==> IsTarget(t, top, category, contrast, p)
    ensures outcome == Completed ==> forall p :: p in t && IsTarget(t, top, category, contrast, p) ==>
      t[p].JsonFile? && t'[p] == JsonFile(t[p].obj + Overrides(edits))
  {
    if edits == [] {
      return t, NoEdits;
    }
    var listing := ListDir(t, top);
    if listing.Err? {
      return t, Failed(listing.error);
    }
    var subjects := set s | s in listing.value && VisitsSubject(s);
    t' := t;
    var pending := subjects;
    while pending != {}
      invariant pending <= subjects
      invariant EditedTargets(t, t', top, category, contrast, edits)
      invariant SubjectsEdited(t, t', top, category, contrast, edits, subjects - pending)
      invariant SubjectsEditable(t, top, category, contrast, subjects - pending)
      decreases |pending|
    {
      var s :| s in pending;
      ghost var done := subjects - pending;
      pending := pending - {s};
      assert subjects - pending == done + {s};
      ghost var before := t';
      var err;
      t', err := EditCategory(t', Join(Join(top, s), category), contrast, edits);
      EditSubjectFrame(t, before, t', top, s, category, contrast, edits);
      if err.Some? {
        NotEditableStep(t, before, top, s, category, contrast, edits);
        return t', Failed(err.value);
      }
      EditSubjectStep(t, before, t', top, s, category, contrast, edits, done);
      EditableStep(t, before, top, s, category, contrast, edits, done);
    }
    forall p | p in t && IsTarget(t, top, category, contrast, p)
      ensures p.parent.parent.name in subjects
    {
      assert p.parent.parent.name in listing.value;
    }
    AllSubjectsEditable(t, top, category, contrast, subjects);
    outcome := Completed;
  }
}
