/**
 * The handful of Python string operations the scripts rely on:
 * `str.startswith`, `str.endswith`, `str.split(sep)` and
 * `os.path.splitext` applied to a bare file name.
 */
module Text {
  import opened Base

  /** `s.startswith(prefix)` */
  predicate StartsWith(s: string, prefix: string) {
    |prefix| <= |s| && s[..|prefix|] == prefix
  }

  /** `s.endswith(suffix)`; every string ends with "". */
  predicate EndsWith(s: string, suffix: string) {
    |suffix| <= |s| && s[|s| - |suffix|..] == suffix
  }

  /** The number of occurrences of c in s. */
  function Count(s: string, c: char): nat {
    if s == [] then 0 else (if s[0] == c then 1 else 0) + Count(s[1..], c)
  }

  /** `s.split(sep)` for a one-character separator: every occurrence cuts, empty parts included. */
  function Split(s: string, sep: char): (parts: seq<string>)
    ensures |parts| >= 1
    decreases |s|
  {
    if s == [] then [""]
    else
      var rest := Split(s[1..], sep);
      if s[0] == sep then [""] + rest else [[s[0]] + rest[0]] + rest[1..]
  }

  /** `sep.join(parts)` */
  function JoinWith(parts: seq<string>, sep: char): string
    requires |parts| >= 1
    decreases |parts|
  {
    if |parts| == 1 then parts[0] else parts[0] + [sep] + JoinWith(parts[1..], sep)
  }

  /** Joining the parts again restores the text: nothing is lost by the split. */
  lemma {:induction false} JoinSplit(s: string, sep: char)
    ensures JoinWith(Split(s, sep), sep) == s
    decreases |s|
  {
    if s != [] {
      JoinSplit(s[1..], sep);
      var rest := Split(s[1..], sep);
      if s[0] != sep {
        var parts := Split(s, sep);
        if |rest| == 1 {
          assert parts == [[s[0]] + rest[0]];
        } else {
          assert parts[1..] == rest[1..];
        }
      }
    }
  }

  /** The split yields one part more than there are separators, and no part contains the separator. */
  lemma {:induction false} SplitParts(s: string, sep: char)
    ensures |Split(s, sep)| == Count(s, sep) + 1
    ensures forall k :: 0 <= k < |Split(s, sep)| ==> sep !in Split(s, sep)[k]
    decreases |s|
  {
    if s != [] {
      SplitParts(s[1..], sep);
    }
  }

  /** Splitting a join of separator-free parts gives the parts back. */
  lemma {:induction false} SplitJoin(parts: seq<string>, sep: char)
    requires |parts| >= 1
    requires forall k :: 0 <= k < |parts| ==> sep !in parts[k]
    ensures Split(JoinWith(parts, sep), sep) == parts
    decreases |parts|, |parts[0]|
  {
    if parts[0] != [] {
      var p := parts[0];
      var tail := [p[1..]] + parts[1..];
      SplitJoin(tail, sep);
      assert JoinWith(parts, sep) == [p[0]] + JoinWith(tail, sep) by {
        if |parts| > 1 {
          assert tail[1..] == parts[1..];
        }
      }
      assert [p[0]] + tail[0] == p;
    } else if |parts| > 1 {
      SplitJoin(parts[1..], sep);
      assert JoinWith(parts, sep) == [sep] + JoinWith(parts[1..], sep);
    }
  }

  /** The index of the last occurrence of c, if any. */
  function LastIndexOf(s: string, c: char): (r: Option<nat>)
    ensures r.None? ==> c !in s
    ensures r.Some? ==> r.value < |s| && s[r.value] == c && c !in s[r.value + 1..]
    decreases |s|
  {
    if s == [] then None
    else if s[|s| - 1] == c then Some(|s| - 1)
    else LastIndexOf(s[..|s| - 1], c)
  }

  /**
   * `os.path.splitext(name)` for a name without path separators: the
   * extension runs from the last dot to the end, unless every character
   * before that dot is itself a dot (".json" has no extension).
   */
  function SplitExt(name: string): (string, string) {
    match LastIndexOf(name, '.')
    case None => (name, "")
    case Some(d) =>
      if exists k :: 0 <= k < d && name[k] != '.' then (name[..d], name[d..]) else (name, "")
  }

  /** The two parts of `splitext` always concatenate back to the name. */
  lemma SplitExtRejoins(name: string)
    ensures SplitExt(name).0 + SplitExt(name).1 == name
  {
    match LastIndexOf(name, '.')
    case None =>
    case Some(d) =>
      assert name[..d] + name[d..] == name;
  }
}
