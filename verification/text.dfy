/** Character-separated splitting of strings, as done by Python's `str.split(sep)`
    with a one-character separator, together with its inverse `Join`. */
module Text {
  import opened Wrappers

  /** Position of the first occurrence of `c` in `s`, if any. */
  function IndexOf(s: string, c: char): (r: Option<nat>)
    ensures r.None? <==> c !in s
    ensures r.Some? ==> r.value < |s| && s[r.value] == c
    ensures r.Some? ==> forall j :: 0 <= j < r.value ==> s[j] != c
  {
    if |s| == 0 then None
    else if s[0] == c then Some(0)
    else
      match IndexOf(s[1..], c)
      case None => None
      case Some(i) => Some(i + 1)
  }

  /** Glues `parts` together with one `sep` between consecutive parts. */
  function Join(parts: seq<string>, sep: char): string
    requires |parts| >= 1
  {
    if |parts| == 1 then parts[0] else parts[0] + [sep] + Join(parts[1..], sep)
  }

  /** Splits `s` at every occurrence of `sep`. Like Python, the result is never
      empty: the empty string splits to one empty part, and two adjacent
      separators give an empty part between them. */
  function Split(s: string, sep: char): (parts: seq<string>)
    ensures |parts| >= 1
    ensures |parts| >= 2 <==> sep in s
    ensures forall i :: 0 <= i < |parts| ==> sep !in parts[i]
    decreases |s|
  {
    match IndexOf(s, sep)
    case None => [s]
    case Some(i) =>
      var rest := Split(s[i + 1..], sep);
      assert ([s[..i]] + rest)[1..] == rest;
      [s[..i]] + rest
  }

  /** Joining the parts of a split gives back the string. */
  lemma {:induction false} JoinSplit(s: string, sep: char)
    ensures Join(Split(s, sep), sep) == s
    decreases |s|
  {
    match IndexOf(s, sep)
    case None =>
      assert Split(s, sep) == [s];
    case Some(i) =>
      var rest := s[i + 1..];
      var restParts := Split(rest, sep);
      SplitStep(s, sep, i);
      var parts := [s[..i]] + restParts;
      assert parts[0] == s[..i] && parts[1..] == restParts;
      assert Join(parts, sep) == s[..i] + [sep] + Join(restParts, sep);
      JoinSplit(rest, sep);
      assert s == s[..i] + [sep] + rest;
  }

  /** Any occurrence of `c` preceded by none is the one `IndexOf` finds. */
  lemma IndexOfUnique(s: string, c: char, i: nat)
    requires i < |s| && s[i] == c
    requires forall j :: 0 <= j < i ==> s[j] != c
    ensures IndexOf(s, c) == Some(i)
  {
    assert s[i] in s;
  }

  /** The first occurrence of `c` is found right after a prefix free of `c`. */
  lemma IndexOfAfterPrefix(p: string, c: char, t: string)
    requires c !in p
    ensures IndexOf(p + [c] + t, c) == Some(|p|)
  {
    var s := p + [c] + t;
    forall j | 0 <= j < |p|
      ensures s[j] != c
    {
      assert s[j] == p[j];
    }
    IndexOfUnique(s, c, |p|);
  }

  /** Splitting undoes joining when no part contains the separator, so together
      with `JoinSplit` the two functions are inverses of each other. */
  lemma {:induction false} SplitJoin(parts: seq<string>, sep: char)
    requires |parts| >= 1
    requires forall i :: 0 <= i < |parts| ==> sep !in parts[i]
    ensures Split(Join(parts, sep), sep) == parts
    decreases |parts|
  {
    if |parts| == 1 {
      assert IndexOf(parts[0], sep) == None;
    } else {
      var first, tail := parts[0], Join(parts[1..], sep);
      assert Join(parts, sep) == first + [sep] + tail;
      SplitCons(first, sep, tail);
      SplitJoin(parts[1..], sep);
      assert [first] + parts[1..] == parts;
    }
  }

  /** A separator-free prefix followed by a separator is split off as the
      first part. */
  lemma SplitCons(first: string, sep: char, tail: string)
    requires sep !in first
    ensures Split(first + [sep] + tail, sep) == [first] + Split(tail, sep)
  {
    var s := first + [sep] + tail;
    IndexOfAfterPrefix(first, sep, tail);
    SplitStep(s, sep, |first|);
    assert s[..|first|] == first;
    assert s[|first| + 1..] == tail;
  }

  /** Once the first separator is known, the split is the text before it
      followed by the split of the text after it. */
  lemma SplitStep(s: string, sep: char, i: nat)
    requires IndexOf(s, sep) == Some(i)
    ensures Split(s, sep) == [s[..i]] + Split(s[i + 1..], sep)
  {
  }

  /** Splitting at the first separator: the text before it, then the split
      of the text after it. */
  lemma SplitAtFirst(s: string, sep: char, i: nat)
    requires i < |s| && s[i] == sep
    requires forall j :: 0 <= j < i ==> s[j] != sep
    ensures Split(s, sep) == [s[..i]] + Split(s[i + 1..], sep)
  {
    IndexOfUnique(s, sep, i);
    SplitStep(s, sep, i);
  }

  /** The first part of a split is the text before the first separator and the
      second part is the text between the first and the second separator (or
      the end of the string when there is no second one). */
  lemma SplitFirstTwoParts(s: string, sep: char, i: nat)
    requires i < |s| && s[i] == sep
    requires forall j :: 0 <= j < i ==> s[j] != sep
    ensures |Split(s, sep)| >= 2
    ensures Split(s, sep)[0] == s[..i]
    ensures var v := Split(s, sep)[1];
      && i + 1 + |v| <= |s|
      && v == s[i + 1..i + 1 + |v|]
      && sep !in v
      && (i + 1 + |v| == |s| || s[i + 1 + |v|] == sep)
  {
    SplitAtFirst(s, sep, i);
    var rest := s[i + 1..];
    assert |Split(rest, sep)| >= 1;
    var v := Split(rest, sep)[0];
    assert Split(s, sep)[1] == v;
    SplitFirstPart(rest, sep);
    assert sep !in v;
    PrefixOfSuffix(s, i + 1, v, sep);
  }

  /** A prefix of `s[k..]` ending at a separator (or at the end) is a slice
      of `s` ending at that separator (or at the end). */
  lemma PrefixOfSuffix(s: string, k: nat, v: string, sep: char)
    requires k <= |s|
    requires |v| <= |s[k..]| && v == s[k..][..|v|]
    requires |v| == |s[k..]| || s[k..][|v|] == sep
    ensures k + |v| <= |s|
    ensures v == s[k..k + |v|]
    ensures k + |v| == |s| || s[k + |v|] == sep
  {
  }

  /** The first part of a split runs up to the first separator or to the end. */
  lemma SplitFirstPart(s: string, sep: char)
    ensures var v := Split(s, sep)[0];
      && |v| <= |s|
      && v == s[..|v|]
      && (|v| == |s| || s[|v|] == sep)
  {
    match IndexOf(s, sep)
    case None =>
      assert Split(s, sep)[0] == s;
    case Some(j) =>
      assert Split(s, sep)[0] == s[..j];
  }
}
