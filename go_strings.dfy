/**
 * The part of Go's `strings` package the handlers and the query builder rely on:
 * `Index`, `LastIndex`, `Split`, `Join`, `Contains` and (ASCII-only) `ToLower`.
 * Separators are always non-empty string constants in the callers, so the
 * empty-separator behaviour of `Split` is not modelled.
 */
module GoStrings {
  import opened Wrappers

  /** `sep` occurs in `s` starting at position `i`. */
  predicate OccursAt(s: string, sep: string, i: int)
  {
    0 <= i && i + |sep| <= |s| && s[i..i + |sep|] == sep
  }

  /** `sep` occurs somewhere in `s`: the predicate the cases of a path split are stated with. */
  predicate Contains(s: string, sep: string)
    // the empty text occurs everywhere; a prefix occurs; nothing longer than `s` does
    ensures sep == [] ==> Contains(s, sep)
    ensures |sep| <= |s| && s[..|sep|] == sep ==> Contains(s, sep)
    ensures Contains(s, sep) ==> |sep| <= |s|
  {
    assert |sep| <= |s| && s[..|sep|] == sep ==> OccursAt(s, sep, 0);
    exists i :: 0 <= i <= |s| && OccursAt(s, sep, i)
  }

  /** `sep` occurs in `s` at two different positions. */
  predicate OccursTwice(s: string, sep: string)
  {
    exists i, j :: 0 <= i < j <= |s| && OccursAt(s, sep, i) && OccursAt(s, sep, j)
  }

  /**
   * The first character of `sep` does not reappear in it, so two occurrences
   * of `sep` in any string can never overlap ("products/" and "receipts/" are such).
   */
  predicate FirstCharUnique(sep: string)
  {
    |sep| > 0 && forall k :: 0 < k < |sep| ==> sep[k] != sep[0]
  }

  /** The first occurrence of `sep` in `s` at or after `from` (its properties: `IndexFromSpec`). */
  function IndexFrom(s: string, sep: string, from: nat): (r: Option<nat>)
    requires |sep| > 0
    ensures r.Some? ==> from <= r.value && r.value + |sep| <= |s|
    decreases |s| - from
  {
    if from + |sep| > |s| then None
    else if s[from..from + |sep|] == sep then Some(from)
    else IndexFrom(s, sep, from + 1)
  }

  lemma {:induction false} IndexFromSpec(s: string, sep: string, from: nat)
    requires |sep| > 0
    ensures IndexFrom(s, sep, from).Some? ==>
              var i := IndexFrom(s, sep, from).value;
              from <= i && OccursAt(s, sep, i) && forall j :: from <= j < i ==> !OccursAt(s, sep, j)
    ensures IndexFrom(s, sep, from).None? ==> forall j :: from <= j ==> !OccursAt(s, sep, j)
    decreases |s| - from
  {
    if from + |sep| <= |s| && s[from..from + |sep|] != sep {
      IndexFromSpec(s, sep, from + 1);
    }
  }

  /** Go's `strings.Index`: the position of the first occurrence, None for Go's -1. */
  function Index(s: string, sep: string): (r: Option<nat>)
    requires |sep| > 0
    ensures r.Some? ==> OccursAt(s, sep, r.value) && forall j :: 0 <= j < r.value ==> !OccursAt(s, sep, j)
    ensures r.None? <==> !Contains(s, sep)
  {
    IndexFromSpec(s, sep, 0);
    IndexFrom(s, sep, 0)
  }

  /** The last occurrence of `sep` in `s` strictly before position `bound`. */
  function LastIndexBelow(s: string, sep: string, bound: nat): (r: Option<nat>)
    ensures r.Some? ==> r.value < bound && OccursAt(s, sep, r.value)
    ensures r.Some? ==> forall j :: r.value < j < bound ==> !OccursAt(s, sep, j)
    ensures r.None? ==> forall j :: 0 <= j < bound ==> !OccursAt(s, sep, j)
    decreases bound
  {
    if bound == 0 then None
    else if OccursAt(s, sep, bound - 1) then Some(bound - 1)
    else LastIndexBelow(s, sep, bound - 1)
  }

  /** Go's `strings.LastIndex`: the position of the last occurrence, None for Go's -1. */
  function LastIndex(s: string, sep: string): (r: Option<nat>)
    ensures r.Some? ==> OccursAt(s, sep, r.value) && forall j :: r.value < j ==> !OccursAt(s, sep, j)
    ensures r.None? <==> !Contains(s, sep)
  {
    LastIndexBelow(s, sep, |s| + 1)
  }

  /**
   * Go's `strings.Split` for a non-empty separator: the pieces of `s` between
   * successive non-overlapping occurrences of `sep`, scanning left to right.
   */
  function Split(s: string, sep: string): (r: seq<string>)
    requires |sep| > 0
    ensures |r| >= 1
    decreases |s|
  {
    match IndexFrom(s, sep, 0)
    case None => [s]
    case Some(i) => [s[..i]] + Split(s[i + |sep|..], sep)
  }

  /** Go's `strings.Join` (its shape: `JoinShape`). */
  function Join(parts: seq<string>, sep: string): string
  {
    if |parts| == 0 then ""
    else if |parts| == 1 then parts[0]
    else parts[0] + sep + Join(parts[1..], sep)
  }

  function Last<T>(xs: seq<T>): T
    requires |xs| > 0
  {
    xs[|xs| - 1]
  }

  /** `unicode.ToLower` restricted to ASCII: A-Z become a-z, every other character is kept. */
  function ToLowerChar(c: char): (r: char)
    ensures 'A' <= c <= 'Z' ==> r as int == c as int + ('a' as int - 'A' as int) && 'a' <= r <= 'z'
    ensures !('A' <= c <= 'Z') ==> r == c
  {
    if 'A' <= c <= 'Z' then (c as int - 'A' as int + 'a' as int) as char else c
  }

  /** Go's `strings.ToLower` on ASCII text, character by character. */
  function ToLower(s: string): (r: string)
    ensures |r| == |s|
    ensures forall i :: 0 <= i < |s| && 'A' <= s[i] <= 'Z' ==> r[i] as int == s[i] as int + ('a' as int - 'A' as int)
    ensures forall i :: 0 <= i < |s| && !('A' <= s[i] <= 'Z') ==> r[i] == s[i]
  {
    seq(|s|, i requires 0 <= i < |s| => ToLowerChar(s[i]))
  }

  /** The number of times the character `c` occurs in `s`. */
  function CountChar(s: string, c: char): nat
  {
    if |s| == 0 then 0 else (if s[0] == c then 1 else 0) + CountChar(s[1..], c)
  }

  // ---------------------------------------------------------------- lemmas

  /**
   * A joined text starts with the first part, followed by the separator when a second
   * part follows, ends with the last part, and is empty when there are no parts.
   */
  lemma {:induction false} JoinShape(parts: seq<string>, sep: string)
    ensures |parts| == 0 ==> Join(parts, sep) == ""
    ensures |parts| > 0 ==> |parts[0]| <= |Join(parts, sep)| && Join(parts, sep)[..|parts[0]|] == parts[0]
    ensures |parts| > 1 ==> OccursAt(Join(parts, sep), sep, |parts[0]|)
    ensures |parts| > 0 ==>
              var r, p := Join(parts, sep), Last(parts);
              |p| <= |r| && r[|r| - |p|..] == p
  {
    if |parts| > 1 {
      JoinShape(parts[1..], sep);
      var r, p := Join(parts, sep), Last(parts);
      var rest := Join(parts[1..], sep);
      assert r == parts[0] + sep + rest;
      assert r[|parts[0]|..|parts[0]| + |sep|] == sep;
      assert r[|r| - |p|..] == rest[|rest| - |p|..];
    }
  }

  /** Lowering is idempotent: lowered text has no upper-case ASCII letter left to change. */
  lemma ToLowerIdempotent(s: string)
    ensures ToLower(ToLower(s)) == ToLower(s)
    ensures forall i :: 0 <= i < |s| ==> !('A' <= ToLower(s)[i] <= 'Z')
  {
  }

  lemma {:induction false} CountCharConcat(a: string, b: string, c: char)
    ensures CountChar(a + b, c) == CountChar(a, c) + CountChar(b, c)
    decreases |a|
  {
    if a == [] {
      assert a + b == b;
    } else {
      CountCharConcat(a[1..], b, c);
      assert (a + b)[1..] == a[1..] + b;
    }
  }

  lemma {:induction false} CountCharAbsent(s: string, c: char)
    requires c !in s
    ensures CountChar(s, c) == 0
    decreases |s|
  {
    if s != [] {
      CountCharAbsent(s[1..], c);
    }
  }

  /** A string holding `c` exactly once, between two `c`-free parts. */
  lemma CountCharOnce(a: string, b: string, c: char)
    requires c !in a && c !in b
    ensures CountChar(a + [c] + b, c) == 1
  {
    CountCharConcat(a + [c], b, c);
    CountCharConcat(a, [c], c);
    CountCharAbsent(a, c);
    CountCharAbsent(b, c);
  }

  /** Occurrences in a suffix are the occurrences in the whole string, shifted. */
  lemma OccursInSuffix(s: string, sep: string, m: nat, k: int)
    requires m <= |s|
    ensures OccursAt(s[m..], sep, k) <==> (k >= 0 && OccursAt(s, sep, m + k))
  {
    if 0 <= k && m + k + |sep| <= |s| {
      assert s[m..][k..k + |sep|] == s[m + k..m + k + |sep|];
    }
  }

  /** Occurrences in a prefix are occurrences in the whole string. */
  lemma OccursInPrefix(s: string, sep: string, m: nat, k: int)
    requires m <= |s|
    ensures OccursAt(s[..m], sep, k) <==> (OccursAt(s, sep, k) && k + |sep| <= m)
  {
    if 0 <= k && k + |sep| <= m {
      assert s[..m][k..k + |sep|] == s[k..k + |sep|];
    }
  }

  /** With a first-character-unique separator, distinct occurrences are at least |sep| apart. */
  lemma {:induction false} NoOverlap(s: string, sep: string, i: int, j: int)
    requires FirstCharUnique(sep)
    requires OccursAt(s, sep, i) && OccursAt(s, sep, j) && i < j
    ensures i + |sep| <= j
  {
    forall k | i < k < i + |sep|
      ensures !OccursAt(s, sep, k)
    {
      if k + |sep| <= |s| {
        assert s[k..k + |sep|][0] == s[i..i + |sep|][k - i];
      }
    }
  }

  /** With a first-character-unique separator, no occurrence starts inside another. */
  lemma NoNearbyOccurrence(s: string, sep: string, i: int)
    requires FirstCharUnique(sep) && OccursAt(s, sep, i)
    ensures forall k :: i < k < i + |sep| ==> !OccursAt(s, sep, k)
  {
    forall k | i < k < i + |sep|
      ensures !OccursAt(s, sep, k)
    {
      if k + |sep| <= |s| {
        assert s[k..k + |sep|][0] == s[i..i + |sep|][k - i];
      }
    }
  }

  /** Joining the pieces of a split with the same separator gives back the string. */
  lemma {:induction false} SplitThenJoin(s: string, sep: string)
    requires |sep| > 0
    ensures Join(Split(s, sep), sep) == s
    decreases |s|
  {
    var r := IndexFrom(s, sep, 0);
    if r.Some? {
      IndexFromOccurs(s, sep, 0);
      var i, n := r.value, |sep|;
      var rest := s[i + n..];
      var tail := Split(rest, sep);
      SplitThenJoin(rest, sep);
      var parts := [s[..i]] + tail;
      assert Split(s, sep) == parts;
      assert parts[1..] == tail;
      assert Join(parts, sep) == s[..i] + sep + rest;
      assert s == s[..i] + s[i..i + n] + rest;
    }
  }

  /** No piece of a split contains the separator. */
  lemma {:induction false} SplitPiecesFree(s: string, sep: string)
    requires |sep| > 0
    ensures forall k :: 0 <= k < |Split(s, sep)| ==> !Contains(Split(s, sep)[k], sep)
    decreases |s|
  {
    match Index(s, sep)
    case None =>
    case Some(i) =>
      var rest := s[i + |sep|..];
      SplitPiecesFree(rest, sep);
      forall j | OccursAt(s[..i], sep, j)
        ensures false
      {
        OccursInPrefix(s, sep, i, j);
      }
      assert !Contains(s[..i], sep);
      assert Split(s, sep) == [s[..i]] + Split(rest, sep);
  }

  /** The pieces of a split and the positions of the separator, in the three cases the download handler tells apart. */
  lemma {:induction false} SplitCases(s: string, sep: string)
    requires FirstCharUnique(sep)
    ensures |Split(s, sep)| == 1 <==> !Contains(s, sep)
    ensures |Split(s, sep)| >= 3 <==> OccursTwice(s, sep)
    ensures |Split(s, sep)| == 2 ==>
              var p := |Split(s, sep)[0]|;
              OccursAt(s, sep, p) && Split(s, sep)[1] == s[p + |sep|..] &&
              forall j :: OccursAt(s, sep, j) ==> j == p
  {
    var r := IndexFrom(s, sep, 0);
    IndexFromOccurs(s, sep, 0);
    if r.None? {
      SplitNone(s, sep);
    } else {
      var p := r.value;
      var r' := IndexFrom(s[p + |sep|..], sep, 0);
      if r'.None? {
        SplitOnce(s, sep, p);
      } else {
        IndexFromOccurs(s[p + |sep|..], sep, 0);
        SplitTwice(s, sep, p, r'.value);
      }
    }
  }

  /** The first piece ends at the first occurrence; the rest is the split of what follows it. */
  lemma SplitStep(s: string, sep: string, p: nat)
    requires |sep| > 0 && IndexFrom(s, sep, 0) == Some(p)
    ensures Split(s, sep) == [s[..p]] + Split(s[p + |sep|..], sep)
  {
  }

  /** No first occurrence: no occurrence at all, and one piece. */
  lemma SplitNone(s: string, sep: string)
    requires |sep| > 0 && IndexFrom(s, sep, 0).None?
    ensures Split(s, sep) == [s]
    ensures !Contains(s, sep) && !OccursTwice(s, sep)
  {
    IndexFromSpec(s, sep, 0);
  }

  /**
   * What `Split` yields first: the whole text when the separator does not occur, and
   * otherwise the text before its first occurrence, with at least one piece after it.
   */
  lemma SplitFirstPiece(s: string, sep: string)
    requires |sep| > 0
    ensures Index(s, sep).None? ==> Split(s, sep) == [s]
    ensures Index(s, sep).Some? ==> |Split(s, sep)| >= 2 && Split(s, sep)[0] == s[..Index(s, sep).value]
  {
    if Index(s, sep).None? {
      SplitNone(s, sep);
    } else {
      SplitStep(s, sep, Index(s, sep).value);
    }
  }

  /** A first occurrence at `p` and none after it: two pieces around it. */
  lemma SplitOnce(s: string, sep: string, p: nat)
    requires FirstCharUnique(sep) && OccursAt(s, sep, p)
    requires IndexFrom(s, sep, 0) == Some(p)
    requires IndexFrom(s[p + |sep|..], sep, 0).None?
    ensures Contains(s, sep) && !OccursTwice(s, sep)
    ensures Split(s, sep) == [s[..p], s[p + |sep|..]]
    ensures forall j :: OccursAt(s, sep, j) ==> j == p
  {
    SplitStep(s, sep, p);
    SplitNone(s[p + |sep|..], sep);
    SingleOccurrence(s, sep, p);
  }

  /** A first occurrence at `p` and none after it: `p` is the only occurrence. */
  lemma SingleOccurrence(s: string, sep: string, p: nat)
    requires FirstCharUnique(sep) && OccursAt(s, sep, p)
    requires IndexFrom(s, sep, 0) == Some(p)
    requires IndexFrom(s[p + |sep|..], sep, 0).None?
    ensures Contains(s, sep) && !OccursTwice(s, sep)
    ensures forall j :: OccursAt(s, sep, j) ==> j == p
  {
    var rest := s[p + |sep|..];
    IndexFromSpec(rest, sep, 0);
    IndexFromSpec(s, sep, 0);
    forall j | OccursAt(s, sep, j) && j > p
      ensures false
    {
      NoOverlap(s, sep, p, j);
      OccursInSuffix(s, sep, p + |sep|, j - p - |sep|);
    }
  }

  /** One occurrence at `p` and another after it: at least two pieces follow. */
  lemma SplitTwice(s: string, sep: string, p: nat, q: nat)
    requires |sep| > 0 && OccursAt(s, sep, p) && IndexFrom(s, sep, 0) == Some(p)
    requires OccursAt(s[p + |sep|..], sep, q)
    requires IndexFrom(s[p + |sep|..], sep, 0) == Some(q)
    ensures Contains(s, sep) && OccursTwice(s, sep)
    ensures |Split(s, sep)| >= 3
  {
    SplitStep(s, sep, p);
    OccursInSuffix(s, sep, p + |sep|, q);
    assert OccursAt(s, sep, p + |sep| + q);
  }

  lemma LastIndexIs(s: string, sep: string, p: int)
    requires OccursAt(s, sep, p)
    requires forall j :: p < j ==> !OccursAt(s, sep, j)
    ensures LastIndex(s, sep) == Some(p)
  {
  }

  /** With no occurrence after an occurrence at `i`, the last occurrence is `i`. */
  lemma LastIndexAfterNone(s: string, sep: string, i: nat)
    requires FirstCharUnique(sep) && OccursAt(s, sep, i)
    requires LastIndex(s[i + |sep|..], sep) == None
    ensures LastIndex(s, sep) == Some(i)
  {
    var n := |sep|;
    forall j | i < j
      ensures !OccursAt(s, sep, j)
    {
      if OccursAt(s, sep, j) {
        NoOverlap(s, sep, i, j);
        OccursInSuffix(s, sep, i + n, j - i - n);
      }
    }
    LastIndexIs(s, sep, i);
  }

  /** The last occurrence in the text after an occurrence at `i`, shifted, is the last occurrence in `s`. */
  lemma LastIndexAfterSome(s: string, sep: string, i: nat, q: nat)
    requires OccursAt(s, sep, i)
    requires LastIndex(s[i + |sep|..], sep) == Some(q)
    ensures LastIndex(s, sep) == Some(i + |sep| + q)
  {
    var n := |sep|;
    OccursInSuffix(s, sep, i + n, q);
    forall j | i + n + q < j
      ensures !OccursAt(s, sep, j)
    {
      OccursInSuffix(s, sep, i + n, j - i - n);
    }
    LastIndexIs(s, sep, i + n + q);
  }

  lemma {:induction false} IndexFromOccurs(s: string, sep: string, from: nat)
    requires |sep| > 0
    ensures IndexFrom(s, sep, from).Some? ==> OccursAt(s, sep, IndexFrom(s, sep, from).value)
    decreases |s| - from
  {
    if from + |sep| <= |s| && s[from..from + |sep|] != sep {
      IndexFromOccurs(s, sep, from + 1);
    }
  }

  /**
   * The last piece of a split is the text after the last occurrence of the separator
   * (the whole string when it does not occur), for a first-character-unique separator.
   */
  lemma {:induction false} LastPieceAfterLastIndex(s: string, sep: string)
    requires FirstCharUnique(sep)
    ensures Last(Split(s, sep)) == match LastIndex(s, sep) { case None => s case Some(p) => s[p + |sep|..] }
    decreases |s|
  {
    var r := IndexFrom(s, sep, 0);
    if r.None? {
      IndexFromSpec(s, sep, 0);
      assert LastIndex(s, sep) == None;
    } else {
      var i, n := r.value, |sep|;
      IndexFromOccurs(s, sep, 0);
      var rest := s[i + n..];
      var tail := Split(rest, sep);
      assert Split(s, sep) == [s[..i]] + tail;
      assert Last(Split(s, sep)) == Last(tail);
      LastPieceAfterLastIndex(rest, sep);
      var last := LastIndex(rest, sep);
      if last.None? {
        LastIndexAfterNone(s, sep, i);
      } else {
        LastIndexAfterSome(s, sep, i, last.value);
        assert rest[last.value + n..] == s[i + n + last.value + n..];
      }
    }
  }


  /** A string free of the separator's first character does not contain the separator. */
  lemma NotContainsWithoutFirstChar(t: string, sep: string)
    requires |sep| > 0
    requires forall i :: 0 <= i < |t| ==> t[i] != sep[0]
    ensures !Contains(t, sep)
  {
    forall j | 0 <= j && j + |sep| <= |t|
      ensures !OccursAt(t, sep, j)
    {
      assert t[j..j + |sep|][0] == t[j];
    }
  }

  /** The text after the last separator of `a + sep + t` is `t` when `t` is free of the separator. */
  lemma {:induction false} LastIndexOfSuffix(a: string, sep: string, t: string)
    requires FirstCharUnique(sep)
    requires !Contains(t, sep)
    ensures LastIndex(a + sep + t, sep) == Some(|a|)
  {
    var s, n := a + sep + t, |sep|;
    assert OccursAt(s, sep, |a|) by {
      assert s[|a|..|a| + n] == sep;
    }
    NoNearbyOccurrence(s, sep, |a|);
    assert s[|a| + n..] == t;
    forall j | |a| + n <= j
      ensures !OccursAt(s, sep, j)
    {
      OccursInSuffix(s, sep, |a| + n, j - |a| - n);
    }
    LastIndexIs(s, sep, |a|);
  }

  /** Between two separator-free texts, the separator written once occurs exactly once. */
  lemma OnlyOccurrence(a: string, sep: string, t: string)
    requires FirstCharUnique(sep) && !Contains(a, sep) && !Contains(t, sep)
    ensures forall j :: OccursAt(a + sep + t, sep, j) <==> j == |a|
    ensures Contains(a + sep + t, sep) && !OccursTwice(a + sep + t, sep)
  {
    var s := a + sep + t;
    LastIndexOfSuffix(a, sep, t);
    forall j | 0 <= j < |a|
      ensures !OccursAt(s, sep, j)
    {
      if j + |sep| <= |a| {
        OccursInPrefix(s, sep, |a|, j);
        assert s[..|a|] == a;
      } else if j + |sep| <= |s| {
        assert s[j..j + |sep|][|a| - j] == s[|a|];
      }
    }
  }

  /** Appending a part to a non-empty list of parts appends the separator and the part to the join. */
  lemma {:induction false} JoinAppend(parts: seq<string>, part: string, sep: string)
    requires |parts| > 0
    ensures Join(parts + [part], sep) == Join(parts, sep) + sep + part
    decreases |parts|
  {
    if |parts| > 1 {
      JoinAppend(parts[1..], part, sep);
      assert (parts + [part])[1..] == parts[1..] + [part];
    }
  }

  /**
   * Splitting the join of non-empty-list parts gives back the parts, provided no part
   * holds the separator's second character and that character differs from its first.
   */
  lemma {:induction false} JoinThenSplit(parts: seq<string>, sep: string)
    requires |parts| >= 1 && |sep| >= 2 && sep[0] != sep[1]
    requires forall k, i :: 0 <= k < |parts| && 0 <= i < |parts[k]| ==> parts[k][i] != sep[1]
    ensures Split(Join(parts, sep), sep) == parts
    decreases |parts|
  {
    var p0 := parts[0];
    var s := Join(parts, sep);
    // an occurrence at j is followed by sep[1] at j + 1, which only the separator itself holds
    if |parts| == 1 {
      assert s == p0;
      assert Index(s, sep) == None;
    } else {
      var rest := Join(parts[1..], sep);
      assert s == p0 + sep + rest;
      assert OccursAt(s, sep, |p0|) by {
        assert s[|p0|..|p0| + |sep|] == sep;
      }
      assert Index(s, sep) == Some(|p0|);
      assert s[..|p0|] == p0;
      assert s[|p0| + |sep|..] == rest;
      JoinThenSplit(parts[1..], sep);
      assert parts == [p0] + parts[1..];
    }
  }
}
