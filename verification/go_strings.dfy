/**
 The Go standard-library string operations the credential reader depends on:
 `strings.Split` with a one-character separator, its inverse `strings.Join`,
 and `strings.TrimSpace`. Go strings are byte sequences; here a string is a
 sequence of Unicode scalar values, which agrees with Go on well-formed UTF-8.
 */
module GoStrings {

  /** `unicode.IsSpace`: the characters `strings.TrimSpace` removes. */
  predicate IsSpace(c: char) {
    || c == ' ' || c == '\t' || c == '\n' || c == '\r'
    || c == '\U{0B}' || c == '\U{0C}'                      // vertical tab, form feed
    || c == '\U{85}' || c == '\U{A0}' || c == '\U{1680}'   // NEL, NBSP, Ogham space mark
    || ('\U{2000}' <= c <= '\U{200A}')                     // en quad .. hair space
    || c == '\U{2028}' || c == '\U{2029}'                  // line and paragraph separators
    || c == '\U{202F}' || c == '\U{205F}' || c == '\U{3000}'
  }

  /** Every character of `s` at a position in [lo, hi) is white space. */
  predicate SpaceBetween(s: string, lo: nat, hi: nat)
    requires lo <= hi <= |s|
  {
    forall k :: lo <= k < hi ==> IsSpace(s[k])
  }

  /** Neither the first nor the last character is white space. */
  predicate IsTrimmed(s: string) {
    |s| == 0 || (!IsSpace(s[0]) && !IsSpace(s[|s| - 1]))
  }

  /** `r` sits at offset `a` of `s`, and everything around it is white space. */
  predicate StripsAt(s: string, r: string, a: nat) {
    && a + |r| <= |s|
    && s[a..a + |r|] == r
    && SpaceBetween(s, 0, a)
    && SpaceBetween(s, a + |r|, |s|)
  }

  /** `r` is `s` with white space removed at its ends and nowhere else. */
  ghost predicate StripsTo(s: string, r: string) {
    exists a: nat :: StripsAt(s, r, a)
  }

  /** `strings.TrimLeftFunc(s, unicode.IsSpace)`. */
  function TrimLeft(s: string): (r: string)
    ensures |r| <= |s| && r == s[|s| - |r|..]
    ensures SpaceBetween(s, 0, |s| - |r|)
    ensures |r| > 0 ==> !IsSpace(r[0])
    decreases |s|
  {
    if |s| > 0 && IsSpace(s[0]) then TrimLeft(s[1..]) else s
  }

  /** `strings.TrimRightFunc(s, unicode.IsSpace)`. */
  function TrimRight(s: string): (r: string)
    ensures |r| <= |s| && r == s[..|r|]
    ensures SpaceBetween(s, |r|, |s|)
    ensures |r| > 0 ==> !IsSpace(r[|r| - 1])
    decreases |s|
  {
    if |s| > 0 && IsSpace(s[|s| - 1]) then TrimRight(s[..|s| - 1]) else s
  }

  /** `strings.TrimSpace`: the unique trimmed string obtained from `s` by
      deleting white space at both ends (uniqueness is TrimSpaceUnique). */
  function TrimSpace(s: string): (r: string)
    ensures IsTrimmed(r)
    ensures StripsTo(s, r)
    ensures IsTrimmed(s) ==> r == s
  {
    TrimBothEnds(s);
    TrimRight(TrimLeft(s))
  }

  lemma TrimBothEnds(s: string)
    ensures StripsAt(s, TrimRight(TrimLeft(s)), |s| - |TrimLeft(s)|)
  {
    var l := TrimLeft(s);
    StripsAtSuffixPrefix(s, l, TrimRight(l));
  }

  /** Stripping white space from the front and then from the back of what
      remains strips it from both ends. */
  lemma StripsAtSuffixPrefix(s: string, l: string, r: string)
    requires |l| <= |s| && l == s[|s| - |l|..] && SpaceBetween(s, 0, |s| - |l|)
    requires |r| <= |l| && r == l[..|r|] && SpaceBetween(l, |r|, |l|)
    ensures StripsAt(s, r, |s| - |l|)
  {
    var a := |s| - |l|;
    assert s[a..a + |r|] == l[..|r|];
    forall k | a + |r| <= k < |s|
      ensures IsSpace(s[k])
    {
      assert s[k] == l[k - a];
    }
  }

  /** Removing white space cannot introduce a character. */
  lemma TrimSpaceKeepsOut(s: string, c: char)
    requires c !in s
    ensures c !in TrimSpace(s)
  {
    var r := TrimSpace(s);
    var a: nat :| StripsAt(s, r, a);
    forall k | 0 <= k < |r|
      ensures r[k] != c
    {
      assert r[k] == s[a + k];
    }
  }

  /** A leading white-space character makes no difference to TrimSpace. */
  lemma TrimSpaceLeadingSpace(c: char, s: string)
    requires IsSpace(c)
    ensures TrimSpace([c] + s) == TrimSpace(s)
  {
    assert ([c] + s)[1..] == s;
  }

  /** There is only one trimmed strip of a string, so TrimSpace is fully
      determined by its first two postconditions. */
  lemma TrimSpaceUnique(s: string, r: string)
    requires IsTrimmed(r) && StripsTo(s, r)
    ensures r == TrimSpace(s)
  {
    var t := TrimSpace(s);
    var a: nat :| StripsAt(s, r, a);
    var b: nat :| StripsAt(s, t, b);
    assert |r| > 0 ==> s[a] == r[0] && s[a + |r| - 1] == r[|r| - 1];
    assert |t| > 0 ==> s[b] == t[0] && s[b + |t| - 1] == t[|t| - 1];
    // both strips start at the first non-space character of s and end at its last one
    assert |r| > 0 <==> |t| > 0;
    assert |r| > 0 ==> a == b;
    assert |r| > 0 ==> a + |r| == b + |t|;
  }

  /** The position of the first `c` in `s`, or `|s|` when there is none
      (where `strings.Index` would return -1). */
  function FirstIndex(s: string, c: char): (k: nat)
    ensures k <= |s|
    ensures k < |s| ==> s[k] == c
    ensures forall j :: 0 <= j < k ==> s[j] != c
    ensures k == |s| <==> c !in s
    decreases |s|
  {
    if |s| == 0 then 0
    else if s[0] == c then 0
    else
      1 + FirstIndex(s[1..], c)
  }

  lemma FirstIndexOfPiece(a: string, c: char, t: string)
    requires c !in a
    ensures FirstIndex(a + [c] + t, c) == |a|
  {
    var s := a + [c] + t;
    var k := FirstIndex(s, c);
    assert forall i :: 0 <= i < |a| ==> s[i] == a[i];
    assert s[|a|] == c;
  }

  /** `strings.Split(s, string(sep))`: the pieces of `s` between occurrences
      of `sep`, always at least one (Split of "" is [""]). */
  function Split(s: string, sep: char): (parts: seq<string>)
    ensures |parts| >= 1
    ensures forall i :: 0 <= i < |parts| ==> sep !in parts[i]
    decreases |s|
  {
    if |s| == 0 then [""]
    else
      var rest := Split(s[1..], sep);
      if s[0] == sep then [""] + rest
      else [[s[0]] + rest[0]] + rest[1..]
  }

  /** `strings.Join(parts, string(sep))`. */
  function Join(parts: seq<string>, sep: char): (s: string)
    requires |parts| >= 1
    decreases |parts|
  {
    if |parts| == 1 then parts[0]
    else parts[0] + [sep] + Join(parts[1..], sep)
  }

  lemma {:induction false} SplitNoSeparator(s: string, sep: char)
    requires sep !in s
    ensures Split(s, sep) == [s]
    decreases |s|
  {
    if |s| > 0 {
      SplitNoSeparator(s[1..], sep);
      assert [s[0]] + s[1..] == s;
    }
  }

  /** Splitting a string that starts with a separator-free piece. */
  lemma {:induction false} SplitAfterPiece(a: string, sep: char, t: string)
    requires sep !in a
    ensures Split(a + [sep] + t, sep) == [a] + Split(t, sep)
    decreases |a|
  {
    var s := a + [sep] + t;
    if |a| == 0 {
      assert s[1..] == t;
    } else {
      assert s[1..] == a[1..] + [sep] + t;
      SplitAfterPiece(a[1..], sep, t);
      assert [a[0]] + a[1..] == a;
    }
  }

  /** Split cuts at the first separator and continues after it. */
  lemma SplitAtFirst(s: string, sep: char)
    requires sep in s
    ensures FirstIndex(s, sep) < |s|
    ensures Split(s, sep) == [s[..FirstIndex(s, sep)]] + Split(s[FirstIndex(s, sep) + 1..], sep)
  {
    var k := FirstIndex(s, sep);
    SplitAround(s, k);
    FirstIndexPrefix(s, sep);
    SplitAfterPiece(s[..k], sep, s[k + 1..]);
  }

  lemma SplitAround(s: string, k: nat)
    requires k < |s|
    ensures s == s[..k] + [s[k]] + s[k + 1..]
  {
  }

  lemma FirstIndexPrefix(s: string, c: char)
    ensures c !in s[..FirstIndex(s, c)]
  {
    var k := FirstIndex(s, c);
    assert forall j :: 0 <= j < k ==> s[..k][j] == s[j];
  }

  /** The first piece of a split is the text before the first separator. */
  lemma SplitHead(s: string, sep: char)
    ensures Split(s, sep)[0] == s[..FirstIndex(s, sep)]
  {
    if sep in s {
      SplitAtFirst(s, sep);
    } else {
      SplitNoSeparator(s, sep);
      assert s[..|s|] == s;
    }
  }

  /** Index [1] of a split exists exactly when the separator occurs, and it
      is the text between the first and the second separator. */
  lemma SplitSecondPiece(s: string, sep: char)
    ensures |Split(s, sep)| >= 2 <==> sep in s
    ensures sep in s ==>
              var after := s[FirstIndex(s, sep) + 1..];
              Split(s, sep)[1] == after[..FirstIndex(after, sep)]
  {
    if sep in s {
      SplitAtFirst(s, sep);
      SplitHead(s[FirstIndex(s, sep) + 1..], sep);
    } else {
      SplitNoSeparator(s, sep);
    }
  }

  lemma JoinPrependChar(c: char, parts: seq<string>, sep: char)
    requires |parts| >= 1
    ensures Join([[c] + parts[0]] + parts[1..], sep) == [c] + Join(parts, sep)
  {
    var ps := [[c] + parts[0]] + parts[1..];
    assert ps[1..] == parts[1..];
  }

  /** Join undoes Split. */
  lemma {:induction false} JoinSplit(s: string, sep: char)
    ensures Join(Split(s, sep), sep) == s
    decreases |s|
  {
    if |s| > 0 {
      var rest := Split(s[1..], sep);
      JoinSplit(s[1..], sep);
      if s[0] == sep {
        assert ([""] + rest)[1..] == rest;
      } else {
        JoinPrependChar(s[0], rest, sep);
      }
      assert [s[0]] + s[1..] == s;
    }
  }

  /** Split undoes Join when no piece contains the separator. */
  lemma {:induction false} SplitJoin(parts: seq<string>, sep: char)
    requires |parts| >= 1
    requires forall i :: 0 <= i < |parts| ==> sep !in parts[i]
    ensures Split(Join(parts, sep), sep) == parts
    decreases |parts|
  {
    if |parts| == 1 {
      SplitNoSeparator(parts[0], sep);
    } else {
      SplitJoin(parts[1..], sep);
      SplitAfterPiece(parts[0], sep, Join(parts[1..], sep));
    }
  }
}
