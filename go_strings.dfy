/** The functions of Go's `strings` package that the exporter relies on.

    A Go string is a sequence of bytes, and its lengths, offsets and slices count bytes.
    Throughout this model a `string` stands for such a byte string: one character per
    byte, so text is given by its UTF-8 encoding and every character is below 256. */
module GoStrings {

  /** `pat` occurs in `s` starting at offset `j`. */
  predicate MatchAt(s: string, pat: string, j: int)
  {
    0 <= j && j + |pat| <= |s| && MatchesFrom(s, pat, j, 0)
  }

  /** The characters of `pat` from `k` on sit at offset `j + k` on in `s`. */
  predicate MatchesFrom(s: string, pat: string, j: nat, k: nat)
    requires j + |pat| <= |s|
    decreases |s| - j - k
  {
    k >= |pat| || (s[j + k] == pat[k] && MatchesFrom(s, pat, j, k + 1))
  }

  lemma {:induction false} MatchesFromChars(s: string, pat: string, j: nat, k: nat)
    requires j + |pat| <= |s|
    ensures MatchesFrom(s, pat, j, k) <==> forall i :: k <= i < |pat| ==> s[j + i] == pat[i]
    decreases |s| - j - k
  {
    if k < |pat| {
      MatchesFromChars(s, pat, j, k + 1);
    }
  }

  /** An occurrence is a run of equal characters. */
  lemma MatchAtChars(s: string, pat: string, j: int)
    ensures MatchAt(s, pat, j) <==> 0 <= j && j + |pat| <= |s| && forall i :: 0 <= i < |pat| ==> s[j + i] == pat[i]
  {
    if 0 <= j && j + |pat| <= |s| {
      MatchesFromChars(s, pat, j, 0);
    }
  }

  /** The first offset at or after `from` where `pat` occurs in `s`, as an offset
      into the whole of `s`, or -1 when there is none. */
  function FirstMatchFrom(s: string, pat: string, from: nat): (r: int)
    ensures r == -1 || (from <= r && r + |pat| <= |s|)
    decreases |s| - from
  {
    if |s| < from + |pat| then -1
    else if MatchAt(s, pat, from) then from
    else FirstMatchFrom(s, pat, from + 1)
  }

  /** What `FirstMatchFrom` finds is an occurrence, and no occurrence lies between `from` and it. */
  lemma {:induction false} FirstMatchFromIsFirst(s: string, pat: string, from: nat)
    ensures FirstMatchFrom(s, pat, from) != -1 ==> MatchAt(s, pat, FirstMatchFrom(s, pat, from))
    ensures forall j ::
      (from <= j && (FirstMatchFrom(s, pat, from) == -1 || j < FirstMatchFrom(s, pat, from))) ==> !MatchAt(s, pat, j)
    decreases |s| - from
  {
    if |s| >= from + |pat| && !MatchAt(s, pat, from) {
      FirstMatchFromIsFirst(s, pat, from + 1);
    }
  }

  /** Conversely, the first occurrence at or after `from` is what `FirstMatchFrom` finds. */
  lemma {:induction false} FirstMatchFromAt(s: string, pat: string, from: nat, k: int)
    requires from <= k && MatchAt(s, pat, k)
    requires forall j :: from <= j < k ==> !MatchAt(s, pat, j)
    ensures FirstMatchFrom(s, pat, from) == k
    decreases k - from
  {
    if from < k {
      FirstMatchFromAt(s, pat, from + 1, k);
    }
  }

  /** With no occurrence at or after `from`, `FirstMatchFrom` reports -1. */
  lemma {:induction false} FirstMatchFromNone(s: string, pat: string, from: nat)
    requires forall j :: from <= j ==> !MatchAt(s, pat, j)
    ensures FirstMatchFrom(s, pat, from) == -1
    decreases |s| - from
  {
    if |s| >= from + |pat| {
      FirstMatchFromNone(s, pat, from + 1);
    }
  }

  /** `strings.Index(s, pat)`: the offset of the first occurrence of `pat` in `s`, or -1. */
  function Index(s: string, pat: string): (r: int)
    ensures r == -1 || (0 <= r && r + |pat| <= |s|)
  {
    FirstMatchFrom(s, pat, 0)
  }

  /** `Index` returns `k` exactly when `k` is the first occurrence, and -1 exactly when there is none. */
  lemma IndexIsFirstOccurrence(s: string, pat: string, k: int)
    ensures Index(s, pat) == k <==>
      (k == -1 && forall j :: !MatchAt(s, pat, j)) ||
      (MatchAt(s, pat, k) && forall j :: 0 <= j < k ==> !MatchAt(s, pat, j))
  {
    FirstMatchFromIsFirst(s, pat, 0);
    if k == -1 && forall j :: !MatchAt(s, pat, j) {
      FirstMatchFromNone(s, pat, 0);
    }
    if MatchAt(s, pat, k) && forall j :: 0 <= j < k ==> !MatchAt(s, pat, j) {
      FirstMatchFromAt(s, pat, 0, k);
    }
  }

  /** `strings.Index(s[from:], pat)`: the offset of the first occurrence in the suffix
      that starts at `from`, relative to that suffix, or -1. */
  function SuffixIndex(s: string, from: nat, pat: string): (r: int)
    requires from <= |s|
    ensures r == -1 || (0 <= r && from + r + |pat| <= |s|)
  {
    var m := FirstMatchFrom(s, pat, from);
    if m == -1 then -1 else m - from
  }

  /** An occurrence in a suffix is an occurrence in the whole string, shifted by the suffix's start. */
  lemma MatchInSuffix(s: string, pat: string, from: nat, j: int)
    requires from <= |s|
    ensures MatchAt(s[from..], pat, j) <==> 0 <= j && MatchAt(s, pat, from + j)
  {
    MatchAtChars(s[from..], pat, j);
    MatchAtChars(s, pat, from + j);
  }

  /** `SuffixIndex` is `Index` applied to the slice. */
  lemma {:induction false} SuffixIndexIsIndex(s: string, from: nat, pat: string)
    requires from <= |s|
    ensures SuffixIndex(s, from, pat) == Index(s[from..], pat)
  {
    var t := s[from..];
    forall j ensures MatchAt(t, pat, j) <==> 0 <= j && MatchAt(s, pat, from + j) {
      MatchInSuffix(s, pat, from, j);
    }
    FirstMatchFromIsFirst(s, pat, from);
    var m := FirstMatchFrom(s, pat, from);
    if m == -1 {
      IndexIsFirstOccurrence(t, pat, -1);
    } else {
      IndexIsFirstOccurrence(t, pat, m - from);
    }
  }

  /** `strings.ReplaceAll(s, from, to)` for a one-character pattern and replacement:
      every `from` becomes `to`, everything else is kept in place. */
  function ReplaceAll(s: string, from: char, to: char): (r: string)
    ensures |r| == |s|
    ensures forall i :: 0 <= i < |s| ==> r[i] == if s[i] == from then to else s[i]
  {
    if s == [] then []
    else [if s[0] == from then to else s[0]] + ReplaceAll(s[1..], from, to)
  }
}
