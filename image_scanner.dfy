/** The exporter's image-reference scanning loop, as written and with the offset fixed,
    each proved to compute its specification in `ImageRefs`. */
module ImageScanner {
  import opened GoStrings
  import opened ImageRefs

  /** A pass of the loop body in which both searches succeed appends the text between
      them and goes on from the `"`, as written. */
  lemma ScanTakes(content: string, startIdx: nat, fuel: nat, urls: seq<string>, from: nat, e: nat)
    requires startIdx <= |content| && fuel > 0
    requires SuffixIndex(content, startIdx, StartTag) != -1
    requires from == SuffixIndex(content, startIdx, StartTag) + |StartTag|
    requires SuffixIndex(content, from, EndTag) == e
    ensures from + e <= |content|
    ensures ScanAsWritten(content, startIdx, fuel, urls) ==
      ScanAsWritten(content, from + e, fuel - 1, urls + [Substring(content, from, from + e)])
  {
    ScanFinds(content, startIdx, fuel, urls, Substring(content, from, from + e), from + e);
  }

  /** A pass of the loop body that finds no marker ends the loop with what was collected. */
  lemma ScanNoMarker(content: string, startIdx: nat, fuel: nat, urls: seq<string>)
    requires startIdx <= |content| && fuel > 0
    requires SuffixIndex(content, startIdx, StartTag) == -1
    ensures ScanAsWritten(content, startIdx, fuel, urls) == (urls, true)
  {
    ScanStops(content, startIdx, fuel, urls);
  }

  /** A pass of the loop body that finds a marker but no `"` after it, as written, ends the
      loop with what was collected. */
  lemma ScanNoQuote(content: string, startIdx: nat, fuel: nat, urls: seq<string>, from: nat)
    requires startIdx <= |content| && fuel > 0
    requires SuffixIndex(content, startIdx, StartTag) != -1
    requires from == SuffixIndex(content, startIdx, StartTag) + |StartTag|
    requires SuffixIndex(content, from, EndTag) == -1
    ensures ScanAsWritten(content, startIdx, fuel, urls) == (urls, true)
  {
    ScanStops(content, startIdx, fuel, urls);
  }

  /** `findImageURLs` as written. The source loop has no bound; `fuel` caps the
      number of passes, and `finished` says whether the loop ended on its own. */
  method FindImageURLs(content: string, fuel: nat) returns (urls: seq<string>, finished: bool)
    ensures (urls, finished) == ScanAsWritten(content, 0, fuel, [])
  {
    urls := [];
    finished := false;
    var startIdx: int := 0;
    var left := fuel;
    while left > 0
      invariant 0 <= startIdx <= |content|
      invariant ScanAsWritten(content, startIdx, left, urls) == ScanAsWritten(content, 0, fuel, [])
    {
      ghost var before := startIdx;
      startIdx := SuffixIndex(content, startIdx, StartTag);
      if startIdx == -1 {
        ScanNoMarker(content, before, left, urls);
        finished := true;
        break;
      }
      startIdx := startIdx + |StartTag|;
      var endIdx := SuffixIndex(content, startIdx, EndTag);
      if endIdx == -1 {
        ScanNoQuote(content, before, left, urls, startIdx);
        finished := true;
        break;
      }
      var imgURL := Substring(content, startIdx, startIdx + endIdx);
      ScanTakes(content, before, left, urls, startIdx, endIdx);
      urls := urls + [imgURL];
      startIdx := startIdx + endIdx;
      left := left - 1;
    }
  }

  /** A pass of the fixed loop in which both searches succeed appends the next reference
      and goes on from its `"`. */
  lemma FixedTakes(content: string, startIdx: nat, urls: seq<string>, from: nat, e: nat)
    requires startIdx <= |content|
    requires SuffixIndex(content, startIdx, StartTag) != -1
    requires from == startIdx + SuffixIndex(content, startIdx, StartTag) + |StartTag|
    requires SuffixIndex(content, from, EndTag) == e
    ensures from + e <= |content|
    ensures urls + URLsFrom(content, startIdx) ==
      (urls + [Substring(content, from, from + e)]) + URLsFrom(content, from + e)
  {
    URLsFromStep(content, startIdx, from, from + e);
    SubstringIsSlice(content, from, from + e);
    var u := content[from..from + e];
    var rest := URLsFrom(content, from + e);
    assert urls + ([u] + rest) == (urls + [u]) + rest;
  }

  /** A pass of the fixed loop in which a search fails ends it with what was collected. */
  lemma FixedStops(content: string, startIdx: nat, urls: seq<string>)
    requires startIdx <= |content|
    requires SuffixIndex(content, startIdx, StartTag) == -1 ||
      SuffixIndex(content, startIdx + SuffixIndex(content, startIdx, StartTag) + |StartTag|, EndTag) == -1
    ensures urls + URLsFrom(content, startIdx) == urls
  {
    URLsFromNone(content, startIdx);
    assert urls + [] == urls;
  }

  /** The scanning loop with the offset returned by `strings.Index` added to the start of
      the searched suffix. */
  method FindImageURLsFixed(content: string) returns (urls: seq<string>)
    ensures urls == URLsFrom(content, 0)
  {
    urls := [];
    var startIdx := 0;
    while true
      invariant 0 <= startIdx <= |content|
      invariant URLsFrom(content, 0) == urls + URLsFrom(content, startIdx)
      decreases |content| - startIdx
    {
      var index := SuffixIndex(content, startIdx, StartTag);
      if index == -1 {
        FixedStops(content, startIdx, urls);
        break;
      }
      var from := startIdx + index + |StartTag|;
      var endIdx := SuffixIndex(content, from, EndTag);
      if endIdx == -1 {
        FixedStops(content, startIdx, urls);
        break;
      }
      FixedTakes(content, startIdx, urls, from, endIdx);
      urls := urls + [Substring(content, from, from + endIdx)];
      startIdx := from + endIdx;
    }
  }
}
