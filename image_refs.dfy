/** What the image-reference scan of a page body finds: the text after each `<img src="`
    up to the next `"`.

    `ScanAsWritten` is the exporter's loop as it is written, where the offset that
    `strings.Index` returns relative to the searched suffix is stored as if it were an
    offset into the whole body. `URLsFrom` is the same scan with absolute offsets. */
module ImageRefs {
  import opened GoStrings

  const Quote: char := '"'
  const StartTag: string := "<img src=\""
  const EndTag: string := [Quote]

  /** An occurrence of the closing delimiter is a quote character. */
  lemma QuoteAt(s: string, j: int)
    ensures MatchAt(s, EndTag, j) <==> 0 <= j < |s| && s[j] == Quote
  {
    MatchAtChars(s, EndTag, j);
    if 0 <= j < |s| && s[j] == Quote {
      assert s[j + 0] == EndTag[0];
    }
  }

  /** The marker starts with `<`. */
  lemma MarkerStartsWithLt(s: string, j: int)
    requires MatchAt(s, StartTag, j)
    ensures s[j] == '<'
  {
    MatchAtChars(s, StartTag, j);
    assert s[j + 0] == StartTag[0];
  }

  /** A slice equal to the marker is an occurrence of it. */
  lemma MarkerAt(s: string, j: nat)
    requires j + |StartTag| <= |s| && s[j..j + |StartTag|] == StartTag
    ensures MatchAt(s, StartTag, j)
  {
    forall k | 0 <= k < |StartTag| ensures s[j + k] == StartTag[k] {
      assert s[j..j + |StartTag|][k] == s[j + k];
    }
    MatchAtChars(s, StartTag, j);
  }

  /** The first `"` at or after `from` is at `k`. */
  lemma ClosingQuoteAt(s: string, from: nat, k: nat)
    requires from <= k < |s| && s[k] == Quote
    requires forall j :: from <= j < k ==> s[j] != Quote
    ensures FirstMatchFrom(s, EndTag, from) == k
  {
    QuoteAt(s, k);
    forall j | from <= j < k ensures !MatchAt(s, EndTag, j) {
      QuoteAt(s, j);
    }
    FirstMatchFromAt(s, EndTag, from, k);
  }

  /** No `"` at or after `from`. */
  lemma NoClosingQuote(s: string, from: nat)
    requires forall j :: from <= j < |s| ==> s[j] != Quote
    ensures FirstMatchFrom(s, EndTag, from) == -1
  {
    forall j | from <= j ensures !MatchAt(s, EndTag, j) {
      QuoteAt(s, j);
    }
    FirstMatchFromNone(s, EndTag, from);
  }

  /** The text between `from` and the first `"` after it holds no `"`. */
  lemma BeforeClosingQuote(s: string, from: nat)
    requires FirstMatchFrom(s, EndTag, from) != -1
    ensures Quote !in s[from..FirstMatchFrom(s, EndTag, from)]
  {
    var c := FirstMatchFrom(s, EndTag, from);
    FirstMatchFromIsFirst(s, EndTag, from);
    forall j | from <= j < c ensures s[j] != Quote {
      QuoteAt(s, j);
    }
  }

  /** The first marker at or after `from` is at `k` when nothing between holds a `<`. */
  lemma MarkerFirstAt(s: string, from: nat, k: nat)
    requires from <= k && MatchAt(s, StartTag, k)
    requires forall j :: from <= j < k ==> s[j] != '<'
    ensures FirstMatchFrom(s, StartTag, from) == k
  {
    forall j | from <= j < k && MatchAt(s, StartTag, j) ensures false {
      MarkerStartsWithLt(s, j);
    }
    FirstMatchFromAt(s, StartTag, from, k);
  }

  /** No marker at or after `from` when nothing there is a `<`. */
  lemma NoMarkerAfter(s: string, from: nat)
    requires forall j :: from <= j < |s| ==> s[j] != '<'
    ensures FirstMatchFrom(s, StartTag, from) == -1
  {
    forall j | from <= j && MatchAt(s, StartTag, j) ensures false {
      MarkerStartsWithLt(s, j);
    }
    FirstMatchFromNone(s, StartTag, from);
  }

  /** `s[i..j]`, character by character. */
  function Substring(s: string, i: nat, j: nat): string
    requires i <= j <= |s|
    decreases j - i
  {
    if i == j then [] else [s[i]] + Substring(s, i + 1, j)
  }

  lemma {:induction false} SubstringIsSlice(s: string, i: nat, j: nat)
    requires i <= j <= |s|
    ensures Substring(s, i, j) == s[i..j]
    decreases j - i
  {
    if i < j {
      SubstringIsSlice(s, i + 1, j);
      assert s[i..j] == [s[i]] + s[i + 1..j];
    }
  }

  /** What one pass of the loop body does, as written. */
  datatype Step = Stop | Found(url: string, next: nat)

  /** One pass starting at `startIdx`: search the suffix from `startIdx` for the marker, then
      (as written) use the offset found, which is relative to that suffix, as an absolute one. */
  function StepAsWritten(content: string, startIdx: nat): (s: Step)
    requires startIdx <= |content|
    ensures s.Found? ==> s.next <= |content|
  {
    var i := SuffixIndex(content, startIdx, StartTag);
    if i == -1 then Stop
    else
      var from := i + |StartTag|;
      var e := SuffixIndex(content, from, EndTag);
      if e == -1 then Stop
      else
        Found(Substring(content, from, from + e), from + e)
  }

  /** The loop as written, entered with `startIdx` and the URLs `urls` collected so far, and
      run for at most `fuel` more passes: the URLs it returns and whether it left by `break`
      (false: it was still running when the fuel ran out). Passes only append, and what they
      append holds no `"`. */
  function ScanAsWritten(content: string, startIdx: nat, fuel: nat, urls: seq<string>): (r: (seq<string>, bool))
    requires startIdx <= |content|
    decreases fuel
  {
    if fuel == 0 then (urls, false)
    else
      match StepAsWritten(content, startIdx)
      case Stop => (urls, true)
      case Found(url, next) => ScanAsWritten(content, next, fuel - 1, urls + [url])
  }

  /** A pass that stops ends the loop with what was collected. */
  lemma ScanStops(content: string, startIdx: nat, fuel: nat, urls: seq<string>)
    requires startIdx <= |content| && fuel > 0
    requires StepAsWritten(content, startIdx) == Stop
    ensures ScanAsWritten(content, startIdx, fuel, urls) == (urls, true)
  {
  }

  /** A pass that finds a URL appends it and goes on from where it stopped. */
  lemma ScanFinds(content: string, startIdx: nat, fuel: nat, urls: seq<string>, url: string, next: nat)
    requires startIdx <= |content| && fuel > 0
    requires StepAsWritten(content, startIdx) == Found(url, next)
    ensures next <= |content|
    ensures ScanAsWritten(content, startIdx, fuel, urls) == ScanAsWritten(content, next, fuel - 1, urls + [url])
  {
  }

  /** Passes only append: what was collected before is a prefix of what the loop returns. */
  lemma {:induction false} ScanExtends(content: string, startIdx: nat, fuel: nat, urls: seq<string>)
    requires startIdx <= |content|
    ensures urls <= ScanAsWritten(content, startIdx, fuel, urls).0
    decreases fuel
  {
    if fuel > 0 && StepAsWritten(content, startIdx).Found? {
      var s := StepAsWritten(content, startIdx);
      ScanExtends(content, s.next, fuel - 1, urls + [s.url]);
    }
  }

  /** A pass takes the text up to the first `"` after the marker, so what it appends holds no `"`. */
  lemma StepQuoteFree(content: string, startIdx: nat)
    requires startIdx <= |content|
    ensures StepAsWritten(content, startIdx).Found? ==> Quote !in StepAsWritten(content, startIdx).url
  {
    var i := SuffixIndex(content, startIdx, StartTag);
    if i != -1 {
      var from := i + |StartTag|;
      if SuffixIndex(content, from, EndTag) != -1 {
        BeforeClosingQuote(content, from);
        SubstringIsSlice(content, from, FirstMatchFrom(content, EndTag, from));
      }
    }
  }

  /** No URL the loop as written returns holds a `"`. */
  lemma {:induction false} ScanQuoteFree(content: string, startIdx: nat, fuel: nat, urls: seq<string>)
    requires startIdx <= |content|
    requires forall u :: u in urls ==> Quote !in u
    ensures forall u :: u in ScanAsWritten(content, startIdx, fuel, urls).0 ==> Quote !in u
    decreases fuel
  {
    if fuel > 0 && StepAsWritten(content, startIdx).Found? {
      var s := StepAsWritten(content, startIdx);
      StepQuoteFree(content, startIdx);
      ScanQuoteFree(content, s.next, fuel - 1, urls + [s.url]);
    }
  }

  /** The loop as written collects no URL from text that contains no marker, and ends on its own. */
  lemma {:induction false} NoMarkerNoURLs(content: string, fuel: nat)
    requires fuel > 0
    requires forall j :: !MatchAt(content, StartTag, j)
    ensures ScanAsWritten(content, 0, fuel, []) == ([], true)
  {
    FirstMatchFromNone(content, StartTag, 0);
  }

  /** When the first marker has no `"` after it, the loop breaks with nothing collected. */
  lemma {:induction false} UnclosedMarkerNoURLs(content: string, m: nat, fuel: nat)
    requires fuel > 0
    requires MatchAt(content, StartTag, m)
    requires forall j :: 0 <= j < m ==> !MatchAt(content, StartTag, j)
    requires forall j :: m + |StartTag| <= j < |content| ==> content[j] != Quote
    ensures ScanAsWritten(content, 0, fuel, []) == ([], true)
  {
    FirstMatchFromAt(content, StartTag, 0, m);
    NoClosingQuote(content, m + |StartTag|);
  }

  /** The marker occurs at `m` and nowhere else. */
  ghost predicate OnlyMarkerAt(content: string, m: nat)
  {
    MatchAt(content, StartTag, m) && forall j :: MatchAt(content, StartTag, j) ==> j == m
  }

  /** With exactly one marker, at `m`, and a `"` after it, first at `c`, the loop as written
      returns exactly the text between the marker and that `"`, then ends on its own. */
  lemma {:induction false} OneMarkerOneURL(content: string, m: nat, c: nat, fuel: nat)
    requires fuel >= 2
    requires OnlyMarkerAt(content, m)
    requires m + |StartTag| <= c < |content| && content[c] == Quote
    requires forall j :: m + |StartTag| <= j < c ==> content[j] != Quote
    ensures ScanAsWritten(content, 0, fuel, []) == ([content[m + |StartTag|..c]], true)
  {
    var url := content[m + |StartTag|..c];
    FirstMatchFromAt(content, StartTag, 0, m);
    ClosingQuoteAt(content, m + |StartTag|, c);
    SubstringIsSlice(content, m + |StartTag|, c);
    assert StepAsWritten(content, 0) == Found(url, c);
    FirstMatchFromNone(content, StartTag, c);
    ScanFinds(content, 0, fuel, [], url, c);
    ScanStops(content, c, fuel - 1, [] + [url]);
    assert [] + [url] == [url];
  }

  /** The body `<img src="a"><img src="b">`: two well-formed image tags. */
  const TwoTags: string := "<img src=\"a\"><img src=\"b\">"

  /** As written, the first pass on `<img src="a"><img src="b">` takes `a` and stops at offset 11. */
  lemma TwoTagsFirstPass()
    ensures StepAsWritten(TwoTags, 0) == Found("a", 11)
  {
    assert ImgTag("a") == TwoTags[..13];
    assert ImgTag("b") == TwoTags[13..];
    assert TwoTags == TwoTags[..13] + TwoTags[13..];
    FirstTag("a", ImgTag("b"));
  }

  /** The second pass searches from offset 11, finds the marker at relative offset 2
      and starts the URL at offset 12, so it returns `><img src=` instead of `b`. */
  lemma TwoTagsSecondPass()
    ensures StepAsWritten(TwoTags, 11) == Found("><img src=", 22)
  {
    TwoTagsSecondMarker();
    ClosingQuoteAt(TwoTags, 12, 22);
    TwoTagsSecondURL();
  }

  /** The text from offset 12 to the `"` at 22 is `><img src=`. */
  lemma TwoTagsSecondURL()
    ensures Substring(TwoTags, 12, 22) == "><img src="
  {
    SubstringIsSlice(TwoTags, 12, 22);
    assert TwoTags[12..22] == "><img src=";
  }

  /** The second tag's marker is the first one at or after offset 11. */
  lemma TwoTagsSecondMarker()
    ensures FirstMatchFrom(TwoTags, StartTag, 11) == 13
  {
    assert TwoTags == ImgTag("a") + StartTag + "b\">";
    MarkerOpens(ImgTag("a"), "b\">");
    MarkerFirstAt(TwoTags, 11, 13);
  }

  /** The third pass finds no marker after offset 22. */
  lemma TwoTagsThirdPass()
    ensures StepAsWritten(TwoTags, 22) == Stop
  {
    NoMarkerAfter(TwoTags, 22);
  }

  /** As written, `<img src="a"><img src="b">` yields `a` and then `><img src=`, not `b`. */
  lemma TwoTagsAsWritten(fuel: nat)
    requires fuel >= 3
    ensures ScanAsWritten(TwoTags, 0, fuel, []) == (["a", "><img src="], true)
  {
    TwoTagsFirstPass();
    TwoTagsSecondPass();
    TwoTagsThirdPass();
    ScanFinds(TwoTags, 0, fuel, [], "a", 11);
    ScanFinds(TwoTags, 11, fuel - 1, [] + ["a"], "><img src=", 22);
    ScanStops(TwoTags, 22, fuel - 2, [] + ["a"] + ["><img src="]);
    assert [] + ["a"] + ["><img src="] == ["a", "><img src="];
  }

  /** The body `<img src="a"<img src="b">`: a tag missing its closing `>`. */
  const Looping: string := "<img src=\"a\"<img src=\"b\">"

  /** As written, the pass that starts at offset 11 finds the marker at relative offset 1,
      takes offset 11 as the URL's start, finds `"` right there, appends "" and stays at 11. */
  lemma LoopingReentersState()
    ensures StepAsWritten(Looping, 0) == Found("a", 11)
    ensures StepAsWritten(Looping, 11) == Found("", 11)
  {
    LoopingFirstMarker();
    assert Looping[10] != Quote && Looping[11] == Quote;
    ClosingQuoteAt(Looping, 10, 11);
    LoopingSecondMarker();
    ClosingQuoteAt(Looping, 11, 11);
  }

  lemma LoopingFirstMarker()
    ensures FirstMatchFrom(Looping, StartTag, 0) == 0
  {
    assert Looping == [] + StartTag + ("a\"" + ImgTag("b"));
    MarkerOpens([], "a\"" + ImgTag("b"));
    MarkerFirstAt(Looping, 0, 0);
  }

  /** The second marker, at 12, is the first one at or after offset 11. */
  lemma LoopingSecondMarker()
    ensures FirstMatchFrom(Looping, StartTag, 11) == 12
  {
    assert Looping == StartTag + "a\"" + StartTag + "b\">";
    MarkerOpens(StartTag + "a\"", "b\">");
    MarkerFirstAt(Looping, 11, 12);
  }

  /** A pass that finds `u` and goes back to where it started is repeated on every later
      pass: each appends `u`, and the loop never ends, whatever the fuel. */
  lemma {:induction false} ScanRepeatsForever(content: string, at: nat, u: string, fuel: nat, urls: seq<string>)
    requires at <= |content| && StepAsWritten(content, at) == Found(u, at)
    ensures var r := ScanAsWritten(content, at, fuel, urls);
      !r.1 && |r.0| == |urls| + fuel && forall i :: |urls| <= i < |r.0| ==> r.0[i] == u
    decreases fuel
  {
    if fuel > 0 {
      ScanFinds(content, at, fuel, urls, u, at);
      ScanRepeatsForever(content, at, u, fuel - 1, urls + [u]);
      ScanExtends(content, at, fuel - 1, urls + [u]);
      var r := ScanAsWritten(content, at, fuel - 1, urls + [u]);
      assert r.0[|urls|] == (urls + [u])[|urls|];
    }
  }

  /** `findImageURLs` as written does not terminate on `<img src="a"<img src="b">`:
      however many passes it is given, it is still running after them. */
  lemma LoopingNeverFinishes(fuel: nat)
    ensures !ScanAsWritten(Looping, 0, fuel, []).1
  {
    if fuel > 0 {
      LoopingReentersState();
      ScanFinds(Looping, 0, fuel, [], "a", 11);
      ScanRepeatsForever(Looping, 11, "", fuel - 1, [] + ["a"]);
    }
  }

  /** The UTF-8 bytes of `<img src="éééé"xxxxxx<img src="b"`, one character per byte: each
      `é` is the two bytes `C3 A9`. The offsets the loop mixes up are byte offsets, so a
      relative offset can land inside a multi-byte character. */
  const MultiByte: string :=
    "<img src=\"\U{C3}\U{A9}\U{C3}\U{A9}\U{C3}\U{A9}\U{C3}\U{A9}\"xxxxxx<img src=\"b\""

  /** As written, the first pass on those bytes ends at the `"` at offset 18; the next pass
      finds the second marker at relative offset 7, starts its URL at offset 17, inside the
      last `é`, takes the single byte `A9` and is back at 18. */
  lemma MultiByteReentersState()
    ensures StepAsWritten(MultiByte, 0).Found? && StepAsWritten(MultiByte, 0).next == 18
    ensures StepAsWritten(MultiByte, 18) == Found("\U{A9}", 18)
  {
    MultiByteFirstPass();
    MultiByteSecondPass();
  }

  lemma MultiByteFirstPass()
    ensures StepAsWritten(MultiByte, 0).Found? && StepAsWritten(MultiByte, 0).next == 18
  {
    MultiByteFirstMarker();
    MultiByteFirstURL();
    ClosingQuoteAt(MultiByte, 10, 18);
  }

  lemma MultiByteSecondPass()
    ensures StepAsWritten(MultiByte, 18) == Found("\U{A9}", 18)
  {
    MultiByteSecondMarker();
    MultiByteFirstURL();
    ClosingQuoteAt(MultiByte, 17, 18);
    MultiByteLoneByte();
  }

  /** Offsets 10 to 17 hold the four `é`, two bytes each, and offset 18 the closing `"`. */
  lemma MultiByteFirstURL()
    ensures forall j :: 10 <= j < 18 ==> MultiByte[j] != Quote
    ensures MultiByte[18] == Quote
  {
    assert MultiByte[10] == '\U{C3}';
    assert MultiByte[11] == '\U{A9}';
    assert MultiByte[12] == '\U{C3}';
    assert MultiByte[13] == '\U{A9}';
    assert MultiByte[14] == '\U{C3}';
    assert MultiByte[15] == '\U{A9}';
    assert MultiByte[16] == '\U{C3}';
    assert MultiByte[17] == '\U{A9}';
  }

  /** The URL of the second pass is the byte at offset 17 alone. */
  lemma MultiByteLoneByte()
    ensures Substring(MultiByte, 17, 18) == "\U{A9}"
  {
    assert Substring(MultiByte, 17, 18) == [MultiByte[17]] + Substring(MultiByte, 18, 18);
  }

  /** The first marker is at offset 0. */
  lemma MultiByteFirstMarker()
    ensures FirstMatchFrom(MultiByte, StartTag, 0) == 0
  {
    assert MultiByte == [] + StartTag + MultiByte[10..];
    MarkerOpens([], MultiByte[10..]);
    MarkerFirstAt(MultiByte, 0, 0);
  }

  /** The second marker, at 25, is the first one at or after offset 18. */
  lemma MultiByteSecondMarker()
    ensures FirstMatchFrom(MultiByte, StartTag, 18) == 25
  {
    assert MultiByte == MultiByte[..25] + StartTag + "b\"";
    MarkerOpens(MultiByte[..25], "b\"");
    MarkerFirstAt(MultiByte, 18, 25);
  }

  /** `findImageURLs` as written does not terminate on those bytes either: from the second
      pass on it appends the byte `A9` forever. */
  lemma MultiByteNeverFinishes(fuel: nat)
    ensures !ScanAsWritten(MultiByte, 0, fuel, []).1
  {
    if fuel > 0 {
      MultiByteReentersState();
      var s := StepAsWritten(MultiByte, 0);
      ScanFinds(MultiByte, 0, fuel, [], s.url, 18);
      ScanRepeatsForever(MultiByte, 18, "\U{A9}", fuel - 1, [] + [s.url]);
    }
  }

  // ---------------------------------------------------------------------------
  // The same scan with absolute offsets.

  /** The first reference at or after `at`: the text between the next marker and the
      first `"` after it, and the offset of that `"`. */
  function NextRef(content: string, at: nat): (s: Step)
    requires at <= |content|
    ensures s.Found? ==> at < s.next <= |content|
  {
    var m := FirstMatchFrom(content, StartTag, at);
    if m == -1 then Stop
    else
      var from := m + |StartTag|;
      var c := FirstMatchFrom(content, EndTag, from);
      if c == -1 then Stop
      else Found(Substring(content, from, c), c)
  }

  /** The URLs of all `<img src="…"` references of `content` that start at or after `at`,
      in document order. */
  function URLsFrom(content: string, at: nat): seq<string>
    requires at <= |content|
    decreases |content| - at
  {
    match NextRef(content, at)
    case Stop => []
    case Found(url, next) => [url] + URLsFrom(content, next)
  }

  /** One pass of the fixed loop: the URL it takes comes first among those left. */
  lemma URLsFromStep(content: string, at: nat, from: nat, c: nat)
    requires at <= |content|
    requires FirstMatchFrom(content, StartTag, at) != -1
    requires from == FirstMatchFrom(content, StartTag, at) + |StartTag|
    requires FirstMatchFrom(content, EndTag, from) == c
    ensures URLsFrom(content, at) == [content[from..c]] + URLsFrom(content, c)
  {
    SubstringIsSlice(content, from, c);
  }

  /** The fixed scan finds no reference before the first marker, and none when there is
      no marker or no `"` after the first one. */
  lemma URLsFromNone(content: string, at: nat)
    requires at <= |content|
    requires FirstMatchFrom(content, StartTag, at) == -1 ||
      FirstMatchFrom(content, EndTag, FirstMatchFrom(content, StartTag, at) + |StartTag|) == -1
    ensures URLsFrom(content, at) == []
  {
  }

  /** Every reference the fixed scan returns is free of `"`: it stops at the first one. */
  lemma {:induction false} URLsQuoteFree(content: string, at: nat)
    requires at <= |content|
    ensures forall u :: u in URLsFrom(content, at) ==> Quote !in u
    decreases |content| - at
  {
    var m := FirstMatchFrom(content, StartTag, at);
    if m != -1 {
      var from := m + |StartTag|;
      var c := FirstMatchFrom(content, EndTag, from);
      if c != -1 {
        BeforeClosingQuote(content, from);
        URLsFromStep(content, at, from, c);
        URLsQuoteFree(content, c);
      }
    }
  }

  /** A well-formed image tag whose source is `url`. */
  function ImgTag(url: string): string
  {
    StartTag + url + "\">"
  }

  /** A body made of one well-formed image tag per URL, in order. */
  function Tags(urls: seq<string>): string
  {
    if urls == [] then "" else ImgTag(urls[0]) + Tags(urls[1..])
  }

  /** The marker written out at offset `|p|` is an occurrence there. */
  lemma MarkerOpens(p: string, t: string)
    ensures MatchAt(p + StartTag + t, StartTag, |p|)
  {
    var s := p + StartTag + t;
    forall i | 0 <= i < |StartTag| ensures s[|p| + i] == StartTag[i] {
    }
    MatchAtChars(s, StartTag, |p|);
  }

  /** A body that opens with a well-formed tag: the marker is at 0, the first `"` after it
      closes the source, and the source is `url`. */
  lemma FirstTag(url: string, rest: string)
    requires Quote !in url
    ensures var s := ImgTag(url) + rest;
      FirstMatchFrom(s, StartTag, 0) == 0 &&
      FirstMatchFrom(s, EndTag, |StartTag|) == |StartTag| + |url| &&
      s[|StartTag|..|StartTag| + |url|] == url
  {
    var s := ImgTag(url) + rest;
    var n := |StartTag|;
    assert s == [] + StartTag + (url + ("\">" + rest));
    MarkerOpens([], url + ("\">" + rest));
    FirstMatchFromAt(s, StartTag, 0, 0);
    forall j | n <= j < n + |url| ensures s[j] != Quote {
      assert s[j] == url[j - n];
    }
    ClosingQuoteAt(s, n, n + |url|);
  }

  /** `s` holds `t` from offset `d` to its end. */
  ghost predicate EndsWith(s: string, t: string, d: nat)
  {
    |s| == d + |t| && forall i :: 0 <= i < |t| ==> s[d + i] == t[i]
  }

  /** Occurrences in `t` are occurrences in `s`, shifted by `d`. */
  lemma {:induction false} FirstMatchShift(s: string, t: string, d: nat, pat: string, k: nat)
    requires EndsWith(s, t, d) && k <= |t|
    ensures FirstMatchFrom(s, pat, d + k) ==
      if FirstMatchFrom(t, pat, k) == -1 then -1 else d + FirstMatchFrom(t, pat, k)
    decreases |t| - k
  {
    if |t| >= k + |pat| {
      assert MatchAt(s, pat, d + k) <==> MatchAt(t, pat, k) by {
        MatchAtChars(s, pat, d + k);
        MatchAtChars(t, pat, k);
      }
      if !MatchAt(t, pat, k) {
        FirstMatchShift(s, t, d, pat, k + 1);
      }
    }
  }

  /** A substring of `t` is the same substring of `s`, shifted by `d`. */
  lemma {:induction false} SubstringShift(s: string, t: string, d: nat, i: nat, j: nat)
    requires EndsWith(s, t, d) && i <= j <= |t|
    ensures Substring(s, d + i, d + j) == Substring(t, i, j)
    decreases j - i
  {
    if i < j {
      SubstringShift(s, t, d, i + 1, j);
      assert s[d + i] == t[i];
      assert Substring(s, d + i, d + j) == [s[d + i]] + Substring(s, d + i + 1, d + j);
    }
  }

  /** The next reference of `t` is the next one of `s`, shifted by `d`. */
  lemma NextRefShift(s: string, t: string, d: nat, k: nat)
    requires EndsWith(s, t, d) && k <= |t|
    ensures NextRef(s, d + k) ==
      match NextRef(t, k)
      case Stop => Stop
      case Found(url, next) => Found(url, d + next)
  {
    FirstMatchShift(s, t, d, StartTag, k);
    var m := FirstMatchFrom(t, StartTag, k);
    if m != -1 {
      var from := m + |StartTag|;
      FirstMatchShift(s, t, d, EndTag, from);
      var c := FirstMatchFrom(t, EndTag, from);
      if c != -1 {
        SubstringShift(s, t, d, from, c);
      }
    }
  }

  /** The references of `t` are those of `s` after offset `d`. */
  lemma {:induction false} URLsShift(s: string, t: string, d: nat, k: nat)
    requires EndsWith(s, t, d) && k <= |t|
    ensures URLsFrom(s, d + k) == URLsFrom(t, k)
    decreases |t| - k
  {
    NextRefShift(s, t, d, k);
    if NextRef(t, k).Found? {
      URLsShift(s, t, d, NextRef(t, k).next);
    }
  }

  /** Text that holds no `<` can be skipped: the references after it are all there are. */
  lemma {:induction false} SkipNoMarker(s: string, a: nat, b: nat)
    requires a <= b <= |s|
    requires forall j :: a <= j < b ==> s[j] != '<'
    ensures URLsFrom(s, a) == URLsFrom(s, b)
  {
    var m := FirstMatchFrom(s, StartTag, b);
    FirstMatchFromIsFirst(s, StartTag, b);
    forall j | a <= j < b && MatchAt(s, StartTag, j) ensures false {
      MarkerStartsWithLt(s, j);
    }
    if m == -1 {
      FirstMatchFromNone(s, StartTag, a);
    } else {
      FirstMatchFromAt(s, StartTag, a, m);
    }
  }

  /** `p` followed by `t` ends with `t`. */
  lemma ConcatEndsWith(p: string, t: string)
    ensures EndsWith(p + t, t, |p|)
  {
  }

  /** Where a well-formed tag's source ends: the `"` and the `>` that close the tag. */
  lemma TagEnd(url: string, rest: string)
    ensures var s := ImgTag(url) + rest; var e := |StartTag| + |url|;
      |ImgTag(url)| == e + 2 && s[e] == Quote && s[e + 1] == '>'
  {
  }

  /** A body that opens with a well-formed tag yields the tag's source, then the references
      of what follows the tag. */
  lemma TagThenRest(url: string, rest: string)
    requires Quote !in url
    ensures URLsFrom(ImgTag(url) + rest, 0) == [url] + URLsFrom(rest, 0)
  {
    var tag := ImgTag(url);
    var s := tag + rest;
    var e := |StartTag| + |url|;
    FirstTag(url, rest);
    URLsFromStep(s, 0, |StartTag|, e);
    TagEnd(url, rest);
    SkipNoMarker(s, e, |tag|);
    ConcatEndsWith(tag, rest);
    URLsShift(s, rest, |tag|, 0);
  }

  /** N well-formed tags give exactly their N sources, in order, duplicates included. */
  lemma {:induction false} TagsGiveTheirURLs(urls: seq<string>)
    requires forall u :: u in urls ==> Quote !in u
    ensures URLsFrom(Tags(urls), 0) == urls
  {
    if urls != [] {
      TagThenRest(urls[0], Tags(urls[1..]));
      TagsGiveTheirURLs(urls[1..]);
      assert urls == [urls[0]] + urls[1..];
    }
  }

  /** The corrected scan returns both sources of `<img src="a"><img src="b">`. */
  lemma TwoTagsFixed()
    ensures URLsFrom(TwoTags, 0) == ["a", "b"]
  {
    assert TwoTags == Tags(["a", "b"]);
    TagsGiveTheirURLs(["a", "b"]);
  }

  /** On a body with at most one marker the loop as written agrees with the fixed one,
      given fuel for the two passes it makes. */
  lemma {:induction false} AsWrittenAgreesOnOneMarker(content: string, fuel: nat)
    requires fuel >= 2
    requires forall j, k :: MatchAt(content, StartTag, j) && MatchAt(content, StartTag, k) ==> j == k
    ensures ScanAsWritten(content, 0, fuel, []) == (URLsFrom(content, 0), true)
  {
    var m := FirstMatchFrom(content, StartTag, 0);
    FirstMatchFromIsFirst(content, StartTag, 0);
    if m == -1 {
      ScanStops(content, 0, fuel, []);
    } else {
      var from := m + |StartTag|;
      var c := FirstMatchFrom(content, EndTag, from);
      if c == -1 {
        ScanStops(content, 0, fuel, []);
      } else {
        var url := content[from..c];
        FirstMatchFromNone(content, StartTag, c);
        SubstringIsSlice(content, from, c);
        assert StepAsWritten(content, 0) == Found(url, c);
        ScanFinds(content, 0, fuel, [], url, c);
        assert StepAsWritten(content, c) == Stop;
        ScanStops(content, c, fuel - 1, [] + [url]);
        URLsFromStep(content, 0, from, c);
        assert URLsFrom(content, c) == [];
        assert [] + [url] == [url] + [];
      }
    }
  }
}
