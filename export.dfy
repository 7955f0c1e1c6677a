/** The exporter's control flow: the page loop of `main`, `saveMarkdown` and
    `downloadImages`. Every effect on the outside world (the HTTP requests, the
    HTML-to-Markdown converter, the filesystem) is answered by an oracle, and a run is
    reported as the trace of the effects it attempted and how each turned out. */
module Export {
  import opened ImageRefs
  import opened ImageScanner
  import opened Naming
  import opened ScanTermination

  datatype Option<T> = None | Some(value: T)

  /** A fetched page: its title and its body in storage format (HTML). */
  datatype Page = Page(title: string, body: string)

  /** How the outside world answers. Effects are indexed by the position `k` of the page in
      the list of page IDs and, for images, by the position `j` of the image on the page,
      so the same request may be answered differently at different times. */
  datatype Effects = Effects(
    // fetchConfluencePage: the decoded page, or None for a request, status or decoding error
    fetch: (nat, string) -> Option<Page>,
    // os.MkdirAll of the page directory
    mkdir: (nat, string) -> bool,
    // the HTML-to-Markdown converter: the Markdown, or None for a conversion error
    convert: string -> Option<string>,
    // os.Create and WriteString of the Markdown file, given its directory and name
    create: (nat, string, string) -> bool,
    write: (nat, string, string) -> bool,
    // the image GET: the response's status code, or None for a request error
    get: (nat, nat, string) -> Option<nat>,
    // os.Create and io.Copy of the image file, given its directory and name
    createImage: (nat, nat, string, string) -> bool,
    copy: (nat, nat, string, string) -> bool)

  /** One attempted effect and whether it succeeded. Directories are named relative to the
      backup directory, files by their directory and their name in it. */
  datatype Event =
    | Fetch(pageID: string, ok: bool)
    | Mkdir(dir: string, ok: bool)
    | Convert(ok: bool)
    | CreateFile(dir: string, name: string, ok: bool)
    | WriteFile(dir: string, name: string, text: string, ok: bool)
    | Get(url: string, ok: bool)
    | CreateImage(dir: string, name: string, ok: bool)
    | CopyImage(dir: string, name: string, ok: bool)

  /** The stage of a page an event belongs to: fetch, directory, the three steps of
      `saveMarkdown`, and the images. */
  function Rank(e: Event): nat
  {
    match e
    case Fetch(_, _) => 0
    case Mkdir(_, _) => 1
    case Convert(_) => 2
    case CreateFile(_, _, _) => 3
    case WriteFile(_, _, _, _) => 4
    case _ => ImageRank
  }

  const ImageRank: nat := 5

  // ---------------------------------------------------------------------------
  // saveMarkdown

  /** What `saveMarkdown` attempts, and whether it returns no error. */
  function SaveRun(eff: Effects, k: nat, dir: string, title: string, html: string): (seq<Event>, bool)
  {
    match eff.convert(html)
    case None => ([Convert(false)], false)
    case Some(md) =>
      var name := MarkdownName(title);
      if !eff.create(k, dir, name) then ([Convert(true), CreateFile(dir, name, false)], false)
      else
        var ok := eff.write(k, dir, name);
        ([Convert(true), CreateFile(dir, name, true), WriteFile(dir, name, md, ok)], ok)
  }

  /** `saveMarkdown(outputDir, title, content)`. */
  method SaveMarkdown(eff: Effects, k: nat, outputDir: string, title: string, content: string)
    returns (events: seq<Event>, ok: bool)
    ensures (events, ok) == SaveRun(eff, k, outputDir, title, content)
  {
    var markdownContent := eff.convert(content);
    if markdownContent.None? {
      events, ok := [Convert(false)], false;
      return;
    }
    var fileName := MarkdownName(title);
    if !eff.create(k, outputDir, fileName) {
      events, ok := [Convert(true), CreateFile(outputDir, fileName, false)], false;
      return;
    }
    ok := eff.write(k, outputDir, fileName);
    events := [Convert(true), CreateFile(outputDir, fileName, true),
               WriteFile(outputDir, fileName, markdownContent.value, ok)];
  }

  /** `saveMarkdown` converts before it creates anything: no file is created when the
      conversion fails. The only file it writes is the page's `.md` file in `dir`, and what
      it writes is exactly the converter's output. It returns no error exactly when that
      write succeeded. */
  lemma SaveMarkdownMeaning(eff: Effects, k: nat, dir: string, title: string, html: string)
    ensures var r := SaveRun(eff, k, dir, title, html);
      r.0 != [] && r.0[0] == Convert(eff.convert(html).Some?) &&
      (forall i :: 0 <= i < |r.0| && r.0[i].CreateFile? ==>
        eff.convert(html).Some? && r.0[i].dir == dir && r.0[i].name == MarkdownName(title)) &&
      (forall i :: 0 <= i < |r.0| && r.0[i].WriteFile? ==>
        eff.convert(html).Some? && r.0[i].text == eff.convert(html).value &&
        r.0[i].dir == dir && r.0[i].name == MarkdownName(title)) &&
      (r.1 <==> (eff.convert(html).Some? &&
        WriteFile(dir, MarkdownName(title), eff.convert(html).value, true) in r.0))
  {
  }

  // ---------------------------------------------------------------------------
  // downloadImages

  /** What one pass of `downloadImages`' loop attempts for the `j`-th URL: the GET, then
      (unless it failed) the file named by `filepath.Base` of the URL, then (unless that
      failed) the copy. The response's status code is not looked at. */
  function ImageAttempt(eff: Effects, k: nat, j: nat, dir: string, url: string): seq<Event>
  {
    var name := Base(url);
    match eff.get(k, j, url)
    case None => [Get(url, false)]
    case Some(_) =>
      if !eff.createImage(k, j, dir, name) then [Get(url, true), CreateImage(dir, name, false)]
      else [Get(url, true), CreateImage(dir, name, true), CopyImage(dir, name, eff.copy(k, j, dir, name))]
  }

  /** What the first `n` passes attempt. */
  function ImagesUpTo(eff: Effects, k: nat, dir: string, urls: seq<string>, n: nat): seq<Event>
    requires n <= |urls|
  {
    if n == 0 then []
    else ImagesUpTo(eff, k, dir, urls, n - 1) + ImageAttempt(eff, k, n - 1, dir, urls[n - 1])
  }

  /** What `downloadImages` attempts, and whether its scan of the body ended within `fuel`
      passes (when it does not, the exporter never gets past it). */
  function DownloadRun(eff: Effects, k: nat, dir: string, html: string, fuel: nat): (seq<Event>, bool)
  {
    var scan := ScanAsWritten(html, 0, fuel, []);
    if !scan.1 then ([], false)
    else (ImagesUpTo(eff, k, dir, scan.0, |scan.0|), true)
  }

  /** `downloadImages(outputDir, content, …)`. It has no error result: the source returns nil
      on every path. */
  method DownloadImages(eff: Effects, k: nat, outputDir: string, content: string, scanFuel: nat)
    returns (events: seq<Event>, finished: bool)
    ensures (events, finished) == DownloadRun(eff, k, outputDir, content, scanFuel)
  {
    var imageURLs;
    imageURLs, finished := FindImageURLs(content, scanFuel);
    events := [];
    if !finished {
      return;
    }
    for j := 0 to |imageURLs|
      invariant events == ImagesUpTo(eff, k, outputDir, imageURLs, j)
    {
      var imgURL := imageURLs[j];
      var fileName := Base(imgURL);
      var resp := eff.get(k, j, imgURL);
      if resp.None? {
        events := events + [Get(imgURL, false)];
        continue;
      }
      if !eff.createImage(k, j, outputDir, fileName) {
        events := events + [Get(imgURL, true), CreateImage(outputDir, fileName, false)];
        continue;
      }
      var copied := eff.copy(k, j, outputDir, fileName);
      events := events + [Get(imgURL, true), CreateImage(outputDir, fileName, true),
                          CopyImage(outputDir, fileName, copied)];
    }
  }

  /** The URLs of the GET events of a trace, in order. */
  function Requested(events: seq<Event>): seq<string>
  {
    if events == [] then []
    else (if events[0].Get? then [events[0].url] else []) + Requested(events[1..])
  }

  lemma {:induction false} RequestedAppend(a: seq<Event>, b: seq<Event>)
    ensures Requested(a + b) == Requested(a) + Requested(b)
    decreases |a|
  {
    if a == [] {
      assert a + b == b;
    } else {
      assert (a + b)[1..] == a[1..] + b;
      RequestedAppend(a[1..], b);
    }
  }

  /** Each pass requests its URL once. */
  lemma AttemptRequestsOnce(eff: Effects, k: nat, j: nat, dir: string, url: string)
    ensures Requested(ImageAttempt(eff, k, j, dir, url)) == [url]
  {
    var a := ImageAttempt(eff, k, j, dir, url);
    assert Requested(a[|a|..]) == [];
    if |a| >= 2 {
      assert Requested(a[2..]) == [];
    }
  }

  /** Every URL found gets exactly one download attempt, in order, whatever happened to the
      ones before it. */
  lemma {:induction false} ImagesInOrder(eff: Effects, k: nat, dir: string, urls: seq<string>, n: nat)
    requires n <= |urls|
    ensures Requested(ImagesUpTo(eff, k, dir, urls, n)) == urls[..n]
  {
    if n > 0 {
      ImagesInOrder(eff, k, dir, urls, n - 1);
      AttemptRequestsOnce(eff, k, n - 1, dir, urls[n - 1]);
      RequestedStep(ImagesUpTo(eff, k, dir, urls, n - 1), ImageAttempt(eff, k, n - 1, dir, urls[n - 1]), urls, n);
    }
  }

  /** One more attempt that requests the next URL extends the requests by that URL. */
  lemma RequestedStep(prev: seq<Event>, attempt: seq<Event>, urls: seq<string>, n: nat)
    requires 0 < n <= |urls|
    requires Requested(prev) == urls[..n - 1] && Requested(attempt) == [urls[n - 1]]
    ensures Requested(prev + attempt) == urls[..n]
  {
    RequestedAppend(prev, attempt);
    assert urls[..n] == urls[..n - 1] + [urls[n - 1]];
  }

  /** Every event of `downloadImages` is an image event. */
  lemma {:induction false} ImagesOnly(eff: Effects, k: nat, dir: string, urls: seq<string>, n: nat)
    requires n <= |urls|
    ensures forall e :: e in ImagesUpTo(eff, k, dir, urls, n) ==> Rank(e) == ImageRank
  {
    if n > 0 {
      ImagesOnly(eff, k, dir, urls, n - 1);
      AttemptIsImages(eff, k, n - 1, dir, urls[n - 1]);
      AllImages(ImagesUpTo(eff, k, dir, urls, n - 1), ImageAttempt(eff, k, n - 1, dir, urls[n - 1]));
    }
  }

  /** A download attempt is made of image events only. */
  lemma AttemptIsImages(eff: Effects, k: nat, j: nat, dir: string, url: string)
    ensures forall e :: e in ImageAttempt(eff, k, j, dir, url) ==> Rank(e) == ImageRank
  {
  }

  /** Two runs of image events make one. */
  lemma AllImages(a: seq<Event>, b: seq<Event>)
    requires forall e :: e in a ==> Rank(e) == ImageRank
    requires forall e :: e in b ==> Rank(e) == ImageRank
    ensures forall e :: e in a + b ==> Rank(e) == ImageRank
  {
  }

  /** The same oracle, but with every image response a `200 OK`. */
  function AllOK(eff: Effects): Effects
  {
    eff.(get := (k: nat, j: nat, url: string) => if eff.get(k, j, url).None? then None else Some(200))
  }

  /** The status code is never looked at: an image whose GET returns an error status
      (`404`, say) is saved exactly as if it had returned `200 OK`. */
  lemma StatusIgnored(eff: Effects, k: nat, dir: string, urls: seq<string>, n: nat)
    requires n <= |urls|
    ensures ImagesUpTo(eff, k, dir, urls, n) == ImagesUpTo(AllOK(eff), k, dir, urls, n)
  {
  }

  // ---------------------------------------------------------------------------
  // The page loop of main

  /** What the loop body attempts for the `k`-th page ID, and whether the exporter got stuck
      in the image scan of that page. */
  function PageRun(eff: Effects, fuel: nat, k: nat, pageID: string): (seq<Event>, bool)
  {
    match eff.fetch(k, pageID)
    case None => ([Fetch(pageID, false)], false)
    case Some(page) =>
      var dir := DirName(page.title, pageID);
      if !eff.mkdir(k, dir) then ([Fetch(pageID, true), Mkdir(dir, false)], false)
      else
        var save := SaveRun(eff, k, dir, page.title, page.body);
        var head := [Fetch(pageID, true), Mkdir(dir, true)] + save.0;
        if !save.1 then (head, false)
        else
          var images := DownloadRun(eff, k, dir, page.body, fuel);
          (head + images.0, !images.1)
  }

  /** What the first `n` passes of the page loop attempt, and whether the exporter got
      stuck in one of them (it then attempts nothing more). */
  function RunUpTo(eff: Effects, fuel: nat, ids: seq<string>, n: nat): (seq<Event>, bool)
    requires n <= |ids|
  {
    if n == 0 then ([], false)
    else
      var before := RunUpTo(eff, fuel, ids, n - 1);
      if before.1 then before
      else
        var page := PageRun(eff, fuel, n - 1, ids[n - 1]);
        (before.0 + page.0, page.1)
  }

  /** The page loop of `main`: for each page ID in order, fetch the page, create its
      directory, save its Markdown and download its images, and on a failure go on with the
      next page ID. `completed` is false when the exporter got stuck in an image scan that
      did not end within `scanFuel` passes. */
  method ExportPages(eff: Effects, pageIDs: seq<string>, scanFuel: nat)
    returns (events: seq<Event>, completed: bool)
    ensures (events, !completed) == RunUpTo(eff, scanFuel, pageIDs, |pageIDs|)
  {
    events := [];
    for idx := 0 to |pageIDs|
      invariant RunUpTo(eff, scanFuel, pageIDs, idx) == (events, false)
    {
      var pageID := pageIDs[idx];
      var page := eff.fetch(idx, pageID);
      if page.None? {
        events := events + [Fetch(pageID, false)];
        continue;
      }
      var pageDir := DirName(page.value.title, pageID);
      if !eff.mkdir(idx, pageDir) {
        events := events + [Fetch(pageID, true), Mkdir(pageDir, false)];
        continue;
      }
      var saved, ok := SaveMarkdown(eff, idx, pageDir, page.value.title, page.value.body);
      var head := [Fetch(pageID, true), Mkdir(pageDir, true)] + saved;
      if !ok {
        events := events + head;
        continue;
      }
      var downloaded, finished := DownloadImages(eff, idx, pageDir, page.value.body, scanFuel);
      events := events + (head + downloaded);
      if !finished {
        RunStaysStuck(eff, scanFuel, pageIDs, idx + 1, |pageIDs|);
        completed := false;
        return;
      }
    }
    completed := true;
  }

  /** Once the exporter is stuck, later passes attempt nothing. */
  lemma {:induction false} RunStaysStuck(eff: Effects, fuel: nat, ids: seq<string>, n: nat, m: nat)
    requires n <= m <= |ids|
    requires RunUpTo(eff, fuel, ids, n).1
    ensures RunUpTo(eff, fuel, ids, m) == RunUpTo(eff, fuel, ids, n)
    decreases m - n
  {
    if n < m {
      RunStaysStuck(eff, fuel, ids, n, m - 1);
    }
  }

  /** The page IDs of the fetch events of a trace, in order. */
  function Fetched(events: seq<Event>): seq<string>
  {
    if events == [] then []
    else (if events[0].Fetch? then [events[0].pageID] else []) + Fetched(events[1..])
  }

  lemma {:induction false} FetchedAppend(a: seq<Event>, b: seq<Event>)
    ensures Fetched(a + b) == Fetched(a) + Fetched(b)
    decreases |a|
  {
    if a == [] {
      assert a + b == b;
    } else {
      assert (a + b)[1..] == a[1..] + b;
      FetchedAppend(a[1..], b);
    }
  }

  /** No event but the first of a page is a fetch. */
  lemma {:induction false} NoFetchAmong(events: seq<Event>)
    requires forall i :: 0 <= i < |events| ==> Rank(events[i]) > 0
    ensures Fetched(events) == []
    decreases |events|
  {
    if events != [] {
      NoFetchAmong(events[1..]);
    }
  }

  /** Each pass of the page loop fetches its page ID once. */
  lemma PageFetchesOnce(eff: Effects, fuel: nat, k: nat, pageID: string)
    ensures Fetched(PageRun(eff, fuel, k, pageID).0) == [pageID]
  {
    var ev := PageRun(eff, fuel, k, pageID).0;
    PageOrdered(eff, fuel, k, pageID);
    assert forall i :: 1 <= i < |ev| ==> Rank(ev[0]) < Rank(ev[i]);
    NoFetchAmong(ev[1..]);
    assert ev == [ev[0]] + ev[1..];
    FetchedAppend([ev[0]], ev[1..]);
    assert Fetched([ev[0]]) == [pageID] + Fetched([]);
  }

  /** The page IDs are fetched once each, in the order given, whatever happened to the pages
      before: a failure skips only the rest of its own page. The run gets through all of
      them unless it gets stuck in an image scan, and then it has fetched a prefix of them. */
  lemma {:induction false} PagesInOrder(eff: Effects, fuel: nat, ids: seq<string>, n: nat)
    requires n <= |ids|
    ensures Fetched(RunUpTo(eff, fuel, ids, n).0) <= ids[..n]
    ensures !RunUpTo(eff, fuel, ids, n).1 ==> Fetched(RunUpTo(eff, fuel, ids, n).0) == ids[..n]
  {
    if n > 0 {
      PagesInOrder(eff, fuel, ids, n - 1);
      var before := RunUpTo(eff, fuel, ids, n - 1);
      assert ids[..n] == ids[..n - 1] + [ids[n - 1]];
      if !before.1 {
        var page := PageRun(eff, fuel, n - 1, ids[n - 1]);
        PageFetchesOnce(eff, fuel, n - 1, ids[n - 1]);
        FetchedAppend(before.0, page.0);
      }
    }
  }

  /** Events follow the stages in order, and each stage other than the images occurs at
      most once. */
  ghost predicate StagesInOrder(ev: seq<Event>)
  {
    (forall i, j :: 0 <= i < j < |ev| ==> Rank(ev[i]) <= Rank(ev[j])) &&
    (forall i, j :: 0 <= i < j < |ev| && Rank(ev[i]) < ImageRank ==> Rank(ev[i]) < Rank(ev[j]))
  }

  /** A failed stage other than an image is the last event. */
  ghost predicate FailureEnds(ev: seq<Event>)
  {
    forall i :: 0 <= i < |ev| && Rank(ev[i]) < ImageRank && !ev[i].ok ==> i == |ev| - 1
  }

  /** The first stages, one each, all successful but perhaps the last. */
  lemma StagePrefix(ev: seq<Event>)
    requires |ev| <= ImageRank
    requires forall i :: 0 <= i < |ev| ==> Rank(ev[i]) == i
    requires forall i :: 0 <= i < |ev| - 1 ==> ev[i].ok
    ensures StagesInOrder(ev) && FailureEnds(ev)
  {
  }

  /** Image events after the five stages, all successful, keep the stage order. */
  lemma StagesThenImages(head: seq<Event>, images: seq<Event>)
    requires |head| == ImageRank
    requires forall i :: 0 <= i < |head| ==> Rank(head[i]) == i && head[i].ok
    requires forall e :: e in images ==> Rank(e) == ImageRank
    ensures StagesInOrder(head + images) && FailureEnds(head + images)
    ensures forall i :: |head| <= i < |head + images| ==> Rank((head + images)[i]) == ImageRank
  {
    var ev := head + images;
    forall i | |head| <= i < |ev| ensures Rank(ev[i]) == ImageRank {
      assert ev[i] == images[i - |head|];
      assert ev[i] in images;
    }
  }

  /** The fixed events of a page that got past `saveMarkdown`. */
  lemma PageHead(eff: Effects, fuel: nat, k: nat, pageID: string)
    requires eff.fetch(k, pageID).Some?
    ensures var page := eff.fetch(k, pageID).value;
      var dir := DirName(page.title, pageID);
      var save := SaveRun(eff, k, dir, page.title, page.body);
      var head := [Fetch(pageID, true), Mkdir(dir, true)] + save.0;
      eff.mkdir(k, dir) ==>
        |head| <= ImageRank && (forall i :: 0 <= i < |head| ==> Rank(head[i]) == i) &&
        (forall i :: 0 <= i < |head| - 1 ==> head[i].ok) &&
        (|head| < ImageRank ==> !head[|head| - 1].ok) &&
        (save.1 <==> |head| == ImageRank && head[4].ok)
  {
  }

  /** The events of one page follow the stages in order (fetch, directory, conversion,
      Markdown file, its content, images), each stage at most once, and a failed stage is
      the page's last event: a failure skips the rest of its page. The fetch comes first. */
  lemma PageOrdered(eff: Effects, fuel: nat, k: nat, pageID: string)
    ensures var ev := PageRun(eff, fuel, k, pageID).0;
      ev != [] && ev[0] == Fetch(pageID, eff.fetch(k, pageID).Some?) &&
      StagesInOrder(ev) && FailureEnds(ev)
  {
    var ev := PageRun(eff, fuel, k, pageID).0;
    if eff.fetch(k, pageID).None? {
      StagePrefix(ev);
    } else {
      var page := eff.fetch(k, pageID).value;
      var dir := DirName(page.title, pageID);
      if !eff.mkdir(k, dir) {
        StagePrefix(ev);
      } else {
        PageHead(eff, fuel, k, pageID);
        var save := SaveRun(eff, k, dir, page.title, page.body);
        var head := [Fetch(pageID, true), Mkdir(dir, true)] + save.0;
        if !save.1 {
          StagePrefix(head);
        } else {
          var scan := ScanAsWritten(page.body, 0, fuel, []);
          if scan.1 {
            ImagesOnly(eff, k, dir, scan.0, |scan.0|);
          }
          StagesThenImages(head, DownloadRun(eff, k, dir, page.body, fuel).0);
          assert ev[0] == head[0];
        }
      }
    }
  }

  /** A page's directory is created only after a successful fetch, and is named after the
      fetched title and the page ID. */
  lemma PageDirectory(eff: Effects, fuel: nat, k: nat, pageID: string)
    ensures var ev := PageRun(eff, fuel, k, pageID).0;
      forall i :: 0 <= i < |ev| && ev[i].Mkdir? ==>
        eff.fetch(k, pageID).Some? && ev[i] == Mkdir(DirName(eff.fetch(k, pageID).value.title, pageID), ev[i].ok)
  {
    var ev := PageRun(eff, fuel, k, pageID).0;
    if eff.fetch(k, pageID).Some? {
      var page := eff.fetch(k, pageID).value;
      var dir := DirName(page.title, pageID);
      if eff.mkdir(k, dir) {
        PageHead(eff, fuel, k, pageID);
        var save := SaveRun(eff, k, dir, page.title, page.body);
        var head := [Fetch(pageID, true), Mkdir(dir, true)] + save.0;
        if save.1 {
          var scan := ScanAsWritten(page.body, 0, fuel, []);
          if scan.1 {
            ImagesOnly(eff, k, dir, scan.0, |scan.0|);
          }
          StagesThenImages(head, DownloadRun(eff, k, dir, page.body, fuel).0);
        }
      }
    }
  }

  /** Images are downloaded only once the page's Markdown has been written: every image
      event comes after the five successful stages. */
  lemma PageImagesLast(eff: Effects, fuel: nat, k: nat, pageID: string)
    ensures var ev := PageRun(eff, fuel, k, pageID).0;
      forall i :: 0 <= i < |ev| && Rank(ev[i]) == ImageRank ==>
        ImageRank <= i && forall s :: 0 <= s < ImageRank ==> Rank(ev[s]) == s && ev[s].ok
  {
    var ev := PageRun(eff, fuel, k, pageID).0;
    if eff.fetch(k, pageID).Some? {
      var page := eff.fetch(k, pageID).value;
      var dir := DirName(page.title, pageID);
      if eff.mkdir(k, dir) {
        PageHead(eff, fuel, k, pageID);
        var save := SaveRun(eff, k, dir, page.title, page.body);
        var head := [Fetch(pageID, true), Mkdir(dir, true)] + save.0;
        if save.1 {
          var images := DownloadRun(eff, k, dir, page.body, fuel).0;
          assert ev == head + images;
          forall s | 0 <= s < ImageRank ensures ev[s] == head[s] {
          }
        }
      }
    }
  }

  /** A successful stage is followed by the next one: the fetch by the directory, named
      after the fetched title and the page ID, the directory by the conversion, the
      conversion by the file's creation and the creation by the write. */
  lemma PageProgress(eff: Effects, fuel: nat, k: nat, pageID: string)
    ensures var ev := PageRun(eff, fuel, k, pageID).0;
      forall i :: 0 <= i < |ev| && Rank(ev[i]) < 4 && ev[i].ok ==>
        i + 1 < |ev| && Rank(ev[i + 1]) == Rank(ev[i]) + 1
    ensures var ev := PageRun(eff, fuel, k, pageID).0;
      eff.fetch(k, pageID).Some? ==>
        |ev| >= 2 && ev[1] == Mkdir(DirName(eff.fetch(k, pageID).value.title, pageID), ev[1].ok)
  {
    var ev := PageRun(eff, fuel, k, pageID).0;
    if eff.fetch(k, pageID).Some? {
      var page := eff.fetch(k, pageID).value;
      var dir := DirName(page.title, pageID);
      if eff.mkdir(k, dir) {
        PageHead(eff, fuel, k, pageID);
        var save := SaveRun(eff, k, dir, page.title, page.body);
        var head := [Fetch(pageID, true), Mkdir(dir, true)] + save.0;
        if save.1 {
          var images := DownloadRun(eff, k, dir, page.body, fuel).0;
          var scan := ScanAsWritten(page.body, 0, fuel, []);
          if scan.1 {
            ImagesOnly(eff, k, dir, scan.0, |scan.0|);
          }
          assert ev == head + images;
          forall i | 0 <= i < ImageRank ensures ev[i] == head[i] && Rank(ev[i]) == i {
          }
          forall i | ImageRank <= i < |ev| ensures Rank(ev[i]) == ImageRank {
            assert ev[i] == images[i - ImageRank];
            assert ev[i] in images;
          }
        }
      }
    }
  }

  /** Once the page's Markdown is written, the images follow: when the scan of the body
      ends, every URL it found is requested once, in order, and each image file belongs to
      the request before it; when it does not end, the run is stuck on this page. */
  lemma PageDownloads(eff: Effects, fuel: nat, k: nat, pageID: string)
    ensures var r := PageRun(eff, fuel, k, pageID); var ev := r.0;
      eff.fetch(k, pageID).Some? && |ev| > 4 && ev[4].ok ==>
        var page := eff.fetch(k, pageID).value;
        var scan := ScanAsWritten(page.body, 0, fuel, []);
        (r.1 <==> !scan.1) &&
        (scan.1 ==> Requested(ev) == scan.0 && ImagesLinked(ev[ImageRank..], DirName(page.title, pageID)))
  {
    var ev := PageRun(eff, fuel, k, pageID).0;
    if eff.fetch(k, pageID).Some? {
      var page := eff.fetch(k, pageID).value;
      var dir := DirName(page.title, pageID);
      if eff.mkdir(k, dir) {
        PageHead(eff, fuel, k, pageID);
        var save := SaveRun(eff, k, dir, page.title, page.body);
        var head := [Fetch(pageID, true), Mkdir(dir, true)] + save.0;
        if save.1 {
          var scan := ScanAsWritten(page.body, 0, fuel, []);
          var images := DownloadRun(eff, k, dir, page.body, fuel).0;
          assert ev == head + images;
          assert ev[ImageRank..] == images;
          if scan.1 {
            NoRequestAmong(head);
            RequestedAppend(head, images);
            ImagesInOrder(eff, k, dir, scan.0, |scan.0|);
            assert scan.0[..|scan.0|] == scan.0;
            ImagesAllLinked(eff, k, dir, scan.0, |scan.0|);
          }
        }
      }
    }
  }

  /** No event before the images is a request. */
  lemma {:induction false} NoRequestAmong(events: seq<Event>)
    requires forall i :: 0 <= i < |events| ==> Rank(events[i]) < ImageRank
    ensures Requested(events) == []
    decreases |events|
  {
    if events != [] {
      NoRequestAmong(events[1..]);
    }
  }

  /** In a run of image events each file event belongs to the request before it: a file is
      created only after a successful GET, in the page's directory, under `filepath.Base` of
      that GET's URL; a copy goes only into the file just created; and a successful GET or
      create is followed by the next step. */
  ghost predicate ImagesLinked(ev: seq<Event>, dir: string)
  {
    (ev != [] ==> ev[0].Get?) && forall i :: 0 <= i < |ev| ==> LinkedAt(ev, dir, i)
  }

  /** The event at `i` belongs to its neighbours as `ImagesLinked` says. */
  ghost predicate LinkedAt(ev: seq<Event>, dir: string, i: nat)
    requires i < |ev|
  {
    (ev[i].CreateImage? ==> (0 < i && ev[i - 1].Get? && ev[i - 1].ok &&
      ev[i].dir == dir && ev[i].name == Base(ev[i - 1].url))) &&
    (ev[i].CopyImage? ==> (0 < i && ev[i - 1].CreateImage? && ev[i - 1].ok &&
      ev[i].dir == dir && ev[i].name == ev[i - 1].name)) &&
    (ev[i].Get? && ev[i].ok ==> i + 1 < |ev| && ev[i + 1].CreateImage?) &&
    (ev[i].CreateImage? && ev[i].ok ==> i + 1 < |ev| && ev[i + 1].CopyImage?)
  }

  /** One pass of `downloadImages` starts with the GET of its URL, and its file events
      belong to that GET. */
  lemma AttemptLinked(eff: Effects, k: nat, j: nat, dir: string, url: string)
    ensures var a := ImageAttempt(eff, k, j, dir, url);
      a != [] && a[0] == Get(url, eff.get(k, j, url).Some?) && ImagesLinked(a, dir)
  {
  }

  /** Linked runs of image events stay linked when one follows the other. */
  lemma LinkedAppend(a: seq<Event>, b: seq<Event>, dir: string)
    requires ImagesLinked(a, dir) && ImagesLinked(b, dir)
    ensures ImagesLinked(a + b, dir)
  {
    var ev := a + b;
    forall i | 0 <= i < |ev| ensures LinkedAt(ev, dir, i) {
      if i < |a| {
        assert LinkedAt(a, dir, i);
        if i + 1 < |a| {
          assert ev[i + 1] == a[i + 1];
        }
      } else {
        var j := i - |a|;
        assert LinkedAt(b, dir, j);
        assert ev[i] == b[j];
        if 0 < j {
          assert ev[i - 1] == b[j - 1];
        }
        if j + 1 < |b| {
          assert ev[i + 1] == b[j + 1];
        }
      }
    }
  }

  /** Every image file `downloadImages` creates or writes is named after the URL just
      requested, in the page's directory, and follows a successful request. */
  lemma {:induction false} ImagesAllLinked(eff: Effects, k: nat, dir: string, urls: seq<string>, n: nat)
    requires n <= |urls|
    ensures ImagesLinked(ImagesUpTo(eff, k, dir, urls, n), dir)
  {
    if n > 0 {
      ImagesAllLinked(eff, k, dir, urls, n - 1);
      AttemptLinked(eff, k, n - 1, dir, urls[n - 1]);
      LinkedAppend(ImagesUpTo(eff, k, dir, urls, n - 1), ImageAttempt(eff, k, n - 1, dir, urls[n - 1]), dir);
    }
  }

  /** With more scan passes than the page body is long, a run stuck on a page means the
      program's scan of that body never ends. */
  lemma StuckPageLoopsForever(eff: Effects, fuel: nat, k: nat, pageID: string)
    requires eff.fetch(k, pageID).Some? && fuel > |eff.fetch(k, pageID).value.body|
    requires PageRun(eff, fuel, k, pageID).1
    ensures forall f :: !ScanAsWritten(eff.fetch(k, pageID).value.body, 0, f, []).1
  {
    FuelDecides(eff.fetch(k, pageID).value.body, fuel);
  }
}
