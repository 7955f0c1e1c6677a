/** The names the exporter gives to what it writes: one directory per page, the Markdown
    file inside it, and one file per image, named after the last segment of its URL. */
module Naming {
  import opened Sanitizer

  /** The name of a page's directory under the backup directory: the sanitised title
      followed by the page ID in parentheses. */
  function DirName(title: string, pageID: string): string
  {
    Sanitize(title) + "(" + pageID + ")"
  }

  /** A directory name is the sanitised title, then the page ID in parentheses. */
  lemma DirNameParts(title: string, pageID: string)
    ensures var r := DirName(title, pageID);
      |r| == |title| + |pageID| + 2 && r[..|title|] == Sanitize(title) && r[|title|..] == "(" + pageID + ")"
  {
    SanitizeMeaning(title);
  }

  /** The name of a page's Markdown file inside its directory: the sanitised title with `.md`. */
  function MarkdownName(title: string): string
  {
    Sanitize(title) + ".md"
  }

  /** A Markdown file name is the sanitised title, then `.md`. */
  lemma MarkdownNameParts(title: string)
    ensures var r := MarkdownName(title);
      |r| == |title| + 3 && r[..|title|] == Sanitize(title) && r[|title|..] == ".md"
  {
    SanitizeMeaning(title);
  }

  /** The part of a page's directory name that comes from the title holds no forbidden
      character, and the whole name is one path segment when the page ID holds no `/`. */
  lemma DirNameSegment(title: string, pageID: string)
    ensures forall i :: 0 <= i < |title| ==> DirName(title, pageID)[i] !in Forbidden
    ensures '/' !in pageID ==> '/' !in DirName(title, pageID)
  {
    DirNameParts(title, pageID);
    SanitizeMeaning(title);
    var r := DirName(title, pageID);
    assert forall i :: 0 <= i < |title| ==> r[i] == r[..|title|][i];
    if '/' !in pageID {
      forall i | 0 <= i < |r| ensures r[i] != '/' {
        if i < |title| {
          assert r[i] == r[..|title|][i];
        } else {
          assert r[i] == r[|title|..][i - |title|];
        }
      }
    }
  }

  /** The Markdown file name holds no forbidden character at all, so it never leaves the
      page's directory. */
  lemma MarkdownNameSegment(title: string)
    ensures forall c :: c in Forbidden ==> c !in MarkdownName(title)
  {
    MarkdownNameParts(title);
    SanitizeMeaning(title);
    var r := MarkdownName(title);
    forall i | 0 <= i < |r| ensures r[i] !in Forbidden {
      if i < |title| {
        assert r[i] == r[..|title|][i];
      } else {
        assert r[i] == r[|title|..][i - |title|];
      }
    }
  }

  /** The page ID can be read back from its place in the directory name. */
  lemma IDInDirName(title: string, pageID: string)
    ensures DirName(title, pageID)[|title| + 1..|title| + 1 + |pageID|] == pageID
  {
    DirNameParts(title, pageID);
    var r := DirName(title, pageID);
    assert r[|title| + 1..|title| + 1 + |pageID|] == r[|title|..][1..|pageID| + 1];
  }

  /** Two pages with the same title and different IDs get different directories. */
  lemma SameTitleDistinctDirs(title: string, id1: string, id2: string)
    requires id1 != id2
    ensures DirName(title, id1) != DirName(title, id2)
  {
    IDInDirName(title, id1);
    IDInDirName(title, id2);
  }

  /** When neither page ID holds a `(`, a directory name determines the page ID and the
      sanitised title: the last `(` of the name is where the ID starts. */
  lemma {:induction false} DirNameDeterminesID(t1: string, i1: string, t2: string, i2: string)
    requires '(' !in i1 && '(' !in i2
    requires DirName(t1, i1) == DirName(t2, i2)
    ensures i1 == i2 && Sanitize(t1) == Sanitize(t2)
  {
    DirNameParts(t1, i1);
    DirNameParts(t2, i2);
    var r := DirName(t1, i1);
    var m := if |t1| < |t2| then |t2| else |t1|;
    OpenParenAtTitleEnd(t1, i1);
    OpenParenAtTitleEnd(t2, i2);
    OnlyOpenParen(t1, i1, m);
    OnlyOpenParen(t2, i2, m);
    IDInDirName(t1, i1);
    IDInDirName(t2, i2);
  }

  /** The ID's `(` follows the sanitised title. */
  lemma OpenParenAtTitleEnd(title: string, pageID: string)
    ensures DirName(title, pageID)[|title|] == '('
  {
    DirNameParts(title, pageID);
    assert DirName(title, pageID)[|title|] == DirName(title, pageID)[|title|..][0];
  }

  /** From the title's end on, a directory name whose ID holds no `(` has its only `(` first. */
  lemma OnlyOpenParen(title: string, pageID: string, p: nat)
    requires '(' !in pageID && |title| <= p < |title| + |pageID| + 2
    requires DirName(title, pageID)[p] == '('
    ensures p == |title|
  {
    DirNameParts(title, pageID);
    var r := DirName(title, pageID);
    var tail := "(" + pageID + ")";
    assert r[p] == r[|title|..][p - |title|] == tail[p - |title|];
  }

  /** Without that restriction names collide: the title `x(1)` with ID `2` and the title `x`
      with ID `1)(2` share the directory `x(1)(2)`. */
  lemma DirNamesCollide()
    ensures DirName("x(1)", "2") == DirName("x", "1)(2") == "x(1)(2)"
  {
    assert Sanitize("x(1)") == "x(1)";
    assert Sanitize("x") == "x";
  }

  // ---------------------------------------------------------------------------
  // `filepath.Base` with `/` as the separator.

  /** `path` with every trailing `/` removed. */
  function TrimTrailingSlashes(path: string): string
  {
    if path != [] && path[|path| - 1] == '/' then TrimTrailingSlashes(path[..|path| - 1])
    else path
  }

  /** Trimming keeps a prefix that does not end in `/` and drops only slashes. */
  lemma {:induction false} TrimmedPrefix(path: string)
    ensures var r := TrimTrailingSlashes(path);
      r <= path && (r == [] || r[|r| - 1] != '/') && forall i :: |r| <= i < |path| ==> path[i] == '/'
  {
    if path != [] && path[|path| - 1] == '/' {
      TrimmedPrefix(path[..|path| - 1]);
    }
  }

  /** The text after the last `/` of `path`, or all of it when it holds none. */
  function AfterLastSlash(path: string): string
  {
    if path == [] || path[|path| - 1] == '/' then []
    else AfterLastSlash(path[..|path| - 1]) + [path[|path| - 1]]
  }

  /** The text after the last `/` holds no `/`, is a suffix of the path, and is preceded
      by a `/` unless it is the whole path. */
  lemma {:induction false} AfterLastSlashIsSuffix(path: string)
    ensures var r := AfterLastSlash(path);
      '/' !in r && |r| <= |path| && r == path[|path| - |r|..] &&
      (|r| < |path| ==> path[|path| - |r| - 1] == '/')
  {
    if path != [] && path[|path| - 1] != '/' {
      var p := path[..|path| - 1];
      var c := path[|path| - 1];
      AfterLastSlashIsSuffix(p);
      var r := AfterLastSlash(p);
      assert AfterLastSlash(path) == r + [c];
      assert path == p + [c];
      assert path[|path| - |r| - 1..] == p[|p| - |r|..] + [c];
      assert |r| < |p| ==> path[|path| - |r| - 2] == p[|p| - |r| - 1];
    }
  }

  /** `filepath.Base(path)`: `.` for the empty path, `/` for a path of slashes only, and
      otherwise the last segment once trailing slashes are dropped. */
  function Base(path: string): string
  {
    if path == [] then "."
    else
      var trimmed := TrimTrailingSlashes(path);
      if trimmed == [] then "/" else AfterLastSlash(trimmed)
  }

  /** `Base` always returns one non-empty path segment, or `/` itself. */
  lemma BaseIsSegment(path: string)
    ensures Base(path) != []
    ensures Base(path) == "/" || '/' !in Base(path)
  {
    if path != [] {
      var trimmed := TrimTrailingSlashes(path);
      TrimmedPrefix(path);
      if trimmed != [] {
        AfterLastSlashIsSuffix(trimmed);
        assert AfterLastSlash(trimmed) != [];
      }
    }
  }

  /** The segment after the last `/` is what `Base` returns, whatever trailing slashes follow. */
  lemma BaseOfJoin(dir: string, name: string, slashes: nat)
    requires name != [] && '/' !in name
    ensures Base(dir + "/" + name + Slashes(slashes)) == name
  {
    var p := dir + "/" + name;
    assert p[|p| - 1] == name[|name| - 1];
    TrimSlashes(p, slashes);
    LastSegment(dir + "/", name);
  }

  /** Trailing slashes after a path that does not end in `/` are all that is trimmed. */
  lemma {:induction false} TrimSlashes(path: string, n: nat)
    requires path != [] && path[|path| - 1] != '/'
    ensures TrimTrailingSlashes(path + Slashes(n)) == path
    decreases n
  {
    if n == 0 {
      assert path + Slashes(0) == path;
    } else {
      var s := path + Slashes(n);
      assert s[..|s| - 1] == path + Slashes(n - 1);
      TrimSlashes(path, n - 1);
    }
  }

  /** `n` slashes. */
  function Slashes(n: nat): (r: string)
    ensures |r| == n && forall i :: 0 <= i < n ==> r[i] == '/'
  {
    if n == 0 then [] else Slashes(n - 1) + "/"
  }

  /** After a prefix that ends in `/`, a segment without `/` is the text after the last `/`. */
  lemma {:induction false} LastSegment(prefix: string, name: string)
    requires prefix != [] && prefix[|prefix| - 1] == '/' && '/' !in name
    ensures AfterLastSlash(prefix + name) == name
    decreases |name|
  {
    if name != [] {
      var n := name[..|name| - 1];
      assert (prefix + name)[..|prefix + name| - 1] == prefix + n;
      LastSegment(prefix, n);
      assert name == n + [name[|name| - 1]];
    } else {
      assert prefix + name == prefix;
    }
  }

  /** An image's file name keeps the URL's query string: `Base` cuts only at `/`. */
  lemma BaseKeepsQuery()
    ensures Base("https://wiki.example.com/download/a.png?version=1") == "a.png?version=1"
  {
    BaseOfJoin("https://wiki.example.com/download", "a.png?version=1", 0);
    assert "https://wiki.example.com/download" + "/" + "a.png?version=1" + Slashes(0)
      == "https://wiki.example.com/download/a.png?version=1";
  }

  /** The empty URL (which the scan as written can return) names the file `.`, and a URL
      of slashes only names it `/`. */
  lemma BaseDegenerate()
    ensures Base("") == "."
    ensures Base("//") == "/"
  {
    assert TrimTrailingSlashes("//") == TrimTrailingSlashes("/") == TrimTrailingSlashes("");
  }
}
