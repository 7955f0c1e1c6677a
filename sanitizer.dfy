/** The title sanitiser: turns a page title into a name that is safe to use
    as a file or directory name. */
module Sanitizer {
  import opened GoStrings

  /** The nine characters that the exporter refuses in names, in the order it replaces them. */
  const Forbidden: seq<char> := ['/', '\\', ':', '*', '?', '"', '<', '>', '|']

  /** What every forbidden character becomes. */
  const Replacement: char := '_'

  /** The replacement is not itself forbidden, so a replaced character stays replaced. */
  lemma ReplacementAllowed()
    ensures Replacement !in Forbidden
  {
  }

  function SanitizeChar(c: char): char
  {
    if c in Forbidden then Replacement else c
  }

  /** The reference meaning of sanitising: the character-by-character map. */
  function Sanitize(name: string): (r: string)
    ensures |r| == |name|
  {
    if name == [] then []
    else [SanitizeChar(name[0])] + Sanitize(name[1..])
  }

  /** Sanitising replaces each forbidden character by `_` in place and keeps every other
      character, so no forbidden character is left. */
  lemma {:induction false} SanitizeMeaning(name: string)
    ensures forall i :: 0 <= i < |name| && name[i] in Forbidden ==> Sanitize(name)[i] == Replacement
    ensures forall i :: 0 <= i < |name| && name[i] !in Forbidden ==> Sanitize(name)[i] == name[i]
    ensures forall c :: c in Forbidden ==> c !in Sanitize(name)
  {
    if name != [] {
      SanitizeMeaning(name[1..]);
      var r := Sanitize(name);
      assert forall i :: 1 <= i < |name| ==> r[i] == Sanitize(name[1..])[i - 1] && name[i] == name[1..][i - 1];
    }
  }

  /** The exporter's loop: one `ReplaceAll` per forbidden character, rebinding the name each time.
      It computes the character-by-character map. */
  method SanitizeFilename(name: string) returns (r: string)
    ensures r == Sanitize(name)
  {
    r := name;
    for k := 0 to |Forbidden|
      invariant |r| == |name|
      invariant forall i :: 0 <= i < |name| ==>
        r[i] == if name[i] in Forbidden[..k] then Replacement else name[i]
    {
      assert Forbidden[..k + 1] == Forbidden[..k] + [Forbidden[k]];
      r := ReplaceAll(r, Forbidden[k], Replacement);
    }
    assert Forbidden[..|Forbidden|] == Forbidden;
    SanitizeMeaning(name);
  }

  lemma SanitizeEmpty()
    ensures Sanitize("") == ""
  {
  }

  /** Sanitising twice is sanitising once: what the first pass wrote is `_`, which the
      second pass keeps. */
  lemma SanitizeIdempotent(name: string)
    ensures Sanitize(Sanitize(name)) == Sanitize(name)
  {
    ReplacementAllowed();
    SanitizeMeaning(name);
    SanitizeMeaning(Sanitize(name));
  }
}
