/**
 * Helpers of the mail extractor: where the iframe-resizer script is spliced
 * into a mail's HTML, how an attachment's file name is made safe, and which
 * files are pre-compressed for the web server.
 */
module Extraction {
  import opened Text

  /** The script tag added to every extracted HTML body. */
  const ResizerScript: string := "<script src=\"/js/iframeResizer.contentWindow.min.js\" async></script>"
  const HeadClose: string := "</head>"
  const BodyClose: string := "</body>"

  /** The extensions of the files `Gzipify` compresses. */
  const IncludedExtensions: seq<string> := [".json", ".html", ".txt", ".doc", ".pdf", ".xls", ".bmp"]

  /**
   * `pattern` occurs at `i` in `s` when letters are compared without regard
   * to case (`StringComparison.OrdinalIgnoreCase`, on ASCII letters).
   */
  predicate MatchesIgnoringCaseAt(s: string, pattern: string, i: nat) {
    i + |pattern| <= |s| && forall k :: 0 <= k < |pattern| ==> LowerChar(s[i + k]) == LowerChar(pattern[k])
  }

  /** `IndexOf(pattern, OrdinalIgnoreCase)` from `from` on: the first match, or -1. */
  function IndexOfIgnoringCase(s: string, pattern: string, from: nat): (r: int)
    ensures r == -1 || (from <= r && MatchesIgnoringCaseAt(s, pattern, r))
    ensures forall i :: from <= i && (r == -1 || i < r) ==> !MatchesIgnoringCaseAt(s, pattern, i)
    decreases |s| - from
  {
    if from + |pattern| > |s| then -1
    else if MatchesIgnoringCaseAt(s, pattern, from) then from
    else IndexOfIgnoringCase(s, pattern, from + 1)
  }

  /** `string.Insert`: `text` spliced into `s` before position `i`. */
  function Insert(s: string, i: nat, text: string): (r: string)
    requires i <= |s|
    ensures |r| == |s| + |text|
    ensures r[..i] == s[..i] && r[i..i + |text|] == text && r[i + |text|..] == s[i..]
  {
    s[..i] + text + s[i..]
  }

  /**
   * What the extractor writes for an HTML body: the script inserted before
   * the first closing head tag, or failing that before the first closing
   * body tag, or, for a fragment with neither, the script followed by the
   * body.
   */
  function InjectScript(html: string): (out: string)
    ensures |out| == |html| + |ResizerScript|
  {
    var head := IndexOfIgnoringCase(html, HeadClose, 0);
    var idx := if head == -1 then IndexOfIgnoringCase(html, BodyClose, 0) else head;
    if idx != -1 then Insert(html, idx, ResizerScript)
    else ResizerScript + html
  }

  /** With a closing head tag, the script goes right before the first one. */
  lemma InjectBeforeHead(html: string, i: nat)
    requires MatchesIgnoringCaseAt(html, HeadClose, i)
    requires forall j :: 0 <= j < i ==> !MatchesIgnoringCaseAt(html, HeadClose, j)
    ensures InjectScript(html) == html[..i] + ResizerScript + html[i..]
  {
    assert IndexOfIgnoringCase(html, HeadClose, 0) == i;
  }

  /** Without a closing head tag, the script goes right before the first closing body tag. */
  lemma InjectBeforeBody(html: string, i: nat)
    requires forall j :: 0 <= j ==> !MatchesIgnoringCaseAt(html, HeadClose, j)
    requires MatchesIgnoringCaseAt(html, BodyClose, i)
    requires forall j :: 0 <= j < i ==> !MatchesIgnoringCaseAt(html, BodyClose, j)
    ensures InjectScript(html) == html[..i] + ResizerScript + html[i..]
  {
    assert IndexOfIgnoringCase(html, HeadClose, 0) == -1;
    assert IndexOfIgnoringCase(html, BodyClose, 0) == i;
  }

  /** A fragment with neither tag is written after the script. */
  lemma InjectInFront(html: string)
    requires forall j :: 0 <= j ==> !MatchesIgnoringCaseAt(html, HeadClose, j)
    requires forall j :: 0 <= j ==> !MatchesIgnoringCaseAt(html, BodyClose, j)
    ensures InjectScript(html) == ResizerScript + html
  {
    assert IndexOfIgnoringCase(html, HeadClose, 0) == -1;
    assert IndexOfIgnoringCase(html, BodyClose, 0) == -1;
  }

  /**
   * In every case the output is the body with the script spliced in at one
   * place: removing the script gives back the body.
   */
  lemma InjectSplices(html: string)
    ensures exists p :: 0 <= p <= |html| && InjectScript(html) == html[..p] + ResizerScript + html[p..]
  {
    hide IndexOfIgnoringCase;
    var head := IndexOfIgnoringCase(html, HeadClose, 0);
    var idx := if head == -1 then IndexOfIgnoringCase(html, BodyClose, 0) else head;
    var p := if idx == -1 then 0 else idx;
    assert p <= |html|;
    if idx == -1 {
      assert html[..0] == [] && html[0..] == html;
    }
    assert InjectScript(html) == html[..p] + ResizerScript + html[p..];
  }

  /** `string.Replace(c, replacement)`: every `c` becomes `replacement`. */
  function Replace(s: string, c: char, replacement: char): (r: string)
    ensures |r| == |s|
  {
    seq(|s|, i requires 0 <= i < |s| => if s[i] == c then replacement else s[i])
  }

  /**
   * `CleanupFilename`: every character that may not appear in a file name
   * (`invalid`, which the platform supplies) becomes '_'; the others stay.
   */
  method CleanupFilename(filename: string, invalid: seq<char>) returns (clean: string)
    ensures |clean| == |filename|
    ensures forall i :: 0 <= i < |filename| ==> clean[i] == (if filename[i] in invalid then '_' else filename[i])
  {
    clean := filename;
    for k := 0 to |invalid|
      invariant |clean| == |filename|
      invariant forall i :: 0 <= i < |filename| ==> clean[i] == (if filename[i] in invalid[..k] then '_' else filename[i])
    {
      assert forall c :: c in invalid[..k + 1] <==> c in invalid[..k] || c == invalid[k] by {
        assert invalid[..k + 1] == invalid[..k] + [invalid[k]];
      }
      clean := Replace(clean, invalid[k], '_');
    }
    assert invalid[..|invalid|] == invalid;
  }

  /** A clean file name holds no invalid character, unless '_' is itself invalid. */
  lemma CleanNameIsValid(filename: string, invalid: seq<char>, clean: string)
    requires '_' !in invalid && |clean| == |filename|
    requires forall i :: 0 <= i < |filename| ==> clean[i] == (if filename[i] in invalid then '_' else filename[i])
    ensures forall i :: 0 <= i < |clean| ==> clean[i] !in invalid
  {
  }

  predicate EndsWithText(s: string, suffix: string) {
    |suffix| <= |s| && s[|s| - |suffix|..] == suffix
  }

  /** Whether some extension in `extensions` ends `name` (`Enumerable.Any` over `EndsWith`). */
  function AnyEndsWith(name: string, extensions: seq<string>): (r: bool)
    ensures r <==> exists k :: 0 <= k < |extensions| && EndsWithText(name, extensions[k])
  {
    if extensions == [] then false
    else if EndsWithText(name, extensions[0]) then true
    else
      assert forall k :: 1 <= k < |extensions| ==> extensions[k] == extensions[1..][k - 1];
      AnyEndsWith(name, extensions[1..])
  }

  /** The `Gzipify` filter: the lower-cased file name ends with one of the included extensions. */
  predicate ShouldGzip(inputFile: string) {
    AnyEndsWith(ToLower(inputFile), IncludedExtensions)
  }

  /**
   * A file is compressed exactly when its name, lower-cased, ends with one
   * of the seven extensions; the test ignores the case of the name.
   */
  lemma ShouldGzipSpec(inputFile: string)
    ensures ShouldGzip(inputFile) <==> exists ext :: ext in IncludedExtensions && EndsWithText(ToLower(inputFile), ext)
    ensures ShouldGzip(ToLower(inputFile)) == ShouldGzip(inputFile)
  {
    ToLowerIdempotent(inputFile);
    if ShouldGzip(inputFile) {
      var k :| 0 <= k < |IncludedExtensions| && EndsWithText(ToLower(inputFile), IncludedExtensions[k]);
      assert IncludedExtensions[k] in IncludedExtensions;
    }
  }
}
