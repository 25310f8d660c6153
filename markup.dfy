/** The markup half of `front/src/lib/api.ts`: the per-chunk fragment
    (pass-through when the content looks like markup, `\n` to `<br/>`
    otherwise), the per-page `htmlContent` wrapper, and the unused
    `escapeHtml` helper. Markup is treated as opaque text. */
module Markup {
  import opened Text
  import JsNumber
  import opened Wrappers

  // ---------------------------------------------------------------------
  // escapeHtml
  // ---------------------------------------------------------------------

  /** `escapeHtml`: five `replaceAll` calls, `&` first. */
  function EscapeHtml(s: string): (r: string)
    ensures '<' !in r && '>' !in r && '"' !in r && '\'' !in r
  {
    var amp := ReplaceChar(s, '&', "&amp;");
    var lt := ReplaceChar(amp, '<', "&lt;");
    assert '<' !in lt by { assert '<' !in "&lt;"; }
    var gt := ReplaceChar(lt, '>', "&gt;");
    assert '<' !in gt && '>' !in gt by { assert '<' !in "&gt;" && '>' !in "&gt;"; }
    var quot := ReplaceChar(gt, '"', "&quot;");
    assert '<' !in quot && '>' !in quot && '"' !in quot by {
      assert '<' !in "&quot;" && '>' !in "&quot;" && '"' !in "&quot;";
    }
    var r := ReplaceChar(quot, '\'', "&#039;");
    assert '<' !in "&#039;" && '>' !in "&#039;" && '"' !in "&#039;" && '\'' !in "&#039;";
    r
  }

  /** What `escapeHtml` makes of one character. */
  function EscapeChar(c: char): string {
    match c
    case '&' => "&amp;"
    case '<' => "&lt;"
    case '>' => "&gt;"
    case '"' => "&quot;"
    case '\'' => "&#039;"
    case _ => [c]
  }

  /** Decoding of the five entities `escapeHtml` produces, left to right;
      any other text is copied. */
  function Unescape(s: string): string
    decreases |s|
  {
    if s == [] then []
    else if "&amp;" <= s then "&" + Unescape(s[5..])
    else if "&lt;" <= s then "<" + Unescape(s[4..])
    else if "&gt;" <= s then ">" + Unescape(s[4..])
    else if "&quot;" <= s then "\"" + Unescape(s[6..])
    else if "&#039;" <= s then "'" + Unescape(s[6..])
    else [s[0]] + Unescape(s[1..])
  }

  lemma ReplaceCharOfChar(c: char, d: char, rep: string)
    ensures ReplaceChar([c], d, rep) == if c == d then rep else [c]
  {
    assert [c][1..] == [];
  }

  /** `escapeHtml` of a one-character string that is not reserved, and of
      each reserved one. */
  lemma EscapeHtmlOfPlainChar(c: char)
    requires c != '&' && c != '<' && c != '>' && c != '"' && c != '\''
    ensures EscapeHtml([c]) == [c]
  {
    assert '&' !in [c] && '<' !in [c] && '>' !in [c] && '"' !in [c] && '\'' !in [c];
  }

  lemma EscapeHtmlOfAmp()
    ensures EscapeHtml("&") == "&amp;"
  {
    ReplaceCharOfChar('&', '&', "&amp;");
    var amp := ReplaceChar("&", '&', "&amp;");
    assert '<' !in amp && '>' !in amp && '"' !in amp && '\'' !in amp;
    var lt := ReplaceChar(amp, '<', "&lt;");
    assert lt == amp;
    var gt := ReplaceChar(lt, '>', "&gt;");
    assert gt == amp;
    var quot := ReplaceChar(gt, '"', "&quot;");
    assert quot == amp;
  }

  lemma EscapeHtmlOfLt()
    ensures EscapeHtml("<") == "&lt;"
  {
    ReplaceCharOfChar('<', '<', "&lt;");
    var lt := ReplaceChar("<", '<', "&lt;");
    assert '>' !in lt && '"' !in lt && '\'' !in lt;
    var gt := ReplaceChar(lt, '>', "&gt;");
    assert gt == lt;
    var quot := ReplaceChar(gt, '"', "&quot;");
    assert quot == lt;
  }

  lemma EscapeHtmlOfGt()
    ensures EscapeHtml(">") == "&gt;"
  {
    ReplaceCharOfChar('>', '>', "&gt;");
    var gt := ReplaceChar(">", '>', "&gt;");
    assert '"' !in gt && '\'' !in gt;
    var quot := ReplaceChar(gt, '"', "&quot;");
    assert quot == gt;
  }

  lemma EscapeHtmlOfQuot()
    ensures EscapeHtml("\"") == "&quot;"
  {
    ReplaceCharOfChar('"', '"', "&quot;");
  }

  lemma EscapeHtmlOfApos()
    ensures EscapeHtml("'") == "&#039;"
  {
    ReplaceCharOfChar('\'', '\'', "&#039;");
  }

  lemma EscapeHtmlOfChar(c: char)
    ensures EscapeHtml([c]) == EscapeChar(c)
  {
    if c == '&' {
      EscapeHtmlOfAmp();
    } else if c == '<' {
      EscapeHtmlOfLt();
    } else if c == '>' {
      EscapeHtmlOfGt();
    } else if c == '"' {
      EscapeHtmlOfQuot();
    } else if c == '\'' {
      EscapeHtmlOfApos();
    } else {
      EscapeHtmlOfPlainChar(c);
    }
  }

  lemma EscapeHtmlCons(c: char, rest: string)
    ensures EscapeHtml([c] + rest) == EscapeChar(c) + EscapeHtml(rest)
  {
    var a1 := ReplaceChar([c], '&', "&amp;");
    var b1 := ReplaceChar(rest, '&', "&amp;");
    ReplaceCharAppend([c], rest, '&', "&amp;");
    var a2 := ReplaceChar(a1, '<', "&lt;");
    var b2 := ReplaceChar(b1, '<', "&lt;");
    ReplaceCharAppend(a1, b1, '<', "&lt;");
    var a3 := ReplaceChar(a2, '>', "&gt;");
    var b3 := ReplaceChar(b2, '>', "&gt;");
    ReplaceCharAppend(a2, b2, '>', "&gt;");
    var a4 := ReplaceChar(a3, '"', "&quot;");
    var b4 := ReplaceChar(b3, '"', "&quot;");
    ReplaceCharAppend(a3, b3, '"', "&quot;");
    ReplaceCharAppend(a4, b4, '\'', "&#039;");
    EscapeHtmlOfChar(c);
  }

  lemma UnescapeCons(c: char, t: string)
    ensures Unescape(EscapeChar(c) + t) == [c] + Unescape(t)
  {
    if c == '&' || c == '<' || c == '>' {
      UnescapeConsAngle(c, t);
    } else if c == '"' || c == '\'' {
      UnescapeConsQuote(c, t);
    } else {
      var s := EscapeChar(c) + t;
      assert s[0] == c && s[1..] == t;
    }
  }

  lemma UnescapeConsAngle(c: char, t: string)
    requires c == '&' || c == '<' || c == '>'
    ensures Unescape(EscapeChar(c) + t) == [c] + Unescape(t)
  {
    var s := EscapeChar(c) + t;
    if c == '&' {
      assert "&amp;" <= s && s[5..] == t;
    } else if c == '<' {
      assert s[1] == 'l' && "&lt;" <= s && s[4..] == t;
    } else {
      assert s[1] == 'g' && s[2] == 't' && "&gt;" <= s && s[4..] == t;
    }
  }

  lemma UnescapeConsQuote(c: char, t: string)
    requires c == '"' || c == '\''
    ensures Unescape(EscapeChar(c) + t) == [c] + Unescape(t)
  {
    var s := EscapeChar(c) + t;
    if c == '"' {
      assert s[1] == 'q' && "&quot;" <= s && s[6..] == t;
    } else {
      assert s[1] == '#' && "&#039;" <= s && s[6..] == t;
    }
  }

  /** Because `&` is replaced first, decoding the five entities gives the
      input back: escaping loses nothing. */
  lemma {:induction false} UnescapeEscapeHtml(s: string)
    ensures Unescape(EscapeHtml(s)) == s
    decreases |s|
  {
    if s != [] {
      assert s == [s[0]] + s[1..];
      EscapeHtmlCons(s[0], s[1..]);
      UnescapeCons(s[0], EscapeHtml(s[1..]));
      UnescapeEscapeHtml(s[1..]);
    }
  }

  // ---------------------------------------------------------------------
  // The per-chunk fragment
  // ---------------------------------------------------------------------

  /** The regular expression `<[^>]+>` matches `s` at `i..j`: a `<`, at
      least one character other than `>`, then `>`. */
  ghost predicate TagAt(s: string, i: int, j: int) {
    0 <= i && i + 1 < j < |s| && s[i] == '<' && s[j] == '>' &&
    forall k :: i < k < j ==> s[k] != '>'
  }

  /** `/<[^>]+>/.test(s)`. */
  ghost predicate ContainsTag(s: string) {
    exists i, j :: TagAt(s, i, j)
  }

  /** A scan for a `<` whose next character is not `>` and that has a `>`
      somewhere after that next character. */
  function HasTag(s: string): (r: bool)
    ensures r ==> '<' in s && '>' in s
  {
    |s| >= 3 && ((s[0] == '<' && s[1] != '>' && '>' in s[2..]) || HasTag(s[1..]))
  }

  lemma {:induction false} FirstClose(s: string, from: nat)
    requires from <= |s| && '>' in s[from..]
    ensures exists j :: from <= j < |s| && s[j] == '>' && forall k :: from <= k < j ==> s[k] != '>'
    decreases |s| - from
  {
    if s[from] != '>' {
      assert s[from..] == [s[from]] + s[from + 1..];
      FirstClose(s, from + 1);
    }
  }

  lemma TagAtShift(s: string, i: int, j: int)
    requires s != [] && TagAt(s[1..], i, j)
    ensures TagAt(s, i + 1, j + 1)
  {
    forall k | i + 1 < k < j + 1
      ensures s[k] != '>'
    {
      assert s[k] == s[1..][k - 1];
    }
  }

  /** The scan decides exactly the regular expression `<[^>]+>`. */
  lemma {:induction false} HasTagIsRegexMatch(s: string)
    ensures HasTag(s) <==> ContainsTag(s)
    decreases |s|
  {
    if |s| < 3 {
      assert !ContainsTag(s);
    } else {
      HasTagIsRegexMatch(s[1..]);
      if s[0] == '<' && s[1] != '>' && '>' in s[2..] {
        FirstClose(s, 2);
        var j :| 2 <= j < |s| && s[j] == '>' && forall k :: 2 <= k < j ==> s[k] != '>';
        assert TagAt(s, 0, j);
      } else if HasTag(s[1..]) {
        var i, j :| TagAt(s[1..], i, j);
        TagAtShift(s, i, j);
      }
      if ContainsTag(s) {
        var i, j :| TagAt(s, i, j);
        if i == 0 {
          assert s[1] != '>';
          assert s[2..][j - 2] == '>';
        } else {
          assert TagAt(s[1..], i - 1, j - 1);
        }
      }
    }
  }

  const LineBreak: string := "<br/>"

  /** The markup one chunk contributes: the content itself when it contains
      a tag, otherwise the content with every `\n` turned into `<br/>`.
      Nothing is escaped. */
  function Fragment(content: string): (r: string)
    ensures r == "" <==> content == ""
  {
    if HasTag(content) then content else ReplaceChar(content, '\n', LineBreak)
  }

  /** Turns every `<br/>` back into `\n`, left to right. */
  function BreaksToNewlines(s: string): string
    decreases |s|
  {
    if s == [] then []
    else if LineBreak <= s then "\n" + BreaksToNewlines(s[|LineBreak|..])
    else [s[0]] + BreaksToNewlines(s[1..])
  }

  /** If replacing newlines in `t` yields a text that starts with `w`, and
      `w` has no `<`, then `t` itself starts with `w`. */
  lemma {:induction false} ReplacedPrefix(t: string, w: string)
    requires '<' !in w && w <= ReplaceChar(t, '\n', LineBreak)
    ensures w <= t
    decreases |w|
  {
    if w != [] {
      var r := ReplaceChar(t, '\n', LineBreak);
      assert t != [];
      assert r == (if t[0] == '\n' then LineBreak else [t[0]]) + ReplaceChar(t[1..], '\n', LineBreak);
      assert r[0] == (if t[0] == '\n' then '<' else t[0]);
      assert w[0] == r[0] && w[0] != '<';
      assert r == [t[0]] + ReplaceChar(t[1..], '\n', LineBreak);
      ReplacedPrefix(t[1..], w[1..]);
    }
  }

  lemma ContainsTagSuffix(s: string)
    requires s != [] && !ContainsTag(s)
    ensures !ContainsTag(s[1..])
  {
    if ContainsTag(s[1..]) {
      var i, j :| TagAt(s[1..], i, j);
      TagAtShift(s, i, j);
    }
  }

  lemma BreakIsTag(rest: string)
    requires "br/>" <= rest
    ensures ContainsTag("<" + rest)
  {
    assert TagAt("<" + rest, 0, 4);
  }

  /** A character other than `\n`, followed by replaced plain text, never
      starts a `<br/>`: that `<br/>` would have been a tag. */
  lemma NoBreakAtPlainStart(c: char, rest: string)
    requires c != '\n' && !ContainsTag([c] + rest)
    ensures !(LineBreak <= [c] + ReplaceChar(rest, '\n', LineBreak))
  {
    var r := ReplaceChar(rest, '\n', LineBreak);
    if LineBreak <= [c] + r {
      assert LineBreak[0] == '<' && LineBreak[1..] == "br/>";
      assert ([c] + r)[0] == c && ([c] + r)[1..] == r;
      assert c == '<';
      assert "br/>" <= r;
      ReplacedPrefix(rest, "br/>");
      assert [c] + rest == "<" + rest;
      BreakIsTag(rest);
      assert false;
    }
  }

  /** Plain text survives the `<br/>` conversion: turning the breaks back
      into newlines restores the content. (Content without a tag cannot
      contain a literal `<br/>`.) */
  lemma {:induction false} FragmentOfPlainTextRoundTrip(content: string)
    requires !ContainsTag(content)
    ensures BreaksToNewlines(Fragment(content)) == content
    decreases |content|
  {
    HasTagIsRegexMatch(content);
    if content != [] {
      var c, rest := content[0], content[1..];
      ContainsTagSuffix(content);
      HasTagIsRegexMatch(rest);
      FragmentOfPlainTextRoundTrip(rest);
      var r := ReplaceChar(rest, '\n', LineBreak);
      assert Fragment(rest) == r;
      if c == '\n' {
        assert Fragment(content) == LineBreak + r;
        assert (LineBreak + r)[|LineBreak|..] == r;
      } else {
        assert Fragment(content) == [c] + r;
        assert content == [c] + rest;
        NoBreakAtPlainStart(c, rest);
        assert ([c] + r)[1..] == r;
      }
    }
  }

  /** Fragments of content without a tag hold no newline. */
  lemma PlainFragmentHasNoNewline(content: string)
    requires !ContainsTag(content)
    ensures '\n' !in Fragment(content)
  {
    HasTagIsRegexMatch(content);
  }

  /** Content with a tag passes through untouched, `\n` and all. */
  lemma TaggedFragmentUnchanged(content: string)
    requires ContainsTag(content)
    ensures Fragment(content) == content
  {
    HasTagIsRegexMatch(content);
  }

  // ---------------------------------------------------------------------
  // The per-page htmlContent
  // ---------------------------------------------------------------------

  /** Placed between the fragments of neighbouring chunks. */
  const Divider: string := "<div style=\"margin: 1rem 0; border-top: 1px solid #e5e7eb; padding-top: 1rem;\"></div>"

  /** Shown instead of an empty body. */
  const NoContent: string := "<p style=\"color: #9ca3af;\">내용이 없습니다.</p>"

  const PageOpen: string := "\n" + "      <div class=\"page-content\">\n        <h2 style=\"font-size: 1.5rem; font-weight: bold; margin-bottom: 1rem; color: #1f2937; border-bottom: 2px solid #3b82f6; padding-bottom: 0.5rem;\">\n          페이지 "
  const PageMid: string := "\n        </h2>\n        <div>"
  const PageClose: string := "</div>\n      </div>\n    "

  /** The fragments of the chunk contents, in chunk order, joined with the
      divider. */
  function JoinedFragments(contents: seq<string>): string {
    Join(seq(|contents|, k requires 0 <= k < |contents| => Fragment(contents[k])), Divider)
  }

  /** `joined || NoContent`: never empty, and the joined fragments
      whenever they are not. */
  function PageBody(contents: seq<string>): (r: string)
    ensures r != ""
    ensures JoinedFragments(contents) != "" ==> r == JoinedFragments(contents)
  {
    var joined := JoinedFragments(contents);
    if joined == "" then NoContent else joined
  }

  /** The `htmlContent` of page `page` whose chunks have `contents`: the
      page-content wrapper, a heading with the page number, then the body. */
  function PageHtml(page: int, contents: seq<string>): (r: string)
    ensures PageOpen <= r
  {
    PageOpen + (JsNumber.IntToString(page) + (PageMid + PageBody(contents) + PageClose))
  }

  /** The "no content" placeholder is used exactly when the page's only
      chunk has empty content. */
  lemma NoContentIffOneEmptyChunk(contents: seq<string>)
    requires |contents| >= 1
    ensures PageBody(contents) == NoContent <==> (|contents| == 1 && contents[0] == "") || JoinedFragments(contents) == NoContent
    ensures JoinedFragments(contents) == "" <==> |contents| == 1 && contents[0] == ""
  {
    var frags := seq(|contents|, k requires 0 <= k < |contents| => Fragment(contents[k]));
    JoinIsEmpty(frags, Divider);
  }

  lemma DropPrefix(pre: string, x: string)
    ensures (pre + x)[|pre|..] == x
  {
  }

  /** The heading carries the page number: `parseInt` of the text that
      follows the heading's opening gives the page back. */
  lemma HeadingShowsPageNumber(page: int, contents: seq<string>)
    ensures JsNumber.ParseInt(PageHtml(page, contents)[|PageOpen|..]) == Some(page)
  {
    var tail := PageMid + PageBody(contents) + PageClose;
    DropPrefix(PageOpen, JsNumber.IntToString(page) + tail);
    assert PageMid[0] == '\n';
    assert tail[0] == PageMid[0];
    JsNumber.ParseIntOfIntToString(page, tail);
  }
}
