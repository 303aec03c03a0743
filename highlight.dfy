/**
 * highlightCode: every `<pre><code ...>...</code></pre>` block of an HTML
 * text is replaced by a highlighted one. The block is found as the global
 * regular expression finds it (the optional class attribute, the shortest
 * body up to the first closing tags), the body's HTML entities are decoded
 * in a fixed order, and highlight.js, which is not part of this model, is
 * a bundle of three uninterpreted functions.
 */
module Highlight {
  import opened Common

  const Open: string := "<pre><code"
  const Close: string := "</code></pre>"
  const ClassAttr: string := "class=\""

  /** `pat` occurs in `s` at index `i`. */
  predicate At(s: string, i: int, pat: string) {
    0 <= i && i + |pat| <= |s| && s[i..i + |pat|] == pat
  }

  /** The first index at or after `from` where `pat` occurs. */
  function FirstAt(s: string, pat: string, from: nat): (r: Option<nat>)
    requires from <= |s|
    ensures r.Some? ==> from <= r.value && At(s, r.value, pat) && forall j :: from <= j < r.value ==> !At(s, j, pat)
    ensures r.None? ==> forall j :: from <= j <= |s| ==> !At(s, j, pat)
    decreases |s| - from
  {
    if At(s, from, pat) then Some(from)
    else if from == |s| then None
    else FirstAt(s, pat, from + 1)
  }

  /** The end of the longest run of characters satisfying `p` that starts at `i`. */
  function RunEnd(s: string, i: nat, p: char -> bool): (r: nat)
    requires i <= |s|
    ensures i <= r <= |s| && (forall j :: i <= j < r ==> p(s[j])) && (r == |s| || !p(s[r]))
    decreases |s| - i
  {
    if i < |s| && p(s[i]) then RunEnd(s, i + 1, p) else i
  }

  /** A regular-expression word character, `\w`. */
  predicate IsWordChar(c: char) {
    ('a' <= c <= 'z') || ('A' <= c <= 'Z') || ('0' <= c <= '9') || c == '_'
  }

  /** The first index at or after `from` holding `c`. */
  function FirstChar(s: string, c: char, from: nat): (r: Option<nat>)
    requires from <= |s|
    ensures r.Some? ==> from <= r.value < |s| && s[r.value] == c && forall j :: from <= j < r.value ==> s[j] != c
    ensures r.None? ==> forall j :: from <= j < |s| ==> s[j] != c
    decreases |s| - from
  {
    if from == |s| then None
    else if s[from] == c then Some(from)
    else FirstChar(s, c, from + 1)
  }

  /**
   * A match of the block pattern: the captured class value if any, where
   * the body starts, the body, and where the match ends.
   */
  datatype Block = Block(classStr: Option<string>, bodyStart: nat, code: string, end: nat)

  /** The lazy body: everything from `start` up to the first closing tags. */
  function BodyFrom(s: string, start: nat, classStr: Option<string>): (b: Option<Block>)
    requires start <= |s|
    ensures b.Some? ==> start + |Close| <= b.value.end <= |s| && b.value.classStr == classStr && b.value.bodyStart == start
    ensures b.Some? ==> var e := b.value.end - |Close|;
      At(s, e, Close) && b.value.code == s[start..e] && forall j :: start <= j < e ==> !At(s, j, Close)
    ensures b.None? ==> forall j :: start <= j <= |s| ==> !At(s, j, Close)
  {
    match FirstAt(s, Close, start)
    case None => None
    case Some(c) => Some(Block(classStr, start, s[start..c], c + |Close|))
  }

  /** The captured class value and where the body after it starts. */
  datatype Attr = Attr(value: string, bodyStart: nat)

  /**
   * The optional group `\s+class="([^"]*)"` and the '>' after it, tried at
   * `q`: `\s+` takes the whole whitespace run (a shorter run cannot be
   * followed by 'c'), the value runs to the next quote, and '>' must follow
   * it.
   */
  function AttrAt(s: string, q: nat): (r: Option<Attr>)
    requires q <= |s|
    ensures r.Some? ==> q < r.value.bodyStart <= |s| && s[r.value.bodyStart - 1] == '>' && IsJsSpace(s[q])
    ensures r.Some? ==> '"' !in r.value.value
  {
    var w := RunEnd(s, q, IsJsSpace);
    if w > q && At(s, w, ClassAttr) then
      match FirstChar(s, '"', w + |ClassAttr|)
      case None => None
      case Some(k) =>
        if k + 1 < |s| && s[k + 1] == '>' then
          var v := s[w + |ClassAttr|..k];
          assert forall i :: 0 <= i < |v| ==> v[i] == s[w + |ClassAttr| + i];
          Some(Attr(v, k + 2))
        else None
    else None
  }

  /**
   * The match of the block pattern starting at `p`, if any: the opening
   * tags, the class group if it matches there or else '>' at once, then
   * the lazy body. When the group matches but no body follows, dropping
   * the group cannot help, as '>' cannot stand where whitespace does.
   */
  function BlockAt(s: string, p: nat): (b: Option<Block>)
    requires p <= |s|
    ensures b.Some? ==> p + |Open| + 1 + |Close| <= b.value.end <= |s|
  {
    if !At(s, p, Open) then None
    else
      var q := p + |Open|;
      match AttrAt(s, q)
      case Some(a) => BodyFrom(s, a.bodyStart, Some(a.value))
      case None => if q < |s| && s[q] == '>' then BodyFrom(s, q + 1, None) else None
  }

  /** Every occurrence of `pat`, left to right and not overlapping, replaced by `rep`. */
  function ReplaceAll(s: string, pat: string, rep: string): string
    requires |pat| > 0
    decreases |s|
  {
    if s == [] then []
    else if StartsWith(s, pat) then rep + ReplaceAll(s[|pat|..], pat, rep)
    else [s[0]] + ReplaceAll(s[1..], pat, rep)
  }

  /** The entity decoding of a block body, in the order the replaces are chained. */
  function Decode(code: string): string {
    var a := ReplaceAll(code, "&lt;", "<");
    var b := ReplaceAll(a, "&gt;", ">");
    var c := ReplaceAll(b, "&amp;", "&");
    var d := ReplaceAll(c, "&quot;", "\"");
    ReplaceAll(d, "&#39;", "'")
  }

  /** The leftmost `language-` followed by word characters: those characters. */
  function LanguageFrom(c: string, i: nat): Option<string>
    requires i <= |c|
    decreases |c| - i
  {
    if At(c, i, "language-") && RunEnd(c, i + 9, IsWordChar) > i + 9 then Some(c[i + 9..RunEnd(c, i + 9, IsWordChar)])
    else if i == |c| then None
    else LanguageFrom(c, i + 1)
  }

  /** The language named by the class attribute, or '' when there is none. */
  function Language(classStr: Option<string>): string {
    if classStr.None? || classStr.value == "" then ""
    else match LanguageFrom(classStr.value, 0)
      case None => ""
      case Some(l) => l
  }

  /** highlight.js: `getLanguage`, `highlight(code, {language}).value` and `highlightAuto(code).value`. */
  datatype Hljs = Hljs(known: string -> bool, explicit: (string, string) -> string, auto: string -> string)

  /** The highlighted body: the explicit highlighter for a known language, else the automatic one. */
  function Highlighted(code: string, language: string, h: Hljs): string {
    if language != "" && h.known(language) then h.explicit(code, language) else h.auto(code)
  }

  /** The replacement text of one block: `<pre><code class="hljs ` + class value + `">` + body + `</code></pre>`. */
  function Render(b: Block, h: Hljs): string {
    var classStr := if b.classStr.Some? then b.classStr.value else "";
    Open + " " + ClassAttr + ("hljs " + classStr) + "\">" + Highlighted(Decode(b.code), Language(b.classStr), h) + Close
  }

  /** The global replace from index `p` on: each match is rendered, every other character is copied. */
  function Rewrite(s: string, p: nat, h: Hljs): string
    requires p <= |s|
    decreases |s| - p
  {
    if p == |s| then []
    else match BlockAt(s, p)
      case Some(b) => Render(b, h) + Rewrite(s, b.end, h)
      case None => [s[p]] + Rewrite(s, p + 1, h)
  }

  /** highlightCode */
  function HighlightCode(html: string, h: Hljs): string {
    Rewrite(html, 0, h)
  }

  // ---------------------------------------------------------------------------
  // Which spans are rewritten
  // ---------------------------------------------------------------------------

  /** Between matches the text is copied character for character. */
  lemma {:induction false} CopiedOutsideBlocks(s: string, p: nat, q: nat, h: Hljs)
    requires p <= q <= |s|
    requires forall j :: p <= j < q ==> BlockAt(s, j).None?
    ensures Rewrite(s, p, h) == s[p..q] + Rewrite(s, q, h)
    decreases q - p
  {
    if p < q {
      RewriteCopies(s, p, h);
      CopiedOutsideBlocks(s, p + 1, q, h);
      ConsSlice(s, p, q);
      Assoc([s[p]], s[p + 1..q], Rewrite(s, q, h));
    }
  }

  /** A non-empty slice is its first character followed by the rest. */
  lemma ConsSlice(s: string, p: nat, q: nat)
    requires p < q <= |s|
    ensures s[p..q] == [s[p]] + s[p + 1..q]
  {
  }

  /** Where no match starts, the character is copied and the rewrite moves on by one. */
  lemma RewriteCopies(s: string, p: nat, h: Hljs)
    requires p < |s| && BlockAt(s, p).None?
    ensures Rewrite(s, p, h) == [s[p]] + Rewrite(s, p + 1, h)
  {
  }

  /** A text without opening tags comes back unchanged. */
  lemma NoBlockNoChange(html: string, h: Hljs)
    requires forall j :: 0 <= j <= |html| ==> !At(html, j, Open)
    ensures HighlightCode(html, h) == html
  {
    CopiedOutsideBlocks(html, 0, |html|, h);
    assert html[0..|html|] == html;
  }

  /**
   * The text up to the first match is kept, the match is replaced by its
   * rendering, and the rewrite resumes where the match ends.
   */
  lemma FirstBlockRewritten(s: string, p: nat, q: nat, h: Hljs)
    requires p <= q <= |s|
    requires forall j :: p <= j < q ==> BlockAt(s, j).None?
    requires BlockAt(s, q).Some?
    ensures Rewrite(s, p, h) == s[p..q] + Render(BlockAt(s, q).value, h) + Rewrite(s, BlockAt(s, q).value.end, h)
  {
    CopiedOutsideBlocks(s, p, q, h);
  }


  /**
   * What a match of `b` at `p` covers: the opening tags, '>' just before
   * the body, the body, and the first closing tags after the body's start
   * (the body is the shortest possible); without a class value the body
   * starts right after '>', and a captured class value holds no quote.
   */
  predicate Covers(s: string, p: int, b: Block) {
    && At(s, p, Open) && p + |Open| < b.bodyStart <= b.end - |Close| && At(s, b.end - |Close|, Close)
    && s[b.bodyStart - 1] == '>' && b.code == s[b.bodyStart..b.end - |Close|]
    && (forall j :: b.bodyStart <= j < b.end - |Close| ==> !At(s, j, Close))
    && (b.classStr.None? ==> b.bodyStart == p + |Open| + 1)
    && (b.classStr.Some? ==> '"' !in b.classStr.value)
  }

  /** Every match covers its span as the pattern says. */
  lemma BlockShape(s: string, p: nat)
    requires p <= |s| && BlockAt(s, p).Some?
    ensures Covers(s, p, BlockAt(s, p).value)
  {
    var q := p + |Open|;
    assert At(s, p, Open);
    if AttrAt(s, q).Some? {
      var a := AttrAt(s, q).value;
      BlockAtAttr(s, p, a);
      ClassCovers(s, p, a);
    } else {
      BlockAtPlain(s, p);
      PlainCovers(s, p);
    }
  }

  /** A body found after the class group is covered. */
  lemma ClassCovers(s: string, p: nat, a: Attr)
    requires p + |Open| <= |s| && At(s, p, Open) && AttrAt(s, p + |Open|) == Some(a)
    requires BodyFrom(s, a.bodyStart, Some(a.value)).Some?
    ensures Covers(s, p, BodyFrom(s, a.bodyStart, Some(a.value)).value)
  {
    var b := BodyFrom(s, a.bodyStart, Some(a.value)).value;
    assert b.code == s[b.bodyStart..b.end - |Close|];
  }

  /** A body found right after '>' is covered. */
  lemma PlainCovers(s: string, p: nat)
    requires p + |Open| < |s| && At(s, p, Open) && s[p + |Open|] == '>'
    requires BodyFrom(s, p + |Open| + 1, None).Some?
    ensures Covers(s, p, BodyFrom(s, p + |Open| + 1, None).value)
  {
    var b := BodyFrom(s, p + |Open| + 1, None).value;
    assert b.code == s[b.bodyStart..b.end - |Close|];
  }

  /** The first occurrence at or after `from` is the one with none before it. */
  lemma FirstAtIs(s: string, pat: string, from: nat, e: nat)
    requires from <= e <= |s| && At(s, e, pat)
    requires forall j :: from <= j < e ==> !At(s, j, pat)
    ensures FirstAt(s, pat, from) == Some(e)
  {
  }

  /**
   * Conversely, the opening tags, then '>', then a body and the first
   * closing tags after it form a match without class.
   */
  lemma PlainBlockAt(s: string, p: nat, e: nat)
    requires At(s, p, Open) && At(s, e, Close) && p + |Open| < e && s[p + |Open|] == '>'
    requires forall j :: p + |Open| + 1 <= j < e ==> !At(s, j, Close)
    ensures BlockAt(s, p) == Some(Block(None, p + |Open| + 1, s[p + |Open| + 1..e], e + |Close|))
  {
    var q := p + |Open|;
    AttrAtNone(s, q);
    BlockAtPlain(s, p);
    FirstAtIs(s, Close, q + 1, e);
    BodyFromIs(s, q + 1, e, None);
  }

  /** The class group needs whitespace first, so it does not match at '>'. */
  lemma AttrAtNone(s: string, q: nat)
    requires q < |s| && s[q] == '>'
    ensures AttrAt(s, q).None?
  {
  }

  /**
   * Conversely, the opening tags, whitespace, `class="`, a value without
   * quotes, `">`, a body and the first closing tags after it form a match
   * capturing that value.
   */
  lemma ClassBlockAt(s: string, p: nat, w: nat, k: nat, e: nat)
    requires At(s, p, Open) && At(s, w, ClassAttr) && At(s, e, Close)
    requires p + |Open| < w && w + |ClassAttr| <= k && k + 2 <= e
    requires forall j :: p + |Open| <= j < w ==> IsJsSpace(s[j])
    requires forall j :: w + |ClassAttr| <= j < k ==> s[j] != '"'
    requires s[k] == '"' && s[k + 1] == '>'
    requires forall j :: k + 2 <= j < e ==> !At(s, j, Close)
    ensures BlockAt(s, p) == Some(Block(Some(s[w + |ClassAttr|..k]), k + 2, s[k + 2..e], e + |Close|))
  {
    var a := Attr(s[w + |ClassAttr|..k], k + 2);
    AttrAtIs(s, p + |Open|, w, k);
    FirstAtIs(s, Close, k + 2, e);
    BodyFromIs(s, k + 2, e, Some(a.value));
    BlockAtAttr(s, p, a);
  }

  /** When the class group does not match, '>' must follow the opening tags at once. */
  lemma BlockAtPlain(s: string, p: nat)
    requires p + |Open| <= |s| && At(s, p, Open) && AttrAt(s, p + |Open|).None?
    ensures var q := p + |Open|;
      BlockAt(s, p) == if q < |s| && s[q] == '>' then BodyFrom(s, q + 1, None) else None
  {
  }

  /** The body runs to the first closing tags. */
  lemma BodyFromIs(s: string, start: nat, e: nat, classStr: Option<string>)
    requires start <= e <= |s| && FirstAt(s, Close, start) == Some(e)
    ensures BodyFrom(s, start, classStr) == Some(Block(classStr, start, s[start..e], e + |Close|))
  {
  }

  /** When the class group matches, the match is the body after it. */
  lemma BlockAtAttr(s: string, p: nat, a: Attr)
    requires p + |Open| <= |s| && At(s, p, Open) && AttrAt(s, p + |Open|) == Some(a)
    ensures BlockAt(s, p) == BodyFrom(s, a.bodyStart, Some(a.value))
  {
  }

  /** The class group matches a whitespace run, `class="`, a quote-free value, a quote and '>'. */
  lemma AttrAtIs(s: string, q: nat, w: nat, k: nat)
    requires At(s, w, ClassAttr) && q < w && w + |ClassAttr| <= k && k + 2 <= |s|
    requires forall j :: q <= j < w ==> IsJsSpace(s[j])
    requires forall j :: w + |ClassAttr| <= j < k ==> s[j] != '"'
    requires s[k] == '"' && s[k + 1] == '>'
    ensures AttrAt(s, q) == Some(Attr(s[w + |ClassAttr|..k], k + 2))
  {
    assert s[w] == s[w..w + |ClassAttr|][0] == 'c';
    RunEndOver(s, q, w, IsJsSpace);
  }

  /** A run of characters satisfying `p` that ends at a character that does not is the whole run. */
  lemma {:induction false} RunEndOver(s: string, i: nat, e: nat, p: char -> bool)
    requires i <= e < |s|
    requires forall j :: i <= j < e ==> p(s[j])
    requires !p(s[e])
    ensures RunEnd(s, i, p) == e
    decreases e - i
  {
    if i < e {
      RunEndOver(s, i + 1, e, p);
    }
  }

  // ---------------------------------------------------------------------------
  // Entities, language and rendering
  // ---------------------------------------------------------------------------

  /** A replace whose pattern starts with a character the text lacks changes nothing. */
  lemma {:induction false} ReplaceAllAbsent(s: string, pat: string, rep: string)
    requires |pat| > 0 && pat[0] !in s
    ensures ReplaceAll(s, pat, rep) == s
    decreases |s|
  {
    if s != [] {
      assert s[0] != pat[0];
      ReplaceAllAbsent(s[1..], pat, rep);
    }
  }

  /** Decoding touches only entities: a body without '&' is kept as it is. */
  lemma DecodeWithoutAmpersand(code: string)
    requires '&' !in code
    ensures Decode(code) == code
  {
    ReplaceAllAbsent(code, "&lt;", "<");
    ReplaceAllAbsent(code, "&gt;", ">");
    ReplaceAllAbsent(code, "&amp;", "&");
    ReplaceAllAbsent(code, "&quot;", "\"");
    ReplaceAllAbsent(code, "&#39;", "'");
  }

  /** A replace over text that starts with the pattern replaces that occurrence first. */
  lemma ReplaceAllLead(pat: string, rest: string, rep: string)
    requires |pat| > 0
    ensures ReplaceAll(pat + rest, pat, rep) == rep + ReplaceAll(rest, pat, rep)
  {
    assert (pat + rest)[|pat|..] == rest;
  }

  /** A replace over '&' then text without '&', where the pattern does not start there, changes nothing. */
  lemma ReplaceAllAmpLead(rest: string, pat: string, rep: string)
    requires |pat| > 1 && pat[0] == '&' && '&' !in rest && (rest == [] || rest[0] != pat[1])
    ensures ReplaceAll("&" + rest, pat, rep) == "&" + rest
  {
    var s := "&" + rest;
    assert s[1..] == rest;
    if |pat| <= |s| {
      assert s[..|pat|][1] != pat[1];
    }
    ReplaceAllAbsent(rest, pat, rep);
  }

  /** The pieces of an escaped ampersand. */
  lemma AmpPieces()
    ensures "&" + "amp;" == "&amp;" && '&' !in "amp;"
  {
  }

  /** Text without '&' stays so when joined. */
  lemma NoAmpConcat(a: string, b: string)
    requires '&' !in a && '&' !in b
    ensures '&' !in a + b
  {
  }

  /** Concatenation is associative. */
  lemma Assoc(a: string, b: string, c: string)
    ensures a + (b + c) == (a + b) + c
  {
  }

  /**
   * An escaped ampersand survives the '&lt;' and '&gt;' passes and is then
   * decoded, so what follows it meets only the '&quot;' and '&#39;' passes.
   */
  lemma DecodeEscapedAmp(t: string)
    requires '&' !in t
    ensures Decode("&amp;" + t) == ReplaceAll(ReplaceAll("&" + t, "&quot;", "\""), "&#39;", "'")
  {
    var r := "amp;" + t;
    AmpPieces();
    NoAmpConcat("amp;", t);
    Assoc("&", "amp;", t);
    ReplaceAllAmpLead(r, "&lt;", "<");
    ReplaceAllAmpLead(r, "&gt;", ">");
    ReplaceAllLead("&amp;", t, "&");
    ReplaceAllAbsent(t, "&amp;", "&");
  }

  /**
   * The replaces run in a fixed order, so an escaped `&quot;` becomes a
   * quote: '&quot;' has its turn after '&amp;' was decoded ...
   */
  lemma DecodeOrderQuote()
    ensures Decode("&amp;quot;") == "\""
  {
    var q := "quot;";
    DecodeEscapedAmp(q);
    assert "&amp;" + q == "&amp;quot;";
    assert "&" + q == "&quot;" + [];
    ReplaceAllLead("&quot;", [], "\"");
    ReplaceAllAbsent("\"", "&#39;", "'");
  }

  /** ... while an escaped `&lt;` stays `&lt;`, as `&lt;` was replaced before `&amp;` was. */
  lemma DecodeOrderLt()
    ensures Decode("&amp;lt;") == "&lt;"
  {
    var l := "lt;";
    DecodeEscapedAmp(l);
    assert "&amp;" + l == "&amp;lt;";
    ReplaceAllAmpLead(l, "&quot;", "\"");
    ReplaceAllAmpLead(l, "&#39;", "'");
  }


  /** A run that reaches the end of the text ends there. */
  lemma {:induction false} RunEndOverAll(s: string, i: nat, p: char -> bool)
    requires i <= |s|
    requires forall j :: i <= j < |s| ==> p(s[j])
    ensures RunEnd(s, i, p) == |s|
    decreases |s| - i
  {
    if i < |s| {
      RunEndOverAll(s, i + 1, p);
    }
  }

  /**
   * A class value that starts with `language-` and a word names that word
   * as the language; no class, or an empty one, names none.
   */
  lemma LanguageOfClass(w: string, rest: string)
    requires |w| > 0 && forall i :: 0 <= i < |w| ==> IsWordChar(w[i])
    requires rest == [] || !IsWordChar(rest[0])
    ensures Language(Some("language-" + w + rest)) == w
    ensures Language(None) == "" && Language(Some("")) == ""
  {
    var c := "language-" + w + rest;
    assert c[..9] == "language-";
    assert c[9..9 + |w|] == w;
    if rest == [] {
      RunEndOverAll(c, 9, IsWordChar);
    } else {
      assert c[9 + |w|] == rest[0];
      RunEndOver(c, 9, 9 + |w|, IsWordChar);
    }
  }

  /** A named language is a word that follows `language-` in the class value. */
  lemma {:induction false} LanguageFound(c: string, i: nat)
    requires i <= |c| && LanguageFrom(c, i).Some?
    ensures var l := LanguageFrom(c, i).value;
      && |l| > 0 && (forall k :: 0 <= k < |l| ==> IsWordChar(l[k]))
      && exists j :: i <= j <= |c| && At(c, j, "language-" + l)
    decreases |c| - i
  {
    if At(c, i, "language-") && RunEnd(c, i + 9, IsWordChar) > i + 9 {
      var e := RunEnd(c, i + 9, IsWordChar);
      assert c[i..e] == "language-" + c[i + 9..e];
      assert At(c, i, "language-" + c[i + 9..e]);
    } else {
      LanguageFound(c, i + 1);
    }
  }

  /**
   * A rendered block is itself a block: matched from its start, it
   * captures the class value "hljs " followed by the original one and the
   * highlighted body (the explicit highlighter for a known language, else
   * the automatic one), and the match ends where the rendering does;
   * provided the highlighter's output holds no closing tags and the class
   * value no quote.
   */
  lemma RenderedIsBlock(b: Block, h: Hljs, post: string)
    requires b.classStr.Some? ==> '"' !in b.classStr.value
    requires var body := Highlighted(Decode(b.code), Language(b.classStr), h);
      forall j :: 0 <= j < |body| ==> !At(body + Close, j, Close)
    ensures BlockAt(Render(b, h) + post, 0).Some?
    ensures var m := BlockAt(Render(b, h) + post, 0).value;
      var classStr := if b.classStr.Some? then b.classStr.value else "";
      var language := Language(b.classStr);
      && m.classStr == Some("hljs " + classStr)
      && m.code == (if language != "" && h.known(language) then h.explicit(Decode(b.code), language) else h.auto(Decode(b.code)))
      && m.bodyStart == |Open| + 1 + |ClassAttr| + |"hljs " + classStr| + 2
      && m.end == |Render(b, h)|
  {
    var classStr := if b.classStr.Some? then b.classStr.value else "";
    NoQuoteConcat("hljs ", classStr);
    RenderedMatch(Render(b, h) + post, "hljs " + classStr, Highlighted(Decode(b.code), Language(b.classStr), h), post);
  }

  /** The template of a rendered block, with a quote-free class value and a body without closing tags, is matched as a block. */
  lemma RenderedMatch(s: string, c: string, body: string, post: string)
    requires s == Open + " " + ClassAttr + c + "\">" + body + Close + post
    requires '"' !in c
    requires forall j :: 0 <= j < |body| ==> !At(body + Close, j, Close)
    ensures BlockAt(s, 0).Some?
    ensures var m := BlockAt(s, 0).value;
      && m.classStr == Some(c) && m.code == body
      && m.bodyStart == |Open| + 1 + |ClassAttr| + |c| + 2 && m.end == |s| - |post|
  {
    RenderPieces(s, c, body, post);
    PiecesMatch(s, c, body, |s| - |post|);
  }

  /** The pieces of a rendered block, wherever they sit in `s`, are matched as a block. */
  lemma PiecesMatch(s: string, c: string, body: string, end: int)
    requires var w := |Open| + 1;
      var k := w + |ClassAttr| + |c|;
      var e := k + 2 + |body|;
      && e + |Close| == end <= |s|
      && At(s, 0, Open) && s[|Open|] == ' ' && At(s, w, ClassAttr)
      && s[w + |ClassAttr|..k] == c && s[k] == '"' && s[k + 1] == '>'
      && s[k + 2..e] == body && At(s, e, Close) && s[k + 2..e + |Close|] == body + Close
    requires '"' !in c
    requires forall j :: 0 <= j < |body| ==> !At(body + Close, j, Close)
    ensures BlockAt(s, 0).Some?
    ensures var m := BlockAt(s, 0).value;
      && m.classStr == Some(c) && m.code == body
      && m.bodyStart == |Open| + 1 + |ClassAttr| + |c| + 2 && m.end == end
  {
    var w := |Open| + 1;
    var k := w + |ClassAttr| + |c|;
    var e := k + 2 + |body|;
    QuoteFreeSpan(s, w + |ClassAttr|, k, c);
    NoCloseInside(s, k + 2, body);
    ClassBlockAt(s, 0, w, k, e);
  }

  /** A quote-free text copied into `s` leaves that span of `s` quote-free. */
  lemma QuoteFreeSpan(s: string, a: nat, b: nat, c: string)
    requires a <= b <= |s| && s[a..b] == c && '"' !in c
    ensures forall j :: a <= j < b ==> s[j] != '"'
  {
    forall j | a <= j < b ensures s[j] != '"' {
      assert s[j] == c[j - a];
    }
  }


  /** Text without a quote stays so when joined. */
  lemma NoQuoteConcat(a: string, b: string)
    requires '"' !in a && '"' !in b
    ensures '"' !in a + b
  {
  }

  /** A body without closing tags of its own, followed by closing tags in `s`, holds no closing tags in `s` either. */
  lemma NoCloseInside(s: string, start: nat, body: string)
    requires start + |body| + |Close| <= |s| && s[start..start + |body| + |Close|] == body + Close
    requires forall j :: 0 <= j < |body| ==> !At(body + Close, j, Close)
    ensures forall j :: start <= j < start + |body| ==> !At(s, j, Close)
  {
    var t := body + Close;
    forall j | start <= j < start + |body| ensures !At(s, j, Close) {
      SliceOfSlice(s, start, start + |t|, j - start, j - start + |Close|);
      assert !At(t, j - start, Close);
    }
  }

  /** A slice of a slice is a slice. */
  lemma SliceOfSlice(s: string, a: nat, b: nat, i: nat, j: nat)
    requires a <= b <= |s| && i <= j <= b - a
    ensures s[a..b][i..j] == s[a + i..a + j]
  {
    assert forall n :: 0 <= n < j - i ==> s[a..b][i..j][n] == s[a + i + n];
  }

  /** Where the pieces of a rendered block sit. */
  lemma RenderPieces(s: string, c: string, body: string, post: string)
    requires s == Open + " " + ClassAttr + c + "\">" + body + Close + post
    ensures var w := |Open| + 1;
      var k := w + |ClassAttr| + |c|;
      var e := k + 2 + |body|;
      && At(s, 0, Open) && s[|Open|] == ' ' && At(s, w, ClassAttr)
      && s[w + |ClassAttr|..k] == c && s[k] == '"' && s[k + 1] == '>'
      && s[k + 2..e] == body && At(s, e, Close) && s[k + 2..e + |Close|] == body + Close
      && e + |Close| == |s| - |post|
  {
  }
}
