/** The client's HTML text transformations (public/script.js): `escapeHtml`
    and the code-fence rewrite of `formatCodeBlocks`, which is also the last
    step of `formatStructuredResponse`. */
module Html {
  import opened Wrappers
  import opened Strings

  // ---------------------------------------------------------------------------
  // escapeHtml
  // ---------------------------------------------------------------------------

  /** `s.replace(/c/g, rep)` for a one-character pattern. */
  function ReplaceChar(s: string, c: char, rep: string): (r: string)
    decreases |s|
  {
    if s == [] then []
    else (if s[0] == c then rep else [s[0]]) + ReplaceChar(s[1..], c, rep)
  }

  /** `escapeHtml`: five global replacements, `&` first. */
  function EscapeHtml(unsafe: string): (escaped: string)
  {
    ReplaceChar(
      ReplaceChar(
        ReplaceChar(
          ReplaceChar(
            ReplaceChar(unsafe, '&', "&amp;"),
            '<', "&lt;"),
          '>', "&gt;"),
        '"', "&quot;"),
      '\'', "&#039;")
  }

  /** The four characters that may not appear in escaped text. */
  predicate Markup(c: char)
  {
    c == '<' || c == '>' || c == '"' || c == '\''
  }

  /** The five characters `escapeHtml` rewrites. */
  predicate Special(c: char)
  {
    c == '&' || Markup(c)
  }

  /** The reference for one character. */
  function EscapeChar(c: char): string
  {
    if c == '&' then "&amp;"
    else if c == '<' then "&lt;"
    else if c == '>' then "&gt;"
    else if c == '"' then "&quot;"
    else if c == '\'' then "&#039;"
    else [c]
  }

  /** Escaping as a per-character map. */
  function EscapeEach(s: string): (r: string)
    ensures forall k :: 0 <= k < |r| ==> !Markup(r[k])
    decreases |s|
  {
    if s == [] then [] else EscapeChar(s[0]) + EscapeEach(s[1..])
  }

  /** The decoding an HTML parser applies to the five references. */
  function Unescape(s: string): (r: string)
    decreases |s|
  {
    if s == [] then []
    else if "&amp;" <= s then "&" + Unescape(s[5..])
    else if "&lt;" <= s then "<" + Unescape(s[4..])
    else if "&gt;" <= s then ">" + Unescape(s[4..])
    else if "&quot;" <= s then "\"" + Unescape(s[6..])
    else if "&#039;" <= s then "'" + Unescape(s[6..])
    else [s[0]] + Unescape(s[1..])
  }

  lemma {:induction false} ReplaceConcat(a: string, b: string, c: char, rep: string)
    ensures ReplaceChar(a + b, c, rep) == ReplaceChar(a, c, rep) + ReplaceChar(b, c, rep)
    decreases |a|
  {
    if a == [] {
      assert a + b == b;
    } else {
      assert (a + b)[1..] == a[1..] + b;
      ReplaceConcat(a[1..], b, c, rep);
    }
  }

  lemma {:induction false} ReplaceAbsent(s: string, c: char, rep: string)
    requires forall k :: 0 <= k < |s| ==> s[k] != c
    ensures ReplaceChar(s, c, rep) == s
    decreases |s|
  {
    if s != [] {
      ReplaceAbsent(s[1..], c, rep);
      assert s == [s[0]] + s[1..];
    }
  }

  lemma EscapeHtmlConcat(a: string, b: string)
    ensures EscapeHtml(a + b) == EscapeHtml(a) + EscapeHtml(b)
  {
    var a1, b1 := ReplaceChar(a, '&', "&amp;"), ReplaceChar(b, '&', "&amp;");
    ReplaceConcat(a, b, '&', "&amp;");
    var a2, b2 := ReplaceChar(a1, '<', "&lt;"), ReplaceChar(b1, '<', "&lt;");
    ReplaceConcat(a1, b1, '<', "&lt;");
    var a3, b3 := ReplaceChar(a2, '>', "&gt;"), ReplaceChar(b2, '>', "&gt;");
    ReplaceConcat(a2, b2, '>', "&gt;");
    var a4, b4 := ReplaceChar(a3, '"', "&quot;"), ReplaceChar(b3, '"', "&quot;");
    ReplaceConcat(a3, b3, '"', "&quot;");
    ReplaceConcat(a4, b4, '\'', "&#039;");
  }

  lemma ReplaceOne(c: char, d: char, rep: string)
    ensures ReplaceChar([c], d, rep) == if c == d then rep else [c]
  {
    assert [c][1..] == [];
  }

  lemma EscapeHtmlOne(c: char)
    ensures EscapeHtml([c]) == EscapeChar(c)
  {
    var s1 := ReplaceChar([c], '&', "&amp;");
    ReplaceOne(c, '&', "&amp;");
    if c == '&' {
      assert s1 == "&amp;";
      ReplaceAbsent(s1, '<', "&lt;");
      ReplaceAbsent(s1, '>', "&gt;");
      ReplaceAbsent(s1, '"', "&quot;");
      ReplaceAbsent(s1, '\'', "&#039;");
    } else {
      assert s1 == [c];
      EscapeTail(c);
    }
  }

  lemma EscapeTail(c: char)
    requires c != '&'
    ensures ReplaceChar(ReplaceChar(ReplaceChar(ReplaceChar([c], '<', "&lt;"), '>', "&gt;"), '"', "&quot;"), '\'', "&#039;")
         == EscapeChar(c)
  {
    var s2 := ReplaceChar([c], '<', "&lt;");
    ReplaceOne(c, '<', "&lt;");
    if c == '<' {
      assert s2 == "&lt;";
      ReplaceAbsent(s2, '>', "&gt;");
      ReplaceAbsent(s2, '"', "&quot;");
      ReplaceAbsent(s2, '\'', "&#039;");
    } else {
      assert s2 == [c];
      var s3 := ReplaceChar([c], '>', "&gt;");
      ReplaceOne(c, '>', "&gt;");
      if c == '>' {
        assert s3 == "&gt;";
        ReplaceAbsent(s3, '"', "&quot;");
        ReplaceAbsent(s3, '\'', "&#039;");
      } else {
        assert s3 == [c];
        var s4 := ReplaceChar([c], '"', "&quot;");
        ReplaceOne(c, '"', "&quot;");
        if c == '"' {
          assert s4 == "&quot;";
          ReplaceAbsent(s4, '\'', "&#039;");
        } else {
          assert s4 == [c];
          ReplaceOne(c, '\'', "&#039;");
        }
      }
    }
  }

  /** Because `&` is replaced first, the chain of replacements is a
      per-character map: the `&` of a reference introduced by a later step is
      never escaped again. */
  lemma {:induction false} EscapeHtmlIsPerChar(s: string)
    ensures EscapeHtml(s) == EscapeEach(s)
    decreases |s|
  {
    if s != [] {
      assert s == [s[0]] + s[1..];
      EscapeHtmlConcat([s[0]], s[1..]);
      EscapeHtmlOne(s[0]);
      EscapeHtmlIsPerChar(s[1..]);
    }
  }

  /** Escaped text contains no `<`, `>`, `"` or `'`. */
  lemma EscapeHtmlSafe(s: string)
    ensures forall k :: 0 <= k < |EscapeHtml(s)| ==> !Markup(EscapeHtml(s)[k])
  {
    EscapeHtmlIsPerChar(s);
  }

  /** Text without any of the five special characters is returned unchanged. */
  lemma EscapeHtmlIdentity(s: string)
    requires forall k :: 0 <= k < |s| ==> !Special(s[k])
    ensures EscapeHtml(s) == s
  {
    ReplaceAbsent(s, '&', "&amp;");
    ReplaceAbsent(s, '<', "&lt;");
    ReplaceAbsent(s, '>', "&gt;");
    ReplaceAbsent(s, '"', "&quot;");
    ReplaceAbsent(s, '\'', "&#039;");
  }

  lemma UnescapeAmp(t: string)
    ensures Unescape("&amp;" + t) == "&" + Unescape(t)
  {
    var s := "&amp;" + t;
    assert "&amp;" <= s && s[5..] == t;
  }

  /** Decoding one of the two four-character references `&lt;` and `&gt;`. */
  lemma UnescapeShort(ref: string, c: char, t: string)
    requires (ref, c) == ("&lt;", '<') || (ref, c) == ("&gt;", '>')
    ensures Unescape(ref + t) == [c] + Unescape(t)
  {
    var s := ref + t;
    assert s[1] == ref[1] && ref <= s && s[4..] == t;
  }

  /** Decoding one of the two six-character references `&quot;` and `&#039;`. */
  lemma UnescapeLong(ref: string, c: char, t: string)
    requires (ref, c) == ("&quot;", '"') || (ref, c) == ("&#039;", '\'')
    ensures Unescape(ref + t) == [c] + Unescape(t)
  {
    var s := ref + t;
    assert s[1] == ref[1] && ref <= s && s[6..] == t;
  }

  lemma UnescapeChar(c: char, t: string)
    ensures Unescape(EscapeChar(c) + t) == [c] + Unescape(t)
  {
    if c == '&' {
      UnescapeAmp(t);
    } else if c == '<' {
      UnescapeShort("&lt;", c, t);
    } else if c == '>' {
      UnescapeShort("&gt;", c, t);
    } else if c == '"' {
      UnescapeLong("&quot;", c, t);
    } else if c == '\'' {
      UnescapeLong("&#039;", c, t);
    } else {
      var s := EscapeChar(c) + t;
      assert s[0] == c && s[1..] == t;
    }
  }

  /** Decoding the references undoes `escapeHtml`: the browser shows exactly the
      original text. */
  lemma {:induction false} UnescapeEscapeHtml(s: string)
    ensures Unescape(EscapeHtml(s)) == s
    decreases |s|
  {
    EscapeHtmlIsPerChar(s);
    if s != [] {
      UnescapeChar(s[0], EscapeEach(s[1..]));
      UnescapeEscapeHtml(s[1..]);
      EscapeHtmlIsPerChar(s[1..]);
      assert s == [s[0]] + s[1..];
    }
  }

  // ---------------------------------------------------------------------------
  // formatCodeBlocks: text.replace(/```(\w+)?\n([\s\S]*?)```/g, ...)
  // ---------------------------------------------------------------------------

  /** Three backticks start at `i`. */
  predicate FenceAt(s: string, i: nat)
  {
    i + 3 <= |s| && s[i] == '`' && s[i + 1] == '`' && s[i + 2] == '`'
  }

  /** The first fence at or after `i`: what the lazy `[\s\S]*?` stops at. */
  function NextFence(s: string, i: nat): (r: Option<nat>)
    requires i <= |s|
    ensures r.Some? ==> i <= r.value && FenceAt(s, r.value)
    ensures r.Some? ==> forall k: nat :: i <= k < r.value ==> !FenceAt(s, k)
    ensures r.None? ==> forall k: nat :: i <= k ==> !FenceAt(s, k)
    decreases |s| - i
  {
    if i + 3 > |s| then None
    else if FenceAt(s, i) then Some(i)
    else NextFence(s, i + 1)
  }

  /** Where a match that starts at the opening fence ends its language tag and
      where its closing fence starts. */
  datatype Fence = Fence(tagEnd: nat, close: nat)

  /** Whether the pattern matches at `i`: the greedy `(\w+)?` takes the whole
      word run after the opening fence and must be followed by a newline
      (giving back characters cannot help, as they are word characters), then
      the body runs to the first closing fence. */
  function MatchFence(s: string, i: nat): (r: Option<Fence>)
    requires i <= |s|
    ensures r.Some? ==> i + 3 <= r.value.tagEnd < r.value.close && r.value.close + 3 <= |s|
    ensures r.Some? <==>
      && FenceAt(s, i)
      && WordRunEnd(s, i + 3) < |s| && s[WordRunEnd(s, i + 3)] == '\n'
      && NextFence(s, WordRunEnd(s, i + 3) + 1).Some?
    ensures r.Some? ==>
      && (forall k :: i + 3 <= k < r.value.tagEnd ==> IsWordChar(s[k]))
      && s[r.value.tagEnd] == '\n'
      && NextFence(s, r.value.tagEnd + 1) == Some(r.value.close)
  {
    if !FenceAt(s, i) then None
    else
      var j := WordRunEnd(s, i + 3);
      if j < |s| && s[j] == '\n' then
        match NextFence(s, j + 1)
        case Some(k) => Some(Fence(j, k))
        case None => None
      else None
  }

  /** The replacement for one match; an absent language tag is `plaintext`. */
  function CodeBlock(language: string, code: string): (html: string)
  {
    "<pre><code class=\"language-" + (if language == "" then "plaintext" else language) + "\">"
    + EscapeHtml(code) + "</code></pre>"
  }

  /** The global replacement. The pattern only ever looks forward, so the
      regex engine's scan (after a match resume behind the closing fence, after
      a failed attempt one character later) is the same as restarting on the
      remaining suffix. */
  function FormatCodeBlocks(text: string): (r: string)
    decreases |text|
  {
    if text == [] then ""
    else
      match MatchFence(text, 0)
      case Some(f) =>
        CodeBlock(text[3..f.tagEnd], text[f.tagEnd + 1..f.close]) + FormatCodeBlocks(text[f.close + 3..])
      case None => [text[0]] + FormatCodeBlocks(text[1..])
  }

  /** Text without three backticks in a row is returned unchanged. */
  lemma {:induction false} FormatCodeBlocksNoFence(text: string)
    requires forall k: nat :: !FenceAt(text, k)
    ensures FormatCodeBlocks(text) == text
    decreases |text|
  {
    if text != [] {
      forall k: nat ensures !FenceAt(text[1..], k) {
        assert !FenceAt(text, k + 1);
      }
      FormatCodeBlocksNoFence(text[1..]);
      assert text == [text[0]] + text[1..];
    }
  }

  lemma {:induction false} WordRunEndOver(s: string, i: nat, n: nat)
    requires i + n <= |s|
    requires forall k :: i <= k < i + n ==> IsWordChar(s[k])
    requires i + n < |s| ==> !IsWordChar(s[i + n])
    ensures WordRunEnd(s, i) == i + n
    decreases n
  {
    if n > 0 {
      WordRunEndOver(s, i + 1, n - 1);
    }
  }

  lemma {:induction false} NextFenceFinds(s: string, i: nat, k: nat)
    requires i <= k && FenceAt(s, k)
    requires forall m: nat :: i <= m < k ==> !FenceAt(s, m)
    ensures NextFence(s, i) == Some(k)
    decreases k - i
  {
    if i < k {
      NextFenceFinds(s, i + 1, k);
    }
  }

  /** One fenced block followed by any text: the block becomes `<pre><code>`
      with its body escaped and its class taken from the language tag
      (`language-plaintext` when there is none), and the rest is rewritten on
      its own. The body must not contain the closing fence. */
  lemma SingleBlock(language: string, code: string, rest: string)
    requires forall k :: 0 <= k < |language| ==> IsWordChar(language[k])
    requires forall k: nat :: k < |code| ==> !FenceAt(code + "```", k)
    ensures FormatCodeBlocks("```" + language + "\n" + code + "```" + rest)
         == CodeBlock(language, code) + FormatCodeBlocks(rest)
  {
    var head := "```" + language + "\n" + code + "```";
    var s := head + rest;
    var body := 4 + |language|;
    var close := body + |code|;
    assert FenceAt(s, 0);
    assert s[3..3 + |language|] == language;
    WordRunEndOver(s, 3, |language|);
    assert s[3 + |language|] == '\n';
    assert s[body..close + 3] == code + "```";
    forall m: nat | body <= m < close
      ensures !FenceAt(s, m)
    {
      assert !FenceAt(code + "```", m - body);
      assert s[m] == (code + "```")[m - body];
      assert s[m + 1] == (code + "```")[m - body + 1];
      assert s[m + 2] == (code + "```")[m - body + 2];
    }
    assert FenceAt(s, close);
    NextFenceFinds(s, body, close);
    assert MatchFence(s, 0) == Some(Fence(3 + |language|, close));
    assert s[body..close] == code;
    assert |head| == close + 3;
    assert s[|head|..] == rest;
  }

  /** Text before the first fence is copied verbatim and the rest is rewritten
      on its own: no match can start inside a prefix that holds no fence. */
  lemma {:induction false} FencePrefixCopied(prefix: string, rest: string)
    requires forall k :: 0 <= k < |prefix| ==> !FenceAt(prefix + rest, k)
    ensures FormatCodeBlocks(prefix + rest) == prefix + FormatCodeBlocks(rest)
    decreases |prefix|
  {
    var s := prefix + rest;
    if prefix == [] {
      assert s == rest;
    } else {
      assert !FenceAt(s, 0);
      assert s[1..] == prefix[1..] + rest;
      forall k | 0 <= k < |prefix[1..]|
        ensures !FenceAt(prefix[1..] + rest, k)
      {
        assert !FenceAt(s, k + 1);
      }
      FencePrefixCopied(prefix[1..], rest);
      assert s[0] == prefix[0];
      AppendAssoc([prefix[0]], prefix[1..], FormatCodeBlocks(rest));
      assert [prefix[0]] + prefix[1..] == prefix;
    }
  }

  /** The usual shape of a reply: prose, then a fenced block, then more text.
      The prose is kept, the block becomes `<pre><code>` with its body escaped,
      and the text after it is rewritten on its own. */
  lemma ProseThenBlock(prose: string, language: string, code: string, rest: string)
    requires forall k :: 0 <= k < |language| ==> IsWordChar(language[k])
    requires forall k: nat :: k < |code| ==> !FenceAt(code + "```", k)
    requires forall k :: 0 <= k < |prose| ==>
      !FenceAt(prose + ("```" + language + "\n" + code + "```" + rest), k)
    ensures FormatCodeBlocks(prose + ("```" + language + "\n" + code + "```" + rest))
         == prose + (CodeBlock(language, code) + FormatCodeBlocks(rest))
  {
    FencePrefixCopied(prose, "```" + language + "\n" + code + "```" + rest);
    SingleBlock(language, code, rest);
  }
}
