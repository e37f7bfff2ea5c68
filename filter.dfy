/** `responseFilter` (public/script.js): a table of replacements applied in
    order, each as `text.replace(new RegExp("\\b" + key + "\\b", "gi"), value)`. */
module Filter {
  import opened Strings

  /** There is a word character at `i`. */
  predicate WordAt(s: string, i: int)
  {
    0 <= i < |s| && IsWordChar(s[i])
  }

  /** Whether the character before `i` is a word character; `ctx` stands for
      the character before the start of `s`. */
  predicate WordBefore(s: string, i: nat, ctx: bool)
  {
    if i == 0 then ctx else WordAt(s, i - 1)
  }

  /** `\b` at `i`. */
  predicate Boundary(s: string, i: nat, ctx: bool)
  {
    WordBefore(s, i, ctx) != WordAt(s, i)
  }

  /** `\bkey\b` matches case-insensitively at `i` of `s`, read in context `ctx`. */
  predicate MatchIn(s: string, key: string, i: nat, ctx: bool)
  {
    && i + |key| <= |s|
    && CaseEq(s[i..i + |key|], key)
    && Boundary(s, i, ctx)
    && Boundary(s, i + |key|, ctx)
  }

  /** `\bkey\b` with flag `i` matches at position `i` of the text. */
  predicate MatchAt(s: string, key: string, i: nat)
  {
    MatchIn(s, key, i, false)
  }

  ghost predicate AllWord(w: string)
  {
    forall k :: 0 <= k < |w| ==> IsWordChar(w[k])
  }

  /** The global replace from position `i` on: at a match the value is emitted
      and the scan resumes behind the match, otherwise the character is copied.
      The word boundaries are read in the original text. */
  function ReplaceFrom(s: string, key: string, value: string, i: nat): (r: string)
    requires key != "" && i <= |s|
    decreases |s| - i
  {
    if i == |s| then ""
    else if MatchAt(s, key, i) then value + ReplaceFrom(s, key, value, i + |key|)
    else [s[i]] + ReplaceFrom(s, key, value, i + 1)
  }

  /** `text.replace(/\bkey\b/gi, value)` for a key without regex metacharacters. */
  function ReplaceWord(text: string, key: string, value: string): (r: string)
    requires key != ""
  {
    ReplaceFrom(text, key, value, 0)
  }

  /** Positions without a match are copied verbatim. */
  lemma {:induction false} CopyRun(s: string, key: string, value: string, i: nat, r: nat)
    requires key != "" && i <= r <= |s|
    requires forall p: nat :: i <= p < r ==> !MatchAt(s, key, p)
    ensures ReplaceFrom(s, key, value, i) == s[i..r] + ReplaceFrom(s, key, value, r)
    decreases r - i
  {
    if i < r {
      CopyRun(s, key, value, i + 1, r);
      assert !MatchAt(s, key, i);
      assert ReplaceFrom(s, key, value, i) == [s[i]] + ReplaceFrom(s, key, value, i + 1);
      assert s[i..r] == [s[i]] + s[i + 1..r];
      AppendAssoc([s[i]], s[i + 1..r], ReplaceFrom(s, key, value, r));
    }
  }

  /** A text (or a suffix) where the key never matches is returned unchanged. */
  lemma ReplaceNoMatch(s: string, key: string, value: string, i: nat)
    requires key != "" && i <= |s|
    requires forall p: nat :: i <= p ==> !MatchAt(s, key, p)
    ensures ReplaceFrom(s, key, value, i) == s[i..]
  {
    CopyRun(s, key, value, i, |s|);
  }

  /** A key made of word characters cannot match at a non-word character. */
  lemma NonWordStep(s: string, key: string, value: string, n: nat)
    requires key != "" && AllWord(key)
    requires n < |s| && !IsWordChar(s[n])
    ensures ReplaceFrom(s, key, value, n) == [s[n]] + ReplaceFrom(s, key, value, n + 1)
  {
    if n + |key| <= |s| {
      assert s[n..n + |key|][0] == s[n];
    }
    FoldKeepsWordness(s[n], key[0]);
    assert !MatchAt(s, key, n);
  }

  /** Reading a match behind a non-empty prefix. */
  lemma MatchConcat(a: string, b: string, w: string, j: nat, ctx: bool)
    requires a != []
    ensures MatchIn(a + b, w, |a| + j, ctx) == MatchIn(b, w, j, IsWordChar(a[|a| - 1]))
  {
    var s := a + b;
    var before := IsWordChar(a[|a| - 1]);
    assert WordAt(s, |a| + j) == WordAt(b, j);
    assert WordBefore(s, |a| + j, ctx) == WordBefore(b, j, before);
    assert WordAt(s, |a| + j + |w|) == WordAt(b, j + |w|);
    assert WordBefore(s, |a| + j + |w|, ctx) == WordBefore(b, j + |w|, before);
    if |a| + j + |w| <= |s| {
      assert s[|a| + j..|a| + j + |w|] == b[j..j + |w|];
    }
  }

  /** In the key-match case: no match of `w` starts inside the emitted value. */
  lemma NoMatchInValue(value: string, rest: string, w: string, j: nat, ctx: bool)
    requires value != "" && AllWord(value)
    requires w != "" && AllWord(w) && !CaseEq(value, w)
    requires j < |value|
    requires rest != [] ==> !IsWordChar(rest[0])
    ensures !MatchIn(value + rest, w, j, ctx)
  {
    var o := value + rest;
    if j > 0 {
      assert WordAt(o, j - 1) && WordAt(o, j);
      assert !Boundary(o, j, ctx);
    } else if |w| < |value| {
      assert WordAt(o, |w| - 1) && WordAt(o, |w|);
      assert !Boundary(o, |w|, ctx);
    } else if |w| == |value| {
      assert o[..|w|] == value;
    } else if rest != [] && |w| <= |o| {
      assert o[..|w|][|value|] == rest[0];
      FoldKeepsWordness(rest[0], w[|value|]);
      assert !CaseEq(o[..|w|], w);
    }
  }

  /** In the no-match case: a match of `w` at the start of the output can only
      be a match of `w` in the original text. */
  lemma RunMatchIsOriginal(s: string, key: string, value: string, w: string, i: nat)
    requires key != "" && AllWord(key)
    requires w != "" && AllWord(w)
    requires i < |s| && !MatchAt(s, key, i)
    ensures MatchIn(ReplaceFrom(s, key, value, i), w, 0, WordBefore(s, i, false)) ==> MatchAt(s, w, i)
  {
    var ctx := WordBefore(s, i, false);
    var o := ReplaceFrom(s, key, value, i);
    assert o[0] == s[i];
    if !IsWordChar(s[i]) {
      FoldKeepsWordness(s[i], w[0]);
      if |w| <= |o| {
        assert o[0..|w|][0] == s[i];
      }
      return;
    }
    if ctx {
      assert !Boundary(o, 0, ctx);
      return;
    }
    var r := WordRunEnd(s, i);
    forall p: nat | i <= p < r ensures !MatchAt(s, key, p) {
      if p > i {
        assert WordAt(s, p - 1) && WordAt(s, p);
      }
    }
    CopyRun(s, key, value, i, r);
    var m := r - i;
    if r < |s| {
      NonWordStep(s, key, value, r);
      assert o[m] == s[r];
    }
    if |w| > m {
      if |w| <= |o| {
        assert r < |s|;
        assert o[0..|w|][m] == s[r];
        FoldKeepsWordness(s[r], w[m]);
      }
    } else if |w| < m {
      assert o[|w| - 1] == s[i + |w| - 1] && o[|w|] == s[i + |w|];
      assert WordAt(o, |w| - 1) && WordAt(o, |w|);
      assert !Boundary(o, |w|, ctx);
    } else {
      assert o[0..|w|] == s[i..i + |w|];
      assert WordAt(s, r - 1);
      assert Boundary(s, i + |w|, false) == Boundary(o, |w|, ctx);
    }
  }

  /** The emitted value, followed by a rest that starts with a non-word
      character and has no match of `w` behind a word character, has no match of `w`. */
  lemma ValueThenRest(value: string, rest: string, w: string, ctx: bool)
    requires value != "" && AllWord(value)
    requires w != "" && AllWord(w) && !CaseEq(value, w)
    requires rest != [] ==> !IsWordChar(rest[0])
    requires forall j: nat :: !MatchIn(rest, w, j, true)
    ensures forall j: nat :: !MatchIn(value + rest, w, j, ctx)
  {
    forall j: nat ensures !MatchIn(value + rest, w, j, ctx) {
      if j < |value| {
        NoMatchInValue(value, rest, w, j, ctx);
      } else {
        MatchConcat(value, rest, w, j - |value|, ctx);
        assert |value| + (j - |value|) == j;
      }
    }
  }

  /** At a key match the output is the value, then the output from behind the
      match, which starts at a non-word character and follows a word character. */
  lemma KeyMatchShape(s: string, key: string, value: string, i: nat, n: nat)
    requires key != "" && AllWord(key)
    requires i < |s| && MatchAt(s, key, i) && n == i + |key|
    ensures ReplaceFrom(s, key, value, i) == value + ReplaceFrom(s, key, value, n)
    ensures WordBefore(s, n, false)
    ensures ReplaceFrom(s, key, value, n) != [] ==> !IsWordChar(ReplaceFrom(s, key, value, n)[0])
  {
    assert s[i..n][|key| - 1] == s[n - 1];
    FoldKeepsWordness(s[n - 1], key[|key| - 1]);
    if n < |s| {
      NonWordStep(s, key, value, n);
    }
  }

  /** The step at a key match. */
  lemma AfterKeyMatch(s: string, key: string, value: string, w: string, i: nat, n: nat)
    requires key != "" && AllWord(key)
    requires value != "" && AllWord(value)
    requires w != "" && AllWord(w) && !CaseEq(value, w)
    requires i < |s| && MatchAt(s, key, i) && n == i + |key|
    requires forall j: nat :: !MatchIn(ReplaceFrom(s, key, value, n), w, j, WordBefore(s, n, false))
    ensures forall j: nat :: !MatchIn(ReplaceFrom(s, key, value, i), w, j, WordBefore(s, i, false))
  {
    KeyMatchShape(s, key, value, i, n);
    ValueThenRest(value, ReplaceFrom(s, key, value, n), w, WordBefore(s, i, false));
  }

  /** The step where the key does not match and `w` did not match in the original. */
  lemma AfterCopy(s: string, key: string, value: string, w: string, i: nat, n: nat)
    requires key != "" && AllWord(key)
    requires w != "" && AllWord(w)
    requires i < |s| && !MatchAt(s, key, i) && !MatchAt(s, w, i) && n == i + 1
    requires forall j: nat :: !MatchIn(ReplaceFrom(s, key, value, n), w, j, WordBefore(s, n, false))
    ensures forall j: nat :: !MatchIn(ReplaceFrom(s, key, value, i), w, j, WordBefore(s, i, false))
  {
    var ctx := WordBefore(s, i, false);
    var o := ReplaceFrom(s, key, value, i);
    var rest := ReplaceFrom(s, key, value, i + 1);
    assert o == [s[i]] + rest;
    RunMatchIsOriginal(s, key, value, w, i);
    assert WordBefore(s, i + 1, false) == IsWordChar(s[i]);
    forall j: nat ensures !MatchIn(o, w, j, ctx) {
      if j > 0 {
        MatchConcat([s[i]], rest, w, j - 1, ctx);
        assert 1 + (j - 1) == j;
      }
    }
  }

  /** After replacing every whole-word match of an all-word `key` by an
      all-word `value`, every whole-word match of an all-word `w` (other than
      `value`) in the output stands where `w` matched in the original text and
      `key` did not. */
  lemma {:induction false} OnlyOriginalMatches(s: string, key: string, value: string, w: string, i: nat)
    requires key != "" && AllWord(key)
    requires value != "" && AllWord(value)
    requires w != "" && AllWord(w) && !CaseEq(value, w)
    requires i <= |s|
    requires forall p: nat :: i <= p && MatchAt(s, w, p) ==> MatchAt(s, key, p)
    ensures forall j: nat :: !MatchIn(ReplaceFrom(s, key, value, i), w, j, WordBefore(s, i, false))
    decreases |s| - i
  {
    if i == |s| {
      return;
    }
    if MatchAt(s, key, i) {
      OnlyOriginalMatches(s, key, value, w, i + |key|);
      AfterKeyMatch(s, key, value, w, i, i + |key|);
    } else {
      OnlyOriginalMatches(s, key, value, w, i + 1);
      AfterCopy(s, key, value, w, i, i + 1);
    }
  }

  /** No whole-word match of the key survives its replacement. */
  lemma ReplaceWordRemoves(s: string, key: string, value: string)
    requires key != "" && AllWord(key)
    requires value != "" && AllWord(value) && !CaseEq(value, key)
    ensures forall j: nat :: !MatchAt(ReplaceWord(s, key, value), key, j)
  {
    OnlyOriginalMatches(s, key, value, key, 0);
    assert !WordBefore(s, 0, false);
  }

  /** Replacing one word does not create a whole-word match of another. */
  lemma ReplaceWordKeepsAbsent(s: string, key: string, value: string, w: string)
    requires key != "" && AllWord(key)
    requires value != "" && AllWord(value)
    requires w != "" && AllWord(w) && !CaseEq(value, w)
    requires forall p: nat :: !MatchAt(s, w, p)
    ensures forall j: nat :: !MatchAt(ReplaceWord(s, key, value), w, j)
  {
    OnlyOriginalMatches(s, key, value, w, 0);
    assert !WordBefore(s, 0, false);
  }

  /** A phrase key ending in `" " + w` can only match where `w` matches. */
  lemma PhraseNeedsWord(s: string, prefix: string, w: string, p: nat)
    requires w != "" && IsWordChar(w[0])
    requires MatchAt(s, prefix + " " + w, p)
    ensures MatchAt(s, w, p + |prefix| + 1)
  {
    var phrase := prefix + " " + w;
    var q := p + |prefix| + 1;
    var t := s[p..p + |phrase|];
    assert t[|prefix|] == s[q - 1] && phrase[|prefix|] == ' ';
    assert !IsWordChar(s[q - 1]);
    forall k | 0 <= k < |w| ensures Fold(s[q..q + |w|][k]) == Fold(w[k]) {
      assert s[q..q + |w|][k] == t[|prefix| + 1 + k];
      assert phrase[|prefix| + 1 + k] == w[k];
    }
    FoldKeepsWordness(s[q], w[0]);
    assert s[q..q + |w|][0] == s[q];
    assert q + |w| == p + |phrase|;
  }

  // ---------------------------------------------------------------------------
  // The table and the loop
  // ---------------------------------------------------------------------------

  /** The replacement table, in the order `Object.entries` yields it. */
  const Replacements: seq<(string, string)> := [
    ("Google", "NiCKK"),
    ("Gemini", "NiCKK"),
    ("I am developed by Google", "I am an AI created using advanced language models and based on Google's Gemini"),
    ("I was made by Google", "I was built using Gemini's Api"),
    ("I am a product of Google", "I am a custom-built chatbot")
  ]

  predicate NonEmptyKeys(entries: seq<(string, string)>)
  {
    forall k :: 0 <= k < |entries| ==> entries[k].0 != ""
  }

  /** The entries applied one after another, first entry first. */
  function ApplyAll(entries: seq<(string, string)>, text: string): (r: string)
    requires NonEmptyKeys(entries)
    decreases |entries|
  {
    if entries == [] then text
    else
      var e := entries[|entries| - 1];
      ReplaceWord(ApplyAll(entries[..|entries| - 1], text), e.0, e.1)
  }

  /** `responseFilter`: the `for` loop over the table. Its output has no
      whole-word, case-insensitive "Google" or "Gemini" left. */
  method ResponseFilter(text: string) returns (r: string)
    ensures r == ApplyAll(Replacements, text)
    ensures forall j: nat :: !MatchAt(r, "Google", j) && !MatchAt(r, "Gemini", j)
  {
    r := text;
    for i := 0 to |Replacements|
      invariant r == ApplyAll(Replacements[..i], text)
    {
      assert Replacements[..i + 1][..i] == Replacements[..i];
      r := ReplaceWord(r, Replacements[i].0, Replacements[i].1);
    }
    assert Replacements[..|Replacements|] == Replacements;
    FilterRemovesNames(text);
  }

  lemma PhraseKeys()
    ensures Replacements[2].0 == "I am developed by" + " " + "Google"
    ensures Replacements[3].0 == "I was made by" + " " + "Google"
    ensures Replacements[4].0 == "I am a product of" + " " + "Google"
  {
  }

  /** The three phrase entries all end in the word "Google", which the first
      entry has already removed, so they never match: the filter is the two
      word replacements alone. */
  lemma PhrasesNeverMatch(text: string)
    ensures ApplyAll(Replacements, text)
         == ReplaceWord(ReplaceWord(text, "Google", "NiCKK"), "Gemini", "NiCKK")
  {
    var t1 := ReplaceWord(text, "Google", "NiCKK");
    var t2 := ReplaceWord(t1, "Gemini", "NiCKK");
    assert AllWord("Google") && AllWord("Gemini") && AllWord("NiCKK");
    ReplaceWordRemoves(text, "Google", "NiCKK");
    ReplaceWordKeepsAbsent(t1, "Gemini", "NiCKK", "Google");
    ApplyNames(text);
    ApplyPhrases(text);
    PhrasesKeep(t2);
  }

  /** The first two entries of the table are the two word replacements. */
  lemma ApplyNames(text: string)
    ensures NonEmptyKeys(Replacements[..2])
    ensures ApplyAll(Replacements[..2], text)
         == ReplaceWord(ReplaceWord(text, "Google", "NiCKK"), "Gemini", "NiCKK")
  {
    assert Replacements[..0] == [];
    ApplyStep(Replacements, 0, text);
    ApplyStep(Replacements, 1, text);
  }

  /** The last three entries are applied, in order, after the first two. */
  lemma ApplyPhrases(text: string)
    ensures NonEmptyKeys(Replacements[..2])
    ensures ApplyAll(Replacements, text)
         == ReplaceWord(ReplaceWord(ReplaceWord(ApplyAll(Replacements[..2], text),
              Replacements[2].0, Replacements[2].1),
              Replacements[3].0, Replacements[3].1),
              Replacements[4].0, Replacements[4].1)
  {
    ApplyStep(Replacements, 2, text);
    ApplyStep(Replacements, 3, text);
    ApplyStep(Replacements, 4, text);
    assert Replacements[..5] == Replacements;
  }

  /** On a text without a whole-word "Google" the three phrase entries change nothing. */
  lemma PhrasesKeep(t: string)
    requires forall p: nat :: !MatchAt(t, "Google", p)
    ensures ReplaceWord(ReplaceWord(ReplaceWord(t,
              Replacements[2].0, Replacements[2].1),
              Replacements[3].0, Replacements[3].1),
              Replacements[4].0, Replacements[4].1) == t
  {
    PhraseKeys();
    PhraseAbsent(t, "I am developed by");
    PhraseAbsent(t, "I was made by");
    PhraseAbsent(t, "I am a product of");
    ReplaceNoMatch(t, Replacements[2].0, Replacements[2].1, 0);
    ReplaceNoMatch(t, Replacements[3].0, Replacements[3].1, 0);
    ReplaceNoMatch(t, Replacements[4].0, Replacements[4].1, 0);
  }

  /** A text without a whole-word "Google" has no match of a phrase ending in it. */
  lemma PhraseAbsent(t: string, prefix: string)
    requires forall p: nat :: !MatchAt(t, "Google", p)
    ensures forall p: nat :: !MatchAt(t, prefix + " " + "Google", p)
  {
    forall p: nat ensures !MatchAt(t, prefix + " " + "Google", p) {
      if MatchAt(t, prefix + " " + "Google", p) {
        PhraseNeedsWord(t, prefix, "Google", p);
      }
    }
  }

  /** Applying one more entry of the table. */
  lemma ApplyStep(entries: seq<(string, string)>, k: nat, text: string)
    requires NonEmptyKeys(entries) && k < |entries|
    ensures NonEmptyKeys(entries[..k])
    ensures ApplyAll(entries[..k + 1], text) == ReplaceWord(ApplyAll(entries[..k], text), entries[k].0, entries[k].1)
  {
    assert entries[..k + 1][..k] == entries[..k];
  }

  /** No whole-word, case-insensitive "Google" or "Gemini" survives the filter. */
  lemma FilterRemovesNames(text: string)
    ensures forall j: nat :: !MatchAt(ApplyAll(Replacements, text), "Google", j)
    ensures forall j: nat :: !MatchAt(ApplyAll(Replacements, text), "Gemini", j)
  {
    var t1 := ReplaceWord(text, "Google", "NiCKK");
    assert AllWord("Google") && AllWord("Gemini") && AllWord("NiCKK");
    PhrasesNeverMatch(text);
    ReplaceWordRemoves(text, "Google", "NiCKK");
    ReplaceWordKeepsAbsent(t1, "Gemini", "NiCKK", "Google");
    ReplaceWordRemoves(t1, "Gemini", "NiCKK");
  }

  /** A text without a whole-word "Google" or "Gemini" is returned unchanged
      (every other key contains the word "Google"). */
  lemma FilterIdentity(text: string)
    requires forall p: nat :: !MatchAt(text, "Google", p) && !MatchAt(text, "Gemini", p)
    ensures ApplyAll(Replacements, text) == text
  {
    PhrasesNeverMatch(text);
    ReplaceNoMatch(text, "Google", "NiCKK", 0);
    ReplaceNoMatch(text, "Gemini", "NiCKK", 0);
  }
}
