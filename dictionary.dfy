/**
 * `typo_check` (calysto/spell-check/main.js, lines 75-80): a word is
 * accepted when the affix dictionary accepts it after one leading
 * apostrophe and one trailing apostrophe are removed, each only when
 * present and no more, or when the supplemental word list has
 * loaded and holds the word exactly as it was read.
 */
module Dictionary {
  import opened Wrappers

  /**
   * The two lookups `typo_check` consults. `check` is the loaded affix
   * dictionary's `check`, taken as given; `words` is the key set of the
   * supplemental word list, `None` until its asynchronous fetch completes.
   */
  datatype SpellDictionary = SpellDictionary(check: string -> bool, words: Option<set<string>>)

  /**
   * The word after `replace(/(^')|('$)/g, "")`: an apostrophe is removed
   * at the very start and one at the very end, no more.
   */
  function StripQuotes(w: string): (r: string)
    ensures |w| - 2 <= |r| <= |w|
  {
    var a := if |w| > 0 && w[0] == '\'' then 1 else 0;
    var b := if |w| > a && w[|w| - 1] == '\'' then |w| - 1 else |w|;
    w[a..b]
  }

  /** Whether the pattern `(^')|('$)` matches at index `i` of `w` (it matches one character). */
  predicate QuoteMatchAt(w: string, i: nat)
    requires i < |w|
  {
    w[i] == '\'' && (i == 0 || i == |w| - 1)
  }

  /**
   * `String.prototype.replace` with a global, never-empty, one-character
   * pattern: the scan runs left to right from index `i` and deletes every
   * character at which the pattern matches.
   */
  function GlobalReplaceFrom(w: string, i: nat): string
    requires i <= |w|
    decreases |w| - i
  {
    if i == |w| then [] else (if QuoteMatchAt(w, i) then [] else [w[i]]) + GlobalReplaceFrom(w, i + 1)
  }

  lemma {:induction false} GlobalReplaceInterior(w: string, i: nat)
    requires 0 < i <= |w|
    ensures GlobalReplaceFrom(w, i) == w[i..if |w| - 1 >= i && w[|w| - 1] == '\'' then |w| - 1 else |w|]
    decreases |w| - i
  {
    if i < |w| {
      GlobalReplaceInterior(w, i + 1);
      if i < |w| - 1 {
        var b := if w[|w| - 1] == '\'' then |w| - 1 else |w|;
        assert w[i..b] == [w[i]] + w[i + 1..b];
      }
    }
  }

  /** StripQuotes is what the global regular-expression replace computes. */
  lemma StripQuotesIsGlobalReplace(w: string)
    ensures StripQuotes(w) == GlobalReplaceFrom(w, 0)
  {
    if |w| > 0 {
      GlobalReplaceInterior(w, 1);
      if w[0] != '\'' {
        var b := if |w| > 0 && w[|w| - 1] == '\'' then |w| - 1 else |w|;
        if |w| == 1 {
          assert w[0..b] == [w[0]];
        } else {
          assert w[0..b] == [w[0]] + w[1..b];
        }
      }
    }
  }

  /** One pair of surrounding quotes comes off whatever the word inside is. */
  lemma StripQuotesOfQuoted(w: string)
    ensures StripQuotes("'" + w + "'") == w
  {
    var q := "'" + w + "'";
    assert q[1..|q| - 1] == w;
  }

  /** A word is left alone exactly when it neither starts nor ends with a quote. */
  lemma StripQuotesUnchanged(w: string)
    ensures StripQuotes(w) == w <==> (w == [] || (w[0] != '\'' && w[|w| - 1] != '\''))
  {
    if w != [] && (w[0] == '\'' || w[|w| - 1] == '\'') {
      assert |StripQuotes(w)| < |w|;
    } else {
      assert w[0..|w|] == w;
    }
  }

  /** Characters strictly inside the word survive in place, quotes included. */
  lemma StripQuotesKeepsInterior(w: string, k: nat)
    requires 0 < k < |w| - 1
    ensures var off := if w[0] == '\'' then 1 else 0;
      0 <= k - off < |StripQuotes(w)| && StripQuotes(w)[k - off] == w[k]
  {
  }

  lemma StripQuotesExamples()
    ensures StripQuotes("''word''") == "'word'"
    ensures StripQuotes("fox's") == "fox's"
    ensures StripQuotes("'") == [] && StripQuotes("''") == []
  {
    StripQuotesOfQuoted("'word'");
    assert "'" + "'word'" + "'" == "''word''";
    StripQuotesUnchanged("fox's");
  }

  /** `typo_check(word)`: true when the word counts as correctly spelled. */
  predicate TypoCheck(d: SpellDictionary, word: string) {
    d.check(StripQuotes(word)) || (d.words.Some? && word in d.words.value)
  }

  /** Until the supplemental list has loaded, only the affix dictionary decides. */
  lemma UnloadedWordsAddNothing(check: string -> bool, word: string)
    ensures TypoCheck(SpellDictionary(check, None), word) == check(StripQuotes(word))
  {
  }

  /** Loading more supplemental words never rejects a word that was accepted. */
  lemma MoreWordsAcceptMore(check: string -> bool, words: Option<set<string>>, more: set<string>, word: string)
    requires words.Some? ==> words.value <= more
    ensures TypoCheck(SpellDictionary(check, words), word) ==> TypoCheck(SpellDictionary(check, Some(more)), word)
  {
  }

  /**
   * The supplemental list is consulted with the word as read, quotes
   * included: a quoted listed word is still rejected when the affix
   * dictionary does not know it.
   */
  lemma SupplementalWordsMatchRawWord()
    ensures var d := SpellDictionary(w => false, Some({"qwik"}));
      TypoCheck(d, "qwik") && !TypoCheck(d, "'qwik'")
  {
    StripQuotesOfQuoted("qwik");
    assert "'qwik'" != "qwik";
  }

  /** A quoted word is accepted as the bare word is by the affix dictionary. */
  lemma QuotedWordChecksBareWord(d: SpellDictionary, w: string)
    requires d.check(w)
    ensures TypoCheck(d, "'" + w + "'")
  {
    StripQuotesOfQuoted(w);
  }
}
