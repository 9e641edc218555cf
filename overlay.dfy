/**
 * `spellOverlay.token` (calysto/spell-check/main.js, lines 14-31): one
 * call reads one token from the CodeMirror stream and styles it.
 */
module Overlay {
  import opened Wrappers
  import opened WordChars
  import opened Streams
  import opened Tokenizer
  import opened Dictionary

  /** The CSS class of misspelled words. */
  const SpellError := "spell-error"

  /** The style the overlay gives a token it read; non-word tokens are never flagged. */
  function Style(d: SpellDictionary, t: Token): Option<string> {
    if t.isWord && !TypoCheck(d, t.text) then Some(SpellError) else None
  }

  /**
   * Reads one token. On a word character it consumes the maximal run of
   * word characters and flags it when `typo_check` rejects the text
   * consumed since the token start; otherwise it consumes non-word
   * characters up to the next word character or the end of the line.
   */
  method SpellToken(stream: StringStream, d: SpellDictionary) returns (style: Option<string>)
    requires stream.Valid()
    modifies stream`pos
    ensures stream.Valid()
    ensures stream.pos == TokenEnd(stream.line, old(stream.pos))
    ensures style == if old(stream.pos) < |stream.line| && IsWordChar(stream.line[old(stream.pos)])
                        && !TypoCheck(d, stream.line[stream.start..stream.pos])
                     then Some(SpellError) else None
    ensures stream.start == old(stream.pos) < |stream.line| ==>
              style == Style(d, TokenAt(stream.line, old(stream.pos)))
  {
    var matched := stream.Match(IsWordChar, true);
    if matched {
      while true
        invariant stream.Valid() && old(stream.pos) < stream.pos
        invariant RunEnd(stream.line, stream.pos, true) == RunEnd(stream.line, old(stream.pos), true)
        decreases |stream.line| - stream.pos
      {
        var ch := stream.Peek();
        if ch.None? {
          break;
        }
        if !IsWordChar(ch.value) {
          break;
        }
        ch := stream.Next();
      }
      var word := stream.Current();
      assert word == stream.line[stream.start..stream.pos];
      if !TypoCheck(d, word) {
        return Some(SpellError);
      }
      return None;
    }
    while true
      invariant stream.Valid() && old(stream.pos) <= stream.pos
      invariant stream.pos < |stream.line| ==> !IsWordChar(stream.line[stream.pos])
      invariant RunEnd(stream.line, stream.pos, false) == RunEnd(stream.line, old(stream.pos), false)
      decreases |stream.line| - stream.pos
    {
      var ch := stream.Next();
      if ch.None? {
        break;
      }
      var atWord := stream.Match(IsWordChar, false);
      if atWord {
        break;
      }
    }
    return None;
  }

  /** The styles of a sequence of tokens, in order. */
  function Styles(d: SpellDictionary, ts: seq<Token>): (ss: seq<Option<string>>)
    ensures |ss| == |ts|
  {
    seq(|ts|, i requires 0 <= i < |ts| => Style(d, ts[i]))
  }

  /** The styles of the tokens read from the start of a line. */
  function LineStyles(d: SpellDictionary, line: string): seq<Option<string>> {
    Styles(d, Tokens(line, 0))
  }

  /** Styling a token in front of others puts its style in front of theirs. */
  lemma StylesCons(d: SpellDictionary, t: Token, ts: seq<Token>)
    ensures Styles(d, [t] + ts) == [Style(d, t)] + Styles(d, ts)
  {
  }

  /**
   * The host's loop over one line: CodeMirror starts each token where the
   * last one ended and calls the overlay until the end of the line. The
   * styles it collects are those of the tokens read from the start.
   */
  method ReadLine(line: string, d: SpellDictionary) returns (ss: seq<Option<string>>)
    ensures ss == LineStyles(d, line)
  {
    var stream := new StringStream(line);
    ss := [];
    while stream.pos < |stream.line|
      invariant stream.line == line && stream.Valid()
      invariant ss + Styles(d, Tokens(line, stream.pos)) == LineStyles(d, line)
      decreases |stream.line| - stream.pos
    {
      ghost var p := stream.pos;
      stream.start := stream.pos;
      var style := SpellToken(stream, d);
      StylesCons(d, TokenAt(line, p), Tokens(line, stream.pos));
      ss := ss + [style];
    }
  }

  /** A dictionary that knows "the", "quick", "brown" and "fox", capitalised or not. */
  const ExampleDictionary := SpellDictionary(
    w => w in {"the", "The", "quick", "Quick", "brown", "Brown", "fox", "Fox"}, None)

  /** The verdicts of the example dictionary on the words of the example sentence. */
  lemma ExampleVerdicts(d: SpellDictionary)
    requires d.check == ExampleDictionary.check
    ensures TypoCheck(d, "The") && TypoCheck(d, "brown") && TypoCheck(d, "fox")
    ensures TypoCheck(d, "qwik") <==> d.words.Some? && "qwik" in d.words.value
  {
    StripQuotesUnchanged("The");
    StripQuotesUnchanged("qwik");
    StripQuotesUnchanged("brown");
    StripQuotesUnchanged("fox");
    assert "qwik" !in {"the", "The", "quick", "Quick", "brown", "Brown", "fox", "Fox"};
  }

  /** The styles of the example sentence's tokens under any word list. */
  lemma ExampleSentenceStylesWith(d: SpellDictionary)
    requires d.check == ExampleDictionary.check
    ensures LineStyles(d, ExampleSentence) ==
      [None, None, if TypoCheck(d, "qwik") then None else Some(SpellError), None, None, None, None, None]
  {
    ExampleSentenceTokens();
    ExampleTokenStyles(d);
  }

  lemma ExampleTokenStyles(d: SpellDictionary)
    requires d.check == ExampleDictionary.check
    ensures Styles(d, ExampleTokens) ==
      [None, None, if TypoCheck(d, "qwik") then None else Some(SpellError), None, None, None, None, None]
  {
    ExampleVerdicts(d);
  }

  /** Only the misspelled "qwik" is flagged in "The qwik brown fox.". */
  lemma ExampleSentenceStyles()
    ensures LineStyles(ExampleDictionary, ExampleSentence) ==
      [None, None, Some(SpellError), None, None, None, None, None]
  {
    ExampleSentenceStylesWith(ExampleDictionary);
    ExampleVerdicts(ExampleDictionary);
  }

  /** Once the supplemental list holding "qwik" has loaded, nothing is flagged. */
  lemma ExampleSentenceWithWordList()
    ensures LineStyles(ExampleDictionary.(words := Some({"qwik"})), ExampleSentence) ==
      [None, None, None, None, None, None, None, None]
  {
    var d := ExampleDictionary.(words := Some({"qwik"}));
    ExampleSentenceStylesWith(d);
    ExampleVerdicts(d);
  }
}
