/**
 * The word-boundary scanning of `spellOverlay.token`, as functions of the
 * line and the cursor position: one call consumes the maximal run of
 * characters that are all word characters or all non-word characters.
 */
module Tokenizer {
  import opened WordChars

  /** A span the overlay consumed in one call, and whether it was a word. */
  datatype Token = Token(text: string, isWord: bool)

  /** The end of the maximal run, from `p`, of characters whose word-ness is `word`. */
  function RunEnd(line: string, p: nat, word: bool): (q: nat)
    requires p <= |line|
    ensures p <= q <= |line|
    ensures forall k :: p <= k < q ==> IsWordChar(line[k]) == word
    ensures q == |line| || IsWordChar(line[q]) != word
    decreases |line| - p
  {
    if p == |line| || IsWordChar(line[p]) != word then p else RunEnd(line, p + 1, word)
  }

  /**
   * Where one call of the overlay leaves the cursor: past every character
   * of the kind found at `p`, and at least one character further when the
   * line is not exhausted.
   */
  function TokenEnd(line: string, p: nat): (q: nat)
    requires p <= |line|
    ensures p <= q <= |line|
    ensures p < |line| ==> p < q
    ensures p < q ==> forall k :: p <= k < q ==> IsWordChar(line[k]) == IsWordChar(line[p])
    ensures p < q < |line| ==> IsWordChar(line[q]) != IsWordChar(line[p])
  {
    if p == |line| then p else RunEnd(line, p, IsWordChar(line[p]))
  }

  /** The token read from position `p`. */
  function TokenAt(line: string, p: nat): Token
    requires p < |line|
  {
    Token(line[p..TokenEnd(line, p)], IsWordChar(line[p]))
  }

  /** The tokens that repeated calls from position `p` produce, up to the end of the line. */
  function Tokens(line: string, p: nat): seq<Token>
    requires p <= |line|
    decreases |line| - p
  {
    if p == |line| then [] else [TokenAt(line, p)] + Tokens(line, TokenEnd(line, p))
  }

  function Concat(ts: seq<Token>): string {
    if ts == [] then [] else ts[0].text + Concat(ts[1..])
  }

  /** A token is non-empty and made of characters of its own kind only. */
  predicate WellFormed(t: Token) {
    t.text != [] && forall k :: 0 <= k < |t.text| ==> IsWordChar(t.text[k]) == t.isWord
  }

  predicate Alternating(ts: seq<Token>) {
    forall i :: 0 <= i < |ts| - 1 ==> ts[i].isWord != ts[i + 1].isWord
  }

  /** The tokens read from `p` are consecutive and together spell out the rest of the line. */
  lemma {:induction false} TokensCoverLine(line: string, p: nat)
    requires p <= |line|
    ensures Concat(Tokens(line, p)) == line[p..]
    decreases |line| - p
  {
    if p < |line| {
      var q := TokenEnd(line, p);
      var ts := Tokens(line, p);
      TokensCoverLine(line, q);
      assert ts[1..] == Tokens(line, q);
      calc {
        Concat(ts);
        ts[0].text + Concat(ts[1..]);
        line[p..q] + line[q..];
        { assert line[p..] == line[p..q] + line[q..]; }
        line[p..];
      }
    }
  }

  /** Every token read is non-empty and uniform: all word characters or none. */
  lemma {:induction false} TokensWellFormed(line: string, p: nat)
    requires p <= |line|
    ensures forall i :: 0 <= i < |Tokens(line, p)| ==> WellFormed(Tokens(line, p)[i])
    decreases |line| - p
  {
    if p < |line| {
      var q := TokenEnd(line, p);
      var ts := Tokens(line, p);
      TokensWellFormed(line, q);
      var t := TokenAt(line, p);
      assert forall k :: 0 <= k < |t.text| ==> t.text[k] == line[p + k];
      assert WellFormed(t);
      forall i | 0 <= i < |ts|
        ensures WellFormed(ts[i])
      {
        if i > 0 {
          assert ts[i] == Tokens(line, q)[i - 1];
        }
      }
    }
  }

  /** Word and non-word tokens strictly alternate: every run read is maximal. */
  lemma {:induction false} TokensAlternate(line: string, p: nat)
    requires p <= |line|
    ensures Alternating(Tokens(line, p))
    decreases |line| - p
  {
    if p < |line| {
      var q := TokenEnd(line, p);
      var ts := Tokens(line, p);
      TokensAlternate(line, q);
      forall i | 0 <= i < |ts| - 1
        ensures ts[i].isWord != ts[i + 1].isWord
      {
        if i == 0 {
          assert ts[1] == TokenAt(line, q);
        } else {
          assert ts[i] == Tokens(line, q)[i - 1] && ts[i + 1] == Tokens(line, q)[i];
        }
      }
    }
  }

  /** A non-empty line of one kind of character is read as a single token. */
  lemma UniformLineIsOneToken(line: string, word: bool)
    requires |line| > 0
    requires forall k :: 0 <= k < |line| ==> IsWordChar(line[k]) == word
    ensures Tokens(line, 0) == [Token(line, word)]
  {
    assert TokenEnd(line, 0) == |line|;
    assert line[0..|line|] == line;
  }

  /** Reading a suffix of a line is reading that suffix alone, shifted. */
  lemma {:induction false} RunEndShift(a: string, b: string, p: nat, word: bool)
    requires p <= |b|
    ensures RunEnd(a + b, |a| + p, word) == |a| + RunEnd(b, p, word)
    decreases |b| - p
  {
    assert |a| + p == |a + b| || (a + b)[|a| + p] == b[p];
    if p < |b| && IsWordChar(b[p]) == word {
      RunEndShift(a, b, p + 1, word);
    }
  }

  /** The token read at a position of the second part of a concatenation. */
  lemma TokenAtShift(a: string, b: string, p: nat)
    requires p < |b|
    ensures TokenEnd(a + b, |a| + p) == |a| + TokenEnd(b, p)
    ensures TokenAt(a + b, |a| + p) == TokenAt(b, p)
  {
    var line := a + b;
    var q := TokenEnd(b, p);
    assert line[|a| + p] == b[p];
    RunEndShift(a, b, p, IsWordChar(b[p]));
    assert line[|a| + p..|a| + q] == b[p..q];
  }

  lemma {:induction false} TokensShift(a: string, b: string, p: nat)
    requires p <= |b|
    ensures Tokens(a + b, |a| + p) == Tokens(b, p)
    decreases |b| - p
  {
    if p < |b| {
      TokenAtShift(a, b, p);
      TokensShift(a, b, TokenEnd(b, p));
    }
  }

  /** Inside a prefix that the next character ends, a run ends where it ends in the prefix. */
  lemma {:induction false} RunEndPrefix(a: string, b: string, p: nat, word: bool)
    requires p <= |a|
    requires a != [] && b != [] ==> IsWordChar(a[|a| - 1]) != IsWordChar(b[0])
    requires p == |a| ==> b == [] || IsWordChar(b[0]) != word
    ensures RunEnd(a + b, p, word) == RunEnd(a, p, word)
    decreases |a| - p
  {
    var line := a + b;
    if p < |a| {
      assert line[p] == a[p];
      if IsWordChar(a[p]) == word {
        if p + 1 == |a| && b != [] {
          assert IsWordChar(b[0]) != word;
        }
        RunEndPrefix(a, b, p + 1, word);
      }
    } else if b != [] {
      assert line[p] == b[0];
    }
  }

  /** The token read inside the first part of a concatenation that ends at a change of kind. */
  lemma TokenAtPrefix(a: string, b: string, p: nat)
    requires p < |a|
    requires b != [] ==> IsWordChar(a[|a| - 1]) != IsWordChar(b[0])
    ensures TokenEnd(a + b, p) == TokenEnd(a, p)
    ensures TokenAt(a + b, p) == TokenAt(a, p)
  {
    var line := a + b;
    var q := TokenEnd(a, p);
    assert line[p] == a[p];
    RunEndPrefix(a, b, p, IsWordChar(a[p]));
    assert line[p..q] == a[p..q];
  }

  /** Reading from inside a line reads one token and then goes on from where it ended. */
  lemma TokensUnfold(line: string, p: nat)
    requires p < |line|
    ensures Tokens(line, p) == [TokenAt(line, p)] + Tokens(line, TokenEnd(line, p))
  {
  }

  /** Reading a concatenation inside its first part starts with the token the first part starts with. */
  lemma TokensPrefixHead(a: string, b: string, p: nat)
    requires p < |a|
    requires b != [] ==> IsWordChar(a[|a| - 1]) != IsWordChar(b[0])
    ensures Tokens(a + b, p) == [TokenAt(a, p)] + Tokens(a + b, TokenEnd(a, p))
  {
    TokenAtPrefix(a, b, p);
    TokensUnfold(a + b, p);
  }

  /** Putting an element in front commutes with appending a tail. */
  lemma ConsThenAppend<T>(x: seq<T>, y: seq<T>, t: T, rest: seq<T>, tail: seq<T>, z: seq<T>)
    requires x == [t] + y && y == rest + tail && z == [t] + rest
    ensures x == z + tail
  {
  }

  /** One step of TokensAppend: the first token is shared, and the rest is read as claimed. */
  lemma TokensAppendStep(a: string, b: string, p: nat)
    requires p < |a|
    requires b != [] ==> IsWordChar(a[|a| - 1]) != IsWordChar(b[0])
    requires Tokens(a + b, TokenEnd(a, p)) == Tokens(a, TokenEnd(a, p)) + Tokens(b, 0)
    ensures Tokens(a + b, p) == Tokens(a, p) + Tokens(b, 0)
  {
    var q := TokenEnd(a, p);
    TokensPrefixHead(a, b, p);
    TokensUnfold(a, p);
    ConsThenAppend(Tokens(a + b, p), Tokens(a + b, q), TokenAt(a, p), Tokens(a, q), Tokens(b, 0), Tokens(a, p));
  }

  /**
   * Where the kind of character changes between two strings, reading
   * their concatenation reads the first and then the second.
   */
  lemma {:induction false} TokensAppend(a: string, b: string, p: nat)
    requires p <= |a|
    requires a != [] && b != [] ==> IsWordChar(a[|a| - 1]) != IsWordChar(b[0])
    ensures Tokens(a + b, p) == Tokens(a, p) + Tokens(b, 0)
    decreases |a| - p
  {
    if p == |a| {
      TokensShift(a, b, 0);
    } else {
      TokensAppend(a, b, TokenEnd(a, p));
      TokensAppendStep(a, b, p);
    }
  }

  /** A uniform run followed by a character of the other kind is read as one token. */
  lemma TokensOfRunThenRest(run: string, rest: string, word: bool)
    requires run != []
    requires forall k :: 0 <= k < |run| ==> IsWordChar(run[k]) == word
    requires rest != [] ==> IsWordChar(rest[0]) != word
    ensures Tokens(run + rest, 0) == [Token(run, word)] + Tokens(rest, 0)
  {
    UniformLineIsOneToken(run, word);
    TokensAppend(run, rest, 0);
  }

  /**
   * Conversely, a line cut into non-empty uniform pieces of alternating
   * kinds is read as exactly those pieces: the tokens are the only such cut.
   */
  lemma {:induction false} TokensOfAlternating(ts: seq<Token>)
    requires forall i :: 0 <= i < |ts| ==> WellFormed(ts[i])
    requires Alternating(ts)
    ensures Tokens(Concat(ts), 0) == ts
  {
    if ts != [] {
      var t, rest := ts[0], ts[1..];
      assert WellFormed(t);
      assert Alternating(rest);
      TokensOfAlternating(rest);
      if rest != [] {
        assert WellFormed(rest[0]);
        assert Concat(rest)[0] == rest[0].text[0];
      }
      TokensOfRunThenRest(t.text, Concat(rest), t.isWord);
    }
  }

  const ExampleSentence := "The qwik brown fox."

  const ExampleTokens: seq<Token> :=
    [Token("The", true), Token(" ", false), Token("qwik", true), Token(" ", false),
     Token("brown", true), Token(" ", false), Token("fox", true), Token(".", false)]

  /** The example tokens spell out the example sentence. */
  lemma ExampleTokensSpellSentence()
    ensures Concat(ExampleTokens) == ExampleSentence
  {
  }

  /** The example tokens are uniform runs of alternating kinds. */
  lemma ExampleTokensAreRuns()
    ensures forall i :: 0 <= i < |ExampleTokens| ==> WellFormed(ExampleTokens[i])
    ensures Alternating(ExampleTokens)
  {
    var ts := ExampleTokens;
    forall i | 0 <= i < |ts|
      ensures WellFormed(ts[i])
    {
    }
  }

  /** Reading "The qwik brown fox." token by token. */
  lemma ExampleSentenceTokens()
    ensures Tokens(ExampleSentence, 0) == ExampleTokens
  {
    ExampleTokensSpellSentence();
    ExampleTokensAreRuns();
    TokensOfAlternating(ExampleTokens);
  }
}
