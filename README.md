# Spell checking for notebook cells, modelled in Dafny

This project models the logic of the Calysto spell-check notebook extension
(`calysto/spell-check/main.js`). The extension flags misspelled words in notebook
cells. It has three parts:

- **The overlay tokenizer.** `spellOverlay.token` reads one token from CodeMirror's line
  cursor. On a word character it takes the maximal run of word characters. It styles that
  run `"spell-error"` when `typo_check` rejects it, and `null` otherwise. On any other
  character it consumes non-word characters up to the next word character or the end of
  the line, and returns `null`. Word characters are those the class `rx_word` matches.
- **The spelling check.** `typo_check` removes one leading apostrophe and one trailing apostrophe, each only when present and no more, and
  asks the affix dictionary. Failing that, it accepts the word when the supplemental word
  list has loaded and holds the word as it was read.
- **The on/off switch.** `toggle_spell_check` flips the `spelling_mode` flag. It then calls
  `apply_spell_check`, which:
  - sets the default modes of new cells;
  - puts every markdown and heading cell in its spell-check mode or in its recorded
    original mode;
  - takes the overlay off every code cell and, when the flag is on, puts it back.

Modules, one per part of the program:

- `Wrappers` holds `Option`. `None` stands for JavaScript's `undefined`.
- `WordChars` holds `rx_word` as the predicate `IsWordChar`.
- `Streams` holds CodeMirror's `StringStream` as a class. Its fields are the line, the
  token start and the position. Its methods are `Peek`, `Next`, `Current` and a
  one-character anchored `Match`.
- `Tokenizer` specifies, as functions of the line and the position, where one call
  leaves the cursor (`TokenEnd`). It also gives the tokens that repeated calls produce
  (`Tokens`).
- `Dictionary` holds `typo_check` as `TypoCheck`, over an abstract dictionary `check` and an
  `Option<set<string>>` of supplemental words.
- `Overlay` holds `spellOverlay.token` as the method `SpellToken`, proved against
  `TokenEnd` and `TypoCheck`.
- `Notebook` holds the toggle and apply operations: the class `Notebook`, with the flag,
  the recorded original modes, the default modes and an array of cells. A cell is a type,
  a mode and the number of times the overlay is installed on its editor.
  The class invariant `Valid` says that no editor carries the overlay twice. The
  constructor establishes it, because the overlay object is private and no cell has it at
  load. `Apply` and `Toggle` keep it, because the only `addOverlay` (line 52) comes straight
  after a `removeOverlay` (line 50). So the "no doubled overlay" conditions of the lemmas on
  cell lists hold in every notebook the extension reaches.

The model keeps three details of the code that are easy to miss:

- The comment at line 101 says that every character except the single quote ends a word.
  After JavaScript string unescaping, though, line 13 leaves the regex escape `\]`, so
  backslash is not excluded from words. Tab, newline and every other character outside
  the list are word characters too. The model follows the code.
- Only the dictionary is asked about the word with its quotes stripped (line 78). The
  supplemental list is looked up with the raw word, quotes included (line 79).
- At the end of the line one call consumes nothing and returns `null`. There is no
  separate end-of-stream signal.

## Model

| member | source | states |
|---|---|---|
| WordChars.IsWordChar | calysto/spell-check/main.js:13 | the character class `rx_word`: every character outside the ASCII ranges space to `&`, `(` to `@`, `[`, `]` to the backquote and `{` to `~`; its meaning is proved in WordCharIsUnlisted, WordCharsOutsideTheList and CommaToDotRange |
| WordChars.WordCharIsUnlisted | calysto/spell-check/main.js:13 | a character is a word character exactly when it is neither a digit nor one of the punctuation marks and the space that the class lists |
| WordChars.WordCharsOutsideTheList | calysto/spell-check/main.js:13 | apostrophe, backslash, tab, newline and letters (accented ones too) are word characters |
| WordChars.CommaToDotRange | calysto/spell-check/main.js:13 | reading the unescaped `\,\-\.` as the range `,-.` gives the same class as excluding `,`, `-` and `.` one by one |
| Streams.StringStream.Peek | calysto/spell-check/main.js:18 | returns the character at the cursor, or nothing at end of line, without moving |
| Streams.StringStream.Next | calysto/spell-check/main.js:22 | returns the character at the cursor and advances by one; at end of line returns nothing and stays |
| Streams.StringStream.Current | calysto/spell-check/main.js:24 | returns the text from the token start to the cursor |
| Streams.StringStream.Match | calysto/spell-check/main.js:17 | succeeds exactly when the character at the cursor satisfies the pattern, and consumes it only when asked to |
| Tokenizer.RunEnd | calysto/spell-check/main.js:18-23 | the run from p is all of one kind and is maximal: it stops at end of line or at the first character of the other kind |
| Tokenizer.TokenEnd | calysto/spell-check/main.js:17-29 | one call advances by at least one character on a non-empty remainder; it consumes only characters of the kind found at the cursor, and stops just before a character of the other kind or at end of line |
| Tokenizer.TokenAt | calysto/spell-check/main.js:17-29 | the token one call reads from p: the text from p to TokenEnd, with the kind of the character at p; TokensWellFormed proves it non-empty and uniform |
| Tokenizer.Tokens | calysto/spell-check/main.js:17-29 | the tokens repeated calls read from p to the end of the line, each starting where the last ended; its properties are proved in TokensCoverLine, TokensWellFormed, TokensAlternate and TokensOfAlternating, and Overlay.ReadLine ties it to the calls |
| Tokenizer.TokensCoverLine | calysto/spell-check/main.js:17-29 | the tokens read by repeated calls from a position, concatenated, are the rest of the line |
| Tokenizer.TokensWellFormed | calysto/spell-check/main.js:17-29 | every token read is non-empty and made only of characters of its own kind |
| Tokenizer.TokensAlternate | calysto/spell-check/main.js:17-29 | word and non-word tokens strictly alternate |
| Tokenizer.TokensOfAlternating | calysto/spell-check/main.js:17-29 | any cut of a line into non-empty uniform pieces of alternating kinds is exactly the tokens read, so the tokens are the only such cut |
| Tokenizer.TokensAppend | calysto/spell-check/main.js:17-29 | where the kind of character changes between two strings, the tokens of their concatenation are the tokens of the first followed by those of the second |
| Tokenizer.TokensShift | calysto/spell-check/main.js:17-29 | reading from a position inside the second part of a concatenation reads that part alone |
| Tokenizer.UniformLineIsOneToken | calysto/spell-check/main.js:17-29 | a non-empty line of only word characters, or of only non-word characters, is read as a single token |
| Tokenizer.ExampleSentenceTokens | calysto/spell-check/main.js:17-29 | "The qwik brown fox." is read as The, space, qwik, space, brown, space, fox, full stop |
| Dictionary.StripQuotes | calysto/spell-check/main.js:78 | the word after `replace(/(^')\|('$)/g, "")`, at most two characters shorter; proved equal to the global replace in StripQuotesIsGlobalReplace, with further properties in StripQuotesOfQuoted, StripQuotesUnchanged and StripQuotesKeepsInterior |
| Dictionary.StripQuotesIsGlobalReplace | calysto/spell-check/main.js:78 | the quote stripping equals a left-to-right global replace that deletes each index where `(^')\|('$)` matches |
| Dictionary.StripQuotesOfQuoted | calysto/spell-check/main.js:78 | one pair of surrounding quotes comes off any word |
| Dictionary.StripQuotesUnchanged | calysto/spell-check/main.js:78 | a word is left unchanged exactly when it is empty or neither starts nor ends with a quote |
| Dictionary.StripQuotesKeepsInterior | calysto/spell-check/main.js:78 | characters strictly inside the word, quotes included, survive in place |
| Dictionary.StripQuotesExamples | calysto/spell-check/main.js:78 | `''word''` becomes `'word'`, `fox's` is unchanged, and a lone quote or a pair of quotes becomes empty |
| Dictionary.TypoCheck | calysto/spell-check/main.js:75-80 | `typo_check`: the dictionary accepts the stripped word, or the supplemental list has loaded and holds the raw word; properties in UnloadedWordsAddNothing, MoreWordsAcceptMore, SupplementalWordsMatchRawWord and QuotedWordChecksBareWord |
| Dictionary.UnloadedWordsAddNothing | calysto/spell-check/main.js:79 | while the supplemental list is not loaded, a word is accepted exactly when the dictionary accepts its stripped form |
| Dictionary.MoreWordsAcceptMore | calysto/spell-check/main.js:79 | loading a larger supplemental list never rejects a word that was accepted |
| Dictionary.SupplementalWordsMatchRawWord | calysto/spell-check/main.js:78-79 | the supplemental list is consulted with the unstripped word: with only "qwik" listed, "qwik" is accepted and "'qwik'" is not |
| Dictionary.QuotedWordChecksBareWord | calysto/spell-check/main.js:78 | a quoted word is accepted whenever the dictionary accepts the bare word |
| Overlay.Style | calysto/spell-check/main.js:24-29 | the style of a token read: "spell-error" for a word token that `typo_check` rejects, none for any other token; SpellToken is proved to return it |
| Overlay.SpellToken | calysto/spell-check/main.js:14-31 | the cursor ends at TokenEnd of where it started; the style is "spell-error" exactly when a word run was read and typo_check rejects the text since the token start, otherwise none |
| Overlay.LineStyles | calysto/spell-check/main.js:14-31 | the styles of the tokens read from the start of a line, one per token, in order; ReadLine is proved to collect them |
| Overlay.ReadLine | calysto/spell-check/main.js:14-31 | the host's loop, which starts each token where the last ended and calls the overlay until the end of the line, collects exactly the styles of the tokens read from the start of the line |
| Overlay.ExampleSentenceStyles | calysto/spell-check/main.js:24-29 | with a dictionary knowing the, quick, brown and fox, only "qwik" in "The qwik brown fox." is flagged |
| Overlay.ExampleSentenceWithWordList | calysto/spell-check/main.js:79 | once the supplemental list holding "qwik" has loaded, nothing in the sentence is flagged |
| Notebook.IsOn | calysto/spell-check/main.js:37-61 | the flag counts as on only when it is the boolean true; undefined and false are off, for the truthiness tests at lines 37, 39, 46, 48 and 51 and the `== true` at line 61 |
| Notebook.Toggled | calysto/spell-check/main.js:61 | the stored flag is always defined after a toggle |
| Notebook.ToggleFlips | calysto/spell-check/main.js:61 | an undefined flag is switched on, a defined one is flipped, and two toggles from a defined flag restore it |
| Notebook.RemoveOverlay | calysto/spell-check/main.js:50 | removing the overlay takes off exactly one installation when there is one |
| Notebook.ApplyCell | calysto/spell-check/main.js:44-54 | one pass of the loop: a markdown or heading cell gets its spell-check mode or the original mode, a code cell loses one overlay and regains it when on, a raw cell is untouched; properties in ApplyCellsOutcome and ApplyCellLastWins |
| Notebook.ApplyCells | calysto/spell-check/main.js:42-55 | the loop over all cells: same length, each cell its ApplyCell image; properties in ApplyCellsOutcome, ApplyCellsLastWins, ApplyCellsIdempotent, ApplyCellsKeepsAtMostOne and OffOnOffRestores, and Notebook.Apply is proved to compute it |
| Notebook.ApplyCellsOutcome | calysto/spell-check/main.js:42-55 | markdown cells get "spell-check-markdown" or the original markdown mode, heading cells "spell-check-heading" or the original heading mode, a code cell with at most one overlay ends with one when on and none when off, and raw cells are untouched |
| Notebook.ApplyCellLastWins | calysto/spell-check/main.js:42-55 | on one cell, applying twice equals applying the second setting alone, unless the first switched off a doubled overlay |
| Notebook.ApplyCellsLastWins | calysto/spell-check/main.js:42-55 | the same for the whole cell list |
| Notebook.ApplyCellsIdempotent | calysto/spell-check/main.js:42-55 | applying twice equals applying once, when the flag is on or no cell carries the overlay twice |
| Notebook.ApplyCellsKeepsAtMostOne | calysto/spell-check/main.js:49-54 | if no code cell carries the overlay twice before an application, none does after it |
| Notebook.OffOnOffRestores | calysto/spell-check/main.js:42-55 | after off, on, off every markdown cell has exactly the original markdown mode and every heading cell the original heading mode; without doubled overlays the notebook is as after the first off |
| Notebook.DoubledOverlaySurvivesOneSwitchOff | calysto/spell-check/main.js:50 | a code cell with the overlay installed twice keeps one after a switch-off and loses it after a second |
| Notebook.Notebook.constructor | calysto/spell-check/main.js:109-115 | the stored flag is kept as found (undefined when never set), the original markdown and heading modes are recorded, new cells default to them, and since no cell has the private overlay at load, no cell carries it twice |
| Notebook.Notebook.Apply | calysto/spell-check/main.js:33-56 | sets the new-cell defaults (the heading default only when an original heading mode exists) and replaces every cell by its ApplyCell image under the flag; no cell ever carries the overlay twice |
| Notebook.Notebook.Toggle | calysto/spell-check/main.js:58-64 | stores `!(flag == true)` and then applies it, with Apply's outcome; no cell ever carries the overlay twice |
| Notebook.ToggleTwice | calysto/spell-check/main.js:58-64 | two toggles from a defined flag restore the flag, leave the new-cell defaults as one application of that flag sets them, and leave the cells as one application of that flag |

## Left out

- The Typo.js affix and stem algorithm and the loading of the en_US dictionary (lines 117-125). The dictionary is an abstract total predicate `check`. The code does not guard an unloaded `document.dictionary`, and the model has none either: the dictionary is always present.
- The `$.getJSON` fetch of `words.json` (lines 91-93). Only its outcome is modelled, as `None` (not loaded yet) or the set of the JSON object's keys.
- `CodeMirror.overlayMode` style merging with `opaque: true`, and the `defineMode` registrations (lines 95-115). These are library behaviour. Only the recording of the original modes (lines 109 and 113) is kept, in the `Notebook` constructor.
- The host loop appears only as `Overlay.ReadLine`, for one line. It leaves out CodeMirror's state across lines, its blank-line handling and its merging of overlay styles.
- CSS injection (lines 66-73), toolbar buttons (lines 144-155), event hooks and reload retries (lines 82-86 and 137-141). These are DOM and host plumbing. With them goes `toggleClass('active', spelling_mode)` (line 35), which only changes the button's look.
- Line 39 replaces the heading cells' whole `cm_config` object. The model keeps only that object's mode; any other keys it held are not modelled.
- Characters are Dafny characters (Unicode scalar values), not UTF-16 code units. A character outside the Basic Multilingual Plane is one character here and two code units in JavaScript. Both readings make it a word character, so token boundaries agree.
- CodeMirror modes may be objects. Here they are names (strings), and a cell whose mode was set to `undefined` holds `None`.
- The flag `spelling_mode` is `None` (undefined) or a boolean. Other JavaScript values that `== true` would compare loosely are not modelled.
- Cell types are markdown, heading, code and raw.
