# A verified model of the core of ממהרת (reformy)

ממהרת is a Hebrew word game in the style of Wordle. The player has six tries to guess a
five-letter word. After each guess, every cell is coloured exact (green), other
(yellow) or wrong (white). The on-screen keyboard shows the best colour each letter
has earned so far. A finished round can be shared as text, and a countdown shows the
time until the next word.

This project models the part of `main.js` that is logic rather than page plumbing.
Each part is stated in Dafny and its properties are proved:

- `hash.dfy` (module `Hash`): the `cyrb53` string hash over UTF-16 code units as
  32-bit bit-vectors. The loop is a method, proved equal to a recursive specification.
  The result lies below 2^53 and splits into the masked high accumulator and the
  unsigned low one.
- `letters.dfy` (module `Letters`): the tables of the five final letter forms, the
  keymap from Latin and Hebrew keys to Hebrew letters, and `un_finalize`.
- `matching.dfy` (module `Matching`): `get_matches`. The method keeps the source's
  working list, its first-index lookup and its splice. It is proved equal to a
  specification `Matches` that states each verdict directly: per letter, the k-th
  misplaced occurrence is yellow exactly when k is below the number of unmatched
  occurrences of that letter in the word. The duplicate-letter bound is a lemma.
- `keyboard.dfy` (module `Keyboard`): the letter-status map built by
  `set_keyboard_key_colors`. A method has the source's nested loops. It is proved
  equal to a fold, and the fold is proved to give every key the best verdict it
  received (exact over other over wrong). It follows that the map ignores the order
  of guesses, never downgrades an exact key, and skips a guess equal to the word.
- `round.dfy` (module `Round`): the round state machine. Spec functions map one
  state to the next: typing, erasing, guessing, a key press, saving, recording a
  result, loading. The class `Game` holds the guesses, the current row and the
  storage; its methods update them in place and are proved to agree with those
  functions. Lemmas about the functions show that a key never breaks the round
  invariant, that there are never more than six guesses, that nothing changes once
  a round is over, and that the results history gains exactly one entry, the
  round's outcome, when and only when a round finishes.
- `share.dfy` (module `Share`): `create_result`. The shared text is proved to split
  back into the header (whose score reads back as the outcome), an empty line, and
  one row per guess that decodes back to that guess's verdicts.
- `numerals.dfy` and `clock.dfy` (modules `Numerals` and `Clock`): decimal numerals
  of naturals (`Number#toString`), `two_digits`, and the `h:mm:ss` arithmetic of the
  countdown.
- `wrappers.dfy` (module `Wrappers`): the `Option` type.

Inputs that the page gets from outside are parameters of the model:

- the dictionary `WORDS` and `word_of_the_day`, which are not defined in `main.js`;
- today's date (the result of `get_date`) and the current date when the countdown runs;
- the seconds since midnight;
- the contents of storage when the page loads.

Storage is an abstract record rather than JSON text. It has the saved round (date
and guesses, which the game always writes and removes together) and the results
history; an entry that is not there is `None`.

Characters are positions of a Dafny string. JavaScript reads `undefined` past the end
of a string; the model reads that as an absent cell (`Matching.At`), and two absent
cells agree, as `undefined === undefined` does. All comparisons are kept as the source
writes them. Only `get_matches` and the keyboard compare un-finalised letters. The
dictionary check, the win check and the keyboard's skip of the winning guess compare
the words as typed.

## Model

| member | source | states |
|---|---|---|
| Hash.Cyrb53 | main.js:20-30 | The loop over the code units gives exactly `Hash53` of the string, so the hash depends only on the code units; the result is below 2^53 |
| Hash.Hash53 | main.js:20-29 | The hash of every string is a natural number below 2^53 |
| Hash.Combined | main.js:29 | The result is below 2^53; divided by 2^32 it gives `h2` masked to 21 bits, and its remainder is `h1` read as unsigned |
| Hash.High | main.js:29 | `2097151 & h2` is below 2^21 |
| Hash.Low | main.js:29 | `h1>>>0` is below 2^32 |
| Hash.KnownValues | main.js:20-30 | The hash of the empty string is 3338908027751811 and that of "a" is 7929297801672961 |
| Letters.FinalTablesInverse | main.js:45-46 | The two final-letter tables are inverse bijections between the five final forms and their base forms, and no letter is both |
| Letters.Base | main.js:53-56 | The letter put in place of one letter is never a final form; a letter that is not a final form is kept; a final form becomes the base letter whose final form it is |
| Letters.UnFinalize | main.js:51-58 | Length is kept, no final form is left, non-final letters are unchanged, and each final form becomes its base letter |
| Letters.UnFinalizeIdempotent | main.js:51-58 | Normalising twice is normalising once |
| Letters.UnFinalizeFixedPoints | main.js:51-58 | A word is left unchanged exactly when it holds no final form |
| Letters.UnFinalizeAppend | main.js:51-58 | Normalisation works letter by letter: the normalised concatenation is the concatenation of the normalised parts |
| Matching.At | main.js:66 | A position reads a letter exactly when it is inside the word, and then the letter at that position |
| Matching.EvaluatePrefix | main.js:69-83 | The first n verdicts are, position by position, the verdict stated without the working list |
| Matching.Evaluate | main.js:69-83 | There are five verdicts, and a position is exact exactly when both normalised words read the same there |
| Matching.Matches | main.js:60-84 | Five verdicts, and position i is exact exactly when the un-finalised guess and word agree at i |
| Matching.MatchesSelf | main.js:60-84 | A word matched against itself is all exact |
| Matching.IndexOf | main.js:75 | `indexOf` is -1 exactly when the element is absent, and otherwise the first position holding it |
| Matching.LeftoverCount | main.js:75-80 | After the first i positions, the working list holds of every letter its unmatched occurrences minus those already asked for by misplaced occurrences in the guess (never below zero) |
| Matching.EvaluateStep | main.js:70-82 | The verdict at position i is exact if the letters agree, otherwise other exactly when the letter is still in the working list, otherwise wrong |
| Matching.CollectUnmatched | main.js:64-67 | The first pass collects, as a multiset, the letters of the word at exactly the positions where the normalised words disagree |
| Matching.RemoveAt | main.js:79 | `splice(k, 1)` removes exactly one copy of the element at k |
| Matching.GetMatches | main.js:60-84 | The two passes with lookup and splice give exactly `Matches` of the guess and the word |
| Matching.OthersGreedy | main.js:75-80 | The number of other verdicts for a letter is the smaller of its misplaced occurrences in the guess and its unmatched occurrences in the word |
| Matching.TruthSplits | main.js:64-67 | Each occurrence of a letter in the word is matched exactly or collected into the working list |
| Matching.CreditedSplits | main.js:70-82 | The exact-or-other positions of a letter are its exact positions plus its other positions, and are no more than its occurrences in the guess |
| Matching.DuplicateLetterBound | main.js:60-84 | For every letter, the positions holding it with verdict exact or other are no more than its occurrences in the normalised word (and in the normalised guess), and each other verdict uses up one unmatched occurrence of the word |
| Keyboard.KeyAt | main.js:286-288 | The key a position counts for is the letter of the un-finalised guess there |
| Keyboard.Join | main.js:290-295 | Combining two statuses keeps the more informative one (exact over other over wrong over none) |
| Keyboard.Update | main.js:290-295 | One verdict raises its key to the better of the old status and the verdict, and leaves every other key alone |
| Keyboard.FoldRowBest | main.js:285-296 | After the positions of one guess, every key holds the better of its old status and the best verdict it got in that guess |
| Keyboard.FoldGuessesBest | main.js:282-297 | The status of every key is the best verdict it received from the guesses that are not the word |
| Keyboard.FoldGuessesAllBest | main.js:282-297 | The same for all keys at once |
| Keyboard.OrderIndependent | main.js:282-297 | Two lists with the same guesses, in any order and with any repetition, give the same map |
| Keyboard.ExactNeverDowngraded | main.js:290-292 | A key that is exact stays exact whatever guess comes next |
| Keyboard.WinningGuessSkipped | main.js:283 | A guess equal to the word of the day adds nothing |
| Keyboard.KeyboardStates | main.js:281-297 | The nested loops build exactly the fold, so every key ends with the best verdict it received |
| Numerals.Decimal | main.js:178-180 | `toString` of a natural has no leading zeros, one digit below 10 and two below 100 |
| Numerals.ValueOfDecimal | main.js:178-180 | The numeral of n reads back as n |
| Numerals.DecimalOfValue | main.js:178-180 | A numeral without leading zeros is the numeral of its value |
| Clock.TwoDigits | main.js:175-181 | The text is all digits and reads back as x; below 100 it has exactly two digits, and from 10 up it is the plain numeral |
| Clock.Countdown | main.js:161-171 | The text is seven or eight characters: digits everywhere except colons three and six places from the end, so the hours take one or two digits and the minutes and seconds two each |
| Clock.CountdownFields | main.js:161-171 | On another day the text is `0:00:00`; otherwise it is hours, then minutes and seconds each below 60 in two digits, which add up to the seconds left until midnight |
| Clock.CountdownHours | main.js:168-171 | The hours shown are at most 24, and are 24 exactly at midnight |
| Round.TypedFillsNextCell | main.js:197-217 | Typing fills exactly the first empty cell and keeps the others; with five full cells it does nothing; the letter is written as given before the fifth cell, and in the fifth cell when it has no final form |
| Round.FifthCellFinalForm | main.js:203-210 | In the fifth cell a letter with a final form stays as typed exactly when the row then spells a dictionary word, and otherwise becomes its final form |
| Round.EraseUndoesType | main.js:197-229 | Erasing after typing into a row that is not full gives back the row |
| Round.RecordedAppends | main.js:330-338 | Recording adds exactly the outcome at the end of the history, an absent history read as empty, and leaves the saved round alone |
| Round.GuessAppendsOrRefuses | main.js:231-278 | Enter refuses as too short exactly a row of fewer than five letters, and as not a word exactly a full row that is not in the dictionary, and then changes nothing; otherwise the row is appended as the next guess, the next row starts empty, and five verdicts are shown |
| Round.FinishedIsInert | main.js:304-308 | Once the round is over, no sequence of keys changes anything |
| Round.KeyStep | main.js:304-316 | Every key keeps the round invariant, and adds the round's outcome to the history exactly when it finishes the round |
| Round.RunKeysHistory | main.js:304-316 | Any sequence of keys keeps the invariant and at most six guesses, and adds exactly one history entry, the outcome, exactly when it finishes the round |
| Round.Finished | main.js:305-307 | The test that ends a round (six guesses, or the last guess equal to the word as typed); what it means is stated by `Round.FinishedIsInert`, `Round.KeyStep` and `Round.OutcomeOfFinished` |
| Round.OutcomeOf | main.js:336 | The history entry of a round (the number of guesses on a win, `X` otherwise); what it means is stated by `Round.OutcomeOfFinished`, `Round.RecordedAppends` and, for the shared header, `Share.HeaderScore` |
| Round.OutcomeOfFinished | main.js:336 | A finished round is a win exactly when the last guess is the word, with a count of one to six, and a loss only after six guesses |
| Round.AllExactNeedNotWin | main.js:262 | A guess that differs from the word only in final forms is all exact, yet it does not end the round |
| Round.AllExactNotWonExample | main.js:262 | The guess ending in the base form of mem against the word ending in final mem is all exact and not a win |
| Round.StaleRoundDiscarded | main.js:346-350 | A round saved on another day is dropped: the page starts with no guesses, storage holds today's empty round, and the history is kept |
| Round.TodaysRoundResumed | main.js:351 | A round saved today is resumed with its guesses and an empty row, and the history is kept |
| Round.StartupConsistent | main.js:367-369 | The page starts in a state satisfying the round invariant whenever today's stored round is one the game could have written |
| Round.Game.constructor | main.js:367-369 | The page start loads the stored round and saves it back, giving the state `Startup` describes |
| Round.Game.TypeLetter | main.js:197-217 | The row becomes `Typed` of the old row; nothing else changes |
| Round.Game.EraseLetter | main.js:219-229 | The row becomes `Erased` of the old row; nothing else changes |
| Round.Game.MakeGuess | main.js:231-278 | Reports what Enter did, with the verdicts computed by `GetMatches`, and the state becomes `Guessed` of the old state |
| Round.Game.HandleKey | main.js:304-316 | The state becomes `AfterKey` of the old state and the key |
| Round.Game.Save | main.js:325-328 | Storage holds today's date and the current guesses; nothing else changes |
| Round.Game.AddResult | main.js:330-338 | The history gains the outcome of the current guesses; nothing else changes |
| Round.Game.Load | main.js:340-351 | The state becomes `Loaded` of the old state |
| Share.Glyph | main.js:90 | No square is a line break or the right-to-left mark |
| Share.GlyphRoundTrip | main.js:90 | Each square reads back as its verdict |
| Share.Glyphs | main.js:89-91 | One square per verdict, in order |
| Share.Row | main.js:88-91 | A row is six characters (the mark and five squares) with no line break |
| Share.DecodeRowOf | main.js:88-91 | A row reads back as the verdicts of its guess |
| Share.ScoreText | main.js:93 | The score holds no line break |
| Share.ScoreRoundTrip | main.js:93 | The score reads back as the outcome it shows |
| Share.Rows | main.js:87-92 | One row per guess, in order |
| Share.RowsDecode | main.js:87-92 | Every row of the text decodes to the verdicts of the guess at that position |
| Share.CreateResult | main.js:86-94 | The shared text; what it holds is stated by `Share.ShareLines`, `Share.RowsDecode`, `Share.HeaderRoundTrip` and `Share.HeaderScore` |
| Share.HeaderRoundTrip | main.js:93 | The header line reads back, after the fixed prefix for the day and before `/6`, as the outcome of the round |
| Share.ShareLines | main.js:86-94 | Split at line breaks, the text is the header, an empty line and the rows in order (one more empty line when there are no guesses) |
| Share.HeaderScore | main.js:93 | The score is the number of guesses exactly when the last guess is the word of the day, and `X` otherwise |

## Left out

- The page itself: DOM reads and writes, CSS classes, the colouring of the cells and of the on-screen keys, and the animations. The row of cells is modelled as the string of its filled cells, from the first.
- The modal screens and browser-history navigation (`set_modal_state`, `show_help`, `show_success_screen`, `hide_modal`), which are browser API calls.
- Copying to the clipboard and its failure message, which are asynchronous browser calls.
- `popup` and every timer delay, including the countdown's re-arming each second, which only affect timing.
- Reading the clock: `get_date` and the locale time formatting are not modelled. Today's date, the date when the countdown runs and the seconds since midnight are parameters; the seconds are below 86400, as a 24-hour clock reading gives.
- JSON encoding of storage. Storage is an abstract record in which the date and the guesses form one entry, as the game always sets and removes them together. A store that holds one of the two without the other, or text that does not parse, is not modelled.
- Event wiring, the `?` and `Escape` keys and the modifier-key filter, which are page plumbing. Key presses reach `Round.Game.HandleKey` as strings.
- The congratulation messages and the popup showing the word after a loss, which are display text.
- While loading a round, the source replays `get_matches` only to colour the cells; that is page output and is not modelled.
- Share.Row: lengths are counted in Unicode code points, as Dafny strings hold them; in JavaScript a row is longer, because the green and yellow squares are two UTF-16 code units each.
- Keyboard.KeyboardStates: the map is returned rather than written to the keys; the write at main.js:299-301 is page output.
- Hash.Cyrb53: works on UTF-16 code units (`charCodeAt`); the model of the game works on Dafny characters. The two agree for Hebrew text, which lies in the Basic Multilingual Plane. How the word of the day is chosen with this hash is not part of this model.
- No lemma is stated about the keymap table on its own; it enters the model through `Round.AfterKey`.
- Round.Game.MakeGuess: the delayed keyboard recolouring after a guess is not modelled as state, because it only feeds the page; `Keyboard.KeyboardStates` computes what it would show.
