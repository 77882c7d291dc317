/** One round of the game: the guesses made so far, the letters typed into the
    current row, and what the browser's storage holds.

    The state machine is stated twice: as functions from one `RoundState` value to
    the next (`Typed`, `Erased`, `Guessed`, `AfterKey`, `Loaded`, `Startup`), and as
    the `Game` class whose methods update its fields in place and are proved to
    agree with those functions. The properties of a round (at most six guesses,
    no input once it is over, one history entry per finished round) are lemmas
    about the functions. */
module Round {

  import opened Wrappers
  import opened Letters
  import opened Matching

  /** Rows on the board: a round is over after this many guesses. */
  const MaxGuesses: nat := 6

  /** An entry of the results history: the number of guesses of a round that was
      won, or `X` for a round that was lost. */
  datatype Outcome = Won(attempts: nat) | Lost

  /** The `date` and `guesses` storage entries, which the game always writes and
      removes together. */
  datatype SavedRound = SavedRound(date: string, guesses: seq<string>)

  /** The storage entries the game uses; `None` is an entry that is not there. */
  datatype Store = Store(saved: Option<SavedRound>, results: Option<seq<Outcome>>)

  /** The dictionary, the word of the day and today's date: fixed for a page load. */
  datatype Day = Day(words: seq<string>, word: string, today: string)

  /** The guesses so far, the letters in the current row (its filled cells, from the
      first), and the storage. */
  datatype RoundState = RoundState(guesses: seq<string>, row: string, store: Store)

  /** What pressing Enter did: refused a short row, refused a word outside the
      dictionary, or accepted the guess with these verdicts. */
  datatype Submit = TooShort | NotInDictionary | Accepted(verdicts: seq<Verdict>)

  /** The round is over: six guesses, or the last one is the word of the day. */
  predicate Finished(guesses: seq<string>, word: string)
  {
    |guesses| == MaxGuesses || (|guesses| > 0 && guesses[|guesses| - 1] == word)
  }

  /** The history entry for a round that ended with `guesses`. */
  function OutcomeOf(guesses: seq<string>, word: string): Outcome
  {
    if |guesses| > 0 && guesses[|guesses| - 1] == word then Won(|guesses|) else Lost
  }

  /** The results history, an absent entry read as empty. */
  function History(store: Store): seq<Outcome>
  {
    if store.results.Some? then store.results.value else []
  }

  // ---------------------------------------------------------------------------
  // The row of letter cells

  /** Typing a letter fills the first empty cell; with all five full it does
      nothing. In the fifth cell a letter that has a final form is kept as it is
      only when the row then spells a dictionary word; otherwise its final form is
      written. */
  function Typed(row: string, letter: char, words: seq<string>): string
  {
    if |row| >= WordLength() then row
    else if |row| == WordLength() - 1 && letter in FinaledLetters && row + [letter] !in words then
      row + [FinaledLetters[letter]]
    else row + [letter]
  }

  /** Erasing clears the last filled cell, if any. */
  function Erased(row: string): string
  {
    if row == [] then [] else row[..|row| - 1]
  }

  /** Typing fills exactly the next cell, or nothing when the row is full; the
      letter is written as given except in the fifth cell for a letter that has a
      final form. */
  lemma TypedFillsNextCell(row: string, letter: char, words: seq<string>)
    ensures |row| < WordLength() ==> |Typed(row, letter, words)| == |row| + 1 && Typed(row, letter, words)[..|row|] == row
    ensures |row| >= WordLength() ==> Typed(row, letter, words) == row
    ensures |row| < WordLength() - 1 || (|row| == WordLength() - 1 && letter !in FinaledLetters) ==>
      Typed(row, letter, words)[|row|] == letter
  {
  }

  /** The final-form choice in the fifth cell: a letter with a final form stays as
      typed exactly when the row then spells a dictionary word, and otherwise
      becomes its final form. */
  lemma FifthCellFinalForm(row: string, letter: char, words: seq<string>)
    requires |row| == WordLength() - 1 && letter in FinaledLetters
    ensures Typed(row, letter, words)[|row|] == letter <==> row + [letter] in words
    ensures row + [letter] !in words ==> Typed(row, letter, words)[|row|] == FinaledLetters[letter]
  {
    FinalTablesInverse();
  }

  /** Erasing undoes typing into a row that is not full. */
  lemma EraseUndoesType(row: string, letter: char, words: seq<string>)
    requires |row| < WordLength()
    ensures Erased(Typed(row, letter, words)) == row
  {
    var t := Typed(row, letter, words);
    assert t[..|t| - 1] == row;
  }

  // ---------------------------------------------------------------------------
  // Storage

  /** `save_to_local_storage`: today's date and the guesses so far. */
  function Saved(store: Store, today: string, guesses: seq<string>): Store
  {
    store.(saved := Some(SavedRound(today, guesses)))
  }

  /** `add_result_to_local_storage`: one more entry at the end of the history. */
  function Recorded(store: Store, outcome: Outcome): Store
  {
    store.(results := Some(History(store) + [outcome]))
  }

  /** Recording appends exactly the given entry and leaves the saved round alone. */
  lemma RecordedAppends(store: Store, outcome: Outcome)
    ensures History(Recorded(store, outcome)) == History(store) + [outcome]
    ensures Recorded(store, outcome).saved == store.saved
  {
  }

  // ---------------------------------------------------------------------------
  // Guessing and keys

  /** What Enter reports for the row in `s`. */
  function Submitted(s: RoundState, day: Day): Submit
  {
    if |s.row| < WordLength() then TooShort
    else if s.row !in day.words then NotInDictionary
    else Accepted(Matches(s.row, day.word))
  }

  /** `make_guess`: a short row or one that is not a dictionary word changes
      nothing; otherwise the row becomes the next guess, the next row starts
      empty, the round is saved and, if it is now over, its outcome is recorded. */
  function Guessed(s: RoundState, day: Day): RoundState
  {
    if |s.row| < WordLength() || s.row !in day.words then s
    else
      var guesses := s.guesses + [s.row];
      var store := Saved(s.store, day.today, guesses);
      RoundState(guesses, [], if s.row == day.word || |guesses| == MaxGuesses then Recorded(store, OutcomeOf(guesses, day.word)) else store)
  }

  /** `handle_key`: nothing once the round is over; otherwise Backspace erases,
      Enter guesses, and a key of the keymap types the Hebrew letter it stands for. */
  function AfterKey(s: RoundState, key: string, day: Day): RoundState
  {
    if Finished(s.guesses, day.word) then s
    else if key == "Backspace" then s.(row := Erased(s.row))
    else if key == "Enter" then Guessed(s, day)
    else if |key| == 1 && key[0] in HebrewKeymap then s.(row := Typed(s.row, HebrewKeymap[key[0]], day.words))
    else s
  }

  /** The state after a sequence of keys. */
  function RunKeys(s: RoundState, keys: seq<string>, day: Day): RoundState
    decreases |keys|
  {
    if keys == [] then s else RunKeys(AfterKey(s, keys[0], day), keys[1..], day)
  }

  /** The invariant of a round in progress: at most six guesses, a row of at most
      five letters, no guess but the last equal to the word of the day, an empty
      row once the round is over, and storage holding today's guesses. */
  predicate Consistent(s: RoundState, day: Day)
  {
    && |s.guesses| <= MaxGuesses
    && |s.row| <= WordLength()
    && (forall i :: 0 <= i < |s.guesses| - 1 ==> s.guesses[i] != day.word)
    && (Finished(s.guesses, day.word) ==> s.row == [])
    && s.store.saved == Some(SavedRound(day.today, s.guesses))
  }

  /** A refused guess changes nothing and an accepted one appends exactly the row. */
  lemma GuessAppendsOrRefuses(s: RoundState, day: Day)
    ensures Submitted(s, day) == TooShort <==> |s.row| < WordLength()
    ensures Submitted(s, day) == NotInDictionary <==> |s.row| >= WordLength() && s.row !in day.words
    ensures !Submitted(s, day).Accepted? ==> Guessed(s, day) == s
    ensures Submitted(s, day).Accepted? ==>
      && Guessed(s, day).guesses == s.guesses + [s.row]
      && Guessed(s, day).row == []
      && |Submitted(s, day).verdicts| == WordLength()
  {
  }

  /** Once a round is over, no key changes anything. */
  lemma FinishedIsInert(s: RoundState, keys: seq<string>, day: Day)
    requires Finished(s.guesses, day.word)
    ensures RunKeys(s, keys, day) == s
    decreases |keys|
  {
    if keys != [] {
      FinishedIsInert(AfterKey(s, keys[0], day), keys[1..], day);
    }
  }

  /** Every key keeps the invariant, and adds a history entry, the outcome of the
      round, exactly when it finishes the round. */
  lemma KeyStep(s: RoundState, key: string, day: Day)
    requires Consistent(s, day)
    ensures Consistent(AfterKey(s, key, day), day)
    ensures var t := AfterKey(s, key, day);
      History(t.store) ==
        History(s.store) + (if !Finished(s.guesses, day.word) && Finished(t.guesses, day.word) then [OutcomeOf(t.guesses, day.word)] else [])
  {
    var t := AfterKey(s, key, day);
    if !Finished(s.guesses, day.word) && key != "Backspace" && key == "Enter" &&
       |s.row| >= WordLength() && s.row in day.words {
      var guesses := s.guesses + [s.row];
      assert t.guesses == guesses;
      assert forall i :: 0 <= i < |guesses| - 1 ==> guesses[i] == s.guesses[i];
      assert Finished(guesses, day.word) <==> s.row == day.word || |guesses| == MaxGuesses;
    } else if !Finished(s.guesses, day.word) && key != "Backspace" && key != "Enter" &&
              |key| == 1 && key[0] in HebrewKeymap {
      TypedFillsNextCell(s.row, HebrewKeymap[key[0]], day.words);
    }
  }

  /** A run of keys keeps the invariant, never exceeds six guesses, and adds one
      history entry, the outcome of the round, exactly when it finishes the round. */
  lemma {:induction false} RunKeysHistory(s: RoundState, keys: seq<string>, day: Day)
    requires Consistent(s, day)
    ensures Consistent(RunKeys(s, keys, day), day)
    ensures |RunKeys(s, keys, day).guesses| <= MaxGuesses
    ensures var t := RunKeys(s, keys, day);
      History(t.store) ==
        History(s.store) + (if !Finished(s.guesses, day.word) && Finished(t.guesses, day.word) then [OutcomeOf(t.guesses, day.word)] else [])
    decreases |keys|
  {
    if keys != [] {
      var next := AfterKey(s, keys[0], day);
      KeyStep(s, keys[0], day);
      RunKeysHistory(next, keys[1..], day);
      if Finished(next.guesses, day.word) {
        FinishedIsInert(next, keys[1..], day);
      }
    }
  }

  /** The history entry of a finished round: the number of guesses, one to six, if
      the last guess is the word of the day, and `X` after six wrong guesses. */
  lemma OutcomeOfFinished(guesses: seq<string>, word: string)
    requires Finished(guesses, word) && |guesses| <= MaxGuesses
    ensures OutcomeOf(guesses, word).Won? <==> guesses[|guesses| - 1] == word
    ensures OutcomeOf(guesses, word).Won? ==> 1 <= OutcomeOf(guesses, word).attempts <= MaxGuesses
    ensures OutcomeOf(guesses, word) == Lost ==> |guesses| == MaxGuesses
  {
  }

  /** Verdicts compare normalised words but the win check compares the words as
      typed: a guess that differs from the word of the day only in final forms is
      all exact, yet it does not end the round. */
  lemma AllExactNeedNotWin(guess: string, word: string)
    requires UnFinalize(guess) == UnFinalize(word)
    ensures Matches(guess, word) == [Exact, Exact, Exact, Exact, Exact]
    ensures guess != word ==> !Finished([guess], word)
  {
    var r := Matches(guess, word);
    assert forall i :: 0 <= i < WordLength() ==> r[i] == Exact;
  }

  /** Such a pair: the word ending in the base form of mem against the one ending
      in final mem. */
  lemma AllExactNotWonExample()
    ensures Matches("אבגדמ", "אבגדם") == [Exact, Exact, Exact, Exact, Exact]
    ensures !Finished(["אבגדמ"], "אבגדם")
  {
    assert UnFinalize("אבגדמ") == UnFinalize("אבגדם");
    AllExactNeedNotWin("אבגדמ", "אבגדם");
  }

  // ---------------------------------------------------------------------------
  // Loading a page

  /** `load_from_local_storage`: nothing stored (or an empty date) changes nothing;
      a round saved on another day is removed and the guesses stay as they are;
      a round saved today supplies the guesses. */
  function Loaded(s: RoundState, day: Day): RoundState
  {
    match s.store.saved
    case None => s
    case Some(saved) =>
      if saved.date == "" then s
      else if saved.date != day.today then s.(store := s.store.(saved := None))
      else s.(guesses := saved.guesses)
  }

  /** The page start: an empty board, then loading, then saving. */
  function Startup(stored: Store, day: Day): RoundState
  {
    var loaded := Loaded(RoundState([], [], stored), day);
    loaded.(store := Saved(loaded.store, day.today, loaded.guesses))
  }

  /** A round saved on another day is discarded: the page starts with no guesses,
      storage holds today's empty round, and the history is kept. */
  lemma StaleRoundDiscarded(stored: Store, day: Day)
    requires stored.saved.Some? && stored.saved.value.date != day.today
    ensures Startup(stored, day).guesses == []
    ensures Startup(stored, day).store == Store(Some(SavedRound(day.today, [])), stored.results)
  {
  }

  /** A round saved today is resumed with its guesses. */
  lemma TodaysRoundResumed(stored: Store, day: Day)
    requires stored.saved.Some? && stored.saved.value.date == day.today && day.today != ""
    ensures Startup(stored, day).guesses == stored.saved.value.guesses
    ensures Startup(stored, day).row == []
    ensures History(Startup(stored, day).store) == History(stored)
  {
  }

  /** The page starts in a consistent state whenever the stored round of today is
      one the game could have written. */
  lemma StartupConsistent(stored: Store, day: Day)
    requires stored.saved.Some? && stored.saved.value.date == day.today ==>
      var gs := stored.saved.value.guesses;
      |gs| <= MaxGuesses && forall i :: 0 <= i < |gs| - 1 ==> gs[i] != day.word
    ensures Consistent(Startup(stored, day), day)
  {
  }

  // ---------------------------------------------------------------------------
  // The game object

  /** The page's game: the fixed inputs of the day, and the state its handlers
      update in place. */
  class Game {
    const words: seq<string>
    const wordOfTheDay: string
    const today: string
    var guesses: seq<string>
    var row: string
    var store: Store

    function TheDay(): Day
    {
      Day(words, wordOfTheDay, today)
    }

    function State(): RoundState
      reads this
    {
      RoundState(guesses, row, store)
    }

    /** The page start: load the stored round, then save it back. */
    constructor (words: seq<string>, wordOfTheDay: string, today: string, stored: Store)
      ensures this.words == words && this.wordOfTheDay == wordOfTheDay && this.today == today
      ensures State() == Startup(stored, Day(words, wordOfTheDay, today))
    {
      this.words := words;
      this.wordOfTheDay := wordOfTheDay;
      this.today := today;
      guesses := [];
      row := [];
      store := stored;
      new;
      Load();
      Save();
    }

    /** `type_letter`. */
    method TypeLetter(letter: char)
      modifies this
      ensures State() == old(State()).(row := Typed(old(row), letter, words))
    {
      if |row| >= WordLength() {
        return;
      }
      if |row| == WordLength() - 1 && letter in FinaledLetters {
        if row + [letter] in words {
          row := row + [letter];
        } else {
          row := row + [FinaledLetters[letter]];
        }
      } else {
        row := row + [letter];
      }
    }

    /** `erase_letter`. */
    method EraseLetter()
      modifies this
      ensures State() == old(State()).(row := Erased(old(row)))
    {
      if |row| > 0 {
        row := row[..|row| - 1];
      }
    }

    /** `make_guess`. */
    method MakeGuess() returns (result: Submit)
      modifies this
      ensures result == Submitted(old(State()), TheDay())
      ensures State() == Guessed(old(State()), TheDay())
    {
      var guess := row;
      if |guess| < WordLength() {
        return TooShort;
      }
      if guess !in words {
        return NotInDictionary;
      }
      var matches := GetMatches(guess, wordOfTheDay);
      guesses := guesses + [guess];
      row := [];
      Save();
      if guess == wordOfTheDay {
        AddResult();
      } else if |guesses| == MaxGuesses {
        AddResult();
      }
      result := Accepted(matches);
    }

    /** `handle_key`. */
    method HandleKey(key: string)
      modifies this
      ensures State() == AfterKey(old(State()), key, TheDay())
    {
      if |guesses| == MaxGuesses {
        return;
      }
      if |guesses| > 0 && guesses[|guesses| - 1] == wordOfTheDay {
        return;
      }
      if key == "Backspace" {
        EraseLetter();
      } else if key == "Enter" {
        var _ := MakeGuess();
      } else if |key| == 1 && key[0] in HebrewKeymap {
        TypeLetter(HebrewKeymap[key[0]]);
      }
    }

    /** `save_to_local_storage`. */
    method Save()
      modifies this
      ensures State() == old(State()).(store := Saved(old(store), today, guesses))
    {
      store := store.(saved := Some(SavedRound(today, guesses)));
    }

    /** `add_result_to_local_storage`. */
    method AddResult()
      modifies this
      ensures State() == old(State()).(store := Recorded(old(store), OutcomeOf(guesses, wordOfTheDay)))
    {
      var results := if store.results.Some? then store.results.value else [];
      var entry := if |guesses| > 0 && guesses[|guesses| - 1] == wordOfTheDay then Won(|guesses|) else Lost;
      results := results + [entry];
      store := store.(results := Some(results));
    }

    /** `load_from_local_storage`. */
    method Load()
      modifies this
      ensures State() == Loaded(old(State()), TheDay())
    {
      if store.saved.None? || store.saved.value.date == "" {
        return;
      }
      if store.saved.value.date != today {
        store := store.(saved := None);
        return;
      }
      guesses := store.saved.value.guesses;
    }
  }
}
