/** The letter statuses shown on the on-screen keyboard.

    Every guess that is not the word of the day contributes its five verdicts, each
    keyed by the base form of the guess letter at that position. A letter's status
    only ever improves, in the order wrong < other < exact, so it ends as the best
    verdict it ever received, whatever the order of the guesses. */
module Keyboard {

  import opened Wrappers
  import opened Letters
  import opened Matching

  /** The key a guess position colours: the base form of the letter there. */
  function KeyAt(guess: string, i: int): (k: Cell)
    ensures k == At(UnFinalize(guess), i)
  {
    match At(guess, i)
    case None => None
    case Some(letter) => Some(Base(letter))
  }

  /** The status of key `k` in `states`, if any. */
  function Lookup(states: map<Cell, Verdict>, k: Cell): Option<Verdict>
  {
    if k in states then Some(states[k]) else None
  }

  /** How informative a status is: none < wrong < other < exact. */
  function Rank(s: Option<Verdict>): nat
  {
    match s
    case None => 0
    case Some(Wrong) => 1
    case Some(Other) => 2
    case Some(Exact) => 3
  }

  /** The more informative of two statuses. */
  function Join(a: Option<Verdict>, b: Option<Verdict>): (r: Option<Verdict>)
    ensures Rank(r) == if Rank(a) >= Rank(b) then Rank(a) else Rank(b)
    ensures r == a || r == b
  {
    if Rank(a) >= Rank(b) then a else b
  }

  /** The best status among the verdicts that occurred, given which ones did. */
  function BestOf(exact: bool, other: bool, wrong: bool): Option<Verdict>
  {
    if exact then Some(Exact) else if other then Some(Other) else if wrong then Some(Wrong) else None
  }

  lemma JoinBestOf(e1: bool, o1: bool, w1: bool, e2: bool, o2: bool, w2: bool)
    ensures Join(BestOf(e1, o1, w1), BestOf(e2, o2, w2)) == BestOf(e1 || e2, o1 || o2, w1 || w2)
  {
  }

  lemma JoinAssociative(a: Option<Verdict>, b: Option<Verdict>, c: Option<Verdict>)
    ensures Join(Join(a, b), c) == Join(a, Join(b, c))
  {
  }

  /** The update the game applies for one verdict of one key. */
  function Update(states: map<Cell, Verdict>, k: Cell, v: Verdict): (r: map<Cell, Verdict>)
    ensures Lookup(r, k) == Join(Lookup(states, k), Some(v))
    ensures forall k' :: k' != k ==> Lookup(r, k') == Lookup(states, k')
  {
    match v
    case Exact => states[k := Exact]
    case Other => if k in states && states[k] == Exact then states else states[k := Other]
    case Wrong => if k in states then states else states[k := Wrong]
  }

  /** The updates for the first `n` positions of one guess. */
  function FoldRow(states: map<Cell, Verdict>, guess: string, verdicts: seq<Verdict>, n: nat): map<Cell, Verdict>
    requires n <= |verdicts|
  {
    if n == 0 then states
    else Update(FoldRow(states, guess, verdicts, n - 1), KeyAt(guess, n - 1), verdicts[n - 1])
  }

  /** The statuses after all guesses, in order, skipping the word of the day itself. */
  function FoldGuesses(guesses: seq<string>, word: string): map<Cell, Verdict>
  {
    if guesses == [] then map[]
    else
      var states, guess := FoldGuesses(guesses[..|guesses| - 1], word), guesses[|guesses| - 1];
      if guess == word then states
      else FoldRow(states, guess, Matches(guess, word), WordLength())
  }

  /** Some position of a guess that is not the word of the day gave key `k` verdict `v`. */
  ghost predicate Received(guesses: seq<string>, word: string, k: Cell, v: Verdict)
  {
    exists n, i :: 0 <= n < |guesses| && 0 <= i < WordLength() && guesses[n] != word &&
      KeyAt(guesses[n], i) == k && Matches(guesses[n], word)[i] == v
  }

  /** The status a key should end with: the best verdict it received, or none. */
  ghost function Best(guesses: seq<string>, word: string, k: Cell): Option<Verdict>
  {
    BestOf(Received(guesses, word, k, Exact), Received(guesses, word, k, Other), Received(guesses, word, k, Wrong))
  }

  /** Some position before `n` of one guess gave key `k` verdict `v`. */
  ghost predicate RowReceived(guess: string, verdicts: seq<Verdict>, n: nat, k: Cell, v: Verdict)
    requires n <= |verdicts|
  {
    exists i :: 0 <= i < n && KeyAt(guess, i) == k && verdicts[i] == v
  }

  ghost function RowBest(guess: string, verdicts: seq<Verdict>, n: nat, k: Cell): Option<Verdict>
    requires n <= |verdicts|
  {
    BestOf(RowReceived(guess, verdicts, n, k, Exact), RowReceived(guess, verdicts, n, k, Other),
           RowReceived(guess, verdicts, n, k, Wrong))
  }

  /** Folding a row joins each key's status with the best verdict the row gives it. */
  lemma {:induction false} FoldRowBest(states: map<Cell, Verdict>, guess: string, verdicts: seq<Verdict>, n: nat, k: Cell)
    requires n <= |verdicts|
    ensures Lookup(FoldRow(states, guess, verdicts, n), k) == Join(Lookup(states, k), RowBest(guess, verdicts, n, k))
  {
    if n > 0 {
      FoldRowBest(states, guess, verdicts, n - 1, k);
      var hit := KeyAt(guess, n - 1) == k;
      var v := verdicts[n - 1];
      RowReceivedStep(guess, verdicts, n, k, Exact);
      RowReceivedStep(guess, verdicts, n, k, Other);
      RowReceivedStep(guess, verdicts, n, k, Wrong);
      JoinBestOf(RowReceived(guess, verdicts, n - 1, k, Exact), RowReceived(guess, verdicts, n - 1, k, Other),
                 RowReceived(guess, verdicts, n - 1, k, Wrong), hit && v == Exact, hit && v == Other, hit && v == Wrong);
      JoinAssociative(Lookup(states, k), RowBest(guess, verdicts, n - 1, k), if hit then Some(v) else None);
    }
  }

  lemma RowReceivedStep(guess: string, verdicts: seq<Verdict>, n: nat, k: Cell, v: Verdict)
    requires 0 < n <= |verdicts|
    ensures RowReceived(guess, verdicts, n, k, v) <==>
      RowReceived(guess, verdicts, n - 1, k, v) || (KeyAt(guess, n - 1) == k && verdicts[n - 1] == v)
  {
    if RowReceived(guess, verdicts, n, k, v) {
      var i :| 0 <= i < n && KeyAt(guess, i) == k && verdicts[i] == v;
      if i < n - 1 {
        assert RowReceived(guess, verdicts, n - 1, k, v);
      }
    }
  }

  /** The statuses after a sequence of guesses are exactly the best verdicts received. */
  lemma {:induction false} FoldGuessesBest(guesses: seq<string>, word: string, k: Cell)
    ensures Lookup(FoldGuesses(guesses, word), k) == Best(guesses, word, k)
  {
    if guesses != [] {
      var front, guess := guesses[..|guesses| - 1], guesses[|guesses| - 1];
      assert guesses == front + [guess];
      FoldGuessesBest(front, word, k);
      var verdicts := Matches(guess, word);
      ReceivedSnoc(front, guess, word, k, Exact);
      ReceivedSnoc(front, guess, word, k, Other);
      ReceivedSnoc(front, guess, word, k, Wrong);
      if guess != word {
        FoldRowBest(FoldGuesses(front, word), guess, verdicts, WordLength(), k);
        JoinBestOf(Received(front, word, k, Exact), Received(front, word, k, Other), Received(front, word, k, Wrong),
                   RowReceived(guess, verdicts, WordLength(), k, Exact), RowReceived(guess, verdicts, WordLength(), k, Other),
                   RowReceived(guess, verdicts, WordLength(), k, Wrong));
      }
    }
  }

  /** A verdict was received after one more guess iff it was received before or
      that guess counts and gave it. */
  lemma ReceivedSnoc(front: seq<string>, guess: string, word: string, k: Cell, v: Verdict)
    ensures Received(front + [guess], word, k, v) <==>
      Received(front, word, k, v) || (guess != word && RowReceived(guess, Matches(guess, word), WordLength(), k, v))
  {
    if Received(front + [guess], word, k, v) {
      ReceivedSnocBack(front, guess, word, k, v);
    }
    if Received(front, word, k, v) {
      var guesses := front + [guess];
      var n, i :| 0 <= n < |front| && 0 <= i < WordLength() && front[n] != word &&
        KeyAt(front[n], i) == k && Matches(front[n], word)[i] == v;
      assert guesses[n] == front[n];
    }
    if guess != word && RowReceived(guess, Matches(guess, word), WordLength(), k, v) {
      var guesses := front + [guess];
      var i :| 0 <= i < WordLength() && KeyAt(guess, i) == k && Matches(guess, word)[i] == v;
      assert guesses[|front|] == guess;
    }
  }

  lemma ReceivedSnocBack(front: seq<string>, guess: string, word: string, k: Cell, v: Verdict)
    requires Received(front + [guess], word, k, v)
    ensures Received(front, word, k, v) || (guess != word && RowReceived(guess, Matches(guess, word), WordLength(), k, v))
  {
    var guesses := front + [guess];
    var n, i :| 0 <= n < |guesses| && 0 <= i < WordLength() && guesses[n] != word &&
      KeyAt(guesses[n], i) == k && Matches(guesses[n], word)[i] == v;
    if n < |front| {
      assert front[n] == guesses[n];
    } else {
      assert RowReceived(guess, Matches(guess, word), WordLength(), k, v);
    }
  }

  /** The statuses depend only on which guesses were made, not on their order or
      how often each was repeated. */
  lemma OrderIndependent(guesses: seq<string>, others: seq<string>, word: string)
    requires forall g :: g in guesses <==> g in others
    ensures FoldGuesses(guesses, word) == FoldGuesses(others, word)
  {
    var a, b := FoldGuesses(guesses, word), FoldGuesses(others, word);
    forall k ensures Lookup(a, k) == Lookup(b, k) {
      FoldGuessesBest(guesses, word, k);
      FoldGuessesBest(others, word, k);
      SameGuessesSameBest(guesses, others, word, k);
    }
    assert a.Keys == b.Keys by {
      forall k ensures k in a <==> k in b {
        assert Lookup(a, k) == Lookup(b, k);
      }
    }
    forall k | k in a ensures a[k] == b[k] {
      assert Lookup(a, k) == Lookup(b, k);
    }
  }

  lemma SameGuessesSameBest(guesses: seq<string>, others: seq<string>, word: string, k: Cell)
    requires forall g :: g in guesses <==> g in others
    ensures Best(guesses, word, k) == Best(others, word, k)
  {
    forall v ensures Received(guesses, word, k, v) <==> Received(others, word, k, v) {
      if Received(guesses, word, k, v) {
        var n, i :| 0 <= n < |guesses| && 0 <= i < WordLength() && guesses[n] != word &&
          KeyAt(guesses[n], i) == k && Matches(guesses[n], word)[i] == v;
        assert guesses[n] in others;
        var n' :| 0 <= n' < |others| && others[n'] == guesses[n];
      }
      if Received(others, word, k, v) {
        var n, i :| 0 <= n < |others| && 0 <= i < WordLength() && others[n] != word &&
          KeyAt(others[n], i) == k && Matches(others[n], word)[i] == v;
        assert others[n] in guesses;
        var n' :| 0 <= n' < |guesses| && guesses[n'] == others[n];
      }
    }
  }

  /** A key that is exact stays exact whatever is guessed next. */
  lemma ExactNeverDowngraded(guesses: seq<string>, guess: string, word: string, k: Cell)
    requires Lookup(FoldGuesses(guesses, word), k) == Some(Exact)
    ensures Lookup(FoldGuesses(guesses + [guess], word), k) == Some(Exact)
  {
    var next := guesses + [guess];
    assert next[..|next| - 1] == guesses;
    if guess != word {
      FoldRowBest(FoldGuesses(guesses, word), guess, Matches(guess, word), WordLength(), k);
    }
  }

  /** The winning guess adds nothing to the statuses. */
  lemma WinningGuessSkipped(guesses: seq<string>, word: string)
    ensures FoldGuesses(guesses + [word], word) == FoldGuesses(guesses, word)
  {
    assert (guesses + [word])[..|guesses|] == guesses;
  }

  /** The statuses the game computes, by the nested loops over guesses and positions. */
  method KeyboardStates(guesses: seq<string>, word: string) returns (states: map<Cell, Verdict>)
    ensures states == FoldGuesses(guesses, word)
    ensures forall k :: Lookup(states, k) == Best(guesses, word, k)
  {
    states := map[];
    for n := 0 to |guesses|
      invariant states == FoldGuesses(guesses[..n], word)
    {
      assert guesses[..n + 1][..n] == guesses[..n];
      var guess := guesses[n];
      if guess != word {
        var matches := GetMatches(guess, word);
        ghost var before := states;
        for i := 0 to WordLength()
          invariant states == FoldRow(before, guess, matches, i)
        {
          var letter := KeyAt(guess, i);
          if matches[i] == Exact {
            states := states[letter := Exact];
          } else if matches[i] == Other && !(letter in states && states[letter] == Exact) {
            states := states[letter := Other];
          } else if matches[i] == Wrong && letter !in states {
            states := states[letter := Wrong];
          }
        }
      }
    }
    assert guesses[..|guesses|] == guesses;
    FoldGuessesAllBest(guesses, word);
  }

  lemma FoldGuessesAllBest(guesses: seq<string>, word: string)
    ensures forall k :: Lookup(FoldGuesses(guesses, word), k) == Best(guesses, word, k)
  {
    forall k ensures Lookup(FoldGuesses(guesses, word), k) == Best(guesses, word, k) {
      FoldGuessesBest(guesses, word, k);
    }
  }
}
