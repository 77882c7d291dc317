/** Evaluation of one guess against the word of the day.

    Both words are normalised first. The first pass marks every position where the
    two words agree and collects the letters of the word of the day at every other
    position; the second pass gives each remaining guess letter an `Other` verdict if
    one of the collected letters is still unused (and uses it up), and `Wrong`
    otherwise. The game reads exactly five positions of each word; a position past
    the end of a word reads as absent, and two absent positions agree. */
module Matching {

  import opened Wrappers
  import opened Letters

  /** The verdict for one position of a guess. */
  datatype Verdict = Exact | Other | Wrong

  /** What the game reads at one position of a word: a letter, or nothing past its end. */
  type Cell = Option<char>

  /** Number of positions of a row. */
  function WordLength(): nat { 5 }

  function At(w: string, i: int): (c: Cell)
    ensures c.Some? <==> 0 <= i < |w|
    ensures c.Some? ==> c.value == w[i]
  {
    if 0 <= i < |w| then Some(w[i]) else None
  }

  /** The letters of `t` at the positions before `i` where `g` and `t` disagree. */
  function Unmatched(g: string, t: string, i: nat): multiset<Cell>
  {
    if i == 0 then multiset{}
    else Unmatched(g, t, i - 1) + (if At(g, i - 1) != At(t, i - 1) then multiset{At(t, i - 1)} else multiset{})
  }

  /** How many positions before `i` hold `c` in `g` and disagree with `t`. */
  function NonExactBefore(g: string, t: string, i: nat, c: Cell): nat
  {
    if i == 0 then 0
    else NonExactBefore(g, t, i - 1, c) + (if At(g, i - 1) != At(t, i - 1) && At(g, i - 1) == c then 1 else 0)
  }

  /** The verdict at position `i` of normalised words, stated without the working list:
      the k-th misplaced occurrence (counting from 0) of a letter in the guess is
      `Other` exactly when k is below the number of unmatched occurrences of that
      letter in the word of the day. */
  function VerdictAt(g: string, t: string, i: nat): Verdict
  {
    if At(g, i) == At(t, i) then Exact
    else if NonExactBefore(g, t, i, At(g, i)) < Unmatched(g, t, WordLength())[At(g, i)] then Other
    else Wrong
  }

  /** The verdicts for the first `n` positions of normalised words. */
  function EvaluatePrefix(g: string, t: string, n: nat): (r: seq<Verdict>)
    ensures |r| == n
    ensures forall i :: 0 <= i < n ==> r[i] == VerdictAt(g, t, i)
  {
    if n == 0 then [] else EvaluatePrefix(g, t, n - 1) + [VerdictAt(g, t, n - 1)]
  }

  /** The verdicts for normalised words. */
  function Evaluate(g: string, t: string): (r: seq<Verdict>)
    ensures |r| == WordLength()
    ensures forall i :: 0 <= i < WordLength() ==> (r[i] == Exact <==> At(g, i) == At(t, i))
  {
    EvaluatePrefix(g, t, WordLength())
  }

  /** The verdicts the game shows for `guess` against `truth`: five of them, and
      position i is exact iff the normalised words agree there. */
  function Matches(guess: string, truth: string): (r: seq<Verdict>)
    ensures |r| == WordLength()
    ensures forall i :: 0 <= i < WordLength() ==>
      (r[i] == Exact <==> At(UnFinalize(guess), i) == At(UnFinalize(truth), i))
  {
    Evaluate(UnFinalize(guess), UnFinalize(truth))
  }

  /** A word matched against itself is all exact. */
  lemma MatchesSelf(w: string)
    ensures Matches(w, w) == [Exact, Exact, Exact, Exact, Exact]
  {
  }

  /** The position of the first occurrence of `x` in `s`, or -1 (Array#indexOf). */
  function IndexOf(s: seq<Cell>, x: Cell): (r: int)
    ensures r == -1 <==> x !in s
    ensures r != -1 ==> 0 <= r < |s| && s[r] == x && x !in s[..r]
  {
    if s == [] then -1
    else if s[0] == x then 0
    else
      var k := IndexOf(s[1..], x);
      if k == -1 then -1 else k + 1
  }

  /** How many of a letter's unmatched occurrences are still unused after `used`
      misplaced occurrences of it in the guess have asked for one. */
  function Remaining(credit: nat, used: nat): nat
  {
    if used <= credit then credit - used else 0
  }

  /** The working list of the second pass before position `i`, as a multiset: the
      unmatched letters `pool` minus one copy for every earlier misplaced position
      that found one. */
  function Leftover(g: string, t: string, pool: multiset<Cell>, i: nat): multiset<Cell>
  {
    if i == 0 then pool
    else
      var m, c := Leftover(g, t, pool, i - 1), At(g, i - 1);
      if c != At(t, i - 1) && c in m then m - multiset{c} else m
  }

  /** The working list holds, of every letter, the unmatched occurrences not yet
      asked for by misplaced occurrences in the guess. */
  lemma {:induction false} LeftoverCount(g: string, t: string, pool: multiset<Cell>, i: nat, c: Cell)
    ensures Leftover(g, t, pool, i)[c] == Remaining(pool[c], NonExactBefore(g, t, i, c))
  {
    if i > 0 {
      LeftoverCount(g, t, pool, i - 1, c);
      var m, x := Leftover(g, t, pool, i - 1), At(g, i - 1);
      var used := NonExactBefore(g, t, i - 1, c);
      var hit := x != At(t, i - 1) && x == c;
      RemainingStep(pool[c], used, m[c], hit);
      assert NonExactBefore(g, t, i, c) == if hit then used + 1 else used;
      assert Leftover(g, t, pool, i)[c] == if hit && m[c] > 0 then m[c] - 1 else m[c];
    }
  }

  /** Asking for one more copy uses one up if there is one left. */
  lemma RemainingStep(credit: nat, used: nat, left: nat, hit: bool)
    requires left == Remaining(credit, used)
    ensures Remaining(credit, if hit then used + 1 else used) == if hit && left > 0 then left - 1 else left
  {
  }

  /** The two passes of the game, with the working list of unmatched letters of the
      word of the day consumed by index lookup and removal. */
  method GetMatches(guess: string, truth: string) returns (matches: seq<Verdict>)
    ensures matches == Matches(guess, truth)
  {
    var g := UnFinalize(guess);
    var t := UnFinalize(truth);
    var notExact := CollectUnmatched(g, t);
    ghost var pool := multiset(notExact);
    matches := [];
    for i := 0 to WordLength()
      invariant matches == EvaluatePrefix(g, t, i)
      invariant multiset(notExact) == Leftover(g, t, pool, i)
    {
      EvaluateStep(g, t, pool, i);
      var letter := At(g, i);
      if letter == At(t, i) {
        matches := matches + [Exact];
        continue;
      }
      var index := IndexOf(notExact, letter);
      if index == -1 {
        matches := matches + [Wrong];
      } else {
        RemoveAt(notExact, index);
        notExact := notExact[..index] + notExact[index + 1..];
        matches := matches + [Other];
      }
    }
  }

  /** One step of the second pass: the verdict at `i` is decided by whether the
      guess letter is still in the working list. */
  lemma EvaluateStep(g: string, t: string, pool: multiset<Cell>, i: nat)
    requires pool == Unmatched(g, t, WordLength())
    ensures VerdictAt(g, t, i) ==
      if At(g, i) == At(t, i) then Exact
      else if At(g, i) in Leftover(g, t, pool, i) then Other
      else Wrong
  {
    LeftoverCount(g, t, pool, i, At(g, i));
  }

  /** The first pass: the letters of the word of the day at every position where the
      two normalised words disagree. */
  method CollectUnmatched(g: string, t: string) returns (notExact: seq<Cell>)
    ensures multiset(notExact) == Unmatched(g, t, WordLength())
  {
    notExact := [];
    for i := 0 to WordLength()
      invariant multiset(notExact) == Unmatched(g, t, i)
    {
      if At(g, i) != At(t, i) {
        notExact := notExact + [At(t, i)];
      }
    }
  }

  /** Removing one element (Array#splice(k, 1)) takes one copy of it out of the multiset. */
  lemma RemoveAt(s: seq<Cell>, k: nat)
    requires k < |s|
    ensures multiset(s[..k] + s[k + 1..]) == multiset(s) - multiset{s[k]}
  {
    assert s == s[..k] + [s[k]] + s[k + 1..];
  }

  // ---------------------------------------------------------------------------
  // Counting verdicts per letter

  /** Positions before `i` holding `c` in `g` with verdict `Other`. */
  function OthersBefore(g: string, t: string, i: nat, c: Cell): nat
    requires i <= WordLength()
  {
    if i == 0 then 0
    else OthersBefore(g, t, i - 1, c) + (if At(g, i - 1) == c && VerdictAt(g, t, i - 1) == Other then 1 else 0)
  }

  /** Positions before `i` holding `c` in both words. */
  function ExactBefore(g: string, t: string, i: nat, c: Cell): nat
  {
    if i == 0 then 0
    else ExactBefore(g, t, i - 1, c) + (if At(g, i - 1) == c && At(t, i - 1) == c then 1 else 0)
  }

  /** Positions before `i` holding `c` in `w`. */
  function CountBefore(w: string, i: nat, c: Cell): nat
  {
    if i == 0 then 0
    else CountBefore(w, i - 1, c) + (if At(w, i - 1) == c then 1 else 0)
  }

  /** Positions before `i` holding `c` in `g` whose verdict is not `Wrong`. */
  function CreditedBefore(g: string, t: string, i: nat, c: Cell): nat
    requires i <= WordLength()
  {
    if i == 0 then 0
    else CreditedBefore(g, t, i - 1, c) + (if At(g, i - 1) == c && VerdictAt(g, t, i - 1) != Wrong then 1 else 0)
  }

  function Min(a: nat, b: nat): nat { if a <= b then a else b }

  /** The misplaced occurrences of a letter get `Other` greedily from left to right:
      as many of them as there are unmatched occurrences in the word of the day. */
  lemma {:induction false} OthersGreedy(g: string, t: string, i: nat, c: Cell)
    requires i <= WordLength()
    ensures OthersBefore(g, t, i, c) == Min(NonExactBefore(g, t, i, c), Unmatched(g, t, WordLength())[c])
  {
    if i > 0 {
      OthersGreedy(g, t, i - 1, c);
    }
  }

  /** Every occurrence of a letter in the word of the day is matched either exactly
      or as one of the letters collected by the first pass. */
  lemma {:induction false} TruthSplits(g: string, t: string, i: nat, c: Cell)
    ensures CountBefore(t, i, c) == ExactBefore(g, t, i, c) + Unmatched(g, t, i)[c]
  {
    if i > 0 {
      TruthSplits(g, t, i - 1, c);
    }
  }

  /** Credited positions are the exact ones plus the `Other` ones. */
  lemma {:induction false} CreditedSplits(g: string, t: string, i: nat, c: Cell)
    requires i <= WordLength()
    ensures CreditedBefore(g, t, i, c) == ExactBefore(g, t, i, c) + OthersBefore(g, t, i, c)
    ensures CreditedBefore(g, t, i, c) <= CountBefore(g, i, c)
  {
    if i > 0 {
      CreditedSplits(g, t, i - 1, c);
    }
  }

  /** The duplicate-letter rule. For every letter, the guess positions holding it
      that are exact or `Other` are no more than its occurrences in the normalised
      word of the day (nor in the normalised guess), and the number of `Other`
      verdicts for it is exactly the smaller of its misplaced occurrences in the
      guess and its unmatched occurrences in the word of the day. */
  lemma DuplicateLetterBound(guess: string, truth: string, c: Cell)
    ensures var g, t := UnFinalize(guess), UnFinalize(truth);
      && CreditedBefore(g, t, WordLength(), c) <= CountBefore(t, WordLength(), c)
      && CreditedBefore(g, t, WordLength(), c) <= CountBefore(g, WordLength(), c)
      && OthersBefore(g, t, WordLength(), c)
         == Min(NonExactBefore(g, t, WordLength(), c), Unmatched(g, t, WordLength())[c])
  {
    var g, t := UnFinalize(guess), UnFinalize(truth);
    OthersGreedy(g, t, WordLength(), c);
    TruthSplits(g, t, WordLength(), c);
    CreditedSplits(g, t, WordLength(), c);
  }
}
