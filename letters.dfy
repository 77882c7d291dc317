/** The letter tables of the game and the normalisation of word-final letterforms.

    Five Hebrew letters have a distinct form used at the end of a word. The game
    compares words letter by letter only after mapping every final form back to its
    base form, and when the player types the fifth letter of a row it picks the
    final form of that letter unless the dictionary says otherwise. */
module Letters {

  /** Each word-final form mapped to its base form. */
  const FinalLetters: map<char, char> :=
    map['ך' := 'כ', 'ם' := 'מ', 'ן' := 'נ', 'ף' := 'פ', 'ץ' := 'צ']

  /** Each base form that has a word-final variant, mapped to that variant. */
  const FinaledLetters: map<char, char> :=
    map['כ' := 'ך', 'מ' := 'ם', 'נ' := 'ן', 'פ' := 'ף', 'צ' := 'ץ']

  /** Keys the game reacts to (Latin keys of a standard keyboard, and the Hebrew
      letters themselves) mapped to the base-form Hebrew letter they type. */
  const HebrewKeymap: map<char, char> :=
    map['e' := 'ק', 'ק' := 'ק', 'r' := 'ר', 'ר' := 'ר', 't' := 'א', 'א' := 'א', 'y' := 'ט', 'ט' := 'ט',
        'u' := 'ו', 'ו' := 'ו', 'i' := 'נ', 'ן' := 'נ', 'o' := 'מ', 'ם' := 'מ', 'p' := 'פ', 'פ' := 'פ',
        'a' := 'ש', 'ש' := 'ש', 's' := 'ד', 'ד' := 'ד', 'd' := 'ג', 'ג' := 'ג', 'f' := 'כ', 'כ' := 'כ',
        'g' := 'ע', 'ע' := 'ע', 'h' := 'י', 'י' := 'י', 'j' := 'ח', 'ח' := 'ח', 'k' := 'ל', 'ל' := 'ל',
        'l' := 'כ', 'ך' := 'כ', ';' := 'פ', 'ף' := 'פ', 'z' := 'ז', 'ז' := 'ז', 'x' := 'ס', 'ס' := 'ס',
        'c' := 'ב', 'ב' := 'ב', 'v' := 'ה', 'ה' := 'ה', 'b' := 'נ', 'נ' := 'נ', 'n' := 'מ', 'מ' := 'מ',
        'm' := 'צ', 'צ' := 'צ', ',' := 'ת', 'ת' := 'ת', '.' := 'צ', 'ץ' := 'צ']

  /** The two final-letter tables are inverse bijections between the five final
      forms and the five base forms, and no letter is both. */
  lemma FinalTablesInverse()
    ensures forall f :: f in FinalLetters ==>
      FinalLetters[f] in FinaledLetters && FinaledLetters[FinalLetters[f]] == f
    ensures forall b :: b in FinaledLetters ==>
      FinaledLetters[b] in FinalLetters && FinalLetters[FinaledLetters[b]] == b
    ensures FinalLetters.Keys == FinaledLetters.Values
    ensures FinaledLetters.Keys == FinalLetters.Values
    ensures FinalLetters.Keys !! FinaledLetters.Keys
  {
  }

  /** The base form of one letter. */
  function Base(c: char): (b: char)
    ensures b !in FinalLetters
    ensures c !in FinalLetters ==> b == c
    ensures c in FinalLetters ==> b in FinaledLetters && FinaledLetters[b] == c
  {
    if c in FinalLetters then FinalLetters[c] else c
  }

  /** The word with every final form replaced by its base form. */
  function UnFinalize(word: string): (r: string)
    ensures |r| == |word|
    ensures forall i :: 0 <= i < |r| ==> r[i] !in FinalLetters
    ensures forall i :: 0 <= i < |word| && word[i] !in FinalLetters ==> r[i] == word[i]
    ensures forall i :: 0 <= i < |word| && word[i] in FinalLetters ==> r[i] == FinalLetters[word[i]]
  {
    seq(|word|, i requires 0 <= i < |word| => Base(word[i]))
  }

  /** Normalising twice is normalising once. */
  lemma UnFinalizeIdempotent(word: string)
    ensures UnFinalize(UnFinalize(word)) == UnFinalize(word)
  {
  }

  /** A word without final forms is its own normal form. */
  lemma UnFinalizeFixedPoints(word: string)
    ensures UnFinalize(word) == word <==> forall i :: 0 <= i < |word| ==> word[i] !in FinalLetters
  {
    if UnFinalize(word) == word {
      forall i | 0 <= i < |word| ensures word[i] !in FinalLetters {
        assert UnFinalize(word)[i] == word[i];
      }
    }
  }

  /** Normalisation distributes over concatenation. */
  lemma UnFinalizeAppend(a: string, b: string)
    ensures UnFinalize(a + b) == UnFinalize(a) + UnFinalize(b)
  {
  }
}
