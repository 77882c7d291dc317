/** The text a player copies to share a finished round: a header line with the
    day and the score out of six, an empty line, and one line per guess made of a
    right-to-left mark and one coloured square per verdict. */
module Share {

  import opened Wrappers
  import opened Numerals
  import opened Matching
  import opened Round

  /** U+200F RIGHT-TO-LEFT MARK, at the start of every row. */
  const RtlMark: char := '‏'

  const ExactGlyph: char := '\U{1F7E9}'
  const OtherGlyph: char := '\U{1F7E8}'
  const WrongGlyph: char := '\U{2B1C}'

  /** The square shown for a verdict: green, yellow or white. */
  function Glyph(v: Verdict): (c: char)
    ensures c != '\n' && c != RtlMark
  {
    match v
    case Exact => ExactGlyph
    case Other => OtherGlyph
    case Wrong => WrongGlyph
  }

  /** Reads a square back as its verdict. */
  function VerdictOf(c: char): Option<Verdict>
  {
    if c == ExactGlyph then Some(Exact)
    else if c == OtherGlyph then Some(Other)
    else if c == WrongGlyph then Some(Wrong)
    else None
  }

  lemma GlyphRoundTrip(v: Verdict)
    ensures VerdictOf(Glyph(v)) == Some(v)
  {
  }

  function Glyphs(verdicts: seq<Verdict>): (s: string)
    ensures |s| == |verdicts|
    ensures forall i :: 0 <= i < |s| ==> s[i] == Glyph(verdicts[i])
  {
    if verdicts == [] then [] else [Glyph(verdicts[0])] + Glyphs(verdicts[1..])
  }

  /** The line for one guess. */
  function Row(guess: string, word: string): (line: string)
    ensures |line| == WordLength() + 1
    ensures '\n' !in line
  {
    [RtlMark] + Glyphs(Matches(guess, word))
  }

  /** Reads a row back: the mark, then one square per position. */
  function DecodeRow(line: string): Option<seq<Verdict>>
  {
    if line == [] || line[0] != RtlMark then None else DecodeGlyphs(line[1..])
  }

  function DecodeGlyphs(s: string): Option<seq<Verdict>>
  {
    if s == [] then Some([])
    else match (VerdictOf(s[0]), DecodeGlyphs(s[1..]))
      case (Some(v), Some(rest)) => Some([v] + rest)
      case _ => None
  }

  lemma {:induction false} DecodeGlyphsOf(verdicts: seq<Verdict>)
    ensures DecodeGlyphs(Glyphs(verdicts)) == Some(verdicts)
  {
    if verdicts != [] {
      var s := Glyphs(verdicts);
      assert s[1..] == Glyphs(verdicts[1..]);
      GlyphRoundTrip(verdicts[0]);
      DecodeGlyphsOf(verdicts[1..]);
      assert verdicts == [verdicts[0]] + verdicts[1..];
    }
  }

  /** Every row of the shared text reads back as the verdicts of its guess. */
  lemma DecodeRowOf(guess: string, word: string)
    ensures DecodeRow(Row(guess, word)) == Some(Matches(guess, word))
  {
    var line := Row(guess, word);
    assert line[1..] == Glyphs(Matches(guess, word));
    DecodeGlyphsOf(Matches(guess, word));
  }

  /** The score: the number of guesses of a won round, or `X`. */
  function ScoreText(o: Outcome): (s: string)
    ensures '\n' !in s
  {
    match o
    case Won(n) => Decimal(n)
    case Lost => "X"
  }

  /** Reads a score back. */
  function ReadScore(s: string): Option<Outcome>
  {
    if s == "X" then Some(Lost)
    else if Canonical(s) then Some(Won(Value(s)))
    else None
  }

  /** The score reads back as the outcome it shows. */
  lemma ScoreRoundTrip(o: Outcome)
    ensures ReadScore(ScoreText(o)) == Some(o)
  {
    if o.Won? {
      ValueOfDecimal(o.attempts);
      assert Decimal(o.attempts) != "X" by {
        assert IsDigit(Decimal(o.attempts)[0]);
      }
    }
  }

  /** The first line, e.g. `ממהרת 14.10.2026 - 3/6`. */
  function HeaderLine(today: string, o: Outcome): string
  {
    HeaderPrefix(today) + ScoreText(o) + "/6"
  }

  /** The fixed text before the score in the header. */
  function HeaderPrefix(today: string): string
  {
    "ממהרת " + today + " - "
  }

  /** Reads a header back: the prefix for the day, a score, then `/6`. */
  function ReadHeader(today: string, line: string): Option<Outcome>
  {
    var prefix := HeaderPrefix(today);
    if |line| < |prefix| + 2 || line[..|prefix|] != prefix || line[|line| - 2..] != "/6" then None
    else ReadScore(line[|prefix|..|line| - 2])
  }

  /** The header reads back as the outcome of the round. */
  lemma HeaderRoundTrip(today: string, o: Outcome)
    ensures ReadHeader(today, HeaderLine(today, o)) == Some(o)
  {
    var prefix, score := HeaderPrefix(today), ScoreText(o);
    var line := HeaderLine(today, o);
    assert line == prefix + score + "/6";
    assert line[..|prefix|] == prefix;
    assert line[|line| - 2..] == "/6";
    assert line[|prefix|..|line| - 2] == score;
    ScoreRoundTrip(o);
  }

  /** The lines of the rows joined by line breaks (`Array#join('\n')`). */
  function JoinLines(lines: seq<string>): string
  {
    if lines == [] then ""
    else if |lines| == 1 then lines[0]
    else lines[0] + "\n" + JoinLines(lines[1..])
  }

  /** One row per guess, in order. */
  function Rows(guesses: seq<string>, word: string): (rows: seq<string>)
    ensures |rows| == |guesses|
    ensures forall i :: 0 <= i < |rows| ==> rows[i] == Row(guesses[i], word)
  {
    if guesses == [] then [] else [Row(guesses[0], word)] + Rows(guesses[1..], word)
  }

  /** `create_result`. */
  function CreateResult(today: string, guesses: seq<string>, word: string): string
  {
    HeaderLine(today, OutcomeOf(guesses, word)) + "\n\n" + JoinLines(Rows(guesses, word))
  }

  // ---------------------------------------------------------------------------
  // Reading the text back line by line

  /** Splits at every line break (`String#split('\n')`). */
  function SplitLines(s: string): (lines: seq<string>)
    ensures |lines| >= 1
  {
    if s == [] then [""]
    else
      var rest := SplitLines(s[1..]);
      if s[0] == '\n' then [""] + rest else [[s[0]] + rest[0]] + rest[1..]
  }

  /** A line without a break, then a break, splits off as the first line. */
  lemma {:induction false} SplitAfter(a: string, b: string)
    requires '\n' !in a
    ensures SplitLines(a + "\n" + b) == [a] + SplitLines(b)
  {
    var s := a + "\n" + b;
    if a == [] {
      assert s[1..] == b;
    } else {
      assert s[0] == a[0];
      assert s[1..] == a[1..] + "\n" + b;
      assert '\n' !in a[1..] by {
        forall k | 0 <= k < |a| - 1 ensures a[1..][k] != '\n' {
          assert a[1..][k] == a[k + 1];
        }
      }
      SplitAfter(a[1..], b);
      var rest := SplitLines(s[1..]);
      assert rest[0] == a[1..] && rest[1..] == SplitLines(b);
      assert [a[0]] + a[1..] == a;
    }
  }

  /** Splitting undoes joining lines that hold no break. */
  lemma {:induction false} SplitJoin(lines: seq<string>)
    requires lines != []
    requires forall i :: 0 <= i < |lines| ==> '\n' !in lines[i]
    ensures SplitLines(JoinLines(lines)) == lines
  {
    if |lines| > 1 {
      SplitAfter(lines[0], JoinLines(lines[1..]));
      SplitJoin(lines[1..]);
      assert [lines[0]] + lines[1..] == lines;
    } else {
      SplitWithoutBreak(lines[0]);
    }
  }

  /** A text without a break is one line. */
  lemma {:induction false} SplitWithoutBreak(a: string)
    requires '\n' !in a
    ensures SplitLines(a) == [a]
  {
    if a != [] {
      assert '\n' !in a[1..] by {
        forall k | 0 <= k < |a| - 1 ensures a[1..][k] != '\n' {
          assert a[1..][k] == a[k + 1];
        }
      }
      SplitWithoutBreak(a[1..]);
      assert [a[0]] + a[1..] == a;
    }
  }

  /** The shared text reads back as the header (whose score is the round's
      outcome), an empty line, and the row of each guess in order; with no guesses
      the text ends in an empty line. */
  lemma ShareLines(today: string, guesses: seq<string>, word: string)
    requires '\n' !in today
    ensures SplitLines(CreateResult(today, guesses, word)) ==
      [HeaderLine(today, OutcomeOf(guesses, word)), ""] + (if guesses == [] then [""] else Rows(guesses, word))
  {
    HeaderHasNoBreak(today, OutcomeOf(guesses, word));
    SplitResult(HeaderLine(today, OutcomeOf(guesses, word)), Rows(guesses, word));
  }

  /** The row of every guess decodes to that guess's verdicts. */
  lemma RowsDecode(guesses: seq<string>, word: string)
    ensures forall i :: 0 <= i < |guesses| ==> DecodeRow(Rows(guesses, word)[i]) == Some(Matches(guesses[i], word))
  {
    forall i | 0 <= i < |guesses|
      ensures DecodeRow(Rows(guesses, word)[i]) == Some(Matches(guesses[i], word))
    {
      DecodeRowOf(guesses[i], word);
    }
  }

  lemma HeaderHasNoBreak(today: string, o: Outcome)
    requires '\n' !in today
    ensures '\n' !in HeaderLine(today, o)
  {
  }

  /** A header, an empty line and the joined rows split back into those lines. */
  lemma SplitResult(header: string, rows: seq<string>)
    requires '\n' !in header
    requires forall i :: 0 <= i < |rows| ==> '\n' !in rows[i]
    ensures SplitLines(header + "\n\n" + JoinLines(rows)) == [header, ""] + (if rows == [] then [""] else rows)
  {
    var body := JoinLines(rows);
    var rest := "" + "\n" + body;
    var tail := if rows == [] then [""] else rows;
    assert SplitLines(body) == tail by {
      if rows != [] {
        SplitJoin(rows);
      } else {
        assert SplitLines("") == [""];
      }
    }
    assert SplitLines(rest) == [""] + tail by {
      SplitAfter("", body);
    }
    assert header + "\n\n" + body == header + "\n" + rest;
    SplitAfter(header, rest);
    assert [header] + ([""] + tail) == [header, ""] + tail by {
      assert [header, ""] == [header] + [""];
    }
  }

  /** The score in the header is the number of guesses exactly when the last
      guess is the word of the day. */
  lemma HeaderScore(today: string, guesses: seq<string>, word: string)
    ensures |guesses| > 0 && guesses[|guesses| - 1] == word ==>
      ReadScore(ScoreText(OutcomeOf(guesses, word))) == Some(Won(|guesses|))
    ensures !(|guesses| > 0 && guesses[|guesses| - 1] == word) ==>
      ReadScore(ScoreText(OutcomeOf(guesses, word))) == Some(Lost)
  {
    ScoreRoundTrip(OutcomeOf(guesses, word));
  }
}
