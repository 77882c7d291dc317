/** The cyrb53 string hash: two 32-bit accumulators absorb the UTF-16 code units of
    a string with wrapping multiplications, are mixed by two xor-shift/multiply
    rounds, and are combined into one non-negative integer below 2^53. */
module Hash {

  /** One UTF-16 code unit, as `String#charCodeAt` returns it. */
  type CodeUnit = bv16

  const Seed1: bv32 := 0xdead_beef
  const Seed2: bv32 := 0x41c6_ce57

  const AbsorbFactor1: bv32 := 2654435761
  const AbsorbFactor2: bv32 := 1597334677
  const MixFactor1: bv32 := 2246822507
  const MixFactor2: bv32 := 3266489909

  /** 2^32: the weight of the high part of the result. */
  const LowRange: nat := 0x1_0000_0000
  /** 2^21: the range of the high part of the result. */
  const HighRange: nat := 0x20_0000

  /** The pair of accumulators. */
  datatype State = State(h1: bv32, h2: bv32)

  /** `Math.imul`: the low 32 bits of the product. Both operands and the result are
      taken as 32-bit patterns, so the signedness JavaScript gives them does not matter. */
  function Imul(a: bv32, b: bv32): bv32
  {
    a * b
  }

  /** One iteration of the loop over the code units. */
  function Step(s: State, ch: CodeUnit): State
  {
    State(Imul(s.h1 ^ (ch as bv32), AbsorbFactor1), Imul(s.h2 ^ (ch as bv32), AbsorbFactor2))
  }

  /** The accumulators after absorbing every code unit of `str`, in order. */
  function Absorb(str: seq<CodeUnit>): State
  {
    if str == [] then State(Seed1, Seed2)
    else Step(Absorb(str[..|str| - 1]), str[|str| - 1])
  }

  /** The two finalisation rounds; the second reads the first one's new `h1`. */
  function Finish(s: State): State
  {
    var h1 := Imul(s.h1 ^ (s.h1 >> 16), MixFactor1) ^ Imul(s.h2 ^ (s.h2 >> 13), MixFactor2);
    var h2 := Imul(s.h2 ^ (s.h2 >> 16), MixFactor1) ^ Imul(h1 ^ (h1 >> 13), MixFactor2);
    State(h1, h2)
  }

  /** The 21 bits of `h2` that `2097151 & h2` keeps. */
  function High(h: bv32): (r: nat)
    ensures r < HighRange
  {
    Bv21Below((h & 0x1F_FFFF) as bv21);
    ((h & 0x1F_FFFF) as bv21) as nat
  }

  /** `h1 >>> 0`: the accumulator read as an unsigned 32-bit integer. */
  function Low(h: bv32): (r: nat)
    ensures r < LowRange
  {
    Bv32Below(h);
    h as nat
  }

  lemma Bv21Below(b: bv21)
    ensures (b as int) < 0x20_0000
  {
  }

  lemma Bv32Below(b: bv32)
    ensures (b as int) < 0x1_0000_0000
  {
  }

  /** The hash of a string of code units: a safe JavaScript integer. */
  function Hash53(str: seq<CodeUnit>): (r: nat)
    ensures r < 0x20_0000_0000_0000
  {
    Combined(Finish(Absorb(str)))
  }

  /** `4294967296 * (2097151 & h2) + (h1 >>> 0)`: a number whose quotient by 2^32 is
      the masked `h2` and whose remainder is `h1` read unsigned. */
  function Combined(f: State): (r: nat)
    ensures r < 0x20_0000_0000_0000
    ensures r / LowRange == High(f.h2)
    ensures r % LowRange == Low(f.h1)
  {
    Combine(High(f.h2), Low(f.h1));
    LowRange * High(f.h2) + Low(f.h1)
  }

  /** Base-2^32 digits: a high digit below 2^21 and a low digit below 2^32. */
  lemma Combine(hi: nat, lo: nat)
    requires hi < HighRange && lo < LowRange
    ensures LowRange * hi + lo < 0x20_0000_0000_0000
    ensures (LowRange * hi + lo) / LowRange == hi
    ensures (LowRange * hi + lo) % LowRange == lo
  {
  }

  /** The hash of the empty string, and of "a" (one code unit, 0x61). */
  lemma KnownValues()
    ensures Hash53([]) == 3338908027751811
    ensures Hash53([0x61]) == 7929297801672961
  {
  }

  /** The loop over the code units of the string, then the finalisation. */
  method Cyrb53(str: seq<CodeUnit>) returns (hash: nat)
    ensures hash == Hash53(str)
    ensures hash < 0x20_0000_0000_0000
  {
    var s := State(Seed1, Seed2);
    var i := 0;
    while i < |str|
      invariant 0 <= i <= |str|
      invariant s == Absorb(str[..i])
    {
      assert str[..i + 1][..i] == str[..i];
      s := Step(s, str[i]);
      i := i + 1;
    }
    assert str[..|str|] == str;
    s := Finish(s);
    hash := LowRange * High(s.h2) + Low(s.h1);
  }
}
