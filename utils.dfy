/** The stand-alone column-letter helper of lib/utils.ts, a do-while variant of
    the address codec's column encoding. */
module Utils {
  import opened Address

  /** JavaScript's `n % 26`: the remainder truncates toward zero, so it
      takes the sign of the dividend. */
  function JsRem26(a: int): (r: int)
    ensures -26 < r < 26
    ensures a >= 0 ==> r == a % 26
    ensures a < 0 ==> r <= 0
  {
    if a >= 0 then a % 26 else -((-a) % 26)
  }

  /** The character a negative index produces: the loop body runs once, with
      the char code 65 + (idx rem 26), between '(' and 'A'; a multiple of 26
      gives 'A' itself, since JavaScript's `-26 % 26` is `-0`. */
  function NegativeColumnChar(idx: int): char
    requires idx < 0
  {
    (65 + JsRem26(idx)) as char
  }

  /** colLetter (lib/utils.ts:1-10). `Math.floor(n / 26)` is Dafny's `n / 26`,
      since Euclidean division by a positive divisor rounds down. */
  method ColLetter(idx: int) returns (s: string)
    ensures |s| > 0
    ensures idx >= 0 ==> s == Letters(idx)
    ensures idx < 0 ==> s == [NegativeColumnChar(idx)]
  {
    var n := idx;
    s := "";
    var first := true;
    while first || n >= 0
      invariant first ==> s == "" && n == idx
      invariant !first ==> |s| > 0
      invariant idx >= 0 ==> n >= -1 && Letters(idx) == Letters(n) + s
      invariant idx < 0 && !first ==> s == [NegativeColumnChar(idx)] && n < 0
      decreases (if first then 1 else 0) + (if n >= 0 then n + 1 else 0)
    {
      if n >= 0 {
        var d, q := n % 26, n / 26 - 1;
        assert 0 <= d < 26 && -1 <= q < n by { DivStep(n); }
        assert Letters(n) == Letters(q) + [Letter(d)];
        assert Letters(idx) == Letters(q) + ([Letter(d)] + s);
      }
      s := [(65 + JsRem26(n)) as char] + s;
      n := n / 26 - 1;
      first := false;
    }
  }

  /** For every non-negative index colLetter agrees with colToLetter, spells a
      non-empty word over A-Z, and letterToCol reads the index back. */
  lemma ColLetterAgrees(idx: int)
    requires idx >= 0
    ensures IsColumnLetters(Letters(idx))
    ensures LetterValue(Letters(idx)) - 1 == idx
  {
    LettersShape(idx);
    LettersValue(idx);
  }

  /** The first columns and the first two-letter one. */
  lemma ColLetterExamples()
    ensures Letters(0) == "A" && Letters(25) == "Z" && Letters(26) == "AA" && Letters(701) == "ZZ" && Letters(702) == "AAA"
  {
  }
}
