/** Spreadsheet column names and numbers (GraphicsUpdater.colToIndex and
    GraphicsUpdater.indexToCol). Columns are numbered from 1 in bijective
    base 26: A = 1, ..., Z = 26, AA = 27; no letter stands for zero. */
module Columns {
  import opened Text

  function Pow(b: nat, e: nat): nat
  {
    if e == 0 then 1 else b * Pow(b, e - 1)
  }

  /** `'ABCDEFGHIJKLMNOPQRSTUVWXYZ'.indexOf(c) + 1`: the place of an upper-case
      letter in the alphabet, and 0 for every other character (indexOf gives -1). */
  function LetterValue(c: char): nat
  {
    if IsUpper(c) then c as int - 'A' as int + 1 else 0
  }

  /** The number colToIndex computes: the characters' values read as digits
      of base 26, most significant first, so that each value counts 26 to the
      power of its distance from the right end of the string. */
  function ColSum(s: string): nat
  {
    if s == [] then 0 else 26 * ColSum(s[..|s| - 1]) + LetterValue(s[|s| - 1])
  }

  /** `String.fromCharCode(d + 65)`: the d-th letter of the alphabet. */
  function LetterOf(d: nat): (c: char)
    requires d < 26
    ensures IsUpper(c) && LetterValue(c) == d + 1
  {
    (65 + d) as char
  }

  /** The name of column n: its last letter encodes (n - 1) % 26 and the
      letters before it name column (n - 1) / 26. */
  function ColLabel(n: int): (s: string)
    ensures |s| > 0 <==> n >= 1
    ensures AllUpper(s)
    decreases n
  {
    if n <= 0 then [] else ColLabel((n - 1) / 26) + [LetterOf((n - 1) % 26)]
  }

  /** Adding the letter at position i at its place value, 26 to the power of
      the places to its right, extends the prefix read so far by that letter. */
  lemma ColSumPlace(s: string, i: nat)
    requires i < |s|
    ensures ColSum(s[..i + 1]) * Pow(26, |s| - 1 - i)
      == ColSum(s[..i]) * Pow(26, |s| - i) + Pow(26, |s| - 1 - i) * LetterValue(s[i])
  {
    var p, h, v := Pow(26, |s| - 1 - i), ColSum(s[..i]), LetterValue(s[i]);
    assert s[..i + 1][..i] == s[..i];
    assert ColSum(s[..i + 1]) == 26 * h + v;
    assert Pow(26, |s| - i) == 26 * p;
    MulSplit(h, v, 26, p);
  }

  /** colToIndex: walks the string left to right with i, while j counts the
      places still to its right, adding 26^j times the letter's value. */
  method ColToIndex(colString: string) returns (result: nat)
    ensures result == ColSum(colString)
  {
    var i := 0;
    var j := |colString| - 1;
    result := 0;
    while i < |colString|
      invariant 0 <= i <= |colString| && j == |colString| - 1 - i
      invariant result == ColSum(colString[..i]) * Pow(26, |colString| - i)
    {
      ColSumPlace(colString, i);
      result := result + Pow(26, j) * LetterValue(colString[i]);
      i, j := i + 1, j - 1;
    }
    assert colString[..i] == colString;
  }

  /** q * m + r with 0 <= r < m is divided by m as q with remainder r. */
  lemma DivModUnique(x: int, m: int, q: int, r: int)
    requires m > 0 && 0 <= r < m && x == q * m + r
    ensures x / m == q && x % m == r
  {
    var k := q - x / m;
    assert k * m == x % m - r;
    MulBounds(k, m);
  }

  lemma MulBounds(k: int, m: int)
    requires m > 0
    ensures k >= 0 ==> k * m >= 0
    ensures k >= 1 ==> k * m >= m
    ensures k <= -1 ==> k * m <= -m
  {
  }

  lemma MulSplit(q: int, d: int, b: int, a: int)
    ensures (q * b + d) * a == q * (b * a) + d * a
  {
  }

  lemma MulPred(q: int, b: int)
    ensures (q - 1) * b == q * b - b
  {
  }

  /** With `num == (cur - 1) * a + low` and `0 <= low < a`, num is a valid
      index exactly when cur is a column number. */
  lemma DigitSign(num: int, cur: int, low: nat, a: nat)
    requires a >= 1 && low < a && num == (cur - 1) * a + low
    ensures num >= 0 <==> cur >= 1
  {
    MulBounds(cur - 1, a);
  }

  /** The same num written in base 26 * a: quotient (cur - 1) / 26 and a
      remainder below 26 * a. */
  lemma DigitSplit(num: int, cur: int, low: nat, a: nat)
    requires a >= 1 && low < a && num == (cur - 1) * a + low
    ensures num == ((cur - 1) / 26) * (26 * a) + (((cur - 1) % 26) * a + low)
    ensures 0 <= ((cur - 1) % 26) * a + low < 26 * a
  {
    var q, d := (cur - 1) / 26, (cur - 1) % 26;
    MulSplit(q, d, 26, a);
    MulBounds(d, a);
    MulBounds(25 - d, a);
    MulSplit(25, -d, 1, a);
  }

  /** One round of indexToCol's loop. With `num == (cur - 1) * a + low`,
      `0 <= low < a` and cur >= 1, the digit the round emits is
      (cur - 1) % 26, and the next round sees column (cur - 1) / 26 with a
      scaled by 26. */
  lemma DigitStep(num: int, cur: int, low: nat, a: nat)
    requires a >= 1 && low < a && num == (cur - 1) * a + low && cur >= 1
    ensures (num % (26 * a)) / a == (cur - 1) % 26
    ensures num - 26 * a == ((cur - 1) / 26 - 1) * (26 * a) + (((cur - 1) % 26) * a + low)
    ensures 0 <= ((cur - 1) % 26) * a + low < 26 * a
  {
    var q, d := (cur - 1) / 26, (cur - 1) % 26;
    DigitSplit(num, cur, low, a);
    var r := d * a + low;
    DivModUnique(num, 26 * a, q, r);
    DivModUnique(r, a, d, low);
    MulPred(q, 26 * a);
  }

  /** One round of indexToCol on column cur, with the letters of the columns
      after it already in result: the round emits the last letter of cur and
      leaves the rest of the name to column (cur - 1) / 26. */
  lemma IndexRound(num: int, n: int, a: nat, cur: int, low: nat, result: string)
    requires a >= 1 && low < a && n == (cur - 1) * a + low && n >= 0
    requires ColLabel(num) == ColLabel(cur) + result
    ensures (n % (26 * a)) / a == (cur - 1) % 26
    ensures n - 26 * a == ((cur - 1) / 26 - 1) * (26 * a) + (((cur - 1) % 26) * a + low)
    ensures 0 <= ((cur - 1) % 26) * a + low < 26 * a
    ensures ColLabel(num) == ColLabel((cur - 1) / 26) + ([LetterOf((cur - 1) % 26)] + result)
  {
    DigitSign(n, cur, low, a);
    DigitStep(n, cur, low, a);
    LabelRound(num, cur, result);
  }

  /** The name of column cur is that of column (cur - 1) / 26 followed by one letter. */
  lemma LabelRound(num: int, cur: int, result: string)
    requires cur >= 1 && ColLabel(num) == ColLabel(cur) + result
    ensures ColLabel(num) == ColLabel((cur - 1) / 26) + ([LetterOf((cur - 1) % 26)] + result)
  {
    LastLetter(cur);
    Regroup(ColLabel((cur - 1) / 26), [LetterOf((cur - 1) % 26)], result);
  }

  lemma LastLetter(cur: int)
    requires cur >= 1
    ensures ColLabel(cur) == ColLabel((cur - 1) / 26) + [LetterOf((cur - 1) % 26)]
  {
  }

  lemma Regroup(x: string, y: string, z: string)
    ensures x + y + z == x + (y + z)
  {
  }

  /** indexToCol: `for (result = '', a = 1, b = 26; (num -= a) >= 0; a = b, b *= 26)
      result = letter((num % b) / a) + result`. The quotient is a whole number
      here, so Updater.ts's truncation in fromCharCode and Updater.js's
      parseInt give the same letter. */
  method IndexToCol(num: int) returns (result: string)
    ensures result == ColLabel(num)
  {
    result := "";
    var a: nat := 1;
    var b: nat := 26;
    var n := num - a;
    ghost var cur := num;
    ghost var low: nat := 0;
    while n >= 0
      invariant a >= 1 && b == 26 * a
      invariant n == (cur - 1) * a + low && low < a
      invariant ColLabel(num) == ColLabel(cur) + result
      decreases n
    {
      IndexRound(num, n, a, cur, low, result);
      var digit := (n % b) / a;
      result := [LetterOf(digit)] + result;
      low := ((cur - 1) % 26) * a + low;
      cur := (cur - 1) / 26;
      a, b := b, b * 26;
      n := n - a;
    }
    DigitSign(n, cur, low, a);
  }

  /** Appending a letter multiplies the value so far by 26 and adds the letter's value. */
  lemma ColSumAppend(s: string, c: char)
    ensures ColSum(s + [c]) == 26 * ColSum(s) + LetterValue(c)
  {
    assert (s + [c])[..|s|] == s;
  }

  /** colToIndex(indexToCol(n)) == n for every column number n >= 1. */
  lemma {:induction false} ColSumOfLabel(n: int)
    requires n >= 1
    ensures ColSum(ColLabel(n)) == n
  {
    var q, d := (n - 1) / 26, (n - 1) % 26;
    ColSumAppend(ColLabel(q), LetterOf(d));
    if q >= 1 {
      ColSumOfLabel(q);
    }
  }

  /** indexToCol(colToIndex(s)) == s for every non-empty upper-case name s. */
  lemma {:induction false} ColLabelOfSum(s: string)
    requires |s| > 0 && AllUpper(s)
    ensures ColLabel(ColSum(s)) == s
    decreases |s|
  {
    var t, c := s[..|s| - 1], s[|s| - 1];
    assert s == t + [c];
    ColSumAppend(t, c);
    var v := LetterValue(c);
    DivModUnique(ColSum(s) - 1, 26, ColSum(t), v - 1);
    assert LetterOf(v - 1) == c;
    if |t| > 0 {
      ColLabelOfSum(t);
    }
  }

  /** A non-empty upper-case name denotes a column number of at least 1. */
  lemma ColSumPositive(s: string)
    requires |s| > 0 && AllUpper(s)
    ensures ColSum(s) >= 1
  {
    ColLabelOfSum(s);
  }
}
