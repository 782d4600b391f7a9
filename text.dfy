/** The string operations of JavaScript that the updater relies on: the
    global match of /[a-zA-Z]+|[0-9]+/g, the decimal text of an integer
    (Number.prototype.toString), String.prototype.split, parseInt, and the
    canonical-index test an array applies to a property name. */
module Text {
  import opened Base

  predicate IsUpper(c: char) { 'A' <= c <= 'Z' }

  predicate IsLetter(c: char) { IsUpper(c) || 'a' <= c <= 'z' }

  predicate IsDigit(c: char) { '0' <= c <= '9' }

  predicate AllDigits(s: string) { forall i :: 0 <= i < |s| ==> IsDigit(s[i]) }

  predicate AllLetters(s: string) { forall i :: 0 <= i < |s| ==> IsLetter(s[i]) }

  predicate AllUpper(s: string) { forall i :: 0 <= i < |s| ==> IsUpper(s[i]) }

  /** Which alternative of /[a-zA-Z]+|[0-9]+/ a character belongs to: 1 for
      letters, 2 for digits, 0 for neither. */
  function CharClass(c: char): nat
  {
    if IsLetter(c) then 1 else if IsDigit(c) then 2 else 0
  }

  /** The length of the greedy match that starts at s[0]. */
  function RunLength(s: string): (k: nat)
    requires |s| > 0 && CharClass(s[0]) != 0
    ensures 1 <= k <= |s|
    ensures forall i :: 0 <= i < k ==> CharClass(s[i]) == CharClass(s[0])
    ensures k < |s| ==> CharClass(s[k]) != CharClass(s[0])
    decreases |s|
  {
    if |s| == 1 || CharClass(s[1]) != CharClass(s[0]) then 1
    else 1 + RunLength(s[1..])
  }

  /** `s.match(/[a-zA-Z]+|[0-9]+/g)`: the maximal letter runs and digit runs
      of s, left to right; the empty sequence stands for `null`. */
  function Runs(s: string): seq<string>
    decreases |s|
  {
    if s == [] then []
    else if CharClass(s[0]) == 0 then Runs(s[1..])
    else
      var k := RunLength(s);
      [s[..k]] + Runs(s[k..])
  }

  /** The greedy match at s[0] ends exactly where the first character of another class stands. */
  lemma RunLengthIs(s: string, k: nat)
    requires 1 <= k <= |s| && CharClass(s[0]) != 0
    requires forall i :: 0 <= i < k ==> CharClass(s[i]) == CharClass(s[0])
    requires k < |s| ==> CharClass(s[k]) != CharClass(s[0])
    ensures RunLength(s) == k
  {
  }

  /** A label made of a letter run and a digit run matches as exactly those two runs. */
  lemma RunsOfLettersThenDigits(letters: string, digits: string)
    requires |letters| > 0 && AllLetters(letters)
    requires |digits| > 0 && AllDigits(digits)
    ensures Runs(letters + digits) == [letters, digits]
  {
    var s := letters + digits;
    assert forall i :: 0 <= i < |letters| ==> CharClass(s[i]) == 1;
    assert CharClass(s[|letters|]) == 2;
    RunLengthIs(s, |letters|);
    assert s[..|letters|] == letters && s[|letters|..] == digits;
    assert Runs(s) == [letters] + Runs(digits);
    assert forall i :: 0 <= i < |digits| ==> CharClass(digits[i]) == 2;
    RunLengthIs(digits, |digits|);
    assert digits[..|digits|] == digits && digits[|digits|..] == [];
    assert Runs(digits) == [digits] + Runs([]);
  }

  function DigitChar(d: nat): (c: char)
    requires d < 10
    ensures IsDigit(c)
  {
    (('0' as int) + d) as char
  }

  /** The value of one digit of radix 10 or 16. */
  function DigitValue(c: char): nat
  {
    if IsDigit(c) then c as int - '0' as int
    else if 'a' <= c <= 'f' then c as int - 'a' as int + 10
    else if 'A' <= c <= 'F' then c as int - 'A' as int + 10
    else 0
  }

  /** A digit of radix 16 when hex holds, of radix 10 otherwise. */
  predicate IsRadixDigit(c: char, hex: bool)
  {
    IsDigit(c) || (hex && ('a' <= c <= 'f' || 'A' <= c <= 'F'))
  }

  /** The number a string of digits denotes in radix 16 when hex holds, and
      in radix 10 otherwise. */
  function RadixValue(s: string, hex: bool): nat
  {
    if s == [] then 0
    else
      var high := RadixValue(s[..|s| - 1], hex);
      (if hex then 16 * high else 10 * high) + DigitValue(s[|s| - 1])
  }

  /** `Number(s)` for a non-empty run of decimal digits. */
  function DecimalValue(s: string): nat
  {
    RadixValue(s, false)
  }

  /** `n.toString()` for a non-negative integer: its decimal digits, with no
      leading zero. */
  function NatText(n: nat): (s: string)
    ensures |s| > 0 && AllDigits(s)
    ensures s[0] == '0' ==> n == 0
  {
    if n < 10 then [DigitChar(n)] else NatText(n / 10) + [DigitChar(n % 10)]
  }

  /** `i.toString()` for any integer. */
  function IntText(i: int): string
  {
    if i < 0 then "-" + NatText(-i) else NatText(i)
  }

  /** `String(x)` for a number that may be infinite or NaN. */
  function NumText(x: Num): string
  {
    match x
    case NaN => "NaN"
    case Inf => "Infinity"
    case Int(i) => IntText(i)
  }

  /** Reading the decimal text of n gives back n. */
  lemma {:induction false} DecimalOfNatText(n: nat)
    ensures DecimalValue(NatText(n)) == n
  {
    var s := NatText(n);
    if n < 10 {
      assert s == [DigitChar(n)] && s[..0] == [];
      assert RadixValue(s, false) == 10 * RadixValue(s[..0], false) + DigitValue(s[0]);
      assert DigitValue(DigitChar(n)) == n;
    } else {
      assert s[..|s| - 1] == NatText(n / 10);
      DecimalOfNatText(n / 10);
    }
  }

  /** The decimal text of an integer never contains a comma, so it survives `split(',')`. */
  lemma NatTextHasNoComma(n: nat)
    ensures ',' !in NatText(n)
  {
    var s := NatText(n);
    assert forall i :: 0 <= i < |s| ==> s[i] != ',' by {
      forall i | 0 <= i < |s| ensures s[i] != ',' { assert IsDigit(s[i]); }
    }
  }

  lemma IntTextHasNoComma(i: int)
    ensures ',' !in IntText(i)
  {
    if i < 0 {
      NatTextHasNoComma(-i);
      assert IntText(i) == "-" + NatText(-i);
    } else {
      NatTextHasNoComma(i);
    }
  }

  /** The text of an integer starts with a minus sign exactly when it is negative. */
  lemma IntTextSign(i: int)
    ensures |IntText(i)| > 0 && (IntText(i)[0] == '-' <==> i < 0)
  {
    if i >= 0 {
      assert IsDigit(NatText(i)[0]);
    }
  }

  /** Distinct integers have distinct texts. */
  lemma IntTextInjective(i: int, j: int)
    requires IntText(i) == IntText(j)
    ensures i == j
  {
    IntTextSign(i);
    IntTextSign(j);
    if i < 0 {
      assert NatText(-i) == IntText(i)[1..] == IntText(j)[1..] == NatText(-j);
      DecimalOfNatText(-i);
      DecimalOfNatText(-j);
    } else {
      DecimalOfNatText(i);
      DecimalOfNatText(j);
    }
  }

  /** The array index a property name denotes: only the canonical decimal
      text of a non-negative integer names an element. */
  function Index(s: string): Option<nat>
  {
    if |s| > 0 && AllDigits(s) && NatText(DecimalValue(s)) == s then Some(DecimalValue(s))
    else None
  }

  /** The text of a non-negative integer indexes that element. */
  lemma IndexOfNatText(n: nat)
    ensures Index(NatText(n)) == Some(n)
  {
    DecimalOfNatText(n);
  }

  /** The text of an integer is an array index exactly when the integer is not negative. */
  lemma IndexOfIntText(i: int)
    ensures Index(IntText(i)) == if i >= 0 then Some(i) else None
  {
    if i >= 0 {
      IndexOfNatText(i);
    } else {
      assert !IsDigit(IntText(i)[0]);
    }
  }

  /** `s.split(sep)` for a one-character separator. */
  function Split(s: string, sep: char): (parts: seq<string>)
    ensures |parts| >= 1
  {
    if s == [] then [[]]
    else
      var rest := Split(s[1..], sep);
      if s[0] == sep then [[]] + rest else [[s[0]] + rest[0]] + rest[1..]
  }

  /** A string without the separator splits into itself. */
  lemma {:induction false} SplitWhole(a: string, sep: char)
    requires sep !in a
    ensures Split(a, sep) == [a]
  {
    if a != [] {
      SplitWhole(a[1..], sep);
      assert [a[0]] + a[1..] == a;
    }
  }

  /** Splitting `a + sep + b`, where a has no separator, gives a and then the pieces of b. */
  lemma {:induction false} SplitAfter(a: string, sep: char, b: string)
    requires sep !in a
    ensures Split(a + [sep] + b, sep) == [a] + Split(b, sep)
  {
    var s := a + [sep] + b;
    if a == [] {
      assert s[1..] == b;
    } else {
      assert s[1..] == a[1..] + [sep] + b;
      SplitAfter(a[1..], sep, b);
      assert [a[0]] + a[1..] == a;
    }
  }

  /** `arr.join(sep)`, which `String(arr)` uses with a comma. */
  function Join(parts: seq<string>, sep: char): string
  {
    if parts == [] then []
    else if |parts| == 1 then parts[0]
    else parts[0] + [sep] + Join(parts[1..], sep)
  }

  /** The white space parseInt skips: the characters of WhiteSpace and
      LineTerminator in the ECMAScript standard (the Zs category included). */
  predicate IsJsSpace(c: char)
  {
    var x := c as int;
    (9 <= x <= 13) || x == 0x20 || x == 0xA0 || x == 0x1680 || (0x2000 <= x <= 0x200A)
    || x == 0x2028 || x == 0x2029 || x == 0x202F || x == 0x205F || x == 0x3000 || x == 0xFEFF
  }

  function TrimStart(s: string): (t: string)
    ensures |t| <= |s| && t == s[|s| - |t|..]
    ensures t != [] ==> !IsJsSpace(t[0])
  {
    if s != [] && IsJsSpace(s[0]) then TrimStart(s[1..]) else s
  }

  /** The length of the longest prefix of s made of digits of the radix. */
  function DigitPrefix(s: string, hex: bool): (k: nat)
    ensures k <= |s|
    ensures forall i :: 0 <= i < k ==> IsRadixDigit(s[i], hex)
    ensures k < |s| ==> !IsRadixDigit(s[k], hex)
  {
    if s != [] && IsRadixDigit(s[0], hex) then 1 + DigitPrefix(s[1..], hex) else 0
  }

  /** `parseInt(s)` with no radix (section 19.2.5 of ECMA-262): skip leading
      white space, read an optional sign, switch to radix 16 after a "0x" or
      "0X" prefix, and read the longest run of digits; NaN when there is none.
      A negative zero is the integer 0 here. */
  function ParseInt(s: string): (x: Num)
    ensures !x.Inf?
  {
    var t := TrimStart(s);
    var negative := |t| > 0 && t[0] == '-';
    var u := if |t| > 0 && (t[0] == '-' || t[0] == '+') then t[1..] else t;
    var hex := |u| >= 2 && u[0] == '0' && (u[1] == 'x' || u[1] == 'X');
    var w := if hex then u[2..] else u;
    var k := DigitPrefix(w, hex);
    if k == 0 then NaN
    else if negative then Int(-(RadixValue(w[..k], hex) as int))
    else Int(RadixValue(w[..k], hex))
  }

  /** parseInt reads a run of decimal digits (leading zeros included) as its decimal value. */
  lemma ParseIntOfDigits(s: string)
    requires |s| > 0 && AllDigits(s)
    ensures ParseInt(s) == Int(DecimalValue(s))
  {
    assert TrimStart(s) == s by {
      assert !IsJsSpace(s[0]) by { assert IsDigit(s[0]); }
    }
    assert s[0] != '-' && s[0] != '+' by { assert IsDigit(s[0]); }
    assert |s| >= 2 ==> IsDigit(s[1]);
    var k := DigitPrefix(s, false);
    assert forall i :: 0 <= i < |s| ==> IsRadixDigit(s[i], false);
    assert k == |s|;
    assert s[..k] == s;
  }

  /** parseInt reads the decimal text of a non-negative integer back as that integer. */
  lemma ParseIntOfNatText(n: nat)
    ensures ParseInt(NatText(n)) == Int(n)
  {
    ParseIntOfDigits(NatText(n));
    DecimalOfNatText(n);
  }

  /** parseInt finds no number in a string with no digit after the white space and sign. */
  lemma ParseIntWithoutDigits(s: string)
    requires forall i :: 0 <= i < |s| ==> !IsDigit(s[i])
    ensures ParseInt(s) == NaN
  {
    var t := TrimStart(s);
    var u := if |t| > 0 && (t[0] == '-' || t[0] == '+') then t[1..] else t;
    if |u| > 0 {
      assert !IsDigit(u[0]) by {
        assert forall i :: 0 <= i < |t| ==> t[i] == s[|s| - |t| + i];
        if |t| > 0 && (t[0] == '-' || t[0] == '+') {
          assert u[0] == t[1];
        }
      }
      assert DigitPrefix(u, false) == 0;
    }
  }
}
