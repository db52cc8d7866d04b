/**
 * `roman_to_int`: a Roman numeral read from its last character to its first,
 * adding each value that is at least the largest seen so far and subtracting
 * the others. The reading is lenient: it is case-insensitive, any other
 * character counts 0, and non-canonical numerals still get a value.
 */
module Roman {
  import opened Text

  /** The value of a numeral character (after `upper()`); any other character is 0. */
  function RomanValue(c: char): nat {
    match c
    case 'I' => 1
    case 'V' => 5
    case 'X' => 10
    case 'L' => 50
    case 'C' => 100
    case 'D' => 500
    case 'M' => 1000
    case _ => 0
  }

  /** The loop's state: the running `total` and `prev`, the value last added. */
  datatype RomanState = RomanState(total: int, prev: nat)

  const Start := RomanState(0, 0)

  /** One turn of the loop on character `c`. */
  function RomanStep(st: RomanState, c: char): RomanState {
    var v := RomanValue(c);
    if v < st.prev then st.(total := st.total - v) else RomanState(st.total + v, v)
  }

  /** The state after reading `u` from its last character back to its first. */
  function RomanScan(u: string, st: RomanState): RomanState
    decreases |u|
  {
    if u == [] then st else RomanScan(u[..|u| - 1], RomanStep(st, u[|u| - 1]))
  }

  /** What `roman_to_int` returns. */
  function RomanNumber(roman: string): int {
    RomanScan(Upper(roman), Start).total
  }

  method RomanToInt(roman: string) returns (total: int)
    ensures total == RomanNumber(roman)
  {
    var u := Upper(roman);
    total := 0;
    var prev: nat := 0;
    var i := |u|;
    assert u[..i] == u;
    while i > 0
      invariant 0 <= i <= |u|
      invariant RomanScan(u[..i], RomanState(total, prev)) == RomanScan(u, Start)
    {
      assert u[..i][..i - 1] == u[..i - 1];
      i := i - 1;
      var val := RomanValue(u[i]);
      if val < prev {
        total := total - val;
      } else {
        total := total + val;
        prev := val;
      }
    }
  }

  // ---------------------------------------------------------------- reading in parts

  /** Reading `a + b` is reading `b`, then `a` from the state `b` left. */
  lemma {:induction false} RomanScanAppend(a: string, b: string, st: RomanState)
    ensures RomanScan(a + b, st) == RomanScan(a, RomanScan(b, st))
    decreases |b|
  {
    if b != [] {
      var b', c := b[..|b| - 1], b[|b| - 1];
      assert (a + b)[..|a + b| - 1] == a + b';
      RomanScanAppend(a, b', RomanStep(st, c));
    } else {
      assert a + b == a;
    }
  }

  // ---------------------------------------------------------------- the canonical numerals

  /** The tokens of the standard notation, largest first, and their values. */
  function Token(i: nat): (t: string)
    requires i < 13
    ensures 1 <= |t| <= 2
    ensures forall k :: 0 <= k < |t| ==> IsUpper(t[k])
    ensures |t| == 1 ==> RomanValue(t[0]) == TokenValue(i)
    ensures |t| == 2 ==> RomanValue(t[0]) < RomanValue(t[1]) && RomanValue(t[1]) - RomanValue(t[0]) == TokenValue(i)
  {
    match i
    case 0 => "M"  case 1 => "CM"  case 2 => "D"  case 3 => "CD"
    case 4 => "C"  case 5 => "XC"  case 6 => "L"  case 7 => "XL"
    case 8 => "X"  case 9 => "IX"  case 10 => "V" case 11 => "IV"
    case 12 => "I"
  }

  function TokenValue(i: nat): (v: nat)
    requires i < 13
    ensures v >= 1
  {
    match i
    case 0 => 1000  case 1 => 900  case 2 => 500  case 3 => 400
    case 4 => 100   case 5 => 90   case 6 => 50   case 7 => 40
    case 8 => 10    case 9 => 9    case 10 => 5   case 11 => 4
    case 12 => 1
  }

  /** The standard numeral of `n`, written with tokens from index `i` on:
      each token as often as it fits, largest first. */
  function Encode(n: nat, i: nat): (r: string)
    requires i <= 13
    ensures forall k :: 0 <= k < |r| ==> IsUpper(r[k])
    decreases 13 - i, n
  {
    if i == 13 then ""
    else if n >= TokenValue(i) then Token(i) + Encode(n - TokenValue(i), i)
    else Encode(n, i + 1)
  }

  /** The largest character value token `i` and the tokens after it use. */
  function Top(i: nat): nat
    requires i <= 13
  {
    if i == 13 then 0 else RomanValue(Token(i)[|Token(i)| - 1])
  }

  /** Later tokens end in characters worth no more. */
  lemma TopDescends(i: nat)
    requires i < 13
    ensures Top(i + 1) <= Top(i)
  {
  }

  /** Reading one character is one turn of the loop. */
  lemma ScanOne(c: char, st: RomanState)
    ensures RomanScan([c], st) == RomanStep(st, c)
  {
    assert [c][..0] == [];
  }

  /** Reading a one-character token after nothing larger adds its value. */
  lemma OneCharStep(c: char, st: RomanState)
    requires st.prev <= RomanValue(c)
    ensures RomanScan([c], st) == RomanState(st.total + RomanValue(c), RomanValue(c))
  {
    ScanOne(c, st);
  }

  /** Reading a subtractive pair `ab`, with `a` worth less than `b`, after
      nothing larger than `b` adds the difference. */
  lemma TwoCharStep(a: char, b: char, st: RomanState)
    requires RomanValue(a) < RomanValue(b) && st.prev <= RomanValue(b)
    ensures RomanScan([a, b], st) == RomanState(st.total + RomanValue(b) - RomanValue(a), RomanValue(b))
  {
    var mid := RomanStep(st, b);
    assert mid == RomanState(st.total + RomanValue(b), RomanValue(b));
    assert [a, b][..1] == [a];
    assert RomanScan([a, b], st) == RomanScan([a], mid);
    ScanOne(a, mid);
  }

  /** Reading one token adds its value, whenever nothing larger than the token's
      last character has been read before. */
  lemma TokenStep(i: nat, st: RomanState)
    requires i < 13 && st.prev <= Top(i)
    ensures RomanScan(Token(i), st) == RomanState(st.total + TokenValue(i), Top(i))
  {
    var t := Token(i);
    if |t| == 1 {
      assert t == [t[0]];
      OneCharStep(t[0], st);
    } else {
      assert t == [t[0], t[1]];
      TwoCharStep(t[0], t[1], st);
    }
  }

  /** The numerals are upper case. */
  lemma {:induction false} EncodeUpper(n: nat, i: nat)
    requires i <= 13
    ensures Upper(Encode(n, i)) == Encode(n, i)
    decreases 13 - i, n
  {
    if i < 13 {
      if n >= TokenValue(i) {
        EncodeUpper(n - TokenValue(i), i);
        var t, rest := Token(i), Encode(n - TokenValue(i), i);
        assert Upper(t) == t;
        assert Encode(n, i) == t + rest;
        assert forall k :: 0 <= k < |t + rest| ==> (t + rest)[k] == if k < |t| then t[k] else rest[k - |t|];
      } else {
        EncodeUpper(n, i + 1);
      }
    }
  }

  /** Reading a standard numeral gives its value, with nothing above `Top(i)` seen. */
  lemma {:induction false} EncodeScan(n: nat, i: nat)
    requires i <= 13 && (i < 13 || n == 0)
    ensures RomanScan(Encode(n, i), Start).total == n
    ensures RomanScan(Encode(n, i), Start).prev <= Top(i)
    decreases 13 - i, n
  {
    if i < 13 {
      if n >= TokenValue(i) {
        var rest := Encode(n - TokenValue(i), i);
        EncodeScan(n - TokenValue(i), i);
        assert Encode(n, i) == Token(i) + rest;
        RomanScanAppend(Token(i), rest, Start);
        TokenStep(i, RomanScan(rest, Start));
      } else {
        EncodeScan(n, i + 1);
        TopDescends(i);
      }
    }
  }

  /** `roman_to_int` inverts the standard notation: the value of the standard
      numeral of any `n` is `n`. */
  lemma RomanRoundTrip(n: nat)
    ensures RomanNumber(Encode(n, 0)) == n
  {
    EncodeUpper(n, 0);
    EncodeScan(n, 0);
  }

  // ---------------------------------------------------------------- leniency

  /** Upper- and lower-case numerals read the same. */
  lemma RomanCaseInsensitive(s: string)
    ensures RomanNumber(Lower(s)) == RomanNumber(s)
    ensures RomanNumber(Upper(s)) == RomanNumber(s)
  {
    assert Upper(Lower(s)) == Upper(s);
    assert Upper(Upper(s)) == Upper(s);
  }

  /** `s` without the characters that are no numeral in either case. */
  function NumeralsOnly(s: string): (r: string)
    ensures |r| <= |s|
  {
    if s == [] then []
    else NumeralsOnly(s[..|s| - 1]) + (if RomanValue(UpperChar(s[|s| - 1])) == 0 then [] else [s[|s| - 1]])
  }

  /** A character of value 0 leaves the loop's state as it is. */
  lemma ZeroStep(st: RomanState, c: char)
    requires RomanValue(c) == 0
    ensures RomanStep(st, c) == st
  {
  }

  lemma {:induction false} ScanNumeralsOnly(s: string, st: RomanState)
    ensures RomanScan(Upper(NumeralsOnly(s)), st) == RomanScan(Upper(s), st)
    decreases |s|
  {
    if s != [] {
      var init, c := s[..|s| - 1], s[|s| - 1];
      var u := Upper(s);
      assert Upper(s)[..|s| - 1] == Upper(init);
      var kept := if RomanValue(UpperChar(c)) == 0 then [] else [c];
      assert NumeralsOnly(s) == NumeralsOnly(init) + kept;
      if kept == [] {
        ZeroStep(st, UpperChar(c));
        ScanNumeralsOnly(init, st);
        assert NumeralsOnly(s) == NumeralsOnly(init);
      } else {
        var n := NumeralsOnly(s);
        assert Upper(n)[..|n| - 1] == Upper(NumeralsOnly(init));
        ScanNumeralsOnly(init, RomanStep(st, UpperChar(c)));
      }
    }
  }

  /** Characters that are no numeral contribute nothing. */
  lemma RomanIgnoresOthers(s: string)
    ensures RomanNumber(NumeralsOnly(s)) == RomanNumber(s)
  {
    ScanNumeralsOnly(s, Start);
  }

  /** A string without lower-case letters is its own upper case. */
  lemma UpperKeeps(s: string)
    requires forall k :: 0 <= k < |s| ==> !IsLower(s[k])
    ensures Upper(s) == s
  {
  }

  /** Some values: "I" is 1, "IV" 4, "IX" 9 and "XL" 40. */
  lemma RomanExamples()
    ensures RomanNumber("I") == 1 && RomanNumber("IV") == 4
    ensures RomanNumber("IX") == 9 && RomanNumber("XL") == 40
  {
    UpperKeeps("I");
    assert "I" == ['I'];
    OneCharStep('I', Start);
    UpperKeeps("IV");
    assert "IV" == ['I', 'V'];
    TwoCharStep('I', 'V', Start);
    UpperKeeps("IX");
    assert "IX" == ['I', 'X'];
    TwoCharStep('I', 'X', Start);
    UpperKeeps("XL");
    assert "XL" == ['X', 'L'];
    TwoCharStep('X', 'L', Start);
  }

  /** "MCMXCIV" is 1994. */
  lemma RomanExample1994()
    ensures RomanNumber("MCMXCIV") == 1994
  {
    UpperKeeps("MCMXCIV");
    assert "MCMXCIV" == "MCMXC" + ['I', 'V'];
    RomanScanAppend("MCMXC", ['I', 'V'], Start);
    TwoCharStep('I', 'V', Start);
    var st1 := RomanState(4, 5);
    assert "MCMXC" == "MCM" + ['X', 'C'];
    RomanScanAppend("MCM", ['X', 'C'], st1);
    TwoCharStep('X', 'C', st1);
    var st2 := RomanState(94, 100);
    assert "MCM" == "M" + ['C', 'M'];
    RomanScanAppend("M", ['C', 'M'], st2);
    TwoCharStep('C', 'M', st2);
    assert "M" == ['M'];
    OneCharStep('M', RomanState(994, 1000));
  }

  /** The empty string is 0 and lower case "iii" is 3. */
  lemma RomanEdgeExamples()
    ensures RomanNumber("") == 0
    ensures RomanNumber("iii") == 3 && RomanNumber("III") == 3
  {
    assert Upper("") == "";
    var u := Upper("iii");
    assert u == ['I'] + ['I'] + ['I'] == Upper("III");
    RomanScanAppend(['I'] + ['I'], ['I'], Start);
    OneCharStep('I', Start);
    RomanScanAppend(['I'], ['I'], RomanState(1, 1));
    OneCharStep('I', RomanState(1, 1));
    OneCharStep('I', RomanState(2, 1));
  }
}
