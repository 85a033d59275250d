/**
 Number conversion of the kernel's C library: digits into a caller's buffer, and back. Buffers
 are arrays of characters; C strings end at their first NUL.
 */
module Conv {
  import opened Wrappers
  import Words

  const INT_MAX := 0x7FFF_FFFF
  const INT_MIN := -0x8000_0000
  const NUL := '\0'
  const DIGITS := "0123456789abcdef"

  // ----- numerals

  predicate IsBase(base: int) {
    2 <= base <= 16
  }

  function DigitValue(c: char): (d: nat)
    ensures d < 16
  {
    if '0' <= c <= '9' then c as int - '0' as int
    else if 'a' <= c <= 'f' then c as int - 'a' as int + 10
    else 0
  }

  predicate IsDigitOf(c: char, base: int) {
    ('0' <= c <= '9' || 'a' <= c <= 'f') && DigitValue(c) < base
  }

  lemma DigitChars(d: nat)
    requires d < 16
    ensures DigitValue(DIGITS[d]) == d && (DIGITS[d] == '0' <==> d == 0)
    ensures '0' <= DIGITS[d] <= '9' || 'a' <= DIGITS[d] <= 'f'
    ensures forall c :: IsDigitOf(c, 16) && DigitValue(c) == d ==> c == DIGITS[d]
  {
    assert DIGITS == ['0', '1', '2', '3', '4', '5', '6', '7', '8', '9', 'a', 'b', 'c', 'd', 'e', 'f'];
  }

  function Last<T>(s: seq<T>): T
    requires |s| > 0
  {
    s[|s| - 1]
  }

  function Front<T>(s: seq<T>): seq<T>
    requires |s| > 0
  {
    s[..|s| - 1]
  }

  // One digit put behind a number, and taken off again.

  function Shift(q: nat, base: nat, d: nat): nat {
    q * base + d
  }

  function Quot(v: nat, base: nat): nat
    requires base > 0
  {
    v / base
  }

  function Rem(v: nat, base: nat): (d: nat)
    requires base > 0
    ensures d < base
  {
    v % base
  }

  lemma SplitDigit(v: nat, base: nat)
    requires IsBase(base)
    ensures Shift(Quot(v, base), base, Rem(v, base)) == v
    ensures (v > 0 ==> Quot(v, base) < v) && (v >= base <==> Quot(v, base) > 0)
    ensures v < base ==> Rem(v, base) == v
  {
    var q, d := v / base, v % base;
    assert v == q * base + d;
    if v < base {
      Words.ModUnique(v, base, 0, v);
    } else if q > 0 {
      Words.NextMultiple(0, q, base);
      assert q * base >= q * 2;
    }
  }

  lemma JoinDigit(q: nat, base: nat, d: nat)
    requires IsBase(base) && d < base
    ensures Quot(Shift(q, base, d), base) == q && Rem(Shift(q, base, d), base) == d
    ensures Shift(0, base, d) == d && (q > 0 ==> Shift(q, base, d) >= base)
  {
    Words.ModUnique(Shift(q, base, d), base, q, d);
    if q > 0 {
      Words.NextMultiple(0, q, base);
    }
  }

  lemma {:induction false} ShiftOrder(a: nat, b: nat, base: nat, d: nat)
    requires a <= b && d < base
    ensures Shift(a, base, d) <= Shift(b, base, d)
    ensures a < b ==> Shift(a, base, d) < Shift(b, base, 0)
  {
    if a < b {
      Words.NextMultiple(a, b, base);
    }
  }

  /** The number a string of digits stands for. */
  function Evaluate(s: string, base: nat): nat {
    if |s| == 0 then 0 else Shift(Evaluate(Front(s), base), base, DigitValue(Last(s)))
  }

  /** Digits only, at least one, and no leading zero but in "0". */
  predicate IsNumeral(s: string, base: nat) {
    |s| > 0 && (forall i :: 0 <= i < |s| ==> IsDigitOf(s[i], base)) && (s[0] == '0' ==> |s| == 1)
  }

  function Numeral(v: nat, base: nat): (s: string)
    requires IsBase(base)
    ensures |s| > 0
    decreases v
  {
    hide Quot, Rem, Shift;
    if v < base then [DIGITS[v]]
    else
      SplitDigit(v, base);
      Numeral(Quot(v, base), base) + [DIGITS[Rem(v, base)]]
  }

  lemma {:induction false} NumeralEvaluates(v: nat, base: nat)
    requires IsBase(base)
    ensures IsNumeral(Numeral(v, base), base) && Evaluate(Numeral(v, base), base) == v
    ensures Numeral(v, base)[0] == '0' <==> v == 0
    decreases v
  {
    hide Quot, Rem, Shift, DigitValue;
    var s := Numeral(v, base);
    if v < base {
      DigitChars(v);
      JoinDigit(0, base, v);
      assert Evaluate(Front(s), base) == 0;
    } else {
      SplitDigit(v, base);
      DigitChars(Rem(v, base));
      NumeralEvaluates(Quot(v, base), base);
      assert Front(s) == Numeral(Quot(v, base), base);
    }
  }

  /** A number has one numeral. */
  lemma {:induction false} NumeralUnique(s: string, base: nat)
    requires IsBase(base) && IsNumeral(s, base)
    ensures Numeral(Evaluate(s, base), base) == s
    ensures s[0] != '0' ==> Evaluate(s, base) > 0
  {
    hide Quot, Rem, Shift, DigitValue;
    var d := DigitValue(Last(s));
    DigitChars(d);
    assert Last(s) == DIGITS[d];
    var q := Evaluate(Front(s), base);
    JoinDigit(q, base, d);
    if |s| == 1 {
      assert q == 0 && s == [DIGITS[d]];
    } else {
      assert Front(s)[0] == s[0];
      NumeralUnique(Front(s), base);
      assert s == Front(s) + [DIGITS[d]];
    }
  }

  /** One digit is itself: '0' to '9', then 'a' to 'f'. */
  lemma OneDigit(d: nat, base: nat)
    requires IsBase(base) && d < base
    ensures Numeral(d, base) == [if d < 10 then ('0' as int + d) as char else ('a' as int + d - 10) as char]
  {
    assert DIGITS == ['0', '1', '2', '3', '4', '5', '6', '7', '8', '9', 'a', 'b', 'c', 'd', 'e', 'f'];
  }

  function Power(base: nat, k: nat): nat {
    if k == 0 then 1 else base * Power(base, k - 1)
  }

  /** At most k digits exactly when below base^k. */
  lemma {:induction false} NumeralLength(v: nat, base: nat, k: nat)
    requires IsBase(base) && k > 0
    ensures |Numeral(v, base)| <= k <==> v < Power(base, k)
    decreases k
  {
    hide Quot, Rem, Power;
    PowerStep(base, k);
    if v >= base {
      SplitDigit(v, base);
      if k > 1 {
        NumeralLength(Quot(v, base), base, k - 1);
        QuotBelow(v, base, Power(base, k - 1));
      }
    }
  }

  lemma {:induction false} PowerStep(base: nat, k: nat)
    requires IsBase(base) && k > 0
    ensures Power(base, k) == Shift(Power(base, k - 1), base, 0) >= base
    ensures Power(base, 1) == base
  {
    if k > 1 {
      PowerStep(base, k - 1);
      ShiftOrder(1, Power(base, k - 1), base, 0);
    }
  }

  lemma QuotBelow(v: nat, base: nat, p: nat)
    requires IsBase(base)
    ensures Quot(v, base) < p <==> v < Shift(p, base, 0)
  {
    hide Quot, Rem;
    SplitDigit(v, base);
    if Quot(v, base) < p {
      ShiftOrder(Quot(v, base), p, base, Rem(v, base));
    } else {
      ShiftOrder(p, Quot(v, base), base, 0);
    }
  }

  lemma Powers()
    ensures Power(2, 32) == Words.MODULUS && Power(10, 10) == 10_000_000_000
  {
    assert Power(2, 8) == 0x100;
    assert Power(2, 16) == 0x1_0000;
    assert Power(2, 24) == 0x100_0000;
    assert Power(2, 32) == 0x1_0000_0000;
    assert Power(10, 5) == 100_000;
    assert Power(10, 10) == 10_000_000_000;
  }

  lemma QuotOrder(a: nat, b: nat, base: nat)
    requires IsBase(base) && a <= b
    ensures Quot(a, base) <= Quot(b, 2)
  {
    hide Quot, Rem;
    var p := Quot(b, 2) + 1;
    QuotBelow(b, 2, p);
    assert Shift(p, 2, 0) <= Shift(p, base, 0);
    QuotBelow(a, base, p);
  }

  /** Binary is the longest. */
  lemma {:induction false} BinaryLongest(a: nat, b: nat, base: nat)
    requires IsBase(base) && a <= b
    ensures |Numeral(a, base)| <= |Numeral(b, 2)|
    decreases b
  {
    hide Quot, Rem;
    if a >= base {
      SplitDigit(a, base);
      SplitDigit(b, 2);
      QuotOrder(a, b, base);
      BinaryLongest(Quot(a, base), Quot(b, 2), base);
    }
  }

  /** The buffers the header promises are enough: 33 characters, and 12 in base 10 with the sign. */
  lemma TextFits(v: nat, base: int)
    requires v < Words.MODULUS
    ensures |UnsignedText(v, base)| <= 32
    ensures base == 10 ==> |UnsignedText(v, base)| <= 10
  {
    if IsBase(base) {
      Powers();
      NumeralLength(v, 2, 32);
      BinaryLongest(v, v, base);
      NumeralLength(v, 10, 10);
    }
  }

  // ----- what the conversions write

  function UnsignedText(v: nat, base: int): string {
    if IsBase(base) then Numeral(v, base) else ""
  }

  /** Base 10 is signed; in any other base a negative number shows as its 32-bit pattern. */
  function SignedText(v: int, base: int): string
    requires INT_MIN <= v <= INT_MAX
  {
    if base == 10 && v < 0 then "-" + UnsignedText(-v, 10) else UnsignedText(v % Words.MODULUS, base)
  }

  function Overwritten(was: seq<char>, at: nat, text: string): seq<char>
    requires at + |text| <= |was|
  {
    was[..at] + text + was[at + |text|..]
  }

  lemma SignedTextFits(v: int, base: int)
    requires INT_MIN <= v <= INT_MAX
    ensures |SignedText(v, base)| <= 32
    ensures base == 10 ==> |SignedText(v, base)| <= 11
  {
    TextFits(if v < 0 then -v else v, 10);
    TextFits(v % Words.MODULUS, base);
  }

  /** `buf` holds `text` and a NUL from `at` on, and is otherwise as `was`. */
  ghost predicate Wrote(buf: seq<char>, was: seq<char>, at: nat, text: string) {
    at + |text| < |was| && buf == Overwritten(was, at, text + [NUL])
  }

  lemma LastDigit(v: nat, base: nat)
    requires IsBase(base)
    ensures Last(Numeral(v, base)) == DIGITS[Rem(v, base)]
    ensures if v < base then Quot(v, base) == 0 && |Numeral(v, base)| == 1
            else Quot(v, base) > 0 && Front(Numeral(v, base)) == Numeral(Quot(v, base), base)
    ensures (v > 0 ==> Quot(v, base) < v) && (v < base ==> Rem(v, base) == v)
  {
    hide Quot, Rem, Shift;
    SplitDigit(v, base);
  }

  /** The digits of a number from the last to the first, as the first loop leaves them. */
  method ReversedDigits(value: nat, base: nat) returns (tmp: array<char>, i: nat)
    requires value < Words.MODULUS && IsBase(base)
    ensures i == |Numeral(value, base)| <= 32 && tmp.Length == 33 && fresh(tmp)
    ensures forall k :: 0 <= k < i ==> tmp[k] == Numeral(value, base)[i - 1 - k]
  {
    hide Quot, Rem, Numeral;
    tmp := new char[33];
    i := 0;
    ghost var text := Numeral(value, base);
    TextFits(value, base);
    assert |text| <= 32 by {
      assert UnsignedText(value, base) == text;
    }
    LastDigit(value, base);
    if value == 0 {
      tmp[0] := '0';
      i := 1;
      assert text == "0";
    } else {
      var v := value;
      while v > 0
        invariant 0 <= i <= |text| && (v == 0 ==> i == |text|)
        invariant v > 0 ==> i < |text| && Numeral(v, base) == text[..|text| - i]
        invariant forall k :: 0 <= k < i ==> tmp[k] == text[|text| - 1 - k]
        decreases v
      {
        LastDigit(v, base);
        tmp[i] := DIGITS[Rem(v, base)];
        i := i + 1;
        v := Quot(v, base);
      }
    }
  }

  lemma OverwriteOne(was: seq<char>, at: nat, text: string, j: nat)
    requires at + |text| <= |was| && j < |text|
    ensures Overwritten(was, at, text[..j])[at + j := text[j]] == Overwritten(was, at, text[..j + 1])
  {
  }

  method Utoa(value: nat, buf: array<char>, at: nat, base: int)
    requires value < Words.MODULUS && at + |UnsignedText(value, base)| < buf.Length
    modifies buf
    ensures Wrote(buf[..], old(buf[..]), at, UnsignedText(value, base))
  {
    hide Numeral;
    ghost var was := buf[..];
    if base < 2 || base > 16 {
      buf[at] := NUL;
      assert buf[..] == Overwritten(was, at, "" + [NUL]);
      return;
    }
    var tmp, i := ReversedDigits(value, base);
    ghost var text := UnsignedText(value, base);
    ghost var line := text + [NUL];
    var j := 0;
    while i > 0
      invariant i + j == |text| && 0 <= i && 0 <= j && buf.Length == |was|
      invariant forall k :: 0 <= k < i ==> tmp[k] == text[|text| - 1 - k]
      invariant buf[..] == Overwritten(was, at, line[..j])
      decreases i
    {
      i := i - 1;
      OverwriteOne(was, at, line, j);
      buf[at + j] := tmp[i];
      j := j + 1;
    }
    OverwriteOne(was, at, line, j);
    buf[at + j] := NUL;
    assert line[..j + 1] == line;
  }

  method Itoa(value: int, buf: array<char>, base: int)
    requires INT_MIN <= value <= INT_MAX && |SignedText(value, base)| < buf.Length
    modifies buf
    ensures Wrote(buf[..], old(buf[..]), 0, SignedText(value, base))
  {
    hide Numeral;
    if base == 10 && value < 0 {
      ghost var was := buf[..];
      buf[0] := '-';
      ghost var signed := buf[..];
      var mag := (Words.MODULUS - 1 - value % Words.MODULUS + 1) % Words.MODULUS;
      assert mag == -value;
      Utoa(mag, buf, 1, 10);
      BehindSign(was, signed, buf[..], UnsignedText(mag, 10));
    } else {
      Utoa(value % Words.MODULUS, buf, 0, base);
    }
  }

  lemma BehindSign(was: seq<char>, signed: seq<char>, now: seq<char>, text: string)
    requires |was| > 1 && signed == ['-'] + was[1..] && Wrote(now, signed, 1, text)
    ensures Wrote(now, was, 0, "-" + text)
  {
    assert signed[..1] == "-" && signed[1 + |text| + 1..] == was[1 + |text| + 1..];
  }

  /** In any base but 10 the text evaluates to the 32-bit pattern of the number; for a base out of range it is empty. */
  lemma PatternText(v: int, base: int)
    requires INT_MIN <= v <= INT_MAX && base != 10
    ensures 2 <= base <= 16 ==> Evaluate(SignedText(v, base), base) == if v < 0 then v + 0x1_0000_0000 else v
    ensures base < 2 || base > 16 ==> SignedText(v, base) == ""
  {
    hide Evaluate, Numeral, IsNumeral;
    var pattern := v % Words.MODULUS;
    assert pattern == if v < 0 then v + 0x1_0000_0000 else v;
    if IsBase(base) {
      NumeralEvaluates(pattern, base);
    }
  }

  // ----- reading a number

  predicate IsSpace(c: char) {
    c == ' ' || c == '\t' || c == '\n' || c == '\r' || c == '\U{0B}' || c == '\U{0C}'
  }

  predicate IsDigit(c: char) {
    '0' <= c <= '9'
  }

  function SkipSpaces(s: string): string {
    if |s| > 0 && IsSpace(s[0]) then SkipSpaces(s[1..]) else s
  }

  /** The longest run of decimal digits s starts with. */
  function DigitRun(s: string): (run: string)
    ensures |run| <= |s| && run == s[..|run|]
    ensures forall i :: 0 <= i < |run| ==> IsDigit(run[i])
    ensures |run| < |s| ==> !IsDigit(s[|run|])
  {
    if |s| == 0 || !IsDigit(s[0]) then "" else [s[0]] + DigitRun(s[1..])
  }

  predicate IsSigned(t: string) {
    |t| > 0 && (t[0] == '+' || t[0] == '-')
  }

  function Unsigned(t: string): string {
    if IsSigned(t) then t[1..] else t
  }

  /** The number a string starts with, after spaces and a sign; none when the int accumulator overflows. */
  function Parsed(s: string): Option<int> {
    hide Evaluate;
    var t := SkipSpaces(s);
    var v: int := Evaluate(DigitRun(Unsigned(t)), 10);
    if v > INT_MAX then None else Some(if |t| > 0 && t[0] == '-' then -v else v)
  }

  lemma {:induction false} PrefixSmaller(s: string, k: nat)
    requires k <= |s|
    ensures Evaluate(s[..k], 10) <= Evaluate(s, 10)
    decreases |s|
  {
    if k < |s| {
      PrefixSmaller(Front(s), k);
      assert Front(s)[..k] == s[..k];
    } else {
      assert s[..k] == s;
    }
  }

  /** Where the leading spaces end. */
  method SpacesEnd(text: string) returns (p: nat)
    requires NUL !in text
    ensures p <= |text| && text[p..] == SkipSpaces(text)
  {
    var s := text + [NUL];
    p := 0;
    while IsSpace(s[p])
      invariant p <= |text| && SkipSpaces(text[p..]) == SkipSpaces(text)
      decreases |text| - p
    {
      assert text[p..][1..] == text[p + 1..];
      p := p + 1;
    }
  }

  /** The value of the digits the text starts with, none when it leaves int on the way. */
  method DigitsValue(digits: string) returns (r: Option<int>)
    requires NUL !in digits
    ensures var v := Evaluate(DigitRun(digits), 10); r == if v > INT_MAX then None else Some(v)
  {
    var s := digits + [NUL];
    ghost var run := DigitRun(digits);
    var result: nat, n := 0, 0;
    while IsDigit(s[n])
      invariant n <= |run| && result == Evaluate(run[..n], 10) <= INT_MAX
      decreases |digits| - n
    {
      assert n < |run| && run[n] == digits[n];
      assert Front(run[..n + 1]) == run[..n] && Last(run[..n + 1]) == run[n];
      var next := result * 10 + (s[n] as int - '0' as int);
      PrefixSmaller(run, n + 1);
      if next > INT_MAX {
        return None;
      }
      result := next;
      n := n + 1;
    }
    assert n == |run| && run[..n] == run;
    r := Some(result);
  }

  /**
     Reads `text`, a C string: the characters before its NUL. The arithmetic is that of int, and
     where it leaves int the result is None.
   */
  method Atoi(text: string) returns (r: Option<int>)
    requires NUL !in text
    ensures r == Parsed(text)
  {
    hide Evaluate, SkipSpaces, DigitRun;
    var p := SpacesEnd(text);
    var s := text + [NUL];
    ghost var t := text[p..];
    var sign := 1;
    if s[p] == '+' || s[p] == '-' {
      if s[p] == '-' {
        sign := -1;
      }
      p := p + 1;
    }
    assert text[p..] == Unsigned(t);
    var result := DigitsValue(text[p..]);
    match result {
      case None => return None;
      case Some(v) => return Some(sign * v);
    }
  }

  // ----- the round trip

  lemma {:induction false} WholeRun(s: string)
    requires forall i :: 0 <= i < |s| ==> IsDigit(s[i])
    ensures DigitRun(s) == s
  {
    if |s| == 0 {
    } else {
      WholeRun(s[1..]);
    }
  }

  lemma DecimalDigits(s: string)
    requires IsNumeral(s, 10)
    ensures forall i :: 0 <= i < |s| ==> IsDigit(s[i])
  {
    forall i | 0 <= i < |s|
      ensures IsDigit(s[i])
    {
      assert IsDigitOf(s[i], 10);
    }
  }

  lemma NoSpaces(s: string)
    requires |s| == 0 || !IsSpace(s[0])
    ensures SkipSpaces(s) == s
  {
  }

  /** A run of digits reads as its value behind a minus, or behind nothing. */
  lemma DigitsParse(negative: bool, s: string)
    requires |s| > 0 && forall i :: 0 <= i < |s| ==> IsDigit(s[i])
    ensures var v: int := Evaluate(s, 10);
            Parsed((if negative then "-" else "") + s) == if v > INT_MAX then None else Some(if negative then -v else v)
  {
    hide Evaluate, SkipSpaces, DigitRun, Unsigned;
    WholeRun(s);
    var text := (if negative then "-" else "") + s;
    BehindMinus(s);
    NoSpaces(text);
    assert !negative ==> text == s;
  }

  lemma BehindMinus(s: string)
    requires |s| > 0 && IsDigit(s[0])
    ensures Unsigned("-" + s) == s && Unsigned(s) == s
  {
  }

  /** The blanks of isspace: 9 to 13, and the space. */
  predicate AreBlanks(s: string) {
    forall k :: 0 <= k < |s| ==> s[k] == ' ' || 9 <= s[k] as int <= 13
  }

  lemma {:induction false} BlanksSkipped(s: string, t: string)
    requires AreBlanks(s) && |t| > 0 && !IsSpace(t[0])
    ensures SkipSpaces(s + t) == t
  {
    if |s| > 0 {
      assert (s + t)[1..] == s[1..] + t;
      BlanksSkipped(s[1..], t);
    } else {
      assert s + t == t;
    }
  }

  lemma {:induction false} RunUpTo(d: string, tail: string)
    requires (forall i :: 0 <= i < |d| ==> IsDigit(d[i])) && (|tail| > 0 ==> !IsDigit(tail[0]))
    ensures DigitRun(d + tail) == d
  {
    if |d| > 0 {
      assert (d + tail)[1..] == d[1..] + tail;
      RunUpTo(d[1..], tail);
    } else {
      assert d + tail == tail;
    }
  }

  lemma BehindSignParses(text: string, sign: string, rest: string)
    requires (sign == "" || sign == "+" || sign == "-") && |rest| > 0 && IsDigit(rest[0]) && SkipSpaces(text) == sign + rest
    ensures var v: int := Evaluate(DigitRun(rest), 10);
            Parsed(text) == if v > INT_MAX then None else Some(if sign == "-" then -v else v)
  {
    hide Evaluate, SkipSpaces, DigitRun;
    assert (sign + rest)[|sign|..] == rest;
    assert sign == "" ==> sign + rest == rest;
  }

  /** Blanks, one sign at most, and digits read as their number, whatever else stands behind them. */
  lemma ReadsNumber(blanks: string, sign: string, d: string, tail: string)
    requires AreBlanks(blanks) && (sign == "" || sign == "+" || sign == "-") && |d| > 0
    requires (forall i :: 0 <= i < |d| ==> '0' <= d[i] <= '9') && (|tail| > 0 ==> !('0' <= tail[0] <= '9'))
    ensures var v: int := Evaluate(d, 10);
            Parsed(blanks + (sign + (d + tail))) == if v > 0x7FFF_FFFF then None else Some(if sign == "-" then -v else v)
  {
    hide Evaluate, SkipSpaces, DigitRun, Parsed;
    BlanksSkipped(blanks, sign + (d + tail));
    RunUpTo(d, tail);
    BehindSignParses(blanks + (sign + (d + tail)), sign, d + tail);
  }

  /**
     Reading back what itoa wrote in base 10 gives the number itself for every 32-bit value but
     the least, whose magnitude overflows the reader's accumulator.
   */
  lemma RoundTripIff(v: int)
    requires INT_MIN <= v <= INT_MAX
    ensures Parsed(SignedText(v, 10)) == Some(v) <==> v != INT_MIN
    ensures Parsed(SignedText(INT_MIN, 10)) == None
  {
    MagnitudeParses(v);
    MagnitudeParses(INT_MIN);
  }

  lemma MagnitudeParses(v: int)
    requires INT_MIN <= v <= INT_MAX
    ensures Parsed(SignedText(v, 10)) == if v == INT_MIN then None else Some(v)
  {
    hide Numeral, Evaluate, IsNumeral, Parsed;
    var m := if v < 0 then -v else v;
    var s := Numeral(m, 10);
    NumeralEvaluates(m, 10);
    DecimalDigits(s);
    DigitsParse(v < 0, s);
    assert "" + s == s;
  }
}
