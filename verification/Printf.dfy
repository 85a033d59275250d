/**
 Bounded formatting: the kernel's snprintf, in the contract of section 7.19.6.5 of
 ISO/IEC 9899:1999 for the conversions it has. `Render` is the unbounded text of a format and its
 arguments; `Kvsnprintf` writes what fits of it in place.
 */
module Printf {
  import opened Conv
  import opened Wrappers
  import Words

  datatype Arg =
    | CharArg(c: char)
    | StrArg(s: Option<string>)
    | IntArg(i: int)
    | UIntArg(u: nat)
    | PtrArg(p: nat)

  // ----- directives

  /** The flag and width behind a '%', and where its conversion character is. */
  datatype Directive = Directive(zero: bool, width: nat, at: nat)

  function DirectiveOf(s: string): (d: Directive)
    ensures d.at <= |s|
  {
    hide Evaluate;
    var zero := |s| > 0 && s[0] == '0';
    var skip := if zero then 1 else 0;
    var run := DigitRun(s[skip..]);
    Directive(zero, Evaluate(run, 10), skip + |run|)
  }

  predicate Takes(conv: char) {
    conv in {'c', 's', 'd', 'i', 'u', 'x', 'X', 'p'}
  }

  predicate IsWord(v: nat) {
    v < Words.MODULUS
  }

  predicate Fits(conv: char, arg: Arg) {
    match arg
    case CharArg(_) => conv == 'c'
    case StrArg(s) => conv == 's' && (s.Some? ==> NUL !in s.value)
    case IntArg(i) => (conv == 'd' || conv == 'i') && INT_MIN <= i <= INT_MAX
    case UIntArg(u) => (conv == 'u' || conv == 'x' || conv == 'X') && IsWord(u)
    case PtrArg(p) => conv == 'p' && IsWord(p)
  }

  // ----- the unbounded text

  function Repeat(c: char, n: int): (s: string)
    ensures |s| == if n > 0 then n else 0
    ensures forall k :: 0 <= k < |s| ==> s[k] == c
  {
    seq(if n > 0 then n else 0, _ => c)
  }

  /** Zeros go behind the sign, spaces before it. */
  function Padded(sign: string, digits: string, width: nat, zero: bool): string {
    var missing := width - |sign| - |digits|;
    if zero then sign + Repeat('0', missing) + digits else Repeat(' ', missing) + sign + digits
  }

  function ToUpper(c: char): char {
    if 'a' <= c <= 'z' then (c as int - 32) as char else c
  }

  function Upper(s: string): (r: string)
    ensures |r| == |s| && forall k :: 0 <= k < |s| ==> r[k] == ToUpper(s[k])
  {
    seq(|s|, k requires 0 <= k < |s| => ToUpper(s[k]))
  }

  function Field(conv: char, zero: bool, width: nat, arg: Arg): string
    requires Fits(conv, arg)
  {
    match arg
    case CharArg(c) => [c]
    case StrArg(s) => if s.None? then "(null)" else s.value
    case IntArg(i) => Padded(if i < 0 then "-" else "", Numeral(if i < 0 then -i else i, 10), width, zero)
    case UIntArg(u) =>
      Padded("", if conv == 'u' then Numeral(u, 10) else if conv == 'x' then Numeral(u, 16) else Upper(Numeral(u, 16)), width, zero)
    case PtrArg(p) => "0x" + Padded("", Numeral(p, 16), width, zero)
  }

  function Plain(conv: char): string {
    if conv == '%' then "%" else ['%', conv]
  }

  // A format is read item by item: a character, or a '%' with its directive and conversion.

  /** The conversion of the item a format starts with; NUL when the format ends inside it. */
  function ConversionOf(fmt: string): char
    requires |fmt| > 0 && fmt[0] == '%'
  {
    var at := 1 + DirectiveOf(fmt[1..]).at;
    if at < |fmt| then fmt[at] else NUL
  }

  function ItemLength(fmt: string): (n: nat)
    requires |fmt| > 0
    ensures 0 < n <= |fmt|
  {
    if fmt[0] != '%' then 1
    else
      var at := 1 + DirectiveOf(fmt[1..]).at;
      if at < |fmt| then at + 1 else at
  }

  function ItemTakes(fmt: string): (n: nat)
    requires |fmt| > 0
    ensures n <= 1
  {
    if fmt[0] == '%' && Takes(ConversionOf(fmt)) then 1 else 0
  }

  /** The arguments begin with the one the item asks for, and its width is an int. */
  predicate ItemFits(fmt: string, args: seq<Arg>)
    requires |fmt| > 0
  {
    fmt[0] == '%' ==>
      && DirectiveOf(fmt[1..]).width <= INT_MAX
      && (Takes(ConversionOf(fmt)) ==> |args| > 0 && Fits(ConversionOf(fmt), args[0]))
  }

  /**
     A format that ends inside a directive adds nothing for it; an unknown conversion shows as
     itself behind a '%'.
   */
  function ItemText(fmt: string, args: seq<Arg>): string
    requires |fmt| > 0 && ItemFits(fmt, args)
  {
    if fmt[0] != '%' then [fmt[0]]
    else
      var d, conv := DirectiveOf(fmt[1..]), ConversionOf(fmt);
      if conv == NUL then ""
      else if Takes(conv) then Field(conv, d.zero, d.width, args[0])
      else Plain(conv)
  }

  /** The arguments are those the format asks for, and its widths are ints. */
  predicate Matches(fmt: string, args: seq<Arg>)
    decreases |fmt|
  {
    hide ItemText, ItemFits, ItemTakes, ItemLength;
    |fmt| == 0 ||
    (ItemFits(fmt, args) && ItemTakes(fmt) <= |args| && Matches(fmt[ItemLength(fmt)..], args[ItemTakes(fmt)..]))
  }

  /** The text of a format. */
  function Render(fmt: string, args: seq<Arg>): string
    requires Matches(fmt, args)
    decreases |fmt|
  {
    hide ItemText, ItemFits, ItemTakes, ItemLength;
    if |fmt| == 0 then ""
    else ItemText(fmt, args) + Render(fmt[ItemLength(fmt)..], args[ItemTakes(fmt)..])
  }

  // ----- laws of the text

  /** The format does not end inside a directive. */
  predicate Complete(fmt: string)
    decreases |fmt|
  {
    |fmt| == 0 || ((fmt[0] == '%' ==> ConversionOf(fmt) != NUL) && Complete(fmt[ItemLength(fmt)..]))
  }

  /** How many arguments a format takes. */
  function Consumes(fmt: string): nat
    decreases |fmt|
  {
    if |fmt| == 0 then 0 else ItemTakes(fmt) + Consumes(fmt[ItemLength(fmt)..])
  }

  lemma {:induction false} RunStops(s: string, t: string)
    requires |DigitRun(s)| < |s|
    ensures DigitRun(s + t) == DigitRun(s)
  {
    assert (s + t)[0] == s[0];
    if IsDigit(s[0]) {
      assert (s + t)[1..] == s[1..] + t;
      RunStops(s[1..], t);
    }
  }

  lemma DirectiveStops(s: string, t: string)
    requires DirectiveOf(s).at < |s|
    ensures DirectiveOf(s + t) == DirectiveOf(s)
  {
    hide Evaluate;
    var skip := if |s| > 0 && s[0] == '0' then 1 else 0;
    assert (s + t)[skip..] == s[skip..] + t;
    RunStops(s[skip..], t);
  }

  /** What stands behind a complete first item does not change it. */
  lemma ItemStops(f: string, a: seq<Arg>, g: string, b: seq<Arg>)
    requires |f| > 0 && (f[0] == '%' ==> ConversionOf(f) != NUL) && ItemFits(f, a) && ItemTakes(f) <= |a|
    ensures ItemLength(f + g) == ItemLength(f) && ItemTakes(f + g) == ItemTakes(f)
    ensures ItemFits(f + g, a + b) && ItemText(f + g, a + b) == ItemText(f, a)
  {
    hide DirectiveOf, Field, Fits, Takes, Plain;
    if f[0] == '%' {
      assert (f + g)[1..] == f[1..] + g;
      DirectiveStops(f[1..], g);
    }
  }

  lemma DropAppended<T>(s: seq<T>, t: seq<T>, n: nat)
    requires n <= |s|
    ensures (s + t)[n..] == s[n..] + t
  {
  }

  /** Formatting is piecewise: a format put behind a complete one renders behind it. */
  lemma {:induction false} RenderAppends(f: string, a: seq<Arg>, g: string, b: seq<Arg>)
    requires Complete(f) && Matches(f, a) && Consumes(f) == |a|
    requires Matches(g, b)
    ensures Matches(f + g, a + b) && Render(f + g, a + b) == Render(f, a) + Render(g, b)
    decreases |f|
  {
    hide ItemLength, ItemTakes, ItemFits, ItemText, ConversionOf;
    if |f| == 0 {
      assert f + g == g && a + b == b;
    } else {
      var n, k := ItemLength(f), ItemTakes(f);
      ItemStops(f, a, g, b);
      RenderAppends(f[n..], a[k..], g, b);
      DropAppended(f, g, n);
      DropAppended(a, b, k);
      assert Render(f, a) == ItemText(f, a) + Render(f[n..], a[k..]);
    }
  }

  lemma {:induction false} LiteralRendersItself(fmt: string, args: seq<Arg>)
    requires '%' !in fmt
    ensures Matches(fmt, args) && Render(fmt, args) == fmt
  {
    if |fmt| == 0 {
    } else {
      LiteralRendersItself(fmt[1..], args);
    }
  }

  /** A number fills its width, and no more than it needs beyond. */
  lemma PaddedLength(sign: string, digits: string, width: nat, zero: bool)
    ensures |Padded(sign, digits, width, zero)| == if |sign| + |digits| < width then width else |sign| + |digits|
  {
  }

  lemma {:induction false} ZerosInFront(n: nat, s: string, base: nat)
    ensures Evaluate(Repeat('0', n) + s, base) == Evaluate(s, base)
    decreases n + |s|
  {
    var t := Repeat('0', n) + s;
    if |s| > 0 {
      ZerosInFront(n, Front(s), base);
      assert Front(t) == Repeat('0', n) + Front(s) && Last(t) == Last(s);
    } else if n > 0 {
      ZerosInFront(n - 1, s, base);
      assert Front(t) == Repeat('0', n - 1) + s && Last(t) == '0';
      assert Evaluate(Front(t), base) == 0;
    }
  }

  lemma {:induction false} SpacesInFront(n: nat, s: string)
    ensures SkipSpaces(Repeat(' ', n) + s) == SkipSpaces(s)
    decreases n
  {
    var t := Repeat(' ', n) + s;
    if n > 0 {
      SpacesInFront(n - 1, s);
      assert t[1..] == Repeat(' ', n - 1) + s;
    } else {
      assert t == s;
    }
  }

  /**
     Whatever the padding, a number printed in decimal reads back as itself, but for the least
     int, which the reader cannot hold.
   */
  lemma PaddedReadsBack(i: int, width: nat, zero: bool)
    requires INT_MIN <= i <= INT_MAX
    ensures Parsed(Field('d', zero, width, IntArg(i))) == if i == INT_MIN then None else Some(i)
  {
    hide Numeral, Evaluate, IsNumeral, Parsed;
    var m := if i < 0 then -i else i;
    var sign, digits := if i < 0 then "-" else "", Numeral(m, 10);
    var missing := width - |sign| - |digits|;
    NumeralEvaluates(m, 10);
    DecimalDigits(digits);
    if zero {
      var s := Repeat('0', missing) + digits;
      ZerosInFront(|Repeat('0', missing)|, digits, 10);
      DigitsParse(i < 0, s);
      assert sign + s == sign + Repeat('0', missing) + digits;
    } else {
      MagnitudeParses(i);
      SpacesParse(|Repeat(' ', missing)|, SignedText(i, 10));
      assert Repeat(' ', missing) + sign + digits == Repeat(' ', missing) + (sign + digits);
      assert i >= 0 ==> sign + digits == digits;
    }
  }

  lemma SpacesParse(n: nat, s: string)
    ensures Parsed(Repeat(' ', n) + s) == Parsed(s)
  {
    SpacesInFront(n, s);
  }

  // ----- what each conversion prints

  function ToLower(c: char): char {
    if 'A' <= c <= 'Z' then (c as int + 32) as char else c
  }

  function Lower(s: string): (r: string)
    ensures |r| == |s| && forall k :: 0 <= k < |s| ==> r[k] == ToLower(s[k])
  {
    seq(|s|, k requires 0 <= k < |s| => ToLower(s[k]))
  }

  /** Digits of a base in one case, which evaluate to v. */
  predicate AreDigitsOf(d: string, v: nat, base: nat, upper: bool) {
    && |d| > 0 && Evaluate(Lower(d), base) == v
    && forall k :: 0 <= k < |d| ==> IsDigitOf(ToLower(d[k]), base) && if upper then !('a' <= d[k] <= 'z') else !('A' <= d[k] <= 'Z')
  }

  /**
   The text is spaces, the sign, and digits that evaluate to v; it fills the width, has no padding
   beyond that, and pads with zeros behind the sign or with spaces before it.
   */
  predicate Shows(text: string, sign: string, v: nat, base: nat, upper: bool, width: nat, zero: bool) {
    var t := SkipSpaces(text);
    && |text| >= width && (forall k :: 0 <= k < |text| - |t| ==> text[k] == ' ')
    && sign <= t && AreDigitsOf(t[|sign|..], v, base, upper)
    && (if zero then t == text else NoExtraZero(t[|sign|..]))
    && (|text| > width ==> t == text && NoExtraZero(t[|sign|..]))
  }

  predicate NoExtraZero(d: string) {
    |d| > 0 && (d[0] == '0' ==> |d| == 1)
  }

  lemma {:induction false} SpacesSkipped(n: nat, s: string)
    requires |s| > 0 && !IsSpace(s[0])
    ensures SkipSpaces(Repeat(' ', n) + s) == s
  {
    SpacesInFront(n, s);
    NoSpaces(s);
  }

  lemma ZerosAreDigits(n: nat, d: string, v: nat, base: nat, upper: bool)
    requires IsBase(base) && AreDigitsOf(d, v, base, upper)
    ensures AreDigitsOf(Repeat('0', n) + d, v, base, upper)
  {
    assert Lower(Repeat('0', n) + d) == Repeat('0', n) + Lower(d);
    ZerosInFront(n, Lower(d), base);
  }

  lemma SignThenDigits(n: nat, sign: string, d: string, v: nat, base: nat, upper: bool)
    requires (sign == "" || sign == "-") && AreDigitsOf(d, v, base, upper)
    ensures (sign + d)[|sign|..] == d && sign <= sign + d && SkipSpaces(Repeat(' ', n) + (sign + d)) == sign + d
  {
    hide AreDigitsOf, SkipSpaces;
    FirstDigit(d, v, base, upper);
    SpacesSkipped(n, sign + d);
  }

  lemma ZerosShow(sign: string, digits: string, v: nat, base: nat, upper: bool, width: nat)
    requires IsBase(base) && (sign == "" || sign == "-") && AreDigitsOf(digits, v, base, upper) && NoExtraZero(digits)
    ensures Shows(Padded(sign, digits, width, true), sign, v, base, upper, width, true)
  {
    hide AreDigitsOf, SkipSpaces;
    var zeros := Repeat('0', width - |sign| - |digits|);
    ZerosAreDigits(|zeros|, digits, v, base, upper);
    SignThenDigits(0, sign, zeros + digits, v, base, upper);
    assert Repeat(' ', 0) + (sign + (zeros + digits)) == sign + zeros + digits;
    assert |zeros| == 0 ==> zeros + digits == digits;
  }

  lemma SpacesShow(sign: string, digits: string, v: nat, base: nat, upper: bool, width: nat)
    requires IsBase(base) && (sign == "" || sign == "-") && AreDigitsOf(digits, v, base, upper) && NoExtraZero(digits)
    ensures Shows(Padded(sign, digits, width, false), sign, v, base, upper, width, false)
  {
    hide AreDigitsOf, SkipSpaces;
    var spaces := Repeat(' ', width - |sign| - |digits|);
    SignThenDigits(|spaces|, sign, digits, v, base, upper);
    assert spaces + sign + digits == spaces + (sign + digits);
    assert |spaces| == 0 ==> spaces + (sign + digits) == sign + digits;
  }

  lemma PaddedShows(sign: string, digits: string, v: nat, base: nat, upper: bool, width: nat, zero: bool)
    requires IsBase(base) && (sign == "" || sign == "-") && AreDigitsOf(digits, v, base, upper) && NoExtraZero(digits)
    ensures Shows(Padded(sign, digits, width, zero), sign, v, base, upper, width, zero)
  {
    if zero {
      ZerosShow(sign, digits, v, base, upper, width);
    } else {
      SpacesShow(sign, digits, v, base, upper, width);
    }
  }

  lemma FirstDigit(d: string, v: nat, base: nat, upper: bool)
    requires AreDigitsOf(d, v, base, upper)
    ensures |d| > 0 && !IsSpace(d[0])
  {
    assert IsDigitOf(ToLower(d[0]), base);
  }

  lemma NumeralShows(v: nat, base: nat)
    requires IsBase(base)
    ensures AreDigitsOf(Numeral(v, base), v, base, false) && NoExtraZero(Numeral(v, base))
    ensures AreDigitsOf(Upper(Numeral(v, base)), v, base, true) && NoExtraZero(Upper(Numeral(v, base)))
  {
    hide Evaluate, Numeral;
    var d := Numeral(v, base);
    NumeralEvaluates(v, base);
    assert forall k :: 0 <= k < |d| ==> IsDigitOf(d[k], base);
    assert Lower(d) == d && Lower(Upper(d)) == d;
  }

  /** A directive: '%', the zero flag, a width unless it is 0, and the conversion. */
  function Spec(zero: bool, width: nat, conv: char): string {
    "%" + (if zero then "0" else "") + (if width == 0 then "" else Numeral(width, 10)) + [conv]
  }

  lemma DirectiveBehindFlag(zero: bool, rest: string)
    requires |rest| > 0 && rest[0] != '0'
    ensures DirectiveOf((if zero then "0" else "") + rest)
            == Directive(zero, Evaluate(DigitRun(rest), 10), (if zero then 1 else 0) + |DigitRun(rest)|)
  {
    hide Evaluate, DigitRun;
    var s := (if zero then "0" else "") + rest;
    assert s[if zero then 1 else 0..] == rest;
  }

  lemma DirectiveOfSpec(zero: bool, width: nat, conv: char)
    requires !IsDigit(conv)
    ensures var s := Spec(zero, width, conv); DirectiveOf(s[1..]) == Directive(zero, width, |s| - 2) && s[|s| - 1] == conv
  {
    hide Evaluate, Numeral, DigitRun, DirectiveOf;
    var digits := if width == 0 then "" else Numeral(width, 10);
    var s := Spec(zero, width, conv);
    WidthRun(width, [conv]);
    DirectiveBehindFlag(zero, digits + [conv]);
    assert s[1..] == (if zero then "0" else "") + (digits + [conv]);
  }

  lemma WidthRun(width: nat, tail: string)
    requires |tail| > 0 && !IsDigit(tail[0])
    ensures var digits := if width == 0 then "" else Numeral(width, 10);
            && DigitRun(digits + tail) == digits && Evaluate(digits, 10) == width
            && digits + tail != "" && (digits + tail)[0] != '0'
  {
    if width == 0 {
      assert "" + tail == tail;
    } else {
      hide Evaluate, Numeral;
      var digits := Numeral(width, 10);
      NumeralEvaluates(width, 10);
      DecimalDigits(digits);
      RunUpTo(digits, tail);
    }
  }

  /** A format of one directive takes one argument and renders to its field. */
  lemma OneDirective(zero: bool, width: nat, conv: char, arg: Arg)
    requires width <= INT_MAX && Fits(conv, arg)
    ensures var s := Spec(zero, width, conv);
            Complete(s) && Consumes(s) == 1 && Matches(s, [arg]) && Render(s, [arg]) == Field(conv, zero, width, arg)
  {
    var s := Spec(zero, width, conv);
    DirectiveOfSpec(zero, width, conv);
    hide Spec, DirectiveOf, Field;
    assert s[|s|..] == "" && [arg][1..] == [];
    assert Render("", []) == "";
  }

  /** %d and %i print in base 10 with a minus, in any width and padding. */
  lemma PrintsSigned(zero: bool, width: nat, conv: char, i: int)
    requires (conv == 'd' || conv == 'i') && width <= INT_MAX && INT_MIN <= i <= INT_MAX
    ensures Matches(Spec(zero, width, conv), [IntArg(i)])
    ensures Shows(Render(Spec(zero, width, conv), [IntArg(i)]), if i < 0 then "-" else "", if i < 0 then -i else i,
                  10, false, width, zero)
  {
    OneDirective(zero, width, conv, IntArg(i));
    hide Spec, Padded, Shows, Render, Matches;
    NumeralShows(if i < 0 then -i else i, 10);
    PaddedShows(if i < 0 then "-" else "", Numeral(if i < 0 then -i else i, 10), if i < 0 then -i else i, 10, false, width, zero);
  }

  /** %u prints in base 10, %x in base 16 and %X in base 16 in upper case. */
  lemma PrintsUnsigned(zero: bool, width: nat, conv: char, u: nat)
    requires (conv == 'u' || conv == 'x' || conv == 'X') && width <= INT_MAX && u < 0x1_0000_0000
    ensures Matches(Spec(zero, width, conv), [UIntArg(u)])
    ensures Shows(Render(Spec(zero, width, conv), [UIntArg(u)]), "", u, if conv == 'u' then 10 else 16, conv == 'X', width, zero)
  {
    OneDirective(zero, width, conv, UIntArg(u));
    hide Spec, Padded, Shows, Render, Matches;
    var base := if conv == 'u' then 10 else 16;
    NumeralShows(u, base);
    PaddedShows("", if conv == 'X' then Upper(Numeral(u, base)) else Numeral(u, base), u, base, conv == 'X', width, zero);
  }

  /** %p prints "0x" and then base 16; the width counts from behind the "0x". */
  lemma PrintsPointer(zero: bool, width: nat, p: nat)
    requires width <= INT_MAX && p < 0x1_0000_0000
    ensures Matches(Spec(zero, width, 'p'), [PtrArg(p)])
    ensures var text := Render(Spec(zero, width, 'p'), [PtrArg(p)]);
            "0x" <= text && Shows(text[2..], "", p, 16, false, width, zero)
  {
    OneDirective(zero, width, 'p', PtrArg(p));
    hide Spec, Padded, Shows, Render, Matches;
    NumeralShows(p, 16);
    PaddedShows("", Numeral(p, 16), p, 16, false, width, zero);
    var field := Padded("", Numeral(p, 16), width, zero);
    assert ("0x" + field)[2..] == field;
  }

  /** %c prints the character and %s the string, whatever the width; a null string shows as "(null)". */
  lemma PrintsText(zero: bool, width: nat, c: char, s: string)
    requires width <= INT_MAX && NUL !in s
    ensures Matches(Spec(zero, width, 'c'), [CharArg(c)]) && Render(Spec(zero, width, 'c'), [CharArg(c)]) == [c]
    ensures Matches(Spec(zero, width, 's'), [StrArg(Some(s))]) && Render(Spec(zero, width, 's'), [StrArg(Some(s))]) == s
    ensures Matches(Spec(zero, width, 's'), [StrArg(None)]) && Render(Spec(zero, width, 's'), [StrArg(None)]) == "(null)"
  {
    OneDirective(zero, width, 'c', CharArg(c));
    OneDirective(zero, width, 's', StrArg(Some(s)));
    OneDirective(zero, width, 's', StrArg(None));
  }

  /** "%%" prints a '%'; a character that is no conversion shows as itself behind a '%'; neither takes an argument. */
  lemma PrintsPlain(zero: bool, width: nat, conv: char, args: seq<Arg>)
    requires width <= INT_MAX && !IsDigit(conv) && conv != NUL && conv !in "csdiuxXp"
    ensures Matches(Spec(zero, width, conv), args)
    ensures Render(Spec(zero, width, conv), args) == if conv == '%' then "%" else ['%', conv]
  {
    var s := Spec(zero, width, conv);
    DirectiveOfSpec(zero, width, conv);
    hide Spec, DirectiveOf;
    NoConversion(conv);
    assert s[|s|..] == "" && args[0..] == args;
    assert Render("", args) == "";
  }

  lemma NoConversion(conv: char)
    requires conv !in "csdiuxXp"
    ensures !Takes(conv)
  {
    assert forall c :: c in "csdiuxXp" <==> c in ['c', 's', 'd', 'i', 'u', 'x', 'X', 'p'];
  }

  // ----- writing what fits

  function Kept(size: nat, text: string): (k: nat)
    ensures k <= |text| && k <= size && (size > 0 ==> k < size)
  {
    if size == 0 then 0 else if |text| < size then |text| else size - 1
  }

  /** The buffer `was` holds what fits of `text` before the place of the last NUL, and nothing else of it changed. */
  ghost predicate Holds(buf: seq<char>, was: seq<char>, size: nat, text: string) {
    size <= |was| && buf == Overwritten(was, 0, text[..Kept(size, text)])
  }

  lemma HoldsOneMore(was: seq<char>, size: nat, text: string, c: char)
    requires size <= |was|
    ensures var now, more := Overwritten(was, 0, text[..Kept(size, text)]), text + [c];
            Overwritten(was, 0, more[..Kept(size, more)]) == if |text| + 1 < size then now[|text| := c] else now
  {
    var more := text + [c];
    if |text| + 1 < size {
      assert more[..|text|] == text && more[..|text| + 1] == more;
    } else {
      assert more[..Kept(size, more)] == text[..Kept(size, text)];
    }
  }

  method PutC(buf: array<char>, size: nat, total: nat, c: char, ghost was: seq<char>, ghost text: string) returns (t: nat)
    requires |text| == total && Holds(buf[..], was, size, text)
    modifies buf
    ensures t == |text + [c]| && Holds(buf[..], was, size, text + [c])
  {
    hide Overwritten, Kept;
    HoldsOneMore(was, size, text, c);
    OverwrittenLength(was, text[..Kept(size, text)]);
    if total + 1 < size {
      buf[total] := c;
    }
    t := total + 1;
  }

  lemma OverwrittenLength(was: seq<char>, text: string)
    requires |text| <= |was|
    ensures |Overwritten(was, 0, text)| == |was|
  {
  }

  /** Writes a C string: the characters of the array before its first NUL. */
  method PutS(buf: array<char>, size: nat, total: nat, s: string, ghost was: seq<char>, ghost text: string) returns (t: nat)
    requires |text| == total && Holds(buf[..], was, size, text)
    modifies buf
    ensures t == |text + s| && Holds(buf[..], was, size, text + s)
  {
    hide Holds;
    t := total;
    var i := 0;
    assert text + s[..0] == text;
    while i < |s|
      invariant i <= |s| && t == |text + s[..i]| && Holds(buf[..], was, size, text + s[..i])
    {
      assert text + s[..i] + [s[i]] == text + s[..i + 1];
      t := PutC(buf, size, t, s[i], was, text + s[..i]);
      i := i + 1;
    }
    assert s[..i] == s;
  }

  method PutRepeated(buf: array<char>, size: nat, total: nat, c: char, field: nat, width: nat,
                     ghost was: seq<char>, ghost text: string) returns (t: nat)
    requires |text| == total && Holds(buf[..], was, size, text)
    modifies buf
    ensures t == |text + Repeat(c, width - field)| && Holds(buf[..], was, size, text + Repeat(c, width - field))
  {
    hide Holds;
    t := total;
    var i := field;
    assert text + Repeat(c, 0) == text;
    while i < width
      invariant field <= i && (i <= width || i == field)
      invariant t == |text + Repeat(c, i - field)| && Holds(buf[..], was, size, text + Repeat(c, i - field))
    {
      assert text + Repeat(c, i - field) + [c] == text + Repeat(c, i + 1 - field);
      t := PutC(buf, size, t, c, was, text + Repeat(c, i - field));
      i := i + 1;
    }
    assert width <= field ==> Repeat(c, width - field) == Repeat(c, 0);
  }

  method EmitNum(buf: array<char>, size: nat, total: nat, digits: string, sign: Option<char>, width: nat, zero: bool,
                 ghost was: seq<char>, ghost text: string) returns (t: nat)
    requires |text| == total && Holds(buf[..], was, size, text)
    modifies buf
    ensures var field := Padded(if sign.Some? then [sign.value] else "", digits, width, zero);
            t == |text + field| && Holds(buf[..], was, size, text + field)
  {
    hide Holds, Repeat;
    var len := |digits|;
    var field := len + if sign.Some? then 1 else 0;
    ghost var now, lead := text, if sign.Some? then [sign.value] else "";
    ghost var pad := Repeat(if zero then '0' else ' ', width - field);
    t := total;
    assert now + "" == now && now + pad + "" == now + pad;
    if zero {
      if sign.Some? {
        t := PutC(buf, size, t, sign.value, was, now);
      }
      now := text + lead;
      t := PutRepeated(buf, size, t, '0', field, width, was, now);
      now := now + pad;
    } else {
      t := PutRepeated(buf, size, t, ' ', field, width, was, now);
      now := now + pad;
      if sign.Some? {
        t := PutC(buf, size, t, sign.value, was, now);
      }
      now := now + lead;
    }
    t := PutS(buf, size, t, digits, was, now);
    assert now + digits == text + Padded(lead, digits, width, zero);
  }

  // ----- numbers through a scratch buffer

  /** A C string in an array: its characters and a NUL. */
  predicate HoldsText(a: seq<char>, text: string) {
    |text| < |a| && a[..|text|] == text && a[|text|] == NUL && NUL !in text
  }

  lemma WroteText(now: seq<char>, was: seq<char>, text: string)
    requires Wrote(now, was, 0, text) && NUL !in text
    ensures HoldsText(now, text)
  {
  }

  lemma NumeralHasNoNul(v: nat, base: nat)
    requires IsBase(base)
    ensures NUL !in Numeral(v, base)
  {
    NumeralEvaluates(v, base);
    assert forall i :: 0 <= i < |Numeral(v, base)| ==> IsDigitOf(Numeral(v, base)[i], base);
  }

  method TextIn(a: array<char>, ghost text: string) returns (s: string)
    requires HoldsText(a[..], text)
    ensures s == text
  {
    assert forall k :: 0 <= k < |text| ==> a[k] == a[..|text|][k] == text[k] && text[k] in text;
    var len := 0;
    while a[len] != NUL
      invariant len <= |text|
      decreases |text| - len
    {
      len := len + 1;
    }
    s := a[..len];
  }

  method UpperInPlace(a: array<char>, ghost text: string)
    requires HoldsText(a[..], text)
    modifies a
    ensures HoldsText(a[..], Upper(text))
  {
    var q := 0;
    while a[q] != NUL
      invariant q <= |text| && a[|text|] == NUL
      invariant forall k :: 0 <= k < |text| ==> a[k] == if k < q then ToUpper(text[k]) else text[k]
      decreases |text| - q
    {
      a[q] := ToUpper(a[q]);
      q := q + 1;
    }
    forall k | 0 <= k < |text|
      ensures ToUpper(text[k]) != NUL
    {
      assert text[k] in text;
    }
  }

  method NumberText(v: nat, numbuf: array<char>, base: nat, upper: bool) returns (s: string)
    requires IsWord(v) && IsBase(base) && numbuf.Length == 33
    modifies numbuf
    ensures s == if upper then Upper(Numeral(v, base)) else Numeral(v, base)
  {
    hide Numeral, Wrote, HoldsText;
    TextFits(v, base);
    NumeralHasNoNul(v, base);
    ghost var was, text := numbuf[..], Numeral(v, base);
    assert text == UnsignedText(v, base);
    Utoa(v, numbuf, 0, base);
    WroteText(numbuf[..], was, text);
    if upper {
      UpperInPlace(numbuf, text);
      text := Upper(text);
    }
    s := TextIn(numbuf, text);
  }

  method Convert(buf: array<char>, size: nat, total: nat, conv: char, zero: bool, width: nat, arg: Arg, numbuf: array<char>,
                 ghost was: seq<char>, ghost text: string) returns (t: nat)
    requires Fits(conv, arg) && numbuf != buf && numbuf.Length == 33
    requires |text| == total && Holds(buf[..], was, size, text)
    modifies buf, numbuf
    ensures t == |text + Field(conv, zero, width, arg)| && Holds(buf[..], was, size, text + Field(conv, zero, width, arg))
  {
    hide Holds, Numeral, Padded, Upper;
    match arg {
      case CharArg(c) =>
        t := PutC(buf, size, total, c, was, text);
      case StrArg(s) =>
        t := PutS(buf, size, total, if s.None? then "(null)" else s.value, was, text);
      case IntArg(v) =>
        var sign: Option<char>, mag := None, v % Words.MODULUS;
        if v < 0 {
          sign, mag := Some('-'), (Words.MODULUS - 1 - v % Words.MODULUS + 1) % Words.MODULUS;
        }
        assert mag == if v < 0 then -v else v;
        var digits := NumberText(mag, numbuf, 10, false);
        t := EmitNum(buf, size, total, digits, sign, width, zero, was, text);
        assert (if sign.Some? then [sign.value] else "") == if v < 0 then "-" else "";
      case UIntArg(v) =>
        var digits := NumberText(v, numbuf, if conv == 'u' then 10 else 16, conv == 'X');
        t := EmitNum(buf, size, total, digits, None, width, zero, was, text);
      case PtrArg(v) =>
        t := PutS(buf, size, total, "0x", was, text);
        var digits := NumberText(v, numbuf, 16, false);
        t := EmitNum(buf, size, t, digits, None, width, zero, was, text + "0x");
        assert text + "0x" + Padded("", digits, width, zero) == text + Field(conv, zero, width, arg);
    }
  }

  // ----- the scan

  /** Reads a width at p; it stays in int while its whole run of digits does. */
  method ScanWidth(fmt: string, p: nat) returns (width: nat, q: nat)
    requires NUL !in fmt && p <= |fmt| && Evaluate(DigitRun(fmt[p..]), 10) <= INT_MAX
    ensures q == p + |DigitRun(fmt[p..])| && width == Evaluate(DigitRun(fmt[p..]), 10)
  {
    ghost var run := DigitRun(fmt[p..]);
    var s := fmt + [NUL];
    width, q := 0, p;
    while IsDigit(s[q])
      invariant p <= q <= |fmt| && q - p <= |run| && width == Evaluate(run[..q - p], 10) <= INT_MAX
      decreases |fmt| - q
    {
      ghost var n := q - p;
      assert n < |run| && run[n] == s[q];
      assert Front(run[..n + 1]) == run[..n] && Last(run[..n + 1]) == run[n];
      PrefixSmaller(run, n + 1);
      width := width * 10 + (s[q] as int - '0' as int);
      q := q + 1;
    }
    assert q - p == |run| && run[..q - p] == run;
  }

  /** Reads a directive behind a '%' at p. */
  method ScanDirective(fmt: string, p: nat) returns (zero: bool, width: nat, q: nat)
    requires NUL !in fmt && p <= |fmt| && DirectiveOf(fmt[p..]).width <= INT_MAX
    ensures p <= q <= |fmt| && DirectiveOf(fmt[p..]) == Directive(zero, width, q - p)
  {
    hide Evaluate, DigitRun;
    var s := fmt + [NUL];
    q := p;
    zero := false;
    if s[q] == '0' {
      zero := true;
      q := q + 1;
    }
    assert fmt[q..] == fmt[p..][q - p..];
    width, q := ScanWidth(fmt, q);
  }

  /** One turn of the main loop: writes the item at p and steps over it. */
  method PutItem(buf: array<char>, size: nat, total: nat, fmt: string, p: nat, args: seq<Arg>, a: nat, numbuf: array<char>,
                 ghost was: seq<char>, ghost text: string) returns (t: nat, p': nat, a': nat)
    requires NUL !in fmt && p < |fmt| && a <= |args| && ItemFits(fmt[p..], args[a..])
    requires numbuf != buf && numbuf.Length == 33
    requires |text| == total && Holds(buf[..], was, size, text)
    modifies buf, numbuf
    ensures p' == p + ItemLength(fmt[p..]) && a' == a + ItemTakes(fmt[p..])
    ensures var more := text + ItemText(fmt[p..], args[a..]); t == |more| && Holds(buf[..], was, size, more)
  {
    hide Holds, DirectiveOf, Field;
    ghost var item, more := fmt[p..], text + ItemText(fmt[p..], args[a..]);
    p', a' := p, a;
    if fmt[p] != '%' {
      t := PutC(buf, size, total, fmt[p], was, text);
      p' := p' + 1;
      return;
    }
    p' := p' + 1;
    assert item[1..] == fmt[p'..];
    var zero, width, q := ScanDirective(fmt, p');
    p' := q;
    var s := fmt + [NUL];
    var conv := s[p'];
    t := total;
    assert conv == ConversionOf(item) by {
      assert p' < |fmt| ==> item[p' - p] == fmt[p'] && fmt[p'] in fmt;
    }
    if conv == NUL {
      p' := p' - 1;
      assert more == text;
    } else if Takes(conv) {
      t := Convert(buf, size, t, conv, zero, width, args[a], numbuf, was, text);
      a' := a' + 1;
    } else if conv == '%' {
      t := PutC(buf, size, t, '%', was, text);
    } else {
      t := PutC(buf, size, t, '%', was, text);
      t := PutC(buf, size, t, conv, was, text + ['%']);
      assert text + ['%'] + [conv] == more;
    }
    p' := p' + 1;
  }

  lemma RenderStep(fmt: string, p: nat, args: seq<Arg>, a: nat)
    requires p < |fmt| && a <= |args| && Matches(fmt[p..], args[a..])
    ensures ItemFits(fmt[p..], args[a..])
    ensures var n, k := p + ItemLength(fmt[p..]), a + ItemTakes(fmt[p..]);
            k <= |args| && n <= |fmt| && Matches(fmt[n..], args[k..])
            && Render(fmt[p..], args[a..]) == ItemText(fmt[p..], args[a..]) + Render(fmt[n..], args[k..])
  {
    hide ItemFits, ItemLength, ItemText, ItemTakes;
    var f, b := fmt[p..], args[a..];
    assert f[ItemLength(f)..] == fmt[p + ItemLength(f)..] && b[ItemTakes(f)..] == args[a + ItemTakes(f)..];
  }

  /**
     Formats into the first `size` places of a buffer, in place. The result is the length of the
     whole text; of it, what fits is written and closed by a NUL, and nothing at or past `size`
     changes. The scan reads no character of the format behind its NUL.
   */
  method Kvsnprintf(buf: array<char>, size: nat, fmt: string, args: seq<Arg>) returns (total: nat)
    requires size <= buf.Length && NUL !in fmt && Matches(fmt, args) && |Render(fmt, args)| <= INT_MAX
    modifies buf
    ensures total == |Render(fmt, args)|
    ensures size == 0 ==> buf[..] == old(buf[..])
    ensures size > 0 ==> Wrote(buf[..], old(buf[..]), 0, Render(fmt, args)[..Kept(size, Render(fmt, args))])
  {
    hide Holds, Overwritten, Kept, ItemFits, ItemText, ItemTakes, ItemLength, Render, Matches;
    ghost var was, text := buf[..], "";
    HoldsNothing(was, size);
    total := 0;
    var numbuf := new char[33];
    var s, p, a := fmt + [NUL], 0, 0;
    assert fmt[0..] == fmt && args[0..] == args && text + Render(fmt, args) == Render(fmt, args);
    while s[p] != NUL
      invariant 0 <= p <= |fmt| && 0 <= a <= |args| && Matches(fmt[p..], args[a..]) && buf.Length == |was|
      invariant Render(fmt, args) == text + Render(fmt[p..], args[a..])
      invariant total == |text| && Holds(buf[..], was, size, text)
      decreases |fmt| - p
    {
      RenderStep(fmt, p, args, a);
      ghost var item := ItemText(fmt[p..], args[a..]);
      ghost var rest := Render(fmt[p + ItemLength(fmt[p..])..], args[a + ItemTakes(fmt[p..])..]);
      assert text + (item + rest) == text + item + rest;
      total, p, a := PutItem(buf, size, total, fmt, p, args, a, numbuf, was, text);
      text := text + item;
    }
    RenderEnds(fmt[p..], args[a..]);
    assert text + "" == text;
    HoldsClosed(buf[..], was, size, text);
    if size > 0 {
      buf[if total < size then total else size - 1] := NUL;
    }
  }

  lemma RenderEnds(fmt: string, args: seq<Arg>)
    requires fmt == "" && Matches(fmt, args)
    ensures Render(fmt, args) == ""
  {
  }

  lemma HoldsNothing(was: seq<char>, size: nat)
    requires size <= |was|
    ensures Holds(was, was, size, "")
  {
  }

  lemma HoldsClosed(buf: seq<char>, was: seq<char>, size: nat, text: string)
    requires Holds(buf, was, size, text)
    ensures |buf| == |was| && (size == 0 ==> buf == was)
    ensures size > 0 ==>
              Wrote(buf[(if |text| < size then |text| else size - 1) := NUL], was, 0, text[..Kept(size, text)])
  {
    if size > 0 {
      var kept := text[..Kept(size, text)];
      assert buf[|kept| := NUL] == Overwritten(was, 0, kept + [NUL]);
    }
  }
}
