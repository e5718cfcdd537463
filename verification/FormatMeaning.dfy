/** What vsprintf prints, read off the text: sign, prefix, digits and padding of numbers, and where characters and
    strings stand in their fields, for every directive and every argument. */
module FormatMeaning {
  import opened Machine
  import opened NumberFormat
  import opened FormatStrings
  import opened FormatRoundTrip

  // ---------------------------------------------------------------------------------------------
  // Formats put together

  /** What vsprintf prints for a format of one directive. */
  function Printed(d: Directive, args: seq<Arg>): Option<string>
    requires Writable(Conversion(d))
  {
    FormatRoundTrips([Conversion(d)]);
    Prints(Items(Format([Conversion(d)]) + [NUL], 0), args)
  }

  /** The arguments that items leave over, if they match. */
  function Leftover(items: seq<Item>, args: seq<Arg>): seq<Arg>
    decreases |items|
  {
    if items == [] then args
    else
      match items[0]
      case Literal(c) => Leftover(items[1..], args)
      case Conversion(d) =>
        match DirectivePrints(d, args)
        case None => args
        case Some((text, rest)) => Leftover(items[1..], rest)
  }

  lemma Alone(d: Directive, args: seq<Arg>)
    requires Writable(Conversion(d))
    ensures Printed(d, args) == Prints([Conversion(d)], args) ==
      match DirectivePrints(d, args) case None => None case Some((text, rest)) => Some(text)
    ensures DirectivePrints(d, args).Some? ==> Leftover([Conversion(d)], args) == DirectivePrints(d, args).value.1
  {
    hide DirectivePrints;
    var xs := [Conversion(d)];
    FormatRoundTrips(xs);
    assert xs[1..] == [];
    if DirectivePrints(d, args).Some? {
      assert Prints([], DirectivePrints(d, args).value.1) == Some("");
      assert DirectivePrints(d, args).value.0 + "" == DirectivePrints(d, args).value.0;
    }
  }

  /** Items in a row print one after the other, each with the arguments that those in front of it leave over. */
  lemma {:induction false} PrintsJoins(xs: seq<Item>, ys: seq<Item>, args: seq<Arg>)
    requires Prints(xs, args).Some?
    ensures var rest := Prints(ys, Leftover(xs, args));
      Prints(xs + ys, args) == if rest.None? then None else Some(Prints(xs, args).value + rest.value)
    decreases |xs|
  {
    hide DirectivePrints;
    if xs == [] {
      assert xs + ys == ys;
      var rest := Prints(ys, args);
      assert rest.Some? ==> "" + rest.value == rest.value;
    } else {
      assert (xs + ys)[1..] == xs[1..] + ys;
      var args' := if xs[0].Literal? then args else DirectivePrints(xs[0].d, args).value.1;
      var head := if xs[0].Literal? then [xs[0].c] else DirectivePrints(xs[0].d, args).value.0;
      PrintsJoins(xs[1..], ys, args');
      var rest := Prints(ys, Leftover(xs, args));
      if rest.Some? {
        assert head + (Prints(xs[1..], args').value + rest.value) == head + Prints(xs[1..], args').value + rest.value;
      }
    }
  }

  /** What is not a directive is printed as it is. */
  lemma {:induction false} LiteralsPrint(xs: seq<Item>, args: seq<Arg>)
    requires forall x :: x in xs ==> Writable(x) && x.Literal?
    ensures Prints(xs, args) == Some(Format(xs)) && Leftover(xs, args) == args
    decreases |xs|
  {
    if xs != [] {
      assert xs[0] in xs;
      LiteralsPrint(xs[1..], args);
    }
  }

  /** A directive between other items prints what it prints alone. */
  lemma InContext(pre: seq<Item>, d: Directive, post: seq<Item>, args: seq<Arg>)
    requires forall x :: x in pre + [Conversion(d)] + post ==> Writable(x)
    requires Prints(pre, args).Some? && Writable(Conversion(d))
    requires Printed(d, Leftover(pre, args)).Some?
    ensures var xs, one := pre + [Conversion(d)] + post, Leftover(pre, args);
      && CString(Format(xs) + [NUL])
      && Prints([Conversion(d)], one).Some?
      && var tail := Prints(post, Leftover([Conversion(d)], one));
         Prints(Items(Format(xs) + [NUL], 0), args) ==
           if tail.None? then None else Some(Prints(pre, args).value + Printed(d, one).value + tail.value)
  {
    hide Prints, Items, Format, Leftover, Writable, CString;
    var xs, one := [Conversion(d)], Leftover(pre, args);
    FormatRoundTrips(pre + xs + post);
    FormatRoundTrips(xs);
    assert pre + xs + post == pre + (xs + post);
    PrintsJoins(pre, xs + post, args);
    PrintsJoins(xs, post, one);
    var tail := Prints(post, Leftover(xs, one));
    if tail.Some? {
      assert Prints(pre, args).value + (Printed(d, one).value + tail.value) ==
        Prints(pre, args).value + Printed(d, one).value + tail.value;
    }
  }

  // ---------------------------------------------------------------------------------------------
  // Numbers

  function Abs(v: int): nat {
    if v < 0 then -v else v
  }

  /** v is the number of 16 or 32 bits, signed or not, that the low bits of w stand for. */
  predicate Denotes(v: int, w: nat, signed: bool, half: bool) {
    var m := if half then 0x1_0000 else WORD;
    (v - w) % m == 0 && if signed then -m / 2 <= v < m / 2 else 0 <= v < m
  }

  /** s is the shortest numeral of n in the base, with letters in lower or in upper case. */
  predicate Numerates(s: string, n: nat, base: nat, small: bool) {
    && s != "" && (s[0] == '0' ==> s == "0") && Value(s, base) == n
    && forall i :: 0 <= i < |s| ==> DigitValue(s[i]) < base && InCase(s[i], small)
  }

  predicate InCase(c: char, small: bool) {
    if small then !('A' <= c <= 'F') else !('a' <= c <= 'f')
  }

  lemma {:induction false} DigitsNumerate(n: nat, base: nat, small: bool)
    requires 2 <= base <= 16
    ensures Numerates(Digits(n, base, small), n, base, small)
  {
    hide Value, DigitValue, DigitChar, InCase, Numerates, Digits;
    DigitsRead(n, base, small);
    DigitsFrom(n, base, small);
    if n < base {
      OneDigit(n, base, small);
      FirstNumerates(DigitChar(n, small), n, base, small);
    } else {
      var q, r := n / base, n % base;
      QuotientPositive(n, base);
      QuotientShrinks(n, base);
      DigitsNumerate(q, base, small);
      OneDigit(r, base, small);
      MoreDigits(Digits(q, base, small), DigitChar(r, small), q, n, base, small);
    }
  }

  lemma DigitsFrom(n: nat, base: nat, small: bool)
    requires 2 <= base <= 16
    ensures Digits(n, base, small) ==
      if n < base then [DigitChar(n, small)]
      else Digits(n / base, base, small) + [DigitChar(n % base, small)]
  {
  }

  lemma FirstNumerates(c: char, n: nat, base: nat, small: bool)
    requires DigitValue(c) == n < base && InCase(c, small)
    ensures Numerates([c], n, base, small)
  {
    ValueOfOne(c, base);
  }

  /** A digit behind a numeral that is not 0. */
  lemma MoreDigits(t: string, c: char, q: nat, n: nat, base: nat, small: bool)
    requires 0 < base && Numerates(t, q, base, small) && q > 0 && DigitValue(c) < base && InCase(c, small)
    requires Value(t + [c], base) == n
    ensures Numerates(t + [c], n, base, small)
  {
    hide Value, DigitValue, InCase;
    ValueOfOne('0', base);
    OneDigit(0, 16, small);
    assert t != "0";
    assert (t + [c])[0] == t[0];
  }

  lemma OneDigit(d: nat, base: nat, small: bool)
    requires d < base <= 16
    ensures var c := DigitChar(d, small);
      DigitValue(c) == d && InCase(c, small) && (c == '0' <==> d == 0) && DigitValue('0') == 0
  {
  }

  lemma QuotientPositive(n: nat, base: nat)
    requires 0 < base <= n
    ensures n / base > 0
  {
  }

  /** text is: spaces, sign, prefix, zeros, digits, spaces. Zeros make up for the precision; what is still missing to
      the width is spaces on the right under the flag -, zeros under the flag 0, and else spaces on the left. */
  ghost predicate Arranged(text: string, sign: string, prefix: string, s: string, width: int, precision: int, f: Flags)
  {
    exists left: nat, zeros: nat, right: nat ::
      Consists(text, left, sign, prefix, zeros, s, right, width, precision, f)
  }

  predicate Consists(text: string, left: nat, sign: string, prefix: string, zeros: nat, s: string, right: nat,
    width: int, precision: int, f: Flags)
  {
    && text == Repeat(' ', left) + sign + prefix + Repeat('0', zeros) + s + Repeat(' ', right)
    && |text| == Max(width, |sign| + |prefix| + Max(precision, |s|))
    && (left > 0 ==> !f.left && !f.zeropad) && (right > 0 ==> f.left)
    && Max(0, precision - |s|) <= zeros && (zeros > Max(0, precision - |s|) ==> f.zeropad && !f.left)
  }

  lemma RepeatJoins(c: char, a: int, b: int)
    ensures Repeat(c, a) + Repeat(c, b) == Repeat(c, Max(a, 0) + Max(b, 0))
  {
  }

  lemma NumeralArranged(w: nat, base: nat, width: int, precision: int, f: Flags, g: Flags)
    requires w < WORD && 2 <= base <= 16 && g.left == f.left && g.zeropad == f.zeropad
    ensures Arranged(Numeral(w, base, width, precision, f), Sign(w, f), Prefix(base, f),
      Digits(Magnitude(w, f), base, f.small), width, precision, g)
  {
    hide Arranged, Digits, Sign, Prefix, Laid;
    ArrangedAs(Sign(w, f), Prefix(base, f), Digits(Magnitude(w, f), base, f.small), width, precision, f, g);
  }

  lemma ArrangedAs(sign: string, prefix: string, s: string, width: int, precision: int, f: Flags, g: Flags)
    requires g.left == f.left && g.zeropad == f.zeropad
    ensures var body := Repeat('0', precision - |s|) + s;
      Arranged(Laid(sign, prefix, body, width - |sign| - |prefix| - |body|, f), sign, prefix, s, width, precision, g)
  {
    var body := Repeat('0', precision - |s|) + s;
    var fill := width - |sign| - |prefix| - |body|;
    var left := if f.left || f.zeropad then 0 else Max(fill, 0);
    var zeros := Max(Zeros(fill, f), 0) + Max(precision - |s|, 0);
    var right := if f.left then Max(fill, 0) else 0;
    LaidAs(sign, prefix, s, precision, fill, f, left, zeros, right);
    assert Consists(Laid(sign, prefix, body, fill, f), left, sign, prefix, zeros, s, right, width, precision, g);
  }

  lemma LaidAs(sign: string, prefix: string, s: string, precision: int, fill: int, f: Flags,
    left: nat, zeros: nat, right: nat)
    requires left == if f.left || f.zeropad then 0 else Max(fill, 0)
    requires zeros == Max(Zeros(fill, f), 0) + Max(precision - |s|, 0) && right == if f.left then Max(fill, 0) else 0
    ensures Laid(sign, prefix, Repeat('0', precision - |s|) + s, fill, f) ==
      Repeat(' ', left) + sign + prefix + Repeat('0', zeros) + s + Repeat(' ', right)
  {
    RepeatJoins('0', Zeros(fill, f), precision - |s|);
    RepeatAtLeast(' ', if f.left || f.zeropad then 0 else fill);
    RepeatAtLeast(' ', if f.left then fill else 0);
    assert Repeat('0', Zeros(fill, f)) + (Repeat('0', precision - |s|) + s) == Repeat('0', zeros) + s;
  }

  lemma RepeatAtLeast(c: char, n: int)
    ensures Repeat(c, n) == Repeat(c, Max(n, 0))
  {
  }

  /** The conversions of integers. */
  predicate IsInteger(c: char) {
    c in "diouxX"
  }

  predicate IsSigned(c: char) {
    c in "di"
  }

  function BaseOf(c: char): nat {
    if c in "xX" then 16 else if c == 'o' then 8 else 10
  }

  /** In front of the digits of a signed number. */
  function SignText(v: int, f: Flags): string {
    if v < 0 then "-" else if f.plus then "+" else if f.space then " " else ""
  }

  function PrefixText(c: char): string {
    match c
    case 'o' => "0"
    case 'x' => "0x"
    case 'X' => "0X"
    case _ => ""
  }

  /** A count that does not come from the arguments; -1 if there is none. */
  function Given(c: Count): int {
    if c.Fixed? then c.n else -1
  }

  lemma NarrowedDenotes(w: nat, q: Option<char>, sign: bool)
    requires w < WORD
    ensures Denotes(if sign then Signed(Narrowed(w, q, sign)) else Narrowed(w, q, sign), w, sign, q == Some('h'))
  {
    assert w == w / 0x1_0000 * 0x1_0000 + w % 0x1_0000;
  }

  lemma IntegerConverted(d: Directive, args: seq<Arg>)
    requires IsInteger(d.conversion) && HasWord(args) && !d.width.FromArgument? && !d.precision.FromArgument?
    requires !d.flags.sign && !d.flags.small
    ensures var signed := IsSigned(d.conversion);
      DirectivePrints(d, args) == Some((Numeral(Narrowed(args[0].w, d.qualifier, signed), BaseOf(d.conversion),
        Given(d.width), Given(d.precision), d.flags.(sign := signed, small := d.conversion == 'x')), args[1..]))
  {
    hide Numeral, Narrowed;
  }

  /** %d, %i, %u, %o, %x and %X, with any flags, width, precision and qualifier: the digits behind sign and prefix
      are the shortest numeral, in the base and the case of the conversion, of the number that the argument stands
      for. */
  lemma IntegerPrinted(d: Directive, args: seq<Arg>) returns (v: int, s: string)
    requires Writable(Conversion(d)) && IsInteger(d.conversion) && HasWord(args)
    requires !d.width.FromArgument? && !d.precision.FromArgument?
    ensures Denotes(v, args[0].w, IsSigned(d.conversion), d.qualifier == Some('h'))
    ensures Numerates(s, Abs(v), BaseOf(d.conversion), d.conversion == 'x')
    ensures Printed(d, args).Some? && Leftover([Conversion(d)], args) == args[1..]
    ensures Arranged(Printed(d, args).value, if IsSigned(d.conversion) then SignText(v, d.flags) else "",
      if d.flags.special then PrefixText(d.conversion) else "", s, Given(d.width), Given(d.precision), d.flags)
  {
    hide Arranged, Denotes, Numerates, Printed, DirectivePrints, Narrowed, Numeral, Digits;
    IntegerConverted(d, args);
    var c, signed := d.conversion, IsSigned(d.conversion);
    var f := d.flags.(sign := signed, small := c == 'x');
    var w := Narrowed(args[0].w, d.qualifier, signed);
    v := if signed then Signed(w) else w;
    s := Digits(Magnitude(w, f), BaseOf(c), f.small);
    assert Abs(v) == Magnitude(w, f);
    assert Sign(w, f) == if signed then SignText(v, d.flags) else "";
    assert Prefix(BaseOf(c), f) == if d.flags.special then PrefixText(c) else "";
    NarrowedDenotes(args[0].w, d.qualifier, signed);
    DigitsNumerate(Magnitude(w, f), BaseOf(c), f.small);
    NumeralArranged(w, BaseOf(c), Given(d.width), Given(d.precision), f, d.flags);
    Alone(d, args);
  }

  /** %p: the argument in base 16 with letters in upper case, eight digits with zeros if no width is given. */
  lemma PointerPrinted(d: Directive, args: seq<Arg>) returns (s: string)
    requires Writable(Conversion(d)) && d.conversion == 'p' && HasWord(args)
    requires !d.width.FromArgument? && !d.precision.FromArgument?
    ensures Numerates(s, args[0].w, 16, false)
    ensures Printed(d, args).Some? && Leftover([Conversion(d)], args) == args[1..]
    ensures Arranged(Printed(d, args).value, "", if d.flags.special then "0X" else "", s,
      if d.width == Unset then 8 else Given(d.width), Given(d.precision),
      if d.width == Unset then d.flags.(zeropad := true) else d.flags)
  {
    hide Arranged, Numerates, Printed, Numeral, Digits;
    var f := if d.width == Unset then d.flags.(zeropad := true) else d.flags;
    var width := if d.width == Unset then 8 else Given(d.width);
    s := Digits(args[0].w, 16, false);
    DigitsNumerate(args[0].w, 16, false);
    NumeralArranged(args[0].w, 16, width, Given(d.precision), f, f);
    Alone(d, args);
  }

  // ---------------------------------------------------------------------------------------------
  // Characters and strings

  /** s stands at the left or the right end of a field of the width, or fills it and more, among spaces. */
  predicate InField(text: string, s: string, width: int, left: bool) {
    && |text| == Max(width, |s|)
    && var gap := |text| - |s|;
       if left then text[..|s|] == s && forall i :: |s| <= i < |text| ==> text[i] == ' '
       else text[gap..] == s && forall i :: 0 <= i < gap ==> text[i] == ' '
  }

  lemma FieldHolds(s: string, width: int, left: bool)
    ensures InField(Field(s, width, left), s, width, left)
  {
  }

  /** %c: the lowest byte of the argument in a field of the width. */
  lemma CharacterPrinted(d: Directive, args: seq<Arg>)
    requires Writable(Conversion(d)) && d.conversion == 'c' && HasWord(args)
    requires !d.width.FromArgument? && !d.precision.FromArgument?
    ensures Printed(d, args).Some? && Leftover([Conversion(d)], args) == args[1..]
    ensures InField(Printed(d, args).value, [(args[0].w % 0x100) as char], Given(d.width), d.flags.left)
  {
    hide InField, Printed, Field;
    FieldHolds([(args[0].w % 0x100) as char], Given(d.width), d.flags.left);
    Alone(d, args);
  }

  /** %s: the whole string, whatever the precision, in a field of the width. */
  lemma StringPrinted(d: Directive, args: seq<Arg>)
    requires Writable(Conversion(d)) && d.conversion == 's' && args != [] && args[0].Text?
    requires !d.width.FromArgument? && !d.precision.FromArgument?
    ensures Printed(d, args).Some? && Leftover([Conversion(d)], args) == args[1..]
    ensures InField(Printed(d, args).value, args[0].s, Given(d.width), d.flags.left)
  {
    hide InField, Printed, Field;
    FieldHolds(args[0].s, Given(d.width), d.flags.left);
    Alone(d, args);
  }

  /** %% prints a percent sign and a character that is no conversion a percent sign and itself, whatever flags and
      counts stand in front of it, and neither takes an argument. */
  lemma OthersPrinted(d: Directive, args: seq<Arg>)
    requires Writable(Conversion(d)) && !IsInteger(d.conversion) && d.conversion !in "cspn"
    requires !d.width.FromArgument? && !d.precision.FromArgument?
    ensures Printed(d, args) == Some(if d.conversion == '%' then "%" else ['%', d.conversion])
    ensures Leftover([Conversion(d)], args) == args
  {
    hide Printed;
    Alone(d, args);
  }

  /** A percent sign at the end of the format prints itself, once, and the format ends. */
  lemma BrokenOff(fmt: string, args: seq<Arg>)
    requires fmt == "%" + [NUL]
    ensures Prints(Items(fmt, 0), args) == Some("%")
  {
    var (d, j) := DirectiveAt(fmt, 1);
    assert d == Directive(NO_FLAGS, Unset, Unset, None, NUL) && j == 1;
    var xs := [Conversion(d)];
    assert Items(fmt, 0) == xs;
    assert DirectivePrints(d, args) == Some(("%", args));
    assert xs[1..] == [] && Prints(xs[1..], args) == Some("") && "%" + "" == "%";
    assert Prints(xs, args) == Some("%");
  }

  // ---------------------------------------------------------------------------------------------
  // Counts taken from the arguments

  /** A width taken from an argument works like one written down, and a negative one like its absolute value with
      the flag -. */
  lemma StarWidth(d: Directive, w: nat, v: int, args: seq<Arg>)
    requires d.width.FromArgument? && w < WORD && Denotes(v, w, true, false)
    ensures DirectivePrints(d, [Word(w)] + args) ==
      DirectivePrints(d.(width := Fixed(Abs(v)), flags := if v < 0 then d.flags.(left := true) else d.flags), args)
  {
    hide Converted;
    assert ([Word(w)] + args)[1..] == args;
  }

  /** A precision taken from an argument works like one written down, and a negative one like 0. */
  lemma StarPrecision(d: Directive, w: nat, v: int, args: seq<Arg>)
    requires !d.width.FromArgument? && d.precision.FromArgument? && w < WORD && Denotes(v, w, true, false)
    ensures DirectivePrints(d, [Word(w)] + args) == DirectivePrints(d.(precision := Fixed(Max(v, 0))), args)
  {
    hide Converted;
    assert ([Word(w)] + args)[1..] == args;
  }

  // ---------------------------------------------------------------------------------------------
  // The directive that the kernel prints addresses with

  /** A numeral of k digits in base 16 is at least the least number that needs so many. */
  lemma {:induction false} HexAtLeast(s: string)
    requires s != "" && s[0] != '0' && forall i :: 0 <= i < |s| ==> DigitValue(s[i]) < 16
    ensures Value(s, 16) >= Pow2(4 * (|s| - 1))
    decreases |s|
  {
    var t := s[..|s| - 1];
    if t == "" {
      assert s == [s[0]];
      ValueOfOne(s[0], 16);
      FirstPositive(s[0]);
    } else {
      HexAtLeast(t);
      TimesIs(Value(t, 16), 16);
      FourBits(4 * (|t| - 1));
    }
  }

  lemma FirstPositive(c: char)
    requires c != '0' && DigitValue(c) < 16
    ensures DigitValue(c) >= 1
  {
  }

  lemma FourBits(n: nat)
    ensures Pow2(n + 4) == 16 * Pow2(n)
  {
    assert Pow2(n + 4) == 2 * Pow2(n + 3) && Pow2(n + 3) == 2 * Pow2(n + 2) && Pow2(n + 2) == 2 * Pow2(n + 1);
  }

  lemma {:induction false} PowGrows(a: nat, b: nat)
    requires a <= b
    ensures Pow2(a) <= Pow2(b)
    decreases b
  {
    if a < b {
      PowGrows(a, b - 1);
    }
  }

  lemma HexFits(s: string, w: nat, small: bool)
    requires w < WORD && Numerates(s, w, 16, small)
    ensures |s| <= 8
  {
    if |s| > 8 {
      HexAtLeast(s);
      PowGrows(32, 4 * (|s| - 1));
      WordSize();
      assert false;
    }
  }

  /** %08x prints every word as eight digits in lower case that read as the word in base 16. */
  lemma AddressPrinted(w: nat)
    requires w < WORD
    ensures var fmt := "%08x" + [NUL];
      && CString(fmt) && Prints(Items(fmt, 0), [Word(w)]).Some?
      && var text := Prints(Items(fmt, 0), [Word(w)]).value;
         && |text| == 8 && Value(text, 16) == w
         && forall i :: 0 <= i < 8 ==> DigitValue(text[i]) < 16 && InCase(text[i], true)
  {
    hide Arranged, Numerates, Prints, Items, Value, DigitValue;
    var d := Directive(NO_FLAGS.(zeropad := true), Fixed(8), Unset, None, 'x');
    AddressFormat(d);
    FormatRoundTrips([Conversion(d)]);
    var v, s := IntegerPrinted(d, [Word(w)]);
    DenotesWord(v, w);
    EightDigits(Printed(d, [Word(w)]).value, s, w, d.flags);
  }

  lemma DenotesWord(v: int, w: nat)
    requires w < WORD && Denotes(v, w, false, false)
    ensures v == w
  {
  }

  lemma AddressFormat(d: Directive)
    requires d == Directive(NO_FLAGS.(zeropad := true), Fixed(8), Unset, None, 'x')
    ensures Writable(Conversion(d)) && Format([Conversion(d)]) == "%08x"
  {
    assert Digits(8, 10, false) == "8";
    var ms := MarksOf(d.flags);
    assert MarksText(ms[1..][1..][1..][1..]) == "0";
    assert FlagText(d.flags) == "0";
  }

  lemma ArrangedZeros(text: string, s: string, f: Flags)
    requires Arranged(text, "", "", s, 8, -1, f) && f.zeropad && !f.left && |s| <= 8
    ensures |text| == 8 && text == Repeat('0', 8 - |s|) + s
  {
    var left: nat, zeros: nat, right: nat :| Consists(text, left, "", "", zeros, s, right, 8, -1, f);
    assert text == Repeat('0', zeros) + s;
  }

  lemma EightDigits(text: string, s: string, w: nat, f: Flags)
    requires w < WORD && Numerates(s, w, 16, true) && f.zeropad && !f.left && Arranged(text, "", "", s, 8, -1, f)
    ensures |text| == 8 && Value(text, 16) == w
    ensures forall i :: 0 <= i < 8 ==> DigitValue(text[i]) < 16 && InCase(text[i], true)
  {
    hide Value, DigitValue, InCase, Arranged;
    HexFits(s, w, true);
    ArrangedZeros(text, s, f);
    var zeros := 8 - |s|;
    ZerosAdd(zeros, s, 16);
    OneDigit(0, 16, true);
    forall i | 0 <= i < 8 ensures DigitValue(text[i]) < 16 && InCase(text[i], true) {
      assert text[i] == if i < zeros then '0' else s[i - zeros];
    }
  }
}
