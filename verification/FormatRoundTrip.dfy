/** Written out as a format string and read by vsprintf's rules, a sequence of directives comes back unchanged. */
module FormatRoundTrip {
  import opened NumberFormat
  import opened FormatStrings

  function Mark(on: bool, c: char): string {
    if on then [c] else ""
  }

  /** The flags that are set, in a fixed order. */
  function MarksOf(f: Flags): seq<(bool, char)> {
    [(f.left, '-'), (f.plus, '+'), (f.space, ' '), (f.special, '#'), (f.zeropad, '0')]
  }

  function MarksText(ms: seq<(bool, char)>): string {
    if ms == [] then "" else Mark(ms[0].0, ms[0].1) + MarksText(ms[1..])
  }

  function Marked(g: Flags, ms: seq<(bool, char)>): Flags
    decreases |ms|
  {
    if ms == [] then g else Marked(if ms[0].0 then WithFlag(g, ms[0].1) else g, ms[1..])
  }

  function FlagText(f: Flags): string {
    MarksText(MarksOf(f))
  }

  function CountText(c: Count): string {
    match c
    case Unset => ""
    case Fixed(n) => Digits(n, 10, false)
    case FromArgument => "*"
  }

  function PrecisionText(c: Count): string {
    if c == Unset then "" else "." + CountText(c)
  }

  function QualifierText(q: Option<char>): string {
    if q.Some? then [q.value] else ""
  }

  /** A directive behind its flags. */
  function TailText(d: Directive): string {
    CountText(d.width) + (PrecisionText(d.precision) + (QualifierText(d.qualifier) + [d.conversion]))
  }

  function DirectiveText(d: Directive): string {
    FlagText(d.flags) + TailText(d)
  }

  function ItemText(x: Item): string {
    match x
    case Literal(c) => [c]
    case Conversion(d) => "%" + DirectiveText(d)
  }

  function Format(xs: seq<Item>): string {
    if xs == [] then "" else ItemText(xs[0]) + Format(xs[1..])
  }

  predicate IsQualifier(c: char) {
    c == 'h' || c == 'l' || c == 'L'
  }

  /** Not read as a part of the directive in front of its conversion. */
  predicate IsConversion(c: char) {
    !IsFlag(c) && !IsDigit(c) && c != '*' && c != '.' && !IsQualifier(c) && c != NUL
  }

  /** What can be written down: the conversion sets the sign and case flags, and a width of 0 would be a flag. */
  predicate Writable(x: Item) {
    match x
    case Literal(c) => c != '%' && c != NUL
    case Conversion(d) =>
      && !d.flags.sign && !d.flags.small && d.width != Fixed(0)
      && (d.qualifier.Some? ==> IsQualifier(d.qualifier.value)) && IsConversion(d.conversion)
  }

  /** t stands in s at position i. */
  predicate At(s: string, i: nat, t: string)
    decreases |t|
  {
    i <= |s| && (t == "" || (i < |s| && s[i] == t[0] && At(s, i + 1, t[1..])))
  }

  lemma {:induction false} AtSlice(s: string, i: nat, t: string)
    ensures At(s, i, t) <==> i + |t| <= |s| && s[i..i + |t|] == t
    decreases |t|
  {
    if t != "" {
      AtSlice(s, i + 1, t[1..]);
      if i + |t| <= |s| {
        assert s[i..i + |t|] == [s[i]] + s[i + 1..i + |t|];
        assert t == [t[0]] + t[1..];
      }
    }
  }

  lemma {:induction false} AtTwo(s: string, i: nat, t: string, u: string)
    requires At(s, i, t + u)
    ensures At(s, i, t) && At(s, i + |t|, u)
    decreases |t|
  {
    if t == "" {
      assert t + u == u;
    } else {
      assert (t + u)[1..] == t[1..] + u;
      AtTwo(s, i + 1, t[1..], u);
    }
  }

  lemma AtStart(s: string, i: nat, t: string)
    requires At(s, i, t) && t != ""
    ensures i < |s| && s[i] == t[0]
  {
  }

  lemma OneFlag(s: string, i: nat, g: Flags, on: bool, c: char)
    requires CString(s) && i < |s| && IsFlag(c) && At(s, i, Mark(on, c))
    ensures i + |Mark(on, c)| < |s|
    ensures FlagsAt(s, i, g) == FlagsAt(s, i + |Mark(on, c)|, if on then WithFlag(g, c) else g)
  {
    AtSlice(s, i, Mark(on, c));
    if on {
      AtStart(s, i, Mark(on, c));
    }
  }

  lemma {:induction false} MarksRead(s: string, i: nat, g: Flags, ms: seq<(bool, char)>)
    requires CString(s) && i < |s| && At(s, i, MarksText(ms)) && forall m :: m in ms ==> IsFlag(m.1)
    ensures i + |MarksText(ms)| < |s| && FlagsAt(s, i, g) == FlagsAt(s, i + |MarksText(ms)|, Marked(g, ms))
    decreases |ms|
  {
    if ms != [] {
      var (on, c) := ms[0];
      assert ms[0] in ms;
      AtTwo(s, i, Mark(on, c), MarksText(ms[1..]));
      OneFlag(s, i, g, on, c);
      MarksRead(s, i + |Mark(on, c)|, if on then WithFlag(g, c) else g, ms[1..]);
    }
  }

  lemma MarkedFlags(f: Flags)
    requires !f.sign && !f.small
    ensures Marked(NO_FLAGS, MarksOf(f)) == f
  {
    var ms := MarksOf(f);
    var g1 := NO_FLAGS.(left := f.left);
    var g2 := g1.(plus := f.plus);
    var g3 := g2.(space := f.space);
    var g4 := g3.(special := f.special);
    assert Marked(NO_FLAGS, ms) == Marked(g1, ms[1..]);
    assert Marked(g1, ms[1..]) == Marked(g2, ms[1..][1..]);
    assert Marked(g2, ms[1..][1..]) == Marked(g3, ms[1..][1..][1..]);
    assert Marked(g3, ms[1..][1..][1..]) == Marked(g4, ms[1..][1..][1..][1..]);
    assert ms[1..][1..][1..][1..] == [(f.zeropad, '0')];
    assert Marked(g4, [(f.zeropad, '0')]) == Marked(g4.(zeropad := f.zeropad), [(f.zeropad, '0')][1..]);
  }

  lemma DigitsAreDigits(n: nat)
    ensures forall i :: 0 <= i < |Digits(n, 10, false)| ==> IsDigit(Digits(n, 10, false)[i])
  {
    DigitsBelow(n, 10, false);
    DecimalsAreDigits(Digits(n, 10, false));
  }

  lemma {:induction false} FirstDigit(n: nat)
    requires n > 0
    ensures Digits(n, 10, false)[0] != '0'
  {
    if n >= 10 {
      FirstDigit(n / 10);
    }
  }

  lemma CountRead(s: string, i: nat, c: Count)
    requires CString(s) && i < |s| && At(s, i, CountText(c)) && i + |CountText(c)| < |s|
    requires var x := s[i + |CountText(c)|]; !IsDigit(x) && x != '*'
    ensures CountAt(s, i) == (c, i + |CountText(c)|)
  {
    var t := CountText(c);
    match c
    case Unset =>
    case FromArgument =>
      AtStart(s, i, t);
    case Fixed(n) =>
      AtSlice(s, i, t);
      DigitsAreDigits(n);
      forall x | i <= x < i + |t| ensures IsDigit(s[x]) {
        assert s[x] == t[x - i];
      }
      assert s[i..i + |t|] == t;
      DecimalReads(s, i, i, i + |t|);
      assert s[i..i] == [];
      DigitsRead(n, 10, false);
  }

  /** Neither a flag nor part of a number. */
  predicate Stops(c: char) {
    !IsDigit(c) && c != '*' && !IsFlag(c)
  }

  // Each of the following reads one part of a directive off the front and gives the position behind it.

  lemma QualifierRead(s: string, i: nat, q: Option<char>, c: char) returns (j: nat)
    requires CString(s) && At(s, i, QualifierText(q) + [c]) && (q.Some? ==> IsQualifier(q.value)) && IsConversion(c)
    ensures i <= j < |s| && s[j] == c && QualifierAt(s, i) == (q, j) && Stops(s[i]) && s[i] != '.'
    ensures j + 1 == i + |QualifierText(q) + [c]|
  {
    AtTwo(s, i, QualifierText(q), [c]);
    j := i + |QualifierText(q)|;
    AtStart(s, j, [c]);
    if q.Some? {
      AtStart(s, i, QualifierText(q));
    }
  }

  lemma PrecisionRead(s: string, i: nat, c: Count, rest: string) returns (j: nat)
    requires CString(s) && At(s, i, PrecisionText(c) + rest) && rest != ""
    ensures i <= j < |s| && At(s, j, rest) && j + |rest| == i + |PrecisionText(c) + rest|
    ensures Stops(s[j]) && s[j] != '.' ==> PrecisionAt(s, i) == (c, j) && Stops(s[i])
  {
    AtTwo(s, i, PrecisionText(c), rest);
    j := i + |PrecisionText(c)|;
    AtStart(s, j, rest);
    if c != Unset && Stops(s[j]) {
      AtTwo(s, i, ".", CountText(c));
      AtStart(s, i, ".");
      CountRead(s, i + 1, c);
    }
  }

  /** What a width starts with is not read as a flag. */
  lemma WidthRead(s: string, i: nat, c: Count, rest: string) returns (j: nat)
    requires CString(s) && At(s, i, CountText(c) + rest) && rest != "" && c != Fixed(0)
    ensures i <= j < |s| && At(s, j, rest) && j + |rest| == i + |CountText(c) + rest|
    ensures Stops(s[j]) ==> CountAt(s, i) == (c, j) && !IsFlag(s[i])
  {
    AtTwo(s, i, CountText(c), rest);
    j := i + |CountText(c)|;
    AtStart(s, j, rest);
    if Stops(s[j]) {
      CountRead(s, i, c);
      if c != Unset {
        AtStart(s, i, CountText(c));
        if c.Fixed? {
          FirstDigit(c.n);
          DigitsAreDigits(c.n);
        }
      }
    }
  }

  lemma MarksAreFlags(f: Flags)
    ensures forall m :: m in MarksOf(f) ==> IsFlag(m.1)
  {
  }

  lemma FlagsRead(s: string, i: nat, f: Flags, rest: string) returns (j: nat)
    requires CString(s) && At(s, i, FlagText(f) + rest) && rest != "" && !f.sign && !f.small
    ensures i <= j < |s| && At(s, j, rest) && j + |rest| == i + |FlagText(f) + rest|
    ensures !IsFlag(s[j]) ==> FlagsAt(s, i, NO_FLAGS) == (f, j)
  {
    hide MarksOf, IsFlag, MarksText, Marked;
    AtTwo(s, i, FlagText(f), rest);
    j := i + |FlagText(f)|;
    MarksAreFlags(f);
    AtStart(s, j, rest);
    MarksRead(s, i, NO_FLAGS, MarksOf(f));
    MarkedFlags(f);
  }

  lemma ItemsAtDirective(s: string, i: nat, d: Directive, m: nat)
    requires CString(s) && i + 1 < |s| && s[i] == '%' && DirectiveAt(s, i + 1) == (d, m) && s[m] != NUL
    ensures m + 1 < |s| && Items(s, i) == [Conversion(d)] + Items(s, m + 1)
  {
  }

  lemma DirectiveStops(s: string, i: nat, f: Flags, j: nat, w: Count, k: nat, p: Count, l: nat, q: Option<char>, m: nat)
    requires CString(s) && i + 1 < |s| && j < |s| && k < |s| && l < |s| && m < |s| && s[i] == '%' && s[m] != NUL
    requires FlagsAt(s, i + 1, NO_FLAGS) == (f, j) && CountAt(s, j) == (w, k)
    requires PrecisionAt(s, k) == (p, l) && QualifierAt(s, l) == (q, m)
    ensures m + 1 < |s| && Items(s, i) == [Conversion(Directive(f, w, p, q, s[m]))] + Items(s, m + 1)
  {
    ItemsAtDirective(s, i, Directive(f, w, p, q, s[m]), m);
  }

  /** Width, precision, qualifier and conversion. */
  lemma TailRead(s: string, a: nat, w: Count, p: Count, q: Option<char>, c: char) returns (b: nat, l: nat, m: nat)
    requires CString(s) && At(s, a, CountText(w) + (PrecisionText(p) + (QualifierText(q) + [c])))
    requires w != Fixed(0) && (q.Some? ==> IsQualifier(q.value)) && IsConversion(c)
    ensures a < |s| && b < |s| && l < |s| && m < |s| && s[m] == c != NUL && !IsFlag(s[a])
    ensures CountAt(s, a) == (w, b) && PrecisionAt(s, b) == (p, l) && QualifierAt(s, l) == (q, m)
    ensures a <= m && m + 1 == a + |CountText(w) + (PrecisionText(p) + (QualifierText(q) + [c]))|
  {
    b := WidthRead(s, a, w, PrecisionText(p) + (QualifierText(q) + [c]));
    l := PrecisionRead(s, b, p, QualifierText(q) + [c]);
    m := QualifierRead(s, l, q, c);
  }

  lemma HeadRead(s: string, i: nat, d: Directive) returns (a: nat)
    requires CString(s) && At(s, i, DirectiveText(d)) && Writable(Conversion(d))
    ensures i <= a < |s| && a + |TailText(d)| == i + |DirectiveText(d)| && At(s, a, TailText(d))
    ensures !IsFlag(s[a]) ==> FlagsAt(s, i, NO_FLAGS) == (d.flags, a)
  {
    a := FlagsRead(s, i, d.flags, TailText(d));
  }

  lemma DirectiveRead(s: string, i: nat, d: Directive) returns (j: nat)
    requires CString(s) && i < |s| && s[i] == '%' && At(s, i + 1, DirectiveText(d)) && Writable(Conversion(d))
    ensures i < j < |s| && j == i + 1 + |DirectiveText(d)| && Items(s, i) == [Conversion(d)] + Items(s, j)
  {
    hide IsConversion, IsQualifier, IsFlag, FlagsAt, CountAt, PrecisionAt, QualifierAt, Items;
    var a := HeadRead(s, i + 1, d);
    var b, l, m := TailRead(s, a, d.width, d.precision, d.qualifier, d.conversion);
    DirectiveStops(s, i, d.flags, a, d.width, b, d.precision, l, d.qualifier, m);
    j := m + 1;
  }

  lemma ConversionRead(s: string, i: nat, d: Directive, rest: string) returns (j: nat)
    requires CString(s) && At(s, i, "%" + DirectiveText(d) + rest) && Writable(Conversion(d)) && i < |s|
    ensures i < j < |s| && At(s, j, rest) && j + |rest| == i + |"%" + DirectiveText(d) + rest|
    ensures Items(s, i) == [Conversion(d)] + Items(s, j)
  {
    hide IsConversion, IsQualifier, IsFlag, Items, DirectiveText;
    AtTwo(s, i, "%" + DirectiveText(d), rest);
    AtTwo(s, i, "%", DirectiveText(d));
    AtStart(s, i, "%");
    j := DirectiveRead(s, i, d);
  }

  lemma FirstRead(s: string, i: nat, xs: seq<Item>) returns (j: nat)
    requires CString(s) && i < |s| && xs != [] && Writable(xs[0]) && At(s, i, Format(xs)) && i + |Format(xs)| == |s| - 1
    ensures j < |s| && At(s, j, Format(xs[1..])) && j + |Format(xs[1..])| == |s| - 1
    ensures Items(s, i) == [xs[0]] + Items(s, j)
  {
    match xs[0]
    case Conversion(d) =>
      j := ConversionRead(s, i, d, Format(xs[1..]));
    case Literal(c) =>
      AtTwo(s, i, [c], Format(xs[1..]));
      AtStart(s, i, [c]);
      j := i + 1;
  }

  /** The items written out and read again are the items. */
  lemma {:induction false} FormatReads(s: string, i: nat, xs: seq<Item>)
    requires CString(s) && i < |s| && At(s, i, Format(xs)) && i + |Format(xs)| == |s| - 1
    requires forall x :: x in xs ==> Writable(x)
    ensures Items(s, i) == xs
    decreases |xs|
  {
    if xs != [] {
      assert xs[0] in xs;
      var j := FirstRead(s, i, xs);
      FormatReads(s, j, xs[1..]);
    }
  }

  /** Every sequence of directives that can be written down is what vsprintf reads in it. */
  lemma FormatRoundTrips(xs: seq<Item>)
    requires forall x :: x in xs ==> Writable(x)
    ensures CString(Format(xs) + [NUL]) && Items(Format(xs) + [NUL], 0) == xs
  {
    var t := Format(xs);
    NoNul(xs);
    AtSlice(t + [NUL], 0, t);
    assert (t + [NUL])[0..0 + |t|] == t;
    FormatReads(t + [NUL], 0, xs);
  }

  lemma {:induction false} NoNul(xs: seq<Item>)
    requires forall x :: x in xs ==> Writable(x)
    ensures NUL !in Format(xs)
    decreases |xs|
  {
    if xs != [] {
      assert xs[0] in xs;
      NoNul(xs[1..]);
      if xs[0].Conversion? {
        TextHasNoNul(xs[0].d);
      }
    }
  }

  lemma TextHasNoNul(d: Directive)
    requires Writable(Conversion(d))
    ensures NUL !in DirectiveText(d)
  {
    MarksHaveNoNul(MarksOf(d.flags));
    CountHasNoNul(d.width);
    CountHasNoNul(d.precision);
  }

  lemma CountHasNoNul(c: Count)
    ensures NUL !in CountText(c)
  {
    if c.Fixed? {
      DigitsAreDigits(c.n);
    }
  }

  lemma {:induction false} MarksHaveNoNul(ms: seq<(bool, char)>)
    requires forall m :: m in ms ==> m.1 != NUL
    ensures NUL !in MarksText(ms)
    decreases |ms|
  {
    if ms != [] {
      assert ms[0] in ms;
      MarksHaveNoNul(ms[1..]);
    }
  }
}
