/** The format language of vsprintf in kernel/printf.c: how a format string is read as a sequence of
    directives, and what a directive prints. */
module FormatStrings {
  import opened Machine
  import opened NumberFormat

  /** A width or precision: left out, written down, or taken from the arguments. */
  datatype Count = Unset | Fixed(n: nat) | FromArgument

  datatype Directive = Directive(flags: Flags, width: Count, precision: Count, qualifier: Option<char>,
    conversion: char)

  datatype Item = Literal(c: char) | Conversion(d: Directive)

  /** An argument of printf: a 32-bit word or a string. */
  datatype Arg = Word(w: nat) | Text(s: string)

  const NUL: char := '\0'

  predicate CString(s: string) {
    |s| > 0 && s[|s| - 1] == NUL && forall i :: 0 <= i < |s| - 1 ==> s[i] != NUL
  }

  predicate IsFlag(c: char) {
    c == '-' || c == '+' || c == ' ' || c == '#' || c == '0'
  }

  function WithFlag(f: Flags, c: char): Flags {
    match c
    case '-' => f.(left := true)
    case '+' => f.(plus := true)
    case ' ' => f.(space := true)
    case '#' => f.(special := true)
    case '0' => f.(zeropad := true)
    case _ => f
  }

  // ---------------------------------------------------------------------------------------------
  // Reading a format. Every function gives what it has read and the position behind it.

  function FlagsAt(s: string, i: nat, f: Flags): (r: (Flags, nat))
    requires CString(s) && i < |s|
    ensures i <= r.1 < |s|
    decreases |s| - i
  {
    if IsFlag(s[i]) then FlagsAt(s, i + 1, WithFlag(f, s[i])) else (f, i)
  }

  lemma {:induction false} DecimalStops(s: string, i: nat, acc: nat)
    requires CString(s) && i < |s|
    ensures ReadDecimal(s, i, acc).1 < |s|
    decreases |s| - i
  {
    if IsDigit(s[i]) {
      DecimalStops(s, i + 1, acc * 10 + DigitValue(s[i]));
    }
  }

  function NumberAt(s: string, i: nat): (r: (nat, nat))
    requires CString(s) && i < |s|
    ensures i <= r.1 < |s|
  {
    DecimalStops(s, i, 0);
    ReadDecimal(s, i, 0)
  }

  /** A number, a star, or nothing. */
  function CountAt(s: string, i: nat): (r: (Count, nat))
    requires CString(s) && i < |s|
    ensures i <= r.1 < |s|
  {
    if IsDigit(s[i]) then (Fixed(NumberAt(s, i).0), NumberAt(s, i).1)
    else if s[i] == '*' then (FromArgument, i + 1)
    else (Unset, i)
  }

  /** A point without a number behind it means precision 0. */
  function PrecisionAt(s: string, i: nat): (r: (Count, nat))
    requires CString(s) && i < |s|
    ensures i <= r.1 < |s|
  {
    if s[i] == '.' then
      var (c, j) := CountAt(s, i + 1);
      (if c == Unset then Fixed(0) else c, j)
    else (Unset, i)
  }

  function QualifierAt(s: string, i: nat): (r: (Option<char>, nat))
    requires CString(s) && i < |s|
    ensures i <= r.1 < |s|
  {
    if s[i] == 'h' || s[i] == 'l' || s[i] == 'L' then (Some(s[i]), i + 1) else (None, i)
  }

  /** The directive behind a percent sign, and the position of its conversion character. */
  function DirectiveAt(s: string, i: nat): (r: (Directive, nat))
    requires CString(s) && i < |s|
    ensures i <= r.1 < |s| && r.0.conversion == s[r.1]
  {
    var (f, j) := FlagsAt(s, i, NO_FLAGS);
    var (w, k) := CountAt(s, j);
    var (p, l) := PrecisionAt(s, k);
    var (q, m) := QualifierAt(s, l);
    (Directive(f, w, p, q, s[m]), m)
  }

  /** The items from position i on. A directive that breaks off leaves the NUL to be seen again. */
  function Items(s: string, i: nat): seq<Item>
    requires CString(s) && i < |s|
    decreases |s| - i
  {
    if s[i] == NUL then []
    else if s[i] != '%' then [Literal(s[i])] + Items(s, i + 1)
    else
      var (d, j) := DirectiveAt(s, i + 1);
      [Conversion(d)] + Items(s, if s[j] == NUL then j else j + 1)
  }

  // ---------------------------------------------------------------------------------------------
  // Printing. Every function that takes arguments gives those left over; None stands for arguments
  // that do not match.

  predicate HasWord(args: seq<Arg>) {
    args != [] && args[0].Word? && args[0].w < WORD
  }

  /** The width, -1 if there is none, and the flags: a negative width from the arguments means padding on the right. */
  function WidthOf(c: Count, f: Flags, args: seq<Arg>): Option<(int, Flags, seq<Arg>)> {
    match c
    case Unset => Some((-1, f, args))
    case Fixed(n) => Some((n, f, args))
    case FromArgument =>
      if !HasWord(args) then None
      else if Signed(args[0].w) < 0 then Some((-Signed(args[0].w), f.(left := true), args[1..]))
      else Some((Signed(args[0].w), f, args[1..]))
  }

  function PrecisionOf(c: Count, args: seq<Arg>): Option<(int, seq<Arg>)> {
    match c
    case Unset => Some((-1, args))
    case Fixed(n) => Some((n, args))
    case FromArgument =>
      if HasWord(args) then Some((Max(0, Signed(args[0].w)), args[1..])) else None
  }

  /** text in a field of the given width. */
  function Field(text: string, width: int, left: bool): string {
    if left then text + Repeat(' ', width - |text|) else Repeat(' ', width - |text|) + text
  }

  /** What the qualifier h leaves of a word. */
  function Narrowed(w: nat, qualifier: Option<char>, sign: bool): (r: nat)
    requires w < WORD
    ensures r < WORD
  {
    if qualifier != Some('h') then w
    else
      var half := w % 0x1_0000;
      if sign && half >= 0x8000 then WORD - 0x1_0000 + half else half
  }

  /** The base and the flags of an integer conversion. */
  function Integer(c: char, f: Flags): Option<(nat, Flags)> {
    match c
    case 'o' => Some((8, f))
    case 'x' => Some((16, f.(small := true)))
    case 'X' => Some((16, f))
    case 'd' => Some((10, f.(sign := true)))
    case 'i' => Some((10, f.(sign := true)))
    case 'u' => Some((10, f))
    case _ => None
  }

  function Converted(c: char, f: Flags, width: int, precision: int, qualifier: Option<char>,
    args: seq<Arg>): Option<(string, seq<Arg>)> {
    if Integer(c, f).Some? then
      var (base, f') := Integer(c, f).value;
      if HasWord(args) then
        Some((Numeral(Narrowed(args[0].w, qualifier, f'.sign), base, width, precision, f'), args[1..]))
      else None
    else
      match c
      case 'c' => if HasWord(args) then Some((Field([(args[0].w % 0x100) as char], width, f.left), args[1..])) else None
      case 's' => if args != [] && args[0].Text? then Some((Field(args[0].s, width, f.left), args[1..])) else None
      case 'p' =>
        if !HasWord(args) then None
        else if width == -1 then Some((Numeral(args[0].w, 16, 8, precision, f.(zeropad := true)), args[1..]))
        else Some((Numeral(args[0].w, 16, width, precision, f), args[1..]))
      case 'n' => None
      case '%' => Some(("%", args))
      case _ => Some((if c == NUL then "%" else ['%', c], args))
  }

  function DirectivePrints(d: Directive, args: seq<Arg>): Option<(string, seq<Arg>)> {
    match WidthOf(d.width, d.flags, args)
    case None => None
    case Some((width, f, args')) =>
      match PrecisionOf(d.precision, args')
      case None => None
      case Some((precision, args'')) => Converted(d.conversion, f, width, precision, d.qualifier, args'')
  }

  /** The concatenation of what the items print. Arguments left over at the end are not looked at. */
  function Prints(items: seq<Item>, args: seq<Arg>): Option<string> {
    if items == [] then Some("")
    else
      match items[0]
      case Literal(c) =>
        var rest := Prints(items[1..], args);
        if rest.None? then None else Some([c] + rest.value)
      case Conversion(d) =>
        match DirectivePrints(d, args)
        case None => None
        case Some((text, args')) =>
          var rest := Prints(items[1..], args');
          if rest.None? then None else Some(text + rest.value)
  }
}
