/** vsprintf of kernel/printf.c: one pass over the format with a cursor that can step back, proved to print the
    concatenation of what the directives of the format print. */
module Printf {
  import opened Machine
  import opened NumberFormat
  import opened FormatStrings

  /** The flags: goto repeat as a loop. */
  method TakeFlags(fmt: string, start: nat) returns (f: Flags, i: nat)
    requires CString(fmt) && start < |fmt|
    ensures (f, i) == FlagsAt(fmt, start, NO_FLAGS)
  {
    f, i := NO_FLAGS, start;
    while IsFlag(fmt[i])
      invariant i < |fmt| && FlagsAt(fmt, i, f) == FlagsAt(fmt, start, NO_FLAGS)
      decreases |fmt| - i
    {
      match fmt[i] {
        case '-' => f := f.(left := true);
        case '+' => f := f.(plus := true);
        case ' ' => f := f.(space := true);
        case '#' => f := f.(special := true);
        case '0' => f := f.(zeropad := true);
      }
      i := i + 1;
    }
  }

  method TakeWidth(fmt: string, start: nat, f: Flags, args: seq<Arg>)
    returns (width: int, f': Flags, rest: seq<Arg>, i: nat)
    requires CString(fmt) && start < |fmt| && WidthOf(CountAt(fmt, start).0, f, args).Some?
    ensures i == CountAt(fmt, start).1 && Some((width, f', rest)) == WidthOf(CountAt(fmt, start).0, f, args)
  {
    width, f', rest, i := -1, f, args, start;
    if IsDigit(fmt[i]) {
      width, i := SkipAtoi(fmt, i);
    } else if fmt[i] == '*' {
      i := i + 1;
      width := Signed(rest[0].w);
      rest := rest[1..];
      if width < 0 {
        width := -width;
        f' := f'.(left := true);
      }
    }
  }

  method TakePrecision(fmt: string, start: nat, args: seq<Arg>) returns (precision: int, rest: seq<Arg>, i: nat)
    requires CString(fmt) && start < |fmt| && PrecisionOf(PrecisionAt(fmt, start).0, args).Some?
    ensures i == PrecisionAt(fmt, start).1 && Some((precision, rest)) == PrecisionOf(PrecisionAt(fmt, start).0, args)
  {
    precision, rest, i := -1, args, start;
    if fmt[i] == '.' {
      i := i + 1;
      if IsDigit(fmt[i]) {
        precision, i := SkipAtoi(fmt, i);
      } else if fmt[i] == '*' {
        i := i + 1;
        precision := Signed(rest[0].w);
        rest := rest[1..];
      }
      if precision < 0 {
        precision := 0;
      }
    }
  }

  /** case 'c': a width of n leaves room for n - 1 spaces. */
  method PutChar(str: string, c: char, width: int, left: bool) returns (out: string)
    ensures out == str + Field([c], width, left)
  {
    var n := width;
    out := str;
    if !left {
      out, n := Pad(out, width - 1, ' ');
    }
    ghost var before := out;
    out := out + [c];
    if left {
      n := width - 1;
    }
    out, n := Pad(out, n, ' ');
    assert left ==> out == str + ([c] + Repeat(' ', width - 1));
    assert !left ==> out == str + (Repeat(' ', width - 1) + [c]);
  }

  /** case 's': the loops that compare the length with the width going down. */
  method PutString(str: string, s: string, width: int, left: bool) returns (out: string)
    ensures out == str + Field(s, width, left)
  {
    var n, len := width, |s|;
    out := str;
    if !left {
      out, n := Pad(out, n - len, ' ');
      n := n + len;
    }
    ghost var before := out;
    var i := 0;
    while i < len
      invariant 0 <= i <= len && out == before + s[..i]
    {
      out := out + [s[i]];
      i := i + 1;
    }
    assert s[..i] == s;
    out, n := Pad(out, n - len, ' ');
    assert left ==> out == str + (s + Repeat(' ', width - |s|));
    assert !left ==> out == str + (Repeat(' ', width - |s|) + s);
  }

  /** The integer conversions, which share the call of number. */
  method PutInteger(str: string, base: nat, f: Flags, width: int, precision: int, qualifier: Option<char>, w: nat)
    returns (out: string)
    requires w < WORD && 2 <= base <= 16
    ensures out == str + Numeral(Narrowed(w, qualifier, f.sign), base, width, precision, f)
  {
    var num := w;
    if qualifier == Some('h') {
      num := w % 0x1_0000;
      if f.sign {
        num := if num >= 0x8000 then WORD - 0x1_0000 + num else num;
      }
    }
    var r := Number(str, num, base, width, precision, f);
    out := r.value;
  }

  /** The switch over the conversion character, with the arguments it takes. */
  method Convert(str: string, c: char, f: Flags, width: int, precision: int, qualifier: Option<char>, args: seq<Arg>)
    returns (out: string, rest: seq<Arg>)
    requires Converted(c, f, width, precision, qualifier, args).Some?
    ensures var (text, args') := Converted(c, f, width, precision, qualifier, args).value;
      out == str + text && rest == args'
  {
    out, rest := str, args;
    var base, flags := 10, f;
    match c {
      case 'c' =>
        out := PutChar(str, (args[0].w % 0x100) as char, width, f.left);
        return out, args[1..];
      case 's' =>
        out := PutString(str, args[0].s, width, f.left);
        return out, args[1..];
      case 'p' =>
        var n := width;
        if n == -1 {
          n := 8;
          flags := flags.(zeropad := true);
        }
        var r := Number(str, args[0].w, 16, n, precision, flags);
        return r.value, args[1..];
      case '%' =>
        return str + ['%'], args;
      case 'o' =>
        base := 8;
      case 'x' =>
        flags := flags.(small := true);
        base := 16;
      case 'X' =>
        base := 16;
      case 'd' =>
        flags := flags.(sign := true);
      case 'i' =>
        flags := flags.(sign := true);
      case 'u' =>
      case _ =>
        out := out + ['%'];
        if c != NUL {
          out := out + [c];
        }
        return out, args;
    }
    out := PutInteger(str, base, flags, width, precision, qualifier, args[0].w);
    rest := args[1..];
  }

  /** One directive, from behind its percent sign to its conversion character. */
  method PrintDirective(str: string, fmt: string, start: nat, args: seq<Arg>)
    returns (out: string, rest: seq<Arg>, i: nat)
    requires CString(fmt) && start < |fmt| && DirectivePrints(DirectiveAt(fmt, start).0, args).Some?
    ensures i == DirectiveAt(fmt, start).1
    ensures var (text, args') := DirectivePrints(DirectiveAt(fmt, start).0, args).value;
      out == str + text && rest == args'
  {
    var f, width, precision;
    f, i := TakeFlags(fmt, start);
    width, f, rest, i := TakeWidth(fmt, i, f, args);
    precision, rest, i := TakePrecision(fmt, i, rest);
    var qualifier: Option<char> := None;
    if fmt[i] == 'h' || fmt[i] == 'l' || fmt[i] == 'L' {
      qualifier := Some(fmt[i]);
      i := i + 1;
    }
    out, rest := Convert(str, fmt[i], f, width, precision, qualifier, rest);
  }

  /** What is still to be printed stands behind what has been. */
  lemma Appended(str: string, out: string, printed: string, tail: string, whole: string)
    requires out == str + printed && whole == printed + tail
    ensures out + tail == str + whole
  {
  }

  lemma PrintsLiteral(fmt: string, i: nat, args: seq<Arg>)
    requires CString(fmt) && i < |fmt| && fmt[i] != NUL && fmt[i] != '%' && Prints(Items(fmt, i), args).Some?
    ensures Prints(Items(fmt, i + 1), args).Some?
    ensures Prints(Items(fmt, i), args).value == [fmt[i]] + Prints(Items(fmt, i + 1), args).value
  {
    assert Items(fmt, i)[1..] == Items(fmt, i + 1);
  }

  lemma PrintsDirective(fmt: string, i: nat, args: seq<Arg>)
    requires CString(fmt) && i < |fmt| && fmt[i] == '%' && Prints(Items(fmt, i), args).Some?
    ensures var (d, j) := DirectiveAt(fmt, i + 1);
      && DirectivePrints(d, args).Some?
      && var (text, rest) := DirectivePrints(d, args).value;
         var tail := Prints(Items(fmt, if fmt[j] == NUL then j else j + 1), rest);
         tail.Some? && Prints(Items(fmt, i), args).value == text + tail.value
  {
    var (d, j) := DirectiveAt(fmt, i + 1);
    assert Items(fmt, i)[1..] == Items(fmt, if fmt[j] == NUL then j else j + 1);
  }

  /** A character of the format. */
  method PrintLiteral(str: string, fmt: string, i: nat, ghost args: seq<Arg>) returns (out: string)
    requires CString(fmt) && i < |fmt| && fmt[i] != NUL && fmt[i] != '%' && Prints(Items(fmt, i), args).Some?
    ensures i + 1 < |fmt| && Prints(Items(fmt, i + 1), args).Some?
    ensures out + Prints(Items(fmt, i + 1), args).value == str + Prints(Items(fmt, i), args).value
  {
    PrintsLiteral(fmt, i, args);
    out := str + [fmt[i]];
    Appended(str, out, [fmt[i]], Prints(Items(fmt, i + 1), args).value, Prints(Items(fmt, i), args).value);
  }

  /** A directive. One that breaks off leaves the cursor on the NUL, from where it steps back so that the loop finds
      the NUL again. */
  method PrintPercent(str: string, fmt: string, start: nat, args: seq<Arg>)
    returns (out: string, rest: seq<Arg>, i: nat)
    requires CString(fmt) && start < |fmt| && fmt[start] == '%' && Prints(Items(fmt, start), args).Some?
    ensures start <= i < |fmt| - 1 && Prints(Items(fmt, i + 1), rest).Some?
    ensures out + Prints(Items(fmt, i + 1), rest).value == str + Prints(Items(fmt, start), args).value
  {
    PrintsDirective(fmt, start, args);
    out, rest, i := PrintDirective(str, fmt, start + 1, args);
    ghost var j := if fmt[i] == NUL then i else i + 1;
    Appended(str, out, DirectivePrints(DirectiveAt(fmt, start + 1).0, args).value.0,
      Prints(Items(fmt, j), rest).value, Prints(Items(fmt, start), args).value);
    if fmt[i] == NUL {
      i := i - 1;
    }
  }

  /** One round of the loop of vsprintf: a character of the format or a directive. */
  method PrintNext(str: string, fmt: string, start: nat, args: seq<Arg>) returns (out: string, rest: seq<Arg>, i: nat)
    requires CString(fmt) && start < |fmt| && fmt[start] != NUL && Prints(Items(fmt, start), args).Some?
    ensures start < i < |fmt| && Prints(Items(fmt, i), rest).Some?
    ensures out + Prints(Items(fmt, i), rest).value == str + Prints(Items(fmt, start), args).value
  {
    if fmt[start] != '%' {
      out := PrintLiteral(str, fmt, start, args);
      return out, args, start + 1;
    }
    out, rest, i := PrintPercent(str, fmt, start, args);
    i := i + 1;
  }

  /** vsprintf. For every format, and every list of arguments that matches it, the buffer receives what the
      directives print and a NUL, and the length is returned without the NUL. The cursor never passes the NUL of
      the format. */
  method Vsprintf(fmt: string, args: seq<Arg>) returns (length: nat, buf: string)
    requires CString(fmt) && Prints(Items(fmt, 0), args).Some?
    ensures var text := Prints(Items(fmt, 0), args).value;
      buf == text + [NUL] && length == |text|
  {
    var str, rest, i := "", args, 0;
    ghost var text := Prints(Items(fmt, 0), args).value;
    while fmt[i] != NUL
      invariant 0 <= i < |fmt| && Prints(Items(fmt, i), rest).Some?
      invariant str + Prints(Items(fmt, i), rest).value == text
      decreases |fmt| - i
    {
      str, rest, i := PrintNext(str, fmt, i, rest);
    }
    buf, length := str + [NUL], |str|;
  }
}
