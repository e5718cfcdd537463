/** The digit generator of kernel/printf.c: what number writes, and that it can be read back. */
module NumberFormat {
  import opened Machine

  datatype Option<T> = None | Some(value: T)

  /** The bits of flags that number looks at. */
  datatype Flags = Flags(zeropad: bool, sign: bool, plus: bool, space: bool, left: bool, small: bool, special: bool)

  const NO_FLAGS := Flags(false, false, false, false, false, false, false)

  // ---------------------------------------------------------------------------------------------
  // Digits

  /** The digit d, with a letter in lower case if asked for. */
  function DigitChar(d: nat, small: bool): char
    requires d < 16
  {
    if d < 10 then '0' + d as char else (if small then 'a' else 'A') + (d - 10) as char
  }

  predicate IsDigit(c: char) {
    '0' <= c <= '9'
  }

  /** The digit that a character stands for, in either case, or 16. */
  function DigitValue(c: char): nat {
    if '0' <= c <= '9' then (c - '0') as nat
    else if 'A' <= c <= 'F' then (c - 'A') as nat + 10
    else if 'a' <= c <= 'f' then (c - 'a') as nat + 10
    else 16
  }

  /** The digits of n, most significant first; zero has one. */
  function Digits(n: nat, base: nat, small: bool): (s: string)
    requires 2 <= base <= 16
    ensures |s| > 0
  {
    if n < base then [DigitChar(n, small)]
    else Digits(n / base, base, small) + [DigitChar(n % base, small)]
  }

  /** a * b by repeated addition, which spares the solver a polynomial for every digit. */
  function Times(a: nat, b: nat): nat {
    if a == 0 then 0 else Times(a - 1, b) + b
  }

  lemma {:induction false} TimesIs(a: nat, b: nat)
    ensures Times(a, b) == a * b
  {
    if a > 0 {
      TimesIs(a - 1, b);
    }
  }

  /** What a string of digits stands for in a base. */
  function Value(s: string, base: nat): nat {
    if s == [] then 0 else Times(Value(s[..|s| - 1], base), base) + DigitValue(s[|s| - 1])
  }

  lemma DigitRead(d: nat, small: bool)
    requires d < 16
    ensures DigitValue(DigitChar(d, small)) == d
  {
  }

  lemma ValueOfOne(c: char, base: nat)
    ensures Value([c], base) == DigitValue(c)
  {
    assert [c][..0] == [];
    assert Value([], base) == 0;
  }

  lemma ValueOfMore(s: string, c: char, base: nat)
    ensures Value(s + [c], base) == Times(Value(s, base), base) + DigitValue(c)
  {
    assert (s + [c])[..|s|] == s;
  }

  lemma Split(n: nat, base: nat)
    requires 2 <= base
    ensures n == n / base * base + n % base
  {
  }

  /** Read in the same base, the digits of n give n. */
  lemma {:induction false} DigitsRead(n: nat, base: nat, small: bool)
    requires 2 <= base <= 16
    ensures Value(Digits(n, base, small), base) == n
  {
    if n < base {
      DigitRead(n, small);
      ValueOfOne(DigitChar(n, small), base);
    } else {
      DigitsRead(n / base, base, small);
      LastDigit(n, base, small);
    }
  }

  lemma LastDigit(n: nat, base: nat, small: bool)
    requires 2 <= base <= 16 && n >= base && Value(Digits(n / base, base, small), base) == n / base
    ensures Value(Digits(n, base, small), base) == n
  {
    var q, r := n / base, n % base;
    Split(n, base);
    TimesIs(q, base);
    DigitRead(r, small);
    ValueOfMore(Digits(q, base, small), DigitChar(r, small), base);
  }

  /** And they are digits of that base. */
  lemma {:induction false} DigitsBelow(n: nat, base: nat, small: bool)
    requires 2 <= base <= 16
    ensures forall c :: c in Digits(n, base, small) ==> DigitValue(c) < base
  {
    if n < base {
      DigitRead(n, small);
    } else {
      DigitsBelow(n / base, base, small);
      DigitRead(n % base, small);
    }
  }

  /** A 32-bit number has at most 32 digits, so tmp has room for them. */
  lemma {:induction false} DigitsFit(n: nat, base: nat, small: bool, bits: nat)
    requires 2 <= base <= 16 && 1 <= bits && n < Pow2(bits)
    ensures |Digits(n, base, small)| <= bits
  {
    if n >= base {
      assert bits > 1;
      assert n / base <= n / 2 < Pow2(bits - 1) by {
        QuotientShrinks(n, base);
      }
      DigitsFit(n / base, base, small, bits - 1);
    }
  }

  lemma QuotientShrinks(n: nat, base: nat)
    requires 2 <= base
    ensures n / base <= n / 2
  {
    var q, r := n / base, n % base;
    assert n == q * base + r && q * base >= q * 2;
  }

  // ---------------------------------------------------------------------------------------------
  // What number writes

  function Repeat(c: char, n: int): (s: string)
    ensures |s| == (if n > 0 then n else 0) && forall i :: 0 <= i < |s| ==> s[i] == c
  {
    if n <= 0 then [] else [c] + Repeat(c, n - 1)
  }

  /** A 32-bit word as a long. */
  function Signed(w: nat): int
    requires w < WORD
  {
    if w < WORD / 2 then w else w - WORD
  }

  function Sign(w: nat, f: Flags): string
    requires w < WORD
  {
    if !f.sign then ""
    else if Signed(w) < 0 then "-"
    else if f.plus then "+"
    else if f.space then " "
    else ""
  }

  function Prefix(base: nat, f: Flags): string {
    if f.special && base == 8 then "0"
    else if f.special && base == 16 then ['0', if f.small then 'x' else 'X']
    else ""
  }

  function Magnitude(w: nat, f: Flags): nat
    requires w < WORD
  {
    if f.sign && Signed(w) < 0 then -Signed(w) else w
  }

  /** The digits, with zeros in front up to the precision. */
  function Body(w: nat, base: nat, precision: int, f: Flags): string
    requires w < WORD && 2 <= base <= 16
  {
    var ds := Digits(Magnitude(w, f), base, f.small);
    Repeat('0', precision - |ds|) + ds
  }

  /** What is missing to the width. */
  function Fill(w: nat, base: nat, width: int, precision: int, f: Flags): int
    requires w < WORD && 2 <= base <= 16
  {
    width - |Sign(w, f)| - |Prefix(base, f)| - |Body(w, base, precision, f)|
  }

  function Zeros(fill: int, f: Flags): int {
    if f.zeropad && !f.left then fill else 0
  }

  /** Padding on the left with spaces or, behind sign and prefix, with zeros, or on the right with spaces. */
  function Laid(sign: string, prefix: string, body: string, fill: int, f: Flags): string {
    Repeat(' ', if f.left || f.zeropad then 0 else fill) + sign + prefix + (Repeat('0', Zeros(fill, f)) + body)
    + Repeat(' ', if f.left then fill else 0)
  }

  /** The digits with the zeros of the padding, if that is with zeros. */
  function Padded(w: nat, base: nat, width: int, precision: int, f: Flags): string
    requires w < WORD && 2 <= base <= 16
  {
    Repeat('0', Zeros(Fill(w, base, width, precision, f), f)) + Body(w, base, precision, f)
  }

  function Numeral(w: nat, base: nat, width: int, precision: int, f: Flags): string
    requires w < WORD && 2 <= base <= 16
  {
    Laid(Sign(w, f), Prefix(base, f), Body(w, base, precision, f), Fill(w, base, width, precision, f), f)
  }

  /** The length is the width, unless sign, prefix and digits need more. */
  lemma NumeralLength(w: nat, base: nat, width: int, precision: int, f: Flags)
    requires w < WORD && 2 <= base <= 16
    ensures |Numeral(w, base, width, precision, f)| ==
      Max(width, |Sign(w, f)| + |Prefix(base, f)| + Max(|Digits(Magnitude(w, f), base, f.small)|, precision))
  {
  }

  lemma {:induction false} ZerosAdd(k: int, s: string, base: nat)
    ensures Value(Repeat('0', k) + s, base) == Value(s, base)
    decreases |s|, k
  {
    var z := Repeat('0', k);
    if s != [] {
      var t := s[..|s| - 1];
      ZerosAdd(k, t, base);
      assert (z + s)[..|z + s| - 1] == z + t;
    } else if k > 0 {
      ZerosAdd(k - 1, [], base);
      assert z == Repeat('0', k - 1) + ['0'];
      ValueOfMore(Repeat('0', k - 1), '0', base);
      assert Repeat('0', k - 1) + [] == Repeat('0', k - 1) && z + [] == z;
    } else {
      assert z + s == [];
    }
  }

  lemma BodyReads(w: nat, base: nat, precision: int, f: Flags)
    requires w < WORD && 2 <= base <= 16
    ensures Value(Body(w, base, precision, f), base) == Magnitude(w, f)
    ensures forall c :: c in Body(w, base, precision, f) ==> DigitValue(c) < base
  {
    var digits := Digits(Magnitude(w, f), base, f.small);
    DigitsRead(Magnitude(w, f), base, f.small);
    DigitsBelow(Magnitude(w, f), base, f.small);
    ZerosAdd(precision - |digits|, digits, base);
  }

  /** Between sign and prefix on the left and spaces on the right, number writes digits of the base. They read
      back as the magnitude, whatever zeros precision and padding have added. */
  lemma NumeralReads(w: nat, base: nat, width: int, precision: int, f: Flags)
    requires w < WORD && 2 <= base <= 16
    ensures Value(Padded(w, base, width, precision, f), base) == Magnitude(w, f)
    ensures forall c :: c in Padded(w, base, width, precision, f) ==> DigitValue(c) < base
  {
    BodyReads(w, base, precision, f);
    PaddedReads(Body(w, base, precision, f), Zeros(Fill(w, base, width, precision, f), f), base);
  }

  lemma PaddedReads(body: string, k: int, base: nat)
    requires 0 < base && forall c :: c in body ==> DigitValue(c) < base
    ensures Value(Repeat('0', k) + body, base) == Value(body, base)
    ensures forall c :: c in Repeat('0', k) + body ==> DigitValue(c) < base
  {
    ZerosAdd(k, body, base);
  }

  // ---------------------------------------------------------------------------------------------
  // number

  function Reversed(s: string): (r: string)
    ensures |r| == |s|
  {
    if s == [] then [] else [s[|s| - 1]] + Reversed(s[..|s| - 1])
  }

  lemma ReversedMore(s: string, c: char)
    ensures Reversed(s + [c]) == [c] + Reversed(s)
  {
    assert (s + [c])[..|s|] == s;
  }

  lemma RepeatMore(c: char, n: nat)
    ensures Repeat(c, n) + [c] == Repeat(c, n + 1)
  {
    if n > 0 {
      RepeatMore(c, n - 1);
    }
  }

  /** The loop that writes a character as often as there is padding left. It leaves size below 0. */
  method Pad(str: string, size: int, c: char) returns (str': string, size': int)
    ensures str' == str + Repeat(c, size) && size' == if size > 0 then -1 else size - 1
  {
    str', size' := str, size;
    ghost var n := 0;
    while size' > 0
      invariant 0 <= n && (size > 0 ==> 0 <= size' && n + size' == size) && (size <= 0 ==> n == 0 && size' == size)
      invariant str' == str + Repeat(c, n)
    {
      RepeatMore(c, n);
      assert str + Repeat(c, n) + [c] == str + Repeat(c, n + 1);
      str' := str' + [c];
      size' := size' - 1;
      n := n + 1;
    }
    size' := size' - 1;
  }

  lemma AllRemaining(n: nat, base: nat, small: bool)
    requires 0 < n && 2 <= base <= 16
    ensures Remaining(n, base, small) == Digits(n, base, small)
  {
  }

  lemma NoneRemaining(base: nat, small: bool)
    requires 2 <= base <= 16
    ensures Remaining(0, base, small) == ""
  {
  }

  lemma ReversedNothing(s: string)
    requires s == ""
    ensures Reversed(s) == ""
  {
  }

  /** The loop over the digits of a number that has some. */
  method PutDigits(tmp: array<char>, num: nat, base: nat, small: bool) returns (i: nat)
    requires tmp.Length == 66 && 0 < num < WORD && 2 <= base <= 16 && |Digits(num, base, small)| <= 32
    modifies tmp
    ensures i <= 32 && Reversed(tmp[..i]) == Digits(num, base, small)
  {
    hide Remaining, Digits, DigitChar, Reversed;
    AllRemaining(num, base, small);
    NoneRemaining(base, small);
    ReversedNothing(tmp[..0]);
    var n: nat := num;
    i := 0;
    ghost var done := "";
    while n != 0
      invariant n < WORD && i == |done| <= 32 && done == Reversed(tmp[..i])
      invariant Remaining(n, base, small) + done == Digits(num, base, small)
      decreases n
    {
      NextDigit(n, base, small, done);
      var res := n % base;
      n := n / base;
      done := [DigitChar(res, small)] + done;
      PutDigit(tmp, i, DigitChar(res, small));
      i := i + 1;
    }
  }

  /** The loop that fills tmp with the digits, least significant first. */
  method MakeDigits(tmp: array<char>, num: nat, base: nat, small: bool) returns (i: nat)
    requires tmp.Length == 66 && num < WORD && 2 <= base <= 16
    modifies tmp
    ensures i <= 32 && Reversed(tmp[..i]) == Digits(num, base, small)
  {
    WordSize();
    DigitsFit(num, base, small, 32);
    if num == 0 {
      tmp[0] := '0';
      assert tmp[..1] == ['0'] && ['0'][..0] == [];
      return 1;
    }
    i := PutDigits(tmp, num, base, small);
  }

  function Remaining(n: nat, base: nat, small: bool): (s: string)
    requires 2 <= base <= 16
    ensures n > 0 ==> |s| > 0
  {
    if n == 0 then [] else Digits(n, base, small)
  }

  method PutDigit(tmp: array<char>, i: nat, c: char)
    requires i < tmp.Length
    modifies tmp
    ensures Reversed(tmp[..i + 1]) == [c] + Reversed(old(tmp[..i]))
  {
    tmp[i] := c;
    ReversedMore(tmp[..i], c);
    assert tmp[..i + 1] == tmp[..i] + [c];
  }

  lemma NextDigit(n: nat, base: nat, small: bool, done: string)
    requires 0 < n && 2 <= base <= 16
    ensures n / base < n
    ensures Remaining(n, base, small) + done == Remaining(n / base, base, small) + ([DigitChar(n % base, small)] + done)
  {
    QuotientShrinks(n, base);
    if n < base {
      assert n / base == 0 && n % base == n;
    } else {
      assert n / base > 0;
    }
  }

  /** The loop that writes the digits out of the buffer, the last one first. */
  method CopyDigits(str: string, tmp: array<char>, i: nat) returns (str': string)
    requires i <= tmp.Length
    ensures str' == str + Reversed(tmp[..i])
  {
    str' := str;
    var j := i;
    while j > 0
      invariant 0 <= j <= i && str' + Reversed(tmp[..j]) == str + Reversed(tmp[..i])
    {
      assert tmp[..j][..j - 1] == tmp[..j - 1];
      j := j - 1;
      str' := str' + [tmp[j]];
    }
  }

  /** The sign that is due, and the magnitude. The negation wraps around for the smallest long. */
  method TakeSign(num: nat, f: Flags) returns (sign: string, magnitude: nat)
    requires num < WORD
    ensures sign == Sign(num, f) && magnitude == Magnitude(num, f) < WORD
  {
    sign, magnitude := "", num;
    if f.sign {
      if Signed(num) < 0 {
        sign := "-";
        magnitude := Wrap(WORD - num);
      } else if f.plus {
        sign := "+";
      } else if f.space {
        sign := " ";
      }
    }
  }

  lemma Regroup(str: string, a: string, sign: string, prefix: string, b: string, z: string, d: string, e: string)
    ensures str + a + sign + prefix + b + z + d + e == str + (a + sign + prefix + (b + (z + d)) + e)
  {
  }

  method PutPrefix(str: string, base: nat, f: Flags) returns (out: string)
    ensures out == str + Prefix(base, f)
  {
    out := str;
    if f.special {
      if base == 8 {
        out := out + ['0'];
      } else if base == 16 {
        out := out + ['0'];
        out := out + [if f.small then 'x' else 'X'];
      }
    }
  }

  /** The second half of number: the stores. */
  method WriteOut(str: string, sign: string, base: nat, f: Flags, size: int, tmp: array<char>, i: nat, zeros: int)
    returns (out: string)
    requires i <= tmp.Length && (f.left ==> !f.zeropad)
    ensures out == str + Laid(sign, Prefix(base, f), Repeat('0', zeros) + Reversed(tmp[..i]), size, f)
  {
    ghost var a, b, e := Repeat(' ', if f.left || f.zeropad then 0 else size), Repeat('0', Zeros(size, f)),
      Repeat(' ', if f.left then size else 0);
    var width, c := size, if f.zeropad then '0' else ' ';
    out := str;
    if !(f.zeropad || f.left) {
      out, width := Pad(out, width, ' ');
    }
    assert out == str + a;
    out := out + sign;
    ghost var s1 := out;
    out := PutPrefix(out, base, f);
    ghost var s2 := out;
    if !f.left {
      out, width := Pad(out, width, c);
    }
    assert out == s2 + b;
    var p;
    out, p := Pad(out, zeros, '0');
    ghost var s3 := out;
    out := CopyDigits(out, tmp, i);
    ghost var s4 := out;
    out, width := Pad(out, width, ' ');
    assert out == s4 + e;
    Regroup(str, a, sign, Prefix(base, f), b, Repeat('0', zeros), Reversed(tmp[..i]), e);
  }

  /** The parts that number computes make up the numeral. */
  lemma NumeralIs(w: nat, base: nat, width: int, precision: int, f: Flags, f': Flags, ds: string,
    sign: string, prefix: string, fill: int, zeros: int)
    requires w < WORD && 2 <= base <= 16 && f' == if f.left then f.(zeropad := false) else f
    requires ds == Digits(Magnitude(w, f), base, f.small) && sign == Sign(w, f) && prefix == Prefix(base, f)
    requires zeros == Max(|ds|, precision) - |ds| && fill == width - |sign| - |prefix| - Max(|ds|, precision)
    ensures Laid(sign, prefix, Repeat('0', zeros) + ds, fill, f') == Numeral(w, base, width, precision, f)
  {
    assert Body(w, base, precision, f) == Repeat('0', Max(|ds|, precision) - |ds|) + ds;
  }

  /** The first half of number: the sign, the digits in tmp, how many zeros the precision adds to them, and what is
      missing to the width. */
  method Measure(num: nat, base: nat, size: int, precision: int, f: Flags, tmp: array<char>)
    returns (sign: string, i: nat, zeros: int, width: int)
    requires num < WORD && 2 <= base <= 16 && tmp.Length == 66
    modifies tmp
    ensures sign == Sign(num, f) && i <= tmp.Length && Reversed(tmp[..i]) == Digits(Magnitude(num, f), base, f.small)
    ensures zeros == Max(i, precision) - i && width == size - |sign| - |Prefix(base, f)| - Max(i, precision)
  {
    var n;
    sign, n := TakeSign(num, f);
    width := size - |sign|;
    if f.special {
      if base == 16 {
        width := width - 2;
      } else if base == 8 {
        width := width - 1;
      }
    }
    i := MakeDigits(tmp, n, base, f.small);
    var p := precision;
    if i > p {
      p := i;
    }
    width := width - p;
    zeros := p - i;
  }

  /** number: None stands for the null pointer, the answer to a base out of range. */
  method Number(str: string, num: nat, base: int, size: int, precision: int, type_: Flags) returns (r: Option<string>)
    requires num < WORD
    ensures r == if base < 2 || base > 16 then None else Some(str + Numeral(num, base, size, precision, type_))
  {
    var tmp := new char[66];
    var f := type_;
    if f.left {
      f := f.(zeropad := false);
    }
    if base < 2 || base > 16 {
      return None;
    }
    var sign, i, zeros, width := Measure(num, base, size, precision, f, tmp);
    var out := WriteOut(str, sign, base, f, width, tmp, i, zeros);
    NumeralIs(num, base, size, precision, type_, f, Reversed(tmp[..i]), sign, Prefix(base, f), width, zeros);
    r := Some(out);
  }

  // ---------------------------------------------------------------------------------------------
  // skip_atoi

  /** The number at position i of s, given what has been read of it, and the position behind it. */
  function ReadDecimal(s: string, i: nat, acc: nat): (r: (nat, nat))
    requires i <= |s|
    ensures i <= r.1 <= |s|
    decreases |s| - i
  {
    if i < |s| && IsDigit(s[i]) then ReadDecimal(s, i + 1, acc * 10 + DigitValue(s[i])) else (acc, i)
  }

  /** skip_atoi reads the value of a string of digits. */
  lemma {:induction false} DecimalReads(s: string, k: nat, i: nat, j: nat)
    requires k <= i <= j <= |s| && (forall x :: i <= x < j ==> IsDigit(s[x])) && (j == |s| || !IsDigit(s[j]))
    ensures ReadDecimal(s, i, Value(s[k..i], 10)) == (Value(s[k..j], 10), j)
    decreases j - i
  {
    if i < j {
      TimesIs(Value(s[k..i], 10), 10);
      ValueOfMore(s[k..i], s[i], 10);
      assert s[k..i] + [s[i]] == s[k..i + 1];
      DecimalReads(s, k, i + 1, j);
    }
  }

  /** An unsigned number printed in base 10, with no spaces in front, is read back by skip_atoi. */
  lemma UnsignedReadsBack(w: nat, width: int, precision: int, f: Flags, rest: string)
    requires w < WORD && !f.sign && (f.left || f.zeropad || Fill(w, 10, width, precision, f) <= 0)
    requires rest == [] || !IsDigit(rest[0])
    ensures ReadDecimal(Numeral(w, 10, width, precision, f) + rest, 0, 0).0 == w
  {
    NumeralReads(w, 10, width, precision, f);
    FrontReads(Padded(w, 10, width, precision, f), Spaces(w, width, precision, f) + rest);
    DecimalNumeral(w, width, precision, f, rest);
  }

  function Spaces(w: nat, width: int, precision: int, f: Flags): string
    requires w < WORD
  {
    Repeat(' ', if f.left then Fill(w, 10, width, precision, f) else 0)
  }

  lemma DecimalNumeral(w: nat, width: int, precision: int, f: Flags, rest: string)
    requires w < WORD && !f.sign && (f.left || f.zeropad || Fill(w, 10, width, precision, f) <= 0)
    ensures Numeral(w, 10, width, precision, f) + rest ==
      Padded(w, 10, width, precision, f) + (Spaces(w, width, precision, f) + rest)
  {
    var ds, spaces := Padded(w, 10, width, precision, f), Spaces(w, width, precision, f);
    assert Numeral(w, 10, width, precision, f) == ds + spaces;
  }

  lemma FrontReads(ds: string, rest: string)
    requires (forall c :: c in ds ==> DigitValue(c) < 10) && (rest == [] || !IsDigit(rest[0]))
    ensures ReadDecimal(ds + rest, 0, 0) == (Value(ds, 10), |ds|)
  {
    var s := ds + rest;
    DecimalsAreDigits(ds);
    assert s[0..0] == [] && s[0..|ds|] == ds;
    DecimalReads(s, 0, 0, |ds|);
  }

  lemma DecimalsAreDigits(ds: string)
    requires forall c :: c in ds ==> DigitValue(c) < 10
    ensures forall i :: 0 <= i < |ds| ==> IsDigit(ds[i])
  {
    forall i | 0 <= i < |ds| ensures IsDigit(ds[i]) {
      assert ds[i] in ds;
    }
  }

  /** skip_atoi, with an accumulator that does not overflow. */
  method SkipAtoi(s: string, start: nat) returns (n: nat, i: nat)
    requires start <= |s|
    ensures (n, i) == ReadDecimal(s, start, 0)
  {
    n, i := 0, start;
    while i < |s| && IsDigit(s[i])
      invariant start <= i <= |s| && ReadDecimal(s, i, n) == ReadDecimal(s, start, 0)
    {
      n := n * 10 + (s[i] - '0') as nat;
      i := i + 1;
    }
  }
}
