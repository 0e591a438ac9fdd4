/** The Limine kernel's printf-style formatter (kernel/src/lib/format.cpp).
    Characters go out one at a time through `simple_outputchar`, into a
    buffer or to the serial port; either way the model follows the
    sequence of characters emitted. The format is the character array the
    format pointer walks, with its terminator just past the end; the
    arguments are the `va_list` slots. A call whose behaviour C leaves
    undefined (reading past the terminator, or an argument that is not
    there) has no result. */
module KernelFormat {
  import opened CInt
  import opened Wrappers
  import opened Numerals
  import opened VarArgs
  import KernelHeap

  /** The `flags` bits. */
  const PAD_ZERO: int := 1
  const PAD_RIGHT: int := 2

  predicate ValidFlags(flags: int) { 0 <= flags < 4 }
  predicate HasZero(flags: int) { flags % 2 == 1 }
  predicate HasRight(flags: int) { (flags / 2) % 2 == 1 }

  /** `flags |= PAD_ZERO`. */
  function SetZero(flags: int): int
  {
    if HasZero(flags) then flags else flags + PAD_ZERO
  }

  /** `n` copies of `c`, none when `n` is not positive. */
  function Repeat(c: char, n: int): (r: seq<char>)
    ensures |r| == (if n > 0 then n else 0)
    ensures forall k :: 0 <= k < |r| ==> r[k] == c
  {
    seq(if n > 0 then n else 0, _ => c)
  }

  // ---------------------------------------------------------------------
  // prints

  /** How many pad characters `prints` adds. */
  function PadCount(s: seq<char>, width: int): int
  {
    if width > 0 && |CStr(s)| < width then width - |CStr(s)| else 0
  }

  /** The pad character: '0' only when there is a width and `PAD_ZERO`. */
  function PadChar(width: int, flags: int): char
  {
    if width > 0 && HasZero(flags) then '0' else ' '
  }

  /** The characters `prints(out, s, width, flags)` emits: the C string in
      `s` with the padding after it for `PAD_RIGHT` and before it otherwise. */
  function Padded(s: seq<char>, width: int, flags: int): seq<char>
  {
    var fill := Repeat(PadChar(width, flags), PadCount(s, width));
    if HasRight(flags) then CStr(s) + fill else fill + CStr(s)
  }

  /** The output is exactly `width` long when the string is shorter, and
      the string alone otherwise; the string stands at the left end for
      `PAD_RIGHT` and at the right end otherwise; every other character is
      '0' under `PAD_ZERO` and ' ' without it. */
  lemma PaddedSpec(s: seq<char>, width: int, flags: int)
    ensures var r := Padded(s, width, flags); var t := CStr(s);
      && |r| == (if width > |t| then width else |t|)
      && var lead := if HasRight(flags) then 0 else |r| - |t|;
        && 0 <= lead <= |r| - |t|
        && r[lead..lead + |t|] == t
        && forall k :: 0 <= k < |r| && !(lead <= k < lead + |t|) ==> r[k] == (if HasZero(flags) then '0' else ' ')
  {
    var t := CStr(s);
    var fill := Repeat(PadChar(width, flags), PadCount(s, width));
    if HasRight(flags) {
      assert (t + fill)[0..|t|] == t;
    } else {
      assert (fill + t)[|fill|..|fill| + |t|] == t;
    }
  }

  /** `prints(out, string, width, flags)`: the number of characters it
      emits is what it returns. */
  method Prints(str: seq<char>, width0: int, flags: int) returns (emitted: seq<char>, pc: int)
    ensures emitted == Padded(str, width0, flags) && pc == |emitted|
  {
    var width := width0;
    var padchar := ' ';
    if width > 0 {
      var len := StrLen(str);
      if len >= width {
        width := 0;
      } else {
        width := width - len;
      }
      if HasZero(flags) {
        padchar := '0';
      }
    }
    ghost var fill := Repeat(PadChar(width0, flags), PadCount(str, width0));
    assert Repeat(padchar, width) == fill;
    var pre: seq<char> := [];
    if !HasRight(flags) {
      pre, width := PadLoop(padchar, width);
    }
    var text := CopyLoop(str);
    var post;
    post, width := PadLoop(padchar, width);
    if HasRight(flags) {
      assert pre == [] && post == fill;
      emitted := pre + text + post;
      assert emitted == text + fill;
    } else {
      assert pre == fill && post == [];
      emitted := pre + text + post;
      assert emitted == fill + text;
    }
    pc := |emitted|;
  }

  /** `for (ptr = string; *ptr; ++ptr) ++len;` */
  method StrLen(str: seq<char>) returns (len: nat)
    ensures len == |CStr(str)|
  {
    ghost var t := CStr(str);
    len := 0;
    while len < |str| && str[len] != '\0'
      invariant 0 <= len <= |t|
      decreases |str| - len
    {
      len := len + 1;
    }
  }

  /** `for (; width > 0; --width) simple_outputchar(out, padchar);` */
  method PadLoop(padchar: char, width0: int) returns (emitted: seq<char>, width: int)
    ensures emitted == Repeat(padchar, width0)
    ensures width == if width0 > 0 then 0 else width0
  {
    width := width0;
    emitted := [];
    while width > 0
      invariant (width0 > 0 ==> 0 <= width <= width0) && (width0 <= 0 ==> width == width0)
      invariant emitted == Repeat(padchar, width0 - (if width > 0 then width else 0))
    {
      emitted := emitted + [padchar];
      width := width - 1;
    }
  }

  /** `for (; *string; ++string) simple_outputchar(out, *string);` */
  method CopyLoop(str: seq<char>) returns (emitted: seq<char>)
    ensures emitted == CStr(str)
  {
    ghost var t := CStr(str);
    emitted := [];
    var k := 0;
    while k < |str| && str[k] != '\0'
      invariant 0 <= k <= |t| && emitted == t[..k]
      decreases |str| - k
    {
      emitted := emitted + [str[k]];
      k := k + 1;
    }
    assert t[..k] == t;
  }

  // ---------------------------------------------------------------------
  // simple_outputi

  /** Whether `simple_outputi` prints the value as a negative number. */
  predicate Negative(i: int, base: int, sign: bool)
  {
    sign && base == 10 && i < 0
  }

  /** The magnitude whose digits `simple_outputi` prints: `-i` for a
      negative number, the value taken as `uint64_t` otherwise. */
  function Magnitude(i: int, base: int, sign: bool): nat
    requires InI64(i)
  {
    if Negative(i, base, sign) then -i else U64(i)
  }

  /** The characters `simple_outputi(out, i, base, sign, width, flags,
      letbase)` emits. */
  function Formatted(i: int, base: int, sign: bool, width: int, flags: int, letbase: char): seq<char>
    requires InI64(i) && Base(base) && Letbase(letbase)
  {
    if i == 0 then Padded(['0'], width, flags)
    else if Negative(i, base, sign) then
      if width != 0 && HasZero(flags) then ['-'] + Padded(Digits(-i, base, letbase), width - 1, flags)
      else Padded(['-'] + Digits(-i, base, letbase), width, flags)
    else Padded(Digits(U64(i), base, letbase), width, flags)
  }

  lemma NoNulInDigits(s: seq<char>, base: int, letbase: char)
    requires Letbase(letbase) && InCase(s, base, letbase)
    ensures '\0' !in s && '-' !in s && CStr(s) == s
  {
    forall k | 0 <= k < |s|
      ensures s[k] != '\0' && s[k] != '-'
    {
      assert 0 <= DigitValue(s[k]);
    }
    CStrNoNul(s);
  }

  /** Padding adds only ' ' or '0', never a '-'. */
  lemma PaddedNoMinus(s: seq<char>, width: int, flags: int)
    requires '-' !in CStr(s)
    ensures '-' !in Padded(s, width, flags)
  {
    var r := Padded(s, width, flags);
    var t := CStr(s);
    PaddedSpec(s, width, flags);
    var lead := if HasRight(flags) then 0 else |r| - |t|;
    forall k | 0 <= k < |r|
      ensures r[k] != '-'
    {
      if lead <= k < lead + |t| {
        assert r[k] == r[lead..lead + |t|][k - lead];
      }
    }
  }

  /** The '-' and the digits of a negative number, without `PAD_ZERO`. */
  lemma NegativeBody(d: seq<char>, width: int, flags: int)
    requires '\0' !in d
    ensures var b := ['-'] + d; var r := Padded(b, width, flags);
      && |r| == (if width > |b| then width else |b|) && '-' in r
  {
    var b := ['-'] + d;
    assert '\0' !in b by {
      assert forall k :: 1 <= k < |b| ==> b[k] == d[k - 1];
    }
    CStrNoNul(b);
    var r := Padded(b, width, flags);
    PaddedSpec(b, width, flags);
    var lead := if HasRight(flags) then 0 else |r| - |b|;
    assert r[lead..lead + |b|][0] == '-';
  }

  /** What `simple_outputi` prints is its numeral padded to the width: the
      magnitude's digits, which read back to it, with '-' in front exactly
      for a signed base-10 negative. Under `PAD_ZERO` with a width, the '-'
      comes first, before the zeros; the width is filled exactly either way. */
  lemma FormattedSpec(i: int, base: int, sign: bool, width: int, flags: int, letbase: char)
    requires InI64(i) && Base(base) && Letbase(letbase)
    ensures var r := Formatted(i, base, sign, width, flags, letbase);
      var body := (if Negative(i, base, sign) then ['-'] else []) + Numeral(Magnitude(i, base, sign), base, letbase);
      && |r| == (if width > |body| then width else |body|)
      && ('-' in r <==> Negative(i, base, sign))
      && (!Negative(i, base, sign) ==> r == Padded(Numeral(Magnitude(i, base, sign), base, letbase), width, flags))
      && (Negative(i, base, sign) && width != 0 && HasZero(flags) ==> r[0] == '-')
  {
    var m := Magnitude(i, base, sign);
    var d := Numeral(m, base, letbase);
    NumeralSpec(m, base, letbase);
    NoNulInDigits(d, base, letbase);
    if Negative(i, base, sign) {
      assert d == Digits(-i, base, letbase);
      if width != 0 && HasZero(flags) {
        PaddedSpec(d, width - 1, flags);
      } else {
        NegativeBody(d, width, flags);
      }
    } else {
      assert Formatted(i, base, sign, width, flags, letbase) == Padded(d, width, flags);
      PaddedSpec(d, width, flags);
      PaddedNoMinus(d, width, flags);
    }
  }

  /** `simple_outputi(out, i, base, sign, width, flags, letbase)`: digits
      are produced least significant first into the end of `print_buf`. */
  method OutputI(i: int, base: int, sign: bool, width0: int, flags: int, letbase: char)
    returns (emitted: seq<char>, pc: int)
    requires InI64(i) && Base(base) && Letbase(letbase)
    ensures emitted == Formatted(i, base, sign, width0, flags, letbase) && pc == |emitted|
  {
    var width := width0;
    var neg := false;
    pc := 0;
    var u := U64(i);
    if i == 0 {
      emitted, pc := Prints(['0'], width, flags);
      return;
    }
    if sign && base == 10 && i < 0 {
      neg := true;
      u := -i;
    }
    assert neg == Negative(i, base, sign) && u == Magnitude(i, base, sign);
    var s := DigitLoop(u, base, letbase);
    emitted := [];
    if neg {
      if width != 0 && HasZero(flags) {
        emitted := ['-'];
        pc := pc + 1;
        width := width - 1;
      } else {
        s := ['-'] + s;
      }
    }
    ghost var want := Formatted(i, base, sign, width0, flags, letbase);
    assert want == emitted + Padded(s, width, flags);
    var rest, n := Prints(s, width, flags);
    emitted := emitted + rest;
    pc := pc + n;
  }

  // ---------------------------------------------------------------------
  // vformat(char** out, const char* format, va_list ap)

  /** The effect of one pass of the scanning loop from a non-NUL character:
      characters emitted, where the loop goes on and the next argument;
      or the loop stops; or the behaviour is undefined. */
  datatype Step = Emit(text: seq<char>, next: nat, used: nat) | Stop | Undefined

  /** The loop's `++format` after a directive whose last character is at
      `j`: stepping on from the terminator reads past the end. */
  function Finish(fmt: seq<char>, j: int, text: seq<char>, a: nat): (r: Step)
    requires 0 <= j <= |fmt|
    ensures r.Emit? ==> r.next == j + 1 <= |fmt| && r.used == a && r.text == text
  {
    if j < |fmt| then Emit(text, j + 1, a) else Undefined
  }

  predicate IsIntConv(c: char) { c == 'd' || c == 'u' || c == 'x' || c == 'X' }

  /** The end of a run of '0' flags. */
  function ZerosEnd(fmt: seq<char>, j: int): (e: int)
    requires 0 <= j <= |fmt|
    ensures j <= e <= |fmt| && At(fmt, e) != '0'
    decreases |fmt| - j
  {
    if At(fmt, j) == '0' then ZerosEnd(fmt, j + 1) else j
  }

  /** Integer conversion `c` of the next argument read as `size`: 'd'
      signed decimal, 'u' unsigned decimal, 'x' and 'X' hexadecimal with
      lower- and upper-case letters. The value is passed on as `int64_t`. */
  function Integer(fmt: seq<char>, j: int, args: seq<Arg>, a: nat, width: int, flags: int, c: char, size: Size): (r: Step)
    requires 0 <= j <= |fmt| && a <= |args| && IsIntConv(c)
    ensures r.Emit? ==> r.next == j + 1 <= |fmt| && r.used == a + 1 <= |args|
  {
    if a == |args| then Undefined
    else
      var bits := Bits(args[a]);
      var value := if c == 'd' then Signed(size, bits) else Unsigned(size, bits);
      var base := if c == 'd' || c == 'u' then 10 else 16;
      Finish(fmt, j, Formatted(I64(value), base, c == 'd', width, flags, if c == 'X' then 'A' else 'a'), a + 1)
  }

  /** The conversion at `j`, after the flags and the width. */
  function Convert(fmt: seq<char>, j: int, args: seq<Arg>, a: nat, width: int, flags: int): (r: Step)
    requires 0 <= j <= |fmt| && a <= |args|
    ensures r.Emit? ==> j < r.next <= |fmt| && a <= r.used <= |args|
  {
    var c := At(fmt, j);
    if IsIntConv(c) then Integer(fmt, j, args, a, width, flags, c, Word)
    else if c == 'z' then
      if IsIntConv(At(fmt, j + 1)) then Integer(fmt, j + 1, args, a, width, flags, At(fmt, j + 1), Long)
      else Finish(fmt, j, [], a)
    else if c == 'p' then Integer(fmt, j, args, a, width, flags, 'X', Long)
    else if c == 'c' then
      if a == |args| then Undefined
      else Finish(fmt, j, Padded([U8(Bits(args[a])) as char, '\0'], width, flags), a + 1)
    else if c == 's' then
      if a == |args| then Undefined
      else match ReadText(args[a])
        case Wild => Undefined
        case Null => Finish(fmt, j, Padded("(null)", width, flags), a + 1)
        case Chars(t) => Finish(fmt, j, Padded(t, width, flags), a + 1)
    else if c == 'l' || c == 'h' then
      var c2 := At(fmt, j + 1);
      if IsIntConv(c2) then Integer(fmt, j + 1, args, a, width, flags, c2, if c == 'l' then Long else Short)
      else if c2 == c then
        var c3 := At(fmt, j + 2);
        if IsIntConv(c3) then Integer(fmt, j + 2, args, a, width, flags, c3, if c == 'l' then Long else Byte)
        else Finish(fmt, j + 2, [], a)
      else Finish(fmt, j + 1, [], a)
    else Finish(fmt, j, [], a)
  }

  /** What the scanning loop finds at a non-NUL character `k`: a character
      to copy and where to go on; a '%' at the end, which stops the loop; a
      '*' width with no argument left; or a conversion at `j`, after an
      optional '-', '0's, and a width given by '*' or by digits. */
  datatype Spec = Copy(text: seq<char>, next: nat) | Halt | NoArgument | Conversion(j: nat, width: int, flags: int, used: nat)

  function Parse(fmt: seq<char>, k: int, args: seq<Arg>, a: nat): (p: Spec)
    requires 0 <= k < |fmt| && a <= |args|
    ensures p.Copy? ==> k < p.next <= |fmt|
    ensures p.Conversion? ==> k < p.j <= |fmt| && a <= p.used <= |args| && ValidFlags(p.flags)
  {
    if fmt[k] != '%' then Copy([fmt[k]], k + 1)
    else if At(fmt, k + 1) == '\0' then Halt
    else if fmt[k + 1] == '%' then Copy(['%'], k + 2)
    else
      var j1 := if fmt[k + 1] == '-' then k + 2 else k + 1;
      var flags1 := if fmt[k + 1] == '-' then PAD_RIGHT else 0;
      var j2 := ZerosEnd(fmt, j1);
      var flags := if j2 > j1 then SetZero(flags1) else flags1;
      if At(fmt, j2) == '*' then
        if a == |args| then NoArgument
        else Conversion(j2 + 1, I32(Bits(args[a])), flags, a + 1)
      else
        var (width, j3) := Decimal(fmt, j2, 0);
        Conversion(j3, width, flags, a)
  }

  /** One pass of the scanning loop at `k`. */
  function Directive(fmt: seq<char>, k: int, args: seq<Arg>, a: nat): (r: Step)
    requires 0 <= k < |fmt| && a <= |args|
    ensures r.Emit? ==> k < r.next <= |fmt| && a <= r.used <= |args|
  {
    match Parse(fmt, k, args, a)
    case Copy(text, next) => Emit(text, next, a)
    case Halt => Stop
    case NoArgument => Undefined
    case Conversion(j, width, flags, used) => Convert(fmt, j, args, used, width, flags)
  }

  function Prepend(s: seq<char>, r: Option<seq<char>>): (p: Option<seq<char>>)
    ensures s == [] ==> p == r
    ensures r == Some([]) ==> p == Some(s)
  {
    match r
    case None => None
    case Some(t) =>
      assert s == [] ==> s + t == t;
      assert t == [] ==> s + t == s;
      Some(s + t)
  }

  lemma PrependTwice(s: seq<char>, t: seq<char>, r: Option<seq<char>>)
    ensures Prepend(s, Prepend(t, r)) == Prepend(s + t, r)
  {
    if r.Some? {
      assert s + (t + r.value) == (s + t) + r.value;
    }
  }

  /** Everything `vformat(out, format, ap)` emits from index `k` on, with
      argument `a` next; None when the behaviour is undefined. */
  function Run(fmt: seq<char>, k: int, args: seq<Arg>, a: nat): Option<seq<char>>
    requires 0 <= k <= |fmt| && a <= |args|
    decreases |fmt| - k
  {
    if k == |fmt| || fmt[k] == '\0' then Some([])
    else match Directive(fmt, k, args, a)
      case Stop => Some([])
      case Undefined => None
      case Emit(text, next, used) => Prepend(text, Run(fmt, next, args, used))
  }

  /** Ordinary characters are copied one for one, up to the terminator:
      a stretch with no '%' comes out as it is. */
  lemma {:induction false} Literals(fmt: seq<char>, k: int, args: seq<Arg>, a: nat)
    requires 0 <= k <= |fmt| && a <= |args|
    requires forall i :: k <= i < |fmt| ==> fmt[i] != '%'
    ensures Run(fmt, k, args, a) == Some(CStr(fmt[k..]))
    decreases |fmt| - k
  {
    if k < |fmt| && fmt[k] != '\0' {
      Literals(fmt, k + 1, args, a);
      assert fmt[k..][1..] == fmt[k + 1..];
    }
  }

  /** With no width and no flags, `prints` adds no padding. */
  lemma Unpadded(s: seq<char>)
    ensures Padded(s, 0, 0) == CStr(s)
  {
    assert [] + CStr(s) == CStr(s);
  }

  /** A format without '%' prints as the C string it holds and reads no
      argument. */
  lemma PlainText(fmt: seq<char>, args: seq<Arg>)
    requires '%' !in fmt
    ensures Run(fmt, 0, args, 0) == Some(CStr(fmt))
  {
    Literals(fmt, 0, args, 0);
    assert fmt[0..] == fmt;
  }

  /** "%%" prints one '%' and reads no argument. */
  lemma PercentPercent(fmt: seq<char>, k: int, args: seq<Arg>, a: nat)
    requires 0 <= k && k + 1 < |fmt| && a <= |args| && fmt[k] == '%' && fmt[k + 1] == '%'
    ensures Run(fmt, k, args, a) == Prepend("%", Run(fmt, k + 2, args, a))
  {
  }

  /** A '%' just before the terminator ends the output there. */
  lemma TrailingPercent(fmt: seq<char>, k: int, args: seq<Arg>, a: nat)
    requires 0 <= k < |fmt| && a <= |args| && fmt[k] == '%' && At(fmt, k + 1) == '\0'
    ensures Run(fmt, k, args, a) == Some([])
  {
  }

  /** "%d" with no argument left reads one that is not there. */
  lemma MissingArgument(fmt: seq<char>, k: int, args: seq<Arg>)
    requires 0 <= k && k + 1 < |fmt| && fmt[k] == '%' && IsIntConv(fmt[k + 1])
    ensures Run(fmt, k, args, |args|) == None
  {
  }

  /** A '%' followed straight by a conversion letter: no flags, no width. */
  lemma Bare(fmt: seq<char>, k: int, args: seq<Arg>, a: nat)
    requires 0 <= k && k + 1 < |fmt| && a <= |args| && fmt[k] == '%'
    requires fmt[k + 1] !in "%-0*\0" && !IsDigit(fmt[k + 1])
    ensures Parse(fmt, k, args, a) == Conversion(k + 1, 0, 0, a)
    ensures Directive(fmt, k, args, a) == Convert(fmt, k + 1, args, a, 0, 0)
  {
    assert ZerosEnd(fmt, k + 1) == k + 1;
    assert Decimal(fmt, k + 1, 0) == (0, k + 1);
  }

  /** "%d", "%u", "%x" and "%X" print the next argument as a 32-bit value,
      through `simple_outputi`, and go on with the argument after it. */
  lemma IntegerConversion(fmt: seq<char>, k: int, args: seq<Arg>, a: nat)
    requires 0 <= k && k + 1 < |fmt| && a < |args| && fmt[k] == '%' && IsIntConv(fmt[k + 1])
    ensures var c := fmt[k + 1]; var bits := Bits(args[a]);
      var value := if c == 'd' then I32(bits) else U32(bits);
      Run(fmt, k, args, a) == Prepend(Formatted(value, if c == 'd' || c == 'u' then 10 else 16, c == 'd', 0, 0, if c == 'X' then 'A' else 'a'), Run(fmt, k + 2, args, a + 1))
  {
    Bare(fmt, k, args, a);
  }

  /** "%p" prints the next argument's 64 bits in upper-case hexadecimal. */
  lemma PointerConversion(fmt: seq<char>, k: int, args: seq<Arg>, a: nat)
    requires 0 <= k && k + 1 < |fmt| && a < |args| && fmt[k] == '%' && fmt[k + 1] == 'p'
    ensures Run(fmt, k, args, a) == Prepend(Formatted(I64(Bits(args[a])), 16, false, 0, 0, 'A'), Run(fmt, k + 2, args, a + 1))
  {
    Bare(fmt, k, args, a);
  }

  /** The text printed for a null string, unpadded. */
  lemma NullText()
    ensures Padded("(null)", 0, 0) == "(null)"
  {
    CStrNoNul("(null)");
    Unpadded("(null)");
  }

  /** "%s" with a null pointer prints "(null)". */
  lemma NullString(fmt: seq<char>, k: int, args: seq<Arg>, a: nat)
    requires 0 <= k && k + 1 < |fmt| && a < |args| && fmt[k] == '%' && fmt[k + 1] == 's'
    requires ReadText(args[a]).Null?
    ensures Run(fmt, k, args, a) == Prepend("(null)", Run(fmt, k + 2, args, a + 1))
  {
    Bare(fmt, k, args, a);
    NullText();
    assert Convert(fmt, k + 1, args, a, 0, 0) == Emit("(null)", k + 2, a + 1);
  }

  /** "%s" prints the string the argument points to, up to its NUL; a
      pointer to nothing readable makes the call undefined. */
  lemma StringConversion(fmt: seq<char>, k: int, args: seq<Arg>, a: nat)
    requires 0 <= k && k + 1 < |fmt| && a < |args| && fmt[k] == '%' && fmt[k + 1] == 's'
    ensures ReadText(args[a]).Chars? ==> Run(fmt, k, args, a) == Prepend(CStr(ReadText(args[a]).chars), Run(fmt, k + 2, args, a + 1))
    ensures ReadText(args[a]).Wild? ==> Run(fmt, k, args, a) == None
  {
    Bare(fmt, k, args, a);
    var t := ReadText(args[a]);
    if t.Chars? {
      Unpadded(t.chars);
      assert Convert(fmt, k + 1, args, a, 0, 0) == Emit(CStr(t.chars), k + 2, a + 1);
    }
  }

  /** "%c" prints the argument's low byte as a character, and nothing at
      all for a NUL, which ends the string `prints` is given. */
  lemma CharConversion(fmt: seq<char>, k: int, args: seq<Arg>, a: nat)
    requires 0 <= k && k + 1 < |fmt| && a < |args| && fmt[k] == '%' && fmt[k + 1] == 'c'
    ensures var ch := U8(Bits(args[a])) as char;
      Run(fmt, k, args, a) == Prepend(if ch == '\0' then [] else [ch], Run(fmt, k + 2, args, a + 1))
  {
    Bare(fmt, k, args, a);
    var ch := U8(Bits(args[a])) as char;
    assert CStr([ch, '\0']) == if ch == '\0' then [] else [ch];
    Unpadded([ch, '\0']);
  }

  /** A conversion letter the formatter does not know prints nothing and
      reads no argument. */
  lemma UnknownConversion(fmt: seq<char>, k: int, args: seq<Arg>, a: nat)
    requires 0 <= k && k + 1 < |fmt| && a <= |args| && fmt[k] == '%'
    requires fmt[k + 1] !in "%-0*csplhz\0" && !IsDigit(fmt[k + 1]) && !IsIntConv(fmt[k + 1])
    ensures Run(fmt, k, args, a) == Run(fmt, k + 2, args, a)
  {
    Bare(fmt, k, args, a);
  }

  /** After 'z' a letter that is not an integer conversion is stepped back
      onto, so it is printed as an ordinary character: "%zq" prints "q". */
  lemma SizeWithoutConversion(fmt: seq<char>, k: int, args: seq<Arg>, a: nat)
    requires 0 <= k && k + 2 < |fmt| && a <= |args| && fmt[k] == '%' && fmt[k + 1] == 'z'
    requires !IsIntConv(fmt[k + 2])
    ensures Run(fmt, k, args, a) == Run(fmt, k + 2, args, a)
  {
    Bare(fmt, k, args, a);
  }

  /** The conversion, as `vformat`'s `switch` does it. */
  method ConvertStep(fmt: seq<char>, j: int, args: seq<Arg>, a: nat, width: int, flags: int) returns (step: Step, count: int)
    requires 0 <= j <= |fmt| && a <= |args|
    ensures step == Convert(fmt, j, args, a, width, flags)
    ensures step.Emit? ==> count == |step.text|
  {
    var c := At(fmt, j);
    if IsIntConv(c) {
      step, count := IntegerStep(fmt, j, args, a, width, flags, c, Word);
    } else if c == 'z' {
      var c2 := At(fmt, j + 1);
      if IsIntConv(c2) {
        step, count := IntegerStep(fmt, j + 1, args, a, width, flags, c2, Long);
      } else {
        step, count := Finish(fmt, j, [], a), 0;
      }
    } else if c == 'p' {
      step, count := IntegerStep(fmt, j, args, a, width, flags, 'X', Long);
    } else if c == 'c' {
      if a == |args| {
        return Undefined, 0;
      }
      var text, n := Prints([U8(Bits(args[a])) as char, '\0'], width, flags);
      step, count := Finish(fmt, j, text, a + 1), n;
    } else if c == 's' {
      if a == |args| {
        return Undefined, 0;
      }
      var s := ReadText(args[a]);
      if s.Wild? {
        return Undefined, 0;
      }
      var text, n := Prints(if s.Null? then "(null)" else s.chars, width, flags);
      step, count := Finish(fmt, j, text, a + 1), n;
    } else if c == 'l' || c == 'h' {
      var c2 := At(fmt, j + 1);
      if IsIntConv(c2) {
        step, count := IntegerStep(fmt, j + 1, args, a, width, flags, c2, if c == 'l' then Long else Short);
      } else if c2 == c {
        var c3 := At(fmt, j + 2);
        if IsIntConv(c3) {
          step, count := IntegerStep(fmt, j + 2, args, a, width, flags, c3, if c == 'l' then Long else Byte);
        } else {
          step, count := Finish(fmt, j + 2, [], a), 0;
        }
      } else {
        step, count := Finish(fmt, j + 1, [], a), 0;
      }
    } else {
      step, count := Finish(fmt, j, [], a), 0;
    }
  }

  /** `u.<member> = va_arg(ap, T); pc += simple_outputi(out, u.<member>, …)`. */
  method IntegerStep(fmt: seq<char>, j: int, args: seq<Arg>, a: nat, width: int, flags: int, c: char, size: Size)
    returns (step: Step, count: int)
    requires 0 <= j <= |fmt| && a <= |args| && IsIntConv(c)
    ensures step == Integer(fmt, j, args, a, width, flags, c, size)
    ensures step.Emit? ==> count == |step.text|
  {
    if a == |args| {
      return Undefined, 0;
    }
    var bits := Bits(args[a]);
    var value := if c == 'd' then Signed(size, bits) else Unsigned(size, bits);
    var text, n := OutputI(I64(value), if c == 'd' || c == 'u' then 10 else 16, c == 'd', width, flags, if c == 'X' then 'A' else 'a');
    step, count := Finish(fmt, j, text, a + 1), n;
  }

  /** The start of one pass of the scanning loop, with the flag and width
      loops. */
  method ParseStep(fmt: seq<char>, k: int, args: seq<Arg>, a: nat) returns (p: Spec)
    requires 0 <= k < |fmt| && a <= |args|
    ensures p == Parse(fmt, k, args, a)
  {
    if fmt[k] != '%' {
      return Copy([fmt[k]], k + 1);
    }
    var j := k + 1;
    var width := 0;
    var flags := 0;
    if At(fmt, j) == '\0' {
      return Halt;
    }
    if fmt[j] == '%' {
      return Copy(['%'], j + 1);
    }
    if fmt[j] == '-' {
      j := j + 1;
      flags := PAD_RIGHT;
    }
    ghost var j1, flags1 := j, flags;
    while At(fmt, j) == '0'
      invariant j1 <= j <= |fmt| && ZerosEnd(fmt, j) == ZerosEnd(fmt, j1)
      invariant flags == if j > j1 then SetZero(flags1) else flags1
      decreases |fmt| - j
    {
      j := j + 1;
      flags := SetZero(flags);
    }
    if At(fmt, j) == '*' {
      if a == |args| {
        return NoArgument;
      }
      width := I32(Bits(args[a]));
      p := Conversion(j + 1, width, flags, a + 1);
    } else {
      width, j := ScanDecimal(fmt, j);
      p := Conversion(j, width, flags, a);
    }
  }

  /** One pass of the scanning loop. */
  method DirectiveStep(fmt: seq<char>, k: int, args: seq<Arg>, a: nat) returns (step: Step, count: int)
    requires 0 <= k < |fmt| && a <= |args|
    ensures step == Directive(fmt, k, args, a)
    ensures step.Emit? ==> count == |step.text|
  {
    var p := ParseStep(fmt, k, args, a);
    match p
    case Copy(text, next) =>
      step, count := Emit(text, next, a), 1;
    case Halt =>
      step, count := Stop, 0;
    case NoArgument =>
      step, count := Undefined, 0;
    case Conversion(j, width, flags, used) =>
      step, count := ConvertStep(fmt, j, args, used, width, flags);
  }

  /** `vformat(out, format, ap)`: the characters emitted, and the count it
      returns, which is their number. */
  method VFormat(fmt: seq<char>, args: seq<Arg>) returns (emitted: Option<seq<char>>, pc: int)
    ensures emitted == Run(fmt, 0, args, 0)
    ensures emitted.Some? ==> pc == |emitted.value|
  {
    var k := 0;
    var a: nat := 0;
    var out: seq<char> := [];
    pc := 0;
    while k < |fmt| && fmt[k] != '\0'
      invariant 0 <= k <= |fmt| && a <= |args| && pc == |out|
      invariant Run(fmt, 0, args, 0) == Prepend(out, Run(fmt, k, args, a))
      decreases |fmt| - k
    {
      var step, count := DirectiveStep(fmt, k, args, a);
      if step.Stop? {
        return Some(out), pc;
      }
      if step.Undefined? {
        return None, pc;
      }
      PrependTwice(out, step.text, Run(fmt, step.next, args, step.used));
      out := out + step.text;
      pc := pc + count;
      k, a := step.next, step.used;
    }
    emitted := Some(out);
  }
}

/** The heap-allocating `vformat(fmt, ap)` of kernel/src/lib/format.cpp:
    format into a 128-byte block, and when the text did not fit, into a
    block exactly one longer than the text. */
module KernelHeapFormat {
  import opened CInt
  import opened VarArgs
  import opened KernelFormat
  import KernelHeap

  /** What the heap `vformat` returns: a null pointer, or a block holding
      the NUL-terminated text, or nothing, because `malloc` panicked. */
  datatype HeapText = NullPointer | Text(addr: int, chars: seq<char>) | OutOfMemory

  /** The first block's size. */
  const FIRST_CAP: nat := 128

  /** Each pass allocates `cap` bytes and formats into them; a count below
      `cap` means the text fitted and is NUL-terminated, otherwise the
      block is dropped and the next pass asks for the count plus one. The
      heap never returns null here, so the result is the text, with at
      most two passes, in a block large enough to hold it. */
  method HeapVFormat(heap: KernelHeap.Heap, fmt: seq<char>, args: seq<Arg>) returns (r: HeapText)
    requires Run(fmt, 0, args, 0).Some? && |Run(fmt, 0, args, 0).value| < 0x7FFF_FFFF
    requires 0 <= heap.hhdm && 0 <= heap.ptr && heap.ptr + 7 < TWO64 && heap.hhdm + heap.heapEnd + 7 < TWO64
    modifies heap
    ensures r != NullPointer
    ensures r.Text? ==> r.chars == Run(fmt, 0, args, 0).value + ['\0']
    ensures r.Text? ==> r.addr % KernelHeap.ALIGN == 0 && r.addr + |r.chars| <= heap.heapEnd
  {
    ghost var text := Run(fmt, 0, args, 0).value;
    var cap := FIRST_CAP;
    while true
      invariant cap == FIRST_CAP || cap == |text| + 1
      invariant 0 <= heap.ptr && heap.ptr + 7 < TWO64
      decreases if cap <= |text| then 1 else 0
    {
      KernelHeap.MallocSpec(heap.ptr, heap.heapEnd, heap.hhdm, cap);
      var buf := heap.Allocate(cap);
      if buf.Null? {
        return NullPointer;
      }
      if buf.OutOfMemory? {
        return OutOfMemory;
      }
      var out, written := VFormat(fmt, args);
      if written < cap {
        return Text(buf.addr, out.value + ['\0']);
      }
      heap.Free(buf.addr);
      cap := written + 1;
    }
  }
}
