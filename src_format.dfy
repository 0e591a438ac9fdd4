/** The multiboot tree's formatter (src/lib/format.cpp): `int_str` writes an
    integer into a 256-byte scratch buffer, and `vformat` expands a format
    into a static 1024-byte buffer through `appendCharacter` and
    `appendString`, which drop everything past the 1023rd character. */
module SrcFormat {
  import opened CInt
  import opened Wrappers
  import opened Numerals
  import opened VarArgs
  import KernelFormat

  /** The size of `int_str`'s buffers (`intStrBuffer` and its local `a`). */
  const INT_BUF: nat := 256
  /** The size of `vformat`'s static `outputBuffer`. */
  const OUT_BUF: nat := 1024
  const MIN_I64: int := -0x8000_0000_0000_0000

  // ---------------------------------------------------------------------
  // int_str

  /** The bases `int_str` is called with: 17 asks for hexadecimal in lower case. */
  predicate IntBase(base: int) { base == 8 || base == 10 || base == 16 || base == 17 }

  function DigitBase(base: int): int { if base == 17 then 16 else base }

  /** The digit table: "0123456789" with "ABCDEF" for base 16 and "abcdef" for 17. */
  function DigitCase(base: int): char { if base == 17 then 'a' else 'A' }

  /** The sign `int_str` writes: '-' for a negative number, else '+' or ' '
      when asked for, else none. */
  function Sign(i: int, plus: bool, space: bool): seq<char>
  {
    if i < 0 then "-" else if plus then "+" else if space then " " else ""
  }

  /** The sign followed by the digits of the magnitude. */
  function Body(i: int, base: int, plus: bool, space: bool): seq<char>
    requires IntBase(base)
  {
    Sign(i, plus, space) + Numeral(Abs(i), DigitBase(base), DigitCase(base))
  }

  function PadChar(zeroPad: bool): char { if zeroPad then '0' else ' ' }

  /** The string `int_str(i, b, base, plus, space, paddingNo, justify,
      zeroPad)` leaves in `b`: the body padded to `paddingNo` characters,
      after it when `justify`, else in front of it (and so in front of the
      sign). None when the behaviour is undefined: negating the most negative
      `intmax_t`, or a string that leaves no room for its terminator in the
      256-byte buffer. */
  function IntStr(i: int, base: int, plus: bool, space: bool, paddingNo: int, justify: bool, zeroPad: bool): Option<seq<char>>
    requires IntBase(base)
  {
    if i == MIN_I64 then None
    else
      var body := Body(i, base, plus, space);
      var fill := KernelFormat.Repeat(PadChar(zeroPad), paddingNo - |body|);
      var s := if justify then body + fill else fill + body;
      if |s| < INT_BUF then Some(s) else None
  }

  /** After the optional sign the body's digits are digits of the base, in
      the case of the digit table, and read back to the magnitude. */
  lemma BodyDigits(i: int, base: int, plus: bool, space: bool)
    requires IntBase(base)
    ensures var b := Body(i, base, plus, space);
      var n := |Sign(i, plus, space)|;
      && n <= 1 && n < |b|
      && ValueOf(b[n..], DigitBase(base)) == Abs(i)
      && InCase(b[n..], DigitBase(base), DigitCase(base))
  {
    var b := Body(i, base, plus, space);
    var d := Numeral(Abs(i), DigitBase(base), DigitCase(base));
    NumeralSpec(Abs(i), DigitBase(base), DigitCase(base));
    assert b[|Sign(i, plus, space)|..] == d;
  }

  /** The body starts with '-' exactly for a negative number, and with '+'
      or ' ' only when that was asked for and the number is not negative. */
  lemma BodySign(i: int, base: int, plus: bool, space: bool)
    requires IntBase(base)
    ensures var b := Body(i, base, plus, space);
      && |b| > 0
      && (b[0] == '-' <==> i < 0)
      && (b[0] == '+' <==> i >= 0 && plus)
      && (b[0] == ' ' <==> i >= 0 && !plus && space)
  {
    var s := Sign(i, plus, space);
    var d := Numeral(Abs(i), DigitBase(base), DigitCase(base));
    NumeralSpec(Abs(i), DigitBase(base), DigitCase(base));
    assert 0 <= DigitValue(d[0]);
    if s == [] {
      assert Body(i, base, plus, space)[0] == d[0];
    }
  }

  /** The body is never empty and holds no terminator. */
  lemma BodyChars(i: int, base: int, plus: bool, space: bool)
    requires IntBase(base)
    ensures 0 < |Body(i, base, plus, space)| && '\0' !in Body(i, base, plus, space)
  {
    var d := Numeral(Abs(i), DigitBase(base), DigitCase(base));
    NumeralSpec(Abs(i), DigitBase(base), DigitCase(base));
    NoNulDigits(d, DigitBase(base), DigitCase(base));
  }

  /** Digits are never the terminator. */
  lemma NoNulDigits(d: seq<char>, base: int, letbase: char)
    requires Letbase(letbase) && InCase(d, base, letbase)
    ensures '\0' !in d
  {
    forall k | 0 <= k < |d|
      ensures d[k] != '\0'
    {
      assert 0 <= DigitValue(d[k]);
    }
  }

  /** `int_str`'s result has the width asked for, or the body's when that is
      longer; the body sits at the left when `justify` and at the right
      otherwise, and pad characters fill the rest. It is undefined exactly for
      the most negative `intmax_t` and for widths of 256 and more. */
  lemma IntStrSpec(i: int, base: int, plus: bool, space: bool, paddingNo: int, justify: bool, zeroPad: bool)
    requires IntBase(base)
    ensures var body := Body(i, base, plus, space);
      var width := if paddingNo > |body| then paddingNo else |body|;
      var r := IntStr(i, base, plus, space, paddingNo, justify, zeroPad);
      && (r.None? <==> i == MIN_I64 || width >= INT_BUF)
      && (r.Some? ==>
        && |r.value| == width && '\0' !in r.value
        && (justify ==>
             && r.value[..|body|] == body
             && forall k :: |body| <= k < width ==> r.value[k] == PadChar(zeroPad))
        && (!justify ==>
             && r.value[width - |body|..] == body
             && forall k :: 0 <= k < width - |body| ==> r.value[k] == PadChar(zeroPad)))
  {
    BodyChars(i, base, plus, space);
    var body := Body(i, base, plus, space);
    var fill := KernelFormat.Repeat(PadChar(zeroPad), paddingNo - |body|);
    if justify {
      assert (body + fill)[..|body|] == body;
    } else {
      assert (fill + body)[|fill|..] == body;
    }
  }

  /** "%04d" of -5 prints "00-5": the zeros go in front of the sign. */
  lemma ZerosBeforeSign()
    ensures IntStr(-5, 10, false, false, 4, false, true) == Some("00-5")
  {
    assert Numeral(5, 10, 'A') == "5";
    assert Body(-5, 10, false, false) == "-5";
    assert KernelFormat.Repeat(PadChar(true), 4 - 2) == "00";
    assert "00" + "-5" == "00-5";
  }

  /** "%-03d" of 5 prints "500": with `-`, the zeros go after the digits. */
  lemma ZerosAfterDigits()
    ensures IntStr(5, 10, false, false, 3, true, true) == Some("500")
  {
    assert Numeral(5, 10, 'A') == "5";
    assert Body(5, 10, false, false) == "5";
    assert KernelFormat.Repeat(PadChar(true), 3 - 1) == "00";
    assert "5" + "00" == "500";
  }

  /** The exponent `int_str(0, …, 10, false, false, 2, false, true)` that
      "%e" appends is "00". */
  lemma ExponentDigits()
    ensures IntStr(0, 10, false, false, 2, false, true) == Some("00")
  {
    assert Body(0, 10, false, false) == "0";
    assert KernelFormat.Repeat(PadChar(true), 2 - 1) == "0";
    assert "0" + "0" == "00";
  }

  // --- the buffers

  /** `buf` holds the C string `s`, and zeros after it, as a buffer does
      once `memset` to zero and written from the front. */
  ghost predicate Holds(buf: seq<char>, s: seq<char>)
  {
    |s| < |buf| && buf[..|s|] == s && '\0' !in s
    && forall k :: |s| <= k < |buf| ==> buf[k] == '\0'
  }

  /** `strlen` of such a buffer is the length of what it holds. */
  lemma HoldsCStr(buf: seq<char>, s: seq<char>)
    requires Holds(buf, s)
    ensures CStr(buf) == s
  {
    assert buf[|s|] == '\0';
  }

  /** `while (padding--) buf[strlen(buf)] = c;` on a buffer holding `s`;
      false, undefined behaviour, once the string fills all 256 bytes and
      leaves the next `strlen` without a terminator. */
  method Pad(buf: array<char>, ghost s: seq<char>, padding: int, c: char) returns (ok: bool)
    requires buf.Length == INT_BUF && Holds(buf[..], s) && c != '\0' && padding >= 0
    modifies buf
    ensures ok == (|s| + padding < INT_BUF)
    ensures ok ==> Holds(buf[..], s + KernelFormat.Repeat(c, padding))
  {
    var k := padding;
    while k > 0
      invariant 0 <= k <= padding
      invariant Holds(buf[..], s + KernelFormat.Repeat(c, padding - k))
    {
      ghost var t := s + KernelFormat.Repeat(c, padding - k);
      HoldsCStr(buf[..], t);
      var n := KernelFormat.StrLen(buf[..]);
      if n == INT_BUF - 1 {
        return false;
      }
      buf[n] := c;
      k := k - 1;
      assert s + KernelFormat.Repeat(c, padding - k) == t + [c];
      assert buf[..n + 1] == t + [c];
    }
    ok := true;
  }

  /** `strcat(a, b)`: what `b` holds is copied after what `a` holds; false,
      undefined behaviour, when the result and its terminator overrun `a`. */
  method Strcat(a: array<char>, b: array<char>, ghost s: seq<char>, ghost t: seq<char>) returns (ok: bool)
    requires a.Length == INT_BUF && b.Length == INT_BUF && a != b
    requires Holds(a[..], s) && Holds(b[..], t)
    modifies a
    ensures ok == (|s| + |t| < INT_BUF)
    ensures ok ==> Holds(a[..], s + t)
  {
    HoldsCStr(a[..], s);
    var n := KernelFormat.StrLen(a[..]);
    var k := 0;
    while b[k] != '\0'
      invariant 0 <= k <= |t| && n + k < INT_BUF
      invariant Holds(a[..], s + t[..k])
      decreases |t| - k
    {
      if n + k == INT_BUF - 1 {
        return false;
      }
      a[n + k] := b[k];
      assert (s + t[..k]) + [t[k]] == s + t[..k + 1];
      assert a[..n + k + 1] == s + t[..k + 1];
      k := k + 1;
    }
    a[n + k] := '\0';
    assert t[..k] == t;
    ok := true;
  }

  /** `strcpy(b, a)`: what `a` holds replaces what `b` held, which was no
      longer. */
  method Strcpy(b: array<char>, a: array<char>, ghost s: seq<char>, ghost t: seq<char>)
    requires a.Length == INT_BUF && b.Length == INT_BUF && a != b
    requires Holds(a[..], s) && Holds(b[..], t) && |t| <= |s|
    modifies b
    ensures Holds(b[..], s)
  {
    var k := 0;
    while a[k] != '\0'
      invariant 0 <= k <= |s|
      invariant b[..k] == s[..k]
      invariant forall j :: |s| <= j < INT_BUF ==> b[j] == '\0'
      decreases |s| - k
    {
      b[k] := a[k];
      k := k + 1;
      assert b[..k] == s[..k];
    }
    b[k] := '\0';
    assert b[..|s|] == s[..k];
  }

  // --- the digit loops

  function Pow2(k: nat): nat { if k == 0 then 1 else 2 * Pow2(k - 1) }

  lemma {:induction false} Pow2Add(a: nat, b: nat)
    ensures Pow2(a + b) == Pow2(a) * Pow2(b)
    decreases a
  {
    if a > 0 {
      Pow2Add(a - 1, b);
      assert Pow2(a + b) == 2 * Pow2(a - 1 + b);
    }
  }

  /** Dividing by a base of at least two at least halves. */
  lemma Halves(n: nat, base: int)
    requires Base(base)
    ensures 0 <= n / base && 2 * (n / base) <= n
  {
    var q := n / base;
    DivMod(n, base);
    assert q * base - q * 2 == q * (base - 2);
  }

  /** A number below 2^k has at most k digits in any base. */
  lemma {:induction false} DigitsBound(n: nat, base: int, letbase: char, k: nat)
    requires Base(base) && Letbase(letbase) && n < Pow2(k)
    ensures |Digits(n, base, letbase)| <= k
    decreases n
  {
    if n > 0 {
      assert k != 0;
      Halves(n, base);
      Shrinks(n, base);
      assert Pow2(k) == 2 * Pow2(k - 1);
      DigitsBound(n / base, base, letbase, k - 1);
    }
  }

  lemma Pow2Of64()
    ensures Pow2(64) == TWO64
  {
    assert Pow2(8) == 0x100;
    Pow2Add(8, 8);
    assert Pow2(16) == 0x1_0000;
    Pow2Add(16, 16);
    assert Pow2(32) == 0x1_0000_0000;
    Pow2Add(32, 32);
  }

  /** No magnitude `int_str` prints has more than 64 digits. */
  lemma NumeralBound(n: nat, base: int, letbase: char)
    requires Base(base) && Letbase(letbase) && n < TWO64
    ensures 1 <= |Numeral(n, base, letbase)| <= 64
  {
    Pow2Of64();
    DigitsBound(n, base, letbase, 64);
  }

  /** The numeral has one digit more than the quotient by the base has digits. */
  lemma NumeralCount(n: nat, base: int, letbase: char)
    requires Base(base) && Letbase(letbase)
    ensures 0 <= n / base && (n > 0 ==> n / base < n)
    ensures |Numeral(n, base, letbase)| == 1 + |Digits(n / base, base, letbase)|
  {
    if n > 0 {
      Shrinks(n, base);
    } else {
      assert n / base == 0;
    }
  }

  /** A positive number has one digit more than its quotient by the base. */
  lemma DigitsCount(u: nat, base: int, letbase: char)
    requires Base(base) && Letbase(letbase) && u > 0
    ensures 0 <= u / base < u && 0 <= u % base < base
    ensures |Digits(u, base, letbase)| == 1 + |Digits(u / base, base, letbase)|
  {
    Shrinks(u, base);
  }

  /** `do { ++p; shifter /= base; } while (shifter);`: one step per digit
      of the numeral. */
  method CountDigits(n: nat, base: int, ghost letbase: char) returns (count: nat)
    requires Base(base) && Letbase(letbase)
    ensures count == |Numeral(n, base, letbase)|
  {
    NumeralCount(n, base, letbase);
    count := 1;
    var shifter: nat := n / base;
    while shifter != 0
      invariant count + |Digits(shifter, base, letbase)| == |Numeral(n, base, letbase)|
      decreases shifter
    {
      DigitsCount(shifter, base, letbase);
      count := count + 1;
      shifter := shifter / base;
    }
  }

  /** `*p = '\0'; do { *--p = digit[i % base]; i /= base; } while (i);`:
      the numeral of `n` written backwards into `buf[start..end]`, and
      nothing else changed. For zero the loop makes its one pass and writes
      "0". */
  method FillDigits(buf: array<char>, start: nat, end: nat, n: nat, base: int, letbase: char)
    requires Base(base) && Letbase(letbase) && end == start + |Numeral(n, base, letbase)| && end < buf.Length
    modifies buf
    ensures buf[start..end] == Numeral(n, base, letbase) && buf[end] == '\0'
    ensures forall j :: 0 <= j < buf.Length && !(start <= j <= end) ==> buf[j] == old(buf[j])
  {
    buf[end] := '\0';
    var p := end;
    if n == 0 {
      p := p - 1;
      buf[p] := DigitChar(0, letbase);
      assert buf[start..end] == [DigitChar(0, letbase)];
      return;
    }
    FillPositive(buf, start, end, n, base, letbase);
  }

  /** The loop of `FillDigits` for a positive number. */
  method FillPositive(buf: array<char>, start: nat, end: nat, n: nat, base: int, letbase: char)
    requires Base(base) && Letbase(letbase) && n > 0
    requires end == start + |Digits(n, base, letbase)| && end < buf.Length && buf[end] == '\0'
    modifies buf
    ensures buf[start..end] == Digits(n, base, letbase) && buf[end] == '\0'
    ensures forall j :: 0 <= j < buf.Length && !(start <= j < end) ==> buf[j] == old(buf[j])
  {
    var p := end;
    var u: nat := n;
    ghost var tail: seq<char> := [];
    while u != 0
      invariant start <= p <= end && |tail| == end - p
      invariant buf[p..end] == tail && Digits(u, base, letbase) + tail == Digits(n, base, letbase)
      invariant forall j :: 0 <= j < buf.Length && !(start <= j < end) ==> buf[j] == old(buf[j])
      decreases u
    {
      DigitsCount(u, base, letbase);
      DigitsStep(u, base, letbase, tail);
      var c := DigitChar(u % base, letbase);
      p := p - 1;
      WriteBack(buf, p, end, c, tail);
      tail := [c] + tail;
      u := u / base;
    }
  }

  /** `*--p = c`, in front of the characters already written. */
  method WriteBack(buf: array<char>, p: nat, end: nat, c: char, ghost tail: seq<char>)
    requires p < end <= buf.Length && buf[p + 1..end] == tail
    modifies buf
    ensures buf[p..end] == [c] + tail
    ensures forall j :: 0 <= j < buf.Length && j != p ==> buf[j] == old(buf[j])
  {
    buf[p] := c;
    assert buf[p..end] == [c] + buf[p + 1..end];
  }

  /** The sign `int_str` writes first, and the magnitude it goes on with. */
  method WriteSign(i0: int, b: array<char>, plus: bool, space: bool) returns (p: int, i: nat)
    requires InI64(i0) && i0 != MIN_I64 && b.Length == INT_BUF && Holds(b[..], [])
    modifies b
    ensures i == Abs(i0) && p == |Sign(i0, plus, space)| && b[..p] == Sign(i0, plus, space)
    ensures forall j :: p <= j < b.Length ==> b[j] == '\0'
  {
    p := 0;
    if i0 < 0 {
      b[p] := '-';
      p := p + 1;
      i := -i0;
    } else {
      i := i0;
      if plus {
        b[p] := '+';
        p := p + 1;
      } else if space {
        b[p] := ' ';
        p := p + 1;
      }
    }
  }

  /** The sign and the two digit loops of `int_str`, on a buffer `memset`
      to zero: false where `i *= -1` overflows, and otherwise the buffer
      holds the body. */
  method WriteBody(i0: int, b: array<char>, base0: int, plus: bool, space: bool) returns (ok: bool)
    requires InI64(i0) && IntBase(base0) && b.Length == INT_BUF && Holds(b[..], [])
    modifies b
    ensures ok == (i0 != MIN_I64)
    ensures ok ==> Holds(b[..], Body(i0, base0, plus, space))
  {
    var base := DigitBase(base0);
    var letbase := DigitCase(base0);
    if i0 == MIN_I64 {
      return false;
    }
    var p, i := WriteSign(i0, b, plus, space);
    NumeralBound(i, base, letbase);
    var count := CountDigits(i, base, letbase);
    var end := p + count;
    FillDigits(b, p, end, i, base, letbase);
    ghost var body := Body(i0, base0, plus, space);
    assert b[..end] == b[..p] + b[p..end];
    BodyChars(i0, base0, plus, space);
    ok := true;
  }

  /** `int_str(i, b, base, plus, space, paddingNo, justify, zeroPad)` on a
      buffer `memset` to zero: false where the behaviour is undefined, and
      otherwise the buffer holds exactly the string `IntStr` describes. */
  method IntStrInto(i: int, b: array<char>, base: int, plus: bool, space: bool, paddingNo: int, justify: bool, zeroPad: bool) returns (ok: bool)
    requires InI64(i) && IntBase(base) && b.Length == INT_BUF && Holds(b[..], [])
    modifies b
    ensures var r := IntStr(i, base, plus, space, paddingNo, justify, zeroPad);
      ok == r.Some? && (ok ==> Holds(b[..], r.value))
  {
    ok := WriteBody(i, b, base, plus, space);
    if !ok {
      return;
    }
    ghost var body := Body(i, base, plus, space);
    HoldsCStr(b[..], body);
    var len := KernelFormat.StrLen(b[..]);
    var padding := paddingNo - len;
    if padding < 0 {
      padding := 0;
    }
    var c := PadChar(zeroPad);
    ghost var fill := KernelFormat.Repeat(c, padding);
    assert fill == KernelFormat.Repeat(c, paddingNo - |body|);
    if justify {
      ok := Pad(b, body, padding, c);
    } else {
      ok := PadLeft(b, body, padding, c);
    }
  }

  /** The right-justified branch of `int_str`: the padding goes into a
      second buffer, the number is appended to it with `strcat`, and the
      result is copied back with `strcpy`. */
  method PadLeft(b: array<char>, ghost body: seq<char>, padding: int, c: char) returns (ok: bool)
    requires b.Length == INT_BUF && Holds(b[..], body) && c != '\0' && padding >= 0
    modifies b
    ensures ok == (|body| + padding < INT_BUF)
    ensures ok ==> Holds(b[..], KernelFormat.Repeat(c, padding) + body)
  {
    ghost var fill := KernelFormat.Repeat(c, padding);
    var a := new char[INT_BUF](_ => '\0');
    ok := Pad(a, [], padding, c);
    if ok {
      assert [] + fill == fill;
      ok := Strcat(a, b, fill, body);
      if ok {
        Strcpy(b, a, fill + body, body);
      }
    }
  }

  // ---------------------------------------------------------------------
  // vformat: what it prints

  /** The flags a directive may carry: `-`, `+`, `#`, ` ` and `0`. */
  datatype Flags = Flags(left: bool, plus: bool, alt: bool, space: bool, zero: bool)

  const NO_FLAGS := Flags(false, false, false, false, false)

  /** The flag characters from `j` on, gathered onto `f`, and the index of the
      first character that is no flag. */
  function FlagRun(fmt: seq<char>, j: int, f: Flags): (r: (int, Flags))
    requires 0 <= j <= |fmt|
    ensures j <= r.0 <= |fmt| && At(fmt, r.0) !in "-+# 0"
    decreases |fmt| - j
  {
    var c := At(fmt, j);
    if c == '-' then FlagRun(fmt, j + 1, f.(left := true))
    else if c == '+' then FlagRun(fmt, j + 1, f.(plus := true))
    else if c == '#' then FlagRun(fmt, j + 1, f.(alt := true))
    else if c == ' ' then FlagRun(fmt, j + 1, f.(space := true))
    else if c == '0' then FlagRun(fmt, j + 1, f.(zero := true))
    else (j, f)
  }

  /** How a directive starting at a '%' reads: it ends the loop (`break`),
      with `text` appended first; it reads an argument that is not there;
      or it reaches its conversion character at `at`, with its flags, its
      width, its length character (NUL for none) and the next argument. */
  datatype Parsed =
    | Stopped(text: seq<char>)
    | Missing
    | Conv(at: nat, flags: Flags, width: int, length: char, used: nat)

  /** The directive at `fmt[k] == '%'`: a '%' at the very end is printed;
      the flags; the width, in digits or as an `int` argument for '*'; the
      precision, read and never used; the length. The format running out
      after any of these parts ends the loop. */
  function Parse(fmt: seq<char>, k: int, args: seq<Arg>, a: nat): (p: Parsed)
    requires 0 <= k < |fmt| && fmt[k] == '%' && a <= |args|
    ensures p.Conv? ==> k < p.at <= |fmt| && a <= p.used <= |args|
  {
    if At(fmt, k + 1) == '\0' then Stopped("%")
    else
      var (j, flags) := FlagRun(fmt, k + 1, NO_FLAGS);
      if At(fmt, j) == '\0' then Stopped([])
      else
        var (width, j2) := Decimal(fmt, j, 0);
        if At(fmt, j2) == '*' then
          if a == |args| then Missing
          else if At(fmt, j2 + 1) == '\0' then Stopped([])
          else ParsePrecision(fmt, j2 + 1, args, a + 1, flags, I32(Bits(args[a])))
        else ParsePrecision(fmt, j2, args, a, flags, width)
  }

  function ParsePrecision(fmt: seq<char>, j: int, args: seq<Arg>, a: nat, flags: Flags, width: int): (p: Parsed)
    requires 0 <= j <= |fmt| && a <= |args|
    ensures p.Conv? ==> j <= p.at <= |fmt| && a <= p.used <= |args|
  {
    if At(fmt, j) != '.' then ParseLength(fmt, j, a, flags, width)
    else if At(fmt, j + 1) == '\0' then Stopped([])
    else
      var j3 := Decimal(fmt, j + 1, 0).1;
      if At(fmt, j3) == '\0' then Stopped([])
      else if fmt[j3] == '*' then
        if a == |args| then Missing
        else if At(fmt, j3 + 1) == '\0' then Stopped([])
        else ParseLength(fmt, j3 + 1, a + 1, flags, width)
      else ParseLength(fmt, j3, a, flags, width)
  }

  /** A length character; 'h' then 'h' becomes 'H' without stepping past
      the second 'h', and 'l' then 'l' becomes 'q' stepping past both. */
  function ParseLength(fmt: seq<char>, j: int, a: nat, flags: Flags, width: int): (p: Parsed)
    requires 0 <= j <= |fmt|
    ensures p.Conv? && j <= p.at <= |fmt| && p.used == a
  {
    var c := At(fmt, j);
    if c in "hljztL" then
      if At(fmt, j + 1) == 'h' then Conv(j + 1, flags, width, 'H', a)
      else if At(fmt, j + 1) == 'l' then Conv(j + 2, flags, width, 'q', a)
      else Conv(j + 1, flags, width, c, a)
    else Conv(j, flags, width, '\0', a)
  }

  /** What a conversion appends and the next argument; Fault where the
      behaviour is undefined. */
  datatype Out = Out(text: seq<char>, used: nat) | Fault

  function Prefixed(prefix: seq<char>, o: Out): (r: Out)
    ensures r.Out? == o.Out? && (r.Out? ==> r.used == o.used)
  {
    match o
    case Fault => Fault
    case Out(t, u) => Out(prefix + t, u)
  }

  /** The lengths the integer and `%n` switches have a case for. */
  predicate KnownLength(len: char) { len in "\0Hhlqjzt" }

  /** The argument as the integer type of an unsigned conversion's length,
      converted to `intmax_t` for `int_str`: the 64-bit ones become signed. */
  function UnsignedValue(len: char, bits: int): (v: int)
    ensures InI64(v)
  {
    if len == '\0' then U32(bits) else if len == 'H' then U8(bits) else if len == 'h' then U16(bits) else I64(bits)
  }

  /** The argument as the signed type of a signed conversion's length. */
  function SignedValue(len: char, bits: int): (v: int)
    ensures InI64(v)
  {
    if len == '\0' then I32(bits) else if len == 'H' then I8(bits) else if len == 'h' then I16(bits) else I64(bits)
  }

  /** An integer conversion: nothing, reading no argument, for a length the
      switch has no case for; otherwise `int_str` of the argument. */
  function Number(signed: bool, len: char, base: int, flags: Flags, width: int, args: seq<Arg>, a: nat): (o: Out)
    requires IntBase(base) && a <= |args|
    ensures o.Out? ==> a <= o.used <= |args|
  {
    if !KnownLength(len) then Out([], a)
    else if a == |args| then Fault
    else
      var bits := Bits(args[a]);
      var v := if signed then SignedValue(len, bits) else UnsignedValue(len, bits);
      match IntStr(v, base, flags.plus, flags.space, width, flags.left, flags.zero)
      case None => Fault
      case Some(t) => Out(t, a + 1)
  }

  /** The conversion switch on `spec`, after 'o' and 'p' were turned into
      'u' with their base. 'X' and 'x' fall through into 'u' after the "0x"
      of the alternative form; 'e' and 'E' print an exponent of "+00"; 'a',
      'A' and every other character print nothing. */
  function Convert(spec: char, base: int, len: char, flags: Flags, width: int, args: seq<Arg>, a: nat): (o: Out)
    requires (base == 8 || base == 10 || base == 16) && a <= |args|
    ensures o.Out? ==> a <= o.used <= |args|
  {
    if spec == 'X' || spec == 'x' then
      var b := if spec == 'X' then 16 else if base == 10 then 17 else base;
      Prefixed(if flags.alt then "0x" else "", Number(false, len, b, flags, width, args, a))
    else if spec == 'u' then Number(false, len, base, flags, width, args, a)
    else if spec == 'd' || spec == 'i' then Number(true, len, base, flags, width, args, a)
    else if spec == 'c' then
      if a == |args| then Fault else Out([U8(Bits(args[a])) as char], a + 1)
    else if spec == 's' then
      if a == |args| then Fault
      else match ReadText(args[a])
        case Null => Out("(null)", a + 1)
        case Chars(t) => Out(CStr(t), a + 1)
        case Wild => Fault
    else if spec == 'n' then
      if !KnownLength(len) then Out([], a) else if a == |args| then Fault else Out([], a + 1)
    else if spec == 'e' || spec == 'E' then
      match IntStr(0, 10, false, false, 2, false, true)
      case None => Fault
      case Some(t) => Out([spec, '+'] + t, a)
    else Out([], a)
  }

  /** The conversion at `fmt[at]`: 'o' is 'u' in base 8, after a "0" for
      the alternative form, and 'p' is 'u' in base 16 with length 'z'. */
  function Conversion(fmt: seq<char>, at: int, args: seq<Arg>, a: nat, flags: Flags, width: int, len: char): (o: Out)
    requires 0 <= at <= |fmt| && a <= |args|
    ensures o.Out? ==> a <= o.used <= |args|
  {
    var spec := At(fmt, at);
    if spec == 'o' then Prefixed(if flags.alt then "0" else "", Convert('u', 8, len, flags, width, args, a))
    else if spec == 'p' then Convert('u', 16, 'z', flags, width, args, a)
    else Convert(spec, 10, len, flags, width, args, a)
  }

  /** One pass of the main loop from `fmt[k]`: the text it appends, and
      where the loop goes on, after its `++i`, with which argument next;
      or the end of the loop; or undefined behaviour, which includes the
      `++i` stepping past the terminator when the format ends where a
      conversion character should be. */
  datatype Step = Emit(text: seq<char>, next: nat, used: nat) | Stop(text: seq<char>) | Undefined

  function Directive(fmt: seq<char>, k: int, args: seq<Arg>, a: nat): (st: Step)
    requires 0 <= k < |fmt| && a <= |args|
    ensures st.Emit? ==> k < st.next <= |fmt| && a <= st.used <= |args|
  {
    if fmt[k] != '%' then Emit([fmt[k]], k + 1, a)
    else
      match Parse(fmt, k, args, a)
      case Stopped(t) => Stop(t)
      case Missing => Undefined
      case Conv(at, flags, width, len, used) =>
        match Conversion(fmt, at, args, used, flags, width, len)
        case Fault => Undefined
        case Out(t, u) => if at < |fmt| then Emit(t, at + 1, u) else Undefined
  }

  /** Everything `vformat` appends from `fmt[k]` on, with argument `a` next,
      before the 1023-character cut; None when the behaviour is undefined. */
  function Run(fmt: seq<char>, k: int, args: seq<Arg>, a: nat): Option<seq<char>>
    requires 0 <= k <= |fmt| && a <= |args|
    decreases |fmt| - k
  {
    if At(fmt, k) == '\0' then Some([])
    else
      match Directive(fmt, k, args, a)
      case Emit(t, next, used) => KernelFormat.Prepend(t, Run(fmt, next, args, used))
      case Stop(t) => Some(t)
      case Undefined => None
  }

  function Output(fmt: seq<char>, args: seq<Arg>): Option<seq<char>>
  {
    Run(fmt, 0, args, 0)
  }

  /** What `outputBuffer` keeps of a text: its first 1023 characters. */
  function Clip(t: seq<char>): (r: seq<char>)
    ensures |r| <= |t| && |r| <= OUT_BUF - 1 && r == t[..|r|]
    ensures |t| <= OUT_BUF - 1 ==> r == t
  {
    if |t| < OUT_BUF then t else t[..OUT_BUF - 1]
  }

  // --- what the specification promises

  /** Text without a '%' or a terminator is copied as it stands. */
  lemma {:induction false} Literals(fmt: seq<char>, k: int, args: seq<Arg>, a: nat)
    requires 0 <= k <= |fmt| && a <= |args|
    requires forall j :: k <= j < |fmt| ==> fmt[j] != '%' && fmt[j] != '\0'
    ensures Run(fmt, k, args, a) == Some(fmt[k..])
    decreases |fmt| - k
  {
    if k < |fmt| {
      Literals(fmt, k + 1, args, a);
      assert Directive(fmt, k, args, a) == Emit([fmt[k]], k + 1, a);
      assert Run(fmt, k, args, a) == KernelFormat.Prepend([fmt[k]], Run(fmt, k + 1, args, a));
      assert [fmt[k]] + fmt[k + 1..] == fmt[k..];
    } else {
      assert Run(fmt, k, args, a) == Some([]) && fmt[k..] == [];
    }
  }

  /** A '%' at the very end is printed, and ends the output. */
  lemma TrailingPercent(fmt: seq<char>, k: int, args: seq<Arg>, a: nat)
    requires 0 <= k < |fmt| && a <= |args| && fmt[k] == '%' && At(fmt, k + 1) == '\0'
    ensures Run(fmt, k, args, a) == Some("%")
  {
  }

  /** A directive that begins with no flag, digit, '*' or '.'. */
  lemma Bare(fmt: seq<char>, k: int, args: seq<Arg>, a: nat)
    requires 0 <= k && k + 1 < |fmt| && a <= |args| && fmt[k] == '%'
    requires fmt[k + 1] !in "-+# 0*.\0" && !IsDigit(fmt[k + 1])
    ensures Parse(fmt, k, args, a) == ParseLength(fmt, k + 1, a, NO_FLAGS, 0)
  {
    assert FlagRun(fmt, k + 1, NO_FLAGS) == (k + 1, NO_FLAGS);
    assert Decimal(fmt, k + 1, 0) == (0, k + 1);
  }

  /** "%%" prints nothing: '%' is no conversion the switch knows. */
  lemma PercentPercent(fmt: seq<char>, k: int, args: seq<Arg>, a: nat)
    requires 0 <= k && k + 1 < |fmt| && a <= |args| && fmt[k] == '%' && fmt[k + 1] == '%'
    ensures Run(fmt, k, args, a) == Run(fmt, k + 2, args, a)
  {
    Bare(fmt, k, args, a);
    assert Parse(fmt, k, args, a) == Conv(k + 1, NO_FLAGS, 0, '\0', a);
    assert Directive(fmt, k, args, a) == Emit([], k + 2, a);
  }

  /** "%hhd" prints "d" and reads no argument: the second 'h' is taken for
      the conversion character, which prints nothing, and the 'd' after it
      is then copied as text. */
  lemma ShortShort(fmt: seq<char>, k: int, args: seq<Arg>, a: nat)
    requires 0 <= k && k + 3 < |fmt| && a <= |args|
    requires fmt[k] == '%' && fmt[k + 1] == 'h' && fmt[k + 2] == 'h' && fmt[k + 3] == 'd'
    ensures Run(fmt, k, args, a) == KernelFormat.Prepend("d", Run(fmt, k + 4, args, a))
  {
    Bare(fmt, k, args, a);
    assert Directive(fmt, k, args, a) == Emit([], k + 3, a);
    assert Directive(fmt, k + 3, args, a) == Emit("d", k + 4, a);
  }

  /** The digits "%x" prints with no flags and no width. */
  lemma PlainNumber(v: int, base: int)
    requires 0 <= v < TWO32 && IntBase(base)
    ensures IntStr(v, base, false, false, 0, false, false) == Some(Numeral(v, DigitBase(base), DigitCase(base)))
  {
    NumeralBound(v, DigitBase(base), DigitCase(base));
    var body := Body(v, base, false, false);
    assert body == Numeral(v, DigitBase(base), DigitCase(base));
    assert body + KernelFormat.Repeat(' ', 0 - |body|) == body;
  }

  /** "%x" prints the 32-bit argument in lower-case hexadecimal and "%X" in
      upper case. */
  lemma HexConversion(fmt: seq<char>, k: int, args: seq<Arg>, a: nat)
    requires 0 <= k && k + 1 < |fmt| && a < |args| && fmt[k] == '%' && fmt[k + 1] in "xX"
    ensures var v := U32(Bits(args[a]));
      Directive(fmt, k, args, a) == Emit(Numeral(v, 16, if fmt[k + 1] == 'x' then 'a' else 'A'), k + 2, a + 1)
  {
    Bare(fmt, k, args, a);
    var v := U32(Bits(args[a]));
    PlainNumber(v, if fmt[k + 1] == 'x' then 17 else 16);
    assert [] + Numeral(v, 16, if fmt[k + 1] == 'x' then 'a' else 'A') == Numeral(v, 16, if fmt[k + 1] == 'x' then 'a' else 'A');
  }

  /** "%#X" prints "0x" in lower case before upper-case digits. */
  lemma AltHex(fmt: seq<char>, k: int, args: seq<Arg>, a: nat)
    requires 0 <= k && k + 2 < |fmt| && a < |args| && fmt[k] == '%' && fmt[k + 1] == '#' && fmt[k + 2] == 'X'
    ensures Directive(fmt, k, args, a) == Emit("0x" + Numeral(U32(Bits(args[a])), 16, 'A'), k + 3, a + 1)
  {
    assert FlagRun(fmt, k + 1, NO_FLAGS) == (k + 2, NO_FLAGS.(alt := true));
    assert Decimal(fmt, k + 2, 0) == (0, k + 2);
    PlainNumber(U32(Bits(args[a])), 16);
  }

  /** "%#o" prints a '0' before the octal digits. */
  lemma AltOctal(fmt: seq<char>, k: int, args: seq<Arg>, a: nat)
    requires 0 <= k && k + 2 < |fmt| && a < |args| && fmt[k] == '%' && fmt[k + 1] == '#' && fmt[k + 2] == 'o'
    ensures Directive(fmt, k, args, a) == Emit("0" + Numeral(U32(Bits(args[a])), 8, 'A'), k + 3, a + 1)
  {
    assert FlagRun(fmt, k + 1, NO_FLAGS) == (k + 2, NO_FLAGS.(alt := true));
    assert Decimal(fmt, k + 2, 0) == (0, k + 2);
    var f := NO_FLAGS.(alt := true);
    assert Parse(fmt, k, args, a) == Conv(k + 2, f, 0, '\0', a);
    PlainNumber(U32(Bits(args[a])), 8);
    assert Conversion(fmt, k + 2, args, a, f, 0, '\0') == Prefixed("0", Convert('u', 8, '\0', f, 0, args, a));
  }

  /** "%lu" hands `int_str` the argument as a signed `intmax_t`: a value of
      2^63 or more prints as a negative number, and 2^63 itself is
      undefined behaviour. */
  lemma LongUnsigned(fmt: seq<char>, k: int, args: seq<Arg>, a: nat)
    requires 0 <= k && k + 2 < |fmt| && a < |args| && fmt[k] == '%' && fmt[k + 1] == 'l' && fmt[k + 2] == 'u'
    requires 0x8000_0000_0000_0000 <= Bits(args[a])
    ensures var bits := Bits(args[a]);
      && (bits == 0x8000_0000_0000_0000 ==> Directive(fmt, k, args, a) == Undefined)
      && (bits > 0x8000_0000_0000_0000 ==>
           Directive(fmt, k, args, a) == Emit("-" + Numeral(TWO64 - bits, 10, 'A'), k + 3, a + 1))
  {
    Bare(fmt, k, args, a);
    var bits := Bits(args[a]);
    assert I64(bits) == bits - TWO64;
    if bits > 0x8000_0000_0000_0000 {
      NumeralBound(TWO64 - bits, 10, 'A');
      var body := Body(bits - TWO64, 10, false, false);
      assert body == "-" + Numeral(TWO64 - bits, 10, 'A');
      assert body + KernelFormat.Repeat(' ', 0 - |body|) == body;
    }
  }

  /** "%e" prints "e+00" and reads no argument. */
  lemma Exponent(fmt: seq<char>, k: int, args: seq<Arg>, a: nat)
    requires 0 <= k && k + 1 < |fmt| && a <= |args| && fmt[k] == '%' && fmt[k + 1] == 'e'
    ensures Directive(fmt, k, args, a) == Emit("e+00", k + 2, a)
  {
    Bare(fmt, k, args, a);
    ExponentDigits();
  }

  /** "%s" prints a null string as "(null)", and a pointer to nothing it
      may read is undefined behaviour. */
  lemma StringConversion(fmt: seq<char>, k: int, args: seq<Arg>, a: nat)
    requires 0 <= k && k + 1 < |fmt| && a < |args| && fmt[k] == '%' && fmt[k + 1] == 's'
    ensures ReadText(args[a]).Null? ==> Directive(fmt, k, args, a) == Emit("(null)", k + 2, a + 1)
    ensures ReadText(args[a]).Chars? ==> Directive(fmt, k, args, a) == Emit(CStr(ReadText(args[a]).chars), k + 2, a + 1)
    ensures ReadText(args[a]).Wild? ==> Directive(fmt, k, args, a) == Undefined
  {
    Bare(fmt, k, args, a);
  }

  /** An integer conversion with no argument left is undefined behaviour. */
  lemma MissingArgument(fmt: seq<char>, k: int, args: seq<Arg>)
    requires 0 <= k && k + 1 < |fmt| && fmt[k] == '%' && fmt[k + 1] in "diuxXop"
    ensures Run(fmt, k, args, |args|) == None
  {
    Bare(fmt, k, args, |args|);
  }

  // ---------------------------------------------------------------------
  // vformat: how it prints

  /** The text `appendString` copies: the characters before the
      terminator, or "(null)" for the null pointer. */
  function StringText(t: Text): seq<char>
    requires !t.Wild?
  {
    if t.Null? then "(null)" else CStr(t.chars)
  }

  /** `outputBuffer[..pos]` holds what the buffer keeps of `text`, the
      characters appended so far. */
  ghost predicate Shows(buf: seq<char>, pos: int, text: seq<char>)
  {
    |buf| == OUT_BUF && pos == |Clip(text)| && buf[..pos] == Clip(text)
  }

  /** `appendCharacter(c, buffer, &pos)`: the character is stored, and
      `pos` advanced, only while `pos < 1023`, which keeps the last byte
      for the terminator. */
  method AppendCharacter(c: char, buffer: array<char>, pos: int, ghost text: seq<char>) returns (next: int)
    requires buffer.Length == OUT_BUF && Shows(buffer[..], pos, text)
    modifies buffer
    ensures pos < OUT_BUF - 1 ==> next == pos + 1 && buffer[..] == old(buffer[..])[pos := c]
    ensures pos == OUT_BUF - 1 ==> next == pos && buffer[..] == old(buffer[..])
    ensures Shows(buffer[..], next, text + [c])
  {
    next := pos;
    if pos < OUT_BUF - 1 {
      buffer[pos] := c;
      next := pos + 1;
      assert buffer[..next] == buffer[..pos] + [c];
    } else {
      assert (text + [c])[..OUT_BUF - 1] == text[..OUT_BUF - 1];
    }
  }

  /** `appendString(s, buffer, &pos)`: `appendCharacter` for each character
      of the string, "(null)" standing in for the null pointer. A pointer
      to nothing the call may read is excluded. */
  method AppendString(s: Text, buffer: array<char>, pos: int, ghost text: seq<char>) returns (next: int)
    requires buffer.Length == OUT_BUF && Shows(buffer[..], pos, text) && !s.Wild?
    modifies buffer
    ensures Shows(buffer[..], next, text + StringText(s))
  {
    var str := if s.Null? then "(null)" else s.chars;
    ghost var want := CStr(str);
    assert want == StringText(s);
    next := pos;
    var i := 0;
    while i < |str| && str[i] != '\0'
      invariant 0 <= i <= |want| && Shows(buffer[..], next, text + want[..i])
      decreases |str| - i
    {
      CStrStep(str, i);
      next := AppendCharacter(str[i], buffer, next, text + want[..i]);
      Assoc(text, want[..i], [str[i]]);
      i := i + 1;
    }
    assert want[..i] == want;
  }

  /** A character before the terminator extends the string read so far. */
  lemma CStrStep(str: seq<char>, i: int)
    requires 0 <= i < |str| && str[i] != '\0' && i <= |CStr(str)|
    ensures i < |CStr(str)| && CStr(str)[..i + 1] == CStr(str)[..i] + [str[i]]
  {
    var w := CStr(str);
    assert w[..i + 1] == w[..i] + [w[i]];
  }

  /** The directive parser of `vformat`'s loop, from the '%' at `fmt[k]`
      up to the length. */
  method ParseStep(fmt: seq<char>, k: int, args: seq<Arg>, a: nat) returns (p: Parsed)
    requires 0 <= k < |fmt| && fmt[k] == '%' && a <= |args|
    ensures p == Parse(fmt, k, args, a)
  {
    var i := k + 1;
    if At(fmt, i) == '\0' {
      return Stopped("%");
    }
    var flags := NO_FLAGS;
    while At(fmt, i) in "-+# 0"
      invariant k + 1 <= i <= |fmt| && FlagRun(fmt, i, flags) == FlagRun(fmt, k + 1, NO_FLAGS)
      decreases |fmt| - i
    {
      var c := fmt[i];
      if c == '-' {
        flags := flags.(left := true);
      } else if c == '+' {
        flags := flags.(plus := true);
      } else if c == '#' {
        flags := flags.(alt := true);
      } else if c == ' ' {
        flags := flags.(space := true);
      } else {
        flags := flags.(zero := true);
      }
      i := i + 1;
    }
    if At(fmt, i) == '\0' {
      return Stopped([]);
    }
    var width, j := ScanDecimal(fmt, i);
    i := j;
    if At(fmt, i) == '*' {
      if a == |args| {
        return Missing;
      }
      width := I32(Bits(args[a]));
      i := i + 1;
      if At(fmt, i) == '\0' {
        return Stopped([]);
      }
      p := PrecisionStep(fmt, i, args, a + 1, flags, width);
    } else {
      p := PrecisionStep(fmt, i, args, a, flags, width);
    }
  }

  /** The precision, whose value is never used, and the length. */
  method PrecisionStep(fmt: seq<char>, j: int, args: seq<Arg>, a: nat, flags: Flags, width: int) returns (p: Parsed)
    requires 0 <= j <= |fmt| && a <= |args|
    ensures p == ParsePrecision(fmt, j, args, a, flags, width)
  {
    var i := j;
    var used := a;
    if At(fmt, i) == '.' {
      i := i + 1;
      if At(fmt, i) == '\0' {
        return Stopped([]);
      }
      var precision, j3 := ScanDecimal(fmt, i);
      i := j3;
      if At(fmt, i) == '\0' {
        return Stopped([]);
      }
      if fmt[i] == '*' {
        if used == |args| {
          return Missing;
        }
        used := used + 1;
        i := i + 1;
        if At(fmt, i) == '\0' {
          return Stopped([]);
        }
      }
    }
    var length := '\0';
    if At(fmt, i) in "hljztL" {
      length := fmt[i];
      i := i + 1;
      if At(fmt, i) == 'h' {
        length := 'H';
      } else if At(fmt, i) == 'l' {
        length := 'q';
        i := i + 1;
      }
    }
    p := Conv(i, flags, width, length, used);
  }

  /** An integer case of the switch: `int_str` into the zeroed
      `intStrBuffer`, then `appendString` of it. */
  method NumberStep(signed: bool, len: char, base: int, flags: Flags, width: int, args: seq<Arg>, a: nat,
                    out: array<char>, pos: int, numBuf: array<char>, ghost text: seq<char>)
    returns (next: int, used: nat, ok: bool)
    requires IntBase(base) && a <= |args|
    requires out.Length == OUT_BUF && numBuf.Length == INT_BUF && out != numBuf
    requires Shows(out[..], pos, text) && Holds(numBuf[..], [])
    modifies out, numBuf
    ensures var o := Number(signed, len, base, flags, width, args, a);
      ok == o.Out? && (ok ==> used == o.used && Shows(out[..], next, text + o.text))
  {
    next, used := pos, a;
    if !KnownLength(len) {
      assert text + [] == text;
      return next, used, true;
    }
    if a == |args| {
      return next, used, false;
    }
    var bits := Bits(args[a]);
    var v := if signed then SignedValue(len, bits) else UnsignedValue(len, bits);
    ok := IntStrInto(v, numBuf, base, flags.plus, flags.space, width, flags.left, flags.zero);
    if !ok {
      return;
    }
    ghost var t := IntStr(v, base, flags.plus, flags.space, width, flags.left, flags.zero).value;
    HoldsCStr(numBuf[..], t);
    next := AppendString(Chars(numBuf[..]), out, pos, text);
    used := a + 1;
  }

  /** The conversion switch of `vformat`, on the specifier after 'o' and
      'p' were rewritten; `%n`'s store through its pointer is not modelled,
      only the argument it reads. */
  method SwitchStep(spec: char, base: int, len: char, flags: Flags, width: int, args: seq<Arg>, a: nat,
                    out: array<char>, pos: int, numBuf: array<char>, ghost text: seq<char>)
    returns (next: int, used: nat, ok: bool)
    requires (base == 8 || base == 10 || base == 16) && a <= |args|
    requires out.Length == OUT_BUF && numBuf.Length == INT_BUF && out != numBuf
    requires Shows(out[..], pos, text) && Holds(numBuf[..], [])
    modifies out, numBuf
    ensures var o := Convert(spec, base, len, flags, width, args, a);
      ok == o.Out? && (ok ==> used == o.used && Shows(out[..], next, text + o.text))
  {
    if spec == 'X' || spec == 'x' {
      next, used, ok := HexStep(spec, base, len, flags, width, args, a, out, pos, numBuf, text);
    } else if spec == 'u' {
      next, used, ok := NumberStep(false, len, base, flags, width, args, a, out, pos, numBuf, text);
    } else if spec == 'd' || spec == 'i' {
      next, used, ok := NumberStep(true, len, base, flags, width, args, a, out, pos, numBuf, text);
    } else {
      next, used, ok := OtherStep(spec, base, len, flags, width, args, a, out, pos, numBuf, text);
    }
  }

  /** The cases of the switch that print no number: 'c', 's', 'n', 'e', 'E'
      and the default. */
  method OtherStep(spec: char, base: int, len: char, flags: Flags, width: int, args: seq<Arg>, a: nat,
                   out: array<char>, pos: int, numBuf: array<char>, ghost text: seq<char>)
    returns (next: int, used: nat, ok: bool)
    requires spec !in "Xxudi"
    requires (base == 8 || base == 10 || base == 16) && a <= |args|
    requires out.Length == OUT_BUF && numBuf.Length == INT_BUF && out != numBuf
    requires Shows(out[..], pos, text) && Holds(numBuf[..], [])
    modifies out, numBuf
    ensures var o := Convert(spec, base, len, flags, width, args, a);
      ok == o.Out? && (ok ==> used == o.used && Shows(out[..], next, text + o.text))
  {
    if spec == 'c' || spec == 's' {
      next, used, ok := TextStep(spec, args, a, out, pos, text);
    } else if spec == 'n' {
      next, used, ok := pos, a, true;
      if KnownLength(len) {
        if a == |args| {
          return next, used, false;
        }
        used := a + 1;
      }
      assert Convert(spec, base, len, flags, width, args, a) == Out([], used);
      assert text + [] == text;
    } else if spec == 'e' || spec == 'E' {
      next := ExponentStep(spec, out, pos, numBuf, text);
      used, ok := a, true;
    } else {
      next, used, ok := pos, a, true;
      assert Convert(spec, base, len, flags, width, args, a) == Out([], a);
      assert text + [] == text;
    }
  }

  /** `case 'X': base = 16; case 'x': base = base == 10 ? 17 : base;`, the
      "0x" of the alternative form, then on into the unsigned case. */
  method HexStep(spec: char, base: int, len: char, flags: Flags, width: int, args: seq<Arg>, a: nat,
                 out: array<char>, pos: int, numBuf: array<char>, ghost text: seq<char>)
    returns (next: int, used: nat, ok: bool)
    requires spec == 'X' || spec == 'x'
    requires (base == 8 || base == 10 || base == 16) && a <= |args|
    requires out.Length == OUT_BUF && numBuf.Length == INT_BUF && out != numBuf
    requires Shows(out[..], pos, text) && Holds(numBuf[..], [])
    modifies out, numBuf
    ensures var o := Convert(spec, base, len, flags, width, args, a);
      ok == o.Out? && (ok ==> used == o.used && Shows(out[..], next, text + o.text))
  {
    var b := if spec == 'X' then 16 else base;
    b := if b == 10 then 17 else b;
    ghost var t := text;
    ghost var prefix := if flags.alt then "0x" else "";
    assert Convert(spec, base, len, flags, width, args, a) == Prefixed(prefix, Number(false, len, b, flags, width, args, a));
    next := pos;
    if flags.alt {
      next := AppendString(Chars("0x"), out, next, t);
      t := t + "0x";
    }
    assert t == text + prefix;
    next, used, ok := NumberStep(false, len, b, flags, width, args, a, out, next, numBuf, t);
    ghost var o := Number(false, len, b, flags, width, args, a);
    if ok {
      Assoc(text, prefix, o.text);
    }
  }

  lemma Assoc(x: seq<char>, y: seq<char>, z: seq<char>)
    ensures (x + y) + z == x + (y + z)
  {
  }

  /** `case 'c'` appends the argument's low byte as a character, `case 's'`
      the string it points to. */
  method TextStep(spec: char, args: seq<Arg>, a: nat, out: array<char>, pos: int, ghost text: seq<char>)
    returns (next: int, used: nat, ok: bool)
    requires (spec == 'c' || spec == 's') && a <= |args|
    requires out.Length == OUT_BUF && Shows(out[..], pos, text)
    modifies out
    ensures var o := Convert(spec, 10, '\0', NO_FLAGS, 0, args, a);
      ok == o.Out? && (ok ==> used == o.used && Shows(out[..], next, text + o.text))
  {
    next, used := pos, a;
    if a == |args| {
      return next, used, false;
    }
    if spec == 'c' {
      next := AppendCharacter(U8(Bits(args[a])) as char, out, next, text);
    } else {
      var str := ReadText(args[a]);
      if str.Wild? {
        return next, used, false;
      }
      next := AppendString(str, out, next, text);
    }
    used, ok := a + 1, true;
  }

  /** The exponent "%e" and "%E" print after the switch: "e+" or "E+", then
      `int_str(0, …, 2, false, true)`. */
  method ExponentStep(spec: char, out: array<char>, pos: int, numBuf: array<char>, ghost text: seq<char>) returns (next: int)
    requires spec == 'e' || spec == 'E'
    requires out.Length == OUT_BUF && numBuf.Length == INT_BUF && out != numBuf
    requires Shows(out[..], pos, text) && Holds(numBuf[..], [])
    modifies out, numBuf
    ensures Shows(out[..], next, text + [spec, '+', '0', '0'])
  {
    next := AppendString(Chars([spec, '+']), out, pos, text);
    var ok := IntStrInto(0, numBuf, 10, false, false, 2, false, true);
    ExponentDigits();
    HoldsCStr(numBuf[..], "00");
    next := AppendString(Chars(numBuf[..]), out, next, text + [spec, '+']);
    assert (text + [spec, '+']) + "00" == text + [spec, '+', '0', '0'];
  }

  /** The conversion at `fmt[at]`: `intStrBuffer` is zeroed, 'o' becomes
      'u' in base 8 after the "0" of the alternative form, and 'p' becomes
      'u' in base 16 with length 'z'. */
  method ConvertStep(fmt: seq<char>, at: int, args: seq<Arg>, a: nat, flags: Flags, width: int, len: char,
                     out: array<char>, pos: int, numBuf: array<char>, ghost text: seq<char>)
    returns (next: int, used: nat, ok: bool)
    requires 0 <= at <= |fmt| && a <= |args|
    requires out.Length == OUT_BUF && numBuf.Length == INT_BUF && out != numBuf
    requires Shows(out[..], pos, text)
    modifies out, numBuf
    ensures var o := Conversion(fmt, at, args, a, flags, width, len);
      ok == o.Out? && (ok ==> used == o.used && Shows(out[..], next, text + o.text))
  {
    var spec := At(fmt, at);
    forall j | 0 <= j < INT_BUF {
      numBuf[j] := '\0';
    }
    assert Holds(numBuf[..], []);
    var base := 10;
    var length := len;
    next := pos;
    ghost var t := text;
    if spec == 'o' {
      base := 8;
      spec := 'u';
      if flags.alt {
        next := AppendString(Chars("0"), out, next, t);
        t := t + "0";
      }
    }
    if spec == 'p' {
      base := 16;
      length := 'z';
      spec := 'u';
    }
    next, used, ok := SwitchStep(spec, base, length, flags, width, args, a, out, next, numBuf, t);
    ghost var o := Convert(spec, base, length, flags, width, args, a);
    if ok && At(fmt, at) == 'o' {
      ghost var prefix := if flags.alt then "0" else "";
      assert t == text + prefix;
      Assoc(text, prefix, o.text);
    }
  }

  /** One pass of `vformat`'s loop from `fmt[i]`: a character other than
      '%' is appended; a directive is parsed and converted. Afterwards the
      loop goes on at `nextI` with argument `nextA`, or ends (`stop`), or the
      behaviour was undefined (`!ok`). */
  method LoopPass(fmt: seq<char>, i: int, args: seq<Arg>, a: nat, out: array<char>, pos: int, numBuf: array<char>, ghost text: seq<char>)
    returns (next: int, nextI: int, nextA: nat, stop: bool, ok: bool)
    requires 0 <= i < |fmt| && fmt[i] != '\0' && a <= |args|
    requires out.Length == OUT_BUF && numBuf.Length == INT_BUF && out != numBuf
    requires Shows(out[..], pos, text)
    modifies out, numBuf
    ensures match Directive(fmt, i, args, a)
      case Emit(t, n, u) => ok && !stop && nextI == n && nextA == u && Shows(out[..], next, text + t)
      case Stop(t) => ok && stop && Shows(out[..], next, text + t)
      case Undefined => !ok
  {
    next, nextI, nextA, stop, ok := pos, i, a, false, true;
    if fmt[i] == '%' {
      var p := ParseStep(fmt, i, args, a);
      match p
      case Stopped(t) =>
        next := pos;
        if t == "%" {
          next := AppendCharacter('%', out, pos, text);
        } else {
          assert text + t == text;
        }
        stop := true;
      case Missing =>
        ok := false;
      case Conv(at, flags, width, len, used) =>
        var u: nat;
        next, u, ok := ConvertStep(fmt, at, args, used, flags, width, len, out, pos, numBuf, text);
        if at == |fmt| {
          ok := false;
        }
        nextI, nextA := at + 1, u;
    } else {
      next := AppendCharacter(fmt[i], out, pos, text);
      nextI := i + 1;
    }
  }

  /** The static `outputBuffer` of `vformat`, kept from one call to the
      next. */
  class Formatter {
    const outputBuffer: array<char>

    constructor()
      ensures outputBuffer.Length == OUT_BUF && fresh(outputBuffer)
    {
      outputBuffer := new char[OUT_BUF](_ => '\0');
    }

    /** `vformat(format, args)`: false where the behaviour is undefined;
        otherwise `outputBuffer` holds the first 1023 characters of the
        expansion, then a terminator. */
    method VFormat(fmt: seq<char>, args: seq<Arg>) returns (ok: bool)
      requires outputBuffer.Length == OUT_BUF
      modifies outputBuffer
      ensures ok == Output(fmt, args).Some?
      ensures ok ==> var t := Clip(Output(fmt, args).value);
        outputBuffer[..|t|] == t && outputBuffer[|t|] == '\0'
    {
      var pos := 0;
      var intStrBuffer := new char[INT_BUF](_ => '\0');
      ghost var text: seq<char> := [];
      var i := 0;
      var a: nat := 0;
      while At(fmt, i) != '\0'
        invariant 0 <= i <= |fmt| && a <= |args|
        invariant Shows(outputBuffer[..], pos, text)
        invariant Output(fmt, args) == KernelFormat.Prepend(text, Run(fmt, i, args, a))
        decreases |fmt| - i
      {
        ghost var step := Directive(fmt, i, args, a);
        var next, nextI, nextA, stop, passed := LoopPass(fmt, i, args, a, outputBuffer, pos, intStrBuffer, text);
        if !passed {
          return false;
        }
        pos := next;
        if stop {
          KernelFormat.PrependTwice(text, step.text, Some([]));
          text := text + step.text;
          break;
        }
        KernelFormat.PrependTwice(text, step.text, Run(fmt, nextI, args, nextA));
        text := text + step.text;
        i, a := nextI, nextA;
      }
      assert Output(fmt, args) == Some(text);
      outputBuffer[pos] := '\0';
      ok := true;
    }
  }
}
