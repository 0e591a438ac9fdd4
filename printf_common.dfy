/** Digit strings, shared by the integer conversions of all three printf-style
    formatters (kernel/src/lib/format.cpp, src/lib/format.cpp and
    src/driver/serial.cpp): a magnitude written in a base from 2 to 16,
    most significant digit first, with letters from a chosen case. */
module Numerals {

  predicate Base(base: int) { 2 <= base <= 16 }

  /** The first letter used for digits ten and up: 'a' or 'A'. */
  predicate Letbase(letbase: char) { letbase == 'a' || letbase == 'A' }

  /** The character for digit value `t`: '0' to '9', then letters counted
      from `letbase`. */
  function DigitChar(t: int, letbase: char): char
    requires 0 <= t < 16 && Letbase(letbase)
  {
    if t < 10 then ('0' as int + t) as char else (letbase as int + t - 10) as char
  }

  /** The value a digit character stands for, in either letter case; -1 for
      a character that is no digit. */
  function DigitValue(c: char): int
  {
    if '0' <= c <= '9' then c as int - '0' as int
    else if 'a' <= c <= 'f' then c as int - 'a' as int + 10
    else if 'A' <= c <= 'F' then c as int - 'A' as int + 10
    else -1
  }

  /** The digits of `n`, most significant first; none for zero. */
  function Digits(n: nat, base: int, letbase: char): seq<char>
    requires Base(base) && Letbase(letbase)
    decreases n
  {
    if n == 0 then [] else Digits(n / base, base, letbase) + [DigitChar(n % base, letbase)]
  }

  /** `n` as printed: its digits, or a lone "0" for zero. */
  function Numeral(n: nat, base: int, letbase: char): seq<char>
    requires Base(base) && Letbase(letbase)
  {
    if n == 0 then ['0'] else Digits(n, base, letbase)
  }

  /** Reading a digit string back, most significant digit first. */
  function ValueOf(s: seq<char>, base: int): int
  {
    if s == [] then 0 else ValueOf(s[..|s| - 1], base) * base + DigitValue(s[|s| - 1])
  }

  /** Every character is a digit of `base` written in the case of `letbase`. */
  predicate InCase(s: seq<char>, base: int, letbase: char)
    requires Letbase(letbase)
  {
    forall k :: 0 <= k < |s| ==> 0 <= DigitValue(s[k]) < base && DigitValue(s[k]) < 16 && DigitChar(DigitValue(s[k]), letbase) == s[k]
  }

  lemma DigitRoundTrip(t: int, letbase: char)
    requires 0 <= t < 16 && Letbase(letbase)
    ensures DigitValue(DigitChar(t, letbase)) == t
  {
  }

  /** Appending a digit multiplies the value read so far by the base. */
  lemma ValueSnoc(d: seq<char>, c: char, base: int)
    ensures ValueOf(d + [c], base) == ValueOf(d, base) * base + DigitValue(c)
  {
    assert (d + [c])[..|d|] == d;
  }

  /** Dividing a positive number by the base makes it smaller. */
  lemma Shrinks(n: nat, base: int)
    requires Base(base) && n > 0
    ensures 0 <= n / base < n && 0 <= n % base < base
  {
  }

  lemma DivMod(n: nat, base: int)
    requires Base(base)
    ensures n == (n / base) * base + n % base && 0 <= n % base < base
    ensures n > 0 ==> n / base < n
  {
  }

  /** The digits of `n` read back to `n`. */
  lemma {:induction false} DigitsValue(n: nat, base: int, letbase: char)
    requires Base(base) && Letbase(letbase)
    ensures ValueOf(Digits(n, base, letbase), base) == n
    decreases n
  {
    if n > 0 {
      DivMod(n, base);
      DigitsValue(n / base, base, letbase);
      ValueSnoc(Digits(n / base, base, letbase), DigitChar(n % base, letbase), base);
      DigitRoundTrip(n % base, letbase);
    }
  }

  /** The digits of `n` are digits of the base, in the case of `letbase`. */
  lemma {:induction false} DigitsInCase(n: nat, base: int, letbase: char)
    requires Base(base) && Letbase(letbase)
    ensures InCase(Digits(n, base, letbase), base, letbase)
    decreases n
  {
    if n > 0 {
      DivMod(n, base);
      DigitsInCase(n / base, base, letbase);
      DigitRoundTrip(n % base, letbase);
    }
  }

  /** The digits of a positive `n` start with a nonzero digit. */
  lemma {:induction false} DigitsLead(n: nat, base: int, letbase: char)
    requires Base(base) && Letbase(letbase)
    ensures n > 0 <==> |Digits(n, base, letbase)| > 0
    ensures n > 0 ==> Digits(n, base, letbase)[0] != '0'
    decreases n
  {
    if n > 0 {
      var d := Digits(n / base, base, letbase);
      var c := DigitChar(n % base, letbase);
      assert Digits(n, base, letbase) == d + [c];
      DivMod(n, base);
      DigitsLead(n / base, base, letbase);
      if n / base == 0 {
        assert d + [c] == [c] && n % base == n;
      } else {
        assert (d + [c])[0] == d[0];
      }
    }
  }

  /** The printed numeral reads back to the value, is never empty, and has a
      leading zero only when it is the lone "0". */
  lemma NumeralSpec(n: nat, base: int, letbase: char)
    requires Base(base) && Letbase(letbase)
    ensures var s := Numeral(n, base, letbase);
      && ValueOf(s, base) == n && InCase(s, base, letbase) && |s| > 0
      && (s[0] == '0' <==> s == ['0'])
  {
    DigitsValue(n, base, letbase);
    DigitsInCase(n, base, letbase);
    DigitsLead(n, base, letbase);
    if n == 0 {
      assert ValueOf(['0'], base) == ValueOf([], base) * base + 0;
    }
  }

  /** Moving a character from the end of one part to the front of the next
      leaves the whole unchanged. */
  lemma ShiftDigit(d: seq<char>, c: char, s: seq<char>)
    ensures (d + [c]) + s == d + ([c] + s)
  {
    assert (d + [c]) + s == d + ([c] + s);
  }

  /** Taking off the last digit of a positive `u` moves it to the front of
      the digits already written. */
  lemma DigitsStep(u: nat, base: int, letbase: char, s: seq<char>)
    requires Base(base) && Letbase(letbase) && u > 0
    ensures Digits(u / base, base, letbase) + ([DigitChar(u % base, letbase)] + s) == Digits(u, base, letbase) + s
  {
    ShiftDigit(Digits(u / base, base, letbase), DigitChar(u % base, letbase), s);
  }

  /** `while (u) { t = u % base; …; *--s = t + '0'; u /= base; }`: the
      digits of `u0`, built from the last one back. */
  method DigitLoop(u0: nat, base: int, letbase: char) returns (s: seq<char>)
    requires Base(base) && Letbase(letbase)
    ensures s == Digits(u0, base, letbase)
  {
    var u: nat := u0;
    s := [];
    while u != 0
      invariant Digits(u, base, letbase) + s == Digits(u0, base, letbase)
      decreases u
    {
      Shrinks(u, base);
      DigitsStep(u, base, letbase, s);
      s := [DigitChar(u % base, letbase)] + s;
      u := u / base;
    }
  }
}

/** The variadic arguments a formatter reads with `va_arg`, and the C
    strings it prints. */
module VarArgs {
  import opened CInt

  /** One argument slot: an integer's 64 bits, or a pointer, with its
      address and the characters at that address. */
  datatype Arg = Int(bits: int) | Ptr(address: int, text: seq<char>)

  /** The slot's bits, as `va_arg` with an integer type reads them. */
  function Bits(a: Arg): (r: int)
    ensures InU64(r)
  {
    match a
    case Int(b) => U64(b)
    case Ptr(p, _) => U64(p)
  }

  /** What `va_arg(ap, char*)` yields: the null pointer, a string, or, for an
      integer slot that is not zero, a pointer to nothing the call may read. */
  datatype Text = Null | Chars(chars: seq<char>) | Wild

  function ReadText(a: Arg): Text
  {
    match a
    case Int(b) => if U64(b) == 0 then Null else Wild
    case Ptr(p, t) => if U64(p) == 0 then Null else Chars(t)
  }

  /** The integer types a conversion reads its argument as. */
  datatype Size = Byte | Short | Word | Long

  /** The argument as the signed type of that size. */
  function Signed(size: Size, bits: int): (r: int)
    ensures InI64(r)
  {
    match size
    case Byte => I8(bits)
    case Short => I16(bits)
    case Word => I32(bits)
    case Long => I64(bits)
  }

  /** The argument as the unsigned type of that size. */
  function Unsigned(size: Size, bits: int): (r: int)
    ensures InU64(r)
  {
    match size
    case Byte => U8(bits)
    case Short => U16(bits)
    case Word => U32(bits)
    case Long => U64(bits)
  }

  /** The characters of a C string stored in `s`: those before the first
      NUL, or all of them when there is none. */
  function CStr(s: seq<char>): (r: seq<char>)
    ensures |r| <= |s| && r == s[..|r|] && '\0' !in r
    ensures |r| < |s| ==> s[|r|] == '\0'
  {
    if s == [] || s[0] == '\0' then []
    else
      var rest := CStr(s[1..]);
      assert [s[0]] + rest == s[..1 + |rest|];
      [s[0]] + rest
  }

  lemma CStrNoNul(s: seq<char>)
    requires '\0' !in s
    ensures CStr(s) == s
  {
  }

  /** The format character at `j`; the terminator just past the end. */
  function At(fmt: seq<char>, j: int): char
    requires 0 <= j <= |fmt|
  {
    if j < |fmt| then fmt[j] else '\0'
  }

  predicate IsDigit(c: char) { '0' <= c <= '9' }

  /** A run of decimal digits from `j`, accumulated onto `acc` as
      `acc * 10 + digit`: its value and the index just past it. */
  function Decimal(fmt: seq<char>, j: int, acc: int): (r: (int, int))
    requires 0 <= j <= |fmt|
    ensures j <= r.1 <= |fmt| && !IsDigit(At(fmt, r.1))
    ensures acc >= 0 ==> r.0 >= 0
    decreases |fmt| - j
  {
    if IsDigit(At(fmt, j)) then Decimal(fmt, j + 1, acc * 10 + (fmt[j] as int - '0' as int)) else (acc, j)
  }

  /** The loop `for (; isdigit(*f); ++f) { n *= 10; n += *f - '0'; }`. */
  method ScanDecimal(fmt: seq<char>, j0: int) returns (n: int, j: int)
    requires 0 <= j0 <= |fmt|
    ensures (n, j) == Decimal(fmt, j0, 0)
  {
    n := 0;
    j := j0;
    while IsDigit(At(fmt, j))
      invariant j0 <= j <= |fmt|
      invariant Decimal(fmt, j, n) == Decimal(fmt, j0, 0)
      decreases |fmt| - j
    {
      n := n * 10;
      n := n + (fmt[j] as int - '0' as int);
      j := j + 1;
    }
  }
}
