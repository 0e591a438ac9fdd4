/** The formatter half of the multiboot tree's serial driver
    (src/driver/serial.cpp): `simple_vsprintf`, whose characters all go to
    the serial port, one at a time. Its `prints` and `simple_outputi` are
    the same code as the Limine kernel's, and so is the way it reads flags
    and a width; those are the members of KernelFormat. What differs is the
    conversion `switch`: it has no 'z', and every argument goes through one
    union `u`, zeroed once per call, whose bytes a narrower store leaves
    alone. The union is the 64-bit value `union` here. */
module SerialFormat {
  import opened CInt
  import opened Wrappers
  import opened Numerals
  import opened VarArgs
  import KernelFormat

  /** How many values the bytes a store of each size replaces can hold. */
  function Modulus(size: Size): (m: int)
    ensures m > 0
  {
    match size
    case Byte => TWO8
    case Short => TWO16
    case Word => TWO32
    case Long => TWO64
  }

  /** Storing `bits` into the member of `u` of that size: the low bytes take
      the value, and the bytes above keep what the union held. */
  function Store(union: int, size: Size, bits: int): (r: int)
    requires InU64(union)
    ensures InU64(r)
    ensures Unsigned(size, r) == Unsigned(size, bits)
    ensures r / Modulus(size) == union / Modulus(size)
  {
    var m := Modulus(size);
    StoreBytes(union, size, bits);
    union - union % m + bits % m
  }

  lemma StoreBytes(union: int, size: Size, bits: int)
    requires InU64(union)
    ensures var m := Modulus(size); var r := union - union % m + bits % m;
      && InU64(r) && r % m == bits % m && r / m == union / m
  {
    var m := Modulus(size);
    var n := TWO64 / m;
    assert TWO64 == n * m;
    var q, t := union / m, bits % m;
    assert union - union % m == q * m;
    DivModUnique(q * m + t, m, q, t);
    MulNonnegative(q, m);
    assert q < n;
    MulAtLeast(n - q, m);
    assert (n - q) * m == n * m - q * m;
  }

  lemma MulNonnegative(d: int, m: int)
    requires d >= 0 && m > 0
    ensures d * m >= 0
  {
  }

  lemma MulAtLeast(d: int, m: int)
    requires d >= 1 && m > 0
    ensures d * m >= m
  {
  }

  /** The quotient and remainder are the only ones with the remainder in
      range. */
  lemma DivModUnique(x: int, m: int, q: int, t: int)
    requires 0 < m && 0 <= t < m && x == q * m + t
    ensures x / m == q && x % m == t
  {
    var q', t' := x / m, x % m;
    assert x == q' * m + t';
    var d := q - q';
    assert d * m == q * m - q' * m;
    assert d * m == t' - t;
    if d > 0 {
      MulAtLeast(d, m);
    }
  }

  /** One pass of `simple_vsprintf`'s loop and the union after it. */
  datatype Pass = Pass(step: KernelFormat.Step, union: int)

  /** An integer conversion `c`: the argument is stored as `store`, and the
      member of size `read` is printed through `simple_outputi` (as `long
      long`); for 'u', 'x' and 'X' after 'h' or "hh" that member is the
      whole union, `u.lli`. */
  function Integer(fmt: seq<char>, j: int, args: seq<Arg>, a: nat, width: int, flags: int, c: char, store: Size, read: Size, union: int): (p: Pass)
    requires 0 <= j <= |fmt| && a <= |args| && KernelFormat.IsIntConv(c) && InU64(union)
    ensures InU64(p.union) && !p.step.Stop?
    ensures p.step.Emit? ==> p.step.next == j + 1 <= |fmt| && p.step.used == a + 1 <= |args|
  {
    if a == |args| then Pass(KernelFormat.Undefined, union)
    else
      var u := Store(union, store, Bits(args[a]));
      var value := if c == 'd' then Signed(read, u) else Unsigned(read, u);
      var base := if c == 'd' || c == 'u' then 10 else 16;
      var text := KernelFormat.Formatted(I64(value), base, c == 'd', width, flags, if c == 'X' then 'A' else 'a');
      Pass(KernelFormat.Finish(fmt, j, text, a + 1), u)
  }

  /** A pass that emits nothing and leaves the union alone. */
  function Skip(fmt: seq<char>, j: int, a: nat, union: int): (p: Pass)
    requires 0 <= j <= |fmt|
    ensures p.union == union && !p.step.Stop?
    ensures p.step.Emit? ==> p.step.next == j + 1 <= |fmt| && p.step.used == a && p.step.text == []
  {
    Pass(KernelFormat.Finish(fmt, j, [], a), union)
  }

  /** The conversion at `j`, after the flags and the width. */
  function Convert(fmt: seq<char>, j: int, args: seq<Arg>, a: nat, width: int, flags: int, union: int): (p: Pass)
    requires 0 <= j <= |fmt| && a <= |args| && InU64(union)
    ensures InU64(p.union) && !p.step.Stop?
    ensures p.step.Emit? ==> j < p.step.next <= |fmt| && a <= p.step.used <= |args|
  {
    var c := At(fmt, j);
    if KernelFormat.IsIntConv(c) then Integer(fmt, j, args, a, width, flags, c, Word, Word, union)
    else if c == 'p' then Integer(fmt, j, args, a, width, flags, 'X', Word, Word, union)
    else if c == 'c' then
      if a == |args| then Pass(KernelFormat.Undefined, union)
      else
        var text := KernelFormat.Padded([U8(Bits(args[a])) as char, '\0'], width, flags);
        Pass(KernelFormat.Finish(fmt, j, text, a + 1), Store(union, Byte, Bits(args[a])))
    else if c == 's' then
      if a == |args| then Pass(KernelFormat.Undefined, union)
      else
        var u := Store(union, Long, Bits(args[a]));
        match ReadText(args[a])
        case Wild => Pass(KernelFormat.Undefined, union)
        case Null => Pass(KernelFormat.Finish(fmt, j, KernelFormat.Padded("(null)", width, flags), a + 1), u)
        case Chars(t) => Pass(KernelFormat.Finish(fmt, j, KernelFormat.Padded(t, width, flags), a + 1), u)
    else if c == 'l' then
      var c2 := At(fmt, j + 1);
      if KernelFormat.IsIntConv(c2) then Integer(fmt, j + 1, args, a, width, flags, c2, Long, Long, union)
      else if c2 == 'l' then
        var c3 := At(fmt, j + 2);
        if KernelFormat.IsIntConv(c3) then Integer(fmt, j + 2, args, a, width, flags, c3, Long, Long, union)
        else Skip(fmt, j + 2, a, union)
      else Skip(fmt, j + 1, a, union)
    else if c == 'h' then
      var c2 := At(fmt, j + 1);
      if KernelFormat.IsIntConv(c2) then Integer(fmt, j + 1, args, a, width, flags, c2, Short, if c2 == 'd' then Short else Long, union)
      else if c2 == 'h' then
        var c3 := At(fmt, j + 2);
        if KernelFormat.IsIntConv(c3) then Integer(fmt, j + 2, args, a, width, flags, c3, Byte, if c3 == 'd' then Byte else Long, union)
        else Skip(fmt, j + 2, a, union)
      else Skip(fmt, j + 1, a, union)
    else Skip(fmt, j, a, union)
  }

  /** Everything `simple_vsprintf` emits from index `k` on, with argument
      `a` next and the union holding `union`; None when the behaviour is
      undefined. */
  function Run(fmt: seq<char>, k: int, args: seq<Arg>, a: nat, union: int): Option<seq<char>>
    requires 0 <= k <= |fmt| && a <= |args| && InU64(union)
    decreases |fmt| - k
  {
    if k == |fmt| || fmt[k] == '\0' then Some([])
    else match KernelFormat.Parse(fmt, k, args, a)
      case Copy(text, next) => KernelFormat.Prepend(text, Run(fmt, next, args, a, union))
      case Halt => Some([])
      case NoArgument => None
      case Conversion(j, width, flags, used) =>
        var p := Convert(fmt, j, args, used, width, flags, union);
        match p.step
        case Emit(text, next, used2) => KernelFormat.Prepend(text, Run(fmt, next, args, used2, p.union))
        case _ => None
  }

  /** What a whole call prints: the union starts zeroed (`u{}`). */
  function Output(fmt: seq<char>, args: seq<Arg>): Option<seq<char>>
  {
    Run(fmt, 0, args, 0, 0)
  }

  // ---------------------------------------------------------------------
  // Properties

  /** Ordinary characters are copied one for one, up to the terminator. */
  lemma {:induction false} Literals(fmt: seq<char>, k: int, args: seq<Arg>, a: nat, union: int)
    requires 0 <= k <= |fmt| && a <= |args| && InU64(union)
    requires forall i :: k <= i < |fmt| ==> fmt[i] != '%'
    ensures Run(fmt, k, args, a, union) == Some(CStr(fmt[k..]))
    decreases |fmt| - k
  {
    if k < |fmt| && fmt[k] != '\0' {
      Literals(fmt, k + 1, args, a, union);
      assert fmt[k..][1..] == fmt[k + 1..];
    }
  }

  /** A format without '%' is sent as the C string it holds. */
  lemma PlainText(fmt: seq<char>, args: seq<Arg>)
    requires '%' !in fmt
    ensures Output(fmt, args) == Some(CStr(fmt))
  {
    Literals(fmt, 0, args, 0, 0);
    assert fmt[0..] == fmt;
  }

  /** "%%" sends one '%' and reads no argument. */
  lemma PercentPercent(fmt: seq<char>, k: int, args: seq<Arg>, a: nat, union: int)
    requires 0 <= k && k + 1 < |fmt| && a <= |args| && InU64(union) && fmt[k] == '%' && fmt[k + 1] == '%'
    ensures Run(fmt, k, args, a, union) == KernelFormat.Prepend("%", Run(fmt, k + 2, args, a, union))
  {
  }

  /** A '%' just before the terminator ends the output. */
  lemma TrailingPercent(fmt: seq<char>, k: int, args: seq<Arg>, a: nat, union: int)
    requires 0 <= k < |fmt| && a <= |args| && InU64(union) && fmt[k] == '%' && At(fmt, k + 1) == '\0'
    ensures Run(fmt, k, args, a, union) == Some([])
  {
  }

  /** "%s" with a null pointer sends "(null)". */
  lemma NullString(fmt: seq<char>, k: int, args: seq<Arg>, a: nat, union: int)
    requires 0 <= k && k + 1 < |fmt| && a < |args| && InU64(union) && fmt[k] == '%' && fmt[k + 1] == 's'
    requires ReadText(args[a]).Null?
    ensures Run(fmt, k, args, a, union) == KernelFormat.Prepend("(null)", Run(fmt, k + 2, args, a + 1, Store(union, Long, Bits(args[a]))))
  {
    KernelFormat.Bare(fmt, k, args, a);
    KernelFormat.NullText();
  }

  /** "%p" reads a 64-bit argument but stores it into the 32-bit `u.u`, so
      it prints only the low 32 bits, in upper-case hexadecimal; pointers
      that differ only above bit 31 print alike. */
  lemma PointerLow32(fmt: seq<char>, k: int, args: seq<Arg>, a: nat, union: int)
    requires 0 <= k && k + 1 < |fmt| && a < |args| && InU64(union) && fmt[k] == '%' && fmt[k + 1] == 'p'
    ensures var bits := Bits(args[a]);
      Run(fmt, k, args, a, union)
      == KernelFormat.Prepend(KernelFormat.Formatted(U32(bits), 16, false, 0, 0, 'A'), Run(fmt, k + 2, args, a + 1, Store(union, Word, bits)))
  {
    KernelFormat.Bare(fmt, k, args, a);
  }

  /** "%z" is not a conversion here: it prints nothing and reads no
      argument, and the letter after it is then copied as an ordinary
      character, so "%zd" prints "d". */
  lemma NoSizeZ(fmt: seq<char>, k: int, args: seq<Arg>, a: nat, union: int)
    requires 0 <= k && k + 1 < |fmt| && a <= |args| && InU64(union) && fmt[k] == '%' && fmt[k + 1] == 'z'
    ensures Run(fmt, k, args, a, union) == Run(fmt, k + 2, args, a, union)
  {
    KernelFormat.Bare(fmt, k, args, a);
  }

  /** "%hu" stores the argument into the two low bytes of the union but
      prints the whole union as `long long`: the bytes an earlier
      conversion of the same call left above them show up in the value. */
  lemma StaleUnionBytes(fmt: seq<char>, k: int, args: seq<Arg>, a: nat, union: int)
    requires 0 <= k && k + 2 < |fmt| && a < |args| && InU64(union)
    requires fmt[k] == '%' && fmt[k + 1] == 'h' && fmt[k + 2] == 'u'
    ensures var u := Store(union, Short, Bits(args[a]));
      Run(fmt, k, args, a, union)
      == KernelFormat.Prepend(KernelFormat.Formatted(I64(u), 10, false, 0, 0, 'a'), Run(fmt, k + 3, args, a + 1, u))
  {
    KernelFormat.Bare(fmt, k, args, a);
    var u := Store(union, Short, Bits(args[a]));
    var text := KernelFormat.Formatted(I64(u), 10, false, 0, 0, 'a');
    assert Convert(fmt, k + 1, args, a, 0, 0, union) == Integer(fmt, k + 2, args, a, 0, 0, 'u', Short, Long, union);
    assert Integer(fmt, k + 2, args, a, 0, 0, 'u', Short, Long, union) == Pass(KernelFormat.Emit(text, k + 3, a + 1), u);
  }

  /** The value "%hu" prints agrees with the argument's low 16 bits, and
      differs from them as soon as the union's upper bytes are not all
      zero. */
  lemma StaleValue(union: int, bits: int)
    requires InU64(union)
    ensures var v := I64(Store(union, Short, bits));
      && (union < 0x8000_0000_0000_0000 ==> v % TWO16 == U16(bits))
      && (TWO16 <= union < 0x8000_0000_0000_0000 ==> v != U16(bits))
  {
    var u := Store(union, Short, bits);
    if union < 0x8000_0000_0000_0000 {
      assert u / TWO16 == union / TWO16;
      assert u < 0x8000_0000_0000_0000;
    }
  }

  /** "%d", "%u", "%x" and "%X" store the argument into the four low bytes
      of the union and print it as a 32-bit value. */
  lemma IntegerConversion(fmt: seq<char>, k: int, args: seq<Arg>, a: nat, union: int)
    requires 0 <= k && k + 1 < |fmt| && a < |args| && InU64(union) && fmt[k] == '%'
    requires KernelFormat.IsIntConv(fmt[k + 1])
    ensures var c := fmt[k + 1]; var bits := Bits(args[a]);
      var value := if c == 'd' then I32(bits) else U32(bits);
      Run(fmt, k, args, a, union)
      == KernelFormat.Prepend(KernelFormat.Formatted(value, if c == 'd' || c == 'u' then 10 else 16, c == 'd', 0, 0, if c == 'X' then 'A' else 'a'),
                              Run(fmt, k + 2, args, a + 1, Store(union, Word, bits)))
  {
    KernelFormat.Bare(fmt, k, args, a);
    var c := fmt[k + 1];
    var bits := Bits(args[a]);
    var u := Store(union, Word, bits);
    assert I32(u) == I32(bits) by {
      I32Low(u, bits);
    }
    var value := if c == 'd' then I32(bits) else U32(bits);
    var text := KernelFormat.Formatted(value, if c == 'd' || c == 'u' then 10 else 16, c == 'd', 0, 0, if c == 'X' then 'A' else 'a');
    assert Convert(fmt, k + 1, args, a, 0, 0, union) == Integer(fmt, k + 1, args, a, 0, 0, c, Word, Word, union);
    assert Integer(fmt, k + 1, args, a, 0, 0, c, Word, Word, union) == Pass(KernelFormat.Emit(text, k + 2, a + 1), u);
  }

  /** Two values with the same low 32 bits read alike as `int`. */
  lemma I32Low(u: int, bits: int)
    requires U32(u) == U32(bits)
    ensures I32(u) == I32(bits)
  {
    I32OfU32(u);
    I32OfU32(bits);
  }

  /** Reading a value as `int` looks only at its low 32 bits. */
  lemma I32OfU32(v: int)
    ensures I32(v) == I32(U32(v))
  {
    var q := v / TWO32;
    assert v == q * TWO32 + U32(v);
    assert (v + 0x8000_0000) % TWO32 == (U32(v) + 0x8000_0000) % TWO32;
  }

  /** After "%d" of -1, whose store sets the union's four low bytes, "%hu"
      of 5 prints 0xFFFF0005 instead of 5. */
  lemma StaleAfterNegative(fmt: seq<char>, args: seq<Arg>)
    requires fmt == "%d%hu" && args == [Int(-1), Int(5)]
    ensures Output(fmt, args)
      == Some(KernelFormat.Formatted(-1, 10, true, 0, 0, 'a') + KernelFormat.Formatted(0xFFFF_0005, 10, false, 0, 0, 'a'))
  {
    var b0 := Bits(args[0]);
    assert b0 == 0xFFFF_FFFF_FFFF_FFFF && I32(b0) == -1;
    var u1 := Store(0, Word, b0);
    assert u1 == 0xFFFF_FFFF;
    assert fmt[0] == '%' && fmt[1] == 'd';
    IntegerConversion(fmt, 0, args, 0, 0);
    var f1 := KernelFormat.Formatted(-1, 10, true, 0, 0, 'a');
    assert Run(fmt, 0, args, 0, 0) == KernelFormat.Prepend(f1, Run(fmt, 2, args, 1, u1));
    StaleTail(fmt, args, u1);
  }

  /** The "%hu" of `StaleAfterNegative`, with the union as "%d" left it. */
  lemma StaleTail(fmt: seq<char>, args: seq<Arg>, u1: int)
    requires fmt == "%d%hu" && args == [Int(-1), Int(5)] && u1 == 0xFFFF_FFFF
    ensures Run(fmt, 2, args, 1, u1) == Some(KernelFormat.Formatted(0xFFFF_0005, 10, false, 0, 0, 'a'))
  {
    var u2 := Store(u1, Short, Bits(args[1]));
    assert u2 == 0xFFFF_0005 && I64(u2) == u2;
    StaleUnionBytes(fmt, 2, args, 1, u1);
    assert Run(fmt, 5, args, 2, u2) == Some([]);
  }

  // ---------------------------------------------------------------------
  // simple_vsprintf

  /** `u.<member> = va_arg(ap, T); pc += simple_outputi(out, u.<member'>, …)`. */
  method IntegerStep(fmt: seq<char>, j: int, args: seq<Arg>, a: nat, width: int, flags: int, c: char, store: Size, read: Size, union0: int)
    returns (step: KernelFormat.Step, count: int, union: int)
    requires 0 <= j <= |fmt| && a <= |args| && KernelFormat.IsIntConv(c) && InU64(union0)
    ensures Pass(step, union) == Integer(fmt, j, args, a, width, flags, c, store, read, union0)
    ensures step.Emit? ==> count == |step.text|
  {
    union := union0;
    if a == |args| {
      return KernelFormat.Undefined, 0, union;
    }
    union := Store(union, store, Bits(args[a]));
    var value := if c == 'd' then Signed(read, union) else Unsigned(read, union);
    var text, n := KernelFormat.OutputI(I64(value), if c == 'd' || c == 'u' then 10 else 16, c == 'd', width, flags, if c == 'X' then 'A' else 'a');
    step, count := KernelFormat.Finish(fmt, j, text, a + 1), n;
  }

  /** The conversion `switch`. */
  method ConvertStep(fmt: seq<char>, j: int, args: seq<Arg>, a: nat, width: int, flags: int, union0: int)
    returns (step: KernelFormat.Step, count: int, union: int)
    requires 0 <= j <= |fmt| && a <= |args| && InU64(union0)
    ensures Pass(step, union) == Convert(fmt, j, args, a, width, flags, union0)
    ensures step.Emit? ==> count == |step.text|
  {
    union := union0;
    var c := At(fmt, j);
    if KernelFormat.IsIntConv(c) {
      step, count, union := IntegerStep(fmt, j, args, a, width, flags, c, Word, Word, union);
    } else if c == 'p' {
      step, count, union := IntegerStep(fmt, j, args, a, width, flags, 'X', Word, Word, union);
    } else if c == 'c' {
      if a == |args| {
        return KernelFormat.Undefined, 0, union;
      }
      union := Store(union, Byte, Bits(args[a]));
      var text, n := KernelFormat.Prints([U8(Bits(args[a])) as char, '\0'], width, flags);
      step, count := KernelFormat.Finish(fmt, j, text, a + 1), n;
    } else if c == 's' {
      if a == |args| {
        return KernelFormat.Undefined, 0, union;
      }
      var s := ReadText(args[a]);
      if s.Wild? {
        return KernelFormat.Undefined, 0, union;
      }
      union := Store(union, Long, Bits(args[a]));
      var text, n := KernelFormat.Prints(if s.Null? then "(null)" else s.chars, width, flags);
      step, count := KernelFormat.Finish(fmt, j, text, a + 1), n;
    } else if c == 'l' {
      var c2 := At(fmt, j + 1);
      if KernelFormat.IsIntConv(c2) {
        step, count, union := IntegerStep(fmt, j + 1, args, a, width, flags, c2, Long, Long, union);
      } else if c2 == 'l' {
        var c3 := At(fmt, j + 2);
        if KernelFormat.IsIntConv(c3) {
          step, count, union := IntegerStep(fmt, j + 2, args, a, width, flags, c3, Long, Long, union);
        } else {
          step, count := KernelFormat.Finish(fmt, j + 2, [], a), 0;
        }
      } else {
        step, count := KernelFormat.Finish(fmt, j + 1, [], a), 0;
      }
    } else if c == 'h' {
      var c2 := At(fmt, j + 1);
      if KernelFormat.IsIntConv(c2) {
        step, count, union := IntegerStep(fmt, j + 1, args, a, width, flags, c2, Short, if c2 == 'd' then Short else Long, union);
      } else if c2 == 'h' {
        var c3 := At(fmt, j + 2);
        if KernelFormat.IsIntConv(c3) {
          step, count, union := IntegerStep(fmt, j + 2, args, a, width, flags, c3, Byte, if c3 == 'd' then Byte else Long, union);
        } else {
          step, count := KernelFormat.Finish(fmt, j + 2, [], a), 0;
        }
      } else {
        step, count := KernelFormat.Finish(fmt, j + 1, [], a), 0;
      }
    } else {
      step, count := KernelFormat.Finish(fmt, j, [], a), 0;
    }
  }

  /** `simple_vsprintf(out, format, ap)`: the characters sent, and the count
      it returns, which is their number. */
  method VSprintf(fmt: seq<char>, args: seq<Arg>) returns (emitted: Option<seq<char>>, pc: int)
    ensures emitted == Output(fmt, args)
    ensures emitted.Some? ==> pc == |emitted.value|
  {
    var k := 0;
    var a: nat := 0;
    var union := 0;
    var out: seq<char> := [];
    pc := 0;
    while k < |fmt| && fmt[k] != '\0'
      invariant 0 <= k <= |fmt| && a <= |args| && InU64(union) && pc == |out|
      invariant Output(fmt, args) == KernelFormat.Prepend(out, Run(fmt, k, args, a, union))
      decreases |fmt| - k
    {
      var p := KernelFormat.ParseStep(fmt, k, args, a);
      var step, count;
      match p {
        case Copy(text, next) =>
          step, count := KernelFormat.Emit(text, next, a), 1;
        case Halt =>
          return Some(out), pc;
        case NoArgument =>
          return None, pc;
        case Conversion(j, width, flags, used) =>
          step, count, union := ConvertStep(fmt, j, args, used, width, flags, union);
      }
      if !step.Emit? {
        return None, pc;
      }
      KernelFormat.PrependTwice(out, step.text, Run(fmt, step.next, args, step.used, union));
      out := out + step.text;
      pc := pc + count;
      k, a := step.next, step.used;
    }
    emitted := Some(out);
  }
}
