/** The colour helpers of the kernel game (kernel/include/tetris/color_utils.hpp):
    a 0xRRGGBB colour is split into its channels, each channel is moved
    toward white or black by a percentage with C's truncating `int`
    division, clamped to 0..255, and packed again. */
module ColorUtils {
  import opened CInt

  /** `clamp8`. */
  function Clamp8(v: int): (r: int)
    ensures 0 <= r <= 255
    ensures 0 <= v <= 255 ==> r == v
    ensures v < 0 ==> r == 0
    ensures v > 255 ==> r == 255
  {
    if v < 0 then 0 else if v > 255 then 255 else v
  }

  /** `(c >> shift) & 0xFF` for a uint32 colour. */
  function Channel(c: int, shift: int): int
    requires shift == 0 || shift == 8 || shift == 16
  {
    if shift == 16 then (c / 0x1_0000) % 256 else if shift == 8 then (c / 256) % 256 else c % 256
  }

  /** `(r << 16) | (g << 8) | b` for channels of 0..255: the three bit
      ranges do not overlap, so the `|` is a sum. */
  function Pack(r: int, g: int, b: int): int
  {
    r * 0x1_0000 + g * 256 + b
  }

  /** Packing then splitting gives the channels back, and the packed
      colour keeps to 24 bits. */
  lemma PackChannels(r: int, g: int, b: int)
    requires 0 <= r <= 255 && 0 <= g <= 255 && 0 <= b <= 255
    ensures Channel(Pack(r, g, b), 16) == r
    ensures Channel(Pack(r, g, b), 8) == g
    ensures Channel(Pack(r, g, b), 0) == b
    ensures 0 <= Pack(r, g, b) < 0x100_0000
  {
    var c := Pack(r, g, b);
    assert c / 0x1_0000 == r;
    assert c / 256 == r * 256 + g;
    assert (r * 256 + g) % 256 == g;
    assert c % 256 == b;
  }

  /** Splitting then packing keeps the colour's low 24 bits. */
  lemma ChannelsPack(c: int)
    requires InU32(c)
    ensures Pack(Channel(c, 16), Channel(c, 8), Channel(c, 0)) == c % 0x100_0000
  {
    HighBits(c);
    LowBits(c);
  }

  /** Shifting right by 16 is shifting right by 8 twice. */
  lemma HighBits(c: int)
    requires 0 <= c
    ensures c / 0x1_0000 == (c / 256) / 256
  {
    var q0 := c / 256;
    var q1 := q0 / 256;
    assert c == 256 * q0 + c % 256;
    assert q0 == 256 * q1 + q0 % 256;
    assert c == 0x1_0000 * q1 + (256 * (q0 % 256) + c % 256);
  }

  /** The low 24 bits are the three low bytes. */
  lemma LowBits(c: int)
    requires 0 <= c
    ensures c % 0x100_0000 == ((c / 256) / 256 % 256) * 0x1_0000 + ((c / 256) % 256) * 256 + c % 256
  {
    var q0 := c / 256;
    var q1 := q0 / 256;
    var q2 := q1 / 256;
    assert c == 256 * q0 + c % 256;
    assert q0 == 256 * q1 + q0 % 256;
    assert q1 == 256 * q2 + q1 % 256;
    var low := (q1 % 256) * 0x1_0000 + (q0 % 256) * 256 + c % 256;
    assert 0 <= low < 0x100_0000;
    assert c == 0x100_0000 * q2 + low;
    Low24(c, q2, low);
  }

  /** A remainder modulo 2^24 is the one left over by any split into
      multiples of 2^24 and something below 2^24. */
  lemma Low24(c: int, q: int, low: int)
    requires 0 <= low < 0x100_0000 && c == 0x100_0000 * q + low
    ensures c % 0x100_0000 == low
  {
  }

  /** One channel of `lighten_color`: `x + ((255 - x) * pct) / 100`. */
  function LightenChannel(x: int, pct: int): int
  {
    x + TDiv((255 - x) * pct, 100)
  }

  /** One channel of `darken_color`: `(x * (100 - pct)) / 100`, negative
      before the clamp when pct exceeds 100. */
  function DarkenChannel(x: int, pct: int): int
  {
    TDiv(x * (100 - pct), 100)
  }

  /** `lighten_color(c, pct)`. */
  function Lighten(c: int, pct: int): int
  {
    Pack(Clamp8(LightenChannel(Channel(c, 16), pct)),
         Clamp8(LightenChannel(Channel(c, 8), pct)),
         Clamp8(LightenChannel(Channel(c, 0), pct)))
  }

  /** `darken_color(c, pct)`. */
  function Darken(c: int, pct: int): int
  {
    Pack(Clamp8(DarkenChannel(Channel(c, 16), pct)),
         Clamp8(DarkenChannel(Channel(c, 8), pct)),
         Clamp8(DarkenChannel(Channel(c, 0), pct)))
  }

  /** Per channel, lightening never darkens, reaches white from 100% on,
      and leaves the channel as it is at 0%. */
  lemma LightenChannelBounds(x: int, pct: int)
    requires 0 <= x <= 255 && InU8(pct)
    ensures x <= Clamp8(LightenChannel(x, pct)) <= 255
    ensures pct >= 100 ==> Clamp8(LightenChannel(x, pct)) == 255
    ensures pct == 0 ==> Clamp8(LightenChannel(x, pct)) == x
  {
    var a := (255 - x) * pct;
    assert 0 <= a by { MulNonNegative(255 - x, pct); }
    if pct >= 100 {
      assert a >= 100 * (255 - x) by { MulMonotone(255 - x, 100, pct); }
      DivAtLeast(a, 255 - x);
    }
  }

  /** Per channel, darkening never lightens, reaches black from 100% on,
      and leaves the channel as it is at 0%. */
  lemma DarkenChannelBounds(x: int, pct: int)
    requires 0 <= x <= 255 && InU8(pct)
    ensures 0 <= Clamp8(DarkenChannel(x, pct)) <= x
    ensures pct >= 100 ==> Clamp8(DarkenChannel(x, pct)) == 0
    ensures pct == 0 ==> Clamp8(DarkenChannel(x, pct)) == x
  {
    var a := x * (100 - pct);
    if pct >= 100 {
      assert a <= 0 by { MulNonNegative(x, pct - 100); }
    } else {
      assert 0 <= a by { MulNonNegative(x, 100 - pct); }
      assert a <= x * 100 by { MulMonotone(x, 100 - pct, 100); }
      DivAtMost(a, x);
    }
  }

  lemma MulNonNegative(a: int, b: int)
    requires 0 <= a && 0 <= b
    ensures 0 <= a * b
  {
  }

  lemma MulMonotone(a: int, b: int, c: int)
    requires 0 <= a && b <= c
    ensures a * b <= a * c
  {
    assert a * c - a * b == a * (c - b);
    MulNonNegative(a, c - b);
  }

  lemma DivAtLeast(a: int, k: int)
    requires 100 * k <= a
    ensures k <= a / 100
  {
  }

  lemma DivAtMost(a: int, k: int)
    requires 0 <= a <= 100 * k
    ensures a / 100 <= k
  {
  }

  /** `lighten_color` moves every channel of the colour toward white, all
      the way from 100% on, and keeps the colour at 0%. */
  lemma LightenSpec(c: int, pct: int)
    requires InU32(c) && InU8(pct)
    ensures var l := Lighten(c, pct);
      && 0 <= l < 0x100_0000
      && Channel(l, 16) >= Channel(c, 16) && Channel(l, 8) >= Channel(c, 8) && Channel(l, 0) >= Channel(c, 0)
      && (pct >= 100 ==> l == 0xFF_FFFF)
      && (pct == 0 ==> l == c % 0x100_0000)
  {
    var r, g, b := Channel(c, 16), Channel(c, 8), Channel(c, 0);
    LightenChannelBounds(r, pct);
    LightenChannelBounds(g, pct);
    LightenChannelBounds(b, pct);
    var r', g', b' := Clamp8(LightenChannel(r, pct)), Clamp8(LightenChannel(g, pct)), Clamp8(LightenChannel(b, pct));
    var d := Lighten(c, pct);
    assert d == Pack(r', g', b');
    assert 0 <= d < 0x100_0000 && Channel(d, 16) == r' && Channel(d, 8) == g' && Channel(d, 0) == b' by {
      PackChannels(r', g', b');
    }
    if pct == 0 {
      assert d == c % 0x100_0000 by {
        assert r' == r && g' == g && b' == b;
        ChannelsPack(c);
      }
    }
  }

  /** `darken_color` moves every channel of the colour toward black, all
      the way from 100% on, and keeps the colour at 0%. */
  lemma DarkenSpec(c: int, pct: int)
    requires InU32(c) && InU8(pct)
    ensures var d := Darken(c, pct);
      && 0 <= d < 0x100_0000
      && Channel(d, 16) <= Channel(c, 16) && Channel(d, 8) <= Channel(c, 8) && Channel(d, 0) <= Channel(c, 0)
      && (pct >= 100 ==> d == 0)
      && (pct == 0 ==> d == c % 0x100_0000)
  {
    var r, g, b := Channel(c, 16), Channel(c, 8), Channel(c, 0);
    ChannelBounds(c);
    var r', g', b' := Clamp8(DarkenChannel(r, pct)), Clamp8(DarkenChannel(g, pct)), Clamp8(DarkenChannel(b, pct));
    assert 0 <= r' <= r && (pct >= 100 ==> r' == 0) && (pct == 0 ==> r' == r) by {
      DarkenChannelBounds(r, pct);
    }
    assert 0 <= g' <= g && (pct >= 100 ==> g' == 0) && (pct == 0 ==> g' == g) by {
      DarkenChannelBounds(g, pct);
    }
    assert 0 <= b' <= b && (pct >= 100 ==> b' == 0) && (pct == 0 ==> b' == b) by {
      DarkenChannelBounds(b, pct);
    }
    PackBelow(c, pct, r', g', b');
  }

  /** A channel lies in 0..255. */
  lemma ChannelBounds(c: int)
    requires InU32(c)
    ensures 0 <= Channel(c, 16) <= 255 && 0 <= Channel(c, 8) <= 255 && 0 <= Channel(c, 0) <= 255
  {
  }

  /** Channels no brighter than the colour's, black from 100% on and the
      colour's own at 0%, pack into a colour with those channels. */
  lemma PackBelow(c: int, pct: int, r: int, g: int, b: int)
    requires InU32(c)
    requires 0 <= r <= Channel(c, 16) && 0 <= g <= Channel(c, 8) && 0 <= b <= Channel(c, 0)
    requires pct >= 100 ==> r == 0 && g == 0 && b == 0
    requires pct == 0 ==> r == Channel(c, 16) && g == Channel(c, 8) && b == Channel(c, 0)
    ensures var d := Pack(r, g, b);
      && 0 <= d < 0x100_0000
      && Channel(d, 16) == r && Channel(d, 8) == g && Channel(d, 0) == b
      && (pct >= 100 ==> d == 0)
      && (pct == 0 ==> d == c % 0x100_0000)
  {
    assert Channel(c, 16) <= 255 && Channel(c, 8) <= 255 && Channel(c, 0) <= 255;
    PackChannels(r, g, b);
    ChannelsPack(c);
  }
}
