/** Geometry shared by both builds of the game: the seven 4x4 piece masks,
    their rotation, the 20x10 board stored row-major as 200 colour cells,
    locking a piece into the board and the bottom-up line sweep.
    Both trees spell these out the same way (kernel/src/game/tetris.cpp and
    src/game/tetris.cpp); behaviour that differs between the trees lives in
    KernelTetris and SrcTetris. The row copies of the sweep and the board
    clear of `restart` go through `memcpy` and `memset`; ShiftDown and
    ClearBoard take them to act on the board itself, as the multiboot
    tree's do. The Limine kernel's `memcpy` and `memset` write at the
    destination plus the HHDM offset (KernelMem.Memcpy, KernelMem.Memset),
    so for that tree these two methods hold only with a zero offset. */
module Playfield {
  import opened CInt

  const Height: int := 20
  const Width: int := 10
  const CellCount: int := 200

  /** A piece mask `uint8_t minos[4][4]`, indexed [row][column]. */
  type Mask = seq<seq<int>>

  predicate IsMask(m: Mask) {
    |m| == 4 && forall i :: 0 <= i < 4 ==> |m[i]| == 4
  }

  /** The mask has at least one occupied (== 1) cell. */
  predicate HasCell(m: Mask)
    requires IsMask(m)
  {
    exists i, j :: 0 <= i < 4 && 0 <= j < 4 && m[i][j] == 1
  }

  datatype GameState = Start | Active | Paused | GameOver

  /** `PieceDef`: a mask and a 24-bit colour. */
  datatype PieceDef = PieceDef(minos: Mask, color: int)

  /** `Tetromino`: the held piece, a definition plus int8 board offsets. */
  datatype Tetromino = Tetromino(minos: Mask, color: int, x: int, y: int)

  const O_DEF := PieceDef([[1, 1, 0, 0], [1, 1, 0, 0], [0, 0, 0, 0], [0, 0, 0, 0]], 0xFFFF00)
  const I_DEF := PieceDef([[0, 0, 0, 0], [1, 1, 1, 1], [0, 0, 0, 0], [0, 0, 0, 0]], 0x00FFFF)
  const S_DEF := PieceDef([[0, 1, 1, 0], [1, 1, 0, 0], [0, 0, 0, 0], [0, 0, 0, 0]], 0x00FF00)
  const Z_DEF := PieceDef([[1, 1, 0, 0], [0, 1, 1, 0], [0, 0, 0, 0], [0, 0, 0, 0]], 0xFF0000)
  const L_DEF := PieceDef([[0, 1, 0, 0], [0, 1, 0, 0], [0, 1, 1, 0], [0, 0, 0, 0]], 0xFFA500)
  const J_DEF := PieceDef([[0, 1, 0, 0], [0, 1, 0, 0], [1, 1, 0, 0], [0, 0, 0, 0]], 0x0000FF)
  const T_DEF := PieceDef([[0, 1, 0, 0], [1, 1, 1, 0], [0, 0, 0, 0], [0, 0, 0, 0]], 0x800080)

  /** The definition table in the order both trees index it: I, J, T, L, O, Z, S. */
  function Def(n: int): (d: PieceDef)
    requires 0 <= n < 7
    ensures IsMask(d.minos) && HasCell(d.minos)
    ensures 0 < d.color < 0x100_0000
    ensures forall i, j :: 0 <= i < 4 && 0 <= j < 4 ==> d.minos[i][j] == 0 || d.minos[i][j] == 1
  {
    var d := if n == 0 then I_DEF else if n == 1 then J_DEF else if n == 2 then T_DEF
      else if n == 3 then L_DEF else if n == 4 then O_DEF else if n == 5 then Z_DEF else S_DEF;
    assert d.minos[1][1] == 1;
    d
  }

  /** A piece freshly spawned from definition `n`: x = 3, y = 0. */
  function Spawn(n: int): (p: Tetromino)
    requires 0 <= n < 7
    ensures IsMask(p.minos) && HasCell(p.minos) && p.x == 3 && p.y == 0
    ensures p.minos == Def(n).minos && p.color == Def(n).color
  {
    Tetromino(Def(n).minos, Def(n).color, 3, 0)
  }

  // ---------------------------------------------------------------- rotation

  /** Clockwise rotation: the source fills `tmp[j][3 - i] = minos[i][j]`. */
  function RotatedCw(m: Mask): (r: Mask)
    requires IsMask(m)
    ensures IsMask(r)
    ensures forall i, j :: 0 <= i < 4 && 0 <= j < 4 ==> r[j][3 - i] == m[i][j]
  {
    seq(4, a requires 0 <= a < 4 => seq(4, b requires 0 <= b < 4 => m[3 - b][a]))
  }

  /** Counter-clockwise rotation: the source fills `tmp[3 - j][i] = minos[i][j]`. */
  function RotatedCcw(m: Mask): (r: Mask)
    requires IsMask(m)
    ensures IsMask(r)
    ensures forall i, j :: 0 <= i < 4 && 0 <= j < 4 ==> r[3 - j][i] == m[i][j]
  {
    seq(4, a requires 0 <= a < 4 => seq(4, b requires 0 <= b < 4 => m[b][3 - a]))
  }

  /** The scratch-matrix loop of `rotate_cw`: `tmp[j][3 - i] = minos[i][j]`
      for i, j in 0..3, row by row. */
  method BuildRotatedCw(m: Mask) returns (t: Mask)
    requires IsMask(m)
    ensures t == RotatedCw(m)
  {
    var tmp := new int[4, 4];
    var i := 0;
    while i < 4
      invariant 0 <= i <= 4
      invariant forall a, b :: 0 <= a < 4 && 0 <= b < 4 && 3 - b < i ==> tmp[a, b] == m[3 - b][a]
    {
      var j := 0;
      while j < 4
        invariant 0 <= j <= 4
        invariant forall a, b :: 0 <= a < 4 && 0 <= b < 4 && (3 - b < i || (3 - b == i && a < j)) ==>
          tmp[a, b] == m[3 - b][a]
      {
        tmp[j, 3 - i] := m[i][j];
        j := j + 1;
      }
      i := i + 1;
    }
    t := seq(4, a requires 0 <= a < 4 reads tmp => seq(4, b requires 0 <= b < 4 reads tmp => tmp[a, b]));
    MaskExt(t, RotatedCw(m));
  }

  /** The scratch-matrix loop of `rotate_ccw`: `tmp[3 - j][i] = minos[i][j]`. */
  method BuildRotatedCcw(m: Mask) returns (t: Mask)
    requires IsMask(m)
    ensures t == RotatedCcw(m)
  {
    var tmp := new int[4, 4];
    var i := 0;
    while i < 4
      invariant 0 <= i <= 4
      invariant forall a, b :: 0 <= a < 4 && 0 <= b < 4 && b < i ==> tmp[a, b] == m[b][3 - a]
    {
      var j := 0;
      while j < 4
        invariant 0 <= j <= 4
        invariant forall a, b :: 0 <= a < 4 && 0 <= b < 4 && (b < i || (b == i && 3 - a < j)) ==>
          tmp[a, b] == m[b][3 - a]
      {
        tmp[3 - j, i] := m[i][j];
        j := j + 1;
      }
      i := i + 1;
    }
    t := seq(4, a requires 0 <= a < 4 reads tmp => seq(4, b requires 0 <= b < 4 reads tmp => tmp[a, b]));
    MaskExt(t, RotatedCcw(m));
  }

  lemma MaskExt(m: Mask, n: Mask)
    requires IsMask(m) && IsMask(n)
    requires forall i, j :: 0 <= i < 4 && 0 <= j < 4 ==> m[i][j] == n[i][j]
    ensures m == n
  {
    forall i | 0 <= i < 4 ensures m[i] == n[i] {
      assert forall j :: 0 <= j < 4 ==> m[i][j] == n[i][j];
    }
  }

  /** A counter-clockwise turn undoes a clockwise one, and vice versa. */
  lemma CcwUndoesCw(m: Mask)
    requires IsMask(m)
    ensures RotatedCcw(RotatedCw(m)) == m
    ensures RotatedCw(RotatedCcw(m)) == m
  {
    var r := RotatedCw(m);
    var q := RotatedCcw(m);
    forall i, j | 0 <= i < 4 && 0 <= j < 4 ensures RotatedCcw(r)[i][j] == m[i][j] {
      assert RotatedCcw(r)[3 - (3 - i)][j] == r[j][3 - i];
    }
    MaskExt(RotatedCcw(r), m);
    forall i, j | 0 <= i < 4 && 0 <= j < 4 ensures RotatedCw(q)[i][j] == m[i][j] {
      assert RotatedCw(q)[i][3 - (3 - j)] == q[3 - j][i];
    }
    MaskExt(RotatedCw(q), m);
  }

  /** Four clockwise turns give the original mask back. */
  lemma FourTurnsIdentity(m: Mask)
    requires IsMask(m)
    ensures RotatedCw(RotatedCw(RotatedCw(RotatedCw(m)))) == m
  {
    var r1 := RotatedCw(m);
    var r2 := RotatedCw(r1);
    var r3 := RotatedCw(r2);
    var r4 := RotatedCw(r3);
    forall i, j | 0 <= i < 4 && 0 <= j < 4 ensures r4[i][j] == m[i][j] {
      assert r4[i][j] == r3[3 - j][i];
      assert r3[3 - j][i] == r2[3 - i][3 - j];
      assert r2[3 - i][3 - j] == r1[j][3 - i];
      assert r1[j][3 - i] == m[i][j];
    }
    MaskExt(r4, m);
  }

  /** Rotation neither creates nor removes occupied cells. */
  lemma RotationKeepsCells(m: Mask)
    requires IsMask(m)
    ensures HasCell(RotatedCw(m)) <==> HasCell(m)
    ensures HasCell(RotatedCcw(m)) <==> HasCell(m)
  {
    var r := RotatedCw(m);
    var q := RotatedCcw(m);
    if HasCell(m) {
      var i, j :| 0 <= i < 4 && 0 <= j < 4 && m[i][j] == 1;
      assert r[j][3 - i] == 1;
      assert q[3 - j][i] == 1;
    }
    if HasCell(r) {
      var a, b :| 0 <= a < 4 && 0 <= b < 4 && r[a][b] == 1;
      assert m[3 - b][a] == r[a][3 - (3 - b)];
    }
    if HasCell(q) {
      var a, b :| 0 <= a < 4 && 0 <= b < 4 && q[a][b] == 1;
      assert m[b][3 - a] == q[3 - (3 - a)][b];
    }
  }

  // ------------------------------------------------------------ board cells

  function Zeros(n: nat): (z: seq<int>)
    ensures |z| == n && forall k :: 0 <= k < n ==> z[k] == 0
  {
    seq(n, _ => 0)
  }

  /** `board[r][c].color` in the row-major layout of `Mino board[20][10]`. */
  function Cell(b: seq<int>, r: int, c: int): int
    requires |b| == CellCount && 0 <= r < Height && 0 <= c < Width
  {
    b[r * Width + c]
  }

  predicate RowEmpty(b: seq<int>, r: int)
    requires |b| == CellCount && 0 <= r < Height
  {
    forall c :: 0 <= c < Width ==> Cell(b, r, c) == 0
  }

  predicate RowFull(b: seq<int>, r: int)
    requires |b| == CellCount && 0 <= r < Height
  {
    forall c :: 0 <= c < Width ==> Cell(b, r, c) != 0
  }

  /** A screen cell blocks a piece cell when it lies left, right or below the
      board, or on a coloured board cell; rows above the board never block. */
  predicate CellBlocked(b: seq<int>, sx: int, sy: int)
    requires |b| == CellCount
  {
    sx < 0 || sx >= Width || sy >= Height || (0 <= sy && Cell(b, sy, sx) != 0)
  }

  /** Mask cell (i, j) of a piece at (x, y) lands on screen cell
      (int8)(j + x), (int8)(i + y). */
  predicate Blocked(b: seq<int>, m: Mask, x: int, y: int)
    requires |b| == CellCount && IsMask(m)
  {
    exists i, j :: 0 <= i < 4 && 0 <= j < 4 && m[i][j] == 1 && CellBlocked(b, I8(j + x), I8(i + y))
  }

  /** No occupied cell that passes the column and bottom tests lands above the
      board: the condition under which an unguarded board read stays inside it. */
  predicate RowsSafe(m: Mask, x: int, y: int)
    requires IsMask(m)
  {
    forall i, j :: 0 <= i < 4 && 0 <= j < 4 && m[i][j] == 1 && 0 <= I8(j + x) < Width && I8(i + y) < Height
      ==> 0 <= I8(i + y)
  }

  /** A piece whose row offset lies in [0, 124] never reaches above the board:
      (int8)(i + y) does not wrap for the four mask rows. */
  lemma RowsSafeFromRow(m: Mask, x: int, y: int)
    requires IsMask(m) && 0 <= y <= 124
    ensures RowsSafe(m, x, y)
  {
  }

  // ------------------------------------------------------------- lock-in

  /** Mask cell (i, j) with i * 4 + j < n is occupied and lands, through the
      uint8 arithmetic of the source, on board cell (r, c). */
  predicate CoveredBefore(p: Tetromino, r: int, c: int, n: int)
    requires IsMask(p.minos)
  {
    var i := (r - p.y) % 256;
    var j := (c - p.x) % 256;
    i < 4 && j < 4 && i * 4 + j < n && p.minos[i][j] == 1
  }

  /** The board after the first n mask cells of p have been written. */
  function LockUpTo(b: seq<int>, p: Tetromino, n: int): (r: seq<int>)
    requires |b| == CellCount && IsMask(p.minos)
    ensures |r| == CellCount
  {
    seq(CellCount, k requires 0 <= k < CellCount =>
      if CoveredBefore(p, k / Width, k % Width, n) then p.color else b[k])
  }

  /** The board after `drop_piece` has written the piece colour. */
  function Lock(b: seq<int>, p: Tetromino): (r: seq<int>)
    requires |b| == CellCount && IsMask(p.minos)
    ensures |r| == CellCount
  {
    LockUpTo(b, p, 16)
  }

  lemma RowCol(r: int, c: int)
    requires 0 <= c < Width
    ensures (r * Width + c) / Width == r && (r * Width + c) % Width == c
  {
  }

  /** A remainder mod 256 is fixed by any decomposition a == 256 * q + m. */
  lemma ModOf(a: int, q: int, m: int)
    requires a == 256 * q + m && 0 <= m < 256
    ensures a % 256 == m
  {
  }

  /** (r - y) mod 256 names mask row i exactly when (uint8)(i + y) == r. */
  lemma ModShift(r: int, i: int, y: int)
    requires 0 <= r < 256 && 0 <= i < 256
    ensures (r - y) % 256 == i <==> U8(i + y) == r
  {
    if U8(i + y) == r {
      ShiftBack(r, i, y);
    }
    if (r - y) % 256 == i {
      ShiftForth(r, i, y);
    }
  }

  lemma ShiftBack(r: int, i: int, y: int)
    requires 0 <= r < 256 && 0 <= i < 256 && U8(i + y) == r
    ensures (r - y) % 256 == i
  {
    var q := (i + y) / 256;
    assert i + y == 256 * q + r;
    ModOf(r - y, -q, i);
  }

  lemma ShiftForth(r: int, i: int, y: int)
    requires 0 <= r < 256 && 0 <= i < 256 && (r - y) % 256 == i
    ensures U8(i + y) == r
  {
    var q := (r - y) / 256;
    assert r - y == 256 * q + i;
    ModOf(i + y, -q, r);
  }

  /** Mask cell n = 4 * i + j of the lock-in loop: written iff it is
      occupied and (uint8)(j + x) < 10 and (uint8)(i + y) < 20. */
  function LockOne(b: seq<int>, p: Tetromino, n: int): (r: seq<int>)
    requires |b| == CellCount && IsMask(p.minos) && 0 <= n < 16
    ensures |r| == CellCount
  {
    var i, j := n / 4, n % 4;
    var c, r := U8(j + p.x), U8(i + p.y);
    if p.minos[i][j] == 1 && r < Height && c < Width then b[r * Width + c := p.color] else b
  }

  /** One step of the lock-in loop. */
  lemma LockStep(b: seq<int>, p: Tetromino, n: int)
    requires |b| == CellCount && IsMask(p.minos) && 0 <= n < 16
    ensures LockUpTo(b, p, n + 1) == LockOne(LockUpTo(b, p, n), p, n)
  {
    var i, j := n / 4, n % 4;
    var c, r := U8(j + p.x), U8(i + p.y);
    var before, after := LockUpTo(b, p, n), LockUpTo(b, p, n + 1);
    forall k | 0 <= k < CellCount
      ensures after[k] == (if p.minos[i][j] == 1 && r < Height && c < Width
                           then before[r * Width + c := p.color] else before)[k]
    {
      var kr, kc := k / Width, k % Width;
      assert k == kr * Width + kc;
      ModShift(kr, i, p.y);
      ModShift(kc, j, p.x);
      if p.minos[i][j] == 1 && r < Height && c < Width && k == r * Width + c {
        RowCol(r, c);
      }
      if p.minos[i][j] == 1 && r < Height && c < Width && k != r * Width + c {
        assert kr != r || kc != c;
      }
    }
  }

  /** The meaning of Lock: cell (r, c) takes the piece colour exactly when
      some occupied mask cell (i, j) lands on it, with the source's uint8
      column and row arithmetic; every other cell keeps its colour. */
  lemma LockCells(b: seq<int>, p: Tetromino, r: int, c: int)
    requires |b| == CellCount && IsMask(p.minos)
    requires 0 <= r < Height && 0 <= c < Width
    ensures Cell(Lock(b, p), r, c) ==
      if exists i, j :: 0 <= i < 4 && 0 <= j < 4 && p.minos[i][j] == 1 && U8(j + p.x) == c && U8(i + p.y) == r
      then p.color else Cell(b, r, c)
  {
    LockAt(b, p, r, c);
    CoveredIff(p, r, c);
  }

  lemma LockAt(b: seq<int>, p: Tetromino, r: int, c: int)
    requires |b| == CellCount && IsMask(p.minos)
    requires 0 <= r < Height && 0 <= c < Width
    ensures Cell(Lock(b, p), r, c) == if CoveredBefore(p, r, c, 16) then p.color else Cell(b, r, c)
  {
    RowCol(r, c);
  }

  lemma CoveredIff(p: Tetromino, r: int, c: int)
    requires IsMask(p.minos) && 0 <= r < Height && 0 <= c < Width
    ensures CoveredBefore(p, r, c, 16) <==>
      exists i, j :: 0 <= i < 4 && 0 <= j < 4 && p.minos[i][j] == 1 && U8(j + p.x) == c && U8(i + p.y) == r
  {
    if CoveredBefore(p, r, c, 16) {
      var i, j := (r - p.y) % 256, (c - p.x) % 256;
      LandsOn(p, r, c, i, j);
    }
    if exists i, j :: 0 <= i < 4 && 0 <= j < 4 && p.minos[i][j] == 1 && U8(j + p.x) == c && U8(i + p.y) == r {
      var i, j :| 0 <= i < 4 && 0 <= j < 4 && p.minos[i][j] == 1 && U8(j + p.x) == c && U8(i + p.y) == r;
      LandsOn(p, r, c, i, j);
    }
  }

  /** Mask cell (i, j) lands on (r, c) exactly when i and j are the row
      and column differences taken mod 256. */
  lemma LandsOn(p: Tetromino, r: int, c: int, i: int, j: int)
    requires 0 <= r < Height && 0 <= c < Width && 0 <= i < 4 && 0 <= j < 4
    ensures (U8(j + p.x) == c && U8(i + p.y) == r) <==>
      (i == (r - p.y) % 256 && j == (c - p.x) % 256)
  {
    ModShift(r, i, p.y);
    ModShift(c, j, p.x);
  }

  // ---------------------------------------------------------- line sweep

  /** Number of coloured cells. */
  function Occupied(s: seq<int>): nat
  {
    if s == [] then 0 else (if s[0] != 0 then 1 else 0) + Occupied(s[1..])
  }

  lemma {:induction false} OccupiedConcat(a: seq<int>, b: seq<int>)
    ensures Occupied(a + b) == Occupied(a) + Occupied(b)
  {
    if a == [] {
      assert a + b == b;
    } else {
      assert (a + b)[1..] == a[1..] + b;
      OccupiedConcat(a[1..], b);
    }
  }

  lemma {:induction false} OccupiedBounds(s: seq<int>)
    ensures Occupied(s) <= |s|
    ensures Occupied(s) == 0 <==> forall k :: 0 <= k < |s| ==> s[k] == 0
    ensures Occupied(s) == |s| <==> forall k :: 0 <= k < |s| ==> s[k] != 0
  {
    if s != [] {
      OccupiedBounds(s[1..]);
      assert forall k :: 1 <= k < |s| ==> s[k] == s[1..][k - 1];
    }
  }

  /** `check_row`'s removal of full row y: rows 0..y-1 move down one row
      (the memcpy of row y2-1 into y2 for y2 = y..1) and row 0 is zeroed. */
  function Collapse(b: seq<int>, y: int): (r: seq<int>)
    requires |b| == CellCount && 0 <= y < Height
    ensures |r| == CellCount
    ensures forall k :: 0 <= k < CellCount ==>
      r[k] == if k < Width then 0 else if k < (y + 1) * Width then b[k - Width] else b[k]
  {
    Zeros(Width) + b[..y * Width] + b[(y + 1) * Width..]
  }

  /** Removing a full row removes exactly its ten coloured cells. */
  lemma CollapseOccupied(b: seq<int>, y: int)
    requires |b| == CellCount && 0 <= y < Height && RowFull(b, y)
    ensures Occupied(Collapse(b, y)) + Width == Occupied(b)
  {
    var lo, row, hi := b[..y * Width], b[y * Width..(y + 1) * Width], b[(y + 1) * Width..];
    assert b == lo + row + hi;
    forall k | 0 <= k < Width ensures row[k] != 0 {
      assert row[k] == Cell(b, y, k);
    }
    OccupiedBounds(row);
    OccupiedBounds(Zeros(Width));
    OccupiedConcat(lo, row);
    OccupiedConcat(lo + row, hi);
    OccupiedConcat(Zeros(Width), lo);
    OccupiedConcat(Zeros(Width) + lo, hi);
  }

  /** The `check_row` loop from row y upwards: stop at row 0 or at the
      first empty row, remove a full row and look at the same index again,
      otherwise go up one row. Returns the board and the rows removed. */
  function Sweep(b: seq<int>, y: int): (r: (seq<int>, nat))
    requires |b| == CellCount && 0 <= y < Height
    ensures |r.0| == CellCount
    decreases y, Occupied(b)
  {
    if y == 0 || RowEmpty(b, y) then (b, 0)
    else if RowFull(b, y) then
      CollapseOccupied(b, y);
      var t := Sweep(Collapse(b, y), y);
      (t.0, t.1 + 1)
    else Sweep(b, y - 1)
  }

  /** Each removed row takes exactly ten coloured cells off the board;
      no other cell changes colour. */
  lemma {:induction false} SweepKeepsCells(b: seq<int>, y: int)
    requires |b| == CellCount && 0 <= y < Height
    ensures Occupied(Sweep(b, y).0) + Width * Sweep(b, y).1 == Occupied(b)
    decreases y, Occupied(b)
  {
    if y == 0 || RowEmpty(b, y) {
    } else if RowFull(b, y) {
      CollapseOccupied(b, y);
      SweepKeepsCells(Collapse(b, y), y);
    } else {
      SweepKeepsCells(b, y - 1);
    }
  }

  /** At most twenty rows are ever removed by one sweep. */
  lemma SweepBound(b: seq<int>, y: int)
    requires |b| == CellCount && 0 <= y < Height
    ensures Sweep(b, y).1 <= Height
  {
    SweepKeepsCells(b, y);
    OccupiedBounds(b);
  }

  /** One step of the sweep from row y > 0, each branch stated on its own. */
  lemma SweepStepEmpty(b: seq<int>, y: int)
    requires |b| == CellCount && 0 <= y < Height && (y == 0 || RowEmpty(b, y))
    ensures Sweep(b, y) == (b, 0)
  {
  }

  lemma SweepStepFull(b: seq<int>, y: int)
    requires |b| == CellCount && 0 < y < Height && !RowEmpty(b, y) && RowFull(b, y)
    ensures Sweep(b, y) == (Sweep(Collapse(b, y), y).0, Sweep(Collapse(b, y), y).1 + 1)
  {
  }

  lemma SweepStepPartial(b: seq<int>, y: int)
    requires |b| == CellCount && 0 < y < Height && !RowEmpty(b, y) && !RowFull(b, y)
    ensures Sweep(b, y) == Sweep(b, y - 1)
  {
  }

  /** Without a full row among rows 1..y the sweep changes nothing. */
  lemma {:induction false} SweepNoFullRow(b: seq<int>, y: int)
    requires |b| == CellCount && 0 <= y < Height
    requires forall r :: 1 <= r <= y ==> !RowFull(b, r)
    ensures Sweep(b, y) == (b, 0)
  {
    if y > 0 && !RowEmpty(b, y) {
      SweepNoFullRow(b, y - 1);
    }
  }

  /** Each removed row leaves an empty row at the top: if rows 0..k-1 start
      empty, rows 0..k+n-1 are empty afterwards, where n rows were removed. */
  lemma {:induction false} SweepEmptiesTop(b: seq<int>, y: int, k: int)
    requires |b| == CellCount && 0 <= y < Height && 0 <= k <= Height
    requires forall r :: 0 <= r < k ==> RowEmpty(b, r)
    ensures Sweep(b, y).1 + k <= Height
    ensures forall r :: 0 <= r < k + Sweep(b, y).1 ==> RowEmpty(Sweep(b, y).0, r)
    decreases y, Occupied(b)
  {
    if y == 0 || RowEmpty(b, y) {
    } else if RowFull(b, y) {
      assert k <= y;
      var b' := Collapse(b, y);
      CollapseOccupied(b, y);
      forall r | 0 <= r < k + 1 ensures RowEmpty(b', r) {
        forall c | 0 <= c < Width ensures Cell(b', r, c) == 0 {
          if r > 0 {
            assert RowEmpty(b, r - 1);
            assert Cell(b, r - 1, c) == 0;
            assert b'[r * Width + c] == b[(r - 1) * Width + c];
          }
        }
      }
      SweepEmptiesTop(b', y, k + 1);
    } else {
      SweepEmptiesTop(b, y - 1, k);
    }
  }

  /** Points for `scored_lines` rows removed in one `check_row`: 100, 300 or
      500 per level for 1, 2 or 3 rows, nothing for any other count. */
  function LinePoints(n: int): (p: int)
    ensures p == 0 <==> !(1 <= n <= 3)
    ensures p in {0, 100, 300, 500}
  {
    if n == 1 then 100 else if n == 2 then 300 else if n == 3 then 500 else 0
  }

  /** The `switch (scored_lines)` in `check_row`: the amount added to the
      score, written case by case so that each product has a constant factor. */
  function Award(n: int, level: int): int
  {
    if n == 1 then 100 * level else if n == 2 then 300 * level else if n == 3 then 500 * level else 0
  }

  lemma AwardIsPointsTimesLevel(n: int, level: int)
    ensures Award(n, level) == LinePoints(n) * level
  {
  }

  /** `frames_per_drop = 50 - (level * 2)` in uint32 arithmetic. */
  function FramesPerDrop(level: int): (f: int)
    ensures 0 <= level <= 25 ==> f == 50 - 2 * level
    ensures 26 <= level <= 0x7FFF_FFFF ==> f == TWO32 + 50 - 2 * level
  {
    U32(50 - level * 2)
  }

  // ------------------------------------------- the board loops, in place

  /** The lock-in loop of `drop_piece`: every occupied mask cell whose
      uint8 column and row fall inside the board takes the piece colour. */
  method LockPiece(board: array<int>, held: Tetromino)
    requires board.Length == CellCount && IsMask(held.minos)
    modifies board
    ensures board[..] == Lock(old(board[..]), held)
  {
    ghost var b0 := board[..];
    var i := 0;
    while i < 4
      invariant 0 <= i <= 4 && board[..] == LockUpTo(b0, held, 4 * i)
    {
      var j := 0;
      while j < 4
        invariant 0 <= j <= 4 && board[..] == LockUpTo(b0, held, 4 * i + j)
      {
        LockStep(b0, held, 4 * i + j);
        LockCell(board, held, i, j);
        j := j + 1;
      }
      i := i + 1;
    }
  }

  /** The body of the lock-in loop for mask cell (i, j). */
  method LockCell(board: array<int>, held: Tetromino, i: int, j: int)
    requires board.Length == CellCount && IsMask(held.minos) && 0 <= i < 4 && 0 <= j < 4
    modifies board
    ensures board[..] == LockOne(old(board[..]), held, 4 * i + j)
  {
    assert (4 * i + j) / 4 == i && (4 * i + j) % 4 == j;
    if held.minos[i][j] == 1 {
      var x, y := U8(j + held.x), U8(i + held.y);
      if y < Height && x < Width {
        board[y * Width + x] := held.color;
      }
    }
  }

  /** The scan of one row in `check_row`: all ten cells coloured, or none. */
  method ScanRow(board: array<int>, y: int) returns (full: bool, empty: bool)
    requires board.Length == CellCount && 0 <= y < Height
    ensures full == RowFull(board[..], y) && empty == RowEmpty(board[..], y)
  {
    full, empty := true, true;
    var c := 0;
    while c < Width
      invariant 0 <= c <= Width
      invariant full <==> forall k :: 0 <= k < c ==> Cell(board[..], y, k) != 0
      invariant empty <==> forall k :: 0 <= k < c ==> Cell(board[..], y, k) == 0
    {
      assert Cell(board[..], y, c) == board[y * Width + c];
      if board[y * Width + c] == 0 {
        full := false;
      } else {
        empty := false;
      }
      c := c + 1;
    }
  }

  /** The removal of row y in `check_row`: for y2 = y down to 1 row y2-1
      is copied into row y2, then row 0 is cleared. */
  method ShiftDown(board: array<int>, y: int)
    requires board.Length == CellCount && 0 <= y < Height
    modifies board
    ensures board[..] == Collapse(old(board[..]), y)
  {
    ghost var b0 := board[..];
    var y2 := y;
    while y2 > 0
      invariant 0 <= y2 <= y
      invariant forall k {:trigger board[k]} :: 0 <= k < CellCount ==>
        board[k] == if (y2 + 1) * Width <= k < (y + 1) * Width then b0[k - Width] else b0[k]
    {
      var c := 0;
      while c < Width
        invariant 0 <= c <= Width
        invariant forall k {:trigger board[k]} :: 0 <= k < CellCount ==>
          board[k] == if (y2 + 1) * Width <= k < (y + 1) * Width || y2 * Width <= k < y2 * Width + c
                      then b0[k - Width] else b0[k]
      {
        board[y2 * Width + c] := board[(y2 - 1) * Width + c];
        c := c + 1;
      }
      y2 := y2 - 1;
    }
    var c := 0;
    while c < Width
      invariant 0 <= c <= Width
      invariant forall k {:trigger board[k]} :: 0 <= k < CellCount ==>
        board[k] == if k < c then 0 else if Width <= k < (y + 1) * Width then b0[k - Width] else b0[k]
    {
      board[c] := 0;
      c := c + 1;
    }
    assert forall k :: 0 <= k < CellCount ==> board[..][k] == Collapse(b0, y)[k];
  }

  /** One pass of the row loop of `check_row` at row y: stop at an empty
      row, remove a full row (and examine row y again, the source's `y++`
      before the loop's `y--`), or move on to row y - 1. */
  method SweepStep(board: array<int>, y: int) returns (next: int, removed: bool, stop: bool)
    requires board.Length == CellCount && 0 < y < Height
    modifies board
    ensures stop ==> !removed && board[..] == old(board[..]) && Sweep(old(board[..]), y) == (old(board[..]), 0)
    ensures !stop ==> 0 <= next < Height
    ensures !stop ==> Sweep(old(board[..]), y).0 == Sweep(board[..], next).0
    ensures !stop ==> Sweep(old(board[..]), y).1 == Sweep(board[..], next).1 + (if removed then 1 else 0)
    ensures removed ==> next == y && Occupied(board[..]) < Occupied(old(board[..]))
    ensures !stop && !removed ==> next == y - 1
  {
    ghost var b := board[..];
    var full, empty := ScanRow(board, y);
    next, removed, stop := y, false, false;
    if empty {
      SweepStepEmpty(b, y);
      stop := true;
    } else if full {
      SweepStepFull(b, y);
      CollapseOccupied(b, y);
      ShiftDown(board, y);
      removed := true;
    } else {
      SweepStepPartial(b, y);
      next := y - 1;
    }
  }

  /** The row loop of `check_row`: rows 19 down to 1, stopping at the
      first empty row; `scored` is `scored_lines`. */
  method SweepBoard(board: array<int>) returns (scored: nat)
    requires board.Length == CellCount
    modifies board
    ensures (board[..], scored) == Sweep(old(board[..]), Height - 1)
  {
    ghost var sw := Sweep(board[..], Height - 1);
    scored := 0;
    var y := Height - 1;
    while y > 0
      invariant 0 <= y < Height
      invariant Sweep(board[..], y).0 == sw.0 && Sweep(board[..], y).1 + scored == sw.1
      decreases y, Occupied(board[..])
    {
      var next, removed, stop := SweepStep(board, y);
      if stop {
        break;
      }
      if removed {
        scored := scored + 1;
      }
      y := next;
    }
    if y == 0 {
      SweepStepEmpty(board[..], y);
    }
  }

  /** `memset(board, {}, sizeof(board))`. */
  method ClearBoard(board: array<int>)
    requires board.Length == CellCount
    modifies board
    ensures board[..] == Zeros(CellCount)
  {
    var k := 0;
    while k < CellCount
      invariant 0 <= k <= CellCount
      invariant forall q :: 0 <= q < k ==> board[q] == 0
    {
      board[k] := 0;
      k := k + 1;
    }
  }
}
