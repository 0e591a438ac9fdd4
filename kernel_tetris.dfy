/** The Limine kernel's game (kernel/src/game/tetris.cpp,
    kernel/include/tetris/tetris.hpp): a 7-bag piece generator, the
    START/ACTIVE/PAUSED/GAME_OVER state machine driven by key events and
    frames, and the board updates of moving, rotating, locking and clearing.

    The statics of class `Tetris` (plus the file statics `frame_counter` and
    `frames_per_drop`) are fields of `Game`; each of its methods is proved
    against a pure function on a `Snapshot` of those statics, and the
    properties of the game are lemmas about those functions. `rand()` is an
    oracle indexed by the number of calls made so far.

    This tree's `memcpy` and `memset` write at the destination plus the HHDM
    offset (KernelMem.Memcpy, KernelMem.Memset). The game calls them for the
    row copies and clear of `check_row`, the board clear of `restart` and
    the copy of a turned mask into the held piece in `rotate_cw` and
    `rotate_ccw`; the model lets each of them act on the game's own statics,
    which is what they do only with a zero offset. */
module KernelTetris {
  import opened CInt
  import opened Playfield
  import KB = KernelKeyboard

  /** The uint32 counters: `time`, `score`, `level`, `full_lines`,
      `frame_counter` and `frames_per_drop`. */
  datatype Counters = Counters(
    time: int, score: int, level: int, fullLines: int,
    frameCounter: int, framesPerDrop: int)

  /** `bag_pieces`, `bag_size`, and the number of `rand()` calls so far. */
  datatype Bag = Bag(pieces: seq<int>, size: int, rolls: nat)

  /** All game statics at one instant. */
  datatype Snapshot = Snapshot(
    board: seq<int>, held: Tetromino, state: GameState, ctr: Counters, bag: Bag)

  /** The identity permutation `bag_pieces[i] = i`. */
  const Fresh: seq<int> := [0, 1, 2, 3, 4, 5, 6]

  predicate CountersOk(c: Counters) {
    && InU32(c.time) && InU32(c.score) && InU32(c.level) && InU32(c.fullLines)
    && InU32(c.frameCounter) && InU32(c.framesPerDrop)
  }

  /** Every entry of the bag is a piece index, so `piece_defs[bag_pieces[k]]`
      stays in the table; that a refilled bag is a permutation of 0..6 is
      the lemma ShuffledPermutes. */
  predicate BagOk(g: Bag) {
    |g.pieces| == 7 && 0 <= g.size <= 7
    && forall k :: 0 <= k < 7 ==> 0 <= g.pieces[k] < 7
  }

  /** A held piece with cells sits at a row in 0..19, so `collides` never
      reads above the board. */
  predicate PieceOk(p: Tetromino) {
    IsMask(p.minos) && InI8(p.x) && InI8(p.y)
    && (HasCell(p.minos) ==> 0 <= p.y < Height)
  }

  /** What every reachable state satisfies. */
  predicate Consistent(s: Snapshot) {
    |s.board| == CellCount && PieceOk(s.held) && CountersOk(s.ctr) && BagOk(s.bag)
  }

  /** The statics at boot: an all-zero held piece and board, an all-zero bag
      with `bag_size == 0`, level 1 and `frames_per_drop == 100`. */
  function Initial(): (s: Snapshot)
    ensures Consistent(s) && s.state == Start && !HasCell(s.held.minos)
    ensures s.ctr.level == s.ctr.fullLines / 10 + 1
  {
    var zeroMask := seq(4, _ => [0, 0, 0, 0]);
    Snapshot(Zeros(CellCount), Tetromino(zeroMask, 0, 0, 0), Start,
      Counters(0, 0, 1, 0, 0, 100), Bag([0, 0, 0, 0, 0, 0, 0], 0, 0))
  }

  // ---------------------------------------------------------------- 7-bag

  function Swap(p: seq<int>, i: int, j: int): (r: seq<int>)
    requires 0 <= i < |p| && 0 <= j < |p|
    ensures |r| == |p| && r[i] == p[j] && r[j] == p[i]
    ensures forall k :: 0 <= k < |p| && k != i && k != j ==> r[k] == p[k]
  {
    p[i := p[j]][j := p[i]]
  }

  lemma SwapPermutes(p: seq<int>, i: int, j: int)
    requires 0 <= i < |p| && 0 <= j < |p|
    ensures multiset(Swap(p, i, j)) == multiset(p)
  {
  }

  /** `rand() % (i + 1)` with `i` a uint32: the int result is converted to
      unsigned before the remainder, so the index is never negative. */
  function DrawIndex(roll: int, i: int): (j: int)
    requires 0 <= i
    ensures 0 <= j <= i
  {
    U32(roll) % (i + 1)
  }

  /** The shuffle loop from the k-th `rand()` call up to (not including)
      call `stop`: call k swaps index i = stop - k, so the loop runs from
      i = stop - k down to 1. */
  function ShuffleFrom(p: seq<int>, oracle: nat -> int, k: nat, stop: nat): (r: seq<int>)
    requires |p| == 7 && k <= stop <= k + 6
    ensures |r| == 7
    decreases stop - k
  {
    if k == stop then p
    else
      var i := stop - k;
      ShuffleFrom(Swap(p, i, DrawIndex(oracle(k), i)), oracle, k + 1, stop)
  }

  /** The shuffle only reorders the bag. */
  lemma {:induction false} ShufflePermutes(p: seq<int>, oracle: nat -> int, k: nat, stop: nat)
    requires |p| == 7 && k <= stop <= k + 6
    ensures multiset(ShuffleFrom(p, oracle, k, stop)) == multiset(p)
    decreases stop - k
  {
    if k < stop {
      var i := stop - k;
      SwapPermutes(p, i, DrawIndex(oracle(k), i));
      ShufflePermutes(Swap(p, i, DrawIndex(oracle(k), i)), oracle, k + 1, stop);
    }
  }

  /** One iteration of the shuffle loop: call k swaps index i = stop - k. */
  lemma ShuffleStep(p: seq<int>, oracle: nat -> int, k: nat, stop: nat, i: int)
    requires |p| == 7 && k < stop <= k + 6 && i == stop - k
    ensures ShuffleFrom(p, oracle, k, stop) == ShuffleFrom(Swap(p, i, DrawIndex(oracle(k), i)), oracle, k + 1, stop)
  {
  }

  /** The refilled bag: 0..6 shuffled with the six calls from the k-th on. */
  function Shuffled(oracle: nat -> int, k: nat): (r: seq<int>)
    ensures |r| == 7
  {
    ShuffleFrom(Fresh, oracle, k, k + 6)
  }

  /** A refilled bag holds each of the seven pieces exactly once. */
  lemma ShuffledPermutes(oracle: nat -> int, k: nat)
    ensures multiset(Shuffled(oracle, k)) == multiset(Fresh)
  {
    ShufflePermutes(Fresh, oracle, k, k + 6);
  }

  lemma PermutationInRange(p: seq<int>)
    requires multiset(p) == multiset(Fresh)
    ensures forall k :: 0 <= k < |p| ==> 0 <= p[k] < 7
  {
    forall k | 0 <= k < |p|
      ensures 0 <= p[k] < 7
    {
      assert p[k] in multiset(p);
      InFresh(p[k]);
    }
  }

  lemma ShuffledInRange(oracle: nat -> int, k: nat)
    ensures forall q :: 0 <= q < 7 ==> 0 <= Shuffled(oracle, k)[q] < 7
  {
    ShuffledPermutes(oracle, k);
    PermutationInRange(Shuffled(oracle, k));
  }

  lemma InFresh(v: int)
    requires v in multiset(Fresh)
    ensures 0 <= v < 7
  {
    assert v in Fresh;
  }

  /** The refill at the head of `new_piece`: an empty bag is filled with
      0..6 and shuffled with the next six `rand()` calls. */
  function Refilled(g: Bag, oracle: nat -> int): (f: Bag)
    requires BagOk(g)
    ensures BagOk(f) && f.size > 0
    ensures g.size > 0 ==> f == g
  {
    if g.size == 0 then
      ShuffledInRange(oracle, g.rolls);
      Bag(Shuffled(oracle, g.rolls), 7, g.rolls + 6)
    else g
  }

  /** `new_piece`: refill and shuffle an empty bag with six `rand()` calls,
      then serve `bag_pieces[--bag_size]`, spawned at column 3, row 0. */
  function Serve(g: Bag, oracle: nat -> int): (r: (Tetromino, Bag))
    requires BagOk(g)
    ensures BagOk(r.1) && r.1.size < 7
    ensures g.size == 0 ==> r.1 == Bag(Shuffled(oracle, g.rolls), 6, g.rolls + 6)
    ensures g.size > 0 ==> r.1 == g.(size := g.size - 1)
    ensures 0 <= r.1.pieces[r.1.size] < 7 && r.0 == Spawn(r.1.pieces[r.1.size])
  {
    var full := Refilled(g, oracle);
    var n := full.size - 1;
    (Spawn(full.pieces[n]), full.(size := n))
  }

  /** The effect of `new_piece` on the bag and the held piece, field by
      field: a refill with the next six calls when the bag was empty, then
      the top of the bag is taken and spawned. */
  predicate ServedAs(g: Bag, oracle: nat -> int, g': Bag, p: Tetromino) {
    && (g.size == 0 ==> g'.pieces == Shuffled(oracle, g.rolls) && g'.rolls == g.rolls + 6 && g'.size == 6)
    && (g.size != 0 ==> g'.pieces == g.pieces && g'.rolls == g.rolls && g'.size == g.size - 1)
    && 0 <= g'.size < |g'.pieces| && 0 <= g'.pieces[g'.size] < 7 && p == Spawn(g'.pieces[g'.size])
  }

  lemma ServedAsServe(g: Bag, oracle: nat -> int, g': Bag, p: Tetromino)
    requires BagOk(g) && ServedAs(g, oracle, g', p)
    ensures (p, g') == Serve(g, oracle)
  {
  }

  /** The piece indices served by `count` successive `new_piece` calls. */
  function Draws(g: Bag, oracle: nat -> int, count: nat): seq<int>
    requires BagOk(g)
    decreases count
  {
    if count == 0 then []
    else
      var g' := Serve(g, oracle).1;
      [g'.pieces[g'.size]] + Draws(g', oracle, count - 1)
  }

  function Reverse(p: seq<int>): seq<int>
    decreases |p|
  {
    if p == [] then [] else Reverse(p[1..]) + [p[0]]
  }

  lemma {:induction false} ReversePermutes(p: seq<int>)
    ensures |Reverse(p)| == |p| && multiset(Reverse(p)) == multiset(p)
    decreases |p|
  {
    if p != [] {
      ReversePermutes(p[1..]);
      assert p == [p[0]] + p[1..];
    }
  }

  /** While the bag is not empty, the next `bag_size` calls serve its first
      `bag_size` entries from the top down. */
  lemma {:induction false} DrawsFromBag(g: Bag, oracle: nat -> int)
    requires BagOk(g)
    ensures Draws(g, oracle, g.size) == Reverse(g.pieces[..g.size])
    decreases g.size
  {
    if g.size > 0 {
      var g' := Serve(g, oracle).1;
      DrawsFromBag(g', oracle);
      var n := g.size;
      ReverseSnoc(g.pieces[..n - 1], g.pieces[n - 1]);
      PrefixSnoc(g.pieces, n);
    }
  }

  lemma PrefixSnoc(p: seq<int>, n: int)
    requires 0 < n <= |p|
    ensures p[..n] == p[..n - 1] + [p[n - 1]]
  {
  }

  lemma {:induction false} ReverseSnoc(p: seq<int>, x: int)
    ensures Reverse(p + [x]) == [x] + Reverse(p)
    decreases |p|
  {
    if p == [] {
      assert [x] + [] == [x];
    } else {
      assert (p + [x])[1..] == p[1..] + [x];
      ReverseSnoc(p[1..], x);
    }
  }

  /** The 7-bag promise: from an empty bag, seven successive `new_piece`
      calls serve each of the seven pieces exactly once. */
  lemma SevenDrawsServeEachPieceOnce(g: Bag, oracle: nat -> int)
    requires BagOk(g) && g.size == 0
    ensures multiset(Draws(g, oracle, 7)) == multiset(Fresh)
  {
    var g' := Serve(g, oracle).1;
    ShuffledPermutes(oracle, g.rolls);
    assert Draws(g, oracle, 7) == [g'.pieces[6]] + Draws(g', oracle, 6);
    DrawsFromBag(g', oracle);
    TopThenReverse(g'.pieces);
  }

  lemma TopThenReverse(p: seq<int>)
    requires |p| == 7
    ensures multiset([p[6]] + Reverse(p[..6])) == multiset(p)
  {
    ReverseSnoc(p[..6], p[6]);
    ReversePermutes(p[..6]);
    PrefixSnoc(p, 7);
    assert p[..7] == p;
  }

  /** The bag after `count` calls. */
  function BagAfter(g: Bag, oracle: nat -> int, count: nat): Bag
    requires BagOk(g)
    decreases count
  {
    if count == 0 then g else BagAfter(Serve(g, oracle).1, oracle, count - 1)
  }

  /** Seven calls from an empty bag empty it again and use six `rand()`
      calls, so the sequence of pieces splits into shuffled blocks of seven. */
  lemma {:induction false} SevenDrawsEmptyTheBag(g: Bag, oracle: nat -> int)
    requires BagOk(g) && g.size == 0
    ensures BagAfter(g, oracle, 7).size == 0 && BagAfter(g, oracle, 7).rolls == g.rolls + 6
  {
    var g' := Serve(g, oracle).1;
    BagCountsDown(g', oracle, 6);
  }

  lemma {:induction false} BagCountsDown(g: Bag, oracle: nat -> int, count: nat)
    requires BagOk(g) && count <= g.size
    ensures BagAfter(g, oracle, count) == g.(size := g.size - count)
    decreases count
  {
    if count > 0 {
      var g' := g.(size := g.size - 1);
      TakeStep(g, oracle, count);
      BagCountsDown(g', oracle, count - 1);
      assert g'.(size := g'.size - (count - 1)) == g.(size := g.size - count);
    }
  }

  /** A call on a non-empty bag only lowers `bag_size`. */
  lemma TakeStep(g: Bag, oracle: nat -> int, count: nat)
    requires BagOk(g) && 0 < count && 0 < g.size
    ensures BagOk(g.(size := g.size - 1))
    ensures BagAfter(g, oracle, count) == BagAfter(g.(size := g.size - 1), oracle, count - 1)
  {
  }

  // --------------------------------------------------- clearing and score

  /** The tail of `check_row`, on counters whose `full_lines` already
      counts the n removed rows: raise the level when `full_lines / 10`
      passes `level - 1`, then score for one, two or three rows. */
  function Rescore(c: Counters, n: int): (r: Counters)
    requires CountersOk(c)
    ensures CountersOk(r) && r.fullLines == c.fullLines
    ensures r.time == c.time && r.frameCounter == c.frameCounter
  {
    var raise := c.fullLines / 10 > U32(c.level - 1);
    var level := if raise then c.fullLines / 10 + 1 else c.level;
    var fpd := if raise then FramesPerDrop(level) else c.framesPerDrop;
    var score := if 1 <= n <= 3 then U32(c.score + U32(Award(n, level))) else c.score;
    c.(level := level, framesPerDrop := fpd, score := score)
  }

  /** `check_row`: sweep full rows from row 19 upwards, add the removed rows
      to `full_lines`, then rescore. */
  function ClearRows(b: seq<int>, c: Counters): (r: (seq<int>, Counters))
    requires |b| == CellCount && CountersOk(c)
    ensures |r.0| == CellCount && CountersOk(r.1)
    ensures r.0 == Sweep(b, Height - 1).0
    ensures r.1.fullLines == U32(c.fullLines + Sweep(b, Height - 1).1)
    ensures r.1.time == c.time && r.1.frameCounter == c.frameCounter
  {
    var (b', n) := Sweep(b, Height - 1);
    (b', Rescore(c.(fullLines := U32(c.fullLines + n)), n))
  }

  /** The level rule keeps `level == full_lines / 10 + 1` for as long as
      `full_lines` does not wrap, and the level never goes down. */
  lemma LevelFollowsLines(b: seq<int>, c: Counters)
    requires |b| == CellCount && CountersOk(c) && c.level == c.fullLines / 10 + 1
    requires c.fullLines + Height < TWO32
    ensures var r := ClearRows(b, c).1;
      r.level == r.fullLines / 10 + 1 && r.level >= c.level
      && r.fullLines == c.fullLines + Sweep(b, Height - 1).1
  {
    SweepBound(b, Height - 1);
  }

  /** The scoring rules of `check_row`, from counters `c` before it to `r`
      after it, with n rows removed: one, two or three rows earn 100, 300
      or 500 times the level in force after the level rule, and no rows, or
      four, earn nothing; the level rises to `full_lines / 10 + 1` exactly
      when `full_lines / 10` exceeds `level - 1` (uint32), and
      `frames_per_drop` follows it. */
  predicate Scored(c: Counters, n: int, r: Counters) {
    && (n == 0 || n == 4 ==> r.score == c.score)
    && (1 <= n <= 3 ==> r.score == U32(c.score + U32(LinePoints(n) * r.level)))
    && (r.fullLines / 10 > U32(c.level - 1) ==> r.level == r.fullLines / 10 + 1 && r.framesPerDrop == FramesPerDrop(r.level))
    && (r.fullLines / 10 <= U32(c.level - 1) ==> r.level == c.level && r.framesPerDrop == c.framesPerDrop)
  }

  lemma CheckRowScoring(b: seq<int>, c: Counters)
    requires |b| == CellCount && CountersOk(c)
    ensures Scored(c, Sweep(b, Height - 1).1, ClearRows(b, c).1)
  {
    var n := Sweep(b, Height - 1).1;
    var c' := c.(fullLines := U32(c.fullLines + n));
    assert ClearRows(b, c).1 == Rescore(c', n);
    RescoreScoring(c', n);
  }

  lemma RescoreScoring(c: Counters, n: int)
    requires CountersOk(c)
    ensures Scored(c, n, Rescore(c, n))
  {
    AwardIsPointsTimesLevel(n, Rescore(c, n).level);
  }

  // ------------------------------------------------------ collision safety

  /** A piece that passes PieceOk never makes `collides` read above the
      board at its own row. */
  lemma SafeAt(p: Tetromino)
    requires PieceOk(p)
    ensures RowsSafe(p.minos, p.x, p.y)
  {
    if HasCell(p.minos) {
      RowsSafeFromRow(p.minos, p.x, p.y);
    }
  }

  /** A piece with cells that fits at a row in 0..20 sits at row 19 or above. */
  lemma LandsInside(b: seq<int>, m: Mask, x: int, y: int)
    requires |b| == CellCount && IsMask(m) && !Blocked(b, m, x, y)
    ensures HasCell(m) && 0 <= y <= Height ==> y < Height
  {
    if HasCell(m) && 0 <= y <= Height {
      var i, j :| 0 <= i < 4 && 0 <= j < 4 && m[i][j] == 1;
      assert !CellBlocked(b, I8(j + x), I8(i + y));
    }
  }

  // ---------------------------------------------------- drop, move, rotate

  /** `new_piece` on the whole state: only the held piece and the bag change. */
  function AfterNewPiece(s: Snapshot, oracle: nat -> int): (r: Snapshot)
    requires Consistent(s)
    ensures Consistent(r) && r.held.x == 3 && r.held.y == 0 && HasCell(r.held.minos)
    ensures (r.held, r.bag) == Serve(s.bag, oracle)
    ensures r.board == s.board && r.state == s.state && r.ctr == s.ctr
  {
    var (p, g) := Serve(s.bag, oracle);
    s.(held := p, bag := g)
  }

  /** `drop_piece`: lock the held piece into the board, serve the next
      piece, clear rows, and end the game when the new piece does not fit
      at its spawn position. */
  function AfterDrop(s: Snapshot, oracle: nat -> int): (r: Snapshot)
    requires Consistent(s)
    ensures Consistent(r)
    ensures (r.held, r.bag) == Serve(s.bag, oracle)
    ensures (r.board, r.ctr) == ClearRows(Lock(s.board, s.held), s.ctr)
    ensures r.state == GameOver <==> s.state == GameOver || Blocked(r.board, r.held.minos, 3, 0)
    ensures r.state != GameOver ==> r.state == s.state
  {
    var (p, g) := Serve(s.bag, oracle);
    var (b, c) := ClearRows(Lock(s.board, s.held), s.ctr);
    var over := Blocked(b, p.minos, p.x, p.y);
    Snapshot(b, p, if over then GameOver else s.state, c, g)
  }

  /** Locking and clearing conserve coloured cells: the cells of the locked
      board are those left plus ten per removed row (while `full_lines`
      does not wrap); the new piece is spawned at column 3, row 0. */
  lemma DropConservesCells(s: Snapshot, oracle: nat -> int)
    requires Consistent(s) && s.ctr.fullLines + Height < TWO32
    ensures var r := AfterDrop(s, oracle);
      && Occupied(r.board) + Width * (r.ctr.fullLines - s.ctr.fullLines) == Occupied(Lock(s.board, s.held))
      && r.held.x == 3 && r.held.y == 0
  {
    var b := Lock(s.board, s.held);
    var r := AfterDrop(s, oracle);
    SweepKeepsCells(b, Height - 1);
    SweepBound(b, Height - 1);
    var n := Sweep(b, Height - 1).1;
    assert r.board == Sweep(b, Height - 1).0;
    assert r.ctr.fullLines == s.ctr.fullLines + n;
  }

  /** The held piece shifted by (dx, dy) with int8 wrap-around. */
  function Shifted(s: Snapshot, dx: int, dy: int): Snapshot
  {
    s.(held := s.held.(x := I8(s.held.x + dx), y := I8(s.held.y + dy)))
  }

  /** `move(dir_x, 0)`: a sideways step, taken unless the piece would
      collide there. */
  function AfterMoveAside(s: Snapshot, dx: int): (r: Snapshot)
    requires Consistent(s)
    ensures Consistent(r)
    ensures Blocked(s.board, s.held.minos, I8(s.held.x + dx), s.held.y) ==> r == s
    ensures !Blocked(s.board, s.held.minos, I8(s.held.x + dx), s.held.y) ==> r == Shifted(s, dx, 0)
  {
    if Blocked(s.board, s.held.minos, I8(s.held.x + dx), I8(s.held.y + 0)) then s else Shifted(s, dx, 0)
  }

  /** `move(0, 1)`: one row down, or, when the row below is blocked, the
      piece is dropped (locked, next piece, rows cleared). */
  function AfterMoveDown(s: Snapshot, oracle: nat -> int): (r: Snapshot)
    requires Consistent(s)
    ensures Consistent(r)
    ensures Blocked(s.board, s.held.minos, s.held.x, I8(s.held.y + 1)) ==> r == AfterDrop(s, oracle)
    ensures !Blocked(s.board, s.held.minos, s.held.x, I8(s.held.y + 1)) ==> r == Shifted(s, 0, 1)
  {
    if Blocked(s.board, s.held.minos, I8(s.held.x + 0), I8(s.held.y + 1)) then AfterDrop(s, oracle)
    else
      LandsInside(s.board, s.held.minos, s.held.x, I8(s.held.y + 1));
      Shifted(s, 0, 1)
  }

  /** The three outcomes of `move`: blocked sideways changes nothing,
      blocked downwards drops the piece, and a free step shifts it. */
  lemma MoveOutcome(s: Snapshot, dx: int, dy: int, oracle: nat -> int)
    requires Consistent(s) && ((dy == 0 && InI8(dx)) || (dx == 0 && dy == 1))
    ensures var r := if dy == 0 then AfterMoveAside(s, dx) else AfterMoveDown(s, oracle);
      var hit := Blocked(s.board, s.held.minos, I8(s.held.x + dx), I8(s.held.y + dy));
      && (hit && dy > 0 ==> r == AfterDrop(s, oracle))
      && (hit && dy == 0 ==> r == s)
      && (!hit ==> r == Shifted(s, dx, dy))
  {
    if dy == 0 {
      MoveAsideOutcome(s, dx);
    } else {
      MoveDownOutcome(s, oracle);
    }
  }

  lemma MoveAsideOutcome(s: Snapshot, dx: int)
    requires Consistent(s) && InI8(dx)
    ensures var hit := Blocked(s.board, s.held.minos, I8(s.held.x + dx), I8(s.held.y + 0));
      && (hit ==> AfterMoveAside(s, dx) == s)
      && (!hit ==> AfterMoveAside(s, dx) == Shifted(s, dx, 0))
  {
    assert I8(s.held.y + 0) == s.held.y;
  }

  lemma MoveDownOutcome(s: Snapshot, oracle: nat -> int)
    requires Consistent(s)
    ensures var hit := Blocked(s.board, s.held.minos, I8(s.held.x + 0), I8(s.held.y + 1));
      && (hit ==> AfterMoveDown(s, oracle) == AfterDrop(s, oracle))
      && (!hit ==> AfterMoveDown(s, oracle) == Shifted(s, 0, 1))
  {
    assert I8(s.held.x + 0) == s.held.x;
  }

  /** A sideways step that succeeds from a free position is undone by the
      opposite step. */
  lemma MoveBack(s: Snapshot, dx: int)
    requires Consistent(s) && (dx == -1 || dx == 1)
    requires !Blocked(s.board, s.held.minos, s.held.x, s.held.y)
    requires !Blocked(s.board, s.held.minos, I8(s.held.x + dx), s.held.y)
    ensures AfterMoveAside(AfterMoveAside(s, dx), -dx) == s
  {
    var t := Shifted(s, dx, 0);
    assert AfterMoveAside(s, dx) == t;
    I8StepBack(s.held.x, dx);
    assert t.held.(x := I8(t.held.x + -dx)) == s.held;
    assert !Blocked(t.board, t.held.minos, I8(t.held.x + -dx), t.held.y);
  }

  lemma I8StepBack(x: int, dx: int)
    requires InI8(x) && (dx == -1 || dx == 1)
    ensures I8(I8(x + dx) - dx) == x
  {
  }

  /** A piece never moves below row 19: a step down that would leave the
      board drops the piece instead. */
  lemma DownStaysOnBoard(s: Snapshot, oracle: nat -> int)
    requires Consistent(s) && HasCell(s.held.minos)
    ensures var r := AfterMoveDown(s, oracle);
      0 <= r.held.y < Height
      && (r.held.y == s.held.y + 1 || (r.held.x, r.held.y) == (3, 0))
  {
  }

  /** `rotate_cw` (cw) or `rotate_ccw`: the turned mask replaces the held
      one unless it collides at the same position. */
  function AfterRotate(s: Snapshot, cw: bool): (r: Snapshot)
    requires Consistent(s)
    ensures Consistent(r)
    ensures var m := if cw then RotatedCw(s.held.minos) else RotatedCcw(s.held.minos);
      && (Blocked(s.board, m, s.held.x, s.held.y) ==> r == s)
      && (!Blocked(s.board, m, s.held.x, s.held.y) ==> r == s.(held := s.held.(minos := m)))
  {
    var m := if cw then RotatedCw(s.held.minos) else RotatedCcw(s.held.minos);
    RotationKeepsCells(s.held.minos);
    if Blocked(s.board, m, s.held.x, s.held.y) then s else s.(held := s.held.(minos := m))
  }

  /** A clockwise turn that succeeds from a free position is undone by a
      counter-clockwise turn. */
  lemma RotateBack(s: Snapshot)
    requires Consistent(s) && !Blocked(s.board, s.held.minos, s.held.x, s.held.y)
    requires !Blocked(s.board, RotatedCw(s.held.minos), s.held.x, s.held.y)
    ensures AfterRotate(AfterRotate(s, true), false) == s
  {
    CcwUndoesCw(s.held.minos);
  }

  /** Four successful clockwise turns give back the original piece. */
  lemma FourTurns(s: Snapshot)
    requires Consistent(s)
    requires var m := s.held.minos;
      && !Blocked(s.board, RotatedCw(m), s.held.x, s.held.y)
      && !Blocked(s.board, RotatedCw(RotatedCw(m)), s.held.x, s.held.y)
      && !Blocked(s.board, RotatedCw(RotatedCw(RotatedCw(m))), s.held.x, s.held.y)
      && !Blocked(s.board, RotatedCw(RotatedCw(RotatedCw(RotatedCw(m)))), s.held.x, s.held.y)
    ensures AfterRotate(AfterRotate(AfterRotate(AfterRotate(s, true), true), true), true) == s
  {
    FourTurnsIdentity(s.held.minos);
  }

  // -------------------------------------------------- keys and game state

  /** SPACE: from START the game becomes ACTIVE and the first piece is
      served; in any other state nothing happens. */
  function AfterStartKey(s: Snapshot, oracle: nat -> int): (r: Snapshot)
    requires Consistent(s)
    ensures Consistent(r)
    ensures s.state == Start ==> r.state == Active && r == AfterNewPiece(s.(state := Active), oracle)
    ensures s.state != Start ==> r == s
  {
    if s.state == Start then AfterNewPiece(s.(state := Active), oracle) else s
  }

  /** ESCAPE or P: PAUSED becomes ACTIVE, every other state becomes PAUSED. */
  function AfterPauseKey(s: Snapshot): (r: Snapshot)
    ensures r.state == (if s.state == Paused then Active else Paused)
    ensures r.(state := s.state) == s
  {
    s.(state := if s.state == Paused then Active else Paused)
  }

  /** Pausing and resuming a running game gives it back unchanged; from
      START or GAME_OVER, pressing the key twice leaves the game ACTIVE. */
  lemma PauseTwice(s: Snapshot)
    ensures s.state == Active || s.state == Paused ==> AfterPauseKey(AfterPauseKey(s)) == s
    ensures s.state == Start || s.state == GameOver ==> AfterPauseKey(AfterPauseKey(s)) == s.(state := Active)
  {
  }

  /** `restart`: state START, zero lines, score and time, level 1, an empty
      board and a fresh piece. `frame_counter` and `frames_per_drop` are not
      reset. */
  function AfterRestart(s: Snapshot, oracle: nat -> int): (r: Snapshot)
    requires Consistent(s)
    ensures Consistent(r) && r.state == Start && r.board == Zeros(CellCount)
    ensures r.ctr == Initial().ctr.(frameCounter := s.ctr.frameCounter, framesPerDrop := s.ctr.framesPerDrop)
    ensures (r.held, r.bag) == Serve(s.bag, oracle)
  {
    var c := s.ctr.(fullLines := 0, score := 0, level := 1, time := 0);
    AfterNewPiece(Snapshot(Zeros(CellCount), s.held, Start, c, s.bag), oracle)
  }

  /** What `handle_key` does for an event, after its `switch`. */
  datatype Command = RotateCw | RotateCcw | MoveAside(dx: int) | MoveDown
                   | StartGame | Restart | TogglePause | Ignore

  /** The `switch (ev.scancode)` of `handle_key`; releases are ignored. The
      extended flag is not looked at. */
  function KeyCommand(ev: KB.KeyEvent): (c: Command)
    ensures c.MoveAside? ==> c.dx == -1 || c.dx == 1
  {
    var sc := ev.scancode;
    if ev.breakKey then Ignore
    else if sc == KB.KEY_X || sc == KB.KEY_W || sc == KB.KEY_ARROW_UP then RotateCw
    else if sc == KB.KEY_Z || sc == KB.KEY_CONTROL then RotateCcw
    else if sc == KB.KEY_S || sc == KB.KEY_ARROW_DOWN then MoveDown
    else if sc == KB.KEY_A || sc == KB.KEY_ARROW_LEFT then MoveAside(-1)
    else if sc == KB.KEY_D || sc == KB.KEY_ARROW_RIGHT then MoveAside(1)
    else if sc == KB.KEY_SPACE then StartGame
    else if sc == KB.KEY_R then Restart
    else if sc == KB.KEY_ESCAPE || sc == KB.KEY_P then TogglePause
    else Ignore
  }

  /** The effect of a command on the game. */
  function Apply(s: Snapshot, c: Command, oracle: nat -> int): (r: Snapshot)
    requires Consistent(s) && (c.MoveAside? ==> c.dx == -1 || c.dx == 1)
    ensures Consistent(r)
  {
    match c
    case RotateCw => AfterRotate(s, true)
    case RotateCcw => AfterRotate(s, false)
    case MoveAside(dx) => AfterMoveAside(s, dx)
    case MoveDown => AfterMoveDown(s, oracle)
    case StartGame => AfterStartKey(s, oracle)
    case Restart => AfterRestart(s, oracle)
    case TogglePause => AfterPauseKey(s)
    case Ignore => s
  }

  /** Only the game-state keys look at the state: moves and turns act in
      every state, START, PAUSED and GAME_OVER included, so a paused piece
      can still be moved. */
  lemma KeysIgnoreState(s: Snapshot, ev: KB.KeyEvent, oracle: nat -> int)
    requires Consistent(s) && !ev.breakKey
    requires ev.scancode == KB.KEY_ARROW_LEFT
    requires !Blocked(s.board, s.held.minos, I8(s.held.x - 1), s.held.y)
    ensures Apply(s, KeyCommand(ev), oracle) == Shifted(s, -1, 0)
  {
  }

  /** Releases never change the game. */
  lemma ReleaseIgnored(s: Snapshot, ev: KB.KeyEvent, oracle: nat -> int)
    requires Consistent(s) && ev.breakKey
    ensures Apply(s, KeyCommand(ev), oracle) == s
  {
  }

  // ------------------------------------------------------------- frames

  /** The gravity step of `update`: `move(0, 1)` while the piece's row is
      above 20. */
  function Fall(s: Snapshot, oracle: nat -> int): (d: Snapshot)
    requires Consistent(s)
    ensures Consistent(d)
  {
    if s.held.y < Height then AfterMoveDown(s, oracle) else s
  }

  /** `update`: nothing outside ACTIVE; otherwise, once `frame_counter`
      reaches `frames_per_drop`, the piece moves down (if its row is above
      20), the counter restarts and `time` advances; then the counter is
      incremented. */
  function AfterUpdate(s: Snapshot, oracle: nat -> int): (r: Snapshot)
    requires Consistent(s)
    ensures Consistent(r)
    ensures s.state != Active ==> r == s
    ensures s.state == Active && s.ctr.frameCounter < s.ctr.framesPerDrop ==>
      r == s.(ctr := s.ctr.(frameCounter := U32(s.ctr.frameCounter + 1)))
    ensures s.state == Active && s.ctr.frameCounter >= s.ctr.framesPerDrop ==>
      r.ctr.frameCounter == 1 && r.ctr.time == U32(s.ctr.time + 1)
  {
    if s.state != Active then s
    else
      var m := if s.ctr.frameCounter >= s.ctr.framesPerDrop then
          var d := Fall(s, oracle);
          d.(ctr := d.ctr.(frameCounter := 0, time := U32(d.ctr.time + 1)))
        else s;
      m.(ctr := m.ctr.(frameCounter := U32(m.ctr.frameCounter + 1)))
  }

  /** `count` frames without key events. */
  function Frames(s: Snapshot, oracle: nat -> int, count: nat): (r: Snapshot)
    requires Consistent(s)
    ensures Consistent(r)
    decreases count
  {
    if count == 0 then s else Frames(AfterUpdate(s, oracle), oracle, count - 1)
  }

  /** Gravity: in an ACTIVE game with `frame_counter` at most
      `frames_per_drop`, the piece stays put until the counter reaches
      `frames_per_drop`; the next frame moves it down. After a move the
      counter is 1, so a piece falls once every `frames_per_drop` frames. */
  lemma {:induction false} GravityWaits(s: Snapshot, oracle: nat -> int)
    requires Consistent(s) && s.state == Active
    requires s.ctr.frameCounter <= s.ctr.framesPerDrop
    ensures Frames(s, oracle, s.ctr.framesPerDrop - s.ctr.frameCounter)
      == s.(ctr := s.ctr.(frameCounter := s.ctr.framesPerDrop))
    decreases s.ctr.framesPerDrop - s.ctr.frameCounter
  {
    if s.ctr.frameCounter < s.ctr.framesPerDrop {
      var t := s.(ctr := s.ctr.(frameCounter := s.ctr.frameCounter + 1));
      UpdateCounts(s, oracle);
      assert Frames(s, oracle, s.ctr.framesPerDrop - s.ctr.frameCounter)
        == Frames(t, oracle, t.ctr.framesPerDrop - t.ctr.frameCounter);
      GravityWaits(t, oracle);
      assert t.(ctr := t.ctr.(frameCounter := t.ctr.framesPerDrop))
        == s.(ctr := s.ctr.(frameCounter := s.ctr.framesPerDrop));
    }
  }

  /** A frame before the counter reaches `frames_per_drop` only counts. */
  lemma UpdateCounts(s: Snapshot, oracle: nat -> int)
    requires Consistent(s) && s.state == Active
    requires s.ctr.frameCounter < s.ctr.framesPerDrop
    ensures AfterUpdate(s, oracle) == s.(ctr := s.ctr.(frameCounter := s.ctr.frameCounter + 1))
  {
  }

  /** The frame at which the counter has reached `frames_per_drop` moves
      the piece down one row (or drops it) and restarts the count at 1. */
  lemma GravityFires(s: Snapshot, oracle: nat -> int)
    requires Consistent(s) && s.state == Active && HasCell(s.held.minos)
    requires s.ctr.frameCounter == s.ctr.framesPerDrop
    ensures var r, d := AfterUpdate(s, oracle), AfterMoveDown(s, oracle);
      r == d.(ctr := d.ctr.(frameCounter := 1, time := U32(d.ctr.time + 1)))
  {
    assert s.held.y < Height;
    var d := Fall(s, oracle);
    assert d == AfterMoveDown(s, oracle);
    var m := d.(ctr := d.ctr.(frameCounter := 0, time := U32(d.ctr.time + 1)));
    assert AfterUpdate(s, oracle) == m.(ctr := m.ctr.(frameCounter := U32(0 + 1)));
  }

  // ------------------------------------------------------ counting ++

  /** The uint32 counter `v` after `n` separate `++` operations. */
  function Tally(v: int, n: nat): (r: int)
    ensures InU32(r) || (n == 0 && r == v)
  {
    if n == 0 then v else U32(Tally(v, n - 1) + 1)
  }

  /** Wrapping once per increment equals wrapping the sum. */
  lemma {:induction false} TallyIsSum(v: int, n: nat)
    requires InU32(v)
    ensures Tally(v, n) == U32(v + n)
  {
    if n > 0 {
      TallyIsSum(v, n - 1);
      U32AddWrap(v + (n - 1), 1);
    }
  }

  // ---------------------------------------------------------- the statics

  /** The statics of `Tetris` and the file statics of tetris.cpp. `board`
      is `Mino board[20][10]` in row-major order (a Mino is its colour),
      `bag` is `bag_pieces`, and `oracle(k)` is the k-th `rand()` result. */
  class Game {
    const board: array<int>
    const bag: array<int>
    const oracle: nat -> int
    var held: Tetromino
    var state: GameState
    var time: int
    var score: int
    var level: int
    var fullLines: int
    var frameCounter: int
    var framesPerDrop: int
    var bagSize: int
    var rolls: nat

    ghost function Snap(): Snapshot
      reads this, board, bag
    {
      Snapshot(board[..], held, state, Ctr(), BagState())
    }

    ghost predicate Valid()
      reads this, board, bag
    {
      board.Length == CellCount && bag.Length == 7 && board != bag && Consistent(Snap())
    }

    /** The zero-initialised statics with their initialisers. */
    constructor (oracle: nat -> int)
      ensures Valid() && Snap() == Initial() && this.oracle == oracle
      ensures fresh(board) && fresh(bag)
    {
      board := new int[CellCount](_ => 0);
      bag := new int[7](_ => 0);
      this.oracle := oracle;
      held := Initial().held;
      state := Start;
      time, score, level, fullLines := 0, 0, 1, 0;
      frameCounter, framesPerDrop := 0, 100;
      bagSize, rolls := 0, 0;
      new;
      assert board[..] == Zeros(CellCount);
      assert bag[..] == [0, 0, 0, 0, 0, 0, 0];
    }

    /** `collides`: some occupied cell of `m` placed at (x, y) lies left,
        right or below the board, or on a coloured cell. */
    method Collides(m: Mask, x: int, y: int) returns (hit: bool)
      requires Valid() && IsMask(m) && RowsSafe(m, x, y)
      ensures hit == Blocked(board[..], m, x, y)
    {
      var i := 0;
      while i < 4
        invariant 0 <= i <= 4
        invariant forall a, b :: 0 <= a < i && 0 <= b < 4 && m[a][b] == 1 ==>
          !CellBlocked(board[..], I8(b + x), I8(a + y))
      {
        var j := 0;
        while j < 4
          invariant 0 <= j <= 4
          invariant forall a, b :: (0 <= a < i || (a == i && b < j)) && 0 <= b < 4 && m[a][b] == 1 ==>
            !CellBlocked(board[..], I8(b + x), I8(a + y))
        {
          if m[i][j] == 1 {
            var sx, sy := I8(j + x), I8(i + y);
            if sx < 0 || sx >= Width || sy >= Height {
              return true;
            }
            if board[sy * Width + sx] != 0 {
              assert Cell(board[..], sy, sx) != 0;
              return true;
            }
          }
          j := j + 1;
        }
        i := i + 1;
      }
      return false;
    }

    /** The lock-in loop of `drop_piece`: every occupied mask cell whose
        uint8 column and row fall inside the board takes the piece colour. */
    method LockHeld()
      requires Valid()
      modifies board
      ensures Snap() == old(Snap()).(board := Lock(old(board[..]), held)) && Valid()
    {
      LockPiece(board, held);
    }

    /** The row loop of `check_row` on the board, then the source's
        `full_lines++` per removed row applied as one wrapping addition of
        `scored_lines`, which `TallyIsSum` shows to be the same value. */
    method SweepRows() returns (scored: nat)
      requires board.Length == CellCount
      modifies this`fullLines, board
      ensures (board[..], scored) == Sweep(old(board[..]), Height - 1)
      ensures fullLines == U32(old(fullLines) + scored)
    {
      scored := SweepBoard(board);
      fullLines := U32(fullLines + scored);
    }

    ghost function Ctr(): Counters
      reads this
    {
      Counters(time, score, level, fullLines, frameCounter, framesPerDrop)
    }

    /** The level and score updates at the end of `check_row`. */
    method ApplyScore(scored: int)
      requires CountersOk(Ctr())
      modifies this`level, this`framesPerDrop, this`score
      ensures Ctr() == Rescore(old(Ctr()), scored)
    {
      ghost var want := Rescore(Ctr(), scored);
      if fullLines / 10 > U32(level - 1) {
        level := fullLines / 10 + 1;
        framesPerDrop := FramesPerDrop(level);
      }
      assert level == want.level && framesPerDrop == want.framesPerDrop;
      if scored == 1 {
        score := U32(score + U32(100 * level));
      } else if scored == 2 {
        score := U32(score + U32(300 * level));
      } else if scored == 3 {
        score := U32(score + U32(500 * level));
      }
    }

    /** `check_row`: the row sweep, then the level and score updates. */
    method CheckRow()
      requires Valid()
      modifies this`fullLines, this`level, this`framesPerDrop, this`score, board
      ensures Valid()
      ensures var r := ClearRows(old(board[..]), old(Ctr()));
        board[..] == r.0 && Ctr() == r.1
    {
      var scored := SweepRows();
      ApplyScore(scored);
    }

    /** The refill of an empty bag in `new_piece`: 0..6 written in order,
        then for i = 6 down to 1 entry i swapped with entry
        `rand() % (i + 1)`. */
    method Refill()
      requires bag.Length == 7
      modifies this`rolls, bag
      ensures bag[..] == Shuffled(oracle, old(rolls)) && rolls == old(rolls) + 6
      ensures forall k :: 0 <= k < 7 ==> 0 <= bag[k] < 7
    {
      FillIdentity();
      Shuffle();
      ShuffledInRange(oracle, old(rolls));
    }

    /** The shuffle loop: for i = 6 down to 1, swap entry i with entry
        `rand() % (i + 1)`. */
    method Shuffle()
      requires bag.Length == 7
      modifies this`rolls, bag
      ensures bag[..] == ShuffleFrom(old(bag[..]), oracle, old(rolls), old(rolls) + 6)
      ensures rolls == old(rolls) + 6
    {
      ghost var stop := rolls + 6;
      ghost var target := ShuffleFrom(bag[..], oracle, rolls, stop);
      var i := 6;
      while i > 0
        invariant 0 <= i <= 6 && rolls + i == stop
        invariant ShuffleFrom(bag[..], oracle, rolls, stop) == target
      {
        ShuffleOnce(i, stop);
        i := i - 1;
      }
    }

    /** One iteration seen through the shuffle function: what is left of
        the shuffle after it is what was left before it. */
    method ShuffleOnce(i: int, ghost stop: nat)
      requires bag.Length == 7 && 0 < i < 7 && rolls + i == stop
      modifies this`rolls, bag
      ensures rolls == old(rolls) + 1
      ensures ShuffleFrom(bag[..], oracle, rolls, stop) == ShuffleFrom(old(bag[..]), oracle, old(rolls), stop)
    {
      ShuffleStep(bag[..], oracle, rolls, stop, i);
      SwapDrawn(i);
    }

    /** One iteration of the shuffle loop: `j = rand() % (i + 1)`, then
        entries i and j trade places through `tmp`. */
    method SwapDrawn(i: int)
      requires bag.Length == 7 && 0 < i < 7
      modifies this`rolls, bag
      ensures rolls == old(rolls) + 1
      ensures bag[..] == Swap(old(bag[..]), i, DrawIndex(oracle(old(rolls)), i))
    {
      var j := DrawIndex(oracle(rolls), i);
      rolls := rolls + 1;
      var tmp := bag[i];
      bag[i] := bag[j];
      bag[j] := tmp;
    }

    /** `bag_pieces[i] = i` for i in 0..6. */
    method FillIdentity()
      requires bag.Length == 7
      modifies bag
      ensures bag[..] == Fresh
    {
      var i := 0;
      while i < 7
        invariant 0 <= i <= 7 && forall k :: 0 <= k < i ==> bag[k] == k
      {
        bag[i] := i;
        i := i + 1;
      }
    }

    ghost function BagState(): Bag
      reads this, bag
    {
      Bag(bag[..], bagSize, rolls)
    }

    /** `new_piece`: on an empty bag, write 0..6 and shuffle it with six
        `rand()` calls; then serve `bag_pieces[--bag_size]`. */
    method NewPiece()
      requires Valid()
      modifies this`held, this`bagSize, this`rolls, bag
      ensures Snap() == AfterNewPiece(old(Snap()), oracle) && Valid()
    {
      ghost var g := BagState();
      ServeNext();
      ServedAsServe(g, oracle, BagState(), held);
    }

    method ServeNext()
      requires bag.Length == 7 && BagOk(BagState())
      modifies this`held, this`bagSize, this`rolls, bag
      ensures ServedAs(old(BagState()), oracle, BagState(), held)
    {
      if bagSize == 0 {
        Refill();
        bagSize := 7;
      }
      bagSize := bagSize - 1;
      held := Spawn(bag[bagSize]);
    }

    /** `drop_piece`: lock the held piece into the board, serve the next
        piece, clear rows, then end the game if the new piece collides at
        its spawn position. */
    method DropPiece()
      requires Valid()
      modifies this, board, bag
      ensures Snap() == AfterDrop(old(Snap()), oracle) && Valid()
    {
      LockHeld();
      NewPiece();
      CheckRow();
      SafeAt(held);
      var hit := Collides(held.minos, held.x, held.y);
      if hit {
        state := GameOver;
      }
    }

    /** `move(dir_x, dir_y)` as the game calls it: a sideways step of any
        int8 width, or one row down. A blocked step down drops the piece. */
    method Move(dx: int, dy: int)
      requires Valid() && ((dy == 0 && InI8(dx)) || (dx == 0 && dy == 1))
      modifies this, board, bag
      ensures Snap() == if dy == 0 then AfterMoveAside(old(Snap()), dx) else AfterMoveDown(old(Snap()), oracle)
      ensures Valid()
    {
      ghost var s := Snap();
      ghost var r := if dy == 0 then AfterMoveAside(s, dx) else AfterMoveDown(s, oracle);
      MoveOutcome(s, dx, dy, oracle);
      var nx, ny := I8(held.x + dx), I8(held.y + dy);
      StepSafe(held, dx, dy);
      var hit := Collides(held.minos, nx, ny);
      if hit {
        if dy > 0 {
          DropPiece();
          assert Snap() == r;
        }
        return;
      }
      held := held.(x := nx, y := ny);
      assert Snap() == Shifted(s, dx, dy) == r;
    }

    /** `rotate_cw`: turn the mask in a scratch matrix and keep it unless it
        collides where the piece is. */
    method RotateCw()
      requires Valid()
      modifies this`held
      ensures Snap() == AfterRotate(old(Snap()), true) && Valid()
    {
      var tmp := BuildRotatedCw(held.minos);
      RotationKeepsCells(held.minos);
      Turn(tmp);
    }

    /** `rotate_ccw`: the same with the counter-clockwise scratch matrix. */
    method RotateCcw()
      requires Valid()
      modifies this`held
      ensures Snap() == AfterRotate(old(Snap()), false) && Valid()
    {
      var tmp := BuildRotatedCcw(held.minos);
      RotationKeepsCells(held.minos);
      Turn(tmp);
    }

    /** The tail shared by both turns: `collides(tmp, x, y)`, then the
        `memcpy` of `tmp` into the held mask, taken to write the held mask
        itself (a zero HHDM offset). */
    method Turn(tmp: Mask)
      requires Valid() && IsMask(tmp) && (HasCell(tmp) <==> HasCell(held.minos))
      modifies this`held
      ensures Blocked(board[..], tmp, held.x, held.y) ==> held == old(held)
      ensures !Blocked(board[..], tmp, held.x, held.y) ==> held == old(held).(minos := tmp)
      ensures Valid()
    {
      SafeAt(held.(minos := tmp));
      var hit := Collides(tmp, held.x, held.y);
      if !hit {
        held := held.(minos := tmp);
      }
    }

    /** `update` without its drawing: gravity in ACTIVE once `frame_counter`
        reaches `frames_per_drop`, then the frame count. */
    method Update()
      requires Valid()
      modifies this, board, bag
      ensures Snap() == AfterUpdate(old(Snap()), oracle) && Valid()
    {
      if state == Start || state == Paused || state == GameOver {
        return;
      }
      if frameCounter >= framesPerDrop {
        if held.y < Height {
          Move(0, 1);
        }
        frameCounter := 0;
        time := U32(time + 1);
      }
      frameCounter := U32(frameCounter + 1);
    }

    /** `handle_key`: releases are ignored, then the `switch` on the scan
        code. */
    method HandleKey(ev: KB.KeyEvent)
      requires Valid()
      modifies this, board, bag
      ensures Snap() == Apply(old(Snap()), KeyCommand(ev), oracle) && Valid()
    {
      if ev.breakKey {
        return;
      }
      ghost var s, c := Snap(), KeyCommand(ev);
      var sc := ev.scancode;
      if sc == KB.KEY_X || sc == KB.KEY_W || sc == KB.KEY_ARROW_UP {
        RotateCw();
      } else if sc == KB.KEY_Z || sc == KB.KEY_CONTROL {
        RotateCcw();
      } else if sc == KB.KEY_S || sc == KB.KEY_ARROW_DOWN {
        Move(0, 1);
      } else if sc == KB.KEY_A || sc == KB.KEY_ARROW_LEFT {
        Move(-1, 0);
      } else if sc == KB.KEY_D || sc == KB.KEY_ARROW_RIGHT {
        Move(1, 0);
      } else if sc == KB.KEY_SPACE {
        assert c == StartGame;
        if state == Start {
          state := Active;
          NewPiece();
        }
      } else if sc == KB.KEY_R {
        Restart();
      } else if sc == KB.KEY_ESCAPE || sc == KB.KEY_P {
        state := if state == Paused then Active else Paused;
        assert Snap() == AfterPauseKey(s);
      }
    }

    /** `restart`: reset the state and counters (not `frame_counter` or
        `frames_per_drop`), clear the board, serve a piece. */
    method Restart()
      requires Valid()
      modifies this, board, bag
      ensures Snap() == AfterRestart(old(Snap()), oracle) && Valid()
    {
      state := Start;
      fullLines, score, level, time := 0, 0, 1, 0;
      ClearBoard(board);
      NewPiece();
    }
  }

  /** A step of `move` never makes `collides` read above the board: a piece
      with cells sits at a row in 0..19, and a step keeps it within 0..20. */
  lemma StepSafe(p: Tetromino, dx: int, dy: int)
    requires PieceOk(p) && ((dy == 0 && InI8(dx)) || (dx == 0 && dy == 1))
    ensures RowsSafe(p.minos, I8(p.x + dx), I8(p.y + dy))
  {
    if HasCell(p.minos) {
      RowsSafeFromRow(p.minos, I8(p.x + dx), I8(p.y + dy));
    }
  }
}
