/** The multiboot build's game (src/game/tetris.cpp, include/tetris/tetris.hpp):
    the same board, pieces and START/ACTIVE/PAUSED/GAME_OVER machine as the
    Limine build, with a uniform piece choice instead of a 7-bag, a
    `collides` that guards rows above the board, clockwise turns only, C
    `int` counters, and raw scan codes as key events.

    The statics of class `Tetris` and the file statics `frame_counter` and
    `frames_per_drop` are fields of `Game`; each method is proved against a
    pure function on a `Snapshot`, and the properties are lemmas about those
    functions. `rand()` is an oracle indexed by the number of calls so far. */
module SrcTetris {
  import opened CInt
  import opened Playfield
  import SK = SrcKeyboard

  /** `time`, `score`, `level` and `full_lines` are C `int`s (kept unbounded
      here), `frame_counter` and `frames_per_drop` are uint32. */
  datatype Counters = Counters(
    time: int, score: int, level: int, fullLines: int,
    frameCounter: int, framesPerDrop: int)

  /** All game statics at one instant, and the number of `rand()` calls. */
  datatype Snapshot = Snapshot(
    board: seq<int>, held: Tetromino, state: GameState, ctr: Counters, rolls: nat)

  /** `full_lines` only ever counts up from 0, so C's truncating `/` on it
      is the same as Dafny's. */
  predicate CountersOk(c: Counters) {
    0 <= c.fullLines && InU32(c.frameCounter) && InU32(c.framesPerDrop)
  }

  predicate PieceOk(p: Tetromino) {
    IsMask(p.minos) && InI8(p.x) && InI8(p.y)
  }

  /** What every reachable state satisfies. */
  predicate Consistent(s: Snapshot) {
    |s.board| == CellCount && PieceOk(s.held) && CountersOk(s.ctr)
  }

  /** The statics at boot: the I piece at column 3, row 0, an empty board,
      level 1 and `frames_per_drop == 50`. */
  function Initial(): (s: Snapshot)
    ensures Consistent(s) && s.state == Start && s.held == Spawn(0)
    ensures s.ctr.level == s.ctr.fullLines / 10 + 1
  {
    Snapshot(Zeros(CellCount), Tetromino(I_DEF.minos, I_DEF.color, 3, 0), Start,
      Counters(0, 0, 1, 0, 0, 50), 0)
  }

  // --------------------------------------------------------- piece choice

  /** `(rand() & 0x7FFF) % 7`: the mask keeps the low 15 bits of the two's
      complement `int`, which is its remainder modulo 2^15, so the operand
      of `% 7` is never negative and the index is always in 0..6. */
  function PieceIndex(roll: int): (n: int)
    ensures 0 <= n < 7
  {
    (roll % 0x8000) % 7
  }

  /** Every definition is chosen by some `rand()` result, and the choice
      only depends on the low 15 bits of it. */
  lemma PieceIndexCovers(n: int, roll: int, k: int)
    requires 0 <= n < 7
    ensures PieceIndex(n) == n
    ensures PieceIndex(roll + 0x8000 * k) == PieceIndex(roll)
  {
    LowBits(roll, k);
  }

  lemma LowBits(roll: int, k: int)
    ensures (roll + 0x8000 * k) % 0x8000 == roll % 0x8000
  {
    var q := roll / 0x8000;
    assert roll + 0x8000 * k == 0x8000 * (q + k) + roll % 0x8000;
  }

  /** `new_piece`: one `rand()` call picks a definition, spawned at column
      3, row 0; nothing else changes. */
  function AfterNewPiece(s: Snapshot, oracle: nat -> int): (r: Snapshot)
    requires Consistent(s)
    ensures Consistent(r) && r.rolls == s.rolls + 1
    ensures r.held == Spawn(PieceIndex(oracle(s.rolls)))
    ensures r.board == s.board && r.state == s.state && r.ctr == s.ctr
  {
    s.(held := Spawn(PieceIndex(oracle(s.rolls))), rolls := s.rolls + 1)
  }

  // --------------------------------------------------- clearing and score

  /** The tail of `check_row`, on counters whose `full_lines` already
      counts the n removed rows: raise the level when `full_lines / 10`
      passes `level - 1`, then score for one, two or three rows. */
  function Rescore(c: Counters, n: int): (r: Counters)
    requires CountersOk(c)
    ensures CountersOk(r) && r.fullLines == c.fullLines
    ensures r.time == c.time && r.frameCounter == c.frameCounter
  {
    var raise := c.fullLines / 10 > c.level - 1;
    var level := if raise then c.fullLines / 10 + 1 else c.level;
    var fpd := if raise then FramesPerDrop(level) else c.framesPerDrop;
    c.(level := level, framesPerDrop := fpd, score := c.score + Award(n, level))
  }

  /** `check_row`: sweep full rows from row 19 upwards, count them into
      `full_lines`, then rescore. */
  function ClearRows(b: seq<int>, c: Counters): (r: (seq<int>, Counters))
    requires |b| == CellCount && CountersOk(c)
    ensures |r.0| == CellCount && CountersOk(r.1)
    ensures r.0 == Sweep(b, Height - 1).0
    ensures r.1.fullLines == c.fullLines + Sweep(b, Height - 1).1
    ensures r.1.time == c.time && r.1.frameCounter == c.frameCounter
  {
    var (b', n) := Sweep(b, Height - 1);
    (b', Rescore(c.(fullLines := c.fullLines + n), n))
  }

  /** The scoring rules of `check_row`, from counters `c` before it to `r`
      after it, with n rows removed: one, two or three rows add 100, 300 or
      500 times the new level, any other count adds nothing; the level
      becomes `full_lines / 10 + 1` exactly when `full_lines / 10` exceeds
      `level - 1`, and `frames_per_drop` follows it. */
  predicate Scored(c: Counters, n: int, r: Counters) {
    && r.score == c.score + LinePoints(n) * r.level
    && (r.fullLines / 10 > c.level - 1 ==> r.level == r.fullLines / 10 + 1 && r.framesPerDrop == FramesPerDrop(r.level))
    && (r.fullLines / 10 <= c.level - 1 ==> r.level == c.level && r.framesPerDrop == c.framesPerDrop)
  }

  lemma RescoreScoring(c: Counters, n: int)
    requires CountersOk(c)
    ensures Scored(c, n, Rescore(c, n))
  {
    AwardIsPointsTimesLevel(n, Rescore(c, n).level);
  }

  lemma CheckRowScoring(b: seq<int>, c: Counters)
    requires |b| == CellCount && CountersOk(c)
    ensures Scored(c, Sweep(b, Height - 1).1, ClearRows(b, c).1)
  {
    var n := Sweep(b, Height - 1).1;
    var c' := c.(fullLines := c.fullLines + n);
    assert ClearRows(b, c).1 == Rescore(c', n);
    RescoreScoring(c', n);
  }

  /** With `int` counters the level rule keeps `level == full_lines / 10 + 1`
      for ever, the level never goes down and the score never falls. */
  lemma LevelFollowsLines(b: seq<int>, c: Counters)
    requires |b| == CellCount && CountersOk(c) && c.level == c.fullLines / 10 + 1
    ensures var r := ClearRows(b, c).1;
      && r.level == r.fullLines / 10 + 1 && r.level >= c.level
      && r.fullLines == c.fullLines + Sweep(b, Height - 1).1
      && r.score >= c.score
  {
    var n := Sweep(b, Height - 1).1;
    var r := ClearRows(b, c).1;
    CheckRowScoring(b, c);
    assert r.fullLines / 10 >= c.fullLines / 10;
    assert r.level >= 1;
  }

  // ---------------------------------------------------- drop, move, rotate

  /** `drop_piece`: lock the held piece into the board, pick the next
      piece, clear rows, and end the game when the new piece does not fit
      at its spawn position. */
  function AfterDrop(s: Snapshot, oracle: nat -> int): (r: Snapshot)
    requires Consistent(s)
    ensures Consistent(r) && r.rolls == s.rolls + 1
    ensures r.held == Spawn(PieceIndex(oracle(s.rolls)))
    ensures (r.board, r.ctr) == ClearRows(Lock(s.board, s.held), s.ctr)
    ensures r.state == GameOver <==> s.state == GameOver || Blocked(r.board, r.held.minos, 3, 0)
    ensures r.state != GameOver ==> r.state == s.state
  {
    var p := AfterNewPiece(s, oracle).held;
    var (b, c) := ClearRows(Lock(s.board, s.held), s.ctr);
    var over := Blocked(b, p.minos, p.x, p.y);
    Snapshot(b, p, if over then GameOver else s.state, c, s.rolls + 1)
  }

  /** Locking and clearing conserve coloured cells: the cells of the locked
      board are those left plus ten per row counted into `full_lines`. */
  lemma DropConservesCells(s: Snapshot, oracle: nat -> int)
    requires Consistent(s)
    ensures var r := AfterDrop(s, oracle);
      Occupied(r.board) + Width * (r.ctr.fullLines - s.ctr.fullLines) == Occupied(Lock(s.board, s.held))
  {
    var b := Lock(s.board, s.held);
    var r := AfterDrop(s, oracle);
    SweepKeepsCells(b, Height - 1);
    assert r.board == Sweep(b, Height - 1).0;
    assert r.ctr.fullLines == s.ctr.fullLines + Sweep(b, Height - 1).1;
  }

  /** The held piece shifted by (dx, dy) with int8 wrap-around. */
  function Shifted(s: Snapshot, dx: int, dy: int): Snapshot
  {
    s.(held := s.held.(x := I8(s.held.x + dx), y := I8(s.held.y + dy)))
  }

  /** `move(dir_x, dir_y)`: the step is taken when the target is free;
      when it is blocked nothing changes, unless the step goes down, which
      drops the piece. */
  function AfterMove(s: Snapshot, dx: int, dy: int, oracle: nat -> int): (r: Snapshot)
    requires Consistent(s) && InI8(dx) && InI8(dy)
    ensures Consistent(r)
    ensures !Blocked(s.board, s.held.minos, I8(s.held.x + dx), I8(s.held.y + dy)) ==> r == Shifted(s, dx, dy)
    ensures Blocked(s.board, s.held.minos, I8(s.held.x + dx), I8(s.held.y + dy)) ==>
      r == if dy > 0 then AfterDrop(s, oracle) else s
  {
    if Blocked(s.board, s.held.minos, I8(s.held.x + dx), I8(s.held.y + dy)) then
      if dy > 0 then AfterDrop(s, oracle) else s
    else Shifted(s, dx, dy)
  }

  /** A sideways step that succeeds from a free position is undone by the
      opposite step. */
  lemma MoveBack(s: Snapshot, dx: int, oracle: nat -> int)
    requires Consistent(s) && (dx == -1 || dx == 1)
    requires !Blocked(s.board, s.held.minos, s.held.x, s.held.y)
    requires !Blocked(s.board, s.held.minos, I8(s.held.x + dx), s.held.y)
    ensures AfterMove(AfterMove(s, dx, 0, oracle), -dx, 0, oracle) == s
  {
    I8Fixed(s.held.y);
    var t := Shifted(s, dx, 0);
    assert AfterMove(s, dx, 0, oracle) == t;
    I8StepBack(s.held.x, dx);
    I8Fixed(t.held.y);
    assert t.held.(x := I8(t.held.x + -dx), y := I8(t.held.y + 0)) == s.held;
    assert !Blocked(t.board, t.held.minos, I8(t.held.x + -dx), I8(t.held.y + 0));
  }

  lemma I8Fixed(v: int)
    requires InI8(v)
    ensures I8(v + 0) == v
  {
  }

  lemma I8StepBack(x: int, dx: int)
    requires InI8(x) && (dx == -1 || dx == 1)
    ensures I8(I8(x + dx) - dx) == x
  {
  }

  /** `rotate`: the clockwise scratch mask replaces the held one unless it
      collides at the same position. */
  function AfterRotate(s: Snapshot): (r: Snapshot)
    requires Consistent(s)
    ensures Consistent(r)
    ensures Blocked(s.board, RotatedCw(s.held.minos), s.held.x, s.held.y) ==> r == s
    ensures !Blocked(s.board, RotatedCw(s.held.minos), s.held.x, s.held.y) ==>
      r == s.(held := s.held.(minos := RotatedCw(s.held.minos)))
  {
    var m := RotatedCw(s.held.minos);
    if Blocked(s.board, m, s.held.x, s.held.y) then s else s.(held := s.held.(minos := m))
  }

  /** Four successful turns give back the original piece. */
  lemma FourTurns(s: Snapshot)
    requires Consistent(s)
    requires var m := s.held.minos;
      && !Blocked(s.board, RotatedCw(m), s.held.x, s.held.y)
      && !Blocked(s.board, RotatedCw(RotatedCw(m)), s.held.x, s.held.y)
      && !Blocked(s.board, RotatedCw(RotatedCw(RotatedCw(m))), s.held.x, s.held.y)
      && !Blocked(s.board, RotatedCw(RotatedCw(RotatedCw(RotatedCw(m)))), s.held.x, s.held.y)
    ensures AfterRotate(AfterRotate(AfterRotate(AfterRotate(s)))) == s
  {
    FourTurnsIdentity(s.held.minos);
  }

  /** Cells above the board never collide: a piece whose occupied cells all
      land in columns 0..9 and rows above row 0 is never blocked, whatever
      the board holds. */
  lemma AboveNeverBlocks(b: seq<int>, m: Mask, x: int, y: int)
    requires |b| == CellCount && IsMask(m)
    requires forall i, j :: 0 <= i < 4 && 0 <= j < 4 && m[i][j] == 1 ==>
      0 <= I8(j + x) < Width && I8(i + y) < 0
    ensures !Blocked(b, m, x, y)
  {
  }

  // -------------------------------------------------- keys and game state

  /** SPACE: START becomes ACTIVE; no piece is served. Any other state is
      left alone. */
  function AfterStartKey(s: Snapshot): (r: Snapshot)
    ensures s.state == Start ==> r == s.(state := Active)
    ensures s.state != Start ==> r == s
  {
    if s.state == Start then s.(state := Active) else s
  }

  /** P: PAUSED becomes ACTIVE, every other state becomes PAUSED. */
  function AfterPauseKey(s: Snapshot): (r: Snapshot)
    ensures r.state == (if s.state == Paused then Active else Paused)
    ensures r.(state := s.state) == s
  {
    s.(state := if s.state == Paused then Active else Paused)
  }

  /** Pausing and resuming a running game gives it back unchanged. */
  lemma PauseTwice(s: Snapshot)
    ensures s.state == Active || s.state == Paused ==> AfterPauseKey(AfterPauseKey(s)) == s
    ensures s.state == Start || s.state == GameOver ==> AfterPauseKey(AfterPauseKey(s)) == s.(state := Active)
  {
  }

  /** `restart`: state START, zero lines, score and time, level 1, an empty
      board and a fresh piece; `frame_counter` and `frames_per_drop` are
      kept. */
  function AfterRestart(s: Snapshot, oracle: nat -> int): (r: Snapshot)
    requires Consistent(s)
    ensures Consistent(r) && r.state == Start && r.board == Zeros(CellCount)
    ensures r.ctr == Initial().ctr.(frameCounter := s.ctr.frameCounter, framesPerDrop := s.ctr.framesPerDrop)
    ensures r.held == Spawn(PieceIndex(oracle(s.rolls))) && r.rolls == s.rolls + 1
  {
    var c := s.ctr.(fullLines := 0, score := 0, level := 1, time := 0);
    AfterNewPiece(Snapshot(Zeros(CellCount), s.held, Start, c, s.rolls), oracle)
  }

  /** What `handle_key` does for a scan code, after its `switch`. */
  datatype Command = Turn | Step(dx: int, dy: int) | StartGame | Restart | TogglePause | Ignore

  /** `handle_key(sc)`: bytes with bit 7 set are releases and are ignored;
      then the `switch (sc)`. */
  function KeyCommand(sc: int): (c: Command)
    requires InU8(sc)
    ensures c.Step? ==> (c.dx, c.dy) in {(0, 1), (-1, 0), (1, 0)}
    ensures sc >= 0x80 ==> c == Ignore
  {
    if sc >= 0x80 then Ignore
    else if sc == SK.KEY_ARROW_UP then Turn
    else if sc == SK.KEY_ARROW_DOWN then Step(0, 1)
    else if sc == SK.KEY_ARROW_LEFT then Step(-1, 0)
    else if sc == SK.KEY_ARROW_RIGHT then Step(1, 0)
    else if sc == SK.KEY_SPACE then StartGame
    else if sc == SK.KEY_R then Restart
    else if sc == SK.KEY_P then TogglePause
    else Ignore
  }

  /** The effect of a command on the game. */
  function Apply(s: Snapshot, c: Command, oracle: nat -> int): (r: Snapshot)
    requires Consistent(s) && (c.Step? ==> InI8(c.dx) && InI8(c.dy))
    ensures Consistent(r)
  {
    match c
    case Turn => AfterRotate(s)
    case Step(dx, dy) => AfterMove(s, dx, dy, oracle)
    case StartGame => AfterStartKey(s)
    case Restart => AfterRestart(s, oracle)
    case TogglePause => AfterPauseKey(s)
    case Ignore => s
  }

  /** SPACE never serves a piece and ESCAPE does nothing in this build. */
  lemma SpaceOnlyStarts(s: Snapshot, oracle: nat -> int)
    requires Consistent(s)
    ensures Apply(s, KeyCommand(SK.KEY_SPACE), oracle).held == s.held
    ensures Apply(s, KeyCommand(SK.KEY_SPACE), oracle).state == if s.state == Start then Active else s.state
    ensures Apply(s, KeyCommand(SK.KEY_ESCAPE), oracle) == s
  {
  }

  // ------------------------------------------------------------- frames

  /** The gravity step of `update`: `move(0, 1)` while the piece's row is
      above 20. */
  function Fall(s: Snapshot, oracle: nat -> int): (d: Snapshot)
    requires Consistent(s)
    ensures Consistent(d)
  {
    if s.held.y < Height then AfterMove(s, 0, 1, oracle) else s
  }

  /** `update`: nothing outside ACTIVE; otherwise, once `frame_counter`
      reaches `frames_per_drop`, the piece moves down (if its row is above
      20), the counter restarts and `time` advances; then the counter is
      incremented. */
  function AfterUpdate(s: Snapshot, oracle: nat -> int): (r: Snapshot)
    requires Consistent(s)
    ensures Consistent(r)
    ensures s.state != Active ==> r == s
    ensures s.state == Active && s.ctr.frameCounter < s.ctr.framesPerDrop ==>
      r == s.(ctr := s.ctr.(frameCounter := s.ctr.frameCounter + 1))
    ensures s.state == Active && s.ctr.frameCounter >= s.ctr.framesPerDrop ==>
      r.ctr.frameCounter == 1 && r.ctr.time == s.ctr.time + 1
  {
    if s.state != Active then s
    else
      var m := if s.ctr.frameCounter >= s.ctr.framesPerDrop then
          var d := Fall(s, oracle);
          d.(ctr := d.ctr.(frameCounter := 0, time := d.ctr.time + 1))
        else s;
      m.(ctr := m.ctr.(frameCounter := U32(m.ctr.frameCounter + 1)))
  }

  /** `count` frames without key events. */
  function Frames(s: Snapshot, oracle: nat -> int, count: nat): (r: Snapshot)
    requires Consistent(s)
    ensures Consistent(r)
    decreases count
  {
    if count == 0 then s else Frames(AfterUpdate(s, oracle), oracle, count - 1)
  }

  /** A frame before the counter reaches `frames_per_drop` only counts. */
  lemma UpdateCounts(s: Snapshot, oracle: nat -> int)
    requires Consistent(s) && s.state == Active
    requires s.ctr.frameCounter < s.ctr.framesPerDrop
    ensures AfterUpdate(s, oracle) == s.(ctr := s.ctr.(frameCounter := s.ctr.frameCounter + 1))
  {
  }

  /** Gravity: in an ACTIVE game the piece stays put until `frame_counter`
      reaches `frames_per_drop`. */
  lemma {:induction false} GravityWaits(s: Snapshot, oracle: nat -> int)
    requires Consistent(s) && s.state == Active
    requires s.ctr.frameCounter <= s.ctr.framesPerDrop
    ensures Frames(s, oracle, s.ctr.framesPerDrop - s.ctr.frameCounter)
      == s.(ctr := s.ctr.(frameCounter := s.ctr.framesPerDrop))
    decreases s.ctr.framesPerDrop - s.ctr.frameCounter
  {
    if s.ctr.frameCounter < s.ctr.framesPerDrop {
      var t := s.(ctr := s.ctr.(frameCounter := s.ctr.frameCounter + 1));
      UpdateCounts(s, oracle);
      assert Frames(s, oracle, s.ctr.framesPerDrop - s.ctr.frameCounter)
        == Frames(t, oracle, t.ctr.framesPerDrop - t.ctr.frameCounter);
      GravityWaits(t, oracle);
      assert t.(ctr := t.ctr.(frameCounter := t.ctr.framesPerDrop))
        == s.(ctr := s.ctr.(frameCounter := s.ctr.framesPerDrop));
    }
  }

  // ------------------------------------------------- the level invariant

  /** `level == full_lines / 10 + 1`, which holds at boot and after `restart`. */
  predicate LevelTracksLines(s: Snapshot) {
    s.ctr.level == s.ctr.fullLines / 10 + 1
  }

  /** A drop keeps the level in step with the lines and never lowers the score. */
  lemma DropKeepsLevel(s: Snapshot, oracle: nat -> int)
    requires Consistent(s) && LevelTracksLines(s)
    ensures LevelTracksLines(AfterDrop(s, oracle))
    ensures AfterDrop(s, oracle).ctr.score >= s.ctr.score
  {
    LevelFollowsLines(Lock(s.board, s.held), s.ctr);
  }

  /** Every key keeps the level in step with the lines, and every key but
      R leaves the score at least where it was. */
  lemma KeyKeepsLevel(s: Snapshot, c: Command, oracle: nat -> int)
    requires Consistent(s) && LevelTracksLines(s) && (c.Step? ==> InI8(c.dx) && InI8(c.dy))
    ensures LevelTracksLines(Apply(s, c, oracle))
    ensures c != Restart ==> Apply(s, c, oracle).ctr.score >= s.ctr.score
  {
    if c.Step? && Blocked(s.board, s.held.minos, I8(s.held.x + c.dx), I8(s.held.y + c.dy)) && c.dy > 0 {
      DropKeepsLevel(s, oracle);
    }
  }

  /** Every frame keeps the level in step with the lines and never lowers
      the score. */
  lemma FrameKeepsLevel(s: Snapshot, oracle: nat -> int)
    requires Consistent(s) && LevelTracksLines(s)
    ensures LevelTracksLines(AfterUpdate(s, oracle))
    ensures AfterUpdate(s, oracle).ctr.score >= s.ctr.score
  {
    if s.state == Active && s.ctr.frameCounter >= s.ctr.framesPerDrop && s.held.y < Height {
      KeyKeepsLevel(s, Step(0, 1), oracle);
    }
  }

  // ---------------------------------------------------------- the statics

  /** The statics of `Tetris` and the file statics of tetris.cpp. `board`
      is `Block game_blocks[20][10]` in row-major order (a Block is its
      colour) and `oracle(k)` is the k-th `rand()` result. */
  class Game {
    const board: array<int>
    const oracle: nat -> int
    var held: Tetromino
    var state: GameState
    var time: int
    var score: int
    var level: int
    var fullLines: int
    var frameCounter: int
    var framesPerDrop: int
    var rolls: nat

    ghost function Ctr(): Counters
      reads this
    {
      Counters(time, score, level, fullLines, frameCounter, framesPerDrop)
    }

    ghost function Snap(): Snapshot
      reads this, board
    {
      Snapshot(board[..], held, state, Ctr(), rolls)
    }

    ghost predicate Valid()
      reads this, board
    {
      board.Length == CellCount && Consistent(Snap())
    }

    /** The statics with their initialisers. */
    constructor (oracle: nat -> int)
      ensures Valid() && Snap() == Initial() && this.oracle == oracle
      ensures fresh(board)
    {
      board := new int[CellCount](_ => 0);
      this.oracle := oracle;
      held := Tetromino(I_DEF.minos, I_DEF.color, 3, 0);
      state := Start;
      time, score, fullLines := 0, 0, 0;
      level := 1;
      frameCounter, framesPerDrop := 0, 50;
      rolls := 0;
      new;
      assert board[..] == Zeros(CellCount);
    }

    /** `collides`: for each occupied cell, a row at or below 20 collides,
        then a column outside 0..9, then, for rows on the board only, a
        coloured cell. */
    method Collides(m: Mask, x: int, y: int) returns (hit: bool)
      requires Valid() && IsMask(m)
      ensures hit == Blocked(board[..], m, x, y)
    {
      var i := 0;
      while i < 4
        invariant 0 <= i <= 4
        invariant forall a, b :: 0 <= a < i && 0 <= b < 4 && m[a][b] == 1 ==>
          !CellBlocked(board[..], I8(b + x), I8(a + y))
      {
        var j := 0;
        while j < 4
          invariant 0 <= j <= 4
          invariant forall a, b :: (0 <= a < i || (a == i && b < j)) && 0 <= b < 4 && m[a][b] == 1 ==>
            !CellBlocked(board[..], I8(b + x), I8(a + y))
        {
          if m[i][j] == 1 {
            var sx, sy := I8(j + x), I8(i + y);
            if sy >= Height {
              return true;
            }
            if sx < 0 || sx >= Width {
              return true;
            }
            if sy >= 0 && board[sy * Width + sx] != 0 {
              assert Cell(board[..], sy, sx) != 0;
              return true;
            }
          }
          j := j + 1;
        }
        i := i + 1;
      }
      return false;
    }

    /** `new_piece`: one `rand()` call picks the definition, which is
        copied into the held piece at column 3, row 0. */
    method NewPiece()
      requires Valid()
      modifies this`held, this`rolls
      ensures Snap() == AfterNewPiece(old(Snap()), oracle) && Valid()
    {
      var n := PieceIndex(oracle(rolls));
      rolls := rolls + 1;
      held := Spawn(n);
    }

    /** The row loop of `check_row` on the board, with the source's
        `full_lines++` per removed row added up. */
    method SweepRows() returns (scored: nat)
      requires board.Length == CellCount
      modifies this`fullLines, board
      ensures (board[..], scored) == Sweep(old(board[..]), Height - 1)
      ensures fullLines == old(fullLines) + scored
    {
      scored := SweepBoard(board);
      fullLines := fullLines + scored;
    }

    /** The level and score updates at the end of `check_row`. */
    method ApplyScore(scored: int)
      requires CountersOk(Ctr())
      modifies this`level, this`framesPerDrop, this`score
      ensures Ctr() == Rescore(old(Ctr()), scored)
    {
      if fullLines / 10 > level - 1 {
        level := fullLines / 10 + 1;
        framesPerDrop := FramesPerDrop(level);
      }
      if scored == 1 {
        score := score + 100 * level;
      } else if scored == 2 {
        score := score + 300 * level;
      } else if scored == 3 {
        score := score + 500 * level;
      }
    }

    /** `check_row`: the row sweep, then the level and score updates. */
    method CheckRow()
      requires Valid()
      modifies this`fullLines, this`level, this`framesPerDrop, this`score, board
      ensures Valid()
      ensures var r := ClearRows(old(board[..]), old(Ctr()));
        board[..] == r.0 && Ctr() == r.1
    {
      var scored := SweepRows();
      ApplyScore(scored);
    }

    /** `drop_piece`: lock the held piece into the board, pick the next
        piece, clear rows, then end the game if the new piece collides at
        its spawn position. */
    method DropPiece()
      requires Valid()
      modifies this, board
      ensures Snap() == AfterDrop(old(Snap()), oracle) && Valid()
    {
      LockPiece(board, held);
      NewPiece();
      CheckRow();
      var hit := Collides(held.minos, held.x, held.y);
      if hit {
        state := GameOver;
      }
    }

    /** `move(dir_x, dir_y)`: a blocked step down drops the piece, any
        other blocked step does nothing. */
    method Move(dx: int, dy: int)
      requires Valid() && InI8(dx) && InI8(dy)
      modifies this, board
      ensures Snap() == AfterMove(old(Snap()), dx, dy, oracle) && Valid()
    {
      var nx, ny := I8(held.x + dx), I8(held.y + dy);
      var hit := Collides(held.minos, nx, ny);
      if hit {
        if dy > 0 {
          DropPiece();
        }
        return;
      }
      held := held.(x := nx, y := ny);
    }

    /** `rotate`: turn the mask clockwise in a scratch matrix and copy it
        into the held piece unless it collides where the piece is. */
    method Rotate()
      requires Valid()
      modifies this`held
      ensures Snap() == AfterRotate(old(Snap())) && Valid()
    {
      var tmp := BuildRotatedCw(held.minos);
      var hit := Collides(tmp, held.x, held.y);
      if !hit {
        held := held.(minos := tmp);
      }
    }

    /** `update` without its drawing. */
    method Update()
      requires Valid()
      modifies this, board
      ensures Snap() == AfterUpdate(old(Snap()), oracle) && Valid()
    {
      if state == Start || state == Paused || state == GameOver {
        return;
      }
      if frameCounter >= framesPerDrop {
        if held.y < Height {
          Move(0, 1);
        }
        frameCounter := 0;
        time := time + 1;
      }
      frameCounter := U32(frameCounter + 1);
    }

    /** `handle_key(sc)`: releases are ignored, then the `switch (sc)`. */
    method HandleKey(sc: int)
      requires Valid() && InU8(sc)
      modifies this, board
      ensures Snap() == Apply(old(Snap()), KeyCommand(sc), oracle) && Valid()
    {
      if sc >= 0x80 {
        return;
      }
      if sc == SK.KEY_ARROW_UP {
        Rotate();
      } else if sc == SK.KEY_ARROW_DOWN {
        Move(0, 1);
      } else if sc == SK.KEY_ARROW_LEFT {
        Move(-1, 0);
      } else if sc == SK.KEY_ARROW_RIGHT {
        Move(1, 0);
      } else if sc == SK.KEY_SPACE {
        if state == Start {
          state := Active;
        }
      } else if sc == SK.KEY_R {
        Restart();
      } else if sc == SK.KEY_P {
        state := if state == Paused then Active else Paused;
      }
    }

    /** `restart`: reset the state and counters (not `frame_counter` or
        `frames_per_drop`), clear the board, pick a piece. */
    method Restart()
      requires Valid()
      modifies this, board
      ensures Snap() == AfterRestart(old(Snap()), oracle) && Valid()
    {
      state := Start;
      fullLines, score, level, time := 0, 0, 1, 0;
      ClearBoard(board);
      NewPiece();
    }
  }
}
