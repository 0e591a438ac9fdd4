# tetros core, modelled in Dafny

tetros is a bare-metal x86_64 falling-block game. It comes in two builds
that share no code at run time: an older multiboot tree (`src/`,
`include/`) and a newer Limine tree (`kernel/`). This project models the
sequential logic of both, one Dafny module per source file, and keeps the
two trees apart: a `Kernel…` module models the Limine tree and a `Src…`
module the multiboot tree, even where the two files are nearly the same.

What is modelled:

- **The game** (`KernelTetris`, `SrcTetris`, with the shared board geometry
  in `Playfield`). Each game is a class whose fields are the C++ statics: the
  20 × 10 board, the held piece, the counters and the state. The methods
  cover collision, moving, rotating, the 7-bag (Limine) or uniform
  (multiboot) piece choice, locking, row clearing, scoring, `update`,
  `handle_key` and `restart`. Each method is proved against a function on a
  snapshot of the state. The lemmas cover the properties the game relies
  on: four rotations are the identity, the bag serves each piece once in
  seven draws, clearing keeps the board's shape, and the level follows the
  line count. `rand()` is an oracle indexed by how many times it was called.
- **Keyboard queues** (`ScanRing`, `KernelKeyboard`, `SrcKeyboard`,
  `Listeners`). These are the 64-slot rings, whose enqueue writes slot
  `head + 1` while dequeue reads slot `tail`, so every byte is delivered one
  enqueue late. The Limine tree adds the E0/F0 prefix decoder of PS/2 scan
  code set 2.
- **Interrupt plumbing** (`KernelPic`, `KernelIrq`). The 16-entry handler
  table, dispatch and end-of-interrupt, mask read-modify-write, and the
  ICW1–ICW4 sequence of the 8259A. Ports are an abstract byte latch with a
  write log (`Ports`).
- **Formatters**:
  - `KernelFormat` and `KernelHeapFormat` model the Limine `prints`,
    `simple_outputi`, `vformat` and heap `vformat`.
  - `SrcFormat` models the multiboot `int_str` and `vformat` with their
    fixed buffers.
  - `SerialFormat` models the multiboot serial driver's `simple_vsprintf`.
    That driver's `prints` and `simple_outputi` (src/driver/serial.cpp:75-103
    and 107-153) are the same code as the Limine ones, so they are modelled
    by the `KernelFormat` members.
  - Digits, variadic arguments and C strings are shared (`Numerals`,
    `VarArgs`).
  - Each formatter is a specification function over character sequences,
    plus imperative methods that follow the C loops and are proved to
    produce exactly that function's text.
- **Memory and strings** (`ByteCopy`, `KernelMem`, `SrcMem`, `KernelHeap`,
  `KernelString`). The byte and word copy, move and set loops work on an
  `array<bv8>`. `align_up` is modelled with its 64-bit wrap-around. There
  is the bump allocator, and the Limine tree's `strcpy`, `strcat` and
  `strncat` keep their non-standard behaviour.
- **Encoders and small machines** (`KernelGdt`, `SrcIdt`, `KernelPci`,
  `KernelApi`, `KernelTimer`, `KernelSound`, `KernelRand`, `ColorUtils`).
  These are GDT and IDT descriptor packing, PCI configuration mechanism #1
  and bus enumeration, HHDM address translation, the PIT divisor and the
  wrap-safe tick deadline, the beep state machine, the LCG, and colour
  lightening and darkening.

C integer widths are explicit throughout: `CInt` gives the wrap-around
conversions `U8`…`U64` and `I8`…`I64`, and truncating division. Undefined
behaviour is either a result (`None`, `Undefined`, `Fault`) or, where the
source cannot reach it, a precondition.

## Model

| member | source | states |
|---|---|---|
| Listeners.Deliver | kernel/src/driver/ps2/keyboard.cpp:60 | one listener call per argument when a listener is registered, none otherwise, in order |
| Listeners.DeliverSnoc | src/driver/keyboard.cpp:33 | one more argument appends exactly the one call `if (g_listener) g_listener(sc)` makes |
| ScanRing.Pending | kernel/src/driver/ps2/keyboard.cpp:22-27 | the readable bytes are the (head - tail) mod 64 slots after tail, fewer than 64, each a byte |
| ScanRing.Enqueued | kernel/src/driver/ps2/keyboard.cpp:15-20 | a ring with 63 readable bytes drops the byte unchanged; otherwise the staged byte becomes the newest readable one and the new byte is staged |
| ScanRing.EnqueueSlots | kernel/src/driver/ps2/keyboard.cpp:16-18 | writing slot head+1 and advancing head appends the old staged byte to the readable bytes |
| ScanRing.EnqueueSlot | kernel/src/driver/ps2/keyboard.cpp:16-18 | the same, slot by slot |
| ScanRing.SlotDistinct | kernel/src/driver/ps2/keyboard.cpp:16 | when the ring is not full, slot head+1 is none of the readable slots and holds one more byte |
| ScanRing.Dequeued | kernel/src/driver/ps2/keyboard.cpp:22-27 | fails exactly on an empty ring and leaves it alone; otherwise returns the oldest readable byte and drops it, the staged byte untouched |
| ScanRing.DequeueSlots | kernel/src/driver/ps2/keyboard.cpp:24-25 | reading slot tail and advancing tail returns the first readable byte and leaves the rest |
| ScanRing.DequeueSlot | kernel/src/driver/ps2/keyboard.cpp:24-25 | the same, slot by slot |
| ScanRing.TailCount | kernel/src/driver/ps2/keyboard.cpp:25 | advancing tail by one slot leaves one fewer byte between tail and head |
| ScanRing.TailSlot | kernel/src/driver/ps2/keyboard.cpp:25 | the slot k after the advanced tail is the slot k+1 after the old tail |
| ScanRing.EnqueuedAll | kernel/src/driver/ps2/keyboard.cpp:64-68 | a run of interrupts keeps the ring well formed |
| ScanRing.EnqueueAllOneBehind | kernel/src/driver/ps2/keyboard.cpp:15-20 | without overflow, the readable bytes gain the staged byte and every enqueued byte but the last, which stays staged |
| ScanRing.FirstReadIsZero | kernel/src/driver/ps2/keyboard.cpp:11-13 | from the zeroed statics the first byte read is the zero in slot 0, then the enqueued bytes except the last |
| ScanRing.FullRingDrops | kernel/src/driver/ps2/keyboard.cpp:16 | a full ring ignores every further byte |
| ScanRing.Buffer.constructor | kernel/src/driver/ps2/keyboard.cpp:11-13 | the zero-initialised buffer, head and tail |
| ScanRing.Buffer.Enqueue | kernel/src/driver/ps2/keyboard.cpp:15-20 | the array and head become `Enqueued` of the old ring |
| ScanRing.Buffer.Dequeue | kernel/src/driver/ps2/keyboard.cpp:22-27 | returns false exactly on an empty ring; otherwise the oldest readable byte, the rest stay readable and the staged byte stays |
| KernelKeyboard.Step | kernel/src/driver/ps2/keyboard.cpp:41-58 | 0xE0 and 0xF0 only set their flag; any other byte adds one event with the flags seen so far and clears both |
| KernelKeyboard.Codes | kernel/src/driver/ps2/keyboard.cpp:51-55 | the scan codes of the events, one per event |
| KernelKeyboard.RunEvents | kernel/src/driver/ps2/keyboard.cpp:40-61 | draining bytes adds exactly one event per non-prefix byte, carrying that byte, in order |
| KernelKeyboard.RunConcat | kernel/src/driver/ps2/keyboard.cpp:35-36 | decoding two batches equals decoding their concatenation: the flags survive between calls |
| KernelKeyboard.PrefixedKey | kernel/src/driver/ps2/keyboard.cpp:41-58 | a key after a run of prefixes is reported as a release or extended key exactly when such a prefix was seen |
| KernelKeyboard.PrefixFlags | kernel/src/driver/ps2/keyboard.cpp:41-49 | prefixes alone add no events and only set the flags |
| KernelKeyboard.Keyboard.constructor | kernel/src/driver/ps2/keyboard.cpp:9-13 | empty ring, no listener, both flags false |
| KernelKeyboard.Keyboard.Handler | kernel/src/driver/ps2/keyboard.cpp:64-68 | the byte read from the data port is enqueued |
| KernelKeyboard.Keyboard.RegisterListener | kernel/src/driver/ps2/keyboard.cpp:29-31 | the listener is set |
| KernelKeyboard.Keyboard.UnregisterListener | kernel/src/driver/ps2/keyboard.cpp:33 | the listener is cleared |
| KernelKeyboard.Keyboard.Decode | kernel/src/driver/ps2/keyboard.cpp:41-60 | the flags move as `Step` says and the listener receives the new event, if any |
| KernelKeyboard.Keyboard.ProcessQueue | kernel/src/driver/ps2/keyboard.cpp:38-62 | the ring is drained except for the staged byte; flags and listener calls are those of decoding the old readable bytes |
| KernelKeyboard.BootDelivery | kernel/src/driver/ps2/keyboard.cpp:11-13 | from boot, the first drain reports a zero byte, then every queued non-prefix byte but the last |
| SrcKeyboard.Keyboard.constructor | src/driver/keyboard.cpp:7-11 | empty ring and no listener |
| SrcKeyboard.Keyboard.Handler | src/driver/keyboard.cpp:37-41 | the byte read from port 0x60 is enqueued |
| SrcKeyboard.Keyboard.RegisterListener | src/driver/keyboard.cpp:27 | the listener is set |
| SrcKeyboard.Keyboard.UnregisterListener | src/driver/keyboard.cpp:28 | the listener is cleared |
| SrcKeyboard.Keyboard.ProcessQueue | src/driver/keyboard.cpp:30-35 | the ring is drained except for the staged byte; the listener receives every old readable byte, oldest first, undecoded |
| SrcKeyboard.Keyboard.Forward | src/driver/keyboard.cpp:33 | one byte reaches the listener exactly when one is registered |
| SrcKeyboard.BootForwarding | src/driver/keyboard.cpp:9-11 | from boot, the first drain hands over a zero byte and then every queued byte but the last |
| Playfield.Def | kernel/src/game/tetris.cpp:156-157 | entry n of `defs` is a 0/1 mask with at least one cell and a non-zero 24-bit colour |
| Playfield.Spawn | kernel/src/game/tetris.cpp:171-173 | the new piece carries the mask and colour of its definition at column 3, row 0 |
| Playfield.RotatedCw | kernel/src/game/tetris.cpp:125-129 | cell [i][j] moves to [j][3-i] |
| Playfield.RotatedCcw | kernel/src/game/tetris.cpp:140-144 | cell [i][j] moves to [3-j][i] |
| Playfield.BuildRotatedCw | kernel/src/game/tetris.cpp:124-129 | the scratch matrix the double loop fills is `RotatedCw` of the mask |
| Playfield.BuildRotatedCcw | kernel/src/game/tetris.cpp:139-144 | the scratch matrix the double loop fills is `RotatedCcw` of the mask |
| Playfield.CcwUndoesCw | kernel/src/game/tetris.cpp:121-149 | the two turns undo each other, in both orders |
| Playfield.FourTurnsIdentity | kernel/src/game/tetris.cpp:121-134 | four clockwise turns give the mask back |
| Playfield.RotationKeepsCells | kernel/src/game/tetris.cpp:121-149 | turning never empties a mask or fills an empty one |
| Playfield.MaskExt | kernel/src/game/tetris.cpp:133 | two 4x4 masks that agree on every cell are equal, so the 16-byte copy makes the scratch matrix the mask |
| Playfield.Zeros | kernel/src/game/tetris.cpp:424 | the cleared board holds 0 in every cell |
| Playfield.RowsSafeFromRow | kernel/src/game/tetris.cpp:94-101 | a piece at a row in 0..124 never makes `collides` index above the board |
| Playfield.LockUpTo | kernel/src/game/tetris.cpp:177-190 | the first n mask cells locked in keep the board's 200 cells |
| Playfield.Lock | kernel/src/game/tetris.cpp:177-190 | locking the whole mask keeps the board's 200 cells |
| Playfield.LockOne | kernel/src/game/tetris.cpp:179-188 | one mask cell locked in keeps the board's 200 cells |
| Playfield.LockStep | kernel/src/game/tetris.cpp:177-190 | locking n+1 cells is locking cell n after the first n |
| Playfield.LockCells | kernel/src/game/tetris.cpp:177-190 | a board cell takes the piece colour exactly when an occupied mask cell lands on it after the uint8 wrap, and is unchanged otherwise |
| Playfield.LockAt | kernel/src/game/tetris.cpp:177-190 | the same, phrased with the loop's own coverage predicate |
| Playfield.CoveredIff | kernel/src/game/tetris.cpp:181-184 | the loop's coverage of a board cell is exactly "some occupied mask cell lands there" |
| Playfield.LandsOn | kernel/src/game/tetris.cpp:181-182 | mask cell (i, j) lands on board cell (r, c) exactly when i and j are the uint8 differences r - y and c - x |
| Playfield.ModShift | kernel/src/game/tetris.cpp:181-182 | the uint8 sum i + y is r exactly when r - y is i modulo 256 |
| Playfield.ShiftBack | kernel/src/game/tetris.cpp:182 | one direction of `ModShift` |
| Playfield.ShiftForth | kernel/src/game/tetris.cpp:182 | the other direction of `ModShift` |
| Playfield.OccupiedConcat | kernel/src/game/tetris.cpp:208-214 | the count of non-empty cells adds up over concatenation |
| Playfield.OccupiedBounds | kernel/src/game/tetris.cpp:208-214 | the count is at most the length, 0 exactly for an all-empty row, the length exactly for a full one |
| Playfield.Collapse | kernel/src/game/tetris.cpp:219-222 | rows above the cleared row move down one, row 0 becomes empty, rows below are untouched |
| Playfield.CollapseOccupied | kernel/src/game/tetris.cpp:218-222 | clearing a full row removes exactly its 10 blocks |
| Playfield.SweepKeepsCells | kernel/src/game/tetris.cpp:201-227 | the sweep removes exactly 10 blocks per row it scores |
| Playfield.SweepBound | kernel/src/game/tetris.cpp:202-227 | at most 20 rows are scored |
| Playfield.SweepStepEmpty | kernel/src/game/tetris.cpp:203-216 | an empty row, or reaching row 0, ends the sweep with nothing scored |
| Playfield.SweepStepFull | kernel/src/game/tetris.cpp:218-226 | a full row is cleared, scored, and the same row index is examined again |
| Playfield.SweepStepPartial | kernel/src/game/tetris.cpp:203 | a partial row moves the sweep one row up |
| Playfield.SweepNoFullRow | kernel/src/game/tetris.cpp:201-227 | without a full row in rows 1..y the board is unchanged and nothing is scored |
| Playfield.SweepEmptiesTop | kernel/src/game/tetris.cpp:219-222 | the top rows that were empty stay empty, and one more row at the top is empty per scored row |
| Playfield.LinePoints | kernel/src/game/tetris.cpp:235-246 | 100, 300 or 500 for one, two or three rows, 0 for any other count |
| Playfield.AwardIsPointsTimesLevel | kernel/src/game/tetris.cpp:235-246 | the score added is the points for the row count times the level |
| Playfield.FramesPerDrop | kernel/src/game/tetris.cpp:232 | 50 - 2*level for levels up to 25, wrapping to a huge uint32 value from level 26 on |
| Playfield.LockPiece | kernel/src/game/tetris.cpp:177-190 | the lock-in loop leaves the board `Lock` of the old board |
| Playfield.LockCell | kernel/src/game/tetris.cpp:179-188 | one iteration of the lock-in loop leaves the board `LockOne` of the old board |
| Playfield.ScanRow | kernel/src/game/tetris.cpp:205-214 | the two flags say whether the row is full and whether it is empty |
| Playfield.ShiftDown | kernel/src/game/tetris.cpp:219-222 | the copy loop and the final clear leave the board `Collapse` of the old board |
| Playfield.SweepStep | kernel/src/game/tetris.cpp:204-226 | one iteration stops on an empty row, clears a full row and stays on it, or moves one row up, keeping the rest of the sweep's result |
| Playfield.SweepBoard | kernel/src/game/tetris.cpp:202-227 | the row loop leaves the board and the scored count that `Sweep` computes |
| Playfield.ClearBoard | kernel/src/game/tetris.cpp:424 | every cell becomes 0 |
| KernelTetris.Initial | kernel/src/game/tetris.cpp:80-87 | the statics at boot are consistent: START, an empty held piece, level 1 with `level == full_lines / 10 + 1` |
| KernelTetris.Swap | kernel/src/game/tetris.cpp:164-166 | entries i and j trade places and every other entry stays |
| KernelTetris.SwapPermutes | kernel/src/game/tetris.cpp:164-166 | a swap keeps the bag's contents |
| KernelTetris.DrawIndex | kernel/src/game/tetris.cpp:163 | `rand() % (i + 1)` in unsigned arithmetic always picks an index in 0..i |
| KernelTetris.ShuffleFrom | kernel/src/game/tetris.cpp:162-167 | the Fisher-Yates passes keep seven entries |
| KernelTetris.ShufflePermutes | kernel/src/game/tetris.cpp:162-167 | the shuffle passes keep the bag's contents |
| KernelTetris.ShuffleStep | kernel/src/game/tetris.cpp:162-167 | the shuffle is one swap with the next `rand()` result followed by the remaining passes |
| KernelTetris.Shuffled | kernel/src/game/tetris.cpp:161-167 | a refilled bag has seven entries |
| KernelTetris.ShuffledPermutes | kernel/src/game/tetris.cpp:160-168 | every refilled bag is a permutation of the seven pieces |
| KernelTetris.PermutationInRange | kernel/src/game/tetris.cpp:171 | every entry of a permutation of 0..6 indexes `defs` |
| KernelTetris.ShuffledInRange | kernel/src/game/tetris.cpp:171 | every entry of a refilled bag indexes `defs` |
| KernelTetris.InFresh | kernel/src/game/tetris.cpp:161 | the values written by the fill loop are 0..6 |
| KernelTetris.Refilled | kernel/src/game/tetris.cpp:160-169 | an empty bag is refilled and a non-empty one is untouched |
| KernelTetris.Serve | kernel/src/game/tetris.cpp:155-174 | an empty bag is refilled with the next six `rand()` results and left with six pieces, otherwise it loses one piece; the piece served is the new top, spawned |
| KernelTetris.ServedAsServe | kernel/src/game/tetris.cpp:155-174 | the field-by-field effect of `new_piece` is `Serve` |
| KernelTetris.ReversePermutes | kernel/src/game/tetris.cpp:171 | taking pieces from the top reorders them without changing the contents |
| KernelTetris.DrawsFromBag | kernel/src/game/tetris.cpp:171 | emptying a bag serves its pieces from the top down |
| KernelTetris.ReverseSnoc | kernel/src/game/tetris.cpp:171 | serving a longer bag serves its new top first |
| KernelTetris.SevenDrawsServeEachPieceOnce | kernel/src/game/tetris.cpp:154-174 | seven calls from an empty bag serve each of the seven pieces exactly once |
| KernelTetris.TopThenReverse | kernel/src/game/tetris.cpp:168-171 | the first piece served after a refill and the six after it are the whole refilled bag |
| KernelTetris.SevenDrawsEmptyTheBag | kernel/src/game/tetris.cpp:160-171 | seven calls from an empty bag empty it again and use six `rand()` results |
| KernelTetris.BagCountsDown | kernel/src/game/tetris.cpp:171 | calls on a non-empty bag only count `bag_size` down |
| KernelTetris.TakeStep | kernel/src/game/tetris.cpp:171 | one call on a non-empty bag lowers `bag_size` by one |
| KernelTetris.Rescore | kernel/src/game/tetris.cpp:229-246 | the level and score updates keep every counter a uint32 and leave `full_lines`, `time` and `frame_counter` alone |
| KernelTetris.ClearRows | kernel/src/game/tetris.cpp:201-247 | the board is the sweep's board and `full_lines` grows by the number of rows removed, modulo 2^32 |
| KernelTetris.LevelFollowsLines | kernel/src/game/tetris.cpp:229-233 | while `full_lines` does not wrap, `level == full_lines / 10 + 1` is kept and the level never goes down |
| KernelTetris.CheckRowScoring | kernel/src/game/tetris.cpp:229-246 | `check_row` raises the level exactly when `full_lines / 10` passes `level - 1`, then adds the points for the rows removed times the new level |
| KernelTetris.RescoreScoring | kernel/src/game/tetris.cpp:229-246 | the same for the rescoring step alone |
| KernelTetris.SafeAt | kernel/src/game/tetris.cpp:196 | `collides` at the piece's own position never reads above the board |
| KernelTetris.LandsInside | kernel/src/game/tetris.cpp:98 | a free position of a piece with cells is above row 20 |
| KernelTetris.AfterNewPiece | kernel/src/game/tetris.cpp:155-174 | `new_piece` spawns the served piece at (3, 0) and changes nothing else |
| KernelTetris.AfterDrop | kernel/src/game/tetris.cpp:176-199 | `drop_piece` locks the piece in, serves the next piece, clears rows, and ends the game exactly when the new piece collides at (3, 0) |
| KernelTetris.DropConservesCells | kernel/src/game/tetris.cpp:176-199 | after a drop, the blocks on the board plus 10 per line counted equal the blocks after locking |
| KernelTetris.AfterMoveAside | kernel/src/game/tetris.cpp:108-119 | a sideways step is taken unless the piece would collide there |
| KernelTetris.AfterMoveDown | kernel/src/game/tetris.cpp:108-119 | a step down is taken unless blocked, in which case the piece is dropped |
| KernelTetris.MoveOutcome | kernel/src/game/tetris.cpp:108-119 | the three outcomes of `move`: blocked sideways changes nothing, blocked downwards drops, free shifts |
| KernelTetris.MoveAsideOutcome | kernel/src/game/tetris.cpp:108-119 | a sideways `move` that would collide leaves the game unchanged; one that would not shifts the piece |
| KernelTetris.MoveDownOutcome | kernel/src/game/tetris.cpp:108-119 | a downward `move` that would collide drops the piece; one that would not moves it one row down |
| KernelTetris.MoveBack | kernel/src/game/tetris.cpp:108-119 | a successful sideways step from a free position is undone by the opposite step |
| KernelTetris.I8StepBack | kernel/src/game/tetris.cpp:109 | an int8 step of one and back returns the column |
| KernelTetris.DownStaysOnBoard | kernel/src/game/tetris.cpp:98 | after a step down the piece's row is still in 0..19 |
| KernelTetris.AfterRotate | kernel/src/game/tetris.cpp:121-149 | a turn is kept exactly when the turned mask does not collide at the piece's position |
| KernelTetris.RotateBack | kernel/src/game/tetris.cpp:121-149 | a successful clockwise turn from a free position is undone by a counter-clockwise turn |
| KernelTetris.FourTurns | kernel/src/game/tetris.cpp:121-134 | four successful clockwise turns give the game back |
| KernelTetris.AfterStartKey | kernel/src/game/tetris.cpp:295-302 | space starts the game and serves a piece only in START, and does nothing otherwise |
| KernelTetris.AfterPauseKey | kernel/src/game/tetris.cpp:306-309 | P and escape turn PAUSED into ACTIVE and any other state into PAUSED, changing nothing else |
| KernelTetris.PauseTwice | kernel/src/game/tetris.cpp:306-309 | pressing P twice restores ACTIVE or PAUSED, but turns START or GAME OVER into ACTIVE |
| KernelTetris.AfterRestart | kernel/src/game/tetris.cpp:417-426 | restart returns to START with a clear board and zeroed counters at level 1, keeps `frame_counter` and `frames_per_drop`, and serves a piece |
| KernelTetris.KeyCommand | kernel/src/game/tetris.cpp:266-312 | the only sideways steps are one column left or right |
| KernelTetris.Apply | kernel/src/game/tetris.cpp:266-312 | every command keeps the game consistent |
| KernelTetris.KeysIgnoreState | kernel/src/game/tetris.cpp:282-285 | the arrow keys act in every state, a paused or finished game included |
| KernelTetris.ReleaseIgnored | kernel/src/game/tetris.cpp:267 | key releases never change the game |
| KernelTetris.Fall | kernel/src/game/tetris.cpp:255-259 | a gravity step keeps the game consistent |
| KernelTetris.AfterUpdate | kernel/src/game/tetris.cpp:249-264 | frames only count in ACTIVE; a due frame moves the piece down, restarts the frame count at 1 and adds a second |
| KernelTetris.Frames | kernel/src/game/tetris.cpp:249-264 | any number of frames keeps the game consistent |
| KernelTetris.GravityWaits | kernel/src/game/tetris.cpp:255-263 | until `frame_counter` reaches `frames_per_drop`, frames only count |
| KernelTetris.UpdateCounts | kernel/src/game/tetris.cpp:255-263 | a frame before the drop is due only increments the counter |
| KernelTetris.GravityFires | kernel/src/game/tetris.cpp:255-263 | the frame at which the drop is due moves the piece down once and adds a second |
| KernelTetris.Tally | kernel/src/game/tetris.cpp:224 | repeated uint32 increments stay in range |
| KernelTetris.TallyIsSum | kernel/src/game/tetris.cpp:224 | `full_lines++` once per row equals one wrapping addition of the row count |
| KernelTetris.Game.constructor | kernel/src/game/tetris.cpp:80-87 | the statics start as `Initial` |
| KernelTetris.Game.Collides | kernel/src/game/tetris.cpp:89-106 | the result is whether some occupied mask cell is off the board sideways, below it, or on a filled cell |
| KernelTetris.Game.LockHeld | kernel/src/game/tetris.cpp:177-190 | the board becomes `Lock` of the old board; nothing else changes |
| KernelTetris.Game.SweepRows | kernel/src/game/tetris.cpp:202-227 | the board and row count are the sweep's, and `full_lines` grows by that count modulo 2^32 |
| KernelTetris.Game.ApplyScore | kernel/src/game/tetris.cpp:229-246 | the counters become `Rescore` of the old counters |
| KernelTetris.Game.CheckRow | kernel/src/game/tetris.cpp:201-247 | board and counters become `ClearRows` of the old ones |
| KernelTetris.Game.Refill | kernel/src/game/tetris.cpp:160-168 | the bag becomes the shuffle of 0..6 by the next six `rand()` results |
| KernelTetris.Game.Shuffle | kernel/src/game/tetris.cpp:162-167 | the loop applies the six swap passes and uses six `rand()` results |
| KernelTetris.Game.ShuffleOnce | kernel/src/game/tetris.cpp:163-166 | one pass uses one `rand()` result and keeps the remaining shuffle's result |
| KernelTetris.Game.SwapDrawn | kernel/src/game/tetris.cpp:163-166 | entry i trades places with entry `rand() % (i + 1)` |
| KernelTetris.Game.FillIdentity | kernel/src/game/tetris.cpp:161 | the bag holds 0..6 in order |
| KernelTetris.Game.NewPiece | kernel/src/game/tetris.cpp:155-174 | the game becomes `AfterNewPiece` of the old game |
| KernelTetris.Game.ServeNext | kernel/src/game/tetris.cpp:160-173 | bag and held piece change as `new_piece` says, field by field |
| KernelTetris.Game.DropPiece | kernel/src/game/tetris.cpp:176-199 | the game becomes `AfterDrop` of the old game |
| KernelTetris.Game.Move | kernel/src/game/tetris.cpp:108-119 | the game becomes `AfterMoveAside` or `AfterMoveDown` of the old game |
| KernelTetris.Game.RotateCw | kernel/src/game/tetris.cpp:121-134 | the game becomes `AfterRotate` clockwise of the old game |
| KernelTetris.Game.RotateCcw | kernel/src/game/tetris.cpp:136-149 | the game becomes `AfterRotate` counter-clockwise of the old game |
| KernelTetris.Game.Turn | kernel/src/game/tetris.cpp:131-133 | the scratch mask replaces the piece's mask exactly when it does not collide |
| KernelTetris.Game.Update | kernel/src/game/tetris.cpp:249-264 | the game becomes `AfterUpdate` of the old game |
| KernelTetris.Game.HandleKey | kernel/src/game/tetris.cpp:266-312 | the game becomes `Apply` of the key's command |
| KernelTetris.Game.Restart | kernel/src/game/tetris.cpp:417-426 | the game becomes `AfterRestart` of the old game |
| KernelTetris.StepSafe | kernel/src/game/tetris.cpp:109-112 | the collision test of a step never reads above the board |
| SrcTetris.Initial | src/game/tetris.cpp:81-88 | the statics at boot are consistent: START, the I piece at (3, 0), level 1 with `level == full_lines / 10 + 1` |
| SrcTetris.PieceIndex | src/game/tetris.cpp:142 | `(rand() & 0x7FFF) % 7` is always a piece index |
| SrcTetris.PieceIndexCovers | src/game/tetris.cpp:142 | every piece is reachable, and only the low 15 bits of `rand()` matter |
| SrcTetris.LowBits | src/game/tetris.cpp:142 | masking with 0x7FFF ignores multiples of 0x8000 |
| SrcTetris.AfterNewPiece | src/game/tetris.cpp:141-171 | `new_piece` uses one `rand()` result, spawns the piece it names and changes nothing else |
| SrcTetris.Rescore | src/game/tetris.cpp:226-243 | the level and score updates leave `full_lines`, `time` and `frame_counter` alone and keep `frames_per_drop` a uint32 |
| SrcTetris.ClearRows | src/game/tetris.cpp:198-244 | the board is the sweep's board and `full_lines` grows by the number of rows removed |
| SrcTetris.RescoreScoring | src/game/tetris.cpp:226-243 | the level rises exactly when `full_lines / 10` passes `level - 1`; the score grows by the points for the row count times the new level |
| SrcTetris.CheckRowScoring | src/game/tetris.cpp:198-244 | the same for the whole of `check_row` |
| SrcTetris.LevelFollowsLines | src/game/tetris.cpp:226-230 | `level == full_lines / 10 + 1` is kept and the level never goes down |
| SrcTetris.AfterDrop | src/game/tetris.cpp:173-196 | `drop_piece` locks the piece in, spawns a random piece, clears rows, and ends the game exactly when the new piece collides at (3, 0) |
| SrcTetris.DropConservesCells | src/game/tetris.cpp:173-196 | after a drop, the blocks on the board plus 10 per line counted equal the blocks after locking |
| SrcTetris.AfterMove | src/game/tetris.cpp:113-124 | a step is taken unless the piece would collide; a blocked downward step drops the piece, any other blocked step changes nothing |
| SrcTetris.MoveBack | src/game/tetris.cpp:113-124 | a successful sideways step from a free position is undone by the opposite step |
| SrcTetris.I8Fixed | src/game/tetris.cpp:114-115 | adding 0 in int8 keeps the coordinate |
| SrcTetris.I8StepBack | src/game/tetris.cpp:114 | an int8 step of one and back returns the column |
| SrcTetris.AfterRotate | src/game/tetris.cpp:126-139 | the clockwise turn is kept exactly when it does not collide |
| SrcTetris.FourTurns | src/game/tetris.cpp:126-139 | four successful turns give the game back |
| SrcTetris.AboveNeverBlocks | src/game/tetris.cpp:98-106 | cells above the board, within its columns, never collide |
| SrcTetris.AfterStartKey | src/game/tetris.cpp:278-280 | space only turns START into ACTIVE; it serves no piece |
| SrcTetris.AfterPauseKey | src/game/tetris.cpp:284-286 | P turns PAUSED into ACTIVE and any other state into PAUSED, changing nothing else |
| SrcTetris.PauseTwice | src/game/tetris.cpp:284-286 | pressing P twice restores ACTIVE or PAUSED, but turns START or GAME OVER into ACTIVE |
| SrcTetris.AfterRestart | src/game/tetris.cpp:385-394 | restart returns to START with a clear board and zeroed counters at level 1, keeps `frame_counter` and `frames_per_drop`, and spawns a random piece |
| SrcTetris.KeyCommand | src/game/tetris.cpp:263-289 | every byte with the release bit set is ignored; the only steps are down, left and right by one |
| SrcTetris.Apply | src/game/tetris.cpp:263-289 | every command keeps the game consistent |
| SrcTetris.SpaceOnlyStarts | src/game/tetris.cpp:278-280 | space never changes the piece and escape, which has no case here, does nothing |
| SrcTetris.Fall | src/game/tetris.cpp:252-256 | a gravity step keeps the game consistent |
| SrcTetris.AfterUpdate | src/game/tetris.cpp:246-261 | frames only count in ACTIVE; a due frame moves the piece down, restarts the frame count at 1 and adds a second |
| SrcTetris.Frames | src/game/tetris.cpp:246-261 | any number of frames keeps the game consistent |
| SrcTetris.UpdateCounts | src/game/tetris.cpp:252-260 | a frame before the drop is due only increments the counter |
| SrcTetris.GravityWaits | src/game/tetris.cpp:252-260 | until `frame_counter` reaches `frames_per_drop`, frames only count |
| SrcTetris.DropKeepsLevel | src/game/tetris.cpp:173-244 | a drop keeps the level rule and never lowers the score |
| SrcTetris.KeyKeepsLevel | src/game/tetris.cpp:263-289 | every key keeps the level rule, and only restart lowers the score |
| SrcTetris.FrameKeepsLevel | src/game/tetris.cpp:246-261 | every frame keeps the level rule and never lowers the score |
| SrcTetris.Game.constructor | src/game/tetris.cpp:81-88 | the statics start as `Initial` |
| SrcTetris.Game.Collides | src/game/tetris.cpp:90-111 | the result is whether some occupied mask cell is off the board sideways, below it, or on a filled cell of a row in range |
| SrcTetris.Game.NewPiece | src/game/tetris.cpp:141-171 | the game becomes `AfterNewPiece` of the old game |
| SrcTetris.Game.SweepRows | src/game/tetris.cpp:199-224 | the board and row count are the sweep's, and `full_lines` grows by that count |
| SrcTetris.Game.ApplyScore | src/game/tetris.cpp:226-243 | the counters become `Rescore` of the old counters |
| SrcTetris.Game.CheckRow | src/game/tetris.cpp:198-244 | board and counters become `ClearRows` of the old ones |
| SrcTetris.Game.DropPiece | src/game/tetris.cpp:173-196 | the game becomes `AfterDrop` of the old game |
| SrcTetris.Game.Move | src/game/tetris.cpp:113-124 | the game becomes `AfterMove` of the old game |
| SrcTetris.Game.Rotate | src/game/tetris.cpp:126-139 | the game becomes `AfterRotate` of the old game |
| SrcTetris.Game.Update | src/game/tetris.cpp:246-261 | the game becomes `AfterUpdate` of the old game |
| SrcTetris.Game.HandleKey | src/game/tetris.cpp:263-289 | the game becomes `Apply` of the byte's command |
| SrcTetris.Game.Restart | src/game/tetris.cpp:385-394 | the game becomes `AfterRestart` of the old game |
| KernelPic.HandleCalls | kernel/src/driver/pic.cpp:22-32 | the spurious vector 255 does nothing; otherwise the handler runs, first, exactly when the vector is 32..47 and a handler is installed |
| KernelPic.HandleEois | kernel/src/driver/pic.cpp:34-38 | every other vector gets exactly one master EOI, an APIC EOI exactly when the APIC is on, and never a slave EOI |
| KernelPic.CallsAppend | kernel/src/driver/pic.cpp:22-39 | the handler calls of two effect sequences add up |
| KernelPic.BitOf | kernel/src/driver/pic.cpp:63 | `1 << k` contributes nothing to a byte for k of 8 and more |
| KernelPic.BitUpdates | kernel/src/driver/pic.cpp:53-77 | clearing or setting bit k of a mask changes bit k and no other |
| KernelPic.MaskThenUnmask | kernel/src/driver/pic.cpp:53-77 | masking then unmasking a line leaves it unmasked, and restores the register when it was unmasked before |
| KernelPic.MaskIndex | kernel/src/driver/pic.cpp:56-61 | the bit index is `irq` on the master and `irq - 8` on the slave |
| KernelPic.Icws | kernel/src/driver/pic.cpp:83-99 | the initialisation program is eight writes |
| KernelPic.Program | kernel/src/driver/pic.cpp:79-106 | `remap`'s whole program is ten writes |
| KernelPic.Waited | kernel/src/driver/pic.cpp:18-20 | each controller write is followed by one `io_wait` write |
| KernelPic.WaitsInterleave | kernel/src/driver/pic.cpp:18-20 | removing the `io_wait` writes gives the controller writes back, and every second write is the `io_wait` |
| KernelPic.Pic.constructor | kernel/src/driver/pic.cpp:7 | no handlers and no gates installed |
| KernelPic.Pic.InstallHandler | kernel/src/driver/pic.cpp:10-12 | only entry `irq` changes, to the handler |
| KernelPic.Pic.UninstallHandler | kernel/src/driver/pic.cpp:14-16 | only entry `irq` changes, to none |
| KernelPic.Pic.Handle | kernel/src/driver/pic.cpp:22-39 | the effects are `HandleEvents`; only the master command port is written, and not at all for vector 255 |
| KernelPic.Pic.UnmaskIrq | kernel/src/driver/pic.cpp:53-64 | the line's mask port is rewritten with the line's bit cleared |
| KernelPic.Pic.MaskIrq | kernel/src/driver/pic.cpp:66-77 | the line's mask port is rewritten with the line's bit set |
| KernelPic.Pic.OutWait | kernel/src/driver/pic.cpp:83-84 | one controller write followed by the `io_wait` write |
| KernelPic.Pic.OutWaitPair | kernel/src/driver/pic.cpp:83-86 | two controller writes, each followed by `io_wait` |
| KernelPic.Pic.Remap | kernel/src/driver/pic.cpp:79-107 | the program is sent with waits; the master mask ends as the saved one with IRQ0 unmasked, the slave mask as saved |
| KernelPic.Pic.SendIcws | kernel/src/driver/pic.cpp:83-99 | the eight initialisation words, each followed by `io_wait` |
| KernelPic.Pic.Disable | kernel/src/driver/pic.cpp:109-112 | both masks become 0xFF, masking every line |
| KernelPic.Pic.Init | kernel/src/driver/pic.cpp:42-51 | vectors 32..47 and 255 get gates; IRQ0 and IRQ1 end unmasked, every other line keeps its old mask bit |
| KernelPic.Pic.InstallGates | kernel/src/driver/pic.cpp:46-50 | gates 32..47 point at stubs 0..15 and gate 255 at stub 15, all with flags 0x8E |
| KernelPic.UnionUpdate | kernel/src/driver/pic.cpp:48 | installing one more gate commutes with the gates installed before the loop |
| KernelPic.GatesBelow | kernel/src/driver/pic.cpp:46-49 | the first n loop iterations install exactly vectors 32..32+n-1, each at its stub |
| KernelPic.IrqGates | kernel/src/driver/pic.cpp:46-50 | exactly vectors 32..47 and 255, stub 15 for the spurious vector |
| KernelIrq.RemapWrites | kernel/src/arch/x86_64/irq.cpp:16-27 | ten writes |
| KernelIrq.Outs | kernel/src/arch/x86_64/irq.cpp:16-27 | one port write event per write, in order |
| KernelIrq.RemapOuts | kernel/src/arch/x86_64/irq.cpp:17-26 | the writes as bus events, spelled out |
| KernelIrq.RemapIsPicRemap | kernel/src/arch/x86_64/irq.cpp:16-27 | the writes are `pic::remap`'s initialisation words with ICW1 0x11, ICW4 0x01 and cascade line 2, followed by two zero masks |
| KernelIrq.HandleSpec | kernel/src/arch/x86_64/irq.cpp:38-46 | the handler, if installed, runs first; the slave is acknowledged exactly for vectors 40..47, before the master; the master exactly once, last |
| KernelIrq.Irq.constructor | kernel/src/arch/x86_64/irq.cpp:4 | no handlers and no gates installed |
| KernelIrq.Irq.InstallHandler | kernel/src/arch/x86_64/irq.cpp:7-9 | only entry `irq` changes, to the handler |
| KernelIrq.Irq.UninstallHandler | kernel/src/arch/x86_64/irq.cpp:11-13 | only entry `irq` changes, to none |
| KernelIrq.Irq.Remap | kernel/src/arch/x86_64/irq.cpp:16-27 | the ten writes in order, leaving both masks zero |
| KernelIrq.Irq.Init | kernel/src/arch/x86_64/irq.cpp:29-36 | gates 32..47 are installed and every line ends unmasked |
| KernelIrq.Irq.InstallGates | kernel/src/arch/x86_64/irq.cpp:32-35 | gates 32..47 point at stubs 0..15 with flags 0x8E |
| KernelIrq.Irq.Handle | kernel/src/arch/x86_64/irq.cpp:38-46 | the effects are `HandleEvents` |
| KernelSound.DivisorBytes | kernel/src/driver/sound.cpp:12-13 | the low and high bytes written rebuild the divisor modulo 2^16, and exactly when it fits 16 bits |
| KernelSound.Divisor | kernel/src/driver/sound.cpp:9 | `PIT_FREQUENCY / frequency` fits 16 bits for frequencies from 19 Hz up |
| KernelSound.SpeakerGate | kernel/src/driver/sound.cpp:15-22 | switching on sets the two gate bits and keeps the rest; switching off clears them and keeps the rest; an open gate is left as it is |
| KernelSound.BeepLastsTenTicks | kernel/src/driver/sound.cpp:25-37 | a beep started at tick `start` is active at a later tick exactly when that tick is below `start + 10` |
| KernelSound.BeepOutlivesWrap | kernel/src/driver/sound.cpp:29 | when `timer_ticks + 10` overflows the `int` end tick, the beep is never stopped |
| KernelSound.BeepIdempotent | kernel/src/driver/sound.cpp:25-37 | a second beep while one is active changes nothing, and ticks leave an inactive beeper alone |
| KernelSound.Sound.constructor | kernel/src/driver/sound.cpp:5-6 | no beep active, end tick 0 |
| KernelSound.Sound.Play | kernel/src/driver/sound.cpp:8-18 | the PIT channel 2 programming, then the gate write only when the gate was not fully open; the gate ends open |
| KernelSound.Sound.Stop | kernel/src/driver/sound.cpp:20-23 | one write that closes the gate and keeps the other bits |
| KernelSound.Sound.Beep | kernel/src/driver/sound.cpp:25-31 | the beeper becomes `AfterBeep`; a 300 Hz tone is programmed only when no beep was active |
| KernelSound.Sound.Tick | kernel/src/driver/sound.cpp:33-38 | the beeper becomes `AfterTick`; the speaker is switched off exactly when an active beep has expired |
| KernelTimer.SetPitReload | kernel/src/driver/timer.cpp:19-29 | the two data bytes carry the divisor modulo 2^16; at 100 Hz it is 11931 |
| KernelTimer.WaitEnds | kernel/src/driver/timer.cpp:35-41 | within 2^31 ticks of the start, the loop keeps halting exactly until `ticks` ticks have passed |
| KernelTimer.SameI32 | kernel/src/driver/timer.cpp:37 | the int32 cast of a wrapped difference is the true difference when that fits |
| KernelTimer.AddMultiples | kernel/src/driver/timer.cpp:36-37 | wrap-arounds add up |
| KernelTimer.MsTicks | kernel/src/driver/timer.cpp:43-45 | `ms / 10` is the number of whole 10 ms ticks in `ms` |
| KernelTimer.Timer.constructor | kernel/include/driver/timer.hpp:8 | the tick count starts at 0 |
| KernelTimer.Timer.Handler | kernel/src/driver/timer.cpp:8-12 | the 64-bit tick count grows by one, wrapping, and the beeper ticks |
| KernelTimer.Timer.SetPit | kernel/src/driver/timer.cpp:19-29 | the mode byte 0x36 and the divisor's two bytes go to the PIT |
| KernelTimer.Timer.Init | kernel/src/driver/timer.cpp:14-17 | only handler 0 is installed, then the PIT is programmed |
| KernelTimer.Timer.Wait | kernel/src/driver/timer.cpp:35-41 | the loop halts until the first tick reading at which the wrapped int32 difference is no longer positive |
| KernelTimer.Timer.WaitMs | kernel/src/driver/timer.cpp:43-45 | the same wait for `ms / 10` ticks |
| KernelTimer.WaitHaltsTicks | kernel/src/driver/timer.cpp:35-41 | with one tick per halt, the loop halts exactly `ticks` times |
| ColorUtils.Clamp8 | kernel/include/tetris/color_utils.hpp:5-9 | the result lies in 0..255: below 0 gives 0, above 255 gives 255, and in-range values are kept |
| ColorUtils.PackChannels | kernel/include/tetris/color_utils.hpp:18 | packing three channels of 0..255 gives a 24-bit colour whose red, green and blue channels are those three |
| ColorUtils.ChannelsPack | kernel/include/tetris/color_utils.hpp:12-14 | splitting a uint32 colour into channels and packing them again gives its low 24 bits |
| ColorUtils.HighBits | kernel/include/tetris/color_utils.hpp:12 | `c >> 16` is `c >> 8` shifted by 8 again |
| ColorUtils.LowBits | kernel/include/tetris/color_utils.hpp:12-14 | the low 24 bits of a colour are its three low bytes |
| ColorUtils.LightenChannelBounds | kernel/include/tetris/color_utils.hpp:15-17 | a lightened channel is no darker than before, is 255 from 100% on, and is unchanged at 0% |
| ColorUtils.DarkenChannelBounds | kernel/include/tetris/color_utils.hpp:25-27 | a darkened channel is no brighter than before, is 0 from 100% on (the negative product clamps to 0), and is unchanged at 0% |
| ColorUtils.LightenSpec | kernel/include/tetris/color_utils.hpp:11-19 | `lighten_color` gives a 24-bit colour with no channel darker than the input's; white from 100% on; the input's low 24 bits at 0% |
| ColorUtils.DarkenSpec | kernel/include/tetris/color_utils.hpp:21-29 | `darken_color` gives a 24-bit colour with no channel brighter than the input's; black from 100% on; the input's low 24 bits at 0% |
| ColorUtils.PackBelow | kernel/include/tetris/color_utils.hpp:28 | channels bounded by the input's pack into a colour carrying exactly those channels |
| KernelRand.Step | kernel/src/lib/rand.cpp:8 | the next state stays a 64-bit value: the product and sum wrap modulo 2^64 |
| KernelRand.OutputBounds | kernel/src/lib/rand.cpp:9 | `rand()` lies strictly between `-RAND_MAX` and `RAND_MAX`, taking the sign of the truncated `int` it reduces |
| KernelRand.NegativeOutput | kernel/src/lib/rand.cpp:9 | a state whose bits 16..47 are all ones makes `rand()` return -1: the narrowing to `int` can go negative |
| KernelRand.FirstRoll | kernel/src/lib/rand.cpp:5-9 | from the initial state 1 the first `rand()` is 16838 |
| KernelRand.Rand.constructor | kernel/src/lib/rand.cpp:5 | the state starts at 1 |
| KernelRand.Rand.Next | kernel/src/lib/rand.cpp:7-10 | the state advances by one step and the result is the reduced high bits of the new state |
| KernelRand.Rand.Seed | kernel/src/lib/rand.cpp:12-14 | the state becomes the seed |
| ByteCopy.CopiedNothing | kernel/src/memory/mem.cpp:27-36 | copying a region onto itself, or copying nothing, leaves memory as it was |
| ByteCopy.SmearedSafe | kernel/src/memory/mem.cpp:15 | when the destination starts at or below the source, or after its end, the low-to-high loop is a true copy: the destination holds the old source bytes and nothing else changes |
| ByteCopy.SmearedPrefix | kernel/src/memory/mem.cpp:15 | in that case each of the first `i` steps stores an original source byte, and every byte outside the first `i` destination bytes is as it was |
| ByteCopy.SmearedOverlap | kernel/src/memory/mem.cpp:15 | a destination one byte above its source repeats the first source byte: `[1, 2, 3]` becomes `[1, 1, 1]`, not the copy `[1, 1, 2]` |
| ByteCopy.CopyForward | kernel/src/memory/mem.cpp:15 | for any overlap, the loop leaves memory as `Smeared`: each step stores the byte the source address holds at that moment |
| ByteCopy.CopyBackward | kernel/src/memory/mem.cpp:33 | when the destination starts at or above the source, or ends before it, the high-to-low loop leaves the destination holding the old source bytes and every other byte unchanged |
| ByteCopy.Fill | kernel/src/memory/mem.cpp:21-23 | the `n` bytes at the destination become the value and every other byte is unchanged |
| KernelMem.Memcpy | kernel/src/memory/mem.cpp:12-17 | the low-to-high loop writes at `hhdm + dst`: memory becomes `Smeared`, a true copy of the old source bytes whenever the destination does not overlap the source from above; the rest is unchanged and `dst` is returned |
| KernelMem.Memset | kernel/src/memory/mem.cpp:19-25 | the `count` bytes at `hhdm + dst` become the value, the rest is unchanged, and `dst` is returned |
| KernelMem.Memmove | kernel/src/memory/mem.cpp:27-36 | for any overlap, the destination ends up holding the old source bytes and the rest is unchanged: the loop direction follows `dst < src` |
| KernelMem.WordUp | kernel/src/memory/mem.cpp:88 | one 8-byte store advances a low-to-high copy by eight bytes |
| KernelMem.WordDown | kernel/src/memory/mem.cpp:137 | one 8-byte store moves a high-to-low copy back by eight bytes |
| KernelMem.ShiftIn | kernel/src/memory/mem.cpp:167 | shifting the pattern left by 8 and or-ing in `val` puts `val` in the lowest byte and moves every other byte up one place |
| KernelMem.Pattern | kernel/src/memory/mem.cpp:165-168 | after eight shifts every byte of the pattern word is `val` |
| KernelMem.WordFill | kernel/src/memory/mem.cpp:181 | storing the pattern word advances a fill by eight bytes |
| KernelMem.MemcpyFast | kernel/src/memory/mem.cpp:64-100 | nothing changes for an empty or self copy; under 32 bytes it is `memcpy`, through the higher-half offset and smearing on overlap; otherwise the destination holds the old source bytes |
| KernelMem.CopyForwardAlign | kernel/src/memory/mem.cpp:40-49 | bytes are copied one by one until the destination is 8-byte aligned or nothing remains |
| KernelMem.CopyForwardWords | kernel/src/memory/mem.cpp:75-92 | the 32-byte and 8-byte loops leave fewer than eight bytes to copy |
| KernelMem.CopyForwardTail | kernel/src/memory/mem.cpp:94-97 | the byte tail completes the copy |
| KernelMem.MemmoveFast | kernel/src/memory/mem.cpp:102-149 | nothing changes for an empty or self move; below the source it is `memcpy_fast`; under 32 bytes it is `memmove`; otherwise a high-to-low copy leaves the destination holding the old source bytes |
| KernelMem.CopyBackwardAlign | kernel/src/memory/mem.cpp:51-62 | bytes are copied downward until the destination end is 8-byte aligned or nothing remains |
| KernelMem.CopyBackwardWords | kernel/src/memory/mem.cpp:122-139 | the 32-byte and 8-byte loops, highest first, leave fewer than eight bytes |
| KernelMem.CopyBackwardTail | kernel/src/memory/mem.cpp:141-146 | the byte tail completes the backward copy |
| KernelMem.MemsetFast | kernel/src/memory/mem.cpp:151-192 | nothing changes for a zero count; under 32 bytes it is `memset`, through the higher-half offset; otherwise the `n` bytes become the value |
| KernelMem.FillAlign | kernel/src/memory/mem.cpp:158-162 | bytes are set until the destination is 8-byte aligned or nothing remains |
| KernelMem.FillWords | kernel/src/memory/mem.cpp:170-184 | the 32-byte and 8-byte pattern stores leave fewer than eight bytes |
| KernelMem.FillTail | kernel/src/memory/mem.cpp:186-190 | the byte tail completes the fill |
| KernelHeap.MaskRoundsDown | kernel/src/memory/mem.cpp:202 | for the alignment 8, clearing the low three bits of a 64-bit value subtracts its remainder modulo 8 |
| KernelHeap.AlignUpSpec | kernel/src/memory/mem.cpp:201-203 | for every power-of-two alignment, without wrap-around, `align_up(v, align)` is the least multiple of `align` at or above `v` |
| KernelHeap.AlignUpWraps | kernel/src/memory/mem.cpp:202 | for every power-of-two alignment, when `v + align - 1` passes 2^64 the sum wraps and `align_up` returns 0 |
| KernelHeap.MallocSpec | kernel/src/memory/mem.cpp:205-217 | null exactly for a zero size; a panic exactly when the aligned block would pass the end of the buffer; otherwise an 8-aligned block at or after the heap pointer, within the buffer, after which the pointer sits at the block's end plus `hhdm_offset` |
| KernelHeap.MallocDisjoint | kernel/src/memory/mem.cpp:205-217 | two successive blocks do not overlap |
| KernelHeap.MallocKeepsPointerInBuffer | kernel/src/memory/mem.cpp:194-199 | with a zero offset the heap pointer never leaves the 16 MiB buffer |
| KernelHeap.MallocHugeRequest | kernel/src/memory/mem.cpp:208-215 | a size within 7 of 2^64 aligns to 0 and is handed a block at the aligned pointer instead of panicking |
| KernelHeap.Heap.constructor | kernel/src/memory/mem.cpp:194-199 | the heap pointer starts at the buffer and the end is 16 MiB later |
| KernelHeap.Heap.Allocate | kernel/src/memory/mem.cpp:205-217 | the result and the new heap pointer are those of `Malloc` on the old pointer |
| KernelHeap.Heap.Reallocate | kernel/src/memory/mem.cpp:224-229 | always null |
| SrcMem.AlignRoundsUp | src/lib/mem.cpp:20-22 | `align(n)` is the kernel's `align_up(n, 8)`: the least multiple of 8 at or above `n` |
| SrcMem.Memcpy | src/lib/mem.cpp:25-30 | memory becomes `Smeared`: a true copy of the old source bytes whenever the destination does not overlap the source from above; the rest is unchanged and `dst` is returned |
| SrcMem.Memset | src/lib/mem.cpp:32-38 | the `count` bytes at `dest` become the value, the rest is unchanged, and `dest` is returned |
| SrcMem.Memmove | src/lib/mem.cpp:40-49 | for any overlap the destination holds the old source bytes and the rest is unchanged |
| SrcMem.Malloc | src/lib/mem.cpp:51-55 | always null, for a zero size and otherwise |
| SrcMem.Realloc | src/lib/mem.cpp:63-68 | always null |
| KernelString.Len | kernel/src/lib/string.cpp:3-7 | the length is the index of the first NUL: a NUL sits there and none before it |
| KernelString.CString | kernel/src/lib/string.cpp:3-7 | the characters of a C string are the prefix before its first NUL, and hold no NUL |
| KernelString.LenAt | kernel/src/lib/string.cpp:5 | a NUL with no NUL before it is where `strlen` stops |
| KernelString.Strlen | kernel/src/lib/string.cpp:3-7 | the loop returns the index of the first NUL |
| KernelString.StrcpyTerminator | kernel/src/lib/string.cpp:9-15 | the source's characters land at the front of the destination and the byte after them is left as it was, so the destination reads as the source string exactly when that byte already was a NUL |
| KernelString.Strcpy | kernel/src/lib/string.cpp:9-15 | the destination becomes the source's old characters followed by its own old tail, and is returned; the two may be the same array |
| KernelString.StrcatSpec | kernel/src/lib/string.cpp:17-20 | appending an empty string changes nothing; otherwise only the source's first character replaces the destination's NUL, so the result is the concatenation exactly when the source has at most one character |
| KernelString.Strcat | kernel/src/lib/string.cpp:17-20 | the destination's terminator is overwritten by the source's first character, nothing else changes, and the destination is returned; the two may be the same array |
| KernelString.Strncat | kernel/src/lib/string.cpp:22-24 | nothing is written; the pointer returned lies `count` characters before the destination's NUL, before the array itself exactly when `count` exceeds the string's length |
| KernelGdt.Gate | kernel/src/arch/x86_64/gdt.cpp:24-43 | every field of the descriptor fits its declared width |
| KernelGdt.GateRoundTrip | kernel/src/arch/x86_64/gdt.cpp:32-42 | the descriptor keeps the base's low 32 bits, the limit's low 20 bits, the high nibble of `gran` as its flags and `access` as given |
| KernelGdt.SplitBase | kernel/src/arch/x86_64/gdt.cpp:32-34 | the three base fields put back together give the base modulo 2^32 |
| KernelGdt.SplitLimit | kernel/src/arch/x86_64/gdt.cpp:37-38 | the two limit fields put back together give the limit modulo 2^20 |
| KernelGdt.InitialNullEntry | kernel/src/arch/x86_64/gdt.cpp:56 | entry 0 is all zeros |
| KernelGdt.InitialCodeEntry | kernel/src/arch/x86_64/gdt.cpp:62 | entry 1 has access 0x9A and flags 0xA (long mode), with base and limit zero |
| KernelGdt.InitialDataEntry | kernel/src/arch/x86_64/gdt.cpp:67 | entry 2 has access 0x92 and no flags |
| KernelGdt.ZeroGate | kernel/src/arch/x86_64/gdt.cpp:24-43 | a zero base, limit and granularity give a descriptor that is zero except for its access byte |
| KernelGdt.Gdt.constructor | kernel/src/arch/x86_64/gdt.cpp:18-19 | a table of three entries at the given address |
| KernelGdt.Gdt.SetGate | kernel/src/arch/x86_64/gdt.cpp:24-43 | entry `num` becomes the packed descriptor and no other entry changes |
| KernelGdt.Gdt.Init | kernel/src/arch/x86_64/gdt.cpp:50-68 | the pointer's limit is 23 and its base the table's address, and the three entries are the null, code and data descriptors |
| SrcIdt.Gate | src/arch/x86_64/idt.cpp:10-20 | every field of the gate fits its declared width |
| SrcIdt.GateRoundTrip | src/arch/x86_64/idt.cpp:13-19 | the three handler fields put back together give the whole 64-bit handler address; the selector is 0x08, the IST 0, the attributes `flags` and the reserved word 0 |
| SrcIdt.GateInjective | src/arch/x86_64/idt.cpp:13-17 | two gates with the same flags are equal exactly when their handler addresses are |
| SrcIdt.Idt.constructor | src/arch/x86_64/idt.cpp:6-8 | a table of 256 entries at the given address |
| SrcIdt.Idt.SetGate | src/arch/x86_64/idt.cpp:10-20 | entry `num` becomes the gate and no other entry changes |
| SrcIdt.Idt.Init | src/arch/x86_64/idt.cpp:22-28 | the pointer's limit is 4095 and its base the table's address, and every entry is cleared to zero |
| KernelPci.AddressFields | kernel/src/driver/pci.cpp:84-89 | the address carries the bus in bits 16-23, the slot in bits 11-15, the function in bits 8-10, the dword-aligned offset in the low byte, zeros in bits 24-30 and the enable bit 31 |
| KernelPci.AddressInjective | kernel/src/driver/pci.cpp:84-89 | for slots below 32 and functions below 8, two addresses are equal exactly when bus, slot, function and dword offset are |
| KernelPci.SameAddress | kernel/src/driver/pci.cpp:84-89 | equal addresses name the same bus, slot, function and dword |
| KernelPci.OffsetDword | kernel/src/driver/pci.cpp:89 | masking the offset before or after widening it to 32 bits gives the same dword |
| KernelPci.WideSlotAliases | kernel/src/driver/pci.cpp:87 | a slot of 32 overflows into the bus field: slot 32 of bus 0 reads bus 1, slot 0 |
| KernelPci.WordsOfDword | kernel/src/driver/pci.cpp:94-98 | the 16-bit reads at offsets `o` and `o + 2` are the low and high halves of the dword at `o` |
| KernelPci.RegisterBytes | kernel/src/driver/pci.cpp:108-123 | the header type is byte 0x0E, the class code byte 0x0B, and the vendor/device pair the dword at offset 0 |
| KernelPci.HeaderTypeByte | kernel/src/driver/pci.cpp:108-112 | the header type is configuration byte 0x0E |
| KernelPci.ClassCodeByte | kernel/src/driver/pci.cpp:120-123 | the class code is configuration byte 0x0B |
| KernelPci.First | kernel/src/driver/pci.cpp:63-82 | the index found is the first entry with the key, and there is none exactly when no entry has it |
| KernelPci.Lookup | kernel/src/driver/pci.cpp:70-75 | the table loop returns the first entry with the key, or none |
| KernelPci.ClassTableIndexed | kernel/src/driver/pci.cpp:45-61 | class codes 0x00-0x0E name entry `code` of the class table and any other code names nothing |
| KernelPci.FirstIndexed | kernel/src/driver/pci.cpp:77-82 | in a table whose entry `i` has key `i`, a key is found exactly when it is an index, at that index |
| KernelPci.MaxFunctions | kernel/src/driver/pci.cpp:130-131 | a slot has 8 functions when bit 7 of function 0's header type is set, and 1 otherwise |
| KernelPci.SlotDevicesExactly | kernel/src/driver/pci.cpp:133-156 | a slot's records are exactly the present functions below the slot's function count |
| KernelPci.BusDevicesExactly | kernel/src/driver/pci.cpp:129-156 | a bus's records are exactly the probed present functions of its first `s` slots |
| KernelPci.AllDevicesExactly | kernel/src/driver/pci.cpp:128-156 | the records of the first `b` buses are exactly the probed present functions on them |
| KernelPci.FoundExactly | kernel/src/driver/pci.cpp:125-170 | a device is recorded exactly when it is a present function, with vendor id other than 0xFFFF, of a function the scan probes |
| KernelPci.SingleFunctionSlot | kernel/src/driver/pci.cpp:131 | when bit 7 of the header type is clear only function 0 is probed |
| KernelPci.StoredInOrder | kernel/src/driver/pci.cpp:156 | while the count has not wrapped, record `j` lands at `start + j` and every other entry keeps its old value |
| KernelPci.StoredWraps | kernel/src/driver/pci.cpp:13 | the 257th record wraps the `uint8_t` count and overwrites entry 0 |
| KernelPci.Pci.constructor | kernel/src/driver/pci.cpp:12-13 | a table of 256 blank records and a count of 0 |
| KernelPci.Pci.Record | kernel/src/driver/pci.cpp:156 | the record is stored at the count, which grows by one modulo 256 |
| KernelPci.Pci.ScanSlot | kernel/src/driver/pci.cpp:130-167 | the records appended are the slot's present functions in order |
| KernelPci.Pci.ScanFunction | kernel/src/driver/pci.cpp:134-156 | a function whose vendor id reads 0xFFFF is skipped, any other is recorded |
| KernelPci.Pci.ScanBus | kernel/src/driver/pci.cpp:129-168 | the records appended are the bus's devices, slot by slot |
| KernelPci.Pci.EnumerateBusses | kernel/src/driver/pci.cpp:125-170 | the records found are exactly `Found`, stored from the old count on, wrapping at 256 |
| KernelPci.Pci.ScanBusses | kernel/src/driver/pci.cpp:128-169 | the bus loop appends the devices of all 256 buses in order |
| KernelApi.GetRsdpSpec | kernel/src/kernel/kernel_api.cpp:6-22 | a null out-pointer is an invalid argument and a missing response is not found, storing nothing; success stores a 64-bit address no larger than the bootloader's, less the HHDM offset exactly when there is one and the address is not below it |
| KernelApi.PageMask | kernel/src/kernel/kernel_api.cpp:32 | clearing the low twelve bits of a 64-bit value subtracts its remainder modulo 4096 |
| KernelApi.MapSpec | kernel/src/kernel/kernel_api.cpp:24-37 | null exactly without an HHDM response; an address below the offset maps to offset plus address modulo 2^64; one at or above it maps to itself |
| KernelApi.U64Sum | kernel/src/kernel/kernel_api.cpp:35-36 | wrapping `hhdm + page` before adding the in-page offset gives the same 64-bit sum |
| KernelApi.MapRoundTrips | kernel/src/kernel/kernel_api.cpp:6-37 | the stored RSDP address maps back to the bootloader's address when the physical address lies below the offset, and a mapped address maps to itself again |
| Numerals.DigitRoundTrip | kernel/src/lib/format.cpp:82-85 | the character written for a digit value t below 16 (t + '0', or letbase + t - 10 from ten on) reads back as t |
| Numerals.DigitsValue | kernel/src/lib/format.cpp:81-87 | the characters the `while (u)` loop prepends, most significant first, read back in the base as exactly u |
| Numerals.DigitsInCase | kernel/src/lib/format.cpp:82-85 | every digit is below the base and its letters are in the case letbase selects |
| Numerals.DigitsLead | kernel/src/lib/format.cpp:81-87 | the loop emits at least one digit exactly when u is positive, and the first one is never '0' |
| Numerals.NumeralSpec | kernel/src/lib/format.cpp:67-87 | the numeral printed for n (a lone '0' for zero, the digit loop otherwise) is non-empty, in case, and reads back as n |
| Numerals.DigitLoop | kernel/src/lib/format.cpp:81-87 | the loop `t = u % base; *--s = digit(t); u /= base` leaves exactly the digit string of u in the buffer |
| VarArgs.Bits | kernel/src/lib/format.cpp:106-118 | an argument slot read as an integer is a 64-bit unsigned pattern, for an integer or a pointer alike |
| VarArgs.Signed | kernel/src/lib/format.cpp:106-118 | reading the slot through the union's int8/int16/int32/int64 member gives a value within the signed 64-bit range |
| VarArgs.Unsigned | kernel/src/lib/format.cpp:106-118 | reading the slot through the union's uint8/uint16/uint32/uint64 member gives a value within the unsigned 64-bit range |
| VarArgs.CStr | kernel/src/lib/format.cpp:40-43 | the characters `for (; *string; ++string)` visits are the prefix before the first NUL, which then follows it, or all of them when there is none |
| VarArgs.CStrNoNul | kernel/src/lib/format.cpp:40-43 | a string with no NUL is printed whole |
| VarArgs.Decimal | kernel/src/lib/format.cpp:140-143 | the width digits end at a non-digit within the format, and a width read from digits is never negative |
| VarArgs.ScanDecimal | kernel/src/lib/format.cpp:140-143 | the loop `width *= 10; width += *format - '0'` computes exactly the decimal value of the digit run and stops on the first non-digit |
| KernelFormat.Repeat | kernel/src/lib/format.cpp:35-38 | a pad run of n is n copies of the pad character, and nothing when n is not positive |
| KernelFormat.PaddedSpec | kernel/src/lib/format.cpp:24-50 | `prints` emits exactly max(width, length) characters: the string once, at the left end for PAD_RIGHT and at the right end otherwise, every other character '0' under PAD_ZERO and ' ' without it |
| KernelFormat.Prints | kernel/src/lib/format.cpp:24-50 | the three loops of `prints` emit exactly the padded string and return its length |
| KernelFormat.StrLen | kernel/src/lib/format.cpp:28-29 | the counting loop yields the length of the C string |
| KernelFormat.PadLoop | kernel/src/lib/format.cpp:35-38 | `for (; width > 0; --width)` emits width pad characters and leaves width at zero when it was positive, unchanged otherwise |
| KernelFormat.CopyLoop | kernel/src/lib/format.cpp:40-43 | the copy loop emits the C string's characters up to the NUL |
| KernelFormat.PaddedNoMinus | kernel/src/lib/format.cpp:24-50 | padding adds only ' ' or '0', so it never brings a '-' into a string that has none |
| KernelFormat.NegativeBody | kernel/src/lib/format.cpp:89-99 | a negative number without zero padding prints '-' and its digits padded to the width |
| KernelFormat.FormattedSpec | kernel/src/lib/format.cpp:54-100 | `simple_outputi` prints the magnitude's numeral, with a '-' exactly for a signed base-10 negative value, filled to the width; with a width and PAD_ZERO the '-' comes first, before the zeros |
| KernelFormat.OutputI | kernel/src/lib/format.cpp:54-100 | `simple_outputi` emits exactly the formatted number and returns how many characters it emitted |
| KernelFormat.Convert | kernel/src/lib/format.cpp:145-321 | a conversion that goes on moves past its last character, within the format, and consumes arguments only from those given |
| KernelFormat.Integer | kernel/src/lib/format.cpp:146-164 | an integer conversion consumes exactly one argument and goes on just after its conversion character |
| KernelFormat.Parse | kernel/src/lib/format.cpp:121-144 | after '%', '-' sets PAD_RIGHT, '0's set PAD_ZERO, '*' takes the width from an argument, otherwise digits give it; the conversion starts after them, the flags are a valid combination, and only '*' consumes an argument |
| KernelFormat.Directive | kernel/src/lib/format.cpp:120-127 | one pass of the loop moves strictly forward in the format and uses no argument it was not given |
| KernelFormat.Literals | kernel/src/lib/format.cpp:120-127 | a stretch with no '%' is copied character for character up to the terminator |
| KernelFormat.Unpadded | kernel/src/lib/format.cpp:24-50 | with no width and no flags `prints` emits the C string unchanged |
| KernelFormat.PlainText | kernel/src/lib/format.cpp:120-127 | a format with no '%' is emitted as it is, up to its NUL |
| KernelFormat.PercentPercent | kernel/src/lib/format.cpp:126-127 | "%%" emits one '%' and consumes no argument |
| KernelFormat.TrailingPercent | kernel/src/lib/format.cpp:124-125 | a '%' just before the terminator ends the output there |
| KernelFormat.MissingArgument | kernel/src/lib/format.cpp:146-164 | an integer conversion with no argument left is undefined behaviour |
| KernelFormat.Bare | kernel/src/lib/format.cpp:121-145 | a '%' followed by no flag, '*' or digit has width 0 and flags 0 and converts the next character |
| KernelFormat.IntegerConversion | kernel/src/lib/format.cpp:146-164 | "%d", "%u", "%x" and "%X" print the next argument as a 32-bit signed or unsigned value in base 10 or 16, in lower or upper case, then go on with the next argument |
| KernelFormat.PointerConversion | kernel/src/lib/format.cpp:195-198 | "%p" prints the next argument's 64 bits in upper-case hexadecimal |
| KernelFormat.NullText | kernel/src/lib/format.cpp:209 | the text printed for a null string is "(null)" |
| KernelFormat.NullString | kernel/src/lib/format.cpp:207-210 | "%s" with a null pointer prints "(null)" and consumes the argument |
| KernelFormat.StringConversion | kernel/src/lib/format.cpp:207-210 | "%s" prints the argument's C string; an integer argument that is not zero is not a string the call may read |
| KernelFormat.CharConversion | kernel/src/lib/format.cpp:200-205 | "%c" prints the argument's low byte, and nothing when that byte is NUL, since it goes through `prints` as a C string |
| KernelFormat.UnknownConversion | kernel/src/lib/format.cpp:319-320 | an unknown conversion character prints nothing and consumes no argument |
| KernelFormat.SizeWithoutConversion | kernel/src/lib/format.cpp:189-191 | "%z" not followed by d, u, x or X prints nothing and consumes no argument; the loop goes on at the character after the 'z' |
| KernelFormat.ConvertStep | kernel/src/lib/format.cpp:145-321 | the switch emits exactly the conversion's text and adds its length to the count |
| KernelFormat.IntegerStep | kernel/src/lib/format.cpp:146-164 | each integer case reads the argument at its size and emits its formatted text, counting its characters |
| KernelFormat.ParseStep | kernel/src/lib/format.cpp:121-144 | the flag and width parsing code reaches exactly the conversion position, width and flags the specification gives |
| KernelFormat.DirectiveStep | kernel/src/lib/format.cpp:120-326 | one pass of the loop body emits exactly one directive's text or one literal character |
| KernelFormat.VFormat | kernel/src/lib/format.cpp:102-329 | `vformat(out, format, ap)` emits exactly the text the format and arguments determine and returns its length |
| KernelHeapFormat.HeapVFormat | kernel/src/lib/format.cpp:331-348 | the heap `vformat` never returns null (malloc panics instead); it returns the NUL-terminated text, in an 8-byte-aligned block within the heap, after at most a retry with a block one longer than the text |
| SerialFormat.Modulus | src/driver/serial.cpp:159-173 | each union member a store can target spans a positive number of values: 2^8, 2^16, 2^32 or 2^64 |
| SerialFormat.Store | src/driver/serial.cpp:159-173 | storing into a member of the union sets that member's bytes to the argument's and leaves every byte above them as it was |
| SerialFormat.StoreBytes | src/driver/serial.cpp:159-173 | replacing the low bytes of a 64-bit union keeps it within 64 bits, the low part equal to the stored value and the high part unchanged |
| SerialFormat.Integer | src/driver/serial.cpp:201-219 | an integer conversion consumes exactly one argument, goes on just after its conversion character and leaves a 64-bit union |
| SerialFormat.Skip | src/driver/serial.cpp:345-346 | an unknown conversion emits nothing, consumes no argument and leaves the union alone |
| SerialFormat.Convert | src/driver/serial.cpp:200-347 | a conversion that goes on moves past its last character and consumes only arguments that were given |
| SerialFormat.Literals | src/driver/serial.cpp:175-182 | a stretch with no '%' is copied character for character up to the terminator |
| SerialFormat.PlainText | src/driver/serial.cpp:175-182 | a format with no '%' is sent as it is, up to its NUL |
| SerialFormat.PercentPercent | src/driver/serial.cpp:181-182 | "%%" sends one '%' and consumes no argument |
| SerialFormat.TrailingPercent | src/driver/serial.cpp:179-180 | a '%' just before the terminator ends the output |
| SerialFormat.NullString | src/driver/serial.cpp:233-236 | "%s" with a null pointer prints "(null)" |
| SerialFormat.PointerLow32 | src/driver/serial.cpp:221-224 | "%p" stores the 64-bit argument into the 32-bit `u.u` and so prints only its low 32 bits in upper-case hexadecimal |
| SerialFormat.NoSizeZ | src/driver/serial.cpp:345-346 | "%z" is no conversion here: it prints nothing, consumes no argument, and the letter after it is then copied as ordinary text |
| SerialFormat.StaleUnionBytes | src/driver/serial.cpp:299-302 | "%hu" stores the argument into the union's two low bytes and prints the whole union as `long long` |
| SerialFormat.StaleValue | src/driver/serial.cpp:299-302 | the value "%hu" prints agrees with the argument's low 16 bits, and differs from the argument as soon as an earlier conversion left upper bytes set |
| SerialFormat.IntegerConversion | src/driver/serial.cpp:201-219 | "%d", "%u", "%x" and "%X" print the argument as a 32-bit signed or unsigned value in base 10 or 16 and store it into the union's four low bytes |
| SerialFormat.I32OfU32 | src/driver/serial.cpp:202-203 | reading a value as `int` depends only on its low 32 bits |
| SerialFormat.StaleAfterNegative | src/driver/serial.cpp:201-203 | "%d%hu" with -1 and 5 prints "-1" and then 4294901765 (0xFFFF0005), not 5 |
| SerialFormat.IntegerStep | src/driver/serial.cpp:201-219 | each integer case stores the argument, prints the member it reads through `simple_outputi` and counts the characters |
| SerialFormat.ConvertStep | src/driver/serial.cpp:200-347 | the conversion `switch` emits exactly the conversion's text and leaves the union as the specification says |
| SerialFormat.VSprintf | src/driver/serial.cpp:155-355 | `simple_vsprintf` sends exactly the text the format, the arguments and the zeroed union determine, and returns its length |
| SrcFormat.BodyDigits | src/lib/format.cpp:46-58 | after at most one sign character, the digits `int_str` writes are digits of the base, in the digit table's case, and read back to the magnitude |
| SrcFormat.BodySign | src/lib/format.cpp:37-44 | the string starts with '-' exactly for a negative number, with '+' exactly for a non-negative one when asked, and with ' ' exactly for a non-negative one asked for a space but not a plus |
| SrcFormat.BodyChars | src/lib/format.cpp:36-58 | the sign and digits are never empty and hold no terminator |
| SrcFormat.IntStrSpec | src/lib/format.cpp:15-85 | `int_str` leaves a string of max(paddingNo, body length) characters: the body at the left when justified and at the right otherwise, the rest '0' or ' '; undefined exactly for the most negative `intmax_t` and for widths of 256 or more |
| SrcFormat.ZerosBeforeSign | src/lib/format.cpp:71-82 | right-justified zero padding goes before the sign: "%04d" of -5 gives "00-5" |
| SrcFormat.ZerosAfterDigits | src/lib/format.cpp:63-70 | left-justified zero padding goes after the digits: "%-03d" of 5 gives "500" |
| SrcFormat.ExponentDigits | src/lib/format.cpp:576 | the exponent `int_str(0, …, 10, false, false, 2, false, true)` is "00" |
| SrcFormat.HoldsCStr | src/lib/format.cpp:60 | `strlen` of a zeroed buffer written from the front is the length of what was written |
| SrcFormat.Pad | src/lib/format.cpp:64-70 | `while (padding--) b[strlen(b)] = c` appends exactly padding copies of c, and is undefined once the string would leave no room for its terminator |
| SrcFormat.Strcat | src/lib/format.cpp:80 | `strcat(a, b)` leaves a holding its old string followed by b's, and is undefined when that overruns the 256 bytes |
| SrcFormat.Strcpy | src/lib/format.cpp:81 | `strcpy(b, a)` leaves b holding a's string |
| SrcFormat.Pow2Add | src/lib/format.cpp:46-51 | powers of two multiply as their exponents add |
| SrcFormat.DigitsBound | src/lib/format.cpp:46-51 | a value below 2^k has at most k digits in any base of at least 2 |
| SrcFormat.NumeralBound | src/lib/format.cpp:46-51 | a 64-bit magnitude has between 1 and 64 digits, so the digits always fit the 256-byte buffer |
| SrcFormat.CountDigits | src/lib/format.cpp:46-51 | the `do … while (shifter)` loop counts exactly the digits of the numeral, one for zero |
| SrcFormat.FillDigits | src/lib/format.cpp:53-58 | the terminator and the `do … while (i)` loop write exactly the numeral into its slots, least significant digit last, and touch nothing else |
| SrcFormat.FillPositive | src/lib/format.cpp:54-58 | for a positive value the loop writes its digits right to left into the slots before the terminator and nothing else |
| SrcFormat.WriteBack | src/lib/format.cpp:55 | `*--p = digit` stores one character just before what is already written, and nothing else changes |
| SrcFormat.WriteSign | src/lib/format.cpp:36-44 | the sign characters go first and the loop goes on with the magnitude |
| SrcFormat.WriteBody | src/lib/format.cpp:36-58 | on a zeroed buffer the sign and digit loops leave the body, and are undefined exactly for the most negative value |
| SrcFormat.IntStrInto | src/lib/format.cpp:15-85 | `int_str` on a zeroed buffer leaves exactly the string `IntStr` describes, and fails exactly where that is undefined |
| SrcFormat.PadLeft | src/lib/format.cpp:71-82 | the right-justified branch leaves the padding followed by the body, through the local buffer, `strcat` and `strcpy` |
| SrcFormat.FlagRun | src/lib/format.cpp:142-176 | the flag loop stops at the first character that is none of '-', '+', '#', ' ' and '0', within the format |
| SrcFormat.Parse | src/lib/format.cpp:134-210 | a directive ends the loop at a trailing '%' (printing it) or where the format runs out; otherwise it reaches its conversion character after its flags, width and precision, using only arguments that were given |
| SrcFormat.ParsePrecision | src/lib/format.cpp:192-210 | a precision, in digits or as an argument for '*', moves forward and only consumes an argument for '*' |
| SrcFormat.ParseLength | src/lib/format.cpp:212-223 | a length character moves to the conversion character and consumes no argument |
| SrcFormat.Prefixed | src/lib/format.cpp:231-247 | a prefix appended before a conversion fails exactly when the conversion does and consumes nothing more |
| SrcFormat.UnsignedValue | src/lib/format.cpp:249-375 | an unsigned argument becomes an `intmax_t` within the signed 64-bit range |
| SrcFormat.SignedValue | src/lib/format.cpp:377-504 | a signed argument read at its length stays within the signed 64-bit range |
| SrcFormat.Number | src/lib/format.cpp:249-504 | an integer conversion consumes at most its one argument |
| SrcFormat.Convert | src/lib/format.cpp:240-567 | a conversion consumes only arguments that were given |
| SrcFormat.Conversion | src/lib/format.cpp:227-239 | 'o' and 'p' are turned into 'u' with their base, and consume only arguments that were given |
| SrcFormat.Directive | src/lib/format.cpp:120-581 | one pass of the loop moves strictly forward and consumes only arguments that were given |
| SrcFormat.Clip | src/lib/format.cpp:98-103 | the buffer keeps a prefix of the text of at most 1023 characters, and the whole of a text that fits |
| SrcFormat.Literals | src/lib/format.cpp:579-581 | text without '%' or a terminator is copied as it stands |
| SrcFormat.TrailingPercent | src/lib/format.cpp:137-140 | a '%' at the very end is printed and ends the output |
| SrcFormat.Bare | src/lib/format.cpp:142-210 | a directive with no flag, width or precision reaches its length and conversion directly with no width |
| SrcFormat.PercentPercent | src/lib/format.cpp:565-566 | "%%" prints nothing: '%' is no case of the switch |
| SrcFormat.ShortShort | src/lib/format.cpp:216-217 | "%hhd" prints "d" and reads no argument, since the second 'h' is taken as the conversion character |
| SrcFormat.PlainNumber | src/lib/format.cpp:15-85 | with no flags and no width `int_str` of a 32-bit unsigned value is exactly its numeral |
| SrcFormat.HexConversion | src/lib/format.cpp:241-264 | "%x" and "%X" print the 32-bit argument in lower- and upper-case hexadecimal |
| SrcFormat.AltHex | src/lib/format.cpp:241-247 | "%#X" prints "0x" before the upper-case digits |
| SrcFormat.AltOctal | src/lib/format.cpp:228-234 | "%#o" prints a '0' before the octal digits |
| SrcFormat.LongUnsigned | src/lib/format.cpp:296-310 | "%lu" of 2^63 or more is printed as the negative `intmax_t` it converts to, and 2^63 itself is undefined behaviour |
| SrcFormat.Exponent | src/lib/format.cpp:557-578 | "%e" prints "e+00" and reads no argument |
| SrcFormat.StringConversion | src/lib/format.cpp:516-519 | "%s" prints "(null)" for the null pointer and the C string otherwise, and a pointer to nothing readable is undefined |
| SrcFormat.MissingArgument | src/lib/format.cpp:249-504 | an integer conversion with no argument left is undefined behaviour |
| SrcFormat.AppendCharacter | src/lib/format.cpp:98-103 | a character is stored at pos and pos advanced only while pos is below 1023; otherwise the buffer is unchanged |
| SrcFormat.AppendString | src/lib/format.cpp:106-113 | each character of the string, or of "(null)", goes through `appendCharacter`, so the buffer keeps the clipped text |
| SrcFormat.ParseStep | src/lib/format.cpp:134-223 | the parsing code reaches exactly the conversion position, flags, width and length the specification gives |
| SrcFormat.PrecisionStep | src/lib/format.cpp:192-210 | the precision parsing code consumes exactly what the specification says |
| SrcFormat.NumberStep | src/lib/format.cpp:249-504 | each integer case reads its argument, runs `int_str` into the scratch buffer and appends the result |
| SrcFormat.SwitchStep | src/lib/format.cpp:240-567 | the conversion switch appends exactly the conversion's text and consumes its arguments |
| SrcFormat.OtherStep | src/lib/format.cpp:506-567 | the 'c', 's', 'n', 'e' and other cases append exactly their text |
| SrcFormat.HexStep | src/lib/format.cpp:241-248 | "%x" and "%X" append the "0x" of the alternative form and fall through into the unsigned case |
| SrcFormat.TextStep | src/lib/format.cpp:506-519 | "%c" appends the character and "%s" the string |
| SrcFormat.ExponentStep | src/lib/format.cpp:569-578 | "%e" and "%E" append the letter, '+' and "00" |
| SrcFormat.ConvertStep | src/lib/format.cpp:225-578 | the code from the base selection to the exponent appends exactly the conversion's text |
| SrcFormat.LoopPass | src/lib/format.cpp:120-581 | one pass of the loop appends exactly the directive's or the character's text and goes on where the specification says, or ends the loop |
| SrcFormat.Formatter.constructor | src/lib/format.cpp:116 | the static output buffer holds 1024 characters |
| SrcFormat.Formatter.VFormat | src/lib/format.cpp:115-586 | `vformat` leaves in its static buffer the first 1023 characters of the expansion, then a terminator, and fails exactly where the behaviour is undefined |

## Left out

- SrcTetris.Game: the multiboot game's `time`, `score`, `level` and `full_lines` (src/game/tetris.cpp:83-84) are C `int`s and are unbounded here, in SrcTetris.Rescore and the methods that update them; signed overflow is undefined behaviour in C, and no bound on play time rules it out.
- KernelTetris.Game.CheckRow: in the Limine tree the row copies and the row-0 clear go through `memcpy` and `memset`, which write at destination plus the HHDM offset (KernelMem.Memcpy, KernelMem.Memset); the model lets them act on the board itself, which is what they do only with a zero offset.
- KernelTetris.Game.Restart: clears the board in place; the Limine `memset` it calls writes at board plus the HHDM offset, so the model holds for a zero offset only.
- Playfield.ShiftDown: the row shift is a plain copy within the board; for the Limine tree that assumes a zero HHDM offset (see KernelTetris.Game.CheckRow).
- Playfield.ClearBoard: the clear is a plain fill of the board; for the Limine tree that assumes a zero HHDM offset.
- KernelTetris.Game.RotateCw: the turned mask is stored with `memcpy(held.def.minos, tmp, 16)` (kernel/src/game/tetris.cpp:133); the model takes that copy to write the held mask itself, which the Limine `memcpy` does only with a zero HHDM offset.
- KernelTetris.Game.RotateCcw: the same for the `memcpy` of kernel/src/game/tetris.cpp:148.
- KernelTetris.Game.Turn: installs the turned mask as a plain assignment to the held piece; for the Limine tree that assumes a zero HHDM offset.
- KernelTetris.AfterRotate: the rotation transition, and the lemmas built on it (KernelTetris.RotateBack, KernelTetris.FourTurns), describe the game with a zero HHDM offset; with a non-zero offset a turn that does not collide leaves the held piece as it was and writes 16 bytes elsewhere.
- KernelTetris.Game.Restart: `serial::print("Restarting\n")` (kernel/src/game/tetris.cpp:418) is serial output and is not modelled.
- SrcTetris.Game.Restart: `serial::print("Restarting\n")` (src/game/tetris.cpp:386) is serial output and is not modelled.
- KernelTetris.Game.SweepRows: `full_lines++` once per cleared row is modelled as one wrapping addition after the sweep; KernelTetris.TallyIsSum proves the two agree.
- KernelMem.MemcpyFast: requires, for 32 bytes or more with distinct pointers, that the destination does not overlap the source from above; the word loops' behaviour on such an overlap (8-byte reads and writes interleaved) is not modelled. Below 32 bytes the byte loop is modelled for any overlap.
- KernelPci.Pci.EnumerateBusses: the `logger.debug` and `serial::printf` lines (kernel/src/driver/pci.cpp:126, 158-166) are log output and are not modelled; the configuration space is a parameter (a function of bus, slot, function and offset) rather than port I/O.
- KernelPci.ReadConf32: `outl`/`inl` on ports 0xCF8/0xCFC are not modelled as port events; the read returns the parameter configuration space at the encoded address. `write_conf32` and `write_conf16` have empty bodies and are left out.
- KernelTimer.Timer.Wait: requires that one of the given readings ends the wait; the source halts forever when the tick count stops advancing, which the model does not represent. `hlt` itself, and the interrupts that advance the count while the loop halts, are the readings.
- KernelTimer.Timer.SetPit: requires a non-zero frequency; `PIT_FREQUENCY / 0` is undefined behaviour in C, and every caller passes a constant.
- KernelSound.Sound.Play: requires a non-zero frequency, for the same reason; `beep` passes 300.
- KernelSound.Sound.Play: `inb(0x61)` is modelled as returning the last value written to port 0x61 (the bus latch); what the hardware reports in the other bits is not modelled.
- SrcFormat.SwitchStep: `%n` reads its pointer argument but the store of `pos` through it is not modelled.
- SrcFormat.Strcat: the multiboot tree's `strcat` is not part of this model; it is taken to be the standard C function.
- SrcFormat.Strcpy: the multiboot tree's `strcpy` is not part of this model; it is taken to be the standard C function, on buffers that do not alias.
- KernelHeapFormat.HeapVFormat: the first pass formats into a 128-byte block; when the text is 128 characters or more, `vformat` writes past the block (kernel/src/lib/format.cpp:334-339) before the retry. That overrun is not modelled: the first pass only computes the count.
- KernelHeap.MaskRoundsDown: proved for the alignment 8 that `malloc` passes; the bit-vector identity for a symbolic power of two is out of the solver's reach. KernelHeap.AlignUpSpec and KernelHeap.AlignUpWraps state the arithmetic for every power of two.
- KernelHeap.Heap.Free: `free` does nothing, so the method has no effect and no contract.
- SrcMem.Free: `free` does nothing, so the method has no effect and no contract.
- KernelApi.Unmap: `uacpi_kernel_unmap` does nothing, so the method has no effect and no contract.
- KernelFormat.VFormat: the count `pc` and the width are unbounded here; C `int` overflow for texts or widths beyond 2^31 is undefined behaviour and not modelled.
- KernelFormat.OutputI: `-i` for the most negative `int64_t` is signed overflow in C; the model takes the magnitude to be 2^63, the two's-complement result converted to `uint64_t`.
- SerialFormat.VSprintf: characters go to the serial port one at a time; the model returns them as a sequence. Serial `init`, `putchar` and `read` are not modelled.
- SrcFormat.Formatter.VFormat: the precision is parsed and consumes its '*' argument but is never used, as in the source; `displayCharacter` and `displayString` are unused by `vformat` and left out, and so are the `format()` wrappers of both trees, which only call `vformat`.
- Port I/O (`inb`, `outb`) is modelled as reads and writes of a per-port byte latch with a log of writes (Ports.Bus); the 32-bit `inl`/`outl` of the PCI driver go through a configuration-space parameter instead. The CPU instructions `hlt` and `sti` and the `cr3` load of src/arch/x86_64/paging.cpp are not part of this model.
- Interrupt concurrency: the producer and consumer sides of the keyboard rings and the timer handler are modelled as sequential calls.
- Drawing (`Tetris::draw`, both screen drivers), logging, fault dumps and boot glue (both `main.cpp`, Limine requests) are not part of this model.
- Foreign and assembly code (`gdt_flush`, `idt_load`, `isrs_init`, the IRQ stub table, `memset2`, uACPI and `uacpi_kernel_log`) is not part of this model; `KernelIrq` names each gate's stub by its IRQ number and `SrcIdt` takes handler addresses as parameters.
- `floor` in src/lib/math.cpp works on floating point and is not part of this model.
