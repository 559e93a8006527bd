/**
  Mixed command lists: the modelled handlers behind one dispatch on the opcode.  The interleave
  command takes its count and output from the cells that buffer-setting commands leave in data
  memory, so what a list does to those cells is followed from command to command.
 */
module AudioMix {
  import opened Bytes
  import opened Dmem
  import opened AudioFetch
  import opened AudioHandlers
  import opened AudioBlocks
  import opened AudioWeave
  import opened AudioReach

  // ----- The dispatch -----

  /** What the jump table may hold for an opcode, as far as it is modelled; `Idle` goes straight back to the fetch. */
  datatype Op = Idle | Clearing | Segments | Buffers | Moving | Weaving

  type Quadword = v: seq<byte> | |v| == 16 witness seq(16, _ => 0)

  /** The opcode of a command of the list: the low seven bits of its first byte. */
  function Opcode(list: seq<byte>, j: nat): nat
    requires 8 * j + 8 <= |list|
  {
    list[8 * j] as int % 0x80
  }

  /** A halfword of the data memory. */
  function HalfAt(d: Memory, a: nat): (h: nat)
    ensures h < 0x1_0000
  {
    (d[Wrap(a)] as int) * 0x100 + d[Wrap(a + 1)] as int
  }

  /** L_138C: interleave, with the registers it leaves; the vector registers hold whatever they held. */
  function WeaveBuffers(m: Machine, v1: Quadword, v2: Quadword): Machine {
    var count, out := HalfAt(m.dmem, m.r24 + 4), HalfAt(m.dmem, m.r24 + 2);
    var n := Blocks(count);
    if count == 0 then m.(r1 := 0, r4 := out, r3 := Low(m.r25))
    else m.(r1 := Add32(count, -16 * n), r2 := High(m.r25) + BUFFERS + 16 * n, r3 := Low(m.r25) + BUFFERS + 16 * n,
         r4 := out + 32 * n,
         dmem := Weave(m.dmem, v1, v2).After(High(m.r25) + BUFFERS, Low(m.r25) + BUFFERS, out, n).mem)
  }

  /** The jump through the table, which the microcode keeps in its data and r1 indexes by halfwords. */
  function Dispatch(table: nat -> Op, v1: Machine -> Quadword, v2: Machine -> Quadword): Machine -> Machine {
    (m: Machine) =>
      match table(m.r1 / 2)
      case Idle => m
      case Clearing => ClearBuffer(m)
      case Segments => SetSegment(m)
      case Buffers => SetBuffers(m)
      case Moving => MoveBuffer(m)
      case Weaving => WeaveBuffers(m, v1(m), v2(m))
  }

  // ----- The cells -----

  /** The buffer addresses and counts, where r24 points. */
  const CELLS := 0x360
  const CELLS_END := CELLS + 16

  function Cells(d: Memory): Quadword { d[CELLS..CELLS_END] }

  function Put(cells: Quadword, at: nat, v: seq<byte>): Quadword
    requires at + 2 <= 16 && |v| == 2
  {
    cells[at := v[0]][at + 1 := v[1]]
  }

  /** What a buffer-setting command makes of the cells. */
  function CellsSet(cells: Quadword, w0: word, w1: word): Quadword {
    var r1, r2, r3 := Add32(w0, 0x5C0), Add32(w1 / 0x1_0000, 0x5C0), Add32(w1, 0x5C0);
    if w0 / 0x1_0000 / 8 % 2 == 1 then Put(Put(Put(cells, 0xE, HalfBytes(r3)), 0xA, HalfBytes(r1)), 0xC, HalfBytes(r2))
    else Put(Put(Put(cells, 0, HalfBytes(r1)), 2, HalfBytes(r2)), 4, HalfBytes(w1))
  }

  function HalfIn(cells: Quadword, at: nat): (h: nat)
    requires at + 2 <= 16
    ensures h < 0x1_0000
  {
    (cells[at] as int) * 0x100 + cells[at + 1] as int
  }

  lemma HalfIsInCells(d: Memory, at: nat)
    requires at + 2 <= 16
    ensures HalfAt(d, CELLS + at) == HalfIn(Cells(d), at)
  {
    WrapUnique(CELLS + at, CELLS + at, 0);
    WrapUnique(CELLS + at + 1, CELLS + at + 1, 0);
  }

  lemma CellsStored(d: Memory, at: nat, v: seq<byte>)
    requires at + 2 <= 16 && |v| == 2
    ensures Cells(Stored(d, CELLS + at, v)) == Put(Cells(d), at, v)
  {
    var after := Stored(d, CELLS + at, v);
    StoredInPlace(d, CELLS + at, v);
    assert after[CELLS + at] == after[CELLS + at..CELLS + at + 2][0] && after[CELLS + at + 1] == after[CELLS + at..CELLS + at + 2][1];
    forall k | 0 <= k < 16 ensures Cells(after)[k] == Put(Cells(d), at, v)[k] {
      if k < at || at + 2 <= k {
        StoredOutside(d, CELLS + at, v, CELLS + k);
      }
    }
  }

  lemma CellsAlike(d: Memory, e: Memory)
    requires forall k :: CELLS <= k < CELLS_END ==> e[k] == d[k]
    ensures Cells(e) == Cells(d)
  {
    forall k | 0 <= k < 16 ensures Cells(e)[k] == Cells(d)[k] {
      assert e[CELLS + k] == d[CELLS + k];
    }
  }

  // ----- One command -----

  /** An area clear of the command window and of the cells. */
  predicate ClearOfBoth(a: int, len: nat) {
    AreaMisses(a, len) && Misses(a, len, CELLS, CELLS_END)
  }

  /** The command, met with these cells, writes neither the window nor, unless it sets buffers, the cells. */
  predicate Safe(op: Op, cells: Quadword, w0: word, w1: word) {
    match op
    case Idle | Buffers => true
    case Clearing => ClearOfBoth(Low(w0) + BUFFERS, 16 * Blocks(Low(w1)))
    case Moving => ClearOfBoth(High(w1) + BUFFERS, 16 * Blocks(Low(w1)))
    case Segments => MissesWindow(Segment(w1)) && !(16 <= Segment(w1) < 20)
    case Weaving => ClearOfBoth(HalfIn(cells, 2), 32 * Blocks(HalfIn(cells, 4)))
  }

  /** What the command leaves in the cells. */
  function CellsAfter(op: Op, cells: Quadword, w0: word, w1: word): Quadword {
    if op == Buffers then CellsSet(cells, w0, w1) else cells
  }

  lemma ClearingKeeps(m: Machine, ptr: nat, list: seq<byte>)
    requires HoldsList(m.rdram, ptr, list) && Safe(Clearing, Cells(m.dmem), m.r26, m.r25)
    ensures KeepsFetch(m, ClearBuffer(m), ptr, list) && Cells(ClearBuffer(m).dmem) == Cells(m.dmem)
  {
    ClearKeepsFetch(m, ptr, list);
    var dst, len := Low(m.r26) + BUFFERS, 16 * Blocks(Low(m.r25));
    hide KeepsFetch, Wrap, Low, Blocks;
    forall k | CELLS <= k < CELLS_END ensures ClearBuffer(m).dmem[k] == m.dmem[k] {
      Outside(dst, len, CELLS, CELLS_END, k);
    }
    CellsAlike(m.dmem, ClearBuffer(m).dmem);
  }

  lemma MovingKeeps(m: Machine, ptr: nat, list: seq<byte>)
    requires HoldsList(m.rdram, ptr, list) && Safe(Moving, Cells(m.dmem), m.r26, m.r25)
    ensures KeepsFetch(m, MoveBuffer(m), ptr, list) && Cells(MoveBuffer(m).dmem) == Cells(m.dmem)
  {
    MoveKeepsFetch(m, ptr, list);
    var src, dst, n := Low(m.r26) + BUFFERS, High(m.r25) + BUFFERS, Blocks(Low(m.r25));
    hide KeepsFetch, Wrap, Low, High, Blocks, AfterMoves;
    forall k | CELLS <= k < CELLS_END ensures MoveBuffer(m).dmem[k] == m.dmem[k] {
      Outside(dst, 16 * n, CELLS, CELLS_END, k);
      MoveKeepsOutside(m.dmem, src, dst, n, k);
    }
    CellsAlike(m.dmem, MoveBuffer(m).dmem);
  }

  lemma WeaveSparesBoth(w: Weave, left: int, right: int, out: int, n: nat)
    requires w.Valid() && ClearOfBoth(out, 32 * n)
    ensures Window(w.After(left, right, out, n).mem) == Window(w.mem)
    ensures Cells(w.After(left, right, out, n).mem) == Cells(w.mem)
  {
    hide Wrap, Weave.After, Window, Cells;
    InterleaveOutsideWindow(w, left, right, out, n);
    forall k | CELLS <= k < CELLS_END ensures w.After(left, right, out, n).mem[k] == w.mem[k] {
      Outside(out, 32 * n, CELLS, CELLS_END, k);
      WeaveKeepsOutside(w, left, right, out, n, k);
    }
    CellsAlike(w.mem, w.After(left, right, out, n).mem);
  }

  lemma WeavingKeeps(m: Machine, v1: Quadword, v2: Quadword, ptr: nat, list: seq<byte>)
    requires m.r24 == CELLS && HoldsList(m.rdram, ptr, list) && Safe(Weaving, Cells(m.dmem), m.r26, m.r25)
    ensures KeepsFetch(m, WeaveBuffers(m, v1, v2), ptr, list) && Cells(WeaveBuffers(m, v1, v2).dmem) == Cells(m.dmem)
  {
    hide Wrap, Low, High, HalfAt, HalfIn, Weave.After, Window, Cells, HoldsList, ClearOfBoth;
    HalfIsInCells(m.dmem, 4);
    HalfIsInCells(m.dmem, 2);
    WeaveSparesBoth(Weave(m.dmem, v1, v2), High(m.r25) + BUFFERS, Low(m.r25) + BUFFERS, HalfAt(m.dmem, CELLS + 2),
                    Blocks(HalfAt(m.dmem, CELLS + 4)));
  }

  lemma SegmentsKeeps(m: Machine, ptr: nat, list: seq<byte>)
    requires HoldsList(m.rdram, ptr, list) && Safe(Segments, Cells(m.dmem), m.r26, m.r25)
    ensures KeepsFetch(m, SetSegment(m), ptr, list) && Cells(SetSegment(m).dmem) == Cells(m.dmem)
  {
    SegmentMissesWindowIff(m.r25);
    SetSegmentKeepsRest(m, ptr, list);
    SegmentInTable(m.r25);
    hide KeepsFetch, WordBytes, Stored;
    var a, v := 0x320 + 4 * Segment(m.r25), WordBytes(m.r25 % 0x100_0000);
    assert SetSegment(m).dmem == Stored(m.dmem, a, v);
    forall k | CELLS <= k < CELLS_END ensures Stored(m.dmem, a, v)[k] == m.dmem[k] {
      StoredOutside(m.dmem, a, v, k);
    }
    CellsAlike(m.dmem, SetSegment(m).dmem);
  }

  lemma BuffersSets(m: Machine, ptr: nat, list: seq<byte>)
    requires m.r24 == CELLS && HoldsList(m.rdram, ptr, list)
    ensures KeepsFetch(m, SetBuffers(m), ptr, list) && Cells(SetBuffers(m).dmem) == CellsSet(Cells(m.dmem), m.r26, m.r25)
  {
    SetBuffersKeepsFetch(m, ptr, list);
    hide KeepsFetch, Stored, HalfBytes, Put, Cells;
    var r1, r2, r3 := Add32(m.r26, 0x5C0), Add32(m.r25 / 0x1_0000, 0x5C0), Add32(m.r25, 0x5C0);
    if m.r26 / 0x1_0000 / 8 % 2 == 1 {
      var d1 := Stored(m.dmem, CELLS + 0xE, HalfBytes(r3));
      var d2 := Stored(d1, CELLS + 0xA, HalfBytes(r1));
      CellsStored(m.dmem, 0xE, HalfBytes(r3));
      CellsStored(d1, 0xA, HalfBytes(r1));
      CellsStored(d2, 0xC, HalfBytes(r2));
    } else {
      var d1 := Stored(m.dmem, CELLS, HalfBytes(r1));
      var d2 := Stored(d1, CELLS + 2, HalfBytes(r2));
      CellsStored(m.dmem, 0, HalfBytes(r1));
      CellsStored(d1, 2, HalfBytes(r2));
      CellsStored(d2, 4, HalfBytes(m.r25));
    }
  }

  /** Any modelled command that is safe where it is met. */
  lemma CommandKeeps(m: Machine, table: nat -> Op, v1: Machine -> Quadword, v2: Machine -> Quadword, ptr: nat,
                     list: seq<byte>)
    requires m.r24 == CELLS && HoldsList(m.rdram, ptr, list)
    requires Safe(table(m.r1 / 2), Cells(m.dmem), m.r26, m.r25)
    ensures var h := Dispatch(table, v1, v2)(m);
            && KeepsFetch(m, h, ptr, list)
            && Cells(h.dmem) == CellsAfter(table(m.r1 / 2), Cells(m.dmem), m.r26, m.r25)
  {
    hide Safe, Cells, CellsSet, ClearBuffer, SetSegment, SetBuffers, MoveBuffer, WeaveBuffers, Window;
    match table(m.r1 / 2)
    case Idle =>
    case Clearing => ClearingKeeps(m, ptr, list);
    case Segments => SegmentsKeeps(m, ptr, list);
    case Buffers => BuffersSets(m, ptr, list);
    case Moving => MovingKeeps(m, ptr, list);
    case Weaving => WeavingKeeps(m, v1(m), v2(m), ptr, list);
  }

  // ----- A whole list -----

  /** The cells before command `j` of a list, from what they hold before the first. */
  function CellsAt(first: Quadword, table: nat -> Op, list: seq<byte>, j: nat): Quadword
    requires 8 * j <= |list|
  {
    if j == 0 then first else
    var (w0, w1) := Command(list, j - 1);
    CellsAfter(table(Opcode(list, j - 1)), CellsAt(first, table, list, j - 1), w0, w1)
  }

  /** The cells are what the list has made of them so far. */
  function Following(first: Quadword, table: nat -> Op, list: seq<byte>): Upkeep {
    (j: nat, d: Memory) => 8 * j <= |list| && Cells(d) == CellsAt(first, table, list, j)
  }

  /** Every command is safe with the cells that the commands before it leave. */
  predicate ListIsSafe(first: Quadword, table: nat -> Op, list: seq<byte>) {
    && list != [] && |list| % 8 == 0
    && forall j :: 0 <= j < |list| / 8 ==>
                     var (w0, w1) := Command(list, j);
                     Safe(table(Opcode(list, j)), CellsAt(first, table, list, j), w0, w1)
  }

  lemma CellsOverlooked(d: Memory, e: Memory)
    requires AgreeElsewhere(d, e)
    ensures Cells(e) == Cells(d)
  {
    CellsAlike(d, e);
  }

  lemma CellsNext(first: Quadword, table: nat -> Op, list: seq<byte>, j: nat, w0: word, w1: word)
    requires 8 * j + 8 <= |list| && (w0, w1) == Command(list, j)
    ensures CellsAt(first, table, list, j + 1) == CellsAfter(table(Opcode(list, j)), CellsAt(first, table, list, j), w0, w1)
  {
    hide Command, CellsAfter, Opcode;
  }

  lemma SafeHere(first: Quadword, table: nat -> Op, list: seq<byte>, j: nat, w0: word, w1: word)
    requires ListIsSafe(first, table, list) && 8 * j + 8 <= |list| && (w0, w1) == Command(list, j)
    ensures Safe(table(Opcode(list, j)), CellsAt(first, table, list, j), w0, w1)
  {
    hide Command, Safe, Opcode, CellsAt;
    assert j < |list| / 8;
  }

  /** One command of a safe list. */
  lemma CommandFollowed(m: Machine, first: Quadword, table: nat -> Op, v1: Machine -> Quadword, v2: Machine -> Quadword,
                        ptr: nat, list: seq<byte>, j: nat)
    requires ListIsSafe(first, table, list) && j < Parts(|list|, 8) && Entered(m, ptr, list, j)
    requires Following(first, table, list)(j, m.dmem)
    ensures KeepsFetch(m, Dispatch(table, v1, v2)(m), ptr, list)
    ensures Following(first, table, list)(j + 1, Dispatch(table, v1, v2)(m).dmem)
  {
    hide Cells, KeepsFetch, Command, Safe, Dispatch, CellsAfter, CellsAt, LoadHalf, HoldsList;
    assert 8 * j + 8 <= |list|;
    assert m.r1 / 2 == Opcode(list, j);
    SafeHere(first, table, list, j, m.r26, m.r25);
    CellsNext(first, table, list, j, m.r26, m.r25);
    CommandKeeps(m, table, v1, v2, ptr, list);
  }

  /**
    A list of modelled commands in any mix, each safe where it comes, is run by the command
    processor as it stands; the cells are followed all the way.
   */
  lemma MixedListLeavesFetchAlone(first: Quadword, table: nat -> Op, v1: Machine -> Quadword, v2: Machine -> Quadword,
                                  ptr: nat, list: seq<byte>)
    requires ListIsSafe(first, table, list)
    ensures LeavesFetchAlone(Dispatch(table, v1, v2), Following(first, table, list), ptr, list)
  {
    hide AgreeElsewhere, Cells, KeepsFetch, Command, Safe, Dispatch, CellsAfter, Opcode, HoldsList;
    var upkeep := Following(first, table, list);
    forall j: nat, d: Memory, e: Memory | upkeep(j, d) && AgreeElsewhere(d, e) ensures upkeep(j, e) {
      CellsOverlooked(d, e);
    }
    forall m: Machine, j: nat | j < Parts(|list|, 8) && Entered(m, ptr, list, j) && upkeep(j, m.dmem)
      ensures KeepsFetch(m, Dispatch(table, v1, v2)(m), ptr, list) && upkeep(j + 1, Dispatch(table, v1, v2)(m).dmem)
    {
      CommandFollowed(m, first, table, v1, v2, ptr, list, j);
    }
  }
}
