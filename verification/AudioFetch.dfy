/**
  The audio microcode's command processor: a command list in RDRAM is pulled through a
  0x140-byte window of DMEM, eight bytes at a time, with a refill subroutine that returns
  through r31 and r5.  The labels of the recompiled function that something jumps to are kept
  (the refill's inner ones are inside Refill, the table loop's inside ClearTable), and a loop
  goes from one to the next; the command handlers are an arbitrary step that comes back to
  L_1118.
 */
module AudioFetch {
  import opened Bytes
  import opened Dmem

  /** Addition with wrap-around; one operand is always small. */
  function Add32(a: word, b: int): word
    requires -0x1_0000_0000 <= b <= 0x1_0000_0000
  {
    if a + b < 0 then a + b + 0x1_0000_0000
    else if a + b >= 0x1_0000_0000 then a + b - 0x1_0000_0000
    else a + b
  }

  const WINDOW := 0x380
  const WINDOW_SIZE := 0x140
  /** The segment table. */
  const TABLE := 0x320
  /** Where the host leaves the task header; the list's address and length are in it. */
  const TASK := 0xFC0

  /** The registers the fetch code uses, and the two memories. */
  datatype Machine = Machine(
    r1: word, r2: word, r3: word, r4: word, r5: word, r23: word, r24: word, r25: word, r26: word,
    r27: word, r28: word, r29: word, r30: word, r31: word,
    dmem: Memory, rdram: seq<byte>)

  datatype Label =
    | L10B4 | L10C0 | L10D4 | L10E4 | Handler | L1118 | L1130 | L1138 | L1150 | L1178

  /** One transfer into DMEM. */
  datatype Transfer = Transfer(mem: nat, dram: nat, length: nat)

  function WordAt(s: seq<byte>, a: nat): word
    requires a + 4 <= |s|
  {
    (s[a] as int) * 0x100_0000 + (s[a + 1] as int) * 0x1_0000 + (s[a + 2] as int) * 0x100 + s[a + 3] as int
  }

  function LoadWord(m: Memory, a: nat): word {
    WordAt(Load(m, a, 4), 0)
  }

  /** A halfword, sign-extended. */
  function LoadHalf(m: Memory, a: nat): word {
    var h := (m[Wrap(a)] as int) * 0x100 + m[Wrap(a + 1)] as int;
    if h < 0x8000 then h else h + 0xFFFF_0000
  }

  /** The jump table, one halfword an opcode. */
  const JUMPS := 0x10

  /** Where an indirect jump inside the fetch code goes. */
  function Return(target: word): Label {
    if target == 0x10C0 then L10C0 else if target == 0x1130 then L1130 else if target == 0x1178 then L1178 else Handler
  }

  // ----- The reference: walk the list once, in order -----

  function Command(list: seq<byte>, j: nat): (word, word)
    requires 8 * j + 8 <= |list|
  {
    (WordAt(list, 8 * j), WordAt(list, 8 * j + 4))
  }

  predicate HoldsList(rdram: seq<byte>, ptr: nat, list: seq<byte>) {
    ptr + |list| <= |rdram| && ptr + |list| + 8 < 0x1_0000_0000 && rdram[ptr..ptr + |list|] == list
  }

  /** The task is usable: a length that is not negative and a list inside RDRAM. */
  predicate Listed(m: Machine, list: seq<byte>) {
    && |list| < 0x8000_0000
    && LoadWord(m.dmem, 0xFF4) == |list|
    && HoldsList(m.rdram, LoadWord(m.dmem, 0xFF0), list)
  }

  function Window(m: Memory): seq<byte> { m[WINDOW..WINDOW + WINDOW_SIZE] }

  /** The step from `m` to `h` keeps the fetch registers, the command window and the list in RDRAM. */
  predicate KeepsFetch(m: Machine, h: Machine, ptr: nat, list: seq<byte>) {
    && h.r23 == m.r23 && h.r24 == m.r24 && h.r27 == m.r27 && h.r28 == m.r28 && h.r29 == m.r29 && h.r30 == m.r30
    && Window(h.dmem) == Window(m.dmem)
    && HoldsList(h.rdram, ptr, list)
  }

  /**
    How the handler of command `j` is entered: the base registers hold their constants, the list
    is still in RDRAM, r26 and r25 hold the command, r1 is twice its opcode, the low seven bits of
    its first byte, and r2 is what the jump table holds there.  (When the list ends within the
    command the pair, and so the opcode, may be anything.)
   */
  predicate Entered(m: Machine, ptr: nat, list: seq<byte>, j: nat) {
    && m.r23 == 0xF90 && m.r24 == 0x360 && HoldsList(m.rdram, ptr, list)
    && (8 * j + 8 <= |list| ==> (m.r26, m.r25) == Command(list, j) && m.r1 == 2 * (list[8 * j] as int % 0x80))
    && m.r2 == LoadHalf(m.dmem, JUMPS + m.r1)
  }

  /** How many parts of `size` bytes a list is taken in: rounded up, and at least one. */
  function Parts(len: nat, size: nat): nat
    requires size > 0
  {
    if len == 0 then 1 else (len + size - 1) / size
  }

  /** The memories agree outside the command window and the one word of the segment table that gets cleared. */
  predicate AgreeElsewhere(d: Memory, e: Memory) {
    forall k :: 0 <= k < SIZE && !(TABLE <= k < TABLE + 4) && !(WINDOW <= k < WINDOW + WINDOW_SIZE) ==> e[k] == d[k]
  }

  /** What is to hold of the data memory when `j` commands have been handled; nothing, for most handlers. */
  type Upkeep = (nat, Memory) -> bool

  function Anything(): Upkeep { (j: nat, d: Memory) => true }

  /** Entered as above, the handlers leave what the fetch code works with alone, and keep up what they need. */
  ghost predicate LeavesFetchAlone(handle: Machine -> Machine, upkeep: Upkeep, ptr: nat, list: seq<byte>) {
    && (forall j: nat, d: Memory, e: Memory :: upkeep(j, d) && AgreeElsewhere(d, e) ==> upkeep(j, e))
    && forall m: Machine, j: nat :: j < Parts(|list|, 8) && Entered(m, ptr, list, j) && upkeep(j, m.dmem)
                                    ==> KeepsFetch(m, handle(m), ptr, list) && upkeep(j + 1, handle(m).dmem)
  }

  // ----- Invariants of the run -----

  function Min(a: int, b: int): int { if a < b then a else b }

  /** The part of the list a refill after `b` commands brings in. */
  function Chunk(list: seq<byte>, b: nat): seq<byte>
    requires 8 * b <= |list|
  {
    list[8 * b..8 * b + Min(|list| - 8 * b, WINDOW_SIZE)]
  }

  /** Something is still to be fetched at this place of a list; an empty list is begun all the same. */
  predicate Due(place: nat, len: nat) { place < len || (len == 0 && place == 0) }

  /** `i` commands of the list have been taken. */
  predicate Taken(m: Machine, ptr: nat, list: seq<byte>, i: nat) {
    && m.r23 == 0xF90 && m.r24 == 0x360 && HoldsList(m.rdram, ptr, list) && (8 * i < |list| + 8 || (list == [] && i == 1))
    && Signed(m.r27) == |list| - 8 * i && m.r28 == ptr + 8 * i
  }

  /** The window was filled after `b` commands, and `i - b` of them have been taken from it. */
  predicate Windowed(m: Machine, list: seq<byte>, b: nat, i: nat) {
    && b <= i && Due(8 * b, |list|)
    && Signed(m.r30) == |Chunk(list, b)| - 8 * (i - b) && (Signed(m.r30) > -8 || list == [])
    && m.r29 == WINDOW + 8 * (i - b)
    && m.dmem[WINDOW..WINDOW + |Chunk(list, b)|] == Chunk(list, b)
  }

  /** Every dispatched pair whose eight bytes are all in the list is that command of the list. */
  ghost predicate InOrder(trace: seq<(word, word)>, list: seq<byte>) {
    trace != [] ==>
      var j := |trace| - 1;
      InOrder(trace[..j], list) && (8 * j + 8 <= |list| ==> trace[j] == Command(list, j))
  }

  lemma {:induction false} InOrderAt(trace: seq<(word, word)>, list: seq<byte>, j: nat)
    requires InOrder(trace, list) && j < |trace| && 8 * j + 8 <= |list|
    ensures trace[j] == Command(list, j)
  {
    if j < |trace| - 1 {
      InOrderAt(trace[..|trace| - 1], list, j);
    }
  }

  lemma InOrderSnoc(trace: seq<(word, word)>, taken: (word, word), list: seq<byte>)
    requires InOrder(trace, list)
    requires 8 * |trace| + 8 <= |list| ==> taken == Command(list, |trace|)
    ensures InOrder(trace + [taken], list)
  {
    assert (trace + [taken])[..|trace|] == trace;
  }

  /** The k-th refill of a list of `len` bytes: the next 0x140 bytes, or what is left. */
  function RefillAt(ptr: nat, len: nat, k: nat): Transfer
    requires WINDOW_SIZE * k <= len
  {
    Transfer(WINDOW, ptr + WINDOW_SIZE * k, Min(len - WINDOW_SIZE * k, WINDOW_SIZE))
  }

  /**
    The commands of the list, each once and in order; a last one cut short, or that of an empty
    list, may be anything.
   */
  ghost predicate WalkedOnce(trace: seq<(word, word)>, list: seq<byte>) {
    |trace| == Parts(|list|, 8) && forall j :: 0 <= j < |list| / 8 ==> trace[j] == Command(list, j)
  }

  function Commands(list: seq<byte>): seq<(word, word)> {
    seq(|list| / 8, j requires 0 <= j < |list| / 8 => Command(list, j))
  }

  /**
    Such a walk is the list's commands and nothing else exactly when the list is a positive number
    of whole commands.
   */
  lemma WalkIsListIff(trace: seq<(word, word)>, list: seq<byte>)
    requires WalkedOnce(trace, list)
    ensures trace == Commands(list) <==> list != [] && |list| % 8 == 0
  {
    hide Command;
    if list != [] && |list| % 8 == 0 {
      assert |trace| == |Commands(list)|;
    }
  }

  /** The list in windowfuls, each fetched once and in order, and nothing beyond it. */
  ghost predicate FetchedOnce(dmas: seq<Transfer>, ptr: nat, len: nat) {
    && |dmas| == Parts(len, WINDOW_SIZE)
    && forall k :: 0 <= k < |dmas| ==> Due(WINDOW_SIZE * k, len) && dmas[k] == RefillAt(ptr, len, k)
  }

  /** What some refills read, one after the other. */
  function Brought(rdram: seq<byte>, dmas: seq<Transfer>): seq<byte>
    requires forall k :: 0 <= k < |dmas| ==> dmas[k].dram + dmas[k].length <= |rdram|
  {
    if dmas == [] then [] else
    var last := dmas[|dmas| - 1];
    Brought(rdram, dmas[..|dmas| - 1]) + rdram[last.dram..last.dram + last.length]
  }

  /** What a refill reads is the next chunk of the list. */
  lemma ChunkInPlace(rdram: seq<byte>, ptr: nat, list: seq<byte>, i: nat)
    requires HoldsList(rdram, ptr, list) && 8 * i <= |list|
    ensures ptr + 8 * i + |Chunk(list, i)| <= |rdram|
    ensures rdram[ptr + 8 * i..ptr + 8 * i + |Chunk(list, i)|] == Chunk(list, i)
  {
    var n := |Chunk(list, i)|;
    var held, chunk := rdram[ptr..ptr + |list|], rdram[ptr + 8 * i..ptr + 8 * i + n];
    forall k | 0 <= k < n ensures chunk[k] == Chunk(list, i)[k] {
      assert chunk[k] == rdram[ptr + (8 * i + k)] == held[8 * i + k];
    }
  }

  lemma {:induction false} BroughtSoFar(rdram: seq<byte>, dmas: seq<Transfer>, ptr: nat, list: seq<byte>, n: nat)
    requires HoldsList(rdram, ptr, list) && FetchedOnce(dmas, ptr, |list|) && n <= |dmas|
    ensures forall k :: 0 <= k < n ==> dmas[k].dram + dmas[k].length <= |rdram|
    ensures Brought(rdram, dmas[..n]) == list[..Min(WINDOW_SIZE * n, |list|)]
  {
    if n > 0 {
      BroughtSoFar(rdram, dmas, ptr, list, n - 1);
      assert dmas[..n][..n - 1] == dmas[..n - 1];
      assert dmas[n - 1] == RefillAt(ptr, |list|, n - 1);
      ChunkInPlace(rdram, ptr, list, 0x28 * (n - 1));
    }
  }

  /**
    The refills bring in the list, each byte once and in order, to the start of the window, in pieces
    of 0x140 bytes of which only the last may be shorter.
   */
  lemma FetchedIsList(rdram: seq<byte>, dmas: seq<Transfer>, ptr: nat, list: seq<byte>)
    requires HoldsList(rdram, ptr, list) && FetchedOnce(dmas, ptr, |list|)
    ensures forall k :: 0 <= k < |dmas| ==>
                          && dmas[k].mem == 0x380 && dmas[k].dram + dmas[k].length <= |rdram| && dmas[k].length <= 0x140
                          && (k < |dmas| - 1 ==> dmas[k].length == 0x140)
    ensures Brought(rdram, dmas) == list
  {
    BroughtSoFar(rdram, dmas, ptr, list, |dmas|);
    assert dmas[..|dmas|] == dmas;
    forall k | 0 <= k < |dmas|
      ensures dmas[k].mem == 0x380 && dmas[k].length <= 0x140 && (k < |dmas| - 1 ==> dmas[k].length == 0x140)
    {
      assert dmas[k] == RefillAt(ptr, |list|, k);
    }
  }

  /** The refills made so far, and how they relate to the label reached. */
  ghost predicate Refilled(dmas: seq<Transfer>, pc: Label, ptr: nat, len: nat, i: nat, b: nat) {
    && (forall k :: 0 <= k < |dmas| ==> Due(WINDOW_SIZE * k, len) && dmas[k] == RefillAt(ptr, len, k))
    && if pc == L10B4 then dmas == []
       else if pc == L1150 then 8 * i == WINDOW_SIZE * |dmas|
       else |dmas| > 0 && 8 * b == WINDOW_SIZE * (|dmas| - 1)
  }

  function Rank(l: Label): nat {
    match l
    case L1138 => 0 case L10E4 => 1 case L10D4 => 2 case L10C0 => 3 case L1130 => 4 case L1178 => 5
    case L1150 => 6 case L10B4 => 7 case L1118 => 8 case Handler => 9
  }

  /** What holds at each label after `i` commands, the window having been filled after `b`. */
  predicate At(pc: Label, m: Machine, ptr: nat, list: seq<byte>, i: nat, b: nat) {
    Taken(m, ptr, list, i)
    && match pc
       case L10B4 => i == 0
       case L1150 => Due(8 * i, |list|) && (m.r31 == 0x10C0 || m.r31 == 0x1130)
       case L1178 => b == i && (m.r5 == 0x10C0 || m.r5 == 0x1130) && Windowed(m.(r29 := WINDOW), list, b, i)
       case L10C0 | L1130 | L10D4 => b == i && Windowed(m, list, b, i)
       case L10E4 => Windowed(m, list, b, i) && (Signed(m.r30) > 0 || (list == [] && i == 0))
       case Handler =>
         && Windowed(m, list, b, i) && 0 < i && m.r2 == LoadHalf(m.dmem, JUMPS + m.r1)
         && (8 * i <= |list| ==> (m.r26, m.r25) == Command(list, i - 1) && m.r1 == 2 * (list[8 * i - 8] as int % 0x80))
       case L1118 => 0 < i && Windowed(m, list, b, i)
       case L1138 => 8 * i >= |list| && i > 0 && Due(8 * b, |list|) && |list| <= 8 * b + WINDOW_SIZE
  }

  // ----- The microcode -----

  /** SP_RD_LEN: copy r3 + 1 bytes of RDRAM at r2 to DMEM at r1; none at all when r3 is -1. */
  function DmaRead(m: Machine): Machine
    requires m.r2 + Add32(m.r3, 1) <= |m.rdram|
  {
    m.(dmem := Stored(m.dmem, m.r1, m.rdram[m.r2..m.r2 + Add32(m.r3, 1)]))
  }

  lemma StoredInPlace(m: Memory, a: nat, v: seq<byte>)
    requires a + |v| <= SIZE
    ensures Stored(m, a, v)[a..a + |v|] == v
  {
    forall k | 0 <= k < |v| ensures Stored(m, a, v)[a + k] == v[k] {
      WrapUnique(a + k - a, k, 0);
    }
  }

  lemma StoredOutside(m: Memory, a: nat, v: seq<byte>, k: nat)
    requires a + |v| <= SIZE && k < SIZE && (k < a || a + |v| <= k)
    ensures Stored(m, a, v)[k] == m[k]
  {
    if k < a {
      WrapUnique(k - a, k - a + SIZE, -1);
    } else {
      WrapUnique(k - a, k - a, 0);
    }
  }

  /** A refill puts the next chunk of the list at the start of the window. */
  lemma WindowFilled(m: Machine, ptr: nat, list: seq<byte>, i: nat)
    requires Taken(m, ptr, list, i) && Due(8 * i, |list|)
    requires m.r1 == WINDOW && m.r2 == ptr + 8 * i && Add32(m.r3, 1) == |Chunk(list, i)|
    ensures m.r2 + Add32(m.r3, 1) <= |m.rdram|
    ensures DmaRead(m).dmem[WINDOW..WINDOW + |Chunk(list, i)|] == Chunk(list, i)
    ensures AgreeElsewhere(m.dmem, DmaRead(m).dmem)
  {
    ChunkInPlace(m.rdram, ptr, list, i);
    var chunk := Chunk(list, i);
    assert |chunk| <= WINDOW_SIZE;
    hide Chunk, HoldsList, Wrap, StoredAt;
    StoredInPlace(m.dmem, WINDOW, chunk);
    forall k | 0 <= k < SIZE && !(WINDOW <= k < WINDOW + WINDOW_SIZE) ensures Stored(m.dmem, WINDOW, chunk)[k] == m.dmem[k] {
      StoredOutside(m.dmem, WINDOW, chunk, k);
    }
  }

  /** L_1150 to the jump at the end of L_1184: one refill of the window. */
  method Refill(m0: Machine, ghost ptr: nat, ghost list: seq<byte>, ghost i: nat, ghost b: nat)
    returns (m: Machine, pc: Label, dma: Transfer)
    requires At(L1150, m0, ptr, list, i, b)
    ensures pc == L1178 && At(L1178, m, ptr, list, i, i) && m.r27 == m0.r27
    ensures AgreeElsewhere(m0.dmem, m.dmem)
    ensures Due(8 * i, |list|) && dma == Transfer(WINDOW, ptr + 8 * i, Min(|list| - 8 * i, WINDOW_SIZE))
  {
    m := m0.(r5 := m0.r31, r2 := Add32(0, m0.r28), r3 := Add32(m0.r27, 0));
    m := m.(r4 := Add32(m.r3, -0x140), r1 := WINDOW);
    if Signed(m.r4) > 0 {
      m := m.(r3 := 0x140);
    }
    assert m.r3 == |Chunk(list, i)|;
    m := m.(r30 := m.r3, r31 := 0x1178, r3 := Add32(m.r3, -1));
    dma := Transfer(m.r1, m.r2, Add32(m.r3, 1));
    WindowFilled(m, ptr, list, i);
    m := DmaRead(m);
    pc := Return(m.r31);
  }

  lemma LoadDirect(m: Memory, a: nat)
    requires a + 4 <= SIZE
    ensures LoadWord(m, a) == WordAt(m, a)
  {
    forall k | 0 <= k < 4 ensures Load(m, a, 4)[k] == m[a + k] {
      assert Wrap(a + k) == a + k;
    }
  }

  lemma WindowHolds(m: Machine, list: seq<byte>, b: nat, i: nat, o: nat)
    requires Windowed(m, list, b, i) && Signed(m.r30) > 0
    requires o <= 4 && 8 * i + 8 <= |list|
    ensures LoadWord(m.dmem, m.r29 + o) == WordAt(list, 8 * i + o)
  {
    var chunk, off := Chunk(list, b), 8 * (i - b) + o;
    assert off + 4 <= |chunk|;
    LoadDirect(m.dmem, m.r29 + o);
    var w := m.dmem[WINDOW..WINDOW + |chunk|];
    assert w[off] == chunk[off] && w[off + 1] == chunk[off + 1] && w[off + 2] == chunk[off + 2]
           && w[off + 3] == chunk[off + 3];
  }

  /** The pair under r29 is the next command, when its eight bytes are all in the list. */
  lemma Fetched(m: Machine, list: seq<byte>, b: nat, i: nat)
    requires Windowed(m, list, b, i) && (Signed(m.r30) > 0 || (list == [] && i == 0))
    ensures Due(8 * i, |list|) && m.r29 + 8 <= WINDOW + WINDOW_SIZE
    ensures 8 * i + 8 <= |list| ==> (LoadWord(m.dmem, m.r29), LoadWord(m.dmem, m.r29 + 4)) == Command(list, i)
  {
    if 8 * i + 8 <= |list| {
      WindowHolds(m, list, b, i, 0);
      WindowHolds(m, list, b, i, 4);
    }
  }

  /** Shifted right by 23 and masked, a word is twice the low seven bits of its first byte. */
  lemma OpcodeIndex(first: byte, rest: nat)
    requires rest < 0x100_0000
    ensures (first as int * 0x100_0000 + rest) / 0x80_0000 % 0x100 / 2 * 2 == 2 * (first as int % 0x80)
  {
    var t := if rest < 0x80_0000 then 0 else 1;
    assert (first as int * 0x100_0000 + rest) / 0x80_0000 == 2 * (first as int) + t;
    if first < 0x80 {
      assert (2 * (first as int) + t) % 0x100 == 2 * (first as int) + t;
    } else {
      assert (2 * (first as int) + t) % 0x100 == 2 * (first as int) + t - 0x100;
    }
  }

  lemma CommandIndex(list: seq<byte>, j: nat)
    requires 8 * j + 8 <= |list|
    ensures Command(list, j).0 / 0x80_0000 % 0x100 / 2 * 2 == 2 * (list[8 * j] as int % 0x80)
  {
    OpcodeIndex(list[8 * j], WordAt(list, 8 * j) - list[8 * j] as int * 0x100_0000);
  }

  /** Taking a pair moves both places on. */
  lemma WindowMoves(m: Machine, h: Machine, ptr: nat, list: seq<byte>, b: nat, i: nat)
    requires At(L10E4, m, ptr, list, i, b)
    requires h == m.(r1 := h.r1, r2 := h.r2, r25 := h.r25, r26 := h.r26, r27 := Add32(m.r27, -8), r28 := Add32(m.r28, 8),
                  r29 := Add32(m.r29, 8), r30 := Add32(m.r30, -8))
    ensures Taken(h, ptr, list, i + 1) && Windowed(h, list, b, i + 1)
    ensures Signed(h.r27) == Signed(m.r27) - 8 && 0 <= Signed(m.r27)
  {
    Fetched(m, list, b, i);
    hide HoldsList, LoadWord, Command;
  }

  /** The registers after a fetch are those a handler is entered with. */
  lemma FetchArrives(m: Machine, h: Machine, ptr: nat, list: seq<byte>, b: nat, i: nat)
    requires At(L10E4, m, ptr, list, i, b)
    requires var w := LoadWord(m.dmem, m.r29);
             h == m.(r1 := w / 0x80_0000 % 0x100 / 2 * 2, r2 := LoadHalf(m.dmem, JUMPS + w / 0x80_0000 % 0x100 / 2 * 2),
             r26 := w, r25 := LoadWord(m.dmem, m.r29 + 4), r27 := Add32(m.r27, -8), r28 := Add32(m.r28, 8),
             r29 := Add32(m.r29, 8), r30 := Add32(m.r30, -8))
    ensures At(Handler, h, ptr, list, i + 1, b)
    ensures Signed(h.r27) == Signed(m.r27) - 8 && 0 <= Signed(m.r27)
    ensures 8 * i + 8 <= |list| ==> (h.r26, h.r25) == Command(list, i) && h.r1 == 2 * (list[8 * i] as int % 0x80)
    ensures h.r2 == LoadHalf(h.dmem, JUMPS + h.r1)
  {
    Fetched(m, list, b, i);
    WindowMoves(m, h, ptr, list, b, i);
    hide LoadWord, LoadHalf, Command, Windowed, Taken, Add32, Signed;
    if 8 * i + 8 <= |list| {
      CommandIndex(list, i);
    }
  }

  /** L_10E4: take the pair under r29 and advance the four fetch registers. */
  method Fetch(m0: Machine, ghost ptr: nat, ghost list: seq<byte>, ghost i: nat, ghost b: nat)
    returns (m: Machine, taken: (word, word))
    requires At(L10E4, m0, ptr, list, i, b)
    ensures At(Handler, m, ptr, list, i + 1, b)
    ensures Signed(m.r27) == Signed(m0.r27) - 8 && 0 <= Signed(m0.r27)
    ensures taken == (m.r26, m.r25) && m.dmem == m0.dmem
    ensures 8 * i + 8 <= |list| ==> taken == Command(list, i) && m.r1 == 2 * (list[8 * i] as int % 0x80)
    ensures m.r2 == LoadHalf(m.dmem, JUMPS + m.r1)
  {
    hide At, LoadWord, LoadHalf, Command, Signed;
    m := m0.(r26 := LoadWord(m0.dmem, m0.r29), r25 := LoadWord(m0.dmem, m0.r29 + 4));
    taken := (m.r26, m.r25);
    m := m.(r1 := m.r26 / 0x80_0000);
    m := m.(r1 := m.r1 % 0x100 / 2 * 2, r28 := Add32(m.r28, 8), r27 := Add32(m.r27, -8));
    m := m.(r29 := Add32(m.r29, 8), r30 := Add32(m.r30, -8));
    m := m.(r2 := Add32(0, m.r1));
    m := m.(r2 := LoadHalf(m.dmem, JUMPS + m.r2));
    FetchArrives(m0, m, ptr, list, b, i);
  }

  /** How many commands have been handled at a label, the last one taken not yet if it is about to be. */
  function Handled(pc: Label, i: nat): nat { if pc == Handler && i > 0 then i - 1 else i }

  ghost predicate OnCourse(m: Machine, pc: Label, trace: seq<(word, word)>, dmas: seq<Transfer>,
                           upkeep: Upkeep, ptr: nat,
                           list: seq<byte>, b: nat) {
    && At(pc, m, ptr, list, |trace|, b) && InOrder(trace, list) && Refilled(dmas, pc, ptr, |list|, |trace|, b)
    && upkeep(Handled(pc, |trace|), m.dmem)
  }

  /** The task header gives the list's address and length. */
  method Prologue(start: Machine, ghost upkeep: Upkeep, ghost list: seq<byte>) returns (m: Machine)
    requires Listed(start, list) && upkeep(0, start.dmem)
    ensures m.r28 == LoadWord(start.dmem, 0xFF0) && At(L10B4, m, m.r28, list, 0, 0)
    ensures OnCourse(m, L10B4, [], [], upkeep, m.r28, list, 0)
  {
    m := start.(r1 := TASK, r24 := 0x360, r23 := 0xF90);
    m := m.(r28 := LoadWord(m.dmem, m.r1 + 0x30));
    m := m.(r27 := LoadWord(m.dmem, m.r1 + 0x34));
  }

  /** How much of the list r27 says is left, kept from going negative by the last short command. */
  function Left(m: Machine): int { Signed(m.r27) + 8 }

  lemma RefillSnoc(dmas: seq<Transfer>, dma: Transfer, ptr: nat, len: nat, i: nat, b: nat)
    requires Refilled(dmas, L1150, ptr, len, i, b) && Due(8 * i, len)
    requires dma == Transfer(WINDOW, ptr + 8 * i, Min(len - 8 * i, WINDOW_SIZE))
    ensures Refilled(dmas + [dma], L1178, ptr, len, i, i)
  {
  }

  lemma RefillMoved(dmas: seq<Transfer>, from: Label, to: Label, ptr: nat, len: nat, i: nat, j: nat, b: nat)
    requires Refilled(dmas, from, ptr, len, i, b) && from != L10B4 && from != L1150 && to != L10B4 && to != L1150
    ensures Refilled(dmas, to, ptr, len, j, b)
  {
  }

  lemma RefillKept(dmas: seq<Transfer>, from: Label, to: Label, ptr: nat, len: nat, i: nat, b: nat)
    requires Refilled(dmas, from, ptr, len, i, b) && from != L1150 && to != L10B4
    requires if from == L10B4 then to == L1150 && i == 0 else to == L1150 ==> 8 * i == 8 * b + WINDOW_SIZE
    ensures Refilled(dmas, to, ptr, len, i, b)
  {
  }

  const ZEROS: seq<byte> := [0, 0, 0, 0]

  lemma StoredAgain(m: Memory, a: nat, v: seq<byte>)
    ensures Stored(Stored(m, a, v), a, v) == Stored(m, a, v)
  {
  }

  /** L_10C0 and the loop at L_10C8.  r1 is not advanced: all sixteen passes clear the same word. */
  method ClearTable(m0: Machine) returns (m: Machine, passes: nat)
    ensures passes == 16
    ensures m == m0.(r1 := TABLE, r2 := 0xFFFF_FFFF, dmem := Stored(m0.dmem, TABLE, ZEROS))
  {
    m := m0.(r2 := 0xF, r1 := TABLE);
    passes := 0;
    hide Stored;
    while true
      invariant passes <= 15 && Signed(m.r2) == 15 - passes
      invariant m == m0.(r1 := TABLE, r2 := m.r2, dmem := if passes == 0 then m0.dmem else Stored(m0.dmem, TABLE, ZEROS))
      decreases 15 - passes
    {
      StoredAgain(m0.dmem, TABLE, ZEROS);
      m := m.(dmem := Stored(m.dmem, m.r1, ZEROS));
      passes := passes + 1;
      if Signed(m.r2) <= 0 {
        m := m.(r2 := Add32(m.r2, -1));
        break;
      }
      m := m.(r2 := Add32(m.r2, -1));
    }
  }

  lemma StoredElsewhere(m: Memory, a: nat, v: seq<byte>, lo: nat, hi: nat)
    requires a + |v| <= lo <= hi <= SIZE
    ensures Stored(m, a, v)[lo..hi] == m[lo..hi]
  {
    forall k | lo <= k < hi ensures Stored(m, a, v)[k] == m[k] {
      WrapUnique(k - a, k - a, 0);
    }
  }

  /** Clearing the segment table cell does not reach the window. */
  lemma WindowSurvives(m: Machine, list: seq<byte>, i: nat, a: nat, v: seq<byte>)
    requires Windowed(m, list, i, i) && a + |v| <= WINDOW
    ensures Windowed(m.(dmem := Stored(m.dmem, a, v)), list, i, i)
    ensures a == TABLE && |v| == 4 ==> AgreeElsewhere(m.dmem, Stored(m.dmem, a, v))
  {
    StoredElsewhere(m.dmem, a, v, WINDOW, WINDOW + |Chunk(list, i)|);
    forall k | 0 <= k < SIZE && !(a <= k < a + |v|) ensures Stored(m.dmem, a, v)[k] == m.dmem[k] {
      StoredOutside(m.dmem, a, v, k);
    }
  }

  /** The labels that only move registers about, and the clearing of the segment table. */
  method Step(m0: Machine, pc0: Label, ghost ptr: nat, ghost list: seq<byte>, ghost i: nat, ghost b: nat)
    returns (m: Machine, pc: Label)
    requires At(pc0, m0, ptr, list, i, b) && pc0 != L1150 && pc0 != L10E4 && pc0 != Handler && pc0 != L1138
    ensures At(pc, m, ptr, list, i, b) && m.r27 == m0.r27
    ensures AgreeElsewhere(m0.dmem, m.dmem)
    ensures pc0 == L10B4 ==> pc == L1150 && i == 0
    ensures pc == L1150 ==> pc0 == L10B4 || 8 * i == 8 * b + WINDOW_SIZE
    ensures pc != L10B4 && pc != Handler
    ensures Rank(pc) < Rank(pc0)
    ensures pc0 == L10C0 ==> m.dmem == Stored(m0.dmem, TABLE, ZEROS)
  {
    m := m0;
    match pc0
    case L10B4 =>
      m := m.(r31 := 0x10C0);
      pc := L1150;
    case L1178 =>
      m := m.(r29 := WINDOW);
      pc := Return(m.r5);
    case L10C0 =>
      var passes;
      WindowSurvives(m, list, i, TABLE, ZEROS);
      m, passes := ClearTable(m);
      pc := L10D4;
    case L10D4 =>
      m := m.(r2 := 0, r29 := WINDOW);
      pc := L10E4;
    case L1118 =>
      if Signed(m.r30) > 0 {
        pc := L10E4;
      } else if Signed(m.r27) <= 0 {
        pc := L1138;
      } else {
        m := m.(r31 := 0x1130);
        pc := L1150;
      }
    case L1130 =>
      pc := L10D4;
  }

  lemma HandlerKeeps(m: Machine, handle: Machine -> Machine, upkeep: Upkeep, ptr: nat, list: seq<byte>, i: nat, b: nat)
    requires LeavesFetchAlone(handle, upkeep, ptr, list) && At(Handler, m, ptr, list, i, b)
    requires upkeep(Handled(Handler, i), m.dmem)
    ensures At(L1118, handle(m), ptr, list, i, b) && handle(m).r27 == m.r27 && upkeep(i, handle(m).dmem)
  {
    assert i - 1 < Parts(|list|, 8);
    assert Entered(m, ptr, list, i - 1);
    var h, n := handle(m), |Chunk(list, b)|;
    assert KeepsFetch(m, h, ptr, list);
    assert h.dmem[WINDOW..WINDOW + n] == Window(h.dmem)[..n];
    assert m.dmem[WINDOW..WINDOW + n] == Window(m.dmem)[..n];
  }

  /** What the fetch code itself does to the data memory is overlooked. */
  lemma UpkeepStays(handle: Machine -> Machine, upkeep: Upkeep, ptr: nat, list: seq<byte>, i: nat, d: Memory, e: Memory)
    requires LeavesFetchAlone(handle, upkeep, ptr, list) && upkeep(i, d) && AgreeElsewhere(d, e)
    ensures upkeep(i, e)
  {
  }

  /** From one label to the next. */
  method Advance(m0: Machine, pc0: Label, trace0: seq<(word, word)>, dmas0: seq<Transfer>, handle: Machine -> Machine,
                 ghost upkeep: Upkeep, ghost ptr: nat, ghost list: seq<byte>, ghost b0: nat)
    returns (m: Machine, pc: Label, trace: seq<(word, word)>, dmas: seq<Transfer>, ghost b: nat)
    requires OnCourse(m0, pc0, trace0, dmas0, upkeep, ptr, list, b0) && pc0 != L1138
    requires LeavesFetchAlone(handle, upkeep, ptr, list)
    ensures OnCourse(m, pc, trace, dmas, upkeep, ptr, list, b)
    ensures 0 <= Left(m) < Left(m0) || (Left(m) == Left(m0) && Rank(pc) < Rank(pc0))
  {
    hide At, LeavesFetchAlone, InOrder, Refilled, Command, Wrap, Stored, AgreeElsewhere;
    m, pc, trace, dmas, b := m0, pc0, trace0, dmas0, b0;
    if pc0 == L1150 {
      var dma;
      m, pc, dma := Refill(m0, ptr, list, |trace|, b);
      UpkeepStays(handle, upkeep, ptr, list, |trace|, m0.dmem, m.dmem);
      RefillSnoc(dmas, dma, ptr, |list|, |trace|, b);
      dmas := dmas + [dma];
      b := |trace|;
    } else if pc0 == L10E4 {
      var taken;
      m, taken := Fetch(m0, ptr, list, |trace|, b);
      InOrderSnoc(trace, taken, list);
      RefillMoved(dmas, L10E4, Handler, ptr, |list|, |trace|, |trace| + 1, b);
      trace := trace + [taken];
      pc := Handler;
    } else if pc0 == Handler {
      HandlerKeeps(m0, handle, upkeep, ptr, list, |trace|, b);
      RefillMoved(dmas, Handler, L1118, ptr, |list|, |trace|, |trace|, b);
      m := handle(m0);
      pc := L1118;
    } else {
      m, pc := Step(m0, pc0, ptr, list, |trace|, b);
      UpkeepStays(handle, upkeep, ptr, list, |trace|, m0.dmem, m.dmem);
      RefillKept(dmas, pc0, pc, ptr, |list|, |trace|, b);
    }
  }

  /** At the final break the list has been fetched and walked. */
  lemma Finished(m: Machine, trace: seq<(word, word)>, dmas: seq<Transfer>, upkeep: Upkeep, ptr: nat,
                 list: seq<byte>, b: nat)
    requires OnCourse(m, L1138, trace, dmas, upkeep, ptr, list, b)
    ensures WalkedOnce(trace, list) && FetchedOnce(dmas, ptr, |list|)
  {
    forall j | 0 <= j < |list| / 8 ensures trace[j] == Command(list, j) {
      InOrderAt(trace, list, j);
    }
    var n := |dmas|;
    assert 0x140 * (n - 1) < |list| <= 0x140 * n || (list == [] && n == 1);
  }

  lemma Ended(m: Machine, trace: seq<(word, word)>, dmas: seq<Transfer>, upkeep: Upkeep, ptr: nat,
              list: seq<byte>, b: nat)
    requires OnCourse(m, L1138, trace, dmas, upkeep, ptr, list, b)
    ensures upkeep(|trace|, m.dmem)
  {
  }

  /**
    The command processor, from L_10B4 to the final break.  `trace` records the words of
    each dispatched command, `dmas` each refill.
   */
  method RunTask(start: Machine, handle: Machine -> Machine, ghost upkeep: Upkeep, ghost list: seq<byte>)
    returns (end: Machine, trace: seq<(word, word)>, dmas: seq<Transfer>)
    requires Listed(start, list) && upkeep(0, start.dmem)
    requires LeavesFetchAlone(handle, upkeep, LoadWord(start.dmem, 0xFF0), list)
    ensures WalkedOnce(trace, list)
    ensures FetchedOnce(dmas, LoadWord(start.dmem, 0xFF0), |list|)
    ensures upkeep(|trace|, end.dmem)
  {
    var m := Prologue(start, upkeep, list);
    var pc := L10B4;
    trace, dmas := [], [];
    ghost var ptr := m.r28;
    ghost var b: nat := 0;
    hide *;
    while pc != L1138
      invariant OnCourse(m, pc, trace, dmas, upkeep, ptr, list, b)
      decreases Left(m), Rank(pc)
    {
      m, pc, trace, dmas, b := Advance(m, pc, trace, dmas, handle, upkeep, ptr, list, b);
    }
    Finished(m, trace, dmas, upkeep, ptr, list, b);
    Ended(m, trace, dmas, upkeep, ptr, list, b);
    end := m.(r1 := 0x4000);
  }

  /** The segment table is all zeros after the loop if and only if everything past its first word was zero before. */
  lemma TableClearedIff(d: Memory)
    ensures (forall k :: 0x320 <= k < 0x360 ==> Stored(d, TABLE, ZEROS)[k] == 0)
       <==> (forall k :: 0x324 <= k < 0x360 ==> d[k] == 0)
  {
    var after := Stored(d, TABLE, ZEROS);
    forall k | TABLE <= k < TABLE + 0x40 ensures after[k] == if k < TABLE + 4 then 0 else d[k] {
      WrapUnique(k - TABLE, k - TABLE, 0);
    }
  }
}
