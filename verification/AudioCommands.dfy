/**
  The modelled commands byte by byte: what the eight bytes of a command in the list make of the
  data memory when the command processor dispatches it.
 */
module AudioCommands {
  import opened Bytes
  import opened Dmem
  import opened AudioFetch
  import opened AudioHandlers
  import opened AudioBlocks
  import opened AudioWeave
  import opened AudioReach
  import opened AudioMix

  lemma Digits(b0: byte, b1: byte, b2: byte, b3: byte, w: word)
    requires w == b0 as int * 0x100_0000 + b1 as int * 0x1_0000 + b2 as int * 0x100 + b3 as int
    ensures w / 0x100_0000 == b0 as int && w / 0x1_0000 % 0x100 == b1 as int && w / 0x100 % 0x100 == b2 as int && w % 0x100 == b3 as int
    ensures w / 0x1_0000 == 256 * (b0 as int) + b1 as int && w % 0x1_0000 == 256 * (b2 as int) + b3 as int
    ensures w % 0x100_0000 == 0x1_0000 * (b1 as int) + 256 * (b2 as int) + b3 as int
  {
    assert w / 0x1_0000 == 256 * (b0 as int) + b1 as int;
    assert w / 0x100 == 256 * (256 * (b0 as int) + b1 as int) + b2 as int;
  }

  /** The jump through the table at entry: a sign-extended halfword, most significant byte first. */
  lemma JumpTarget(m: Machine, opcode: nat)
    requires opcode < 0x80 && m.r1 == 2 * opcode && m.r2 == LoadHalf(m.dmem, JUMPS + m.r1)
    ensures m.r2 % 0x1_0000 == 256 * (m.dmem[0x10 + 2 * opcode] as int) + m.dmem[0x11 + 2 * opcode] as int
    ensures m.r2 / 0x1_0000 == if m.dmem[0x10 + 2 * opcode] >= 0x80 then 0xFFFF else 0
  {
  }

  /**
    A command of the list enters its handler with r26 and r25 its two words, most significant byte
    first, and leaves for the address the jump table holds for the low seven bits of its first byte.
   */
  lemma EnteredWithBytes(m: Machine, ptr: nat, list: seq<byte>, j: nat)
    requires Entered(m, ptr, list, j) && 8 * j + 8 <= |list|
    ensures m.r26 / 0x100_0000 == list[8 * j] as int && m.r26 / 0x1_0000 % 0x100 == list[8 * j + 1] as int
    ensures m.r26 / 0x100 % 0x100 == list[8 * j + 2] as int && m.r26 % 0x100 == list[8 * j + 3] as int
    ensures m.r25 / 0x100_0000 == list[8 * j + 4] as int && m.r25 / 0x1_0000 % 0x100 == list[8 * j + 5] as int
    ensures m.r25 / 0x100 % 0x100 == list[8 * j + 6] as int && m.r25 % 0x100 == list[8 * j + 7] as int
    ensures m.r1 == 2 * (list[8 * j] as int % 0x80)
    ensures var place := 0x10 + 2 * (list[8 * j] as int % 0x80);
            && m.r2 % 0x1_0000 == 256 * (m.dmem[place] as int) + m.dmem[place + 1] as int
            && m.r2 / 0x1_0000 == if m.dmem[place] >= 0x80 then 0xFFFF else 0
  {
    Digits(list[8 * j], list[8 * j + 1], list[8 * j + 2], list[8 * j + 3], m.r26);
    Digits(list[8 * j + 4], list[8 * j + 5], list[8 * j + 6], list[8 * j + 7], m.r25);
    JumpTarget(m, list[8 * j] % 0x80);
  }

  /** The halves of its words that the handlers take apart. */
  lemma EnteredWithHalves(m: Machine, ptr: nat, list: seq<byte>, j: nat)
    requires Entered(m, ptr, list, j) && 8 * j + 8 <= |list|
    ensures Low(m.r26) == 256 * (list[8 * j + 2] as int) + list[8 * j + 3] as int
    ensures High(m.r25) == 256 * (list[8 * j + 4] as int) + list[8 * j + 5] as int
    ensures Low(m.r25) == 256 * (list[8 * j + 6] as int) + list[8 * j + 7] as int
    ensures m.r25 % 0x100_0000 == 0x1_0000 * (list[8 * j + 5] as int) + 256 * (list[8 * j + 6] as int) + list[8 * j + 7] as int
  {
    Digits(list[8 * j], list[8 * j + 1], list[8 * j + 2], list[8 * j + 3], m.r26);
    Digits(list[8 * j + 4], list[8 * j + 5], list[8 * j + 6], list[8 * j + 7], m.r25);
  }

  lemma StoredBytes(d: Memory, a: nat, v: seq<byte>, k: nat)
    requires a + |v| <= SIZE && k < SIZE
    ensures Stored(d, a, v)[k] == if a <= k < a + |v| then v[k - a] else d[k]
  {
    if a <= k < a + |v| {
      StoredInPlace(d, a, v);
      assert Stored(d, a, v)[a..a + |v|][k - a] == Stored(d, a, v)[k];
    } else {
      StoredOutside(d, a, v, k);
    }
  }

  lemma WordBytesOf(b0: byte, b1: byte, b2: byte, b3: byte, w: word)
    requires w == b0 as int * 0x100_0000 + b1 as int * 0x1_0000 + b2 as int * 0x100 + b3 as int
    ensures WordBytes(w) == [b0, b1, b2, b3]
  {
    Digits(b0, b1, b2, b3, w);
  }

  lemma SegmentStores(d: Memory, w: word, b0: byte, b1: byte, b2: byte, b3: byte, k: nat)
    requires w == b0 as int * 0x100_0000 + b1 as int * 0x1_0000 + b2 as int * 0x100 + b3 as int && k < SIZE
    ensures SegmentStored(d, w)[k]
         == var a := 0x320 + 4 * (b0 as int); if a <= k < a + 4 then [0, b1, b2, b3][k - a] else d[k]
  {
    var a := 0x320 + 4 * (b0 as int);
    Digits(b0, b1, b2, b3, w);
    WordBytesOf(0, b1, b2, b3, w % 0x100_0000);
    hide Stored, WordBytes;
    assert SegmentStored(d, w) == Stored(d, a, WordBytes(w % 0x100_0000));
    StoredBytes(d, a, [0, b1, b2, b3], k);
  }

  lemma SegmentWritten(m: Machine)
    ensures SetSegment(m).dmem == SegmentStored(m.dmem, m.r25)
  {
    hide SegmentStored;
  }

  /**
    A segment command stores its last three bytes, below a zero, in the table word that its fifth
    byte numbers, and nothing else.
   */
  lemma SegmentByBytes(m: Machine, table: nat -> Op, v1: Machine -> Quadword, v2: Machine -> Quadword, ptr: nat,
                       list: seq<byte>, j: nat, k: nat)
    requires Entered(m, ptr, list, j) && 8 * j + 8 <= |list| && table(list[8 * j] as int % 0x80) == Segments && k < SIZE
    ensures Dispatch(table, v1, v2)(m).dmem[k]
         == var a := 0x320 + 4 * (list[8 * j + 4] as int);
            if k == a then 0 else if a < k < a + 4 then list[8 * j + 4 + k - a] else m.dmem[k]
  {
    SegmentStores(m.dmem, m.r25, list[8 * j + 4], list[8 * j + 5], list[8 * j + 6], list[8 * j + 7], k);
    hide SegmentStored, SetSegment;
    assert m.r1 / 2 == list[8 * j] as int % 0x80;
    assert Dispatch(table, v1, v2)(m) == SetSegment(m);
    hide Dispatch, Entered;
    SegmentWritten(m);
  }

  lemma HalfStored(d: Memory, a: nat, w: word)
    requires a + 2 <= SIZE
    ensures var after := Stored(d, a, HalfBytes(w));
            256 * (after[a] as int) + after[a + 1] as int == w % 0x1_0000
    ensures forall k :: 0 <= k < SIZE && k != a && k != a + 1 ==> Stored(d, a, HalfBytes(w))[k] == d[k]
  {
    StoredBytes(d, a, HalfBytes(w), a);
    StoredBytes(d, a, HalfBytes(w), a + 1);
    assert w % 0x1_0000 == 256 * (w / 0x100 % 0x100) + w % 0x100;
    forall k | 0 <= k < SIZE && k != a && k != a + 1 ensures Stored(d, a, HalfBytes(w))[k] == d[k] {
      StoredBytes(d, a, HalfBytes(w), k);
    }
  }

  /** Three halfwords stored one after the other, in different places. */
  lemma ThreeHalves(d: Memory, a1: nat, w1: word, a2: nat, w2: word, a3: nat, w3: word)
    requires a1 + 2 <= SIZE && a2 + 2 <= SIZE && a3 + 2 <= SIZE
    requires (a1 + 2 <= a2 || a2 + 2 <= a1) && (a1 + 2 <= a3 || a3 + 2 <= a1) && (a2 + 2 <= a3 || a3 + 2 <= a2)
    ensures var after := Stored(Stored(Stored(d, a1, HalfBytes(w1)), a2, HalfBytes(w2)), a3, HalfBytes(w3));
            && 256 * (after[a1] as int) + after[a1 + 1] as int == w1 % 0x1_0000
            && 256 * (after[a2] as int) + after[a2 + 1] as int == w2 % 0x1_0000
            && 256 * (after[a3] as int) + after[a3 + 1] as int == w3 % 0x1_0000
            && forall k :: 0 <= k < SIZE && k != a1 && k != a1 + 1 && k != a2 && k != a2 + 1 && k != a3 && k != a3 + 1
                           ==> after[k] == d[k]
  {
    hide *;
    var d1 := Stored(d, a1, HalfBytes(w1));
    var d2 := Stored(d1, a2, HalfBytes(w2));
    HalfStored(d, a1, w1);
    HalfStored(d1, a2, w2);
    HalfStored(d2, a3, w3);
  }

  /** A sum in a register, as far as its low half goes. */
  lemma LowOfSum(w: word, half: nat)
    requires w % 0x1_0000 == half
    ensures Add32(w, 0x5C0) % 0x1_0000 == (half + 0x5C0) % 0x1_0000
  {
    assert (w + 0x5C0) % 0x1_0000 == (w % 0x1_0000 + 0x5C0) % 0x1_0000;
  }

  lemma BuffersStore(m: Machine, first: nat, second: nat, third: nat)
    requires m.r24 == 0x360 && m.r26 % 0x1_0000 == first && m.r25 / 0x1_0000 == second && m.r25 % 0x1_0000 == third
    ensures var after := SetBuffers(m).dmem;
            if m.r26 / 0x1_0000 / 8 % 2 == 1 then
              && 256 * (after[0x36A] as int) + after[0x36B] as int == (first + 0x5C0) % 0x1_0000
              && 256 * (after[0x36C] as int) + after[0x36D] as int == (second + 0x5C0) % 0x1_0000
              && 256 * (after[0x36E] as int) + after[0x36F] as int == (third + 0x5C0) % 0x1_0000
              && forall k :: 0 <= k < SIZE && !(0x36A <= k < 0x370) ==> after[k] == m.dmem[k]
            else
              && 256 * (after[0x360] as int) + after[0x361] as int == (first + 0x5C0) % 0x1_0000
              && 256 * (after[0x362] as int) + after[0x363] as int == (second + 0x5C0) % 0x1_0000
              && 256 * (after[0x364] as int) + after[0x365] as int == third
              && forall k :: 0 <= k < SIZE && !(0x360 <= k < 0x366) ==> after[k] == m.dmem[k]
  {
    LowOfSum(m.r26, first);
    LowOfSum(m.r25 / 0x1_0000, second);
    LowOfSum(m.r25, third);
    var r1, r2, r3 := Add32(m.r26, 0x5C0), Add32(m.r25 / 0x1_0000, 0x5C0), Add32(m.r25, 0x5C0);
    hide Stored, HalfBytes, Add32;
    if m.r26 / 0x1_0000 / 8 % 2 == 1 {
      ThreeHalves(m.dmem, 0x36E, r3, 0x36A, r1, 0x36C, r2);
    } else {
      ThreeHalves(m.dmem, 0x360, r1, 0x362, r2, 0x364, m.r25);
    }
  }

  lemma BuffersDispatched(m: Machine, table: nat -> Op, v1: Machine -> Quadword, v2: Machine -> Quadword)
    requires table(m.r1 / 2) == Buffers
    ensures Dispatch(table, v1, v2)(m) == SetBuffers(m)
  {
    hide SetBuffers;
  }

  lemma BitOfByte(b0: byte, b1: byte, h: nat)
    requires h == 256 * (b0 as int) + b1 as int
    ensures h / 8 % 2 == b1 as int / 8 % 2
  {
    assert h / 8 == 2 * (16 * (b0 as int)) + b1 as int / 8;
  }

  lemma FirstHalf(m: Machine, ptr: nat, list: seq<byte>, j: nat)
    requires Entered(m, ptr, list, j) && 8 * j + 8 <= |list|
    ensures m.r24 == 0x360 && m.r1 / 2 == list[8 * j] as int % 0x80
    ensures m.r26 / 0x1_0000 / 8 % 2 == list[8 * j + 1] as int / 8 % 2
  {
    Digits(list[8 * j], list[8 * j + 1], list[8 * j + 2], list[8 * j + 3], m.r26);
    BitOfByte(list[8 * j], list[8 * j + 1], m.r26 / 0x1_0000);
  }

  /**
    A buffer command with bit 3 of its second byte set stores its three offsets, made relative to
    the buffers, at 0x36A, 0x36C and 0x36E; without it the first two at 0x360 and 0x362, and its last
    two bytes as they are at 0x364.
   */
  lemma BuffersByBytes(m: Machine, table: nat -> Op, v1: Machine -> Quadword, v2: Machine -> Quadword, ptr: nat,
                       list: seq<byte>, j: nat, first: nat, second: nat, third: nat)
    requires Entered(m, ptr, list, j) && 8 * j + 8 <= |list| && table(list[8 * j] as int % 0x80) == Buffers
    requires first == 256 * (list[8 * j + 2] as int) + list[8 * j + 3] as int
    requires second == 256 * (list[8 * j + 4] as int) + list[8 * j + 5] as int
    requires third == 256 * (list[8 * j + 6] as int) + list[8 * j + 7] as int
    ensures var after := Dispatch(table, v1, v2)(m).dmem;
            if list[8 * j + 1] as int / 8 % 2 == 1 then
              && 256 * (after[0x36A] as int) + after[0x36B] as int == (first + 0x5C0) % 0x1_0000
              && 256 * (after[0x36C] as int) + after[0x36D] as int == (second + 0x5C0) % 0x1_0000
              && 256 * (after[0x36E] as int) + after[0x36F] as int == (third + 0x5C0) % 0x1_0000
              && forall k :: 0 <= k < SIZE && !(0x36A <= k < 0x370) ==> after[k] == m.dmem[k]
            else
              && 256 * (after[0x360] as int) + after[0x361] as int == (first + 0x5C0) % 0x1_0000
              && 256 * (after[0x362] as int) + after[0x363] as int == (second + 0x5C0) % 0x1_0000
              && 256 * (after[0x364] as int) + after[0x365] as int == third
              && forall k :: 0 <= k < SIZE && !(0x360 <= k < 0x366) ==> after[k] == m.dmem[k]
  {
    FirstHalf(m, ptr, list, j);
    EnteredWithHalves(m, ptr, list, j);
    BuffersStore(m, first, second, third);
    hide *;
    BuffersDispatched(m, table, v1, v2);
  }

  lemma LineOfTurn(a: nat)
    ensures a % 0x1000 % 16 == a % 16
  {
    var t, u := a / 0x1000, a % 0x1000;
    assert a == 16 * (0x100 * t + u / 16) + u % 16;
  }

  /** Which bytes lie in the same line of sixteen. */
  lemma SameLine(a: nat, i: nat)
    requires i < 16
    ensures a % 0x1000 % 16 == a % 16
    ensures a / 16 == (a + i) / 16 <==> i < 16 - a % 16
  {
    var q, r := a / 16, a % 16;
    assert a == 16 * q + r;
    if r + i < 16 {
      assert (16 * q + (r + i)) / 16 == q;
    } else {
      assert (16 * q + 16 + (r + i - 16)) / 16 == q + 1;
    }
    LineOfTurn(a);
  }

  /**
    A quadword load fills a register from the address to the end of its 16-byte line and leaves the
    rest of it as it was.
   */
  lemma QuadByBytes(d: Memory, a: nat, reg: Quadword, i: nat)
    requires i < 16
    ensures LoadQuad(d, a, reg)[i] == if a / 16 == (a + i) / 16 then d[(a + i) % 0x1000] else reg[i]
  {
    WrapIsMod(a);
    WrapIsMod(a + i);
    SameLine(a, i);
    hide Wrap;
  }

  /** A count rounded up to whole blocks. */
  lemma RoundedUp(count: nat, len: nat)
    requires count <= len < count + 16 && len % 16 == 0
    ensures 16 * Blocks(count) == len
  {
    BlocksIs(count, len / 16);
  }

  lemma ClearDispatched(m: Machine, table: nat -> Op, v1: Machine -> Quadword, v2: Machine -> Quadword)
    requires table(m.r1 / 2) == Clearing
    ensures Dispatch(table, v1, v2)(m).dmem == Cleared(m.dmem, Low(m.r26) + BUFFERS, 16 * Blocks(Low(m.r25)))
  {
    hide Wrap;
    ClearedIs(m.dmem, m.dmem, Low(m.r26) + BUFFERS, 0);
  }

  /**
    A clear command zeroes, from the offset in its third and fourth bytes, as many bytes as its last
    two say, rounded up to sixteen, going round the memory, and nothing else.
   */
  lemma ClearByBytes(m: Machine, table: nat -> Op, v1: Machine -> Quadword, v2: Machine -> Quadword, ptr: nat,
                     list: seq<byte>, j: nat, dst: nat, count: nat, len: nat, k: nat)
    requires Entered(m, ptr, list, j) && 8 * j + 8 <= |list| && table(list[8 * j] as int % 0x80) == Clearing
    requires dst == 0x5C0 + 256 * (list[8 * j + 2] as int) + list[8 * j + 3] as int
    requires count == 256 * (list[8 * j + 6] as int) + list[8 * j + 7] as int
    requires count <= len < count + 16 && len % 16 == 0 && k < SIZE
    ensures Dispatch(table, v1, v2)(m).dmem[k] == if (k - dst) % 0x1000 < len then 0 else m.dmem[k]
  {
    FirstHalf(m, ptr, list, j);
    EnteredWithHalves(m, ptr, list, j);
    ClearDispatched(m, table, v1, v2);
    RoundedUp(count, len);
    WrapIsMod(k - dst);
    hide Entered, Wrap, Low, Blocks, Dispatch;
  }

  lemma MoveDispatched(m: Machine, table: nat -> Op, v1: Machine -> Quadword, v2: Machine -> Quadword)
    requires table(m.r1 / 2) == Moving
    ensures Dispatch(table, v1, v2)(m).dmem == AfterMoves(m.dmem, Low(m.r26) + BUFFERS, High(m.r25) + BUFFERS, Blocks(Low(m.r25)))
  {
    hide MoveBlock;
  }

  lemma CopyByOffsets(d: Memory, after: Memory, src: int, dst: int, len: nat, b: nat, k: nat)
    requires IsCopy(d, after, src, dst, len)
    ensures b < len ==> after[(dst + b) % 0x1000] == d[(src + b) % 0x1000]
    ensures k < SIZE && (k - dst) % 0x1000 >= len ==> after[k] == d[k]
  {
    WrapIsMod(dst + b);
    WrapIsMod(src + b);
    WrapIsMod(k - dst);
    hide Wrap;
    if b < len {
      CopiedByte(d, after, src, dst, len, b);
    }
  }

  lemma MoveSafe(src: int, dst: int, n: nat)
    requires n <= 1 || (dst - src) % 0x1000 == 0 || (dst - src) % 0x1000 >= 16 * n
    ensures MoveIsSafe(src, dst, n)
  {
    WrapIsMod(dst - src);
    hide Wrap;
  }

  /**
    A move command copies, to the offset in its fifth and sixth bytes from that in its third and
    fourth, as many of the old bytes as its last two say, rounded up to sixteen, when the destination
    does not lie inside the source above its start; and changes nothing else.
   */
  lemma MoveByBytes(m: Machine, table: nat -> Op, v1: Machine -> Quadword, v2: Machine -> Quadword, ptr: nat,
                    list: seq<byte>, j: nat, src: nat, dst: nat, count: nat, len: nat, b: nat, k: nat)
    requires Entered(m, ptr, list, j) && 8 * j + 8 <= |list| && table(list[8 * j] as int % 0x80) == Moving
    requires src == 0x5C0 + 256 * (list[8 * j + 2] as int) + list[8 * j + 3] as int
    requires dst == 0x5C0 + 256 * (list[8 * j + 4] as int) + list[8 * j + 5] as int
    requires count == 256 * (list[8 * j + 6] as int) + list[8 * j + 7] as int
    requires count <= len < count + 16 && len % 16 == 0
    requires len <= 16 || (dst - src) % 0x1000 == 0 || (dst - src) % 0x1000 >= len
    ensures var after := Dispatch(table, v1, v2)(m).dmem;
            && (b < len ==> after[(dst + b) % 0x1000] == m.dmem[(src + b) % 0x1000])
            && (k < SIZE && (k - dst) % 0x1000 >= len ==> after[k] == m.dmem[k])
  {
    FirstHalf(m, ptr, list, j);
    EnteredWithHalves(m, ptr, list, j);
    MoveDispatched(m, table, v1, v2);
    RoundedUp(count, len);
    hide Entered, Dispatch, AfterMoves, Low, High, Wrap, Blocks;
    MoveSafe(src, dst, Blocks(count));
    MoveIsCopyIff(src, dst, Blocks(count));
    CopyByOffsets(m.dmem, AfterMoves(m.dmem, src, dst, Blocks(count)), src, dst, len, b, k);
  }

  lemma WeaveDispatched(m: Machine, table: nat -> Op, v1: Machine -> Quadword, v2: Machine -> Quadword)
    requires table(m.r1 / 2) == Weaving && m.r24 == 0x360
    ensures Dispatch(table, v1, v2)(m).dmem
         == Weave(m.dmem, v1(m), v2(m)).After(High(m.r25) + BUFFERS, Low(m.r25) + BUFFERS, HalfAt(m.dmem, 0x362),
                                              Blocks(HalfAt(m.dmem, 0x364))).mem
  {
    hide Wrap, HalfAt, High, Low;
    assert Weave(m.dmem, v1(m), v2(m)).After(High(m.r25) + BUFFERS, Low(m.r25) + BUFFERS, HalfAt(m.dmem, 0x362), 0).mem == m.dmem;
  }

  lemma PlaceOf(out: int, off: nat)
    requires off < SIZE
    ensures Wrap(out + off) == (out + off) % 0x1000 && Wrap(Wrap(out + off) - out) == off
  {
    WrapIsMod(out + off);
    WrapSum(out + off, -out);
    WrapUnique(off, off, 0);
  }

  /** Byte `r` of sample pair `i` lies at offset 4i + r of the output. */
  lemma WovenByteAt(d: Memory, after: Memory, left: int, right: int, out: int, len: nat, i: nat, r: nat)
    requires IsInterleave(d, after, left, right, out, len) && len <= SIZE && 4 * i + 4 <= len && r < 4
    ensures after[(out + (4 * i + r)) % 0x1000]
         == if r < 2 then d[(left + (2 * i + r)) % 0x1000] else d[(right + (2 * i + (r - 2))) % 0x1000]
  {
    hide Wrap, Lane;
    var off := 4 * i + r;
    var k := Wrap(out + off);
    PlaceOf(out, off);
    LaneIs(i, r);
    WrapIsMod(left + Lane(off));
    WrapIsMod(right + Lane(off));
    assert after[k] == WovenAt(d, left, right, out, len, k);
  }

  lemma AheadByOffsets(input: int, out: int, n: nat)
    requires n <= 1 || 16 * (n - 1) <= (input - out) % 0x1000 <= 0x1000 - 16 * n
    ensures StaysAhead(input, out, n)
  {
    WrapIsMod(input - out);
    hide Wrap;
  }

  lemma ElsewhereKept(d: Memory, after: Memory, left: int, right: int, out: int, len: nat, k: nat)
    requires IsInterleave(d, after, left, right, out, len) && k < SIZE && (k - out) % 0x1000 >= len
    ensures after[k] == d[k]
  {
    WrapIsMod(k - out);
    hide Wrap, Lane;
  }

  lemma HalfAtIs(d: Memory, a: nat)
    requires a + 2 <= SIZE
    ensures HalfAt(d, a) == 256 * (d[a] as int) + d[a + 1] as int
  {
  }

  lemma WeaveByOffsets(w: Weave, left: nat, right: nat, out: nat, n: nat, len: nat, i: nat, r: nat, k: nat)
    requires w.Valid() && left % 16 == 0 && right % 16 == 0 && len == 16 * n
    requires len <= 16 || len - 16 <= (left - out) % 0x1000 <= 0x1000 - len
    requires len <= 16 || len - 16 <= (right - out) % 0x1000 <= 0x1000 - len
    ensures var after := w.After(left, right, out, n).mem;
            && (2 * i + 2 <= len && r < 2 ==>
                  && after[(out + 4 * i + r) % 0x1000] == w.mem[(left + 2 * i + r) % 0x1000]
                  && after[(out + 4 * i + 2 + r) % 0x1000] == w.mem[(right + 2 * i + r) % 0x1000])
            && (k < SIZE && (k - out) % 0x1000 >= 2 * len ==> after[k] == w.mem[k])
  {
    hide Wrap, StaysAhead, IsInterleave, Weave.After;
    AheadByOffsets(left, out, n);
    AheadByOffsets(right, out, n);
    AlignedInterleaveIsRight(w, left, right, out, n);
    var after := w.After(left, right, out, n).mem;
    if 2 * i + 2 <= len && r < 2 {
      WovenByteAt(w.mem, after, left, right, out, 2 * len, i, r);
      WovenByteAt(w.mem, after, left, right, out, 2 * len, i, 2 + r);
      assert out + (4 * i + r) == out + 4 * i + r && out + (4 * i + (2 + r)) == out + 4 * i + 2 + r;
      assert left + (2 * i + r) == left + 2 * i + r && right + (2 * i + (2 + r - 2)) == right + 2 * i + r;
    }
    if k < SIZE && (k - out) % 0x1000 >= 2 * len {
      ElsewhereKept(w.mem, after, left, right, out, 2 * len, k);
    }
  }

  lemma WeaveDispatchedAt(m: Machine, table: nat -> Op, v1: Machine -> Quadword, v2: Machine -> Quadword,
                          left: nat, right: nat, out: nat, count: nat)
    requires table(m.r1 / 2) == Weaving && m.r24 == 0x360
    requires left == High(m.r25) + 0x5C0 && right == Low(m.r25) + 0x5C0
    requires out == 256 * (m.dmem[0x362] as int) + m.dmem[0x363] as int
    requires count == 256 * (m.dmem[0x364] as int) + m.dmem[0x365] as int
    ensures Weave(m.dmem, v1(m), v2(m)).Valid()
    ensures Dispatch(table, v1, v2)(m).dmem == Weave(m.dmem, v1(m), v2(m)).After(left, right, out, Blocks(count)).mem
  {
    HalfAtIs(m.dmem, 0x362);
    HalfAtIs(m.dmem, 0x364);
    WeaveDispatched(m, table, v1, v2);
    hide Dispatch, Low, High, HalfAt, Blocks, Weave.After;
  }

  lemma WeaveEntered(m: Machine, table: nat -> Op, v1: Machine -> Quadword, v2: Machine -> Quadword, ptr: nat,
                     list: seq<byte>, j: nat, left: nat, right: nat, out: nat, count: nat, len: nat)
    requires Entered(m, ptr, list, j) && 8 * j + 8 <= |list| && table(list[8 * j] as int % 0x80) == Weaving
    requires left == 0x5C0 + 256 * (list[8 * j + 4] as int) + list[8 * j + 5] as int
    requires right == 0x5C0 + 256 * (list[8 * j + 6] as int) + list[8 * j + 7] as int
    requires out == 256 * (m.dmem[0x362] as int) + m.dmem[0x363] as int
    requires count == 256 * (m.dmem[0x364] as int) + m.dmem[0x365] as int
    requires count <= len < count + 16 && len % 16 == 0
    ensures Weave(m.dmem, v1(m), v2(m)).Valid() && len == 16 * Blocks(count)
    ensures Dispatch(table, v1, v2)(m).dmem == Weave(m.dmem, v1(m), v2(m)).After(left, right, out, Blocks(count)).mem
  {
    hide *;
    FirstHalf(m, ptr, list, j);
    EnteredWithHalves(m, ptr, list, j);
    WeaveDispatchedAt(m, table, v1, v2, left, right, out, count);
    RoundedUp(count, len);
  }

  /**
    An interleave command takes its count and output from the halfwords at 0x364 and 0x362 and its
    inputs from its last four bytes.  For aligned inputs that the growing output never reaches, the
    samples of the two old inputs end up in turn, two bytes each, and nothing else changes.
   */
  lemma WeaveByBytes(m: Machine, table: nat -> Op, v1: Machine -> Quadword, v2: Machine -> Quadword, ptr: nat,
                     list: seq<byte>, j: nat, left: nat, right: nat, out: nat, count: nat, len: nat, i: nat, r: nat, k: nat)
    requires Entered(m, ptr, list, j) && 8 * j + 8 <= |list| && table(list[8 * j] as int % 0x80) == Weaving
    requires left == 0x5C0 + 256 * (list[8 * j + 4] as int) + list[8 * j + 5] as int && left % 16 == 0
    requires right == 0x5C0 + 256 * (list[8 * j + 6] as int) + list[8 * j + 7] as int && right % 16 == 0
    requires out == 256 * (m.dmem[0x362] as int) + m.dmem[0x363] as int
    requires count == 256 * (m.dmem[0x364] as int) + m.dmem[0x365] as int
    requires count <= len < count + 16 && len % 16 == 0
    requires len <= 16 || len - 16 <= (left - out) % 0x1000 <= 0x1000 - len
    requires len <= 16 || len - 16 <= (right - out) % 0x1000 <= 0x1000 - len
    ensures var after := Dispatch(table, v1, v2)(m).dmem;
            && (2 * i + 2 <= len && r < 2 ==>
                  && after[(out + 4 * i + r) % 0x1000] == m.dmem[(left + 2 * i + r) % 0x1000]
                  && after[(out + 4 * i + 2 + r) % 0x1000] == m.dmem[(right + 2 * i + r) % 0x1000])
            && (k < SIZE && (k - out) % 0x1000 >= 2 * len ==> after[k] == m.dmem[k])
  {
    WeaveEntered(m, table, v1, v2, ptr, list, j, left, right, out, count, len);
    var w := Weave(m.dmem, v1(m), v2(m));
    hide *;
    WeaveByOffsets(w, left, right, out, Blocks(count), len, i, r, k);
  }
}
