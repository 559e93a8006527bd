/**
  The audio microcode's interleave command: two streams of samples woven into one, by a
  do-while loop over quadword loads and halfword stores.  It is proved right on exactly the
  inputs on which it is.
 */
module AudioWeave {
  import opened Bytes
  import opened Dmem
  import opened AudioBlocks

  // ----- Interleave (L_138C) -----

  /**
    A quadword load: from `a` to the end of its 16-byte line, leaving the rest of the
    vector register as it was.
   */
  function LoadQuad(m: Memory, a: int, reg: seq<byte>): (v: seq<byte>)
    requires |reg| == 16
    ensures |v| == 16
  {
    seq(16, i requires 0 <= i < 16 => if i < 16 - Wrap(a) % 16 then m[Wrap(a + i)] else reg[i])
  }

  /** The byte of the left or right input that byte `off` of the output comes from. */
  function Lane(off: nat): nat { 2 * (off / 4) + off % 2 }

  /** Two vectors of samples, left and right in turn. */
  function Woven(left: seq<byte>, right: seq<byte>): (v: seq<byte>)
    requires |left| == |right| == 16
    ensures |v| == 32
  {
    seq(32, i requires 0 <= i < 32 => if i % 4 < 2 then left[Lane(i)] else right[Lane(i)])
  }

  function WeaveBlock(m: Memory, left: int, right: int, out: int): Memory {
    Stored(m, out, Woven(Load(m, left, 16), Load(m, right, 16)))
  }

  function Interleaved(m: Memory, left: int, right: int, out: int, n: nat): Memory {
    if n == 0 then m
    else WeaveBlock(Interleaved(m, left, right, out, n - 1),
                    left + 16 * (n - 1), right + 16 * (n - 1), out + 32 * (n - 1))
  }

  /** The memory and the two vector registers the interleave loop works in. */
  datatype Weave = Weave(mem: Memory, v1: seq<byte>, v2: seq<byte>) {
    predicate Valid() { |v1| == |v2| == 16 }

    /** The state after `n` passes, for any alignment of the inputs. */
    function After(left: int, right: int, out: int, n: nat): (w: Weave)
      requires Valid()
      ensures w.Valid()
      decreases n
    {
      if n == 0 then this else
      var w := After(left, right, out, n - 1);
      var u1 := LoadQuad(w.mem, left + 16 * (n - 1), w.v1);
      var u2 := LoadQuad(w.mem, right + 16 * (n - 1), w.v2);
      Weave(Stored(w.mem, out + 32 * (n - 1), Woven(u1, u2)), u1, u2)
    }
  }

  lemma AlignedQuad(m: Memory, a: int, reg: seq<byte>)
    requires |reg| == 16 && a % 16 == 0
    ensures LoadQuad(m, a, reg) == Load(m, a, 16)
  {
    hide Wrap;
    var q := Turns(a);
    assert Wrap(a) == 16 * (a / 16 - 0x100 * q);
    MultipleOf16(a / 16 - 0x100 * q);
  }

  /** On aligned inputs the registers carry nothing over from one pass to the next. */
  lemma {:induction false} AlignedWeave(w: Weave, left: int, right: int, out: int, n: nat)
    requires w.Valid() && left % 16 == 0 && right % 16 == 0
    ensures w.After(left, right, out, n).mem == Interleaved(w.mem, left, right, out, n)
  {
    hide Wrap;
    if n > 0 {
      AlignedWeave(w, left, right, out, n - 1);
      var before := w.After(left, right, out, n - 1);
      AlignedQuad(before.mem, left + 16 * (n - 1), before.v1);
      AlignedQuad(before.mem, right + 16 * (n - 1), before.v2);
    }
  }

  lemma Parity(q: nat, r: nat)
    requires r < 4
    ensures (2 * q + r) % 2 == if r < 2 then r else r - 2
  {
  }

  /** Four output bytes a sample pair, two of them from each side. */
  lemma LaneIs(q: nat, r: nat)
    requires r < 4
    ensures Lane(4 * q + r) == 2 * q + (if r < 2 then r else r - 2) && (4 * q + r) % 4 == r
  {
    assert (4 * q + r) / 4 == q;
    assert 4 * q + r == 2 * (2 * q) + r;
    Parity(2 * q, r);
  }

  /** Lane `e` of each vector, in turn, extends what has been woven by four bytes. */
  lemma WovenLane(v1: seq<byte>, v2: seq<byte>, e: nat)
    requires |v1| == |v2| == 16 && e < 8
    ensures Woven(v1, v2)[..4 * e] + v1[2 * e..2 * e + 2] + v2[2 * e..2 * e + 2] == Woven(v1, v2)[..4 * (e + 1)]
  {
    hide Lane;
    var w := Woven(v1, v2);
    LaneIs(e, 0);
    LaneIs(e, 1);
    LaneIs(e, 2);
    LaneIs(e, 3);
    assert w[..4 * (e + 1)] == w[..4 * e] + [w[4 * e], w[4 * e + 1]] + [w[4 * e + 2], w[4 * e + 3]];
    assert v1[2 * e..2 * e + 2] == [w[4 * e], w[4 * e + 1]];
    assert v2[2 * e..2 * e + 2] == [w[4 * e + 2], w[4 * e + 3]];
  }

  /** Sixteen halfword stores of one pass: lane `e` of each vector in turn. */
  method StoreLanes(dmem: array<byte>, r4: int, v1: seq<byte>, v2: seq<byte>)
    requires dmem.Length == SIZE && |v1| == |v2| == 16
    modifies dmem
    ensures dmem[..] == Stored(old(dmem[..]), r4, Woven(v1, v2))
  {
    ghost var m, woven := dmem[..], Woven(v1, v2);
    StoredNothing(m, r4);
    hide *;
    for e := 0 to 8
      invariant dmem[..] == Stored(m, r4, woven[..4 * e])
    {
      var a, b := v1[2 * e..2 * e + 2], v2[2 * e..2 * e + 2];
      StoredTwice(m, r4, woven[..4 * e], a);
      StoredTwice(m, r4, woven[..4 * e] + a, b);
      WovenLane(v1, v2, e);
      Store(dmem, r4 + 4 * e, a);
      Store(dmem, r4 + 4 * e + 2, b);
    }
    assert woven[..32] == woven;
  }

  /** One pass: load a quadword of each input and store their lanes in turn. */
  method WeavePass(dmem: array<byte>, r2: int, r3: int, r4: int, v1: seq<byte>, v2: seq<byte>)
    returns (u1: seq<byte>, u2: seq<byte>)
    requires dmem.Length == SIZE && |v1| == |v2| == 16
    modifies dmem
    ensures u1 == LoadQuad(old(dmem[..]), r2, v1) && u2 == LoadQuad(old(dmem[..]), r3, v2)
    ensures dmem[..] == Stored(old(dmem[..]), r4, Woven(u1, u2))
  {
    hide Wrap;
    u1 := LoadQuad(dmem[..], r2, v1);
    u2 := LoadQuad(dmem[..], r3, v2);
    StoreLanes(dmem, r4, u1, u2);
  }

  /** `count` and `out` are the halfwords the preceding buffer command left at r24. */
  method Interleave(dmem: array<byte>, w1: word, count: nat, out: nat, reg1: seq<byte>, reg2: seq<byte>)
    requires dmem.Length == SIZE && |reg1| == |reg2| == 16
    requires count < 0x1_0000 && out < 0x1_0000
    modifies dmem
    ensures dmem[..] == Weave(old(dmem[..]), reg1, reg2).After(
                          High(w1) + BUFFERS, Low(w1) + BUFFERS, out, Blocks(count)).mem
  {
    hide Wrap;
    var r1, r4 := count, out;
    if r1 == 0 {
      return;
    }
    var r3 := Low(w1) + BUFFERS;
    var r2 := High(w1) + BUFFERS;
    var v1, v2 := reg1, reg2;
    ghost var start, left, right := Weave(dmem[..], v1, v2), r2, r3;
    ghost var n: nat := 0;
    while true
      invariant |v1| == |v2| == 16
      invariant r1 > 0 && r1 == count - 16 * n
      invariant r2 == left + 16 * n && r3 == right + 16 * n && r4 == out + 32 * n
      invariant Weave(dmem[..], v1, v2) == start.After(left, right, out, n)
      decreases r1
    {
      v1, v2 := WeavePass(dmem, r2, r3, r4, v1, v2);
      r1 := r1 - 0x10;
      r2 := r2 + 0x10;
      r3 := r3 + 0x10;
      r4 := r4 + 0x20;
      n := n + 1;
      if r1 <= 0 {
        BlocksIs(count, n);
        break;
      }
    }
  }

  function WovenAt(m: Memory, left: int, right: int, out: int, len: nat, k: nat): byte
    requires k < SIZE
  {
    var off := Wrap(k - out);
    if off >= len then m[k]
    else if off % 4 < 2 then m[Wrap(left + Lane(off))] else m[Wrap(right + Lane(off))]
  }

  /** out[2i] is left[i] and out[2i+1] is right[i], for the old inputs; nothing else changes. */
  predicate IsInterleave(m: Memory, after: Memory, left: int, right: int, out: int, len: nat) {
    forall k :: 0 <= k < SIZE ==> after[k] == WovenAt(m, left, right, out, len, k)
  }

  /** An input at offset `d` from the output, which the growing output never catches up with, nor meets going round. */
  predicate StaysClear(d: int, n: nat) {
    n <= 1 || 16 * (n - 1) <= d <= SIZE - 16 * n
  }

  predicate StaysAhead(input: int, out: int, n: nat) {
    StaysClear(Wrap(input - out), n)
  }

  lemma WeaveBlockAt(m: Memory, left: int, right: int, out: int, k: nat)
    requires k < SIZE
    ensures WeaveBlock(m, left, right, out)[k] == WovenAt(m, left, right, out, 32, k)
  {
  }

  lemma InputIntact(m: Memory, cur: Memory, left: int, right: int, out: int, n: nat, i: nat, input: int, b: nat)
    requires StaysAhead(input, out, n) && i < n && 16 * i <= b < 16 * (i + 1)
    requires IsInterleave(m, cur, left, right, out, 32 * i)
    ensures cur[Wrap(input + b)] == m[Wrap(input + b)]
  {
    hide Wrap;
    var s := Wrap(input + b);
    assert cur[s] == WovenAt(m, left, right, out, 32 * i, s);
    WrapSum(input + b, -out);
    WrapSum(input - out, b);
    if n > 1 {
      WrapUnique(Wrap(input - out) + b, Wrap(input - out) + b, 0);
    }
  }

  lemma LaneShift(i: nat, off: nat)
    requires off < 32
    ensures Lane(32 * i + off) == 16 * i + Lane(off) && (32 * i + off) % 4 == off % 4
    ensures Lane(off) < 16
  {
    hide Lane;
    var q, r := off / 4, off % 4;
    assert 32 * i + off == 4 * (8 * i + q) + r && off == 4 * q + r;
    LaneIs(8 * i + q, r);
    LaneIs(q, r);
  }

  lemma WovenInside(m: Memory, cur: Memory, left: int, right: int, out: int, n: nat, i: nat, a: nat)
    requires StaysAhead(left, out, n) && StaysAhead(right, out, n) && i < n && a < SIZE
    requires IsInterleave(m, cur, left, right, out, 32 * i)
    requires Wrap(a - (out + 32 * i)) < 32 && Wrap(a - out) == 32 * i + Wrap(a - (out + 32 * i))
    ensures WovenAt(cur, left + 16 * i, right + 16 * i, out + 32 * i, 32, a)
         == WovenAt(m, left, right, out, 32 * (i + 1), a)
  {
    hide Wrap, Lane, StaysAhead, IsInterleave;
    var off := Wrap(a - (out + 32 * i));
    var b := 16 * i + Lane(off);
    LaneShift(i, off);
    assert left + 16 * i + Lane(off) == left + b && right + 16 * i + Lane(off) == right + b;
    InputIntact(m, cur, left, right, out, n, i, left, b);
    InputIntact(m, cur, left, right, out, n, i, right, b);
  }

  lemma WovenOutside(m: Memory, cur: Memory, left: int, right: int, out: int, i: nat, a: nat)
    requires a < SIZE && IsInterleave(m, cur, left, right, out, 32 * i)
    requires Wrap(a - (out + 32 * i)) >= 32
    requires !(32 * i <= Wrap(a - out) < 32 * i + 32)
    ensures WovenAt(cur, left + 16 * i, right + 16 * i, out + 32 * i, 32, a)
         == WovenAt(m, left, right, out, 32 * (i + 1), a)
  {
    hide Wrap, Lane;
    assert cur[a] == WovenAt(m, left, right, out, 32 * i, a);
  }

  lemma AheadFits(input: int, out: int, n: nat, i: nat)
    requires StaysAhead(input, out, n) && i < n
    ensures 32 * i + 32 <= SIZE
  {
    hide Wrap;
  }

  /** The block after `i` others covers exactly the next 32 offsets. */
  lemma OffsetAfter(x: int, i: nat)
    requires 32 * i + 32 <= SIZE
    ensures Wrap(x - 32 * i) < 32 <==> 32 * i <= Wrap(x) < 32 * i + 32
    ensures Wrap(x - 32 * i) < 32 ==> Wrap(x) == 32 * i + Wrap(x - 32 * i)
  {
    hide Wrap;
    WrapBack(x, 32 * i);
  }

  lemma WovenByte(m: Memory, cur: Memory, left: int, right: int, out: int, n: nat, i: nat, a: nat)
    requires StaysAhead(left, out, n) && StaysAhead(right, out, n) && i < n && a < SIZE
    requires IsInterleave(m, cur, left, right, out, 32 * i)
    ensures WeaveBlock(cur, left + 16 * i, right + 16 * i, out + 32 * i)[a]
         == WovenAt(m, left, right, out, 32 * (i + 1), a)
  {
    hide *;
    AheadFits(left, out, n, i);
    WeaveBlockAt(cur, left + 16 * i, right + 16 * i, out + 32 * i, a);
    assert a - (out + 32 * i) == a - out - 32 * i;
    OffsetAfter(a - out, i);
    if Wrap(a - (out + 32 * i)) < 32 {
      WovenInside(m, cur, left, right, out, n, i, a);
    } else {
      WovenOutside(m, cur, left, right, out, i, a);
    }
  }

  lemma {:induction false} InterleaveIsRight(m: Memory, left: int, right: int, out: int, n: nat, k: nat)
    requires StaysAhead(left, out, n) && StaysAhead(right, out, n) && k <= n
    ensures IsInterleave(m, Interleaved(m, left, right, out, k), left, right, out, 32 * k)
  {
    hide Wrap;
    if k > 0 {
      InterleaveIsRight(m, left, right, out, n, k - 1);
      var cur, i := Interleaved(m, left, right, out, k - 1), k - 1;
      var after := WeaveBlock(cur, left + 16 * i, right + 16 * i, out + 32 * i);
      forall a | 0 <= a < SIZE ensures after[a] == WovenAt(m, left, right, out, 32 * k, a) {
        WovenByte(m, cur, left, right, out, n, i, a);
      }
    }
  }

  /** For every positive count and 16-byte-aligned inputs the output never catches, the loop interleaves. */
  lemma AlignedInterleaveIsRight(w: Weave, left: int, right: int, out: int, n: nat)
    requires w.Valid() && left % 16 == 0 && right % 16 == 0
    requires StaysAhead(left, out, n) && StaysAhead(right, out, n)
    ensures IsInterleave(w.mem, w.After(left, right, out, n).mem, left, right, out, 32 * n)
  {
    AlignedWeave(w, left, right, out, n);
    InterleaveIsRight(w.mem, left, right, out, n, n);
  }
}
