/**
  The audio microcode's move and clear commands, each a do-while loop over 16-byte blocks of
  DMEM at register-relative addresses.
 */
module AudioBlocks {
  import opened Bytes
  import opened Dmem

  /** Buffer offsets in a command are relative to the end of the fixed DMEM layout. */
  const BUFFERS := 0x5C0

  function Low(w: word): nat { w % 0x1_0000 }
  function High(w: word): nat { w / 0x1_0000 }

  /** The number of passes of a do-while loop that takes 16 from a positive count each time. */
  function Blocks(count: nat): nat { (count + 15) / 16 }

  lemma BlocksIs(count: nat, n: nat)
    requires 16 * n - 16 < count <= 16 * n
    ensures Blocks(count) == n
  {
  }

  // ----- Move (L_140C) -----

  function MoveBlock(m: Memory, src: int, dst: int): Memory {
    Stored(m, dst, Load(m, src, 16))
  }

  function AfterMoves(m: Memory, src: int, dst: int, n: nat): Memory {
    if n == 0 then m
    else MoveBlock(AfterMoves(m, src, dst, n - 1), src + 16 * (n - 1), dst + 16 * (n - 1))
  }

  /** Two doubleword stores, one after the other. */
  method StorePair(dmem: array<byte>, a: int, v1: seq<byte>, v2: seq<byte>)
    requires dmem.Length == SIZE && |v1| == |v2| == 8
    modifies dmem
    ensures dmem[..] == Stored(old(dmem[..]), a, v1 + v2)
  {
    hide Wrap;
    StoredTwice(dmem[..], a, v1, v2);
    Store(dmem, a, v1);
    Store(dmem, a + 8, v2);
  }

  /** One pass: two doubleword loads, then two doubleword stores. */
  method MovePass(dmem: array<byte>, r2: int, r3: int)
    requires dmem.Length == SIZE
    modifies dmem
    ensures dmem[..] == MoveBlock(old(dmem[..]), r2, r3)
  {
    hide Wrap;
    var v1 := Load(dmem[..], r2, 8);
    var v2 := Load(dmem[..], r2 + 8, 8);
    assert v1 + v2 == Load(dmem[..], r2, 16);
    StorePair(dmem, r3, v1, v2);
  }

  method Move(dmem: array<byte>, w0: word, w1: word)
    requires dmem.Length == SIZE
    modifies dmem
    ensures dmem[..] == AfterMoves(old(dmem[..]), Low(w0) + BUFFERS, High(w1) + BUFFERS, Blocks(Low(w1)))
  {
    hide Wrap, MoveBlock;
    var r1 := Low(w1);
    if r1 == 0 {
      return;
    }
    var r2 := Low(w0) + BUFFERS;
    var r3 := High(w1) + BUFFERS;
    ghost var before, src, dst := dmem[..], r2, r3;
    ghost var n: nat := 0;
    while true
      invariant r1 > 0 && r1 == Low(w1) - 16 * n
      invariant r2 == src + 16 * n && r3 == dst + 16 * n
      invariant dmem[..] == AfterMoves(before, src, dst, n)
      decreases r1
    {
      MovePass(dmem, r2, r3);
      r1 := r1 - 0x10;
      r2 := r2 + 0x10;
      r3 := r3 + 0x10;
      n := n + 1;
      if r1 <= 0 {
        BlocksIs(Low(w1), n);
        break;
      }
    }
  }

  function CopyAt(m: Memory, src: int, dst: int, len: nat, k: nat): byte
    requires k < SIZE
  {
    if Wrap(k - dst) < len then m[Wrap(src + Wrap(k - dst))] else m[k]
  }

  /** `after` is `m` with `len` bytes at `dst` replaced by what `m` held at `src`. */
  predicate IsCopy(m: Memory, after: Memory, src: int, dst: int, len: nat) {
    forall k :: 0 <= k < SIZE ==> after[k] == CopyAt(m, src, dst, len, k)
  }

  /** How far the destination lies above the source, going round the memory. */
  function Lag(src: int, dst: int): (lag: nat)
    ensures lag < SIZE
  {
    Wrap(dst - src)
  }

  predicate MoveIsSafe(src: int, dst: int, n: nat) {
    n <= 1 || Lag(src, dst) == 0 || Lag(src, dst) >= 16 * n
  }

  lemma BlockAt(m: Memory, src: int, dst: int, k: nat)
    requires k < SIZE
    ensures MoveBlock(m, src, dst)[k] == CopyAt(m, src, dst, 16, k)
  {
  }

  lemma SameAddress(src: int, dst: int, d: int, k: nat)
    requires Lag(src, dst) == 0 && k < SIZE
    ensures Wrap(src + d + Wrap(k - (dst + d))) == k
  {
    hide Wrap;
    var q := Turns(dst - src);
    WrapOffset(dst + d, k);
    WrapShift(dst + d + Wrap(k - (dst + d)), -q);
  }

  /** Moving a buffer onto itself changes nothing. */
  lemma {:induction false} MoveOntoItself(m: Memory, src: int, dst: int, n: nat)
    requires Lag(src, dst) == 0
    ensures AfterMoves(m, src, dst, n) == m
  {
    hide Wrap;
    if n > 0 {
      MoveOntoItself(m, src, dst, n - 1);
      var d := 16 * (n - 1);
      forall k | 0 <= k < SIZE ensures MoveBlock(m, src + d, dst + d)[k] == m[k] {
        BlockAt(m, src + d, dst + d, k);
        SameAddress(src, dst, d, k);
      }
      assert MoveBlock(m, src + d, dst + d) == m;
    }
  }

  lemma SelfCopy(m: Memory, src: int, dst: int, len: nat)
    requires Lag(src, dst) == 0
    ensures IsCopy(m, m, src, dst, len)
  {
    forall k | 0 <= k < SIZE ensures m[k] == CopyAt(m, src, dst, len, k) {
      SameAddress(src, dst, 0, k);
    }
  }

  lemma NotYetOverwritten(src: int, dst: int, len: nat, at: nat)
    requires at < len <= Lag(src, dst)
    ensures Wrap(Wrap(src + at) - dst) >= at
  {
    hide Wrap;
    var lag := Lag(src, dst);
    WrapSum(src + at, -dst);
    var q := Turns(dst - src);
    WrapShift(at - lag, -q);
    assert at - lag + SIZE * -q == src + at - dst;
    WrapBack(at, lag);
  }

  lemma MoveCopiesByte(m: Memory, cur: Memory, src: int, dst: int, n: nat, k: nat, a: nat)
    requires n <= 1 || Lag(src, dst) >= 16 * n
    requires 0 < k <= n && a < SIZE
    requires IsCopy(m, cur, src, dst, 16 * (k - 1))
    ensures MoveBlock(cur, src + 16 * (k - 1), dst + 16 * (k - 1))[a] == CopyAt(m, src, dst, 16 * k, a)
  {
    hide Wrap, MoveBlock, Lag;
    var done := 16 * (k - 1);
    var at, off := Wrap(a - dst), Wrap(a - (dst + done));
    assert a - (dst + done) == a - dst - done;
    WrapBack(a - dst, done);
    BlockAt(cur, src + done, dst + done, a);
    if off < 16 {
      assert at == done + off;
      assert src + done + off == src + at;
      assert cur[Wrap(src + at)] == m[Wrap(src + at)] by {
        if n > 1 {
          // The byte about to be read still holds its original value.
          NotYetOverwritten(src, dst, 16 * n, at);
        }
        assert cur[Wrap(src + at)] == CopyAt(m, src, dst, done, Wrap(src + at));
      }
    } else {
      assert cur[a] == CopyAt(m, src, dst, done, a);
    }
  }

  lemma {:induction false} MoveCopies(m: Memory, src: int, dst: int, n: nat, k: nat)
    requires n <= 1 || Lag(src, dst) >= 16 * n
    requires k <= n
    ensures IsCopy(m, AfterMoves(m, src, dst, k), src, dst, 16 * k)
  {
    hide Wrap;
    if k > 0 {
      MoveCopies(m, src, dst, n, k - 1);
      var cur, done := AfterMoves(m, src, dst, k - 1), 16 * (k - 1);
      var after := MoveBlock(cur, src + done, dst + done);
      forall a | 0 <= a < SIZE ensures after[a] == CopyAt(m, src, dst, 16 * k, a) {
        MoveCopiesByte(m, cur, src, dst, n, k, a);
      }
    }
  }

  /** The byte of the last block that exposes an unsafe move. */
  function Exposed(src: int, dst: int, n: nat): int {
    if Lag(src, dst) < 16 then 16 * (n - 1) else 16 * (n - 1) + 15
  }

  lemma WithinCopy(dst: int, b: nat, len: nat)
    requires b < len
    ensures Wrap(Wrap(dst + b) - dst) < len
  {
    WrapSum(dst + b, -dst);
    if len < SIZE {
      WrapUnique(b, b, 0);
    }
  }

  lemma SourceOf(src: int, dst: int, b: int)
    ensures Wrap(src + Wrap(Wrap(dst + b) - dst)) == Wrap(src + b)
  {
    hide Wrap;
    WrapSum(dst + b, -dst);
    WrapSum(b, src);
  }

  /** Byte `b` of a copied area comes from byte `b` of its source. */
  lemma CopiedByte(m: Memory, after: Memory, src: int, dst: int, len: nat, b: nat)
    requires IsCopy(m, after, src, dst, len) && b < len
    ensures after[Wrap(dst + b)] == m[Wrap(src + b)]
  {
    hide Wrap;
    assert after[Wrap(dst + b)] == CopyAt(m, src, dst, len, Wrap(dst + b));
    WithinCopy(dst, b, len);
    SourceOf(src, dst, b);
  }

  lemma BlockElsewhere(m: Memory, src: int, dst: int, k: nat)
    requires k < SIZE && Wrap(k - dst) >= 16
    ensures MoveBlock(m, src, dst)[k] == m[k]
  {
    hide Wrap;
    BlockAt(m, src, dst, k);
  }

  lemma BlockIsCopy(m: Memory, src: int, dst: int)
    ensures IsCopy(m, MoveBlock(m, src, dst), src, dst, 16)
  {
    hide Wrap;
    forall k | 0 <= k < SIZE ensures MoveBlock(m, src, dst)[k] == CopyAt(m, src, dst, 16, k) {
      BlockAt(m, src, dst, k);
    }
  }

  lemma FromSource(src: int, dst: int, b: int)
    ensures Wrap(src + b) == Wrap(dst + b - Lag(src, dst))
  {
    var q := Turns(dst - src);
    WrapShift(src + b, q);
  }

  /** Where the byte `b` above `dst` lies relative to the block at `dst + last`. */
  lemma OffsetOf(dst: int, last: int, b: int)
    requires last + 15 - SIZE < b <= last + 15
    ensures Wrap(Wrap(dst + b) - (dst + last)) == if b >= last then b - last else b - last + SIZE
  {
    WrapSum(dst + b, -(dst + last));
    if b >= last {
      WrapUnique(b - last, b - last, 0);
    } else {
      WrapUnique(b - last, b - last + SIZE, -1);
    }
  }

  lemma BlockSmears(cur: Memory, src: int, dst: int, last: int, b: int)
    requires last <= b < last + 16
    requires last + 16 - SIZE <= b - Lag(src, dst) < last
    ensures MoveBlock(cur, src + last, dst + last)[Wrap(dst + b)]
         == MoveBlock(cur, src + last, dst + last)[Wrap(dst + b - Lag(src, dst))]
  {
    hide Wrap;
    var near := Wrap(dst + b - Lag(src, dst));
    var after := MoveBlock(cur, src + last, dst + last);
    assert after[Wrap(dst + b)] == cur[near] by {
      BlockIsCopy(cur, src + last, dst + last);
      CopiedByte(cur, after, src + last, dst + last, 16, b - last);
      assert src + last + (b - last) == src + b && dst + last + (b - last) == dst + b;
      FromSource(src, dst, b);
    }
    assert after[near] == cur[near] by {
      OffsetOf(dst, last, b - Lag(src, dst));
      assert dst + (b - Lag(src, dst)) == dst + b - Lag(src, dst);
      BlockElsewhere(cur, src + last, dst + last, near);
    }
  }

  lemma ExposedRange(src: int, dst: int, n: nat)
    requires !MoveIsSafe(src, dst, n)
    ensures n > 1 && 0 < Lag(src, dst) < SIZE
    ensures 16 * (n - 1) <= Exposed(src, dst, n) < 16 * n
    ensures 0 <= Exposed(src, dst, n) - Lag(src, dst) < 16 * (n - 1)
    ensures 16 * n - SIZE <= Exposed(src, dst, n) - Lag(src, dst)
  {
    hide Wrap;
  }

  /** The last block of an unsafe move writes one byte from another, which it leaves as it found it. */
  lemma LastBlockSmears(cur: Memory, src: int, dst: int, n: nat)
    requires !MoveIsSafe(src, dst, n)
    ensures var b := Exposed(src, dst, n);
            var after := MoveBlock(cur, src + 16 * (n - 1), dst + 16 * (n - 1));
            after[Wrap(dst + b)] == after[Wrap(dst + b - Lag(src, dst))]
  {
    ExposedRange(src, dst, n);
    BlockSmears(cur, src, dst, 16 * (n - 1), Exposed(src, dst, n));
  }

  /** A copy would leave a byte marked in the source at one of the two and not at the other. */
  lemma CopySeparates(src: int, dst: int, n: nat, after: Memory)
    requires !MoveIsSafe(src, dst, n)
    requires IsCopy(Marked(Wrap(src + Exposed(src, dst, n))), after, src, dst, 16 * n)
    ensures after[Wrap(dst + Exposed(src, dst, n))] != after[Wrap(dst + Exposed(src, dst, n) - Lag(src, dst))]
  {
    hide Wrap;
    var lag, b := Lag(src, dst), Exposed(src, dst, n);
    var m := Marked(Wrap(src + b));
    ExposedRange(src, dst, n);
    CopiedByte(m, after, src, dst, 16 * n, b);
    CopiedByte(m, after, src, dst, 16 * n, b - lag);
    hide IsCopy, MoveIsSafe, Exposed, Lag, CopyAt;
    assert dst + (b - lag) == dst + b - lag && src + (b - lag) == src + b - lag;
    WrapBack(src + b, lag);
  }

  /** When the move is not safe, some memory is not copied. */
  lemma UnsafeMoveSmears(src: int, dst: int, n: nat)
    requires !MoveIsSafe(src, dst, n)
    ensures exists m :: !IsCopy(m, AfterMoves(m, src, dst, n), src, dst, 16 * n)
  {
    var m := Marked(Wrap(src + Exposed(src, dst, n)));
    LastBlockSmears(AfterMoves(m, src, dst, n - 1), src, dst, n);
    if IsCopy(m, AfterMoves(m, src, dst, n), src, dst, 16 * n) {
      CopySeparates(src, dst, n, AfterMoves(m, src, dst, n));
    }
  }

  /**
    Exactly when the move is a copy.  For every count, the block loop leaves the old
    source in the destination, and changes nothing else, for all memory contents, if and
    only if the destination is not inside the part of the source still to be read.
   */
  lemma MoveIsCopyIff(src: int, dst: int, n: nat)
    ensures (forall m :: IsCopy(m, AfterMoves(m, src, dst, n), src, dst, 16 * n)) <==> MoveIsSafe(src, dst, n)
  {
    if !MoveIsSafe(src, dst, n) {
      UnsafeMoveSmears(src, dst, n);
    } else if Lag(src, dst) == 0 {
      forall m ensures IsCopy(m, AfterMoves(m, src, dst, n), src, dst, 16 * n) {
        MoveOntoItself(m, src, dst, n);
        SelfCopy(m, src, dst, 16 * n);
      }
    } else {
      forall m ensures IsCopy(m, AfterMoves(m, src, dst, n), src, dst, 16 * n) {
        MoveCopies(m, src, dst, n, n);
      }
    }
  }

  /** Buffers that do not go round the end of the memory: below the source, or clear of it above. */
  lemma MoveIsSafeInPlace(src: nat, dst: nat, n: nat)
    requires src + 16 * n <= SIZE && dst + 16 * n <= SIZE
    ensures MoveIsSafe(src, dst, n) <==> n <= 1 || dst <= src || dst >= src + 16 * n
  {
    if dst < src {
      WrapUnique(dst - src, dst - src + SIZE, -1);
    } else if dst - src < SIZE {
      WrapUnique(dst - src, dst - src, 0);
    }
  }

  // ----- Clear (L_11DC) -----

  /** `after` is `m` with `len` bytes from `dst` zeroed. */
  predicate IsCleared(m: Memory, after: Memory, dst: int, len: nat) {
    forall k :: 0 <= k < SIZE ==> after[k] == if Wrap(k - dst) < len then 0 else m[k]
  }

  /** The one memory that is so. */
  function Cleared(m: Memory, dst: int, len: nat): Memory {
    seq(SIZE, k requires 0 <= k < SIZE => if Wrap(k - dst) < len then 0 else m[k])
  }

  lemma ClearedIs(m: Memory, after: Memory, dst: int, len: nat)
    ensures IsCleared(m, after, dst, len) <==> after == Cleared(m, dst, len)
  {
  }

  lemma ClearedFurther(m: Memory, cur: Memory, dst: int, done: nat, zeros: seq<byte>)
    requires IsCleared(m, cur, dst, done)
    requires |zeros| == 16 && forall i :: 0 <= i < 16 ==> zeros[i] == 0
    ensures IsCleared(m, Stored(cur, dst + done, zeros), dst, done + 16)
  {
    forall k | 0 <= k < SIZE
      ensures Stored(cur, dst + done, zeros)[k] == if Wrap(k - dst) < done + 16 then 0 else m[k]
    {
      assert k - (dst + done) == k - dst - done;
      if done <= SIZE {
        WrapBack(k - dst, done);
      }
    }
  }

  method Clear(dmem: array<byte>, w0: word, w1: word)
    requires dmem.Length == SIZE
    modifies dmem
    ensures IsCleared(old(dmem[..]), dmem[..], Low(w0) + BUFFERS, 16 * Blocks(Low(w1)))
    ensures dmem[..] == Cleared(old(dmem[..]), Low(w0) + BUFFERS, 16 * Blocks(Low(w1)))
  {
    hide Cleared;
    var r3: int := Low(w1);
    if r3 == 0 {
      ClearedIs(dmem[..], dmem[..], Low(w0) + BUFFERS, 0);
      return;
    }
    var r2 := Low(w0) + BUFFERS;
    var zero: seq<byte> := [0, 0, 0, 0, 0, 0, 0, 0];
    r3 := r3 - 0x10;
    ghost var before, dst := dmem[..], r2;
    ghost var n: nat := 0;
    while true
      invariant r3 == Low(w1) - 16 * (n + 1) && r3 > -16
      invariant r2 == dst + 16 * n
      invariant IsCleared(before, dmem[..], dst, 16 * n)
      decreases r3
    {
      ClearedFurther(before, dmem[..], dst, 16 * n, zero + zero);
      StorePair(dmem, r2, zero, zero);
      r2 := r2 + 0x10;
      n := n + 1;
      if r3 <= 0 {
        BlocksIs(Low(w1), n);
        break;
      }
      r3 := r3 - 0x10;
    }
    ClearedIs(before, dmem[..], dst, 16 * n);
  }
}
