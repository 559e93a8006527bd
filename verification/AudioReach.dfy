/**
  When the block commands leave the command window alone.  Each writes one area of DMEM, at an
  address that goes round the memory, and the window is a part of it like any other.
 */
module AudioReach {
  import opened Bytes
  import opened Dmem
  import opened AudioFetch
  import opened AudioBlocks
  import opened AudioWeave
  import opened WeaveTrace

  const WINDOW_END := WINDOW + WINDOW_SIZE

  /** The area ends before the bytes lo..hi start, going round from their end. */
  predicate Misses(a: int, len: nat, lo: nat, hi: nat) {
    len == 0 || Wrap(a - hi) + len <= SIZE - (hi - lo)
  }

  predicate AreaMisses(a: int, len: nat) { Misses(a, len, WINDOW, WINDOW_END) }

  /** One of those bytes, and where it lies from the start of an area. */
  lemma OffsetFrom(a: int, hi: nat, k: nat)
    requires k < hi <= SIZE
    ensures var o := Wrap(a - hi); Wrap(k - a) == if k - hi + SIZE >= o then k - hi + SIZE - o else k - hi + 2 * SIZE - o
  {
    hide Wrap;
    var o := Wrap(a - hi);
    var q := Turns(a - hi);
    if k - hi + SIZE >= o {
      WrapUnique(k - a, k - hi + SIZE - o, -q - 1);
    } else {
      WrapUnique(k - a, k - hi + 2 * SIZE - o, -q - 2);
    }
  }

  lemma Outside(a: int, len: nat, lo: nat, hi: nat, k: nat)
    requires hi <= SIZE && Misses(a, len, lo, hi) && lo <= k < hi
    ensures Wrap(k - a) >= len
  {
    hide Wrap;
    OffsetFrom(a, hi, k);
  }

  lemma AreaOutside(a: int, len: nat, k: nat)
    requires AreaMisses(a, len) && WINDOW <= k < WINDOW_END
    ensures Wrap(k - a) >= len
  {
    Outside(a, len, WINDOW, WINDOW_END, k);
  }

  /** An area that reaches the window reaches this byte of it. */
  function Reached(a: int, len: nat): (k: nat)
    requires !AreaMisses(a, len)
    ensures WINDOW <= k < WINDOW_END
  {
    var o := Wrap(a - WINDOW_END);
    if o >= SIZE - WINDOW_SIZE then o - SIZE + WINDOW_END else WINDOW
  }

  lemma AreaReaches(a: int, len: nat)
    requires !AreaMisses(a, len)
    ensures Wrap(Reached(a, len) - a) < len
  {
    hide Wrap;
    OffsetFrom(a, WINDOW_END, Reached(a, len));
  }

  lemma WindowAt(m: Memory, after: Memory)
    ensures Window(after) == Window(m) <==> forall k :: WINDOW <= k < WINDOW_END ==> after[k] == m[k]
  {
    if Window(after) == Window(m) {
      forall k | WINDOW <= k < WINDOW_END ensures after[k] == m[k] {
        assert Window(after)[k - WINDOW] == Window(m)[k - WINDOW];
      }
    }
  }

  // ----- Clear -----

  function Ones(): (m: Memory)
    ensures forall k :: 0 <= k < SIZE ==> m[k] == 1
  {
    seq(SIZE, _ => 1)
  }

  /** Clearing spares the window for all memory contents if and only if its area misses the window. */
  lemma ClearMissesWindowIff(dst: int, len: nat)
    ensures (forall m: Memory :: Window(Cleared(m, dst, len)) == Window(m)) <==> AreaMisses(dst, len)
  {
    hide Wrap, Window, AreaMisses, Ones, Reached;
    if AreaMisses(dst, len) {
      forall m: Memory ensures Window(Cleared(m, dst, len)) == Window(m) {
        WindowAt(m, Cleared(m, dst, len));
        forall k | WINDOW <= k < WINDOW_END ensures Cleared(m, dst, len)[k] == m[k] {
          AreaOutside(dst, len, k);
        }
      }
    } else {
      AreaReaches(dst, len);
      var m, k := Ones(), Reached(dst, len);
      WindowAt(m, Cleared(m, dst, len));
      assert Cleared(m, dst, len)[k] == 0 && m[k] == 1;
    }
  }

  // ----- Move -----

  lemma {:induction false} MoveKeepsOutside(m: Memory, src: int, dst: int, n: nat, k: nat)
    requires k < SIZE && Wrap(k - dst) >= 16 * n
    ensures AfterMoves(m, src, dst, n)[k] == m[k]
  {
    hide Wrap;
    if n > 0 {
      MoveKeepsOutside(m, src, dst, n - 1, k);
      assert k - (dst + 16 * (n - 1)) == k - dst - 16 * (n - 1);
      WrapBack(k - dst, 16 * (n - 1));
      BlockElsewhere(AfterMoves(m, src, dst, n - 1), src + 16 * (n - 1), dst + 16 * (n - 1), k);
    }
  }

  /** A move whose area misses the window spares it, safe or not. */
  lemma MoveOutsideWindow(m: Memory, src: int, dst: int, n: nat)
    requires AreaMisses(dst, 16 * n)
    ensures Window(AfterMoves(m, src, dst, n)) == Window(m)
  {
    hide Wrap, Window, AreaMisses, AfterMoves;
    WindowAt(m, AfterMoves(m, src, dst, n));
    forall k | WINDOW <= k < WINDOW_END ensures AfterMoves(m, src, dst, n)[k] == m[k] {
      AreaOutside(dst, 16 * n, k);
      MoveKeepsOutside(m, src, dst, n, k);
    }
  }

  lemma SafeMoveCopies(m: Memory, src: int, dst: int, n: nat)
    requires MoveIsSafe(src, dst, n)
    ensures IsCopy(m, AfterMoves(m, src, dst, n), src, dst, 16 * n)
  {
    hide Wrap, IsCopy, MoveIsSafe;
    MoveIsCopyIff(src, dst, n);
  }

  lemma ByteOfCopy(m: Memory, after: Memory, src: int, dst: int, len: nat, k: nat)
    requires IsCopy(m, after, src, dst, len) && k < SIZE && Wrap(k - dst) < len
    ensures after[k] == m[Wrap(src + Wrap(k - dst))]
  {
    hide Wrap;
    assert after[k] == CopyAt(m, src, dst, len, k);
  }

  lemma FromElsewhere(src: int, dst: int, k: nat)
    requires k < SIZE && Lag(src, dst) != 0
    ensures Wrap(src + Wrap(k - dst)) != k
  {
    hide Wrap;
    WrapSum(k - dst, src);
    var q := Turns(k - dst + src);
    if Wrap(k - dst + src) == k {
      WrapUnique(dst - src, 0, -q);
    }
  }

  /** A safe move that reaches the window changes it, unless it moves the area onto itself. */
  lemma MoveIntoWindow(src: int, dst: int, n: nat)
    requires MoveIsSafe(src, dst, n) && Lag(src, dst) != 0 && !AreaMisses(dst, 16 * n)
    ensures exists m: Memory :: Window(AfterMoves(m, src, dst, n)) != Window(m)
  {
    hide Wrap, Window, AreaMisses, AfterMoves, Reached, IsCopy, MoveIsSafe;
    AreaReaches(dst, 16 * n);
    var k := Reached(dst, 16 * n);
    var m := Marked(k);
    FromElsewhere(src, dst, k);
    var after := AfterMoves(m, src, dst, n);
    SafeMoveCopies(m, src, dst, n);
    ByteOfCopy(m, after, src, dst, 16 * n, k);
    assert after[k] == 0 && m[k] == 1;
    WindowAt(m, after);
  }

  lemma SelfMoveSpares(m: Memory, src: int, dst: int, n: nat)
    requires Lag(src, dst) == 0
    ensures Window(AfterMoves(m, src, dst, n)) == Window(m)
  {
    MoveOntoItself(m, src, dst, n);
  }

  /**
    A safe move spares the window for all memory contents if and only if it moves its area onto
    itself or the area misses the window.
   */
  lemma MoveMissesWindowIff(src: int, dst: int, n: nat)
    requires MoveIsSafe(src, dst, n)
    ensures (forall m: Memory :: Window(AfterMoves(m, src, dst, n)) == Window(m))
       <==> Lag(src, dst) == 0 || AreaMisses(dst, 16 * n)
  {
    hide *;
    if AreaMisses(dst, 16 * n) {
      forall m: Memory ensures Window(AfterMoves(m, src, dst, n)) == Window(m) {
        MoveOutsideWindow(m, src, dst, n);
      }
    } else if Lag(src, dst) == 0 {
      forall m: Memory ensures Window(AfterMoves(m, src, dst, n)) == Window(m) {
        SelfMoveSpares(m, src, dst, n);
      }
    } else {
      MoveIntoWindow(src, dst, n);
    }
  }

  /** The address whose old byte ends up at address `k`, traced back through the passes of any move. */
  function MovedFrom(src: int, dst: int, n: nat, k: nat): (origin: nat)
    requires k < SIZE
    ensures origin < SIZE
  {
    if n == 0 then k else
    var done := 16 * (n - 1);
    var off := Wrap(k - (dst + done));
    MovedFrom(src, dst, n - 1, if off < 16 then Wrap(src + done + off) else k)
  }

  lemma {:induction false} MoveTraces(m: Memory, src: int, dst: int, n: nat, k: nat)
    requires k < SIZE
    ensures AfterMoves(m, src, dst, n)[k] == m[MovedFrom(src, dst, n, k)]
  {
    hide Wrap, MoveBlock;
    if n > 0 {
      var done := 16 * (n - 1);
      var off := Wrap(k - (dst + done));
      BlockAt(AfterMoves(m, src, dst, n - 1), src + done, dst + done, k);
      MoveTraces(m, src, dst, n - 1, if off < 16 then Wrap(src + done + off) else k);
    }
  }

  /**
    Any move, smearing or not, spares the window for all memory contents if and only if the window
    traces back to itself.
   */
  lemma MoveSparesWindowIff(src: int, dst: int, n: nat)
    ensures (forall m: Memory :: Window(AfterMoves(m, src, dst, n)) == Window(m))
       <==> forall k :: WINDOW <= k < WINDOW_END ==> MovedFrom(src, dst, n, k) == k
  {
    hide Wrap, MovedFrom, AfterMoves, Window;
    if forall k :: WINDOW <= k < WINDOW_END ==> MovedFrom(src, dst, n, k) == k {
      forall m: Memory ensures Window(AfterMoves(m, src, dst, n)) == Window(m) {
        WindowAt(m, AfterMoves(m, src, dst, n));
        forall k | WINDOW <= k < WINDOW_END ensures AfterMoves(m, src, dst, n)[k] == m[k] {
          MoveTraces(m, src, dst, n, k);
        }
      }
    } else {
      var k :| WINDOW <= k < WINDOW_END && MovedFrom(src, dst, n, k) != k;
      var m := Marked(k);
      MoveTraces(m, src, dst, n, k);
      WindowAt(m, AfterMoves(m, src, dst, n));
    }
  }

  // ----- Interleave -----

  lemma {:induction false} WeaveKeepsOutside(w: Weave, left: int, right: int, out: int, n: nat, k: nat)
    requires w.Valid() && k < SIZE && Wrap(k - out) >= 32 * n
    ensures w.After(left, right, out, n).mem[k] == w.mem[k]
  {
    hide Wrap, LoadQuad, Woven;
    if n > 0 {
      WeaveKeepsOutside(w, left, right, out, n - 1, k);
      assert k - (out + 32 * (n - 1)) == k - out - 32 * (n - 1);
      WrapBack(k - out, 32 * (n - 1));
    }
  }

  /** An interleave whose output misses the window spares it, for any alignment. */
  lemma InterleaveOutsideWindow(w: Weave, left: int, right: int, out: int, n: nat)
    requires w.Valid() && AreaMisses(out, 32 * n)
    ensures Window(w.After(left, right, out, n).mem) == Window(w.mem)
  {
    hide Wrap, Window, AreaMisses, Weave.After;
    WindowAt(w.mem, w.After(left, right, out, n).mem);
    forall k | WINDOW <= k < WINDOW_END ensures w.After(left, right, out, n).mem[k] == w.mem[k] {
      AreaOutside(out, 32 * n, k);
      WeaveKeepsOutside(w, left, right, out, n, k);
    }
  }

  /** Where a byte may come from: the old memory, or a lane of one of the vector registers. */
  datatype Origin = Cell(address: nat) | Stale(second: bool, lane: nat)

  /** The input of a side. */
  function InputOf(left: int, right: int, second: bool): int { if second then right else left }

  lemma LaneBelow(off: nat)
    requires off < 32
    ensures Lane(off) < 16
  {
  }

  /** Where the byte at address `k` comes from after `n` passes, for any alignment of the inputs. */
  function WeaveFrom(left: int, right: int, out: int, n: nat, k: nat): (origin: Origin)
    requires k < SIZE
    ensures origin.Cell? ==> origin.address < SIZE
    ensures origin.Stale? ==> origin.lane < 16
  {
    if n == 0 then Cell(k) else
    var off := Wrap(k - (out + 32 * (n - 1)));
    if off >= 32 then WeaveFrom(left, right, out, n - 1, k) else
    LaneBelow(off);
    var second, lane := off % 4 >= 2, Lane(off);
    var input := InputOf(left, right, second);
    if lane < 16 - input % 16 then WeaveFrom(left, right, out, n - 1, Wrap(input + 16 * (n - 1) + lane))
    else Stale(second, lane)
  }

  function OriginValue(w: Weave, origin: Origin): byte
    requires w.Valid() && (origin.Cell? ==> origin.address < SIZE) && (origin.Stale? ==> origin.lane < 16)
  {
    match origin
    case Cell(a) => w.mem[a]
    case Stale(second, lane) => if second then w.v2[lane] else w.v1[lane]
  }

  /** The lanes that a misaligned load does not fill are never filled. */
  lemma {:induction false} StaleLanes(w: Weave, left: int, right: int, out: int, n: nat, lane: nat)
    requires w.Valid() && lane < 16
    ensures lane >= 16 - left % 16 ==> w.After(left, right, out, n).v1[lane] == w.v1[lane]
    ensures lane >= 16 - right % 16 ==> w.After(left, right, out, n).v2[lane] == w.v2[lane]
  {
    hide Wrap, Woven;
    if n > 0 {
      StaleLanes(w, left, right, out, n - 1, lane);
      SameMisalignment(left, n - 1);
      SameMisalignment(right, n - 1);
    }
  }

  function Register(w: Weave, second: bool): (v: seq<byte>)
    requires w.Valid()
    ensures |v| == 16
  {
    if second then w.v2 else w.v1
  }

  lemma StaleLane(w: Weave, left: int, right: int, out: int, n: nat, second: bool, lane: nat)
    requires w.Valid() && 16 - InputOf(left, right, second) % 16 <= lane < 16
    ensures Register(w.After(left, right, out, n), second)[lane] == OriginValue(w, Stale(second, lane))
  {
    StaleLanes(w, left, right, out, n, lane);
    hide Weave.After;
  }

  /** One pass, seen from one address that it writes. */
  lemma PassByte(w: Weave, left: int, right: int, out: int, n: nat, k: nat, off: nat)
    requires w.Valid() && n > 0 && k < SIZE && off == Wrap(k - (out + 32 * (n - 1))) < 32
    ensures var before, second := w.After(left, right, out, n - 1), off % 4 >= 2;
            && Lane(off) < 16
            && w.After(left, right, out, n).mem[k]
               == LoadQuad(before.mem, InputOf(left, right, second) + 16 * (n - 1), Register(before, second))[Lane(off)]
  {
    hide Wrap, LoadQuad, Lane;
    LaneBelow(off);
  }

  lemma OtherByte(w: Weave, left: int, right: int, out: int, n: nat, k: nat)
    requires w.Valid() && n > 0 && k < SIZE && Wrap(k - (out + 32 * (n - 1))) >= 32
    ensures w.After(left, right, out, n).mem[k] == w.After(left, right, out, n - 1).mem[k]
  {
    hide Wrap, LoadQuad, Lane;
  }

  lemma QuadLane(m: Memory, input: int, i: nat, reg: seq<byte>, lane: nat)
    requires |reg| == 16 && lane < 16
    ensures LoadQuad(m, input + 16 * i, reg)[lane]
         == if lane < 16 - input % 16 then m[Wrap(input + 16 * i + lane)] else reg[lane]
  {
    hide Wrap;
    SameMisalignment(input, i);
  }

  /** A byte that pass `n` writes comes from a lane of one of its inputs. */
  lemma WrittenByte(w: Weave, left: int, right: int, out: int, n: nat, k: nat, off: nat)
    requires w.Valid() && n > 0 && k < SIZE && off == Wrap(k - (out + 32 * (n - 1))) < 32
    ensures var input, lane := InputOf(left, right, off % 4 >= 2), Lane(off);
            && lane < 16
            && w.After(left, right, out, n).mem[k] ==
               if lane < 16 - input % 16 then w.After(left, right, out, n - 1).mem[Wrap(input + 16 * (n - 1) + lane)]
               else OriginValue(w, Stale(off % 4 >= 2, lane))
  {
    hide *;
    PassByte(w, left, right, out, n, k, off);
    var before, second := w.After(left, right, out, n - 1), off % 4 >= 2;
    var input, lane := InputOf(left, right, second), Lane(off);
    var reg := Register(before, second);
    QuadLane(before.mem, input, n - 1, reg, lane);
    if lane >= 16 - input % 16 {
      StaleLane(w, left, right, out, n - 1, second, lane);
    }
  }

  /** One step of the trace, at a byte that pass `n` writes. */
  lemma TraceWritten(left: int, right: int, out: int, n: nat, k: nat, off: nat)
    requires n > 0 && k < SIZE && off == Wrap(k - (out + 32 * (n - 1))) < 32
    ensures var second, lane := off % 4 >= 2, Lane(off);
            var input := InputOf(left, right, second);
            && lane < 16
            && WeaveFrom(left, right, out, n, k) ==
               if lane < 16 - input % 16 then WeaveFrom(left, right, out, n - 1, Wrap(input + 16 * (n - 1) + lane))
               else Stale(second, lane)
  {
    LaneBelow(off);
    hide Wrap, Lane, InputOf;
  }

  lemma TraceOther(left: int, right: int, out: int, n: nat, k: nat)
    requires n > 0 && k < SIZE && Wrap(k - (out + 32 * (n - 1))) >= 32
    ensures WeaveFrom(left, right, out, n, k) == WeaveFrom(left, right, out, n - 1, k)
  {
    hide Wrap;
  }

  /** The byte at address `k` after `n` passes. */
  function ByteAfter(w: Weave, left: int, right: int, out: int, n: nat, k: nat): byte
    requires w.Valid() && k < SIZE
  {
    w.After(left, right, out, n).mem[k]
  }

  /** The trace is right for a byte that pass `n` writes, if it is for what the pass reads. */
  lemma TracesWritten(w: Weave, left: int, right: int, out: int, n: nat, k: nat, off: nat, source: nat)
    requires w.Valid() && n > 0 && k < SIZE && off == Wrap(k - (out + 32 * (n - 1))) < 32
    requires source == Wrap(InputOf(left, right, off % 4 >= 2) + 16 * (n - 1) + Lane(off))
    requires ByteAfter(w, left, right, out, n - 1, source) == OriginValue(w, WeaveFrom(left, right, out, n - 1, source))
    ensures ByteAfter(w, left, right, out, n, k) == OriginValue(w, WeaveFrom(left, right, out, n, k))
  {
    WrittenByte(w, left, right, out, n, k, off);
    TraceWritten(left, right, out, n, k, off);
    hide Wrap, Lane, InputOf, Weave.After, WeaveFrom, OriginValue;
  }

  lemma TracesOther(w: Weave, left: int, right: int, out: int, n: nat, k: nat)
    requires w.Valid() && n > 0 && k < SIZE && Wrap(k - (out + 32 * (n - 1))) >= 32
    requires ByteAfter(w, left, right, out, n - 1, k) == OriginValue(w, WeaveFrom(left, right, out, n - 1, k))
    ensures ByteAfter(w, left, right, out, n, k) == OriginValue(w, WeaveFrom(left, right, out, n, k))
  {
    OtherByte(w, left, right, out, n, k);
    TraceOther(left, right, out, n, k);
    hide Wrap, Weave.After, WeaveFrom, OriginValue;
  }

  lemma TracesNothing(w: Weave, left: int, right: int, out: int, k: nat)
    requires w.Valid() && k < SIZE
    ensures ByteAfter(w, left, right, out, 0, k) == OriginValue(w, WeaveFrom(left, right, out, 0, k))
  {
  }

  /** Every byte of the result has the value its origin had. */
  lemma {:induction false} WeaveTraces(w: Weave, left: int, right: int, out: int, n: nat, k: nat)
    requires w.Valid() && k < SIZE
    ensures ByteAfter(w, left, right, out, n, k) == OriginValue(w, WeaveFrom(left, right, out, n, k))
    decreases n
  {
    hide *;
    if n == 0 {
      TracesNothing(w, left, right, out, k);
    } else {
      var off := Wrap(k - (out + 32 * (n - 1)));
      if off >= 32 {
        WeaveTraces(w, left, right, out, n - 1, k);
        TracesOther(w, left, right, out, n, k);
      } else {
        var source := Wrap(InputOf(left, right, off % 4 >= 2) + 16 * (n - 1) + Lane(off));
        WeaveTraces(w, left, right, out, n - 1, source);
        TracesWritten(w, left, right, out, n, k, off, source);
      }
    }
  }

  /** A memory and registers in which the byte at `k` differs from its origin, when that is another. */
  function Telling(k: nat): (w: Weave)
    ensures w.Valid() && w.mem == Marked(k) && forall i :: 0 <= i < 16 ==> w.v1[i] == w.v2[i] == 0
  {
    Weave(Marked(k), Vector(0), Vector(0))
  }

  lemma MarkedAt(k: nat)
    requires k < SIZE
    ensures forall a :: 0 <= a < SIZE ==> Marked(k)[a] == if a == k then 1 else 0
  {
  }

  /**
    An interleave of any alignment spares the window, for all memory and register contents, if
    and only if every byte of the window traces back to itself.
   */
  lemma InterleaveMissesWindowIff(left: int, right: int, out: int, n: nat)
    ensures (forall w: Weave :: w.Valid() ==> Window(w.After(left, right, out, n).mem) == Window(w.mem))
       <==> forall k :: WINDOW <= k < WINDOW_END ==> WeaveFrom(left, right, out, n, k) == Cell(k)
  {
    hide Wrap, WeaveFrom, Weave.After, Window, Marked, Telling;
    if forall k :: WINDOW <= k < WINDOW_END ==> WeaveFrom(left, right, out, n, k) == Cell(k) {
      forall w: Weave | w.Valid() ensures Window(w.After(left, right, out, n).mem) == Window(w.mem) {
        WindowAt(w.mem, w.After(left, right, out, n).mem);
        forall k | WINDOW <= k < WINDOW_END ensures w.After(left, right, out, n).mem[k] == w.mem[k] {
          WeaveTraces(w, left, right, out, n, k);
        }
      }
    } else {
      var k :| WINDOW <= k < WINDOW_END && WeaveFrom(left, right, out, n, k) != Cell(k);
      var w := Telling(k);
      WeaveTraces(w, left, right, out, n, k);
      MarkedAt(k);
      WindowAt(w.mem, w.After(left, right, out, n).mem);
      assert w.After(left, right, out, n).mem[k] == 0 && w.mem[k] == 1;
    }
  }

  // ----- The closed form, for interleaves that are right -----

  /**
    The sample at offset `o` of the output is read from there: inputs at offsets `d` and `e` feed it
    from half as far on.
   */
  predicate IsOwn(d: nat, e: nat, o: nat) {
    if o % 4 < 2 then d == 2 * (o / 4) else e == 2 * (o / 4) + 2
  }

  /** An input byte half as far on meets the output at the same offset only where it is that far ahead. */
  lemma MeetsItself(s: nat, lane: nat, o: nat, q: nat)
    requires s < SIZE && o < SIZE && lane <= o && o == lane + q
    ensures Wrap(s + lane) == o <==> s == q
  {
    hide Wrap;
    if s == q {
      WrapUnique(s + lane, o, 0);
    } else if Wrap(s + lane) == o {
      WrapUnique(o, o, 0);
      WrapSame(s + lane, o);
    }
  }

  lemma LaneOf(o: nat)
    ensures Lane(o) <= o && o - Lane(o) == if o % 4 < 2 then 2 * (o / 4) else 2 * (o / 4) + 2
  {
    hide Lane;
    LaneIs(o / 4, o % 4);
  }

  /** Which output bytes are their own samples: at most one sample of each side. */
  lemma OwnSample(left: int, right: int, out: int, k: nat)
    requires k < SIZE
    ensures var d, e, o := Wrap(left - out), Wrap(right - out), Wrap(k - out);
            Wrap((if o % 4 < 2 then left else right) + Lane(o)) == k <==> IsOwn(d, e, o)
  {
    hide Wrap, Lane;
    var o := Wrap(k - out);
    var input := if o % 4 < 2 then left else right;
    LaneOf(o);
    MeetsItself(Wrap(input - out), Lane(o), o, o - Lane(o));
    Address(out, input, Lane(o));
    WrapOffset(out, k);
    if Wrap(input + Lane(o)) == k {
      SameOffset(out, Wrap(Wrap(input - out) + Lane(o)), o);
    }
  }

  /** The output does not write the byte at `k`, or writes it with itself. */
  predicate SparesByte(left: int, right: int, out: int, n: nat, k: nat) {
    Wrap(k - out) >= 32 * n || IsOwn(Wrap(left - out), Wrap(right - out), Wrap(k - out))
  }

  /** The output reaches the window only where a sample is its own: at most one on each side. */
  predicate ReachesOnlyItself(left: int, right: int, out: int, n: nat) {
    forall k :: WINDOW <= k < WINDOW_END ==> SparesByte(left, right, out, n, k)
  }

  /** One byte of the window under an interleave that is right. */
  lemma RightByte(m: Memory, left: int, right: int, out: int, n: nat, k: nat)
    requires left % 16 == 0 && right % 16 == 0 && StaysAhead(left, out, n) && StaysAhead(right, out, n) && k < SIZE
    ensures var o := Wrap(k - out);
            Interleaved(m, left, right, out, n)[k]
            == if o >= 32 * n then m[k] else m[Wrap((if o % 4 < 2 then left else right) + Lane(o))]
  {
    hide Wrap, Lane, StaysAhead, Interleaved;
    InterleaveIsRight(m, left, right, out, n, n);
    assert Interleaved(m, left, right, out, n)[k] == WovenAt(m, left, right, out, 32 * n, k);
  }

  /** A byte is spared for all memory contents if it is spared for the one that marks it. */
  lemma SparesByteIff(m: Memory, left: int, right: int, out: int, n: nat, k: nat)
    requires left % 16 == 0 && right % 16 == 0 && StaysAhead(left, out, n) && StaysAhead(right, out, n) && k < SIZE
    ensures SparesByte(left, right, out, n, k) ==> Interleaved(m, left, right, out, n)[k] == m[k]
    ensures !SparesByte(left, right, out, n, k) ==> Interleaved(Marked(k), left, right, out, n)[k] == 0
  {
    hide Wrap, Lane, StaysAhead, Interleaved, IsOwn, Marked;
    RightByte(m, left, right, out, n, k);
    RightByte(Marked(k), left, right, out, n, k);
    MarkedAt(k);
    OwnSample(left, right, out, k);
  }

  /**
    The closed form.  An interleave that is right spares the window, for all memory contents, if
    and only if its output reaches the window only in samples that are their own.
   */
  lemma RightInterleaveSparesWindowIff(left: int, right: int, out: int, n: nat)
    requires left % 16 == 0 && right % 16 == 0 && StaysAhead(left, out, n) && StaysAhead(right, out, n)
    ensures (forall m: Memory :: Window(Interleaved(m, left, right, out, n)) == Window(m))
       <==> ReachesOnlyItself(left, right, out, n)
  {
    hide Wrap, StaysAhead, Interleaved, SparesByte, Window, Marked;
    if ReachesOnlyItself(left, right, out, n) {
      forall m: Memory ensures Window(Interleaved(m, left, right, out, n)) == Window(m) {
        WindowAt(m, Interleaved(m, left, right, out, n));
        forall k | WINDOW <= k < WINDOW_END ensures Interleaved(m, left, right, out, n)[k] == m[k] {
          SparesByteIff(m, left, right, out, n, k);
        }
      }
    } else {
      var k :| WINDOW <= k < WINDOW_END && !SparesByte(left, right, out, n, k);
      var m := Marked(k);
      MarkedAt(k);
      SparesByteIff(m, left, right, out, n, k);
      WindowAt(m, Interleaved(m, left, right, out, n));
    }
  }

  // ----- As handlers of the command processor -----

  /** L_11DC: clear, with the registers it leaves. */
  function ClearBuffer(m: Machine): Machine {
    var count := Low(m.r25);
    var n := Blocks(count);
    if count == 0 then m.(r3 := 0, r4 := BUFFERS)
    else m.(r2 := Low(m.r26) + BUFFERS + 16 * n, r3 := Add32(count, -16 * (n + 1)), r4 := BUFFERS,
         dmem := Cleared(m.dmem, Low(m.r26) + BUFFERS, 16 * n))
  }

  /** L_140C: move, with the registers it leaves. */
  function MoveBuffer(m: Machine): Machine {
    var count := Low(m.r25);
    var n := Blocks(count);
    if count == 0 then m.(r1 := 0, r2 := Low(m.r26))
    else m.(r1 := Add32(count, -16 * n), r2 := Low(m.r26) + BUFFERS + 16 * n, r3 := High(m.r25) + BUFFERS + 16 * n,
         dmem := AfterMoves(m.dmem, Low(m.r26) + BUFFERS, High(m.r25) + BUFFERS, n))
  }

  /** The area a clear command writes misses the window. */
  predicate ClearMisses(w0: word, w1: word) { AreaMisses(Low(w0) + BUFFERS, 16 * Blocks(Low(w1))) }

  /** The area a move command writes misses the window. */
  predicate MoveMisses(w0: word, w1: word) { AreaMisses(High(w1) + BUFFERS, 16 * Blocks(Low(w1))) }

  lemma ClearKeepsFetch(m: Machine, ptr: nat, list: seq<byte>)
    requires HoldsList(m.rdram, ptr, list) && ClearMisses(m.r26, m.r25)
    ensures KeepsFetch(m, ClearBuffer(m), ptr, list)
  {
    ClearMissesWindowIff(Low(m.r26) + BUFFERS, 16 * Blocks(Low(m.r25)));
    hide AreaMisses, Window, Cleared, Low, Blocks, HoldsList;
  }

  lemma MoveKeepsFetch(m: Machine, ptr: nat, list: seq<byte>)
    requires HoldsList(m.rdram, ptr, list) && MoveMisses(m.r26, m.r25)
    ensures KeepsFetch(m, MoveBuffer(m), ptr, list)
  {
    MoveOutsideWindow(m.dmem, Low(m.r26) + BUFFERS, High(m.r25) + BUFFERS, Blocks(Low(m.r25)));
    hide AreaMisses, Window, AfterMoves, HoldsList;
  }

  /** A list of clear commands that miss the window is run by the command processor as it stands. */
  lemma ClearLeavesFetchAlone(ptr: nat, list: seq<byte>)
    requires list != [] && |list| % 8 == 0
    requires forall j: nat :: 8 * j + 8 <= |list| ==> ClearMisses(Command(list, j).0, Command(list, j).1)
    ensures LeavesFetchAlone(ClearBuffer, Anything(), ptr, list)
  {
    hide ClearMisses, ClearBuffer, Command, KeepsFetch, HoldsList;
    forall m: Machine, j: nat | j < Parts(|list|, 8) && Entered(m, ptr, list, j)
      ensures KeepsFetch(m, ClearBuffer(m), ptr, list)
    {
      assert 8 * j + 8 <= |list|;
      assert ClearMisses(Command(list, j).0, Command(list, j).1);
      ClearKeepsFetch(m, ptr, list);
    }
  }

  /** The same of move commands. */
  lemma MoveLeavesFetchAlone(ptr: nat, list: seq<byte>)
    requires list != [] && |list| % 8 == 0
    requires forall j: nat :: 8 * j + 8 <= |list| ==> MoveMisses(Command(list, j).0, Command(list, j).1)
    ensures LeavesFetchAlone(MoveBuffer, Anything(), ptr, list)
  {
    hide MoveMisses, MoveBuffer, Command, KeepsFetch, HoldsList;
    forall m: Machine, j: nat | j < Parts(|list|, 8) && Entered(m, ptr, list, j)
      ensures KeepsFetch(m, MoveBuffer(m), ptr, list)
    {
      assert 8 * j + 8 <= |list|;
      assert MoveMisses(Command(list, j).0, Command(list, j).1);
      MoveKeepsFetch(m, ptr, list);
    }
  }
}
