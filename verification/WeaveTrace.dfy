/**
  Exactly when the interleave command interleaves.  Every byte of the result is traced back to
  the byte of the old memory it came from, as offsets from the output, and the trace is
  compared with what an interleave should do.
 */
module WeaveTrace {
  import opened Bytes
  import opened Dmem
  import opened AudioBlocks
  import opened AudioWeave

  // ----- Tracing bytes -----

  /** The input that lane `o` of the output takes its sample from. */
  function Side(d: int, e: int, o: nat): int { if o % 4 < 2 then d else e }

  /** Where the byte at offset `o` came from after `n` passes, for inputs at offsets `d` and `e` from the output. */
  function From(d: int, e: int, n: nat, o: nat): (origin: nat)
    requires o < SIZE
    ensures origin < SIZE
  {
    if n == 0 then o
    else if o / 32 == (n - 1) % 128 then From(d, e, n - 1, Wrap(Side(d, e, o) + 16 * (n - 1) + Lane(o % 32)))
    else From(d, e, n - 1, o)
  }

  /** Where it should have come from. */
  function Goal(d: int, e: int, n: nat, o: nat): (origin: nat)
    requires o < SIZE
    ensures origin < SIZE
  {
    if o < 32 * n then Wrap(Side(d, e, o) + Lane(o)) else o
  }

  ghost predicate Traces(d: int, e: int, n: nat) {
    forall o: nat :: o < SIZE ==> From(d, e, n, o) == Goal(d, e, n, o)
  }

  /** A byte that the passes from `i` to `n` do not write. */
  ghost predicate Unwritten(i: nat, n: nat, o: nat) {
    forall t :: i <= t < n ==> t % 128 != o / 32
  }

  lemma {:induction false} Kept(d: int, e: int, i: nat, n: nat, o: nat)
    requires i <= n && o < SIZE && Unwritten(i, n, o)
    ensures From(d, e, n, o) == From(d, e, i, o)
    decreases n
  {
    if i < n {
      assert (n - 1) % 128 != o / 32;
      Kept(d, e, i, n - 1, o);
    }
  }

  /** Which byte of its output block takes byte `y` of the left or the right input. */
  function Place(right: bool, y: nat): nat { 4 * (y / 2) + y % 2 + if right then 2 else 0 }

  lemma PlaceIs(right: bool, y: nat, c: nat)
    requires y < 16
    ensures Place(right, y) < 32 && Lane(Place(right, y)) == y
    ensures (32 * c + Place(right, y)) % 4 < 2 <==> !right
    ensures (32 * c + Place(right, y)) / 32 == c && (32 * c + Place(right, y)) % 32 == Place(right, y)
    ensures Lane(32 * c + Place(right, y)) == 16 * c + y
  {
    var x := Place(right, y);
    LaneIs(y / 2, y % 2 + if right then 2 else 0);
    LaneShift(c, x);
  }

  /** What pass `i` writes. */
  lemma WrittenFrom(d: int, e: int, i: nat, o: nat)
    requires o < SIZE && o / 32 == i % 128
    ensures From(d, e, i + 1, o) == From(d, e, i, Wrap(Side(d, e, o) + 16 * i + Lane(o % 32)))
  {
    assert i + 1 - 1 == i;
  }

  lemma OtherBlock(i: nat, t: nat)
    requires i < t < i + 128
    ensures t % 128 != i % 128
  {
  }

  /** A block is not written again before a lap has passed. */
  lemma OnceALap(i: nat, n: nat, o: nat)
    requires o / 32 == i % 128 && n <= i + 128
    ensures Unwritten(i + 1, n, o)
  {
    forall t | i + 1 <= t < n ensures t % 128 != o / 32 {
      OtherBlock(i, t);
    }
  }

  /** In the last lap, what pass `i` reads is what should end up in its output. */
  lemma ReadRight(d: int, e: int, n: nat, i: nat, right: bool, y: nat)
    requires Traces(d, e, n) && i < n <= i + 128 && y < 16
    ensures var s := if right then e else d;
            From(d, e, i, Wrap(s + 16 * i + y)) == Wrap(s + 16 * (i % 128) + y)
  {
    hide Wrap, Lane, Place, Unwritten, From;
    var c := i % 128;
    var o := 32 * c + Place(right, y);
    PlaceIs(right, y, c);
    OnceALap(i, n, o);
    Kept(d, e, i + 1, n, o);
    WrittenFrom(d, e, i, o);
    assert From(d, e, n, o) == Goal(d, e, n, o);
  }

  lemma LaneBlock(o: nat, c: nat)
    requires 16 * c <= Lane(o) < 16 * c + 16
    ensures o / 32 == c
  {
    var q, r := o / 4, o % 4;
    LaneIs(q, r);
    assert 8 * c <= q < 8 * c + 8;
  }

  lemma LaneRange(o: nat)
    requires o < SIZE
    ensures Lane(o) < 2048
  {
  }

  /**
    What pass `i` reads off a byte that has its final value belongs to the other side's lanes,
    and that byte is its own sample.
   */
  lemma Stale(d: int, e: int, n: nat, i: nat, right: bool, y: nat, o: nat)
    requires Traces(d, e, n) && i < n <= i + 128 && y < 16 && o < SIZE && o < 32 * n
    requires var s := if right then e else d; o == Wrap(s + 16 * i + y)
    requires Unwritten(i, n, o)
    ensures o % 4 < 2 <==> right
    ensures var s := if right then e else d;
            Wrap(Side(d, e, o) + Lane(o)) == Wrap(s + 16 * (i % 128) + y)
  {
    var s, c := if right then e else d, i % 128;
    ReadRight(d, e, n, i, right, y);
    Kept(d, e, i, n, o);
    assert From(d, e, n, o) == Goal(d, e, n, o);
    hide Wrap, From, Goal, Lane;
    assert Wrap(Side(d, e, o) + Lane(o)) == Wrap(s + 16 * c + y);
    assert i % 128 != o / 32;
    if o % 4 < 2 <==> !right {
      LaneRange(o);
      WrapSame(s + Lane(o), s + 16 * c + y);
      LaneBlock(o, c);
    }
  }

  /** The first half of that, which is all that most cases need. */
  lemma StaleLane(d: int, e: int, n: nat, i: nat, right: bool, y: nat, o: nat)
    requires Traces(d, e, n) && i < n <= i + 128 && y < 16 && o < SIZE && o < 32 * n
    requires var s := if right then e else d; o == Wrap(s + 16 * i + y)
    requires Unwritten(i, n, o)
    ensures o % 4 < 2 <==> right
  {
    Stale(d, e, n, i, right, y, o);
  }

  // ----- Up to one lap: an input the output catches -----

  /** Offsets of inputs at 16-byte-aligned addresses. */
  predicate Offsets(d: int, e: int) {
    0 <= d < SIZE && 0 <= e < SIZE && (d - e) % 16 == 0
  }

  /** In the first lap, what lies below the output is not written again. */
  lemma Below(i: nat, n: nat, o: nat)
    requires n <= 128 && o < 32 * i
    ensures Unwritten(i, n, o)
  {
  }

  lemma LaneEnd(i: nat)
    requires i > 0
    ensures Lane(32 * i - 1) == 16 * i - 1 && (32 * i - 1) % 4 == 3 && (32 * i - 3) % 4 == 1
  {
    LaneIs(8 * i - 1, 3);
  }

  /** The left input caught from below. */
  lemma LeftCaught(d: int, e: int, n: nat)
    requires Traces(d, e, n) && Offsets(d, e) && 2 <= n <= 128
    ensures d >= 16 * (n - 1)
  {
    hide Wrap, Traces, Unwritten, Lane;
    if d < 16 * (n - 1) {
      var i := d / 16 + 1;
      LaneEnd(i);
      Below(i, n, 32 * i - 1);
      Stale(d, e, n, i, false, 16 * i - 1 - d, 32 * i - 1);
      WrapSame(e + 16 * i - 1, 32 * i - 1);
      assert e % 16 == 0 && d % 16 == 0;
      Below(i, n, 32 * i - 3);
      StaleLane(d, e, n, i, false, 13, 32 * i - 3);
    }
  }

  /** The left input met going round. */
  lemma LeftMet(d: int, e: int, n: nat)
    requires Traces(d, e, n) && Offsets(d, e) && 2 <= n <= 128
    ensures d <= SIZE - 16 * n
  {
    hide Wrap, Traces, Unwritten, Lane;
    var o := d + 16 * n - 1 - SIZE;
    if o >= 0 {
      WrapUnique(d + 16 * (n - 1) + 15, o, 1);
      Below(n - 1, n, o);
      StaleLane(d, e, n, n - 1, false, 15, o);
      WrapUnique(d + 16 * (n - 1) + 13, o - 2, 1);
      Below(n - 1, n, o - 2);
      StaleLane(d, e, n, n - 1, false, 13, o - 2);
    }
  }

  lemma RightCaught(d: int, e: int, n: nat)
    requires Traces(d, e, n) && Offsets(d, e) && 2 <= n <= 128
    ensures e >= 16 * (n - 1)
  {
    hide Wrap, Traces, Unwritten, Lane;
    if e < 16 * (n - 1) {
      var i := e / 16 + 1;
      LaneEnd(i);
      Below(i, n, 32 * i - 1);
      StaleLane(d, e, n, i, true, 16 * i - 1 - e, 32 * i - 1);
    }
  }

  lemma MetAtStart(d: int, e: int, n: nat, o: nat)
    requires 0 <= d < SIZE && o < 2 && Wrap(Side(d, e, o) + Lane(o)) == o
    ensures d == 0
  {
    hide Wrap;
    WrapUnique(o, o, 0);
    WrapSame(d + o, o);
  }

  lemma TwoBack(o: nat)
    requires o >= 2
    ensures (o - 2) % 4 < 2 <==> o % 4 >= 2
  {
  }

  lemma RightMet(d: int, e: int, n: nat)
    requires Traces(d, e, n) && Offsets(d, e) && 2 <= n <= 128 && d > 0
    ensures e <= SIZE - 16 * n
  {
    hide Wrap, Traces, Unwritten, Lane;
    var o := e + 16 * n - 1 - SIZE;
    if o >= 0 {
      WrapUnique(e + 16 * (n - 1) + 15, o, 1);
      Below(n - 1, n, o);
      Stale(d, e, n, n - 1, true, 15, o);
      if o >= 2 {
        hide Side;
        TwoBack(o);
        WrapUnique(e + 16 * (n - 1) + 13, o - 2, 1);
        Below(n - 1, n, o - 2);
        StaleLane(d, e, n, n - 1, true, 13, o - 2);
      } else {
        MetAtStart(d, e, n, o);
      }
    }
  }

  lemma FirstLapClear(d: int, e: int, n: nat)
    requires Traces(d, e, n) && Offsets(d, e) && n <= 128
    ensures StaysClear(d, n) && StaysClear(e, n)
  {
    if n >= 2 {
      LeftCaught(d, e, n);
      LeftMet(d, e, n);
      RightCaught(d, e, n);
      RightMet(d, e, n);
    }
  }

  // ----- More than one lap: never right -----

  lemma LaneEnds(x: nat)
    requires x < 32
    ensures Lane(x) == 0 ==> x == 0 || x == 2
    ensures Lane(x) == 15 ==> x == 29 || x == 31
  {
    hide Lane;
    var q, r := x / 4, x % 4;
    assert 4 * q + r == x;
    LaneIs(q, r);
  }

  lemma LaneMod(o: nat)
    ensures Lane(o) % 16 == 0 ==> o % 32 == 0 || o % 32 == 2
    ensures Lane(o) % 16 == 15 ==> o % 32 == 29 || o % 32 == 31
  {
    var q, x := o / 32, o % 32;
    LaneShift(q, x);
    hide Lane;
    assert 32 * q + x == o;
    assert (16 * q + Lane(x)) % 16 == Lane(x);
    LaneEnds(x);
  }

  lemma Mod4(k: nat, x: nat)
    ensures (4 * k + x) % 4 == x % 4
  {
  }

  /** A block and a byte of it. */
  lemma Digits(c: nat, x: nat)
    requires x < 32
    ensures (32 * c + x) / 32 == c && (32 * c + x) % 32 == x && (32 * c + x) % 4 == x % 4
  {
    Mod4(8 * c, x);
  }

  /** Two bytes on from the start of a block, and two back from its end, is the other side's lane. */
  lemma OtherLane(o: nat)
    ensures o % 32 == 0 || o % 32 == 2 ==> (o + 2) / 32 == o / 32 && ((o + 2) % 4 < 2 <==> o % 4 >= 2)
    ensures o % 32 == 29 || o % 32 == 31 ==> (o - 2) / 32 == o / 32 && ((o - 2) % 4 < 2 <==> o % 4 >= 2)
  {
    var c, x := o / 32, o % 32;
    Digits(c, x);
    if x == 0 || x == 2 {
      Digits(c, x + 2);
      assert o + 2 == 32 * c + (x + 2);
    } else if x == 29 || x == 31 {
      Digits(c, x - 2);
      assert o - 2 == 32 * c + (x - 2);
    }
  }

  lemma SideMod(d: int, e: int, o: nat, s: int, x: int, c: int)
    requires Offsets(d, e) && (s == d || s == e) && (Side(d, e, o) - s + x - 16 * c) % 16 == 0
    ensures x % 16 == 0
  {
  }

  /** What the last pass reads from outside the block it writes. */
  lemma ReadOutside(d: int, e: int, n: nat, right: bool, y: nat, o: nat)
    requires Traces(d, e, n) && Offsets(d, e) && n > 128 && y < 16 && o < SIZE
    requires o == Wrap((if right then e else d) + 16 * (n - 1) + y) && o / 32 != (n - 1) % 128
    ensures o % 4 < 2 <==> right
    ensures (Lane(o) - y) % 16 == 0
  {
    hide Wrap, Traces, Lane;
    var c, s := (n - 1) % 128, if right then e else d;
    Stale(d, e, n, n - 1, right, y, o);
    hide Unwritten;
    WrapSame(Side(d, e, o) + Lane(o), s + 16 * c + y);
    SideMod(d, e, o, s, Lane(o) - y, c);
  }

  /** The neighbour two bytes up, or down, in the same block and another side's lane. */
  lemma Neighbour(d: int, e: int, n: nat, right: bool, y: nat, z: nat, o: nat, p: nat)
    requires Traces(d, e, n) && Offsets(d, e) && n > 128 && y < 16 && z < 16 && o < SIZE
    requires o == Wrap((if right then e else d) + 16 * (n - 1) + y) && o / 32 != (n - 1) % 128
    requires p as int - o == z as int - y && p < SIZE && p / 32 == o / 32
    ensures p % 4 < 2 <==> o % 4 < 2
  {
    hide Wrap, Traces, Lane;
    var a := (if right then e else d) + 16 * (n - 1) + y;
    WrapSum(a, z - y);
    WrapUnique(o + (z - y), p, 0);
    assert a + (z - y) == (if right then e else d) + 16 * (n - 1) + z;
    ReadOutside(d, e, n, right, y, o);
    ReadOutside(d, e, n, right, z, p);
  }

  lemma FirstInside(d: int, e: int, n: nat, right: bool)
    requires Traces(d, e, n) && Offsets(d, e) && n > 128
    ensures Wrap((if right then e else d) + 16 * (n - 1)) / 32 == (n - 1) % 128
  {
    hide Wrap, Traces, Lane, Offsets;
    var o := Wrap((if right then e else d) + 16 * (n - 1));
    if o / 32 != (n - 1) % 128 {
      ReadOutside(d, e, n, right, 0, o);
      LaneMod(o);
      OtherLane(o);
      Neighbour(d, e, n, right, 0, 2, o, o + 2);
    }
  }

  lemma LastInside(d: int, e: int, n: nat, right: bool)
    requires Traces(d, e, n) && Offsets(d, e) && n > 128
    ensures Wrap((if right then e else d) + 16 * (n - 1) + 15) / 32 == (n - 1) % 128
  {
    hide Wrap, Traces, Lane, Offsets;
    var o := Wrap((if right then e else d) + 16 * (n - 1) + 15);
    if o / 32 != (n - 1) % 128 {
      ReadOutside(d, e, n, right, 15, o);
      LaneMod(o);
      OtherLane(o);
      Neighbour(d, e, n, right, 15, 13, o, o - 2);
    }
  }

  /** The last pass reads each input inside the block it is about to write. */
  lemma ReadsInside(d: int, e: int, n: nat, right: bool)
    requires Traces(d, e, n) && Offsets(d, e) && n > 128
    ensures var c, s := (n - 1) % 128, if right then e else d;
            32 * c <= Wrap(s + 16 * (n - 1)) <= 32 * c + 16
  {
    hide Wrap, Traces, Lane;
    var c, s := (n - 1) % 128, if right then e else d;
    var first := Wrap(s + 16 * (n - 1));
    FirstInside(d, e, n, right);
    LastInside(d, e, n, right);
    WrapSum(s + 16 * (n - 1), 15);
    assert s + 16 * (n - 1) + 15 == s + (16 * (n - 1) + 15);
    if first + 15 < SIZE {
      WrapUnique(first + 15, first + 15, 0);
    } else {
      WrapUnique(first + 15, first + 15 - SIZE, 1);
    }
  }

  /** Before pass `i` rewrites a block, it holds what the pass a lap earlier put there. */
  lemma PreviousLap(d: int, e: int, i: nat, o: nat)
    requires i >= 128 && o < SIZE && o / 32 == i % 128
    ensures From(d, e, i, o) == From(d, e, i - 128, Wrap(Side(d, e, o) + 16 * (i - 128) + Lane(o % 32)))
  {
    hide Wrap, Lane, From, Unwritten;
    assert (i - 128) % 128 == i % 128;
    OnceALap(i - 128, i, o);
    Kept(d, e, i - 127, i, o);
    WrittenFrom(d, e, i - 128, o);
  }

  lemma LanePair(x: nat)
    requires x < 32 && x % 4 < 2
    ensures x + 2 < 32 && (x + 2) % 4 >= 2 && Lane(x + 2) == Lane(x)
  {
    hide Lane;
    var q, r := x / 4, x % 4;
    assert x == 4 * q + r && x + 2 == 4 * q + (r + 2);
    LaneIs(q, r);
    LaneIs(q, r + 2);
  }

  lemma SameLane(o: nat)
    requires o % 4 < 2
    ensures (o + 2) % 4 >= 2 && (o + 2) / 32 == o / 32 && Lane((o + 2) % 32) == Lane(o % 32)
  {
    hide Lane;
    var c, x := o / 32, o % 32;
    Digits(c, x);
    LanePair(x);
    Digits(c, x + 2);
    assert o == 32 * c + x && o + 2 == 32 * c + (x + 2);
  }

  /** With one input for both sides, both lanes of a sample got the same byte a lap earlier. */
  lemma BothLanesAlike(d: int, i: nat, o: nat)
    requires i >= 128 && o + 2 < SIZE && o / 32 == i % 128 && o % 4 < 2
    ensures From(d, d, i, o) == From(d, d, i, o + 2)
  {
    hide Wrap, Lane, From;
    SameLane(o);
    PreviousLap(d, d, i, o);
    PreviousLap(d, d, i, o + 2);
  }

  lemma LaneStart(first: nat, c: nat) returns (y: nat)
    requires 32 * c <= first <= 32 * c + 16 && c < 128
    ensures y <= 2 && (first + y) % 4 < 2 && (first + y) / 32 == c && first + y + 2 < SIZE
  {
    y := if first % 4 < 2 then 0 else 2;
  }

  /** ReadRight, at a place that does not go round. */
  lemma ReadAt(d: int, e: int, n: nat, i: nat, right: bool, y: nat, o: nat)
    requires Traces(d, e, n) && i < n <= i + 128 && y < 16 && o < SIZE
    requires o - y == Wrap((if right then e else d) + 16 * i)
    ensures From(d, e, i, o) == Wrap((if right then e else d) + 16 * (i % 128) + y)
  {
    hide Wrap, Traces, From;
    ReadRight(d, e, n, i, right, y);
    WrapSum((if right then e else d) + 16 * i, y);
    WrapUnique(o, o, 0);
  }

  /** One input for both sides cannot be right: it would need two samples where there is one. */
  lemma OneInput(d: int, n: nat)
    requires Offsets(d, d) && n > 128
    ensures !Traces(d, d, n)
  {
    hide Wrap, Lane, Traces;
    if Traces(d, d, n) {
      var c := (n - 1) % 128;
      var first := Wrap(d + 16 * (n - 1));
      ReadsInside(d, d, n, false);
      var y := LaneStart(first, c);
      BothLanesAlike(d, n - 1, first + y);
      ReadAt(d, d, n, n - 1, false, y, first + y);
      ReadAt(d, d, n, n - 1, false, y + 2, first + y + 2);
      hide From;
      WrapSame(d + 16 * c + y, d + 16 * c + y + 2);
    }
  }

  lemma FirstLane(c: nat, y: nat)
    requires y == 0 || y == 2
    ensures (32 * c + y) / 32 == c && (32 * c + y) % 32 == y && (32 * c + y) % 4 == y && Lane(y) == 0
  {
  }

  /** What the last pass needs from the last lap, and where it came from then. */
  lemma FirstValue(d: int, e: int, n: nat, right: bool)
    requires Traces(d, e, n) && n >= 130
    requires Wrap((if right then e else d) + 16 * (n - 1)) == 32 * ((n - 1) % 128)
    ensures var c, low, y := (n - 1) % 128, if right then e else d, if right then 2 else 0;
            From(d, e, n - 129, Wrap(low + 16 * (n - 129))) == Wrap(low + 16 * c + y)
  {
    hide Wrap, Traces, From, Lane;
    var c, y := (n - 1) % 128, if right then 2 else 0;
    ReadAt(d, e, n, n - 1, right, y, 32 * c + y);
    PreviousLap(d, e, n - 1, 32 * c + y);
    FirstLane(c, y);
  }

  lemma BlockBefore(low: int, n: nat)
    requires n >= 130 && Wrap(low + 16 * (n - 1)) == 32 * ((n - 1) % 128)
    ensures Wrap(low + 16 * (n - 3)) == 32 * ((n - 2) % 128)
  {
    hide Wrap;
    WrapSum(low + 16 * (n - 1), -32);
    var c, b := (n - 1) % 128, (n - 2) % 128;
    WrapUnique(32 * c - 32, 32 * b, if c == 0 then -1 else 0);
  }

  lemma SixteenApart(low: int, high: int, n: nat)
    requires n >= 130
    requires var c := (n - 1) % 128; Wrap(low + 16 * (n - 1)) == 32 * c && Wrap(high + 16 * (n - 1)) == 32 * c + 16
    ensures Wrap(high + 16 * (n - 130)) == Wrap(low + 16 * (n - 129))
  {
    hide Wrap;
    var a, b := low + 16 * (n - 1), high + 16 * (n - 1);
    WrapSum(b, -2064);
    WrapSum(a, -2048);
  }

  /** The same for the pass two before it. */
  lemma SecondValue(d: int, e: int, n: nat, right: bool)
    requires Traces(d, e, n) && n >= 130
    requires var c, low, high := (n - 1) % 128, if right then e else d, if right then d else e;
             Wrap(low + 16 * (n - 1)) == 32 * c && Wrap(high + 16 * (n - 1)) == 32 * c + 16
    ensures var low, y := if right then e else d, if right then 2 else 0;
            From(d, e, n - 130, Wrap(low + 16 * (n - 129))) == Wrap(low + 16 * ((n - 3) % 128) + (2 - y))
  {
    hide Wrap, Traces, From, Lane;
    var low, high, y := if right then e else d, if right then d else e, if right then 2 else 0;
    var b := (n - 2) % 128;
    var o := 32 * b + (2 - y);
    BlockBefore(low, n);
    ReadAt(d, e, n, n - 3, right, 2 - y, o);
    assert Unwritten(n - 3, n - 2, o);
    Kept(d, e, n - 3, n - 2, o);
    PreviousLap(d, e, n - 2, o);
    FirstLane(b, 2 - y);
    SixteenApart(low, high, n);
  }

  /** What both read a lap earlier was not written by the pass between them. */
  lemma ReadsBack(d: int, e: int, n: nat, right: bool)
    requires n >= 130
    requires Wrap((if right then e else d) + 16 * (n - 1)) == 32 * ((n - 1) % 128)
    ensures var o := Wrap((if right then e else d) + 16 * (n - 129)); From(d, e, n - 129, o) == From(d, e, n - 130, o)
  {
    hide Wrap;
    var low, c := if right then e else d, (n - 1) % 128;
    WrapSum(low + 16 * (n - 1), -2048);
    var o := if c >= 64 then 32 * c - 2048 else 32 * c + 2048;
    WrapUnique(32 * c - 2048, o, if c >= 64 then 0 else -1);
    assert Wrap(low + 16 * (n - 129)) == o && o / 32 != (n - 130) % 128;
  }

  /** Inputs 16 bytes apart: `low` is the side that starts its block. */
  lemma Straddled(d: int, e: int, n: nat, right: bool)
    requires Offsets(d, e) && n >= 130
    requires var c, low, high := (n - 1) % 128, if right then e else d, if right then d else e;
             Wrap(low + 16 * (n - 1)) == 32 * c && Wrap(high + 16 * (n - 1)) == 32 * c + 16
    ensures !Traces(d, e, n)
  {
    hide Wrap, Lane, Traces, From, Offsets;
    if Traces(d, e, n) {
      var c, low, y := (n - 1) % 128, if right then e else d, if right then 2 else 0;
      FirstValue(d, e, n, right);
      SecondValue(d, e, n, right);
      ReadsBack(d, e, n, right);
      WrapSame(low + 16 * c + y, low + 16 * ((n - 3) % 128) + (2 - y));
    }
  }

  /** One pass more than a lap, with inputs 16 bytes apart. */
  lemma OnePassMore(d: int, e: int, right: bool)
    requires Wrap((if right then e else d) + 16 * 128) == 0
    ensures !Traces(d, e, 129)
  {
    hide Wrap, Traces;
    if Traces(d, e, 129) {
      var low, y := if right then e else d, if right then 6 else 4;
      ReadAt(d, e, 129, 128, right, y, y);
      PreviousLap(d, e, 128, y);
      assert Lane(y % 32) == 2 && Side(d, e, y) == low;
      WrapSame(low + 2, low + y);
    }
  }

  lemma ApartOrTogether(d: int, e: int, n: nat)
    requires Offsets(d, e) && n > 0
    ensures var p: int, q: int := Wrap(d + 16 * (n - 1)), Wrap(e + 16 * (n - 1)); (p - q) % 16 == 0 && (p == q ==> d == e)
  {
    hide Wrap;
    var p: int, q: int := Wrap(d + 16 * (n - 1)), Wrap(e + 16 * (n - 1));
    var t1 := Turns(d + 16 * (n - 1));
    var t2 := Turns(e + 16 * (n - 1));
    assert p - q == (d - e) + 16 * (0x100 * (t2 - t1));
    if p == q {
      WrapSame(d + 16 * (n - 1), e + 16 * (n - 1));
    }
  }

  lemma AtMostOneLap(d: int, e: int, n: nat)
    requires Traces(d, e, n) && Offsets(d, e)
    ensures n <= 128
  {
    hide Wrap, Traces;
    if n > 128 {
      var c, p, q := (n - 1) % 128, Wrap(d + 16 * (n - 1)), Wrap(e + 16 * (n - 1));
      ReadsInside(d, e, n, false);
      ReadsInside(d, e, n, true);
      ApartOrTogether(d, e, n);
      if p == q {
        OneInput(d, n);
      } else if n == 129 {
        OnePassMore(d, e, p > q);
      } else {
        Straddled(d, e, n, p > q);
      }
    }
  }

  // ----- Back to memory -----

  /** The block pass `i` writes, as offsets from the output. */
  lemma OffsetBlock(o: nat, i: nat)
    requires o < SIZE
    ensures Wrap(o - 32 * i) < 32 <==> o / 32 == i % 128
    ensures Wrap(o - 32 * i) < 32 ==> Wrap(o - 32 * i) == o % 32
  {
    hide Wrap;
    var c := i % 128;
    WrapShift(o - 32 * i, i / 128);
    assert o - 32 * i + SIZE * (i / 128) == o - 32 * c;
    if o >= 32 * c {
      WrapUnique(o - 32 * c, o - 32 * c, 0);
    } else {
      WrapUnique(o - 32 * c, o - 32 * c + SIZE, -1);
    }
  }

  /** An address given by its offset from the output. */
  lemma Address(out: int, input: int, x: int)
    ensures Wrap(out + Wrap(Wrap(input - out) + x)) == Wrap(input + x)
  {
    hide Wrap;
    WrapSum(input - out, x);
    WrapSum(input - out + x, out);
  }

  lemma BackToOffset(out: int, o: nat, x: int)
    requires o < SIZE
    ensures Wrap(Wrap(out + o) - (out + x)) == Wrap(o - x)
  {
    hide Wrap;
    WrapSum(out + o, -(out + x));
  }

  /** A block's byte, at an offset inside it. */
  lemma InsideBlock(m: Memory, left: int, right: int, out: int, i: nat, o: nat)
    requires o < SIZE && o / 32 == i % 128
    ensures WeaveBlock(m, left + 16 * i, right + 16 * i, out + 32 * i)[Wrap(out + o)]
         == m[Wrap((if o % 4 < 2 then left else right) + (16 * i + Lane(o % 32)))]
  {
    hide Wrap, Lane, WeaveBlock;
    WeaveBlockAt(m, left + 16 * i, right + 16 * i, out + 32 * i, Wrap(out + o));
    BackToOffset(out, o, 32 * i);
    OffsetBlock(o, i);
    LaneShift(o / 32, o % 32);
    assert 32 * (o / 32) + o % 32 == o;
  }

  lemma OutsideBlock(m: Memory, left: int, right: int, out: int, i: nat, o: nat)
    requires o < SIZE && o / 32 != i % 128
    ensures WeaveBlock(m, left + 16 * i, right + 16 * i, out + 32 * i)[Wrap(out + o)] == m[Wrap(out + o)]
  {
    hide Wrap, Lane, WeaveBlock;
    WeaveBlockAt(m, left + 16 * i, right + 16 * i, out + 32 * i, Wrap(out + o));
    BackToOffset(out, o, 32 * i);
    OffsetBlock(o, i);
  }

  /** One block written, at an offset. */
  lemma BlockAtOffset(m: Memory, left: int, right: int, out: int, i: nat, o: nat)
    requires o < SIZE
    ensures var d, e := Wrap(left - out), Wrap(right - out);
            WeaveBlock(m, left + 16 * i, right + 16 * i, out + 32 * i)[Wrap(out + o)]
            == m[Wrap(out + if o / 32 == i % 128 then Wrap(Side(d, e, o) + 16 * i + Lane(o % 32)) else o)]
  {
    hide Wrap, Lane, WeaveBlock;
    if o / 32 == i % 128 {
      InsideBlock(m, left, right, out, i, o);
      Address(out, if o % 4 < 2 then left else right, 16 * i + Lane(o % 32));
    } else {
      OutsideBlock(m, left, right, out, i, o);
    }
  }

  /** Every byte of the result is the old byte that the trace leads to. */
  lemma {:induction false} InterleavedFrom(m: Memory, left: int, right: int, out: int, n: nat, o: nat)
    requires o < SIZE
    ensures Interleaved(m, left, right, out, n)[Wrap(out + o)]
         == m[Wrap(out + From(Wrap(left - out), Wrap(right - out), n, o))]
  {
    hide Wrap, Lane, WeaveBlock;
    if n > 0 {
      var d, e := Wrap(left - out), Wrap(right - out);
      BlockAtOffset(Interleaved(m, left, right, out, n - 1), left, right, out, n - 1, o);
      var p := if o / 32 == (n - 1) % 128 then Wrap(Side(d, e, o) + 16 * (n - 1) + Lane(o % 32)) else o;
      InterleavedFrom(m, left, right, out, n - 1, p);
    }
  }

  /** An interleave's byte is the old byte that the trace should lead to. */
  lemma WovenFrom(m: Memory, left: int, right: int, out: int, n: nat, o: nat)
    requires o < SIZE
    ensures WovenAt(m, left, right, out, 32 * n, Wrap(out + o))
         == m[Wrap(out + Goal(Wrap(left - out), Wrap(right - out), n, o))]
  {
    hide Wrap, Lane;
    BackToOffset(out, o, 0);
    WrapUnique(o, o, 0);
    if o < 32 * n {
      Address(out, if o % 4 < 2 then left else right, Lane(o));
    }
  }

  lemma SameOffset(out: int, o: nat, p: nat)
    requires o < SIZE && p < SIZE && Wrap(out + o) == Wrap(out + p)
    ensures o == p
  {
    hide Wrap;
    WrapSame(out + o, out + p);
  }

  /** If every memory is interleaved, every trace leads where it should. */
  lemma RightTraces(left: int, right: int, out: int, n: nat)
    requires forall m: Memory :: IsInterleave(m, Interleaved(m, left, right, out, n), left, right, out, 32 * n)
    ensures Traces(Wrap(left - out), Wrap(right - out), n)
  {
    hide Wrap, From, Goal, Interleaved, WovenAt;
    var d, e := Wrap(left - out), Wrap(right - out);
    forall o: nat | o < SIZE ensures From(d, e, n, o) == Goal(d, e, n, o) {
      var m := Marked(Wrap(out + From(d, e, n, o)));
      InterleavedFrom(m, left, right, out, n, o);
      WovenFrom(m, left, right, out, n, o);
      assert Interleaved(m, left, right, out, n)[Wrap(out + o)] == WovenAt(m, left, right, out, 32 * n, Wrap(out + o));
      SameOffset(out, From(d, e, n, o), Goal(d, e, n, o));
    }
  }

  // ----- Any alignment -----

  /** The command is right for all memories and all that the vector registers may hold. */
  ghost predicate AlwaysInterleaves(left: int, right: int, out: int, n: nat) {
    forall w: Weave :: w.Valid() ==> IsInterleave(w.mem, w.After(left, right, out, n).mem, left, right, out, 32 * n)
  }

  function Vector(b: byte): (v: seq<byte>)
    ensures |v| == 16
  {
    seq(16, _ => b)
  }

  lemma SameMisalignment(a: int, i: nat)
    ensures Wrap(a + 16 * i) % 16 == Wrap(a) % 16 == a % 16
  {
    hide Wrap;
    var q := Turns(a + 16 * i);
    var p := Turns(a);
    assert Wrap(a + 16 * i) == Wrap(a) + 16 * (i + 0x100 * (p - q));
    assert Wrap(a) == a + 16 * (-0x100 * p);
  }

  /** A misaligned load never fills the last lane. */
  lemma {:induction false} LastLaneStale(w: Weave, left: int, right: int, out: int, n: nat)
    requires w.Valid()
    ensures Wrap(left) % 16 != 0 ==> w.After(left, right, out, n).v1[15] == w.v1[15]
    ensures Wrap(right) % 16 != 0 ==> w.After(left, right, out, n).v2[15] == w.v2[15]
  {
    hide Wrap;
    if n > 0 {
      LastLaneStale(w, left, right, out, n - 1);
      SameMisalignment(left, n - 1);
      SameMisalignment(right, n - 1);
    }
  }

  /** The last lane of each side of the last block. */
  lemma LastLanes(w: Weave, left: int, right: int, out: int, n: nat)
    requires w.Valid() && n > 0
    ensures w.After(left, right, out, n).mem[Wrap(out + 32 * (n - 1) + 29)] == w.After(left, right, out, n).v1[15]
    ensures w.After(left, right, out, n).mem[Wrap(out + 32 * (n - 1) + 31)] == w.After(left, right, out, n).v2[15]
  {
    hide Wrap, Lane;
    LaneIs(7, 1);
    LaneIs(7, 3);
    BackToOffset(out + 32 * (n - 1), 29, 0);
    BackToOffset(out + 32 * (n - 1), 31, 0);
    WrapUnique(29, 29, 0);
    WrapUnique(31, 31, 0);
  }

  lemma WovenFromZeros(m: Memory, left: int, right: int, out: int, len: nat, k: nat)
    requires k < SIZE && forall a :: 0 <= a < SIZE ==> m[a] == 0
    ensures WovenAt(m, left, right, out, len, k) == 0
  {
  }

  /** Zeros in memory and ones in the registers. */
  function OnesInRegisters(): (w: Weave)
    ensures w.Valid() && w.v1[15] == w.v2[15] == 1 && forall a :: 0 <= a < SIZE ==> w.mem[a] == 0
  {
    Weave(seq(SIZE, _ => 0), Vector(1), Vector(1))
  }

  /** A stale lane shows there. */
  lemma StaleShows(left: int, right: int, out: int, n: nat)
    requires n > 0 && (left % 16 != 0 || right % 16 != 0)
    ensures !AlwaysInterleaves(left, right, out, n)
  {
    hide Wrap, WovenAt, Weave.After, OnesInRegisters;
    var w := OnesInRegisters();
    LastLaneStale(w, left, right, out, n);
    LastLanes(w, left, right, out, n);
    SameMisalignment(left, 0);
    SameMisalignment(right, 0);
    var k := Wrap(out + 32 * (n - 1) + if left % 16 != 0 then 29 else 31);
    WovenFromZeros(w.mem, left, right, out, 32 * n, k);
    assert w.After(left, right, out, n).mem[k] == 1;
  }

  /** Right for all memories. */
  ghost predicate EveryMemory(left: int, right: int, out: int, n: nat) {
    forall m: Memory :: IsInterleave(m, Interleaved(m, left, right, out, n), left, right, out, 32 * n)
  }

  /** On aligned inputs the registers play no part. */
  lemma AlignedAlways(left: int, right: int, out: int, n: nat)
    requires left % 16 == 0 && right % 16 == 0
    ensures AlwaysInterleaves(left, right, out, n) <==> EveryMemory(left, right, out, n)
  {
    hide Wrap, IsInterleave, Interleaved, Weave.After;
    if EveryMemory(left, right, out, n) {
      forall w: Weave | w.Valid()
        ensures IsInterleave(w.mem, w.After(left, right, out, n).mem, left, right, out, 32 * n)
      {
        AlignedWeave(w, left, right, out, n);
      }
    }
    if AlwaysInterleaves(left, right, out, n) {
      forall m: Memory ensures IsInterleave(m, Interleaved(m, left, right, out, n), left, right, out, 32 * n) {
        var w := Weave(m, Vector(0), Vector(0));
        AlignedWeave(w, left, right, out, n);
      }
    }
  }

  lemma AlignedOffsets(left: int, right: int, out: int)
    requires left % 16 == 0 && right % 16 == 0
    ensures Offsets(Wrap(left - out), Wrap(right - out))
  {
    hide Wrap;
    var p := Turns(left - out);
    var q := Turns(right - out);
    assert Wrap(left - out) as int - Wrap(right - out) == left - right + 16 * (0x100 * (q - p));
  }

  /** Being right for all memories keeps the output away from the inputs. */
  lemma RightStaysAhead(left: int, right: int, out: int, n: nat)
    requires EveryMemory(left, right, out, n) && left % 16 == 0 && right % 16 == 0
    ensures StaysAhead(left, out, n) && StaysAhead(right, out, n)
  {
    RightTraces(left, right, out, n);
    hide Wrap, EveryMemory, Traces, Offsets, StaysClear;
    AlignedOffsets(left, right, out);
    AtMostOneLap(Wrap(left - out), Wrap(right - out), n);
    FirstLapClear(Wrap(left - out), Wrap(right - out), n);
  }

  lemma AheadIsRight(left: int, right: int, out: int, n: nat)
    requires StaysAhead(left, out, n) && StaysAhead(right, out, n)
    ensures EveryMemory(left, right, out, n)
  {
    hide IsInterleave, Interleaved, Wrap, StaysAhead;
    forall m: Memory ensures IsInterleave(m, Interleaved(m, left, right, out, n), left, right, out, 32 * n) {
      InterleaveIsRight(m, left, right, out, n, n);
    }
  }

  lemma NoPass(left: int, right: int, out: int)
    ensures AlwaysInterleaves(left, right, out, 0)
  {
  }

  /**
    Exactly when the interleave is right.  For all counts and addresses, the loop leaves the old
    left and right samples in turn in the output and changes nothing else, for all memory and
    register contents, if and only if it makes no pass, or both inputs are on 16-byte boundaries
    and the growing output never reaches either of them.
   */
  lemma InterleaveIsRightIff(left: int, right: int, out: int, n: nat)
    ensures AlwaysInterleaves(left, right, out, n)
       <==> n == 0 || (left % 16 == 0 && right % 16 == 0 && StaysAhead(left, out, n) && StaysAhead(right, out, n))
  {
    hide *;
    if n == 0 {
      NoPass(left, right, out);
    } else if left % 16 != 0 || right % 16 != 0 {
      StaleShows(left, right, out, n);
    } else {
      AlignedAlways(left, right, out, n);
      if EveryMemory(left, right, out, n) {
        RightStaysAhead(left, right, out, n);
      }
      if StaysAhead(left, out, n) && StaysAhead(right, out, n) {
        AheadIsRight(left, right, out, n);
      }
    }
  }
}
