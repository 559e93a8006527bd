/**
  Two of the microcode's own handlers, against what the command processor needs of them:
  the buffer-setting command always leaves the fetch alone, the segment-setting command
  exactly when its segment number keeps it out of the command window.
 */
module AudioHandlers {
  import opened Bytes
  import opened Dmem
  import opened AudioFetch

  function WordBytes(w: word): (v: seq<byte>)
    ensures |v| == 4
  {
    [w / 0x100_0000, w / 0x1_0000 % 0x100, w / 0x100 % 0x100, w % 0x100]
  }

  /** The low halfword of a register. */
  function HalfBytes(w: word): (v: seq<byte>)
    ensures |v| == 2
  {
    [w / 0x100 % 0x100, w % 0x100]
  }

  /** The table word it writes. */
  function SegmentStored(d: Memory, r25: word): Memory {
    Stored(d, 0x320 + 4 * (r25 / 0x100_0000), WordBytes(r25 % 0x100_0000))
  }

  /** L_12D0: the low 24 bits of r25 become the base of segment r25 >> 24. */
  function SetSegment(m: Machine): Machine {
    var r2 := 4 * (m.r25 / 0x100_0000);
    var r3 := m.r25 % 0x100_0000;
    m.(r2 := r2, r3 := r3, r4 := r2, dmem := SegmentStored(m.dmem, m.r25))
  }

  function Segment(w1: word): nat { w1 / 0x100_0000 }

  /** The words of the table that lie before the window, and those whose place is after it. */
  predicate MissesWindow(segment: nat) { segment < 24 || segment >= 104 }

  lemma StoredAfter(m: Memory, a: nat, v: seq<byte>, lo: nat, hi: nat)
    requires lo <= hi <= a && a + |v| <= SIZE
    ensures Stored(m, a, v)[lo..hi] == m[lo..hi]
  {
    forall k | lo <= k < hi ensures Stored(m, a, v)[k] == m[k] {
      WrapUnique(k - a, k - a + SIZE, -1);
    }
  }

  lemma StoreMissesWindow(d: Memory, segment: nat, v: seq<byte>)
    requires MissesWindow(segment) && segment < 256 && |v| == 4
    ensures Window(Stored(d, 0x320 + 4 * segment, v)) == Window(d)
  {
    if segment < 24 {
      StoredElsewhere(d, 0x320 + 4 * segment, v, WINDOW, WINDOW + WINDOW_SIZE);
    } else {
      StoredAfter(d, 0x320 + 4 * segment, v, WINDOW, WINDOW + WINDOW_SIZE);
    }
  }

  lemma StoreHitsWindow(segment: nat, v: seq<byte>)
    requires !MissesWindow(segment) && |v| == 4
    ensures exists d: Memory :: Window(Stored(d, 0x320 + 4 * segment, v)) != Window(d)
  {
    var a := 0x320 + 4 * segment;
    var d: Memory := seq(SIZE, k => if k == a && v[0] == 0 then 1 else 0);
    WrapZero(a, a);
    assert Stored(d, a, v)[a] == v[0] != d[a];
    assert Window(Stored(d, a, v))[a - WINDOW] != Window(d)[a - WINDOW];
  }

  lemma SegmentInTable(r25: word)
    ensures Segment(r25) < 256
  {
  }

  /** For all memory contents the window survives the command, if and only if the segment number misses it. */
  lemma SegmentMissesWindowIff(r25: word)
    ensures (forall d: Memory :: Window(SegmentStored(d, r25)) == Window(d)) <==> MissesWindow(Segment(r25))
  {
    hide Stored, WordBytes, Window, MissesWindow;
    SegmentInTable(r25);
    var v := WordBytes(r25 % 0x100_0000);
    if MissesWindow(Segment(r25)) {
      forall d: Memory ensures Window(SegmentStored(d, r25)) == Window(d) {
        StoreMissesWindow(d, Segment(r25), v);
      }
    } else {
      StoreHitsWindow(Segment(r25), v);
      var d: Memory :| Window(Stored(d, 0x320 + 4 * Segment(r25), v)) != Window(d);
      assert SegmentStored(d, r25) == Stored(d, 0x320 + 4 * Segment(r25), v);
    }
  }

  lemma SetSegmentKeepsRest(m: Machine, ptr: nat, list: seq<byte>)
    requires HoldsList(m.rdram, ptr, list) && Window(SegmentStored(m.dmem, m.r25)) == Window(m.dmem)
    ensures KeepsFetch(m, SetSegment(m), ptr, list)
  {
    hide SegmentStored, Window;
  }

  /** A list whose commands set only such segments is run by the command processor as it stands. */
  lemma SetSegmentLeavesFetchAlone(ptr: nat, list: seq<byte>)
    requires list != [] && |list| % 8 == 0
    requires forall j: nat :: 8 * j + 8 <= |list| ==> MissesWindow(Segment(Command(list, j).1))
    ensures LeavesFetchAlone(SetSegment, Anything(), ptr, list)
  {
    hide SegmentStored, SetSegment, Window, Segment, MissesWindow, Command, KeepsFetch, HoldsList;
    forall m: Machine, j: nat | j < Parts(|list|, 8) && Entered(m, ptr, list, j)
      ensures KeepsFetch(m, SetSegment(m), ptr, list)
    {
      assert 8 * j + 8 <= |list|;
      assert MissesWindow(Segment(Command(list, j).1));
      SegmentMissesWindowIff(m.r25);
      SetSegmentKeepsRest(m, ptr, list);
    }
  }

  /** L_12EC: three halfwords of buffer addresses at r24, in one of two places. */
  function SetBuffers(m: Machine): Machine {
    var r1 := Add32(m.r26, 0x5C0);
    var r2 := Add32(m.r25 / 0x1_0000, 0x5C0);
    var r3 := Add32(m.r25, 0x5C0);
    var aux := m.r26 / 0x1_0000 / 8 % 2 == 1;
    var dmem :=
      if aux then
        Stored(Stored(Stored(m.dmem, m.r24 + 0xE, HalfBytes(r3)), m.r24 + 0xA, HalfBytes(r1)), m.r24 + 0xC, HalfBytes(r2))
      else
        Stored(Stored(Stored(m.dmem, m.r24, HalfBytes(r1)), m.r24 + 0x2, HalfBytes(r2)), m.r24 + 0x4, HalfBytes(m.r25));
    m.(r1 := r1, r2 := r2, r3 := r3, r4 := if aux then 8 else 0, dmem := dmem)
  }

  lemma HalfMissesWindow(d: Memory, a: nat, v: seq<byte>)
    requires a + 2 <= WINDOW && |v| == 2
    ensures Window(Stored(d, a, v)) == Window(d)
  {
    StoredElsewhere(d, a, v, WINDOW, WINDOW + WINDOW_SIZE);
  }

  lemma SetBuffersKeepsFetch(m: Machine, ptr: nat, list: seq<byte>)
    requires m.r24 == 0x360 && HoldsList(m.rdram, ptr, list)
    ensures KeepsFetch(m, SetBuffers(m), ptr, list)
  {
    hide Stored, HalfBytes, Window, HoldsList;
    var r1, r2, r3 := Add32(m.r26, 0x5C0), Add32(m.r25 / 0x1_0000, 0x5C0), Add32(m.r25, 0x5C0);
    if m.r26 / 0x1_0000 / 8 % 2 == 1 {
      var d1 := Stored(m.dmem, m.r24 + 0xE, HalfBytes(r3));
      var d2 := Stored(d1, m.r24 + 0xA, HalfBytes(r1));
      HalfMissesWindow(m.dmem, m.r24 + 0xE, HalfBytes(r3));
      HalfMissesWindow(d1, m.r24 + 0xA, HalfBytes(r1));
      HalfMissesWindow(d2, m.r24 + 0xC, HalfBytes(r2));
    } else {
      var d1 := Stored(m.dmem, m.r24, HalfBytes(r1));
      var d2 := Stored(d1, m.r24 + 0x2, HalfBytes(r2));
      HalfMissesWindow(m.dmem, m.r24, HalfBytes(r1));
      HalfMissesWindow(d1, m.r24 + 0x2, HalfBytes(r2));
      HalfMissesWindow(d2, m.r24 + 0x4, HalfBytes(m.r25));
    }
  }

  /** The buffer-setting command leaves the fetch alone in every list. */
  lemma SetBuffersLeavesFetchAlone(ptr: nat, list: seq<byte>)
    ensures LeavesFetchAlone(SetBuffers, Anything(), ptr, list)
  {
    hide SetBuffers, KeepsFetch, Command;
    forall m: Machine, j: nat | j < Parts(|list|, 8) && Entered(m, ptr, list, j)
      ensures KeepsFetch(m, SetBuffers(m), ptr, list)
    {
      SetBuffersKeepsFetch(m, ptr, list);
    }
  }
}
