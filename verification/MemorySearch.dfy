/**
  The memory search driven by key presses: remember every word, then keep only what moved the
  requested way since the last look.  A search holds exactly the words whose whole history of
  samples went the way the presses said.
 */
module MemorySearch {
  import opened Bytes
  import opened RdramWords

  datatype Direction = Down | Same | Up

  /** Signed, so that a value that has gone below zero still counts as having gone down. */
  predicate Went(direction: Direction, before: word, after: word) {
    match direction
    case Down => Signed(after) < Signed(before)
    case Same => Signed(after) == Signed(before)
    case Up => Signed(after) > Signed(before)
  }

  /** One narrowing: the memory it looked at and the direction asked for. */
  datatype Press = Press(ram: Ram, direction: Direction)

  /** The memory last looked at. */
  function Latest(start: Ram, presses: seq<Press>): Ram {
    if presses == [] then start else presses[|presses| - 1].ram
  }

  /** Word `o` moved in the requested direction at every press. */
  predicate Survives(start: Ram, presses: seq<Press>, o: nat)
    requires IsWordOffset(o)
  {
    forall i :: 0 <= i < |presses| ==>
                  Went(presses[i].direction, WordAt(Latest(start, presses[..i]), o), WordAt(presses[i].ram, o))
  }

  lemma SurvivesOneMore(start: Ram, presses: seq<Press>, p: Press, o: nat)
    requires IsWordOffset(o)
    ensures Survives(start, presses + [p], o)
       <==> Survives(start, presses, o) && Went(p.direction, WordAt(Latest(start, presses), o), WordAt(p.ram, o))
  {
    var all := presses + [p];
    assert all[..|presses|] == presses;
    assert forall i :: 0 <= i < |presses| ==> all[..i] == presses[..i] && all[i] == presses[i];
    if Survives(start, all, o) {
      forall i | 0 <= i < |presses|
        ensures Went(presses[i].direction, WordAt(Latest(start, presses[..i]), o), WordAt(presses[i].ram, o))
      {
        assert Went(all[i].direction, WordAt(Latest(start, all[..i]), o), WordAt(all[i].ram, o));
      }
      assert Went(all[|presses|].direction, WordAt(Latest(start, all[..|presses|]), o), WordAt(all[|presses|].ram, o));
    }
  }

  /** Four bytes as the host reads them: the first the least significant, the last with the sign. */
  function HostValue(m: Ram, o: nat): int
    requires o + 4 <= RAM_SIZE
  {
    m[o] as int + 256 * (m[o + 1] as int) + 65536 * (m[o + 2] as int)
    + 16777216 * (if m[o + 3] < 128 then m[o + 3] as int else m[o + 3] as int - 256)
  }

  lemma HostValueIs(m: Ram, o: nat)
    requires o + 4 <= RAM_SIZE
    ensures Signed(WordAt(m, o)) == HostValue(m, o)
  {
  }

  /** The memory the press before looked at. */
  lemma LatestIs(start: Ram, presses: seq<Press>, i: nat)
    requires i < |presses|
    ensures Latest(start, presses[..i]) == if i == 0 then start else presses[i - 1].ram
  {
  }

  /**
    A word survives if and only if at every press its value, read as a signed little-endian number,
    was below, equal to or above the one at the press before, as that press asked.
   */
  lemma SurvivesByValue(start: Ram, presses: seq<Press>, o: nat)
    requires IsWordOffset(o)
    ensures Survives(start, presses, o)
       <==> forall i :: 0 <= i < |presses| ==>
                          var before, after := if i == 0 then HostValue(start, o) else HostValue(presses[i - 1].ram, o),
                                               HostValue(presses[i].ram, o);
                          && (presses[i].direction == Down ==> after < before)
                          && (presses[i].direction == Same ==> after == before)
                          && (presses[i].direction == Up ==> after > before)
  {
    hide HostValue, WordAt, Signed;
    forall i | 0 <= i < |presses|
      ensures Went(presses[i].direction, WordAt(Latest(start, presses[..i]), o), WordAt(presses[i].ram, o))
         <==> var before, after := if i == 0 then HostValue(start, o) else HostValue(presses[i - 1].ram, o),
                                   HostValue(presses[i].ram, o);
              && (presses[i].direction == Down ==> after < before)
              && (presses[i].direction == Same ==> after == before)
              && (presses[i].direction == Up ==> after > before)
    {
      LatestIs(start, presses, i);
      HostValueIs(if i == 0 then start else presses[i - 1].ram, o);
      HostValueIs(presses[i].ram, o);
    }
  }

  predicate Moved(candidates: seq<nat>, snapshot: seq<word>, ram: Ram, direction: Direction, k: nat)
    requires |snapshot| == |candidates| && k < |candidates|
  {
    IsWordOffset(candidates[k]) && Went(direction, snapshot[k], WordAt(ram, candidates[k]))
  }

  /** `o` is one of the first `n` candidates, and moved. */
  ghost predicate Keeps(candidates: seq<nat>, snapshot: seq<word>, ram: Ram, direction: Direction, n: nat, o: nat)
    requires |snapshot| == |candidates| && n <= |candidates|
  {
    exists k :: 0 <= k < n && candidates[k] == o && Moved(candidates, snapshot, ram, direction, k)
  }

  /** The candidates that went the requested way since the snapshot, in order, with their values now. */
  method KeepMoved(candidates: seq<nat>, snapshot: seq<word>, ram: Ram, direction: Direction)
    returns (offsets: seq<nat>, values: seq<word>)
    requires |snapshot| == |candidates| && Increasing(candidates)
    requires forall i :: 0 <= i < |candidates| ==> IsWordOffset(candidates[i])
    ensures |values| == |offsets| && Increasing(offsets)
    ensures forall o :: o in offsets <==> Keeps(candidates, snapshot, ram, direction, |candidates|, o)
    ensures forall i :: 0 <= i < |offsets| ==> IsWordOffset(offsets[i]) && values[i] == WordAt(ram, offsets[i])
  {
    hide WordAt, Went;
    offsets, values := [], [];
    for i := 0 to |candidates|
      invariant |values| == |offsets| && Increasing(offsets)
      invariant forall k :: 0 <= k < |offsets| && i < |candidates| ==> offsets[k] < candidates[i]
      invariant forall o :: o in offsets <==> Keeps(candidates, snapshot, ram, direction, i, o)
      invariant forall k :: 0 <= k < |offsets| ==> IsWordOffset(offsets[k]) && values[k] == WordAt(ram, offsets[k])
    {
      var now := WordAt(ram, candidates[i]);
      if Went(direction, snapshot[i], now) {
        offsets := offsets + [candidates[i]];
        values := values + [now];
      }
    }
  }

  /**
    The search holds, in increasing order, exactly the word offsets that survived every press,
    each with its latest value.
   */
  ghost predicate Holds(start: Ram, presses: seq<Press>, candidates: seq<nat>, snapshot: seq<word>) {
    && |snapshot| == |candidates| && Increasing(candidates)
    && (forall o :: o in candidates <==> IsWordOffset(o) && Survives(start, presses, o))
    && forall i :: 0 <= i < |candidates| ==>
                     IsWordOffset(candidates[i]) && snapshot[i] == WordAt(Latest(start, presses), candidates[i])
  }

  /** Keeping what moved keeps exactly what survives one more press. */
  lemma NarrowKeepsSurvivors(start: Ram, presses: seq<Press>, p: Press, candidates: seq<nat>, snapshot: seq<word>,
                             offsets: seq<nat>)
    requires Holds(start, presses, candidates, snapshot)
    requires forall o :: o in offsets <==> Keeps(candidates, snapshot, p.ram, p.direction, |candidates|, o)
    ensures forall o :: o in offsets <==> IsWordOffset(o) && Survives(start, presses + [p], o)
  {
    hide WordAt, Went, Survives;
    forall o ensures o in offsets <==> IsWordOffset(o) && Survives(start, presses + [p], o) {
      if IsWordOffset(o) {
        SurvivesOneMore(start, presses, p, o);
      }
      if o in candidates {
        var k :| 0 <= k < |candidates| && candidates[k] == o;
        assert Moved(candidates, snapshot, p.ram, p.direction, k)
          <==> Went(p.direction, WordAt(Latest(start, presses), o), WordAt(p.ram, o));
      }
    }
  }

  class Search {
    /** Offsets still in the running, and beside each the value it had when last looked at. */
    var candidates: seq<nat>
    var snapshot: seq<word>
    var started: bool
    var narrowings: nat

    /** The memory at the last start, and the presses since. */
    ghost var origin: Ram
    ghost var presses: seq<Press>

    ghost predicate Valid()
      reads this
    {
      started ==> narrowings == |presses| && Holds(origin, presses, candidates, snapshot)
    }

    constructor ()
      ensures Valid() && !started
    {
      candidates, snapshot, started, narrowings := [], [], false, 0;
      presses := [];
      origin := *;
    }

    method Start(ram: Ram)
      modifies this
      ensures Valid() && started && origin == ram && presses == []
    {
      hide WordAt;
      candidates, snapshot := [], [];
      origin, presses := ram, [];
      for i := 0 to WORDS
        invariant |candidates| == |snapshot| == i && origin == ram && presses == []
        invariant forall k :: 0 <= k < i ==> candidates[k] == 4 * k && snapshot[k] == WordAt(ram, 4 * k)
      {
        candidates := candidates + [i * 4];
        snapshot := snapshot + [WordAt(ram, i * 4)];
      }
      started := true;
      narrowings := 0;
      forall o: nat | IsWordOffset(o) ensures o in candidates {
        assert candidates[o / 4] == o;
      }
    }

    method Narrow(ram: Ram, direction: Direction)
      requires Valid()
      modifies this
      ensures Valid() && started == old(started) && origin == old(origin)
      ensures presses == if started then old(presses) + [Press(ram, direction)] else old(presses)
      ensures !started ==> candidates == old(candidates) && snapshot == old(snapshot)
    {
      hide WordAt, Went, Survives, IsWordOffset, Moved;
      if !started {
        return;
      }
      var keptOffsets, keptValues := KeepMoved(candidates, snapshot, ram, direction);
      NarrowKeepsSurvivors(origin, presses, Press(ram, direction), candidates, snapshot, keptOffsets);
      candidates, snapshot := keptOffsets, keptValues;
      narrowings := narrowings + 1;
      presses := presses + [Press(ram, direction)];
    }
  }
}
