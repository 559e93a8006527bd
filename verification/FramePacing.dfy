/**
  The frame pacer: the moment, on the video interrupt's own grid of fields, at which the
  hardware is made to report a frame as done.  Times are nanoseconds.  The schedule is a max-plus
  recurrence, and is proved to have the closed form, the spacing and the bounded lead that
  a rate cap without debts should have.
 */
module FramePacing {
  import opened Bytes
  import opened Wrappers

  // ----- Configuration -----

  /** The field count nearest to 60 / asked frames a second, kept between 1 and 60; 0 is off. */
  function FieldsFor(asked: int): nat {
    if asked <= 0 then 0 else
    var value := (60 + asked / 2) / asked;
    if value < 1 then 1 else if value > 60 then 60 else value
  }

  lemma Scale(d: int, x: int, y: int)
    requires d >= 0 && x <= y
    ensures d * x <= d * y
  {
  }

  /** A rate above one frame a field gets one field a frame. */
  lemma AtMostOne(asked: int, half: int, value: int)
    requires asked > 60 && 2 * half <= asked && value >= 0
    requires asked * value <= 60 + half
    ensures value <= 1
  {
    if value > 1 {
      Scale(asked, 2, value);
    }
  }

  function Distance(a: int, b: int): nat { if a < b then b - a else a - b }

  lemma NearestMultiple(asked: int, half: int, value: int, other: int)
    requires 0 < asked && asked - 1 <= 2 * half <= asked
    requires asked * value <= 60 + half < asked * value + asked
    ensures Distance(asked * value, 60) <= Distance(asked * other, 60)
  {
    if other < value {
      Scale(asked, other, value - 1);
      assert asked * (value - 1) == asked * value - asked;
    } else if other > value {
      Scale(asked, value + 1, other);
      assert asked * (value + 1) == asked * value + asked;
    }
  }

  lemma FieldsForIs(asked: int, value: int)
    requires 0 < asked && value == (60 + asked / 2) / asked && 1 <= value <= 60
    ensures FieldsFor(asked) == value
  {
  }

  lemma Bracketed(asked: int, half: int, value: int)
    requires 0 < asked <= 60 && asked - 1 <= 2 * half <= asked
    requires asked * value <= 60 + half < asked * value + asked
    ensures 1 <= value <= 60
  {
    if value < 1 {
      Scale(asked, value, 0);
    } else if value > 60 {
      Scale(asked, 61, value);
    }
  }

  /** Division by a positive divisor brackets the dividend. */
  lemma Quotient(a: int, d: int)
    requires a >= 0 && d > 0
    ensures d * (a / d) <= a < d * (a / d) + d && a / d >= 0
  {
  }

  /** Asking for any rate gets the whole number of fields, at least one, that comes closest to it. */
  lemma FieldsAreNearest(asked: int, other: nat)
    requires 0 < asked && 0 < other
    ensures 1 <= FieldsFor(asked) <= 60
    ensures Distance(asked * FieldsFor(asked), 60) <= Distance(asked * other, 60)
  {
    var value, half := (60 + asked / 2) / asked, asked / 2;
    Quotient(60 + half, asked);
    if asked <= 60 {
      Bracketed(asked, half, value);
      FieldsForIs(asked, value);
      hide FieldsFor;
      NearestMultiple(asked, half, value, other);
    } else {
      AtMostOne(asked, half, value);
      Scale(asked, 1, other);
    }
  }

  /** No cap is set exactly when the rate asked for is not positive. */
  lemma CapIsOffIff(asked: int)
    ensures FieldsFor(asked) == 0 <==> asked <= 0
  {
  }

  /** The fields in a second at a speed, in 32 bits. */
  function FieldRate(speed: word): word { 60 * (if speed == 0 then 1 else speed) % 0x1_0000_0000 }

  /** A field of the video interrupt, in whole nanoseconds. */
  function FieldLength(speed: word): nat
    requires FieldRate(speed) != 0
  {
    Quotient(1_000_000_000, FieldRate(speed));
    1_000_000_000 / FieldRate(speed)
  }

  /** The grid the pacer works on: where it starts, one field, fields a frame, and the margin before a boundary. */
  datatype Grid = Grid(origin: int, field: nat, fields: nat, margin: nat) {
    predicate Capped() { fields > 0 && field > 0 }

    function FieldAt(now: int): nat
      requires field > 0
    {
      if now <= origin then 0 else (now - origin) / field
    }

    function Boundary(target: int): int { origin + field * target - margin }
  }

  /** The next target: `fields` after the last, or the current field when that has passed already. */
  function NextTarget(last: int, fields: nat, nowField: nat): int {
    var due := if last < 0 then nowField else last + fields;
    if due < nowField then nowField else due
  }

  /** From its origin on, the grid's field `n` is the time from n fields to n + 1. */
  lemma FieldAtIs(g: Grid, now: int, n: nat)
    requires g.field > 0 && now >= g.origin
    ensures g.FieldAt(now) == n <==> g.origin + g.field * n <= now < g.origin + g.field * (n + 1)
  {
    var q := (now - g.origin) / g.field;
    Quotient(now - g.origin, g.field);
    assert g.field * (n + 1) == g.field * n + g.field;
    if n < q {
      Scale(g.field, n + 1, q);
    } else if n > q {
      Scale(g.field, q + 1, n);
      assert g.field * (q + 1) == g.field * q + g.field;
    }
  }

  /** A field is the longest whole number of nanoseconds of which a second holds as many as the rate. */
  lemma FieldLengthIs(speed: word)
    requires FieldRate(speed) != 0
    ensures FieldRate(speed) == (if speed == 0 then 60 else 60 * speed) % 0x1_0000_0000
    ensures FieldRate(speed) * FieldLength(speed) <= 1_000_000_000 < FieldRate(speed) * (FieldLength(speed) + 1)
  {
    Quotient(1_000_000_000, FieldRate(speed));
  }

  /** The margin before it, a boundary is the first moment of its field. */
  lemma BoundaryStartsField(g: Grid, target: nat)
    requires g.field > 0
    ensures g.FieldAt(g.Boundary(target) + g.margin) == target
    ensures target > 0 ==> g.FieldAt(g.Boundary(target) + g.margin - 1) == target - 1
  {
    var start := g.origin + g.field * target;
    Scale(g.field, 0, target);
    assert g.field * (target + 1) == g.field * target + g.field;
    FieldAtIs(g, start, target);
    if target > 0 {
      Scale(g.field, 1, target);
      assert g.field * (target - 1) == g.field * target - g.field;
      FieldAtIs(g, start - 1, target - 1);
    }
  }

  // ----- The pacer -----

  /** The target left by a sequence of observed fields. */
  function TargetAfter(fields: nat, seen: seq<nat>): int {
    if seen == [] then -1 else NextTarget(TargetAfter(fields, seen[..|seen| - 1]), fields, seen[|seen| - 1])
  }

  lemma TargetSnoc(fields: nat, seen: seq<nat>, nowField: nat)
    ensures TargetAfter(fields, seen + [nowField]) == NextTarget(TargetAfter(fields, seen), fields, nowField)
  {
    assert (seen + [nowField])[..|seen|] == seen;
  }

  /** The candidate the i-th observation contributes after all of `seen`. */
  function Candidate(fields: nat, seen: seq<nat>, i: nat): int
    requires i < |seen|
  {
    seen[i] + (|seen| - 1 - i) * fields
  }

  lemma CandidateMovesOn(fields: nat, seen: seq<nat>, i: nat)
    requires i < |seen| - 1
    ensures Candidate(fields, seen, i) == Candidate(fields, seen[..|seen| - 1], i) + fields
  {
    var k := |seen| - 2 - i;
    assert (k + 1) * fields == k * fields + fields;
  }

  /**
    The closed form: after n paced frames that saw fields now_1 .. now_n, the target is the
    largest now_i + (n - i) * fields.
   */
  lemma {:induction false} TargetIsMaxPlus(fields: nat, seen: seq<nat>)
    requires seen != []
    ensures TargetAfter(fields, seen) >= 0
    ensures exists i :: 0 <= i < |seen| && TargetAfter(fields, seen) == Candidate(fields, seen, i)
    ensures forall i :: 0 <= i < |seen| ==> Candidate(fields, seen, i) <= TargetAfter(fields, seen)
  {
    var n := |seen| - 1;
    var past := seen[..n];
    assert Candidate(fields, seen, n) == seen[n];
    hide Candidate;
    if past != [] {
      TargetIsMaxPlus(fields, past);
      forall i | 0 <= i < n ensures Candidate(fields, seen, i) == Candidate(fields, past, i) + fields {
        CandidateMovesOn(fields, seen, i);
      }
      var j :| 0 <= j < n && TargetAfter(fields, past) == Candidate(fields, past, j);
      assert Candidate(fields, seen, j) == TargetAfter(fields, past) + fields;
    }
  }

  class Pacer {
    /** Both fixed for the life of the process. */
    const fields: nat
    const margin: nat
    /** The last target, or -1 before the first paced frame. */
    var lastField: int

    /** The field each paced call observed. */
    ghost var seen: seq<nat>

    /** The state is what the observations so far leave, whatever the speed and the gate did in between. */
    ghost predicate Valid()
      reads this
    {
      lastField == TargetAfter(fields, seen)
    }

    constructor (fields: nat, margin: nat)
      ensures Valid() && this.fields == fields && this.margin == margin && seen == []
    {
      this.fields, this.margin := fields, margin;
      lastField := -1;
      seen := [];
    }

    /** The schedule moves on by `fields`, or to the current field when that has gone by. */
    method Resync(nowField: nat) returns (target: int)
      ensures target == NextTarget(lastField, fields, nowField)
    {
      target := if lastField < 0 then nowField else lastField + fields;
      if target < nowField {
        target := nowField;
      }
    }

    /**
      A paced call's deadline, put back by the margin, is the first moment of field `lastField`.
     */
    method PaceDeadline(attract: bool, speed: word, origin: int, now: int) returns (deadline: int)
      requires Valid() && FieldRate(speed) != 0
      modifies this
      ensures Valid()
      ensures var g := Grid(origin, FieldLength(speed), fields, margin);
              if attract && g.Capped()
              then seen == old(seen) + [g.FieldAt(now)] && lastField == NextTarget(old(lastField), fields, g.FieldAt(now))
                   && deadline == g.Boundary(lastField)
              else seen == old(seen) && lastField == old(lastField) && deadline == now
      ensures var g := Grid(origin, FieldLength(speed), fields, margin);
              attract && g.Capped() ==>
                lastField >= 0 && g.FieldAt(deadline + margin) == lastField
                && (lastField > 0 ==> g.FieldAt(deadline + margin - 1) == lastField - 1)
    {
      hide TargetAfter, NextTarget;
      if !attract {
        return now;
      }
      var rate := 60 * (if speed == 0 then 1 else speed) % 0x1_0000_0000;
      var field := 1_000_000_000 / rate;
      if fields <= 0 || field <= 0 {
        return now;
      }
      ghost var g := Grid(origin, FieldLength(speed), fields, margin);
      var nowField := if now <= origin then 0 else (now - origin) / field;
      assert nowField == g.FieldAt(now);
      var target := Resync(nowField);
      lastField := target;
      deadline := origin + field * target - margin;
      TargetSnoc(fields, seen, nowField);
      seen := seen + [nowField];
      TargetIsMaxPlus(fields, seen);
      BoundaryStartsField(g, lastField);
    }
  }

  // ----- Whole runs -----

  /** One call: the gate, the field length at the speed of the moment, and the clock. */
  datatype Call = Call(attract: bool, field: nat, now: int)

  /** What is fixed for the life of the process. */
  datatype Cap = Cap(origin: int, fields: nat, margin: nat) {
    function On(field: nat): Grid { Grid(origin, field, fields, margin) }

    /** The call moves the schedule on. */
    predicate Paces(c: Call) { c.attract && On(c.field).Capped() }
  }

  /** The fields observed by the paced calls of a run. */
  function Observed(cap: Cap, calls: seq<Call>): seq<nat> {
    if calls == [] then [] else
    var past, c := Observed(cap, calls[..|calls| - 1]), calls[|calls| - 1];
    if cap.Paces(c) then past + [cap.On(c.field).FieldAt(c.now)] else past
  }

  /** The pacer's state after a run: uncapped calls leave no mark. */
  function LastField(cap: Cap, calls: seq<Call>): int {
    if calls == [] then -1 else
    var last, c := LastField(cap, calls[..|calls| - 1]), calls[|calls| - 1];
    if cap.Paces(c) then NextTarget(last, cap.fields, cap.On(c.field).FieldAt(c.now)) else last
  }

  lemma {:induction false} RunDependsOnObserved(cap: Cap, calls: seq<Call>)
    ensures LastField(cap, calls) == TargetAfter(cap.fields, Observed(cap, calls))
  {
    if calls != [] {
      RunDependsOnObserved(cap, calls[..|calls| - 1]);
      var past := Observed(cap, calls[..|calls| - 1]);
      if cap.Paces(calls[|calls| - 1]) {
        assert Observed(cap, calls)[..|past|] == past;
      }
    }
  }

  /**
    No burst, in any window: between frame i and frame j the schedule moves on by at least
    j - i whole frames, however long the game stalled before.
   */
  lemma {:induction false} NoBurst(fields: nat, seen: seq<nat>, i: nat, j: nat)
    requires 1 <= i <= j <= |seen|
    ensures TargetAfter(fields, seen[..j]) - TargetAfter(fields, seen[..i]) >= (j - i) * fields
    decreases j - i
  {
    if i < j {
      NoBurst(fields, seen, i, j - 1);
      assert seen[..j][..j - 1] == seen[..j - 1];
      TargetIsMaxPlus(fields, seen[..j - 1]);
      assert (j - i) * fields == (j - 1 - i) * fields + fields;
    }
  }

  // ----- How far ahead the schedule gets -----

  /** What the k-th call of a run returned. */
  function Returned(cap: Cap, calls: seq<Call>, k: nat): int
    requires k < |calls|
  {
    if cap.Paces(calls[k]) then cap.On(calls[k].field).Boundary(LastField(cap, calls[..k + 1])) else calls[k].now
  }

  /** Every call comes no earlier than the deadline the one before it returned. */
  ghost predicate WaitsForDeadlines(cap: Cap, calls: seq<Call>) {
    forall k :: 0 < k < |calls| ==> calls[k].now >= Returned(cap, calls, k - 1)
  }

  /** The field length of the last paced call. */
  function LastLength(cap: Cap, calls: seq<Call>): Option<nat> {
    if calls == [] then None
    else if cap.Paces(calls[|calls| - 1]) then Some(calls[|calls| - 1].field)
    else LastLength(cap, calls[..|calls| - 1])
  }

  function MarginFields(g: Grid): nat
    requires g.field > 0
  {
    (g.margin + g.field - 1) / g.field
  }

  /** Waiting for a boundary less the margin brings the clock to within the margin of that field. */
  lemma FieldReached(g: Grid, now: int, target: int)
    requires g.Capped() && now >= g.Boundary(target)
    ensures target <= g.FieldAt(now) + MarginFields(g)
  {
    var f, c, q := g.field, MarginFields(g), g.FieldAt(now);
    Quotient(g.margin + f - 1, f);
    assert f * c >= g.margin;
    if now > g.origin {
      Quotient(now - g.origin, f);
    }
    assert now - g.origin < f * q + f;
    assert f * target < f * q + f + f * c;
    assert f * (q + c + 1) == f * q + f * c + f;
    if target > q + c {
      Scale(f, q + c + 1, target);
    }
  }

  lemma PrefixWaits(cap: Cap, calls: seq<Call>, n: nat)
    requires n <= |calls| && WaitsForDeadlines(cap, calls)
    ensures WaitsForDeadlines(cap, calls[..n])
  {
    forall k | 0 < k < n ensures calls[..n][k].now >= Returned(cap, calls[..n], k - 1) {
      assert calls[..n][..k] == calls[..k];
      assert calls[k].now >= Returned(cap, calls, k - 1);
    }
  }

  /** The last target's boundary, at the field length it was set at, is never later than what the last call returned. */
  lemma {:induction false} BoundaryWasReturned(cap: Cap, calls: seq<Call>)
    requires calls != [] && WaitsForDeadlines(cap, calls)
    ensures var length := LastLength(cap, calls);
            match length
            case None => LastField(cap, calls) == -1
            case Some(f) => LastField(cap, calls) >= 0 && cap.On(f).Boundary(LastField(cap, calls)) <= Returned(cap, calls, |calls| - 1)
  {
    var n := |calls| - 1;
    assert calls[..n + 1] == calls;
    if n > 0 {
      PrefixWaits(cap, calls, n);
      BoundaryWasReturned(cap, calls[..n]);
      assert calls[..n][..n] == calls[..n];
      assert Returned(cap, calls[..n], n - 1) == Returned(cap, calls, n - 1);
      assert calls[n].now >= Returned(cap, calls, n - 1);
    }
  }

  /** The run ends with a paced call. */
  predicate EndsPaced(cap: Cap, calls: seq<Call>) {
    calls != [] && cap.Paces(calls[|calls| - 1])
  }

  /**
    The target of the last call is not before the current field, nor further ahead of it than one
    frame and the margin.
   */
  predicate LeadIsShort(cap: Cap, calls: seq<Call>)
    requires EndsPaced(cap, calls)
  {
    var c := calls[|calls| - 1];
    var g := cap.On(c.field);
    g.FieldAt(c.now) <= LastField(cap, calls) <= g.FieldAt(c.now) + cap.fields + MarginFields(g)
  }

  /**
    Bounded lead.  In a run that waits for its deadlines, the lead is short at every paced call
    whose field is no longer than that of the paced call before it.
   */
  lemma LeadIsBounded(cap: Cap, calls: seq<Call>)
    requires EndsPaced(cap, calls) && WaitsForDeadlines(cap, calls)
    requires var before := LastLength(cap, calls[..|calls| - 1]);
             before.Some? ==> calls[|calls| - 1].field <= before.value
    ensures LeadIsShort(cap, calls)
  {
    var n := |calls| - 1;
    var g := cap.On(calls[n].field);
    if n > 0 {
      PrefixWaits(cap, calls, n);
      BoundaryWasReturned(cap, calls[..n]);
      assert calls[..n][..n] == calls[..n];
      assert Returned(cap, calls[..n], n - 1) == Returned(cap, calls, n - 1);
      var last := LastField(cap, calls[..n]);
      if last >= 0 {
        var f := LastLength(cap, calls[..n]).value;
        Scale(last, g.field, f);
        FieldReached(g, calls[n].now, last);
      }
    }
  }

  /** How far ahead of the current field the last call's target is. */
  function Lead(cap: Cap, calls: seq<Call>): int
    requires EndsPaced(cap, calls)
  {
    var c := calls[|calls| - 1];
    LastField(cap, calls) - cap.On(c.field).FieldAt(c.now)
  }

  /** When the k-th of such calls is due. */
  function Due(cap: Cap, field: nat, k: nat): int { cap.origin + field * (cap.fields * k) - cap.margin }

  /** `k` calls after one at the origin, each as early as the deadline before it and the clock allow. */
  function Prompt(cap: Cap, field: nat, k: nat): seq<Call> {
    if k == 0 then [Call(true, field, cap.origin)] else
    var due := Due(cap, field, k - 1);
    Prompt(cap, field, k - 1) + [Call(true, field, if due < cap.origin then cap.origin else due)]
  }

  ghost predicate ClockRuns(calls: seq<Call>) {
    forall k :: 0 < k < |calls| ==> calls[k - 1].now <= calls[k].now
  }

  /** The clock of a prompt call has not passed the last target. */
  lemma PromptNow(g: Grid, k: nat)
    requires g.Capped() && k > 0
    ensures var due := g.origin + g.field * (g.fields * (k - 1)) - g.margin;
            g.FieldAt(if due < g.origin then g.origin else due) <= g.fields * (k - 1)
  {
    var n := g.fields * (k - 1);
    Scale(g.fields, 0, k - 1);
    Scale(g.field, 0, n);
    var due := g.origin + g.field * n - g.margin;
    var now := if due < g.origin then g.origin else due;
    Quotient(now - g.origin, g.field);
    var q := (now - g.origin) / g.field;
    assert g.field * (n + 1) == g.field * n + g.field;
    if q > n {
      Scale(g.field, n + 1, q);
    }
  }

  lemma ReturnedAlready(cap: Cap, calls: seq<Call>, c: Call, k: nat)
    requires k < |calls|
    ensures Returned(cap, calls + [c], k) == Returned(cap, calls, k)
  {
    hide LastField;
    assert (calls + [c])[..k + 1] == calls[..k + 1];
  }

  lemma WaitsOneMore(cap: Cap, calls: seq<Call>, c: Call)
    requires calls != [] && WaitsForDeadlines(cap, calls) && ClockRuns(calls)
    requires c.now >= Returned(cap, calls, |calls| - 1) && c.now >= calls[|calls| - 1].now
    ensures WaitsForDeadlines(cap, calls + [c]) && ClockRuns(calls + [c])
  {
    var all := calls + [c];
    hide Returned;
    forall k | 0 < k < |all| ensures all[k].now >= Returned(cap, all, k - 1) {
      ReturnedAlready(cap, calls, c, k - 1);
    }
  }

  lemma {:induction false} PromptShape(cap: Cap, field: nat, k: nat)
    ensures var calls := Prompt(cap, field, k);
            |calls| == k + 1 && calls[k].attract && calls[k].field == field
    ensures k > 0 ==> Prompt(cap, field, k)[..k] == Prompt(cap, field, k - 1)
  {
    if k > 0 {
      PromptShape(cap, field, k - 1);
    }
  }

  lemma LastFieldSnoc(cap: Cap, calls: seq<Call>)
    requires calls != [] && cap.Paces(calls[|calls| - 1])
    ensures var n := |calls| - 1;
            LastField(cap, calls) == NextTarget(LastField(cap, calls[..n]), cap.fields, cap.On(calls[n].field).FieldAt(calls[n].now))
  {
    hide NextTarget, Grid.FieldAt;
  }

  /** A schedule that is not behind moves on by exactly a frame. */
  lemma OnTime(last: nat, fields: nat, nowField: nat)
    requires nowField <= last
    ensures NextTarget(last, fields, nowField) == last + fields
  {
  }

  lemma PromptPaced(cap: Cap, field: nat, k: nat)
    requires cap.fields > 0 && field > 0
    ensures EndsPaced(cap, Prompt(cap, field, k))
  {
    PromptShape(cap, field, k);
    hide Prompt;
  }

  lemma {:induction false} PromptTarget(cap: Cap, field: nat, k: nat)
    requires cap.fields > 0 && field > 0
    ensures LastField(cap, Prompt(cap, field, k)) == cap.fields * k
  {
    var calls, g := Prompt(cap, field, k), cap.On(field);
    PromptShape(cap, field, k);
    PromptPaced(cap, field, k);
    if k == 0 {
      assert calls[..0] == [];
    } else {
      PromptTarget(cap, field, k - 1);
      PromptNow(g, k);
      assert cap.fields * k == cap.fields * (k - 1) + cap.fields;
      var nowField := g.FieldAt(calls[k].now);
      assert nowField <= cap.fields * (k - 1);
      hide *;
      LastFieldSnoc(cap, calls);
      OnTime(cap.fields * (k - 1), cap.fields, nowField);
    }
  }

  /** The k-th prompt call is due when the one before it returned. */
  lemma PromptReturned(cap: Cap, field: nat, k: nat)
    requires cap.fields > 0 && field > 0
    ensures |Prompt(cap, field, k)| == k + 1
    ensures Returned(cap, Prompt(cap, field, k), k) == Due(cap, field, k)
  {
    var calls := Prompt(cap, field, k);
    PromptShape(cap, field, k);
    PromptPaced(cap, field, k);
    PromptTarget(cap, field, k);
    assert calls[..k + 1] == calls;
    hide Prompt, LastField;
  }

  /** A prompt call comes no later than its own deadline, or at the origin. */
  lemma PromptClock(cap: Cap, field: nat, k: nat)
    requires cap.fields > 0 && field > 0
    ensures |Prompt(cap, field, k)| == k + 1
    ensures var due := Due(cap, field, k);
            Prompt(cap, field, k)[k].now <= if due < cap.origin then cap.origin else due
  {
    PromptShape(cap, field, k);
    if k > 0 {
      Scale(cap.fields, k - 1, k);
      Scale(field, cap.fields * (k - 1), cap.fields * k);
    }
  }

  lemma PromptStep(cap: Cap, field: nat, k: nat)
    requires k > 0
    ensures var due := Due(cap, field, k - 1);
            Prompt(cap, field, k) == Prompt(cap, field, k - 1) + [Call(true, field, if due < cap.origin then cap.origin else due)]
  {
  }

  lemma PromptStarts(cap: Cap, field: nat)
    ensures WaitsForDeadlines(cap, Prompt(cap, field, 0)) && ClockRuns(Prompt(cap, field, 0))
  {
  }

  lemma {:induction false} PromptWaits(cap: Cap, field: nat, k: nat)
    requires cap.fields > 0 && field > 0
    ensures WaitsForDeadlines(cap, Prompt(cap, field, k)) && ClockRuns(Prompt(cap, field, k))
  {
    hide *;
    if k == 0 {
      PromptStarts(cap, field);
    } else {
      PromptWaits(cap, field, k - 1);
      PromptReturned(cap, field, k - 1);
      PromptClock(cap, field, k - 1);
      PromptStep(cap, field, k);
      var due := Due(cap, field, k - 1);
      WaitsOneMore(cap, Prompt(cap, field, k - 1), Call(true, field, if due < cap.origin then cap.origin else due));
    }
  }

  /** The margin rounded up to fields. */
  lemma MarginFieldsIs(g: Grid, c: nat)
    requires g.field > 0 && g.field * c - g.field < g.margin <= g.field * c
    ensures MarginFields(g) == c
  {
    var f, m := g.field, MarginFields(g);
    Quotient(g.margin + f - 1, f);
    assert f * (m + 1) == f * m + f && f * (c + 1) == f * c + f;
    if m < c {
      Scale(f, m + 1, c);
    } else if m > c {
      Scale(f, c + 1, m);
    }
  }

  /** Waking the margin before a boundary, the clock is still `c` fields, the margin rounded up, before it. */
  lemma MarginBefore(g: Grid, n: nat, c: nat)
    requires g.field > 0 && g.field * c - g.field < g.margin <= g.field * c && g.margin <= g.field * n
    ensures c <= n && g.FieldAt(g.origin + g.field * n - g.margin) == n - c
  {
    var f := g.field;
    assert f * (n + 1) == f * n + f;
    if c > n {
      Scale(f, n + 1, c);
    }
    assert f * (n - c) == f * n - f * c;
    assert f * (n - c + 1) == f * n - f * c + f;
    hide Grid.FieldAt;
    FieldAtIs(g, g.origin + f * n - g.margin, n - c);
  }

  /** The run waits, and ends with a paced call at field length `f2`, the one before having been at `f1`. */
  ghost predicate Changes(cap: Cap, calls: seq<Call>, f1: nat, f2: nat) {
    && EndsPaced(cap, calls) && WaitsForDeadlines(cap, calls)
    && LastLength(cap, calls[..|calls| - 1]) == Some(f1) && calls[|calls| - 1].field == f2
  }

  lemma EnoughFields(f: nat, fields: nat, m: nat)
    requires f > 0 && fields > 0
    ensures m <= f * (fields * m)
  {
    Scale(m, 1, fields);
    Scale(fields * m, 1, f);
  }

  lemma PromptLead(cap: Cap, field: nat, k: nat, c: nat)
    requires cap.fields > 0 && field > 0 && field * c - field < cap.margin <= field * c && k == cap.margin + 1
    requires var calls := Prompt(cap, field, k);
             |calls| == k + 1 && EndsPaced(cap, calls) && LastField(cap, calls) == cap.fields * k
    ensures Lead(cap, Prompt(cap, field, k)) == cap.fields + c
  {
    var n, last := cap.fields * (k - 1), Prompt(cap, field, k)[k];
    EnoughFields(field, cap.fields, cap.margin);
    assert last == Call(true, field, cap.origin + field * n - cap.margin);
    assert cap.fields * k == n + cap.fields;
    hide LastField, Grid.FieldAt, Prompt, MarginFields;
    MarginBefore(cap.On(field), n, c);
  }

  /**
    The bound is attained: at any field length some run, waiting for its deadlines by a clock that
    never goes back, gets one frame and the margin rounded up to fields ahead.
   */
  lemma LeadIsAttained(cap: Cap, field: nat, c: nat)
    requires cap.fields > 0 && field > 0 && field * c - field < cap.margin <= field * c
    ensures exists calls :: Changes(cap, calls, field, field) && ClockRuns(calls) && Lead(cap, calls) == cap.fields + c
    ensures MarginFields(cap.On(field)) == c
  {
    var k := cap.margin + 1;
    var calls := Prompt(cap, field, k);
    PromptWaits(cap, field, k);
    PromptShape(cap, field, k);
    PromptShape(cap, field, k - 1);
    PromptPaced(cap, field, k);
    PromptPaced(cap, field, k - 1);
    PromptTarget(cap, field, k);
    PromptLead(cap, field, k, c);
    hide Prompt, LastField, WaitsForDeadlines, Lead;
    assert Changes(cap, calls, field, field);
    MarginFieldsIs(cap.On(field), c);
  }

  /**
    A run of two calls at the same moment, late enough that the field it falls in moves back by more
    than the margin.
   */
  function Slowed(cap: Cap, f1: nat, f2: nat): seq<Call>
    requires f2 > 0
  {
    var now := cap.origin + f1 * (f2 * (MarginFields(cap.On(f2)) + 1));
    [Call(true, f1, now), Call(true, f2, now)]
  }

  lemma ExactField(g: Grid, t: nat)
    requires g.field > 0
    ensures g.FieldAt(g.origin + g.field * t) == t
  {
    if t > 0 {
      Scale(g.field, 1, t);
      var q := g.field * t / g.field;
      Quotient(g.field * t, g.field);
      if q < t {
        Scale(g.field, q + 1, t);
      } else if q > t {
        Scale(g.field, t + 1, q);
      }
    }
  }

  /**
    When the field grows, the target was set on a finer grid, and its number can be any distance
    ahead on the coarser one.
   */
  lemma SlowingBreaksLead(cap: Cap, f1: nat, f2: nat)
    requires cap.fields > 0 && 0 < f1 < f2
    ensures var run := Slowed(cap, f1, f2); Changes(cap, run, f1, f2) && !LeadIsShort(cap, run)
  {
    var run, slack := Slowed(cap, f1, f2), MarginFields(cap.On(f2)) + 1;
    var t := f2 * slack;
    assert f1 * t == f2 * (f1 * slack);
    ExactField(cap.On(f1), t);
    ExactField(cap.On(f2), f1 * slack);
    Scale(slack, f1 + 1, f2);
    assert slack * (f1 + 1) == f1 * slack + slack;
    assert run[..0] == [] && run[..1] == [run[0]] && run[..2] == run;
    assert LastField(cap, run[..1]) == t;
    assert LastField(cap, run) == t + cap.fields;
  }

  /**
    Exactly when the lead stays short: for all runs that wait, it is short at a paced call after
    a paced call if and only if the field has not grown in between.
   */
  lemma LeadIsBoundedIff(cap: Cap, f1: nat, f2: nat)
    requires cap.fields > 0 && f1 > 0 && f2 > 0
    ensures (forall calls :: Changes(cap, calls, f1, f2) ==> LeadIsShort(cap, calls)) <==> f2 <= f1
  {
    if f2 <= f1 {
      forall calls | Changes(cap, calls, f1, f2) ensures LeadIsShort(cap, calls) {
        LeadIsBounded(cap, calls);
      }
    } else {
      SlowingBreaksLead(cap, f1, f2);
    }
  }
}
