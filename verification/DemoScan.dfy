/**
  The demo-flag search: a labeller that tells the title screen from a demo by the display-list
  rate, in front of a filter that keeps the words which separate the two.
 */
module DemoScan {
  import opened Bytes
  import opened RdramWords

  // ----- The labeller -----

  datatype Label = Unknown | Idle | Busy

  /** Nanoseconds. */
  const WINDOW := 500_000_000
  const SETTLE := 3_000_000_000

  /** Below ten lists a second is the title screen, above forty a demo, between them neither. */
  function Observe(lists: int, ms: nat): Label {
    if lists * 1000 < 10 * ms then Idle else if lists * 1000 > 40 * ms then Busy else Unknown
  }

  datatype Labeller = Labeller(windowStart: int, windowBase: int, state: Label, since: int, sampled: bool)

  /** One call of the poll: when, and how many lists have been submitted by then. */
  datatype Poll = Poll(now: int, lists: int, ram: Ram)

  function Seen(l: Labeller, p: Poll): Label {
    if p.now - l.windowStart < WINDOW then Unknown
    else Observe(p.lists - l.windowBase, (p.now - l.windowStart) / 1_000_000)
  }

  /** Whether this poll samples memory. */
  predicate Samples(l: Labeller, p: Poll) {
    Seen(l, p) != Unknown && Seen(l, p) == l.state && !l.sampled && p.now - l.since >= SETTLE
  }

  predicate Relabels(l: Labeller, p: Poll) {
    Seen(l, p) != Unknown && Seen(l, p) != l.state
  }

  function Next(l: Labeller, p: Poll): Labeller {
    if p.now - l.windowStart < WINDOW then l else
    var moved := l.(windowStart := p.now, windowBase := p.lists);
    if Relabels(l, p) then moved.(state := Seen(l, p), since := p.now, sampled := false)
    else moved.(sampled := l.sampled || Samples(l, p))
  }

  function Fresh(now: int): Labeller { Labeller(now, 0, Unknown, now, false) }

  function RunPolls(start: int, polls: seq<Poll>): Labeller {
    if polls == [] then Fresh(start) else Next(RunPolls(start, polls[..|polls| - 1]), polls[|polls| - 1])
  }

  predicate SamplesAt(start: int, polls: seq<Poll>, k: nat)
    requires k < |polls|
  {
    Samples(RunPolls(start, polls[..k]), polls[k])
  }

  predicate RelabelsAt(start: int, polls: seq<Poll>, k: nat)
    requires k < |polls|
  {
    Relabels(RunPolls(start, polls[..k]), polls[k])
  }

  /** Poll `c` opened the label period that is still open after all of `polls`. */
  ghost predicate OpenedAt(start: int, polls: seq<Poll>, c: nat) {
    c < |polls| && RelabelsAt(start, polls, c)
    && forall m :: c < m < |polls| ==> !RelabelsAt(start, polls, m)
  }

  lemma EarlierPoll(start: int, polls: seq<Poll>, n: nat, k: nat)
    requires k < n <= |polls|
    ensures polls[..n][k] == polls[k] && polls[..n][..k] == polls[..k]
    ensures SamplesAt(start, polls, k) == SamplesAt(start, polls[..n], k)
    ensures RelabelsAt(start, polls, k) == RelabelsAt(start, polls[..n], k)
  {
    assert polls[..n][..k] == polls[..k];
  }

  ghost predicate SampledSince(start: int, polls: seq<Poll>, c: nat) {
    exists m :: c < m < |polls| && SamplesAt(start, polls, m)
  }

  ghost predicate NeverRelabels(start: int, polls: seq<Poll>) {
    forall m :: 0 <= m < |polls| ==> !RelabelsAt(start, polls, m)
  }

  /** The state is what the open period, if there is one, was opened with, and says whether it has been sampled. */
  ghost predicate RemembersPeriod(l: Labeller, start: int, polls: seq<Poll>, c: nat) {
    if l.state == Unknown then !l.sampled && NeverRelabels(start, polls)
    else
      && OpenedAt(start, polls, c) && l.since == polls[c].now
      && l.state == Seen(RunPolls(start, polls[..c]), polls[c])
      && (l.sampled <==> SampledSince(start, polls, c))
  }

  /** What a poll does to the label and what is remembered of its period. */
  lemma NextPeriod(l: Labeller, p: Poll)
    ensures Next(l, p).state == if Seen(l, p) != Unknown then Seen(l, p) else l.state
    ensures Relabels(l, p) ==> Next(l, p).state == Seen(l, p) != Unknown && Next(l, p).since == p.now && !Next(l, p).sampled
    ensures !Relabels(l, p) ==>
              Next(l, p).state == l.state && Next(l, p).since == l.since && Next(l, p).sampled == (l.sampled || Samples(l, p))
    ensures Samples(l, p) ==> !Relabels(l, p) && l.state != Unknown
  {
    hide Observe;
  }

  lemma LastPoll(start: int, polls: seq<Poll>)
    requires polls != []
    ensures var n := |polls| - 1;
            var before := RunPolls(start, polls[..n]);
            && RunPolls(start, polls) == Next(before, polls[n])
            && RelabelsAt(start, polls, n) == Relabels(before, polls[n]) && SamplesAt(start, polls, n) == Samples(before, polls[n])
  {
  }

  lemma PeriodOpens(start: int, polls: seq<Poll>)
    requires polls != [] && RelabelsAt(start, polls, |polls| - 1)
    ensures RemembersPeriod(RunPolls(start, polls), start, polls, |polls| - 1)
  {
    var n := |polls| - 1;
    LastPoll(start, polls);
    NextPeriod(RunPolls(start, polls[..n]), polls[n]);
    hide RunPolls, RelabelsAt, SamplesAt, Seen, Next, Relabels, Samples;
  }

  lemma SampledGoesOn(start: int, polls: seq<Poll>, c: nat)
    requires polls != [] && c < |polls| - 1
    ensures var n := |polls| - 1;
            SampledSince(start, polls, c) <==> SampledSince(start, polls[..n], c) || SamplesAt(start, polls, n)
  {
    var n := |polls| - 1;
    hide SamplesAt, RelabelsAt;
    forall m | c < m < n ensures SamplesAt(start, polls, m) == SamplesAt(start, polls[..n], m) {
      EarlierPoll(start, polls, n, m);
    }
  }

  lemma OpenedGoesOn(start: int, polls: seq<Poll>, c: nat)
    requires polls != [] && !RelabelsAt(start, polls, |polls| - 1)
    ensures OpenedAt(start, polls[..|polls| - 1], c) ==> OpenedAt(start, polls, c)
    ensures NeverRelabels(start, polls[..|polls| - 1]) ==> NeverRelabels(start, polls)
  {
    var n := |polls| - 1;
    hide SamplesAt, RelabelsAt;
    forall m | 0 <= m < n ensures RelabelsAt(start, polls, m) == RelabelsAt(start, polls[..n], m) {
      EarlierPoll(start, polls, n, m);
    }
  }

  lemma PeriodGoesOn(start: int, polls: seq<Poll>, c: nat)
    requires polls != [] && !RelabelsAt(start, polls, |polls| - 1)
    requires RemembersPeriod(RunPolls(start, polls[..|polls| - 1]), start, polls[..|polls| - 1], c)
    ensures RemembersPeriod(RunPolls(start, polls), start, polls, c)
  {
    var n := |polls| - 1;
    OpenedGoesOn(start, polls, c);
    LastPoll(start, polls);
    NextPeriod(RunPolls(start, polls[..n]), polls[n]);
    if OpenedAt(start, polls[..n], c) {
      SampledGoesOn(start, polls, c);
      EarlierPoll(start, polls, n, c);
    }
    hide RunPolls, RelabelsAt, SamplesAt, Seen, Next, Relabels, Samples, OpenedAt, SampledSince, NeverRelabels;
  }

  /** The labeller remembers its open period: which label, since when, and whether it was sampled. */
  lemma {:induction false} PeriodRemembered(start: int, polls: seq<Poll>) returns (c: nat)
    ensures RemembersPeriod(RunPolls(start, polls), start, polls, c)
  {
    c := 0;
    if polls != [] {
      var n := |polls| - 1;
      c := PeriodRemembered(start, polls[..n]);
      hide RemembersPeriod, RelabelsAt, RunPolls;
      if RelabelsAt(start, polls, n) {
        c := n;
        PeriodOpens(start, polls);
      } else {
        PeriodGoesOn(start, polls, c);
      }
    }
  }

  /**
    Exactly when a poll samples: its window shows the label of the open period, that was opened at
    least three seconds before, and no sample has been taken in it yet.
   */
  lemma SampleIsSettledIff(start: int, polls: seq<Poll>, k: nat)
    requires k < |polls|
    ensures SamplesAt(start, polls, k)
       <==> exists c: nat :: c < k && OpenedAt(start, polls[..k], c)
                             && polls[k].now - polls[c].now >= 3_000_000_000
                             && Seen(RunPolls(start, polls[..k]), polls[k]) == Seen(RunPolls(start, polls[..c]), polls[c])
                             && forall m :: c < m < k ==> !SamplesAt(start, polls, m)
  {
    var past := polls[..k];
    var l := RunPolls(start, past);
    var c := PeriodRemembered(start, past);
    forall m: nat | m < k
      ensures SamplesAt(start, polls, m) == SamplesAt(start, past, m) && past[..m] == polls[..m] && past[m] == polls[m]
    {
      EarlierPoll(start, polls, k, m);
    }
    assert forall d: nat :: OpenedAt(start, past, d) ==> l.state != Unknown && d == c;
    assert forall d: nat :: OpenedAt(start, past, d) ==> Seen(RunPolls(start, past[..d]), past[d]) != Unknown;
    assert SamplesAt(start, polls, k) == Samples(l, polls[k]);
    hide RunPolls, SamplesAt, Seen, OpenedAt;
  }

  /** The state is the last label that was seen at all. */
  lemma {:induction false} StateIsLastSeen(start: int, polls: seq<Poll>, m: nat)
    requires m < |polls| && Seen(RunPolls(start, polls[..m]), polls[m]) != Unknown
    requires forall j :: m < j < |polls| ==> Seen(RunPolls(start, polls[..j]), polls[j]) == Unknown
    ensures RunPolls(start, polls).state == Seen(RunPolls(start, polls[..m]), polls[m])
  {
    var n := |polls| - 1;
    LastPoll(start, polls);
    NextPeriod(RunPolls(start, polls[..n]), polls[n]);
    hide RunPolls, RelabelsAt, SamplesAt, Seen, Next, Relabels, Samples;
    if m < n {
      forall j | m <= j < n ensures polls[..n][..j] == polls[..j] {
      }
      StateIsLastSeen(start, polls[..n], m);
    }
  }

  lemma Ratio(x: real, m: real, c: real)
    requires m > 0.0
    ensures x / m < c <==> x < c * m
    ensures x / m > c <==> x > c * m
  {
    var r := x / m;
    assert r * m == x;
    if r < c {
      assert r * m < c * m;
    } else if r > c {
      assert r * m > c * m;
    }
  }

  /** The labels are those of the rate in lists a second: below ten idle, above forty busy. */
  lemma ObserveIs(lists: int, ms: nat)
    requires ms > 0
    ensures Observe(lists, ms) == Idle <==> lists as real * 1000.0 / ms as real < 10.0
    ensures Observe(lists, ms) == Busy <==> lists as real * 1000.0 / ms as real > 40.0
  {
    Ratio(lists as real * 1000.0, ms as real, 10.0);
    Ratio(lists as real * 1000.0, ms as real, 40.0);
    assert (lists * 1000) as real == lists as real * 1000.0;
    assert (10 * ms) as real == 10.0 * ms as real && (40 * ms) as real == 40.0 * ms as real;
  }

  /** What a poll sees: nothing within half a second of its window's start, and then the label of the rate. */
  lemma SeenIs(l: Labeller, p: Poll)
    ensures var rate := (p.lists - l.windowBase) as real * 1000.0;
            var ms := ((p.now - l.windowStart) / 1_000_000) as real;
            && (Seen(l, p) == Idle <==> p.now - l.windowStart >= 500_000_000 && rate / ms < 10.0)
            && (Seen(l, p) == Busy <==> p.now - l.windowStart >= 500_000_000 && rate / ms > 40.0)
  {
    if p.now - l.windowStart >= 500_000_000 {
      ObserveIs(p.lists - l.windowBase, (p.now - l.windowStart) / 1_000_000);
    }
    hide Observe;
  }

  /** When poll `q` came and how many lists there were by then; before the first, the start and none. */
  function Mark(start: int, polls: seq<Poll>, q: int): (int, int)
    requires -1 <= q < |polls|
  {
    if q < 0 then (start, 0) else (polls[q].now, polls[q].lists)
  }

  /** The labeller's window was opened by a poll, or at the start, and none since has been half a second after it. */
  lemma {:induction false} WindowRemembered(start: int, polls: seq<Poll>) returns (q: int)
    ensures -1 <= q < |polls|
    ensures var l := RunPolls(start, polls); (l.windowStart, l.windowBase) == Mark(start, polls, q)
    ensures forall m :: q < m < |polls| ==> polls[m].now - Mark(start, polls, q).0 < 500_000_000
  {
    q := -1;
    if polls != [] {
      var n := |polls| - 1;
      q := WindowRemembered(start, polls[..n]);
      if polls[n].now - RunPolls(start, polls[..n]).windowStart >= WINDOW {
        q := n;
      }
    }
  }

  /** What a sampling poll saw in its window. */
  lemma SampledRate(l: Labeller, p: Poll)
    requires Samples(l, p)
    ensures p.now - l.windowStart >= 500_000_000
    ensures var rate := (p.lists - l.windowBase) as real * 1000.0 / ((p.now - l.windowStart) / 1_000_000) as real;
            && (l.state == Idle ==> rate < 10.0)
            && (l.state != Idle ==> rate > 40.0)
  {
    ObserveIs(p.lists - l.windowBase, (p.now - l.windowStart) / 1_000_000);
    hide Observe;
  }

  /**
    What a sample is measured by: the lists submitted since an earlier poll, or the start, at least
    half a second before, no poll in between having been as late as that.  An idle sample saw fewer
    than ten a second, any other more than forty.
   */
  lemma SampleIsMeasured(start: int, polls: seq<Poll>, k: nat) returns (q: int)
    requires k < |polls| && SamplesAt(start, polls, k)
    ensures -1 <= q < k
    ensures var (since, base) := if q < 0 then (start, 0) else (polls[q].now, polls[q].lists);
            && polls[k].now - since >= 500_000_000
            && (forall m :: q < m < k ==> polls[m].now - since < 500_000_000)
            && var rate := (polls[k].lists - base) as real * 1000.0 / ((polls[k].now - since) / 1_000_000) as real;
            && (RunPolls(start, polls[..k]).state == Idle ==> rate < 10.0)
            && (RunPolls(start, polls[..k]).state != Idle ==> rate > 40.0)
  {
    var past := polls[..k];
    q := WindowRemembered(start, past);
    var (since, base) := if q < 0 then (start, 0) else (polls[q].now, polls[q].lists);
    assert Mark(start, past, q) == (since, base);
    SampledRate(RunPolls(start, past), polls[k]);
    hide RunPolls, Samples, Mark;
    forall m | q < m < k ensures polls[m].now - since < 500_000_000 {
      assert past[m] == polls[m];
    }
  }

  // ----- The filter -----

  datatype Sample = Sample(tag: Label, ram: Ram)

  datatype Candidate = Candidate(offset: nat, idleValue: word, busyValue: word)

  /** The samples a run of polls takes, in order. */
  function Taken(start: int, polls: seq<Poll>): seq<Sample> {
    if polls == [] then [] else
    var past, p := polls[..|polls| - 1], polls[|polls| - 1];
    var l := RunPolls(start, past);
    if Samples(l, p) then Taken(start, past) + [Sample(l.state, p.ram)] else Taken(start, past)
  }

  /** Sample `s` is what poll `k` takes. */
  predicate TakenAt(start: int, polls: seq<Poll>, k: nat, s: Sample) {
    k < |polls| && SamplesAt(start, polls, k) && s == Sample(RunPolls(start, polls[..k]).state, polls[k].ram)
  }

  lemma StillTaken(start: int, polls: seq<Poll>, n: nat, k: nat, s: Sample)
    requires n <= |polls| && TakenAt(start, polls[..n], k, s)
    ensures TakenAt(start, polls, k, s)
  {
    EarlierPoll(start, polls, n, k);
  }

  /** The samples are what the polls at these places take, and no other poll samples. */
  ghost predicate TakesAll(start: int, polls: seq<Poll>, at: seq<nat>, samples: seq<Sample>) {
    && |at| == |samples| && Increasing(at)
    && (forall n :: 0 <= n < |at| ==> TakenAt(start, polls, at[n], samples[n]))
    && forall k :: 0 <= k < |polls| && SamplesAt(start, polls, k) ==> k in at
  }

  lemma OnePollMore(start: int, polls: seq<Poll>, at: seq<nat>, samples: seq<Sample>)
    requires polls != []
    requires TakesAll(start, polls[..|polls| - 1], at, samples)
    ensures var n := |polls| - 1;
            if SamplesAt(start, polls, n)
            then TakesAll(start, polls, at + [n], samples + [Sample(RunPolls(start, polls[..n]).state, polls[n].ram)])
            else TakesAll(start, polls, at, samples)
  {
    var n := |polls| - 1;
    assert forall m :: 0 <= m < |at| ==> at[m] < n by {
      assert forall m :: 0 <= m < |at| ==> TakenAt(start, polls[..n], at[m], samples[m]);
    }
    hide RunPolls, SamplesAt;
    forall m | 0 <= m < |at| ensures TakenAt(start, polls, at[m], samples[m]) {
      hide TakenAt;
      StillTaken(start, polls, n, at[m], samples[m]);
    }
    forall k | 0 <= k < n && SamplesAt(start, polls, k) ensures k in at {
      EarlierPoll(start, polls, n, k);
    }
    if SamplesAt(start, polls, n) {
      var more := at + [n];
      assert more[|at|] == n && forall k :: k in at ==> k in more;
    }
  }

  /** The samples are those of the polls that sample, in order, each with the label of the moment. */
  lemma {:induction false} TakenInOrder(start: int, polls: seq<Poll>) returns (at: seq<nat>)
    ensures |at| == |Taken(start, polls)| && Increasing(at)
    ensures forall n :: 0 <= n < |at| ==> TakenAt(start, polls, at[n], Taken(start, polls)[n])
    ensures forall k :: 0 <= k < |polls| && SamplesAt(start, polls, k) ==> k in at
  {
    at := [];
    if polls != [] {
      var n := |polls| - 1;
      at := TakenInOrder(start, polls[..n]);
      hide RunPolls, Samples, TakenAt;
      OnePollMore(start, polls, at, Taken(start, polls[..n]));
      at := if SamplesAt(start, polls, n) then at + [n] else at;
    }
  }

  function Values(s: Sample, o: nat): word
    requires IsWordOffset(o)
  {
    WordAt(s.ram, o)
  }

  /** Sample `i` is the first idle one. */
  predicate FirstIdle(samples: seq<Sample>, i: nat) {
    i < |samples| && samples[i].tag == Idle && forall k :: 0 <= k < i ==> samples[k].tag != Idle
  }

  /** Sample `j` is the first busy one after the first idle one. */
  predicate FirstBusy(samples: seq<Sample>, i: nat, j: nat) {
    FirstIdle(samples, i) && i < j < |samples| && samples[j].tag != Idle
    && forall k :: i < k < j ==> samples[k].tag == Idle
  }

  /** `o` separated the first idle from the first busy sample, and has held its label's value ever since. */
  predicate Separates(samples: seq<Sample>, i: nat, j: nat, o: nat)
    requires i < |samples| && j < |samples| && IsWordOffset(o)
  {
    && Values(samples[i], o) != Values(samples[j], o)
    && forall k :: j < k < |samples| ==>
                     Values(samples[k], o) == Values(samples[if samples[k].tag == Idle then i else j], o)
  }

  ghost predicate Right(samples: seq<Sample>, i: nat, j: nat, c: Candidate)
    requires i < |samples| && j < |samples|
  {
    && IsWordOffset(c.offset) && Separates(samples, i, j, c.offset)
    && c.idleValue == Values(samples[i], c.offset) && c.busyValue == Values(samples[j], c.offset)
  }

  ghost predicate Listed(candidates: seq<Candidate>, o: nat) {
    exists k :: 0 <= k < |candidates| && candidates[k].offset == o
  }

  ghost predicate Exact(samples: seq<Sample>, i: nat, j: nat, candidates: seq<Candidate>)
    requires i < |samples| && j < |samples|
  {
    && (forall a, b :: 0 <= a < b < |candidates| ==> candidates[a].offset < candidates[b].offset)
    && (forall k :: 0 <= k < |candidates| ==> Right(samples, i, j, candidates[k]))
    && forall o :: IsWordOffset(o) && Separates(samples, i, j, o) ==> Listed(candidates, o)
  }

  method Snapshot(ram: Ram) returns (words: seq<word>)
    ensures |words| == WORDS && forall i :: 0 <= i < WORDS ==> words[i] == WordAt(ram, 4 * i)
  {
    hide WordAt;
    words := [];
    for i := 0 to WORDS
      invariant |words| == i && forall k :: 0 <= k < i ==> words[k] == WordAt(ram, 4 * k)
    {
      words := words + [WordAt(ram, i * 4)];
    }
  }

  lemma ListedStays(was: seq<Candidate>, candidates: seq<Candidate>, o: nat)
    requires Listed(was, o) && was <= candidates
    ensures Listed(candidates, o)
  {
    var k :| 0 <= k < |was| && was[k].offset == o;
    assert candidates[k] == was[k];
  }

  /** Everything that moved between the idle snapshot and the first demo sample. */
  method BuildCandidates(ram: Ram, snapshot: seq<word>, ghost past: seq<Sample>, ghost i: nat)
    returns (candidates: seq<Candidate>)
    requires i < |past| && |snapshot| == WORDS
    requires forall k :: 0 <= k < WORDS ==> snapshot[k] == WordAt(past[i].ram, 4 * k)
    ensures Exact(past + [Sample(Busy, ram)], i, |past|, candidates)
  {
    hide WordAt;
    ghost var samples := past + [Sample(Busy, ram)];
    candidates := [];
    for w := 0 to WORDS
      invariant forall a, b :: 0 <= a < b < |candidates| ==> candidates[a].offset < candidates[b].offset
      invariant forall k :: 0 <= k < |candidates| ==> candidates[k].offset < 4 * w && Right(samples, i, |past|, candidates[k])
      invariant forall o: nat :: o < 4 * w && IsWordOffset(o) && Separates(samples, i, |past|, o) ==> Listed(candidates, o)
    {
      var now := WordAt(ram, w * 4);
      ghost var was := candidates;
      if now != snapshot[w] {
        candidates := candidates + [Candidate(w * 4, snapshot[w], now)];
        assert candidates[|was|].offset == 4 * w;
      }
      forall o: nat | o < 4 * (w + 1) && IsWordOffset(o) && Separates(samples, i, |past|, o)
        ensures Listed(candidates, o)
      {
        if o < 4 * w {
          ListedStays(was, candidates, o);
        } else {
          assert o == 4 * w;
        }
      }
    }
  }

  lemma SeparatesBefore(past: seq<Sample>, s: Sample, i: nat, j: nat, o: nat)
    requires i < |past| && j < |past| && IsWordOffset(o)
    ensures Separates(past + [s], i, j, o)
       <==> Separates(past, i, j, o) && Values(s, o) == Values(past[if s.tag == Idle then i else j], o)
  {
    hide WordAt;
    var samples := past + [s];
    assert samples[|past|] == s && forall k :: 0 <= k < |past| ==> samples[k] == past[k];
  }

  /** A candidate stays right exactly when the new sample shows its label's value. */
  lemma OneMoreSample(past: seq<Sample>, s: Sample, i: nat, j: nat, c: Candidate)
    requires i < |past| && j < |past| && Right(past, i, j, c)
    ensures Right(past + [s], i, j, c) <==> WordAt(s.ram, c.offset) == (if s.tag == Idle then c.idleValue else c.busyValue)
    ensures Right(past + [s], i, j, c) <==> Separates(past + [s], i, j, c.offset)
  {
    SeparatesBefore(past, s, i, j, c.offset);
  }

  /** From the second demo sample on, candidates can only be dropped. */
  method Filter(s: Sample, candidates: seq<Candidate>, ghost past: seq<Sample>, ghost i: nat, ghost j: nat)
    returns (kept: seq<Candidate>)
    requires i < |past| && j < |past| && Exact(past, i, j, candidates)
    ensures Exact(past + [s], i, j, kept)
  {
    hide WordAt;
    ghost var samples := past + [s];
    kept := [];
    for n := 0 to |candidates|
      invariant forall a, b :: 0 <= a < b < |kept| ==> kept[a].offset < kept[b].offset
      invariant forall k :: 0 <= k < |kept| && n < |candidates| ==> kept[k].offset < candidates[n].offset
      invariant forall k :: 0 <= k < |kept| ==> Right(samples, i, j, kept[k])
      invariant forall m :: 0 <= m < n && Separates(samples, i, j, candidates[m].offset) ==> Listed(kept, candidates[m].offset)
    {
      var c := candidates[n];
      ghost var was := kept;
      OneMoreSample(past, s, i, j, c);
      var now := WordAt(s.ram, c.offset);
      if now == (if s.tag == Idle then c.idleValue else c.busyValue) {
        kept := kept + [c];
        assert kept[|was|] == c;
      }
      forall m | 0 <= m <= n && Separates(samples, i, j, candidates[m].offset) ensures Listed(kept, candidates[m].offset) {
        if m < n {
          ListedStays(was, kept, candidates[m].offset);
        }
      }
    }
    forall o: nat | IsWordOffset(o) && Separates(samples, i, j, o) ensures Listed(kept, o) {
      SeparatesBefore(past, s, i, j, o);
      var m :| 0 <= m < |candidates| && candidates[m].offset == o;
    }
  }

  // ----- The scan -----

  function CountIdle(samples: seq<Sample>): nat {
    if samples == [] then 0 else CountIdle(samples[..|samples| - 1]) + if samples[|samples| - 1].tag == Idle then 1 else 0
  }

  /** No idle sample yet. */
  ghost predicate Waiting(samples: seq<Sample>) {
    forall k :: 0 <= k < |samples| ==> samples[k].tag != Idle
  }

  /** An idle sample, and none but idle ones since; the snapshot is of the first. */
  ghost predicate Armed(samples: seq<Sample>, i: nat, snapshot: seq<word>) {
    && FirstIdle(samples, i) && (forall k :: i < k < |samples| ==> samples[k].tag == Idle)
    && |snapshot| == WORDS && forall w :: 0 <= w < WORDS ==> snapshot[w] == WordAt(samples[i].ram, 4 * w)
  }

  /** A busy sample after the first idle one, and the counts of what has been filtered since. */
  ghost predicate Scanning(samples: seq<Sample>, i: nat, j: nat, idleSamples: nat, busySamples: nat) {
    && FirstBusy(samples, i, j)
    && idleSamples == 1 + CountIdle(samples[j + 1..])
    && idleSamples + busySamples == 2 + (|samples| - j - 1)
  }

  /** The idle samples among some, by place. */
  ghost function IdlePlaces(samples: seq<Sample>): set<nat> {
    set k: nat | k < |samples| && samples[k].tag == Idle
  }

  lemma PlacesSnoc(samples: seq<Sample>)
    requires samples != []
    ensures var n := |samples| - 1;
            IdlePlaces(samples) == IdlePlaces(samples[..n]) + if samples[n].tag == Idle then {n} else {}
  {
  }

  lemma {:induction false} CountIdleIs(samples: seq<Sample>)
    ensures CountIdle(samples) == |IdlePlaces(samples)|
  {
    if samples == [] {
      assert IdlePlaces(samples) == {};
    } else {
      var n := |samples| - 1;
      CountIdleIs(samples[..n]);
      PlacesSnoc(samples);
      assert n !in IdlePlaces(samples[..n]);
      hide IdlePlaces;
    }
  }

  lemma SeparatesByBytes(samples: seq<Sample>, i: nat, j: nat, o: nat)
    requires i < |samples| && j < |samples| && IsWordOffset(o)
    ensures Separates(samples, i, j, o)
       <==> && samples[i].ram[o..o + 4] != samples[j].ram[o..o + 4]
            && forall k :: j < k < |samples| ==>
                             samples[k].ram[o..o + 4] == samples[if samples[k].tag == Idle then i else j].ram[o..o + 4]
  {
    hide WordAt;
    SameWordIff(samples[i].ram, samples[j].ram, o);
    forall k | j < k < |samples|
      ensures Values(samples[k], o) == Values(samples[if samples[k].tag == Idle then i else j], o)
         <==> samples[k].ram[o..o + 4] == samples[if samples[k].tag == Idle then i else j].ram[o..o + 4]
    {
      SameWordIff(samples[k].ram, samples[if samples[k].tag == Idle then i else j].ram, o);
    }
  }

  /**
    What the candidates are, byte by byte: between the first idle sample and the first busy one after
    it their four bytes changed, and in every sample since they have been those of the one or of the
    other, as its label says.
   */
  lemma CandidatesByBytes(samples: seq<Sample>, i: nat, j: nat, idleSamples: nat, busySamples: nat,
                          candidates: seq<Candidate>, o: nat)
    requires Scanning(samples, i, j, idleSamples, busySamples) && Exact(samples, i, j, candidates)
    ensures i < j < |samples| && samples[i].tag == Idle && samples[j].tag != Idle
    ensures forall k :: 0 <= k < j && k != i ==> (samples[k].tag == Idle <==> k > i)
    ensures (exists k :: 0 <= k < |candidates| && candidates[k].offset == o)
       <==> && o % 4 == 0 && o + 4 <= 0x80_0000
            && samples[i].ram[o..o + 4] != samples[j].ram[o..o + 4]
            && forall k :: j < k < |samples| ==>
                             samples[k].ram[o..o + 4] == samples[if samples[k].tag == Idle then i else j].ram[o..o + 4]
    ensures idleSamples == 1 + |IdlePlaces(samples[j + 1..])|
    ensures idleSamples + busySamples == 1 + |samples| - j
  {
    CountIdleIs(samples[j + 1..]);
    hide WordAt, Separates;
    if IsWordOffset(o) {
      SeparatesByBytes(samples, i, j, o);
    }
  }

  lemma BecomesArmed(past: seq<Sample>, s: Sample, snapshot: seq<word>)
    requires Waiting(past) && s.tag == Idle && |snapshot| == WORDS
    requires forall w :: 0 <= w < WORDS ==> snapshot[w] == WordAt(s.ram, 4 * w)
    ensures Armed(past + [s], |past|, snapshot)
  {
    hide WordAt;
    assert (past + [s])[|past|] == s;
  }

  lemma StaysArmed(past: seq<Sample>, s: Sample, i: nat, snapshot: seq<word>)
    requires Armed(past, i, snapshot) && s.tag == Idle
    ensures Armed(past + [s], i, snapshot)
  {
    hide WordAt;
    assert (past + [s])[i] == past[i];
  }

  lemma BecomesScanning(past: seq<Sample>, s: Sample, i: nat, snapshot: seq<word>)
    requires Armed(past, i, snapshot) && s.tag != Idle
    ensures Scanning(past + [s], i, |past|, 1, 1)
  {
    hide WordAt;
    var all := past + [s];
    assert all[|past|] == s && forall k :: 0 <= k < |past| ==> all[k] == past[k];
    assert all[|past| + 1..] == [];
  }

  lemma StaysScanning(past: seq<Sample>, s: Sample, i: nat, j: nat, idleSamples: nat, busySamples: nat)
    requires Scanning(past, i, j, idleSamples, busySamples)
    ensures Scanning(past + [s], i, j, idleSamples + (if s.tag == Idle then 1 else 0), busySamples + (if s.tag == Idle then 0 else 1))
  {
    var all := past + [s];
    assert forall k :: 0 <= k < |past| ==> all[k] == past[k];
    assert all[j + 1..] == past[j + 1..] + [s];
    assert all[j + 1..][..|past| - j - 1] == past[j + 1..];
  }

  lemma StaysWaiting(past: seq<Sample>, s: Sample)
    requires Waiting(past) && s.tag != Idle
    ensures Waiting(past + [s])
  {
  }

  lemma ArmedSnapshot(samples: seq<Sample>, i: nat, snapshot: seq<word>)
    requires Armed(samples, i, snapshot)
    ensures i < |samples| && |snapshot| == WORDS
    ensures forall w :: 0 <= w < WORDS ==> snapshot[w] == WordAt(samples[i].ram, 4 * w)
  {
    hide WordAt;
  }

  lemma ScanningRange(samples: seq<Sample>, i: nat, j: nat, idleSamples: nat, busySamples: nat)
    requires Scanning(samples, i, j, idleSamples, busySamples)
    ensures i < |samples| && j < |samples|
  {
  }

  lemma TakenOneMore(start: int, polls: seq<Poll>, p: Poll)
    ensures var l := RunPolls(start, polls);
            && RunPolls(start, polls + [p]) == Next(l, p)
            && Taken(start, polls + [p]) == if Samples(l, p) then Taken(start, polls) + [Sample(l.state, p.ram)] else Taken(start, polls)
  {
    assert (polls + [p])[..|polls|] == polls;
  }

  /** A poll that samples has a label, and does not change it. */
  lemma SampledState(l: Labeller, p: Poll)
    requires Samples(l, p)
    ensures Next(l, p).state == l.state && l.state != Unknown
  {
  }

  class Scan {
    /** The labeller's static state. */
    var labeller: Labeller
    /** The search's globals. */
    var idleSnapshot: seq<word>
    var candidates: seq<Candidate>
    var haveIdleSnapshot: bool
    var haveCandidates: bool
    var idleSamples: nat
    var busySamples: nat

    /** When the scan began, and every poll since. */
    ghost var start: int
    ghost var polls: seq<Poll>
    /** The sample the snapshot was taken from, and the one the candidates were built from. */
    ghost var i: nat
    ghost var j: nat

    /** The search is where these samples leave it. */
    ghost predicate Remembers(samples: seq<Sample>)
      reads this`idleSnapshot, this`candidates, this`haveIdleSnapshot, this`haveCandidates
      reads this`idleSamples, this`busySamples, this`i, this`j
    {
      && (!haveIdleSnapshot ==> !haveCandidates && Waiting(samples))
      && (haveIdleSnapshot && !haveCandidates ==> Armed(samples, i, idleSnapshot) && idleSamples == 1)
      && (haveCandidates ==>
            haveIdleSnapshot && Scanning(samples, i, j, idleSamples, busySamples) && Exact(samples, i, j, candidates))
    }

    /**
      The labeller is where the polls put it.  Before the first idle sample nothing is recorded;
      before the first busy one after it, the idle snapshot is; from then on the candidates are
      exactly the words that tell the two apart in every sample.
     */
    ghost predicate Valid()
      reads this
    {
      labeller == RunPolls(start, polls) && Remembers(Taken(start, polls))
    }

    constructor (now: int)
      ensures Valid() && start == now && polls == []
    {
      labeller := Fresh(now);
      idleSnapshot, candidates := [], [];
      haveIdleSnapshot, haveCandidates := false, false;
      idleSamples, busySamples := 0, 0;
      start, polls, i, j := now, [], 0, 0;
    }

    /** The labelling half of a poll: whether to sample, and as what. */
    method LabelPoll(p: Poll) returns (sample: bool)
      modifies this`labeller
      ensures labeller == Next(old(labeller), p)
      ensures sample == Samples(old(labeller), p)
    {
      var elapsed := p.now - labeller.windowStart;
      if elapsed < WINDOW {
        return false;
      }
      var ms := elapsed / 1_000_000;
      var lists := p.lists - labeller.windowBase;
      labeller := labeller.(windowStart := p.now, windowBase := p.lists);
      var observed := Observe(lists, ms);
      if observed == Unknown {
        return false;
      }
      if observed != labeller.state {
        labeller := labeller.(state := observed, since := p.now, sampled := false);
        return false;
      }
      if labeller.sampled || p.now - labeller.since < SETTLE {
        return false;
      }
      labeller := labeller.(sampled := true);
      sample := true;
    }

    /** What a sample is used for: the idle snapshot, then the candidates, then filtering them. */
    method Record(s: Sample, ghost past: seq<Sample>)
      requires Remembers(past) && s.tag != Unknown
      modifies this`idleSnapshot, this`candidates, this`haveIdleSnapshot, this`haveCandidates
      modifies this`idleSamples, this`busySamples, this`i, this`j
      ensures Remembers(past + [s])
    {
      hide Exact, WordAt, Waiting, Armed, Scanning;
      if !haveIdleSnapshot && !haveCandidates {
        if s.tag == Idle {
          idleSnapshot := Snapshot(s.ram);
          haveIdleSnapshot := true;
          idleSamples := 1;
          i := |past|;
          BecomesArmed(past, s, idleSnapshot);
        } else {
          StaysWaiting(past, s);
        }
        return;
      }
      if !haveCandidates {
        if s.tag == Busy {
          ArmedSnapshot(past, i, idleSnapshot);
          candidates := BuildCandidates(s.ram, idleSnapshot, past, i);
          BecomesScanning(past, s, i, idleSnapshot);
          haveCandidates := true;
          busySamples := 1;
          idleSnapshot := [];
          j := |past|;
        } else {
          StaysArmed(past, s, i, idleSnapshot);
        }
        return;
      }
      ScanningRange(past, i, j, idleSamples, busySamples);
      StaysScanning(past, s, i, j, idleSamples, busySamples);
      candidates := Filter(s, candidates, past, i, j);
      if s.tag == Idle {
        idleSamples := idleSamples + 1;
      } else {
        busySamples := busySamples + 1;
      }
    }

    /** One poll of the scan, once per frame. */
    method DemoScanPoll(p: Poll)
      requires Valid()
      modifies this
      ensures Valid() && start == old(start) && polls == old(polls) + [p]
    {
      hide Remembers, Next, Samples, RunPolls, Taken;
      ghost var past := Taken(start, polls);
      TakenOneMore(start, polls, p);
      var sample := LabelPoll(p);
      polls := polls + [p];
      if !sample {
        return;
      }
      SampledState(old(labeller), p);
      Record(Sample(labeller.state, p.ram), past);
    }
  }
}
