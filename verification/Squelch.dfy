/** The squelch of src/receiver.c: a leaky integrator sampled every 15 samples,
    with one threshold to open and a higher one to close. */
module Squelch {
  import Filter

  const DIVIDER := 1200
  const THR_OPEN := 1500 * DIVIDER
  const THR_CLOSE := 3400 * DIVIDER
  const TICK := 15
  const SAMPLE_RATE := 48000
  /** No input takes the integrator further. */
  const SUM_MAX := 32768 * DIVIDER + 1199

  type Short = Filter.Short

  function Abs(x: Short): nat { if x > 0 then x else x * -1 }

  /** The statics of copy_buffer: sql_absval_sum, sql_pos, sql_red_step,
      sql_open_at_pos, and the global sql_open. */
  datatype State = State(sum: nat, pos: nat, red: nat, openAt: nat, open: bool)

  datatype Event = Opened(at: nat) | Closed(at: nat, over: int)

  function Start(): State { State(THR_CLOSE, 0, 0, 0, false) }

  function Leak(sum: nat, level: nat): nat { sum - sum / DIVIDER + level }

  /** What happens every fifteenth sample. */
  function Check(s: State): (State, seq<Event>) {
    if s.open && s.sum > THR_CLOSE then
      (s.(open := false), [Closed(s.pos, (s.pos - s.openAt) * 1000 / SAMPLE_RATE)])
    else if !s.open && s.sum < THR_OPEN then
      (s.(open := true, openAt := s.pos), [Opened(s.pos)])
    else (s, [])
  }

  /** One sample of the filtered signal. */
  function Next(s: State, x: Short): (State, seq<Event>) {
    var t := s.(sum := Leak(s.sum, Abs(x)), pos := s.pos + 1, red := s.red + 1);
    if t.red == TICK then Check(t.(red := 0)) else (t, [])
  }

  function After(s: State, xs: seq<Short>): State {
    if xs == [] then s else Next(After(s, xs[..|xs| - 1]), xs[|xs| - 1]).0
  }

  function Events(s: State, xs: seq<Short>): seq<Event> {
    if xs == [] then []
    else Events(s, xs[..|xs| - 1]) + Next(After(s, xs[..|xs| - 1]), xs[|xs| - 1]).1
  }

  // ----- the integrator -----

  /** A larger sum stays the larger one under the same input. */
  lemma LeakMonotone(a: nat, b: nat, x: nat, y: nat)
    requires a <= b && x <= y
    ensures Leak(a, x) <= Leak(b, y)
  {
  }

  lemma {:induction false} SumBounded(s: State, xs: seq<Short>)
    requires s.sum <= 39_322_799
    ensures After(s, xs).sum <= 39_322_799
  {
    if xs != [] {
      SumBounded(s, xs[..|xs| - 1]);
      LeakMonotone(After(s, xs[..|xs| - 1]).sum, SUM_MAX, Abs(xs[|xs| - 1]), 32768);
    }
  }

  /** The highest sum `n` samples after an opening, and the lowest `n` samples after a closing. */
  function Rise(n: nat): nat { if n == 0 then THR_OPEN - 1 else Leak(Rise(n - 1), 32768) }

  function Fall(n: nat): nat { if n == 0 then THR_CLOSE + 1 else Leak(Fall(n - 1), 0) }

  lemma {:induction false} RiseBounded(n: nat)
    ensures Rise(n) <= SUM_MAX
  {
    if n > 0 { RiseBounded(n - 1); LeakMonotone(Rise(n - 1), SUM_MAX, 32768, 32768); }
  }

  lemma {:induction false} RiseMonotone(m: nat, n: nat)
    requires m <= n
    ensures Rise(m) <= Rise(n)
    decreases n
  {
    if m < n { RiseMonotone(m, n - 1); RiseBounded(n - 1); }
  }

  lemma {:induction false} FallMonotone(m: nat, n: nat)
    requires m <= n
    ensures Fall(n) <= Fall(m)
    decreases n
  {
    if m < n { FallMonotone(m, n - 1); }
  }

  // The sum, or its distance from the ceiling, keeps at least 1199/1200 of itself
  // from sample to sample; over many samples that is a power, bounded here in
  // parts of a milliard.
  const SCALE := 1_000_000_000

  /** Over any `n` samples `e` keeps at least the fraction `f`. */
  ghost predicate Keeps(e: nat -> int, n: nat, f: nat) {
    forall m: nat :: SCALE * e(m + n) >= f * e(m)
  }

  lemma Scaled(a: int, b: int, c: nat, f: nat, g: nat, h: nat)
    requires SCALE * h <= f * g
    requires SCALE * b >= f * c && SCALE * a >= g * b
    ensures SCALE * a >= h * c
  {
    assert SCALE * (SCALE * a) >= SCALE * (g * b) == g * (SCALE * b);
    assert g * (SCALE * b) >= g * (f * c) == (f * g) * c;
    assert (f * g) * c >= (SCALE * h) * c == SCALE * (h * c);
  }

  lemma KeepsBoth(e: nat -> int, a: nat, f: nat, b: nat, g: nat, h: nat)
    requires SCALE * h <= f * g
    requires Keeps(e, a, f) && Keeps(e, b, g) && Decays(e)
    ensures Keeps(e, a + b, h)
  {
    forall m: nat ensures SCALE * e(m + (a + b)) >= h * e(m) {
      assert m + a + b == m + (a + b);
      Scaled(e(m + a + b), e(m + a), e(m), f, g, h);
    }
  }

  ghost predicate Decays(e: nat -> int) {
    forall m: nat :: e(m) >= 0 && 1200 * e(m + 1) >= 1199 * e(m)
  }

  lemma KeepsOne(e: nat -> int)
    requires Decays(e)
    ensures Keeps(e, 1, 999166666)
  {
  }

  lemma KeepsLong(e: nat -> int)
    requires Decays(e)
    ensures Keeps(e, 75, 939388512) && Keeps(e, 975, 443596571)
  {
    KeepsOne(e);
    hide Keeps, Decays;
    KeepsBoth(e, 1, 999166666, 1, 999166666, 998334026);
    KeepsBoth(e, 2, 998334026, 1, 999166666, 997502080);
    KeepsBoth(e, 3, 997502080, 3, 997502080, 995010399);
    KeepsBoth(e, 6, 995010399, 6, 995010399, 990045694);
    KeepsBoth(e, 12, 990045694, 3, 997502080, 987572639);
    KeepsBoth(e, 15, 987572639, 15, 987572639, 975299717);
    KeepsBoth(e, 30, 975299717, 30, 975299717, 951209537);
    KeepsBoth(e, 60, 951209537, 15, 987572639, 939388512);
    KeepsBoth(e, 60, 951209537, 60, 951209537, 904799583);
    KeepsBoth(e, 120, 904799583, 120, 904799583, 818662285);
    KeepsBoth(e, 240, 818662285, 240, 818662285, 670207936);
    KeepsBoth(e, 480, 670207936, 480, 670207936, 449178677);
    KeepsBoth(e, 960, 449178677, 15, 987572639, 443596571);
  }

  lemma GapKeeps(m: nat)
    ensures 0 <= SUM_MAX - Rise(m) && 1200 * (SUM_MAX - Rise(m + 1)) >= 1199 * (SUM_MAX - Rise(m))
  {
    RiseBounded(m);
  }

  /** Seventy-five samples never take the sum from the lower threshold over the
      higher one, nor 975 from the higher one below the lower. */
  lemma RiseAt75()
    ensures Rise(75) <= THR_CLOSE
  {
    var gap: nat -> int := (n: nat) => SUM_MAX - Rise(n);
    assert gap(0) == 37522800;
    hide Rise;
    assert Decays(gap) by {
      forall m: nat ensures gap(m) >= 0 && 1200 * gap(m + 1) >= 1199 * gap(m) { GapKeeps(m); }
    }
    KeepsLong(gap);
    assert SCALE * gap(0 + 75) >= 939388512 * gap(0);
  }

  lemma FallAt975()
    ensures Fall(975) > THR_OPEN
  {
    var sum: nat -> int := (n: nat) => Fall(n);
    KeepsLong(sum);
    assert sum(0) == 4080001;
    hide Fall;
    assert SCALE * sum(0 + 975) >= 443596571 * sum(0);
  }

  // ----- opening and closing -----

  /** Where the squelch stands since its last event. */
  ghost predicate Timed(s: State, evs: seq<Event>) {
    && s.red < TICK && s.pos % TICK == s.red && s.sum <= SUM_MAX
    && (evs == [] ==> !s.open && s.sum + 1 >= Fall(s.pos))
    && (evs != [] ==>
         var last := evs[|evs| - 1];
         && last.at <= s.pos && last.at % TICK == 0
         && (last.Opened? ==> s.open && s.openAt == last.at && s.sum <= Rise(s.pos - last.at))
         && (last.Closed? ==> !s.open && s.sum >= Fall(s.pos - last.at)))
  }

  /** Openings and closings alternate, each on a tick, and far enough apart; a
      closing tells how many milliseconds the squelch was open. */
  ghost predicate Spaced(evs: seq<Event>) { Alternates(evs) && Apart(evs) }

  ghost predicate Alternates(evs: seq<Event>) {
    forall i :: 0 <= i < |evs| ==> (evs[i].Opened? <==> i % 2 == 0) && evs[i].at % 15 == 0
  }

  ghost predicate Apart(evs: seq<Event>) {
    && (evs != [] ==> evs[0].at >= 990)
    && (forall i {:trigger evs[i].Closed?} :: 0 < i < |evs| ==>
          if evs[i].Closed? then evs[i].at >= evs[i - 1].at + 90
                  && evs[i].over == (evs[i].at - evs[i - 1].at) / 48
          else evs[i].at >= evs[i - 1].at + 990)
  }

  lemma RiseUnder(n: nat)
    requires n <= 75
    ensures Rise(n) <= THR_CLOSE
  {
    hide Rise;
    RiseMonotone(n, 75);
    RiseAt75();
  }

  lemma FallOver(n: nat)
    requires n <= 975
    ensures Fall(n) > THR_OPEN
  {
    hide Fall;
    FallMonotone(n, 975);
    FallAt975();
  }

  lemma RiseNext(n: nat, sum: nat, x: nat)
    requires sum <= Rise(n) && x <= 32768
    ensures Leak(sum, x) <= Rise(n + 1)
  {
    LeakMonotone(sum, Rise(n), x, 32768);
  }

  lemma FallNext(n: nat, sum: nat, x: nat)
    requires sum >= Fall(n)
    ensures Leak(sum, x) >= Fall(n + 1)
  {
    LeakMonotone(Fall(n), sum, 0, x);
  }

  /** How far the sum can be from where it was at the last event. */
  lemma SumTimed(s: State, evs: seq<Event>, x: Short)
    requires Timed(s, evs) && evs != []
    ensures var sum, last := Leak(s.sum, Abs(x)), evs[|evs| - 1];
            var n := s.pos + 1 - last.at;
            && (last.Opened? ==> sum <= Rise(n) && (n <= 75 ==> sum <= THR_CLOSE))
            && (last.Closed? ==> sum >= Fall(n) && (n <= 975 ==> sum >= THR_OPEN))
  {
    hide Rise, Fall, Leak;
    var last := evs[|evs| - 1];
    var n := s.pos - last.at;
    if last.Opened? {
      RiseNext(n, s.sum, Abs(x));
      if n + 1 <= 75 { RiseUnder(n + 1); }
    } else {
      FallNext(n, s.sum, Abs(x));
      if n + 1 <= 975 { FallOver(n + 1); }
    }
  }

  /** Before the first event the sum has only come down from where it started. */
  lemma SumFirst(s: State, x: Short)
    requires Timed(s, [])
    ensures var sum, n := Leak(s.sum, Abs(x)), s.pos + 1; sum + 1 >= Fall(n) && (n <= 975 ==> sum >= THR_OPEN)
  {
    assert Leak(s.sum, Abs(x)) + 1 >= Fall(s.pos + 1);
    hide Fall, Leak;
    if s.pos + 1 <= 975 { FallOver(s.pos + 1); }
  }

  lemma SpacedExtend(evs: seq<Event>, e: Event)
    requires Spaced(evs) && e.at % TICK == 0 && (e.Opened? <==> |evs| % 2 == 0)
    requires evs == [] ==> e.at >= 990
    requires evs != [] ==>
      var last := evs[|evs| - 1];
      if e.Closed? then e.at >= last.at + 90 && e.over == (e.at - last.at) / 48 else e.at >= last.at + 990
    ensures Spaced(evs + [e])
  {
    var es := evs + [e];
    forall i {:trigger es[i].Closed?} | 0 < i < |es|
      ensures if es[i].Closed? then es[i].at >= es[i - 1].at + 90
              && es[i].over == (es[i].at - es[i - 1].at) / 48
              else es[i].at >= es[i - 1].at + 990
    {
      assert es[i - 1] == evs[i - 1];
      if i < |evs| {
        assert es[i] == evs[i] && (evs[i].Closed? || evs[i].Opened?);
      }
    }
  }

  /** A tick is fifteen samples on or a multiple of that. */
  lemma TicksApart(last: nat, at: nat, least: nat)
    requires last % TICK == 0 && at % TICK == 0 && at > last + least && least % TICK == 0
    ensures at >= last + least + TICK
  {
  }

  /** The counters of one sample. */
  lemma NextCounts(s: State, x: Short)
    requires s.red < TICK && s.pos % TICK == s.red
    ensures var t := Next(s, x).0;
            t.pos == s.pos + 1 && t.red < TICK && t.pos % TICK == t.red && t.sum == Leak(s.sum, Abs(x))
    ensures var (t, more) := Next(s, x);
            if more == [] then t.open == s.open && t.openAt == s.openAt
            else t.red == 0 && |more| == 1 && more[0].at == t.pos && t.open == more[0].Opened?
                 && (t.open ==> t.openAt == t.pos && t.sum < THR_OPEN) && (!t.open ==> t.sum > THR_CLOSE)
  {
    hide Leak, Abs;
  }

  lemma NextTimed(s: State, evs: seq<Event>, x: Short)
    requires Timed(s, evs) && Spaced(evs)
    ensures var (t, more) := Next(s, x); Timed(t, evs + more) && Spaced(evs + more)
  {
    hide Next, Spaced, Rise, Fall, Leak, Abs;
    var (t, more) := Next(s, x);
    NextCounts(s, x);
    LeakBounded(s, x);
    RiseAndFallStart();
    if evs != [] { SumTimed(s, evs, x); } else { SumFirst(s, x); }
    if more == [] {
      assert evs + more == evs;
    } else {
      OneEvent(s, evs, x);
    }
  }

  lemma LeakBounded(s: State, x: Short)
    requires s.sum <= SUM_MAX
    ensures Leak(s.sum, Abs(x)) <= SUM_MAX
  {
    LeakMonotone(s.sum, SUM_MAX, Abs(x), 32768);
  }

  lemma RiseAndFallStart()
    ensures Rise(0) == THR_OPEN - 1 && Fall(0) == THR_CLOSE + 1
  {
  }

  /** An event on the tick is the other kind than the last one, and late enough. */
  lemma OneEvent(s: State, evs: seq<Event>, x: Short)
    requires Timed(s, evs) && Spaced(evs) && Next(s, x).1 != []
    ensures Spaced(evs + Next(s, x).1)
  {
    var (t, more) := Next(s, x);
    LastKind(evs);
    if evs != [] {
      SumTimed(s, evs, x);
      var last := evs[|evs| - 1];
      if last.Opened? { TicksApart(last.at, t.pos, 75); } else { TicksApart(last.at, t.pos, 975); }
    } else {
      SumFirst(s, x);
      TicksApart(0, t.pos, 975);
    }
    hide Rise, Fall, Leak, Abs, Spaced;
    assert |more| == 1 && more == [more[0]];
    SpacedExtend(evs, more[0]);
  }

  lemma LastKind(evs: seq<Event>)
    requires Spaced(evs)
    ensures evs != [] ==> (evs[|evs| - 1].Opened? <==> |evs| % 2 == 1)
  {
    hide Apart;
    if evs != [] {
      var i := |evs| - 1;
      assert evs[i].Opened? <==> i % 2 == 0;
      hide *;
    }
  }

  /** Whatever the input, openings and closings alternate on the ticks, the first
      one at sample 990 or later, a closing at least 90 samples after its opening
      and an opening at least 990 after a closing. */
  lemma {:induction false} EventsSpaced(xs: seq<Short>)
    ensures Spaced(Events(Start(), xs)) && Timed(After(Start(), xs), Events(Start(), xs))
  {
    if xs != [] {
      var m := |xs| - 1;
      EventsSpaced(xs[..m]);
      NextTimed(After(Start(), xs[..m]), Events(Start(), xs[..m]), xs[m]);
    }
  }

  // ----- what a level means -----

  /** No sample is further from zero than the level, either way. */
  ghost predicate AtMost(xs: seq<Short>, level: int) {
    forall i :: 0 <= i < |xs| ==> -level <= xs[i] <= level
  }

  /** Every sample is that far from it, one way or the other. */
  ghost predicate AtLeast(xs: seq<Short>, level: int) {
    forall i :: 0 <= i < |xs| ==> xs[i] >= level || xs[i] <= -level
  }

  lemma AtMostSplit(xs: seq<Short>, n: nat, level: nat)
    requires AtMost(xs, level) && n <= |xs|
    ensures AtMost(xs[..n], level) && AtMost(xs[n..], level)
  {
    hide Abs;
  }

  lemma AtLeastSplit(xs: seq<Short>, n: nat, level: nat)
    requires AtLeast(xs, level) && n <= |xs|
    ensures AtLeast(xs[..n], level) && AtLeast(xs[n..], level)
  {
    hide Abs;
  }

  lemma TickOn(n: nat)
    ensures (n % TICK + 1) % TICK == (n + 1) % TICK
    ensures n >= TICK || n % TICK == n
  {
  }

  lemma {:induction false} AfterBoth(s: State, a: seq<Short>, b: seq<Short>)
    ensures After(s, a + b) == After(After(s, a), b)
    decreases |b|
  {
    if b == [] {
      assert a + b == a;
    } else {
      assert (a + b)[..|a + b| - 1] == a + b[..|b| - 1];
      AfterBoth(s, a, b[..|b| - 1]);
    }
  }

  /** Under a level below the lower threshold the sum goes down to it, a unit a
      sample at least, and stays below. */
  lemma {:induction false} QuietSum(s: State, xs: seq<Short>)
    requires AtMost(xs, 1499)
    ensures var sum := After(s, xs).sum; sum < THR_OPEN || sum <= s.sum - |xs|
  {
    if xs != [] {
      var m := |xs| - 1;
      QuietSum(s, xs[..m]);
      assert Abs(xs[m]) <= 1499;
    }
  }

  lemma {:induction false} LoudSum(s: State, xs: seq<Short>)
    requires AtLeast(xs, 3401)
    ensures var sum := After(s, xs).sum; sum > THR_CLOSE || sum >= s.sum + |xs|
  {
    if xs != [] {
      var m := |xs| - 1;
      LoudSum(s, xs[..m]);
      assert Abs(xs[m]) >= 3401;
    }
  }

  /** Below the lower threshold the next tick opens, or leaves open, for good. */
  lemma QuietStep(s: State, x: Short)
    requires Abs(x) <= 1499 && s.sum < THR_OPEN && s.red < TICK
    ensures var t := Next(s, x).0;
            t.sum < THR_OPEN && t.red == (s.red + 1) % TICK && (s.open || s.red + 1 == TICK ==> t.open)
  {
    LeakMonotone(s.sum, THR_OPEN - 1, Abs(x), 1499);
  }

  lemma LoudStep(s: State, x: Short)
    requires Abs(x) >= 3401 && s.sum > THR_CLOSE && s.red < TICK
    ensures var t := Next(s, x).0;
            t.sum > THR_CLOSE && t.red == (s.red + 1) % TICK && (!s.open || s.red + 1 == TICK ==> !t.open)
  {
    LeakMonotone(THR_CLOSE + 1, s.sum, 3401, Abs(x));
  }

  lemma {:induction false} QuietSettles(s: State, xs: seq<Short>)
    requires AtMost(xs, 1499) && s.sum < THR_OPEN && s.red < TICK
    ensures var t := After(s, xs);
            && t.sum < THR_OPEN && t.red == (s.red + |xs|) % TICK
            && (s.open || s.red + |xs| >= TICK ==> t.open)
  {
    if xs != [] {
      var m := |xs| - 1;
      QuietSettles(s, xs[..m]);
      QuietStep(After(s, xs[..m]), xs[m]);
      TickOn(s.red + m);
      hide Next, Abs;
    }
  }

  lemma {:induction false} LoudSettles(s: State, xs: seq<Short>)
    requires AtLeast(xs, 3401) && s.sum > THR_CLOSE && s.red < TICK
    ensures var t := After(s, xs);
            && t.sum > THR_CLOSE && t.red == (s.red + |xs|) % TICK
            && (!s.open || s.red + |xs| >= TICK ==> !t.open)
  {
    if xs != [] {
      var m := |xs| - 1;
      LoudSettles(s, xs[..m]);
      LoudStep(After(s, xs[..m]), xs[m]);
      TickOn(s.red + m);
      hide Next, Abs;
    }
  }

  lemma {:induction false} RedStays(s: State, xs: seq<Short>)
    requires s.red < TICK
    ensures After(s, xs).red < TICK
  {
    if xs != [] { RedStays(s, xs[..|xs| - 1]); }
  }

  /** A signal that stays at 1499 or below opens the squelch within the given
      number of samples from any state, and it stays open while the signal does. */
  lemma QuietOpens(s: State, xs: seq<Short>)
    requires s.red < TICK && AtMost(xs, 1499)
    requires |xs| >= TICK && |xs| >= s.sum - THR_OPEN + 1 + TICK
    ensures After(s, xs).open && After(s, xs).sum < THR_OPEN
  {
    hide *;
    var n := |xs| - TICK;
    var a, b := xs[..n], xs[n..];
    AtMostSplit(xs, n, 1499);
    QuietSum(s, a);
    RedStays(s, a);
    QuietSettles(After(s, a), b);
    AfterBoth(s, a, b);
    assert a + b == xs;
  }

  /** A signal that stays at 3401 or above closes it, and it stays closed. */
  lemma LoudCloses(s: State, xs: seq<Short>)
    requires s.red < TICK && AtLeast(xs, 3401)
    requires |xs| >= TICK && |xs| >= THR_CLOSE - s.sum + 1 + TICK
    ensures !After(s, xs).open && After(s, xs).sum > THR_CLOSE
  {
    hide *;
    var n := |xs| - TICK;
    var a, b := xs[..n], xs[n..];
    AtLeastSplit(xs, n, 3401);
    LoudSum(s, a);
    RedStays(s, a);
    LoudSettles(After(s, a), b);
    AfterBoth(s, a, b);
    assert a + b == xs;
  }

  /** The two levels are sharp: one unit more never opens a closed squelch. */
  lemma {:induction false} StaysClosed(s: State, xs: seq<Short>)
    requires !s.open && s.sum >= THR_OPEN && AtLeast(xs, 1500)
    ensures !After(s, xs).open && After(s, xs).sum >= THR_OPEN && Events(s, xs) == []
  {
    if xs != [] {
      var m := |xs| - 1;
      StaysClosed(s, xs[..m]);
      assert Abs(xs[m]) >= 1500;
      LeakMonotone(THR_OPEN, After(s, xs[..m]).sum, 1500, Abs(xs[m]));
    }
  }

  /** And one unit less never closes an open one. */
  lemma {:induction false} StaysOpen(s: State, xs: seq<Short>)
    requires s.open && s.sum <= THR_CLOSE && AtMost(xs, 3400)
    ensures After(s, xs).open && After(s, xs).sum <= THR_CLOSE && Events(s, xs) == []
  {
    if xs != [] {
      var m := |xs| - 1;
      StaysOpen(s, xs[..m]);
      assert Abs(xs[m]) <= 3400;
      LeakMonotone(After(s, xs[..m]).sum, THR_CLOSE, Abs(xs[m]), 3400);
    }
  }

  predicate Opposite(x: int, y: int) { x + y == 0 }

  /** The signs of the samples do not matter: a stream with any of them turned round gives the same events and
      leaves the same state. */
  lemma {:induction false} SignsDoNotMatter(s: State, xs: seq<Short>, ys: seq<Short>)
    requires |xs| == |ys| && forall i :: 0 <= i < |xs| ==> ys[i] == xs[i] || Opposite(xs[i], ys[i])
    ensures After(s, ys) == After(s, xs) && Events(s, ys) == Events(s, xs)
  {
    if xs != [] {
      var m := |xs| - 1;
      SignsDoNotMatter(s, xs[..m], ys[..m]);
      assert Abs(ys[m]) == Abs(xs[m]);
      hide Abs, Leak, Check;
    }
  }
}
