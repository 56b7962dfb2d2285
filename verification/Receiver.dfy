/** src/receiver.c: the sample buffer of one receiver and the loop that feeds it
    and the squelch. */
module Receiver {
  import opened Filter
  import opened Squelch

  const BUFLEN := 16384
  const COPY := BUFLEN / 4
  const SCAN_LEN := DIVIDER * 2

  /** The statics of copy_buffer and sql_open. */
  class SquelchVars {
    var sum: nat
    var pos: nat
    var red: nat
    var openAt: nat
    var open: bool

    ghost function Now(): State
      reads this
    {
      State(sum, pos, red, openAt, open)
    }

    constructor ()
      ensures Now() == Start()
    {
      sum, pos, red, openAt, open := THR_CLOSE, 0, 0, 0, false;
    }

    /** One sample of the filtered signal: src/receiver.c:299-345. */
    method Feed(x: Short) returns (events: seq<Event>)
      modifies this
      ensures (Now(), events) == Next(old(Now()), x)
    {
      events := [];
      sum := sum - sum / DIVIDER;
      sum := sum + if x > 0 then x else x * -1;
      pos := pos + 1;
      red := red + 1;
      if red == TICK {
        red := 0;
        if open && sum > THR_CLOSE {
          var over := (pos - openAt) * 1000 / SAMPLE_RATE;
          events := [Closed(pos, over)];
          open := false;
        }
        if !open && sum < THR_OPEN {
          open := true;
          openAt := pos;
          events := events + [Opened(pos)];
          assert events == [Opened(pos)];
        }
      }
    }
  }

  function Opens(s: State, xs: seq<Short>, x: Short): bool {
    Next(After(s, xs), x).1 != [] && Next(After(s, xs), x).1[0].Opened?
  }

  /** For every opening while `xs` is fed, the SCAN_LEN samples before the
      current one, where sample `i` stands at `at + i` of `mem`. */
  function LookBacks(s: State, xs: seq<Short>, mem: seq<Short>, at: nat): seq<seq<Short>>
    requires at >= SCAN_LEN && at + |xs| <= |mem|
  {
    if xs == [] then []
    else
      var m := |xs| - 1;
      LookBacks(s, xs[..m], mem, at) + if Opens(s, xs[..m], xs[m]) then [mem[at + m - SCAN_LEN..at + m]] else []
  }

  lemma SubSlice<T>(s: seq<T>, at: nat, len: nat, lo: nat, hi: nat)
    requires at + len <= |s| && lo <= hi <= len
    ensures s[at..at + len][lo..hi] == s[at + lo..at + hi]
  {
    var a, b := s[at..at + len][lo..hi], s[at + lo..at + hi];
    assert |a| == |b| && forall k :: 0 <= k < |a| ==> a[k] == b[k];
  }

  /** The 2400 samples before a place. */
  function LastBefore(mem: seq<Short>, i: int): seq<Short> {
    if 2400 <= i <= |mem| then mem[i - 2400..i] else []
  }

  /** Those before each opening, told from the events alone. */
  function Windows(evs: seq<Event>, pos: nat, mem: seq<Short>, at: nat): seq<seq<Short>> {
    if evs == [] then []
    else
      var e := evs[|evs| - 1];
      Windows(evs[..|evs| - 1], pos, mem, at) + if e.Opened? then [LastBefore(mem, at + (e.at - pos - 1))] else []
  }

  lemma {:induction false} AfterPos(s: State, xs: seq<Short>)
    ensures After(s, xs).pos == s.pos + |xs|
  {
    if xs != [] { AfterPos(s, xs[..|xs| - 1]); }
  }

  /** An event tells the number of its sample. */
  lemma EventAt(s: State, x: Short)
    ensures var more := Next(s, x).1; more == [] || (|more| == 1 && more == [more[0]] && more[0].at == s.pos + 1)
  {
    hide Leak, Abs;
  }

  lemma WindowsMore(evs: seq<Event>, e: Event, pos: nat, mem: seq<Short>, at: nat)
    ensures Windows(evs + [e], pos, mem, at)
            == Windows(evs, pos, mem, at) + if e.Opened? then [LastBefore(mem, at + (e.at - pos - 1))] else []
  {
    hide LastBefore;
    assert (evs + [e])[..|evs|] == evs;
  }

  /** Each opening has its look-back, and that is what it sees. */
  lemma {:induction false} LookBacksAreWindows(s: State, xs: seq<Short>, mem: seq<Short>, at: nat)
    requires at >= 2400 && at + |xs| <= |mem|
    ensures LookBacks(s, xs, mem, at) == Windows(Events(s, xs), s.pos, mem, at)
  {
    if xs == [] {
      NothingSeen(s, xs, mem, at);
    } else {
      var m := |xs| - 1;
      var t, evs := After(s, xs[..m]), Events(s, xs[..m]);
      var more := Next(t, xs[m]).1;
      LookBacksAreWindows(s, xs[..m], mem, at);
      AfterPos(s, xs[..m]);
      EventAt(t, xs[m]);
      LookBacksStep(s, xs, mem, at);
      EventsStep(s, xs);
      OpensIs(s, xs[..m], xs[m]);
      hide *;
      if more == [] {
        assert evs + more == evs;
        NoneAdded(LookBacks(s, xs[..m], mem, at));
      } else {
        WindowsMore(evs, more[0], s.pos, mem, at);
        WindowIs(mem, at + m);
      }
    }
  }

  lemma NothingSeen(s: State, xs: seq<Short>, mem: seq<Short>, at: nat)
    requires xs == [] && at >= SCAN_LEN && at <= |mem|
    ensures LookBacks(s, xs, mem, at) == [] == Windows(Events(s, xs), s.pos, mem, at)
  {
  }

  lemma NoneAdded<T>(a: seq<T>)
    ensures a + [] == a
  {
  }

  lemma WindowIs(mem: seq<Short>, i: nat)
    requires 2400 <= i <= |mem|
    ensures LastBefore(mem, i) == mem[i - 2400..i]
  {
  }

  lemma EventsStep(s: State, xs: seq<Short>)
    requires xs != []
    ensures var m := |xs| - 1; Events(s, xs) == Events(s, xs[..m]) + Next(After(s, xs[..m]), xs[m]).1
  {
    hide After, Next;
  }

  lemma OpensIs(s: State, xs: seq<Short>, x: Short)
    ensures var more := Next(After(s, xs), x).1; Opens(s, xs, x) <==> more != [] && more[0].Opened?
  {
    hide After, Next;
  }

  lemma LookBacksStep(s: State, xs: seq<Short>, mem: seq<Short>, at: nat)
    requires at >= 2400 && at + |xs| <= |mem| && xs != []
    ensures var m := |xs| - 1;
            LookBacks(s, xs, mem, at)
            == LookBacks(s, xs[..m], mem, at)
               + if Opens(s, xs[..m], xs[m]) then [mem[at + m - 2400..at + m]] else []
  {
    hide LookBacks, Opens;
    var m := |xs| - 1;
    LookBacksMore(s, xs, m, mem, at);
    assert xs[..m + 1] == xs;
  }

  /** Look-backs see nothing from the current sample on. */
  lemma {:induction false} LookBacksSame(s: State, xs: seq<Short>, mem: seq<Short>, mem': seq<Short>, at: nat, at': nat)
    requires SCAN_LEN <= at && SCAN_LEN <= at' && at + |xs| <= |mem| && at' + |xs| <= |mem'|
    requires |xs| > 0 ==> mem[at - SCAN_LEN..at + |xs| - 1] == mem'[at' - SCAN_LEN..at' + |xs| - 1]
    ensures LookBacks(s, xs, mem, at) == LookBacks(s, xs, mem', at')
    decreases |xs|
  {
    if xs != [] {
      var m := |xs| - 1;
      var w, w' := mem[at - SCAN_LEN..at + m], mem'[at' - SCAN_LEN..at' + m];
      var k := SCAN_LEN + m;
      hide Opens;
      if m > 0 {
        SubSlice(mem, at - SCAN_LEN, k, 0, k - 1);
        SubSlice(mem', at' - SCAN_LEN, k, 0, k - 1);
      }
      LookBacksSame(s, xs[..m], mem, mem', at, at');
      SubSlice(mem, at - SCAN_LEN, k, m, k);
      SubSlice(mem', at' - SCAN_LEN, k, m, k);
    }
  }

  /** One sample more. */
  lemma OneMore(s: State, xs: seq<Short>, od: nat)
    requires od < |xs|
    ensures var (t, more) := Next(After(s, xs[..od]), xs[od]);
            After(s, xs[..od + 1]) == t && Events(s, xs[..od + 1]) == Events(s, xs[..od]) + more
  {
    assert xs[..od + 1][..od] == xs[..od];
  }

  lemma LookBacksMore(s: State, xs: seq<Short>, od: nat, mem: seq<Short>, at: nat)
    requires od < |xs| && SCAN_LEN <= at && at + od < |mem|
    ensures LookBacks(s, xs[..od + 1], mem, at)
            == LookBacks(s, xs[..od], mem, at) + if Opens(s, xs[..od],
                    xs[od]) then [mem[at + od - SCAN_LEN..at + od]] else []
  {
    assert xs[..od + 1][..od] == xs[..od];
  }

  lemma LookBacksKept(s: State, xs: seq<Short>, mem: seq<Short>, mem': seq<Short>, at: nat)
    requires SCAN_LEN <= at && at + |xs| <= |mem| == |mem'| && mem'[..at + |xs|] == mem[..at + |xs|]
    ensures LookBacks(s, xs, mem', at) == LookBacks(s, xs, mem, at)
  {
    var k := at + |xs|;
    if |xs| > 0 {
      SubSlice(mem, 0, k, at - SCAN_LEN, k - 1);
      SubSlice(mem', 0, k, at - SCAN_LEN, k - 1);
      assert mem[0..k] == mem[..k] && mem'[0..k] == mem'[..k];
    }
    LookBacksSame(s, xs, mem', mem, at, at);
  }

  /** A sample written behind those already there. */
  method WriteSample(a: array<Short>, x: Short, ghost before: seq<Short>, ghost at: nat, ghost seen: seq<Short>, i: nat)
    requires at + |seen| == i < |before| == a.Length && a[..] == before[..at] + seen + before[i..]
    modifies a
    ensures a[..] == before[..at] + (seen + [x]) + before[i + 1..] && a[..][..i] == old(a[..])[..i]
  {
    a[i] := x;
  }

  /** The buffer before the first sample. */
  function Quiet(): (q: seq<Short>)
    ensures |q| == COPY && forall i :: 0 <= i < COPY ==> q[i] == -16000
  {
    seq(COPY, _ => -16000)
  }

  /** copy_buffer's maximum, which starts at -32000. */
  function Loudest(samples: seq<Short>): (m: Short)
    ensures m >= -32000 && forall i :: 0 <= i < |samples| ==> samples[i] <= m
    ensures m == -32000 || exists i :: 0 <= i < |samples| && samples[i] == m
  {
    if samples == [] then -32000
    else
      var p, x := Loudest(samples[..|samples| - 1]), samples[|samples| - 1];
      if x > p then x else p
  }

  lemma StrideLoudest(s: seq<Short>, step: nat, od: nat)
    requires Place(od, step) < |s| && (od > 0 ==> Place(od - 1, step) < |s|)
    ensures var seen, x := Strided(s, step, od), s[Place(od, step)];
            && Strided(s, step, od + 1) == seen + [x]
            && Loudest(Strided(s, step, od + 1)) == if x > Loudest(seen) then x else Loudest(seen)
  {
    var seen, x := Strided(s, step, od), s[Place(od, step)];
    assert (seen + [x])[..|seen|] == seen;
  }

  lemma NothingCopied(s: State, xs: seq<Short>, samples: seq<Short>, step: nat, mem: seq<Short>, at: nat)
    requires SCAN_LEN <= at <= |mem|
    ensures Strided(samples, step, 0) == [] && Loudest([]) == -32000 && mem == mem[..at] + [] + mem[at + 0..]
    ensures After(s, xs[..0]) == s && Events(s, xs[..0]) == [] && LookBacks(s, xs[..0], mem, at) == []
  {
  }

  /** Where receiver_run copies to: the place it is at, or COPY once it has moved the history there. */
  function Moved(bufpos: nat, len: nat, numCh: nat): nat
    requires numCh > 0
  {
    if bufpos + len / numCh > BUFLEN then COPY else bufpos
  }

  /** Whether `len` samples fit once receiver_run has decided to move the buffer
      or not; the test counts `len / numCh` of them: src/receiver.c:390. */
  predicate Fits(bufpos: nat, len: nat, numCh: nat)
    requires numCh > 0
  {
    Moved(bufpos, len, numCh) + len <= BUFLEN
  }

  /** With one channel they always do. */
  lemma MonoFits(bufpos: nat, len: nat)
    requires bufpos <= BUFLEN && len <= BUFLEN / 2
    ensures Fits(bufpos, len, 1)
  {
  }

  /** With more, exactly when the position is not in the gap between the samples
      counted and the samples copied. */
  lemma FitsOutsideGap(bufpos: nat, len: nat, numCh: nat)
    requires numCh > 0 && bufpos <= BUFLEN && len <= BUFLEN / 2
    ensures Fits(bufpos, len, numCh) <==> !(BUFLEN - len < bufpos <= BUFLEN - len / numCh)
  {
    Share(len, numCh);
  }

  lemma Share(len: nat, numCh: nat)
    requires numCh > 0
    ensures len / numCh <= len
  {
    TimesAtLeast(len / numCh, numCh);
  }

  lemma {:induction false} TimesAtLeast(q: nat, n: nat)
    requires n > 0
    ensures q * n >= q
  {
    if n > 1 { TimesAtLeast(q, n - 1); }
  }

  /** Where calls of these lengths leave a new receiver. */
  function Position(lens: seq<nat>, numCh: nat): nat
    requires numCh > 0
  {
    if lens == [] then COPY
    else var last := lens[|lens| - 1]; Moved(Position(lens[..|lens| - 1], numCh), last, numCh) + last
  }

  /** The frames that one full read delivers: from a file, and from a sound device. */
  const FILE_FRAMES := 1020
  const DEVICE_FRAMES := 4096

  /** A full read takes a receiver from one multiple of its length to another. */
  lemma GridStep(k: nat, len: nat)
    requires len == FILE_FRAMES || len == DEVICE_FRAMES
    requires k <= 12 && COPY + k * len <= BUFLEN
    ensures Fits(COPY + k * len, len, 2)
    ensures var j := if COPY + k * len + len / 2 > BUFLEN then 1 else k + 1;
            j <= 12 && COPY + j * len <= BUFLEN && Moved(COPY + k * len, len, 2) + len == COPY + j * len
  {
  }

  /** A stereo receiver that only ever gets full reads never comes to stand in the gap. */
  lemma {:induction false} FullReadsFit(n: nat, len: nat)
    requires len == FILE_FRAMES || len == DEVICE_FRAMES
    ensures Position(seq(n, _ => len), 2) <= BUFLEN && Fits(Position(seq(n, _ => len), 2), len, 2)
    ensures exists k: nat :: k <= 12 && Position(seq(n, _ => len), 2) == COPY + k * len
    decreases n
  {
    var lens := seq(n, _ => len);
    if n == 0 {
      assert Position(lens, 2) == COPY + 0 * len;
      GridStep(0, len);
    } else {
      FullReadsFit(n - 1, len);
      var k: nat :| k <= 12 && Position(seq(n - 1, _ => len), 2) == COPY + k * len;
      assert lens[..n - 1] == seq(n - 1, _ => len);
      assert Position(lens, 2) == Moved(COPY + k * len, len, 2) + len;
      hide *;
      GridStep(k, len);
      GridStep(if COPY + k * len + len / 2 > BUFLEN then 1 else k + 1, len);
    }
  }

  /** But one short read of 100 frames brings it there on the third full read from the device. */
  lemma StereoGap()
    ensures Fits(COPY, 100, 2) && Fits(COPY + 100, DEVICE_FRAMES, 2)
    ensures Fits(COPY + 100 + DEVICE_FRAMES, DEVICE_FRAMES, 2)
    ensures Position([100, DEVICE_FRAMES, DEVICE_FRAMES], 2) == COPY + 100 + 2 * DEVICE_FRAMES
    ensures !Fits(COPY + 100 + 2 * DEVICE_FRAMES, DEVICE_FRAMES, 2)
  {
    var lens: seq<nat> := [100, DEVICE_FRAMES, DEVICE_FRAMES];
    assert lens[..2] == [100, DEVICE_FRAMES] && lens[..2][..1] == [100] && lens[..2][..1][..0] == [];
    assert Position([100], 2) == COPY + 100;
  }

  /** The squelch's view of the samples: filter_run_buf's output. */
  function HighPassed(taps: seq<real>, past: seq<real>, samples: seq<Short>, toShort: real -> Short): (hp: seq<Short>)
    ensures |hp| == |samples|
  {
    Shorts(Outputs(taps, past, Reals(samples)), toShort)
  }

  class Receiver {
    const filterSql: FirFilter
    const numCh: nat
    const chOfs: nat
    const bufferSql: array<Short>
    var bufpos: nat
    /** All samples of the channel since init_receiver. */
    ghost var stream: seq<Short>

    /** The last COPY samples stand before `bufpos`. */
    ghost predicate History()
      reads this, bufferSql
    {
      && numCh > 0 && bufferSql.Length == BUFLEN && COPY <= bufpos <= BUFLEN
      && bufferSql[bufpos - COPY..bufpos] == (Quiet() + stream)[|stream|..]
    }

    ghost predicate Valid()
      reads this, filterSql, filterSql.buffer, bufferSql
    {
      History() && filterSql.Valid()
    }

    /** init_receiver */
    constructor (numCh: nat, chOfs: nat, coeffs: array<real>)
      requires numCh > 0 && coeffs.Length == 36
      ensures Valid() && stream == [] && filterSql.input == [] && bufpos == COPY
      ensures this.numCh == numCh && this.chOfs == chOfs
      ensures fresh(filterSql) && fresh(bufferSql) && fresh(filterSql.buffer)
    {
      var f := new FirFilter(36, coeffs);
      filterSql := f;
      this.numCh := numCh;
      this.chOfs := chOfs;
      bufpos := COPY;
      bufferSql := new Short[BUFLEN](_ => -16000);
      stream := [];
      new;
      hide *;
      AtStart();
    }

    lemma AtStart()
      requires numCh > 0 && bufpos == COPY && stream == [] && filterSql.Valid()
      requires bufferSql.Length == BUFLEN && forall i :: 0 <= i < BUFLEN ==> bufferSql[i] == -16000
      ensures Valid()
    {
      hide FirFilter.Valid;
    }

    /** The squelch's part of the loop: src/receiver.c:299-345. */
    method Watch(sq: SquelchVars, x: Short, od: nat, events0: seq<Event>, windows0: seq<seq<Short>>, ghost s0: State,
            ghost xs: seq<Short>)
      returns (events: seq<Event>, windows: seq<seq<Short>>)
      requires od < |xs| && x == xs[od] && SCAN_LEN <= bufpos && bufpos + od < bufferSql.Length
      requires sq.Now() == After(s0, xs[..od]) && events0 == Events(s0, xs[..od])
      requires windows0 == LookBacks(s0, xs[..od], bufferSql[..], bufpos)
      modifies sq
      ensures sq.Now() == After(s0, xs[..od + 1]) && events == Events(s0, xs[..od + 1])
      ensures windows == LookBacks(s0, xs[..od + 1], bufferSql[..], bufpos)
    {
      OneMore(s0, xs, od);
      LookBacksMore(s0, xs, od, bufferSql[..], bufpos);
      hide After, Next, Events, LookBacks;
      windows := windows0;
      var more := sq.Feed(x);
      if more != [] && more[0].Opened? {
        windows := windows + [bufferSql[bufpos + od - SCAN_LEN..bufpos + od]];
      }
      events := events0 + more;
    }

    /** What copy_buffer has done after `od` samples. */
    ghost predicate Copied(sq: SquelchVars, s0: State, before: seq<Short>, samples: seq<Short>, xs: seq<Short>, od: nat,
                           maxval: Short, events: seq<Event>, windows: seq<seq<Short>>)
      requires od <= |xs| && bufferSql.Length == BUFLEN == |before| && SCAN_LEN <= bufpos && bufpos + |xs| <= BUFLEN
      requires od > 0 ==> Place(od - 1, numCh) < |samples|
      reads this, bufferSql, sq
    {
      && bufferSql[..] == before[..bufpos] + Strided(samples, numCh, od) + before[bufpos + od..]
      && sq.Now() == After(s0, xs[..od]) && events == Events(s0, xs[..od])
      && windows == LookBacks(s0, xs[..od], bufferSql[..], bufpos)
      && maxval == Loudest(Strided(samples, numCh, od))
    }

    /** One sample of copy_buffer. */
    method CopyOne(sq: SquelchVars, cur: Short, x: Short, od: nat, maxval0: Short, events0: seq<Event>,
            windows0: seq<seq<Short>>,
                   ghost s0: State, ghost before: seq<Short>, ghost samples: seq<Short>, ghost xs: seq<Short>)
      returns (maxval: Short, events: seq<Event>, windows: seq<seq<Short>>)
      requires od < |xs| && bufferSql.Length == BUFLEN == |before| && SCAN_LEN <= bufpos && bufpos + |xs| <= BUFLEN
      requires Place(od, numCh) < |samples| && (od > 0 ==> Place(od - 1, numCh) < |samples|)
      requires Copied(sq, s0, before, samples, xs, od, maxval0, events0, windows0)
      requires cur == samples[Place(od, numCh)] && x == xs[od]
      modifies sq, bufferSql
      ensures Copied(sq, s0, before, samples, xs, od + 1, maxval, events, windows)
    {
      hide *;
      StrideLoudest(samples, numCh, od);
      CopiedParts(sq, s0, before, samples, xs, od, maxval0, events0, windows0);
      ghost var mem := bufferSql[..];
      WriteSample(bufferSql, cur, before, bufpos, Strided(samples, numCh, od), bufpos + od);
      LookBacksKept(s0, xs[..od], mem, bufferSql[..], bufpos);
      maxval := maxval0;
      if cur > maxval {
        maxval := cur;
      }
      events, windows := Watch(sq, x, od, events0, windows0, s0, xs);
      CopiedMore(sq, s0, before, samples, xs, od + 1, maxval, events, windows);
    }

    lemma CopiedParts(sq: SquelchVars, s0: State, before: seq<Short>, samples: seq<Short>, xs: seq<Short>, od: nat,
                      maxval: Short, events: seq<Event>, windows: seq<seq<Short>>)
      requires od <= |xs| && bufferSql.Length == BUFLEN == |before| && SCAN_LEN <= bufpos && bufpos + |xs| <= BUFLEN
      requires od > 0 ==> Place(od - 1, numCh) < |samples|
      requires Copied(sq, s0, before, samples, xs, od, maxval, events, windows)
      ensures bufferSql[..] == before[..bufpos] + Strided(samples, numCh, od) + before[bufpos + od..]
      ensures sq.Now() == After(s0, xs[..od]) && events == Events(s0, xs[..od])
      ensures windows == LookBacks(s0, xs[..od], bufferSql[..], bufpos)
      ensures maxval == Loudest(Strided(samples, numCh, od))
    {
      hide Strided, Place, Loudest, After, Events, LookBacks;
    }

    lemma CopiedMore(sq: SquelchVars, s0: State, before: seq<Short>, samples: seq<Short>, xs: seq<Short>, od: nat,
                     maxval: Short, events: seq<Event>, windows: seq<seq<Short>>)
      requires od <= |xs| && bufferSql.Length == BUFLEN == |before| && SCAN_LEN <= bufpos && bufpos + |xs| <= BUFLEN
      requires od > 0 ==> Place(od - 1, numCh) < |samples|
      requires bufferSql[..] == before[..bufpos] + Strided(samples, numCh, od) + before[bufpos + od..]
      requires sq.Now() == After(s0, xs[..od]) && events == Events(s0, xs[..od])
      requires windows == LookBacks(s0, xs[..od], bufferSql[..], bufpos)
      requires maxval == Loudest(Strided(samples, numCh, od))
      ensures Copied(sq, s0, before, samples, xs, od, maxval, events, windows)
    {
      hide Strided, Place, Loudest, After, Events, LookBacks;
    }

    /** copy_buffer.  `in` points `from` samples into the array. */
    method CopyBuffer(sq: SquelchVars, ins: array<Short>, from: nat, hp: array<Short>, len: nat)
      returns (copied: nat, maxval: Short, events: seq<Event>, windows: seq<seq<Short>>)
      requires from <= ins.Length && (len > 0 ==> Place(len - 1, numCh) < ins.Length - from)
      requires len <= hp.Length && bufferSql.Length == BUFLEN && SCAN_LEN <= bufpos && bufpos + len <= BUFLEN
      requires bufferSql != ins && bufferSql != hp
      modifies sq, bufferSql
      ensures copied == len
      ensures bufferSql[..] == old(bufferSql[..bufpos] + Strided(ins[from..], numCh, len) + bufferSql[bufpos + len..])
      ensures sq.Now() == old(After(sq.Now(), hp[..len])) && events == old(Events(sq.Now(), hp[..len]))
      ensures windows == LookBacks(old(sq.Now()), old(hp[..len]), bufferSql[..], bufpos)
      ensures maxval == old(Loudest(Strided(ins[from..], numCh, len)))
    {
      hide *;
      ghost var s0, before, samples, xs := sq.Now(), bufferSql[..], ins[from..], hp[..len];
      assert bufferSql[..bufpos] == before[..bufpos] && bufferSql[bufpos + len..] == before[bufpos + len..];
      var id, od := 0, 0;
      maxval, events, windows := -32000, [], [];
      PlaceNext(0, 0, numCh);
      Started(sq, s0, before, samples, xs);
      while od < len
        invariant od <= len && id == Place(od, numCh)
        invariant od > 0 ==> Place(od - 1, numCh) < |samples|
        invariant Copied(sq, s0, before, samples, xs, od, maxval, events, windows)
      {
        PlaceNext(od, len - 1, numCh);
        var cur := ins[from + id];
        assert cur == samples[id] && hp[od] == xs[od];
        maxval, events, windows := CopyOne(sq, cur, hp[od], od, maxval, events, windows, s0, before, samples, xs);
        id := id + numCh;
        od := od + 1;
      }
      copied := od;
      Finished(sq, s0, before, samples, xs, maxval, events, windows);
    }

    lemma Started(sq: SquelchVars, s0: State, before: seq<Short>, samples: seq<Short>, xs: seq<Short>)
      requires bufferSql.Length == BUFLEN && SCAN_LEN <= bufpos && bufpos + |xs| <= BUFLEN
      requires sq.Now() == s0 && bufferSql[..] == before
      ensures Copied(sq, s0, before, samples, xs, 0, -32000, [], [])
    {
      NothingCopied(s0, xs, samples, numCh, before, bufpos);
    }

    lemma Finished(sq: SquelchVars, s0: State, before: seq<Short>, samples: seq<Short>, xs: seq<Short>,
                   maxval: Short, events: seq<Event>, windows: seq<seq<Short>>)
      requires bufferSql.Length == BUFLEN == |before| && SCAN_LEN <= bufpos && bufpos + |xs| <= BUFLEN
      requires |xs| > 0 ==> Place(|xs| - 1, numCh) < |samples|
      requires Copied(sq, s0, before, samples, xs, |xs|, maxval, events, windows)
      ensures bufferSql[..] == before[..bufpos] + Strided(samples, numCh, |xs|) + before[bufpos + |xs|..]
      ensures sq.Now() == After(s0, xs) && events == Events(s0, xs)
      ensures windows == LookBacks(s0, xs, bufferSql[..], bufpos) && maxval == Loudest(Strided(samples, numCh, |xs|))
    {
      assert xs[..|xs|] == xs;
    }

    /** The move of receiver_run: src/receiver.c:389-393. */
    method MakeRoom(len: nat)
      requires Valid() && len <= BUFLEN / 2 && Fits(bufpos, len, numCh)
      modifies this`bufpos, bufferSql
      ensures Valid() && bufpos == Moved(old(bufpos), len, numCh)
      ensures bufpos + len <= BUFLEN
    {
      if bufpos + len / numCh > BUFLEN {
        Share(len, numCh);
        MoveDown();
        bufpos := COPY;
      }
    }

    /** The memcpy: its source starts behind its target. */
    method MoveDown()
      requires bufferSql.Length == BUFLEN && 2 * COPY <= bufpos <= BUFLEN
      modifies bufferSql
      ensures bufferSql[..COPY] == old(bufferSql[bufpos - COPY..bufpos])
    {
      ghost var was := bufferSql[..];
      forall i | 0 <= i < COPY {
        bufferSql[i] := bufferSql[bufpos - COPY + i];
      }
      assert bufferSql[..COPY] == was[bufpos - COPY..bufpos];
    }

    /** receiver_run, but for the level log; too long a chunk aborts the program.
        `toShort` is C's conversion of the filter sums. */
    method Run(sq: SquelchVars, buf: array<Short>, len: nat, toShort: real -> Short)
      returns (aborted: bool, events: seq<Event>, windows: seq<seq<Short>>)
      requires Valid() && buf != bufferSql
      requires len <= BUFLEN / 2 ==>
        chOfs <= buf.Length && (len > 0 ==> Place(len - 1, numCh) < buf.Length - chOfs) && Fits(bufpos, len, numCh)
      modifies this`bufpos, this`stream, bufferSql, sq, filterSql`pointer, filterSql`input, filterSql.buffer
      ensures Valid() && (aborted <==> len > BUFLEN / 2)
      ensures aborted ==> stream == old(stream) && sq.Now() == old(sq.Now()) && bufpos == old(bufpos)
      ensures !aborted ==> bufpos == Moved(old(bufpos), len, numCh) + len
      ensures !aborted ==>
        Received(sq, old(Strided(buf[chOfs..], numCh, len)), old(stream), old(filterSql.input), old(sq.Now()),
                toShort, events, windows)
    {
      hide Received, History, FirFilter.Valid;
      events, windows := [], [];
      aborted := len > BUFLEN / 2;
      if !aborted {
        events, windows := Receive(sq, buf, len, toShort);
      }
    }

    /** The stream has grown by the samples, the squelch has seen them filtered,
        and each opening has looked back at the last SCAN_LEN samples before it. */
    ghost predicate Received(sq: SquelchVars, samples: seq<Short>, stream0: seq<Short>, input0: seq<real>, s0: State,
                             toShort: real -> Short, events: seq<Event>, windows: seq<seq<Short>>)
      reads this, filterSql, sq
    {
      var hp := HighPassed(filterSql.taps, input0, samples, toShort);
      && stream == stream0 + samples && filterSql.input == input0 + Reals(samples)
      && sq.Now() == After(s0, hp) && events == Events(s0, hp)
      && windows == LookBacks(s0, hp, Quiet() + stream, COPY + |stream0|)
    }

    /** receiver_run from the move on: src/receiver.c:388-402. */
    method Receive(sq: SquelchVars, buf: array<Short>, len: nat, toShort: real -> Short)
      returns (events: seq<Event>, windows: seq<seq<Short>>)
      requires Valid() && buf != bufferSql && len <= BUFLEN / 2
      requires chOfs <= buf.Length && (len > 0 ==> Place(len - 1, numCh) < buf.Length - chOfs)
              && Fits(bufpos, len, numCh)
      modifies this`bufpos, this`stream, bufferSql, sq, filterSql`pointer, filterSql`input, filterSql.buffer
      ensures Valid() && bufpos == Moved(old(bufpos), len, numCh) + len
      ensures Received(sq, old(Strided(buf[chOfs..], numCh, len)), old(stream), old(filterSql.input), old(sq.Now()),
              toShort, events, windows)
    {
      hide *;
      MakeRoom(len);
      RoomMade();
      events, windows := ReceiveFitting(sq, buf, len, toShort);
    }

    /** receiver_run once there is room: src/receiver.c:394-402. */
    method ReceiveFitting(sq: SquelchVars, buf: array<Short>, len: nat, toShort: real -> Short)
      returns (events: seq<Event>, windows: seq<seq<Short>>)
      requires History() && filterSql.Valid() && buf != bufferSql && bufpos + len <= BUFLEN
      requires chOfs <= buf.Length && (len > 0 ==> Place(len - 1, numCh) < buf.Length - chOfs)
      modifies this`bufpos, this`stream, bufferSql, sq, filterSql`pointer, filterSql`input, filterSql.buffer
      ensures Valid() && bufpos == old(bufpos) + len
      ensures Received(sq, old(Strided(buf[chOfs..], numCh, len)), old(stream), old(filterSql.input), old(sq.Now()),
              toShort, events, windows)
    {
      hide *;
      ghost var samples, past := Strided(buf[chOfs..], numCh, len), filterSql.input;
      ghost var s0, stream0 := sq.Now(), stream;
      var hp := HighPass(buf, len, toShort);
      ghost var xs := HighPassed(filterSql.taps, past, samples, toShort);
      events, windows := Take(sq, buf, hp, len, xs);
      Conclude(sq, samples, stream0, past, s0, toShort, events, windows, xs);
    }

    lemma RoomMade()
      requires Valid()
      ensures History() && filterSql.Valid() && numCh > 0
    {
    }

    lemma Conclude(sq: SquelchVars, samples: seq<Short>, stream0: seq<Short>, input0: seq<real>, s0: State,
                   toShort: real -> Short, events: seq<Event>, windows: seq<seq<Short>>, xs: seq<Short>)
      requires History() && filterSql.Valid() && |xs| == |samples|
      requires xs == HighPassed(filterSql.taps, input0, samples, toShort)
      requires stream == stream0 + samples && filterSql.input == input0 + Reals(samples)
      requires sq.Now() == After(s0, xs) && events == Events(s0, xs)
      requires windows == LookBacks(s0, xs, Quiet() + stream, COPY + |stream0|)
      ensures Valid() && Received(sq, samples, stream0, input0, s0, toShort, events, windows)
    {
      hide History, FirFilter.Valid, HighPassed, After, Events, LookBacks, Quiet, Reals;
    }

    /** The filter of receiver_run: src/receiver.c:395-396. */
    method HighPass(buf: array<Short>, len: nat, toShort: real -> Short) returns (hp: array<Short>)
      requires filterSql.Valid() && len <= BUFLEN && chOfs <= buf.Length
      requires len > 0 ==> Place(len - 1, numCh) < buf.Length - chOfs
      modifies filterSql`pointer, filterSql`input, filterSql.buffer
      ensures filterSql.Valid() && fresh(hp) && len <= hp.Length
      ensures var samples := old(Strided(buf[chOfs..], numCh, len));
              && filterSql.input == old(filterSql.input) + Reals(samples)
              && hp[..len] == HighPassed(filterSql.taps, old(filterSql.input), samples, toShort)
    {
      hp := new Short[BUFLEN](_ => 0);
      var peak := filterSql.RunBuf(buf, chOfs, hp, numCh, len, toShort);
    }

    lemma HistoryKept()
      requires numCh > 0 && bufferSql.Length == BUFLEN && COPY <= bufpos <= BUFLEN
      requires bufferSql[..][bufpos - COPY..bufpos] == (Quiet() + stream)[|stream|..]
      ensures History()
    {
      assert bufferSql[bufpos - COPY..bufpos] == bufferSql[..][bufpos - COPY..bufpos];
    }

    /** copy_buffer on the filtered samples and the new position: src/receiver.c:398-402. */
    method Take(sq: SquelchVars, buf: array<Short>, hp: array<Short>, len: nat, ghost xs: seq<Short>)
      returns (events: seq<Event>, windows: seq<seq<Short>>)
      requires History() && buf != bufferSql && hp != bufferSql && len <= hp.Length && xs == hp[..len]
      requires chOfs <= buf.Length && (len > 0 ==> Place(len - 1, numCh) < buf.Length - chOfs) && bufpos + len <= BUFLEN
      modifies this`bufpos, this`stream, bufferSql, sq
      ensures History() && stream == old(stream) + old(Strided(buf[chOfs..], numCh, len)) && bufpos == old(bufpos) + len
      ensures sq.Now() == After(old(sq.Now()), xs) && events == Events(old(sq.Now()), xs)
      ensures windows == LookBacks(old(sq.Now()), xs, Quiet() + stream, COPY + |old(stream)|)
    {
      hide *;
      ghost var samples, before, at, s0 := Strided(buf[chOfs..], numCh, len), bufferSql[..], bufpos, sq.Now();
      HistoryParts();
      var copied, maxval;
      copied, maxval, events, windows := CopyBuffer(sq, buf, chOfs, hp, len);
      MoveOn(copied, before, samples, s0, xs, windows);
    }

    lemma HistoryParts()
      requires History()
      ensures numCh > 0 && bufferSql.Length == BUFLEN && SCAN_LEN <= COPY <= bufpos <= BUFLEN
      ensures bufferSql[..][bufpos - COPY..bufpos] == (Quiet() + stream)[|stream|..]
    {
    }

    /** The new position, and what it means for the history. */
    method MoveOn(copied: nat, ghost before: seq<Short>, ghost samples: seq<Short>, ghost s0: State,
                  ghost xs: seq<Short>, ghost windows: seq<seq<Short>>)
      requires numCh > 0 && bufferSql.Length == BUFLEN == |before| && SCAN_LEN <= COPY <= bufpos
      requires copied == |samples| == |xs| && bufpos + copied <= BUFLEN
      requires before[bufpos - COPY..bufpos] == (Quiet() + stream)[|stream|..]
      requires bufferSql[..] == before[..bufpos] + samples + before[bufpos + copied..]
      requires windows == LookBacks(s0, xs, bufferSql[..], bufpos)
      modifies this`bufpos, this`stream
      ensures History() && stream == old(stream) + samples && bufpos == old(bufpos) + copied
      ensures windows == LookBacks(s0, xs, Quiet() + stream, COPY + |old(stream)|)
    {
      hide *;
      Grown(before, samples, bufferSql[..], bufpos, stream);
      GrownLookBacks(before, samples, bufferSql[..], bufpos, stream, s0, xs);
      bufpos := bufpos + copied;
      stream := stream + samples;
      HistoryKept();
    }
  }

  lemma GrownLookBacks(before: seq<Short>, samples: seq<Short>, mem: seq<Short>, at: nat, stream: seq<Short>,
          s: State, xs: seq<Short>)
    requires COPY <= at && at + |samples| <= BUFLEN == |before|
            && mem == before[..at] + samples + before[at + |samples|..]
    requires before[at - COPY..at] == (Quiet() + stream)[|stream|..] && |xs| == |samples|
    ensures LookBacks(s, xs, mem, at) == LookBacks(s, xs, Quiet() + (stream + samples), COPY + |stream|)
  {
    var full, at' := Quiet() + (stream + samples), COPY + |stream|;
    Grown(before, samples, mem, at, stream);
    var k := SCAN_LEN + |samples|;
    assert full[at' - SCAN_LEN..] == full[at' - SCAN_LEN..at' - SCAN_LEN + k];
    if |xs| > 0 {
      SubSlice(mem, at - SCAN_LEN, k, 0, k - 1);
      SubSlice(full, at' - SCAN_LEN, k, 0, k - 1);
    }
    LookBacksSame(s, xs, mem, full, at, at');
  }

  /** The history after a call, and what the look-backs of the call see of it. */
  lemma Grown(before: seq<Short>, samples: seq<Short>, mem: seq<Short>, at: nat, stream: seq<Short>)
    requires COPY <= at && at + |samples| <= BUFLEN == |before|
            && mem == before[..at] + samples + before[at + |samples|..]
    requires before[at - COPY..at] == (Quiet() + stream)[|stream|..]
    ensures var end := at + |samples|; mem[end - COPY..end] == (Quiet() + (stream + samples))[|stream + samples|..]
    ensures mem[at - SCAN_LEN..at + |samples|] == (Quiet() + (stream + samples))[COPY + |stream| - SCAN_LEN..]
  {
    var n, all := |samples|, Quiet() + (stream + samples);
    GrownWindow(before, samples, mem, at, Quiet(), stream);
    hide *;
    SubSlice(mem, at - COPY, COPY + n, n, COPY + n);
    SubSlice(mem, at - COPY, COPY + n, COPY - SCAN_LEN, COPY + n);
    SubSlice(all, |stream|, COPY + n, n, COPY + n);
    SubSlice(all, |stream|, COPY + n, COPY - SCAN_LEN, COPY + n);
    assert all[|stream|..|stream| + COPY + n] == all[|stream|..];
    assert all[|stream| + n..] == all[|stream| + n..|stream| + COPY + n];
    assert all[COPY + |stream| - SCAN_LEN..] == all[|stream| + (COPY - SCAN_LEN)..|stream| + COPY + n];
  }

  /** The history and the call's samples together are the end of the stream. */
  lemma GrownWindow(before: seq<Short>, samples: seq<Short>, mem: seq<Short>, at: nat, quiet: seq<Short>,
                    stream: seq<Short>)
    requires |quiet| == COPY <= at && at + |samples| <= |before|
    requires mem == before[..at] + samples + before[at + |samples|..]
    requires before[at - COPY..at] == (quiet + stream)[|stream|..]
    ensures |mem| == |before| && SCAN_LEN <= COPY
    ensures mem[at - COPY..at + |samples|] == (quiet + (stream + samples))[|stream|..]
    ensures |quiet + (stream + samples)| == COPY + |stream| + |samples|
  {
    var recent := (quiet + stream)[|stream|..];
    assert mem[at - COPY..at + |samples|] == recent + samples;
    assert quiet + (stream + samples) == (quiet + stream) + samples;
    assert ((quiet + stream) + samples)[|stream|..] == recent + samples;
  }

  /** That run, on a receiver: after three good calls the next full read no longer fits. */
  method StereoRun(coeffs: array<real>, buf: array<Short>, toShort: real -> Short) returns (rx: Receiver)
    requires coeffs.Length == 36 && buf.Length == 2 * DEVICE_FRAMES
    ensures rx.Valid() && rx.numCh == 2 && rx.bufpos == Position([100, DEVICE_FRAMES, DEVICE_FRAMES], 2)
    ensures !Fits(rx.bufpos, DEVICE_FRAMES, rx.numCh)
  {
    StereoGap();
    StereoMoves();
    hide *;
    var sq := new SquelchVars();
    rx := new Receiver(2, 0, coeffs);
    var aborted, events, windows := rx.Run(sq, buf, 100, toShort);
    aborted, events, windows := rx.Run(sq, buf, DEVICE_FRAMES, toShort);
    aborted, events, windows := rx.Run(sq, buf, DEVICE_FRAMES, toShort);
  }

  lemma StereoMoves()
    ensures BUFLEN == 16384 && DEVICE_FRAMES == 4096
    ensures Place(99, 2) == 198 && Place(DEVICE_FRAMES - 1, 2) == 2 * DEVICE_FRAMES - 2
    ensures Moved(COPY, 100, 2) == COPY && Moved(COPY + 100, DEVICE_FRAMES, 2) == COPY + 100
    ensures Moved(COPY + 100 + DEVICE_FRAMES, DEVICE_FRAMES, 2) == COPY + 100 + DEVICE_FRAMES
  {
  }
}
