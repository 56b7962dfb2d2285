/** Event delivery: the outgoing queue of src/out_json.c, its numbered form, the
    event window of web/app.js and the clients that poll it. */
module OutJson {
  /** struct que_t */
  class Que {
    const s: string
    var next: Que?

    constructor (s: string)
      ensures this.s == s && next == null
    {
      this.s := s;
      next := null;
    }
  }

  /** What a `struct que_t **` points to. */
  datatype Slot = Head | NextOf(q: Que)

  ghost function Following(nodes: seq<Que>, i: nat): Que? {
    if i + 1 < |nodes| then nodes[i + 1] else null
  }

  /** The list from `head`, each node once. */
  ghost predicate Listed(nodes: seq<Que>, head: Que?)
    reads nodes
  {
    && head == (if nodes == [] then null else nodes[0])
    && (forall i {:trigger nodes[i].next} :: 0 <= i < |nodes| ==> nodes[i].next == Following(nodes, i))
    && (forall i, j :: 0 <= i < j < |nodes| ==> nodes[i] != nodes[j])
  }

  ghost function Texts(nodes: seq<Que>): (r: seq<string>)
    ensures |r| == |nodes|
  {
    seq(|nodes|, i requires 0 <= i < |nodes| => nodes[i].s)
  }

  ghost function Last(nodes: seq<Que>): Slot {
    if nodes == [] then Head else NextOf(nodes[|nodes| - 1])
  }

  /** The form of one POST: a text per number, and how many there are. */
  datatype Field = What(s: string) | Numbered(n: nat, s: string) | Count(n: nat)

  function Numbers(texts: seq<string>, n: nat): (r: seq<Field>)
    requires n <= |texts|
    ensures |r| == n && forall i :: 0 <= i < n ==> r[i] == Numbered(i, texts[i])
  {
    seq(n, i requires 0 <= i < n => Numbered(i, texts[i]))
  }

  function Form(texts: seq<string>): seq<Field> {
    [What("edy")] + Numbers(texts, |texts|) + [Count(|texts|)]
  }

  /** req.body['c'] and req.body[i], as web/app.js reads them. */
  function FieldCount(form: seq<Field>): nat {
    if form == [] then 0
    else if form[0].Count? then form[0].n else FieldCount(form[1..])
  }

  function FieldText(form: seq<Field>, n: nat): string {
    if form == [] then ""
    else if form[0].Numbered? && form[0].n == n then form[0].s else FieldText(form[1..], n)
  }

  function Decoded(form: seq<Field>): seq<string> {
    seq(FieldCount(form), (i: nat) => FieldText(form, i))
  }

  lemma {:induction false} CountAt(form: seq<Field>, k: nat)
    requires k < |form| && form[k].Count? && forall i :: 0 <= i < k ==> !form[i].Count?
    ensures FieldCount(form) == form[k].n
    decreases k
  {
    if k > 0 { CountAt(form[1..], k - 1); }
  }

  lemma {:induction false} TextAt(form: seq<Field>, k: nat, n: nat)
    requires k < |form| && form[k].Numbered? && form[k].n == n
    requires forall i :: 0 <= i < k ==> !(form[i].Numbered? && form[i].n == n)
    ensures FieldText(form, n) == form[k].s
    decreases k
  {
    if k > 0 { TextAt(form[1..], k - 1, n); }
  }

  /** The server reads back exactly the texts of the batch, in order. */
  lemma FormRoundTrip(texts: seq<string>)
    ensures Decoded(Form(texts)) == texts
  {
    var form := Form(texts);
    CountAt(form, |texts| + 1);
    forall n | 0 <= n < |texts| ensures FieldText(form, n) == texts[n] {
      TextAt(form, n + 1, n);
    }
  }

  /** out_json_que and out_json_tail. */
  class Queue {
    var que: Que?
    var tail: Slot
    ghost var nodes: seq<Que>
    /** Everything ever pushed, and everything drained so far. */
    ghost var pushed: seq<string>
    ghost var drained: seq<string>

    ghost predicate Valid()
      reads this, nodes
    {
      Listed(nodes, que) && tail == Last(nodes) && pushed == drained + Texts(nodes)
    }

    constructor ()
      ensures Valid() && pushed == [] && drained == []
    {
      que, tail := null, Head;
      nodes, pushed, drained := [], [], [];
    }

    /** jsonout_push */
    method Push(s: string)
      requires Valid()
      modifies this, nodes
      ensures Valid() && drained == old(drained) && pushed == old(pushed) + [s]
      ensures exists q :: fresh(q) && nodes == old(nodes) + [q] && q.s == s
    {
      var q := new Que(s);
      ghost var was := nodes;
      match tail {
        case Head => que := q;
        case NextOf(last) => last.next := q;
      }
      tail := NextOf(q);
      nodes := nodes + [q];
      pushed := pushed + [s];
      forall i | 0 <= i < |nodes| ensures nodes[i].next == Following(nodes, i) {
        if i + 1 < |was| { assert nodes[i] == was[i] && was[i + 1] == nodes[i + 1]; }
      }
      assert Texts(nodes) == Texts(was) + [s];
    }

    /** The grab of jsonout_thread under the mutex: src/out_json.c:249-252. */
    method Drain() returns (out: Que?, ghost batch: seq<Que>)
      requires Valid()
      modifies this
      ensures Valid() && nodes == [] && pushed == old(pushed) && drained == old(drained) + Texts(batch)
      ensures batch == old(nodes) && Listed(batch, out)
    {
      out, batch := que, nodes;
      tail := Head;
      que := null;
      drained := drained + Texts(nodes);
      nodes := [];
    }
  }

  /** jsonout_post_all, the form it posts. */
  method PostAll(q: Que?, ghost batch: seq<Que>) returns (form: seq<Field>)
    requires Listed(batch, q)
    ensures form == Form(Texts(batch))
  {
    form := [What("edy")];
    var n := 0;
    var qp := q;
    while qp != null
      invariant n <= |batch| && qp == if n < |batch| then batch[n] else null
      invariant form == [What("edy")] + Numbers(Texts(batch), n)
      decreases |batch| - n
    {
      assert qp == batch[n] && Texts(batch)[n] == qp.s;
      assert Numbers(Texts(batch), n + 1) == Numbers(Texts(batch), n) + [Numbered(n, qp.s)];
      form := form + [Numbered(n, qp.s)];
      n := n + 1;
      qp := qp.next;
    }
    form := form + [Count(n)];
  }
}

module WebQueue {
  const EVQ_MAX := 10

  /** An entry of a response: an event, or what evq[i] gives for a bad i. */
  datatype Entry<E> = Undefined | Got(event: E)

  datatype Response<E> = Response(seqNo: nat, len: nat, ev: seq<Entry<E>>)

  /** parseInt's result. */
  datatype Parsed = NaN | Num(n: int)

  datatype Answer<E> = Now(r: Response<E>) | LongPoll(from: nat)

  function Min(a: nat, b: nat): nat { if a <= b then a else b }

  /** The window on all events so far. */
  function Window<E>(log: seq<E>): seq<E> {
    log[|log| - Min(EVQ_MAX, |log|)..]
  }

  /** Entry `i` of all events as the window shows it. */
  function Shown<E>(log: seq<E>, i: int): Entry<E> {
    if |log| - Min(EVQ_MAX, |log|) <= i < |log| then Got(log[i]) else Undefined
  }

  function GotAll<E>(events: seq<E>): (r: seq<Entry<E>>)
    ensures |r| == |events| && forall i :: 0 <= i < |r| ==> r[i] == Got(events[i])
  {
    seq(|events|, i requires 0 <= i < |events| => Got(events[i]))
  }

  /** The entries of a response to a client that has seen `from` events. */
  function Entries<E>(log: seq<E>, from: int): (r: seq<Entry<E>>)
    ensures from <= |log| ==>
              |r| == |log| - from && forall i {:trigger r[i]} :: 0 <= i < |r| ==> r[i] == Shown(log, from + i)
  {
    if from >= |log| then [] else seq(|log| - from, i requires 0 <= i < |log| - from => Shown(log, from + i))
  }

  /** A response is the events missed, in order, exactly when the client is not
      further behind than the window is long. */
  lemma EntriesExact<E>(log: seq<E>, from: nat)
    requires from <= |log|
    ensures Entries(log, from) == GotAll(log[from..]) <==> |log| - from <= Min(EVQ_MAX, |log|)
  {
    if |log| - from > Min(EVQ_MAX, |log|) {
      assert Entries(log, from)[0] == Shown(log, from + 0);
      assert GotAll(log[from..])[0] == Got(log[from]);
    }
  }

  /** Where handle_upd starts: a number it can use, or the whole window. */
  function StartAt<E>(log: seq<E>, p: Parsed): int {
    if p.Num? && p.n != 0 && p.n <= |log| then p.n else |log| - Min(EVQ_MAX, |log|)
  }

  /** A client without a number, or with one the server has not reached, is sent the whole window: the last ten
      events, or all of them; any other number is where it goes on. */
  lemma FreshStart<E>(log: seq<E>, p: Parsed)
    ensures var n := if |log| < 10 then |log| else 10;
            if p.NaN? || p.n == 0 || p.n > |log| then
              StartAt(log, p) == |log| - n && Entries(log, StartAt(log, p)) == GotAll(log[|log| - n..])
            else StartAt(log, p) == p.n
  {
  }

  /** web/app.js: evq, evq_len, evq_seq and the one-shot listeners. */
  class Server<E> {
    var evq: seq<E>
    var evqLen: nat
    var evqSeq: nat
    var listeners: seq<nat>
    ghost var log: seq<E>

    ghost predicate Valid()
      reads this
    {
      && evqSeq == |log| && evq == Window(log) && evqLen == |evq|
      && forall i :: 0 <= i < |listeners| ==> listeners[i] <= |log|
    }

    constructor ()
      ensures Valid() && log == [] && listeners == []
    {
      evq, evqLen, evqSeq, listeners, log := [], 0, 0, [], [];
    }

    /** The first loop of handle_push. */
    method Append(batch: seq<E>)
      modifies this`evq, this`evqLen, this`evqSeq
      ensures evq == old(evq) + batch && evqLen == old(evqLen) + |batch| && evqSeq == old(evqSeq) + |batch|
    {
      for i := 0 to |batch|
        invariant evq == old(evq) + batch[..i] && evqLen == old(evqLen) + i && evqSeq == old(evqSeq) + i
      {
        evq := evq + [batch[i]];
        evqLen := evqLen + 1;
        evqSeq := evqSeq + 1;
      }
      assert batch[..|batch|] == batch;
    }

    /** The second loop: the oldest events expire. */
    method Expire()
      requires evqLen == |evq|
      modifies this`evq, this`evqLen
      ensures evqLen == |evq| == Min(EVQ_MAX, old(|evq|)) && evq == old(evq)[old(|evq|) - |evq|..]
    {
      while evqLen > EVQ_MAX
        invariant evqLen == |evq| <= old(|evq|) && evqLen >= Min(EVQ_MAX, old(|evq|))
                && evq == old(evq)[old(|evq|) - |evq|..]
      {
        evq := evq[1..];
        evqLen := evqLen - 1;
      }
    }

    /** handle_push: the events enter the window, and every waiting client is answered. */
    method HandlePush(batch: seq<E>) returns (answers: seq<Response<E>>)
      requires Valid()
      modifies this
      ensures Valid() && log == old(log) + batch && listeners == []
      ensures |answers| == |old(listeners)|
      ensures forall i :: 0 <= i < |answers| ==> answers[i] == Response(|log|, Min(EVQ_MAX, |log|), Entries(log,
              old(listeners)[i]))
    {
      ghost var l0 := log;
      Append(batch);
      Expire();
      log := log + batch;
      WindowMoves(l0, batch);
      answers := [];
      var waiting := listeners;
      listeners := [];
      for i := 0 to |waiting|
        invariant Valid() && log == l0 + batch && listeners == [] && |answers| == i && waiting == old(listeners)
        invariant forall k :: 0 <= k < i ==> answers[k] == Response(|log|, Min(EVQ_MAX, |log|), Entries(log,
                waiting[k]))
      {
        var r := UpdResponse(waiting[i]);
        answers := answers + [r];
      }
    }

    /** last_events */
    method LastEvents(n: nat) returns (a: seq<Entry<E>>)
      requires Valid()
      ensures a == Entries(log, |log| - n)
    {
      a := [];
      var l: int := |evq|;
      var i: int := l - n;
      while i < l
        invariant l - n <= i <= l && |a| == i - (l - n)
        invariant forall k :: 0 <= k < |a| ==> a[k] == Shown(log, |log| - n + k)
      {
        a := a + [if 0 <= i then Got(evq[i]) else Undefined];
        i := i + 1;
      }
    }

    /** upd_response */
    method UpdResponse(from: int) returns (r: Response<E>)
      requires Valid()
      ensures r == Response(|log|, Min(EVQ_MAX, |log|), Entries(log, from))
    {
      var late := evqSeq - from;
      var ev := [];
      if late > 0 {
        ev := LastEvents(late);
      }
      r := Response(evqSeq, evqLen, ev);
    }

    /** handle_upd: an answer now, or a listener for the next push. */
    method HandleUpd(p: Parsed) returns (a: Answer<E>)
      requires Valid()
      modifies this`listeners
      ensures Valid() && log == old(log)
      ensures var from := StartAt(log, p);
              if from == |log| then a == LongPoll(from) && listeners == old(listeners) + [from]
              else a == Now(Response(|log|, Min(EVQ_MAX, |log|), Entries(log, from))) && listeners == old(listeners)
    {
      var from := Start(p);
      if evqSeq - from == 0 {
        listeners := listeners + [from];
        return LongPoll(from);
      }
      var r := UpdResponse(from);
      a := Now(r);
    }

    /** The number handle_upd answers from: web/app.js:98-108. */
    method Start(p: Parsed) returns (from: int)
      requires Valid()
      ensures from == StartAt(log, p)
    {
      if p.Num? && p.n != 0 && p.n <= evqSeq {
        from := p.n;
      } else if evqSeq > 0 {
        from := evqSeq - (if evqLen > EVQ_MAX then EVQ_MAX else evqLen);
      } else {
        from := 0;
      }
    }

    /** A client that hangs up while it waits. */
    method Hangup(i: nat)
      requires Valid() && i < |listeners|
      modifies this`listeners
      ensures Valid() && listeners == old(listeners[..i] + listeners[i + 1..])
    {
      listeners := listeners[..i] + listeners[i + 1..];
    }
  }

  lemma WindowMoves<E>(log: seq<E>, batch: seq<E>)
    ensures var all := Window(log) + batch;
            all[|all| - Min(EVQ_MAX, |all|)..] == Window(log + batch)
                    && Min(EVQ_MAX, |all|) == Min(EVQ_MAX, |log + batch|)
  {
  }

  // ----- a client that polls with what it was last told -----

  datatype Waiting = Idle | For(from: nat)

  /** `seqNo` is the seq of the last response, NaN before the first; `first` is
      the number of the first event it was sent; `got` is all it was sent. */
  datatype Client<E> = Client(seqNo: Parsed, waiting: Waiting, first: nat, got: seq<Entry<E>>)

  datatype Act<E> = Push(batch: seq<E>) | Poll

  function Connected<E>(): Client<E> { Client(NaN, Idle, 0, []) }

  function Served<E>(log: seq<E>, c: Client<E>, from: nat): Client<E> {
    c.(seqNo := Num(|log|), waiting := Idle, got := c.got + Entries(log, from))
  }

  /** One request, answered at once or left waiting. */
  function Polled<E>(log: seq<E>, c: Client<E>): Client<E>
    requires c.seqNo.Num? ==> c.seqNo.n >= 0
  {
    if c.waiting.For? then c
    else
      var from := StartAt(log, c.seqNo);
      var d := if c.seqNo.NaN? then c.(first := from) else c;
      if from == |log| then d.(waiting := For(from)) else Served(log, d, from)
  }

  function Pushed<E>(log: seq<E>, c: Client<E>): Client<E> {
    if c.waiting.For? then Served(log, c, c.waiting.from) else c
  }

  /** A request or a push that answers one finds the client no further behind
      than the window is long. */
  ghost predicate OnTime<E>(log: seq<E>, c: Client<E>) {
    && (c.seqNo.Num? ==> |log| - c.seqNo.n <= Min(EVQ_MAX, |log|))
    && (c.waiting.For? ==> |log| - c.waiting.from <= Min(EVQ_MAX, |log|))
  }

  /** The events, and the client, after a run. */
  function After<E>(acts: seq<Act<E>>): (r: (seq<E>, Client<E>))
    ensures r.1.seqNo.Num? ==> 0 <= r.1.seqNo.n
    decreases |acts|
  {
    if acts == [] then ([], Connected())
    else
      var (log, c) := After(acts[..|acts| - 1]);
      match acts[|acts| - 1]
      case Push(batch) => (log + batch, Pushed(log + batch, c))
      case Poll => (log, Polled(log, c))
  }

  /** So the first answer to a client that comes after the first event is the whole window. */
  lemma FirstAnswer<E>(log: seq<E>)
    requires log != []
    ensures var n, c := if |log| < 10 then |log| else 10, Polled(log, Connected());
            c.got == GotAll(log[|log| - n..]) && c.seqNo == Num(|log|) && c.waiting.Idle? && c.first == |log| - n
  {
    FreshStart(log, NaN);
  }

  ghost predicate AlwaysOnTime<E>(acts: seq<Act<E>>)
    decreases |acts|
  {
    acts != [] ==>
      var (log, c) := After(acts[..|acts| - 1]);
      && AlwaysOnTime(acts[..|acts| - 1])
      && match acts[|acts| - 1]
         case Push(batch) => c.waiting.For? ==> OnTime(log + batch, c)
         case Poll => c.waiting.Idle? ==> OnTime(log, c)
  }

  /** Everything from the first event sent to the last one told of, each once and in order. */
  ghost predicate UpToDate<E>(log: seq<E>, c: Client<E>) {
    && (c.seqNo.NaN? ==> c.got == [])
    && (c.seqNo.Num? ==> 0 <= c.first <= c.seqNo.n <= |log| && c.got == GotAll(log[c.first..c.seqNo.n]))
    && (c.waiting.For? ==> c.waiting.from == |log| && if c.seqNo.Num? then c.seqNo.n == |log| else c.first == |log|)
  }

  lemma ServedUpToDate<E>(log: seq<E>, c: Client<E>, from: nat)
    requires from <= |log| && |log| - from <= Min(EVQ_MAX, |log|)
    requires if c.seqNo.NaN? then c.got == [] && c.first == from
             else 0 <= c.first <= from && c.got == GotAll(log[c.first..from])
    ensures UpToDate(log, Served(log, c, from))
  {
    EntriesExact(log, from);
    var a, b := log[c.first..from], log[from..];
    assert log[c.first..|log|] == a + b;
    assert GotAll(a + b) == GotAll(a) + GotAll(b);
    if c.seqNo.NaN? { assert a == []; }
  }

  lemma PollKeeps<E>(log: seq<E>, c: Client<E>)
    requires UpToDate(log, c) && (c.waiting.Idle? ==> OnTime(log, c))
    ensures UpToDate(log, Polled(log, c))
  {
    if c.waiting.Idle? {
      var from := StartAt(log, c.seqNo);
      var d := if c.seqNo.NaN? then c.(first := from) else c;
      if from != |log| { ServedUpToDate(log, d, from); }
    }
  }

  lemma PushKeeps<E>(log: seq<E>, batch: seq<E>, c: Client<E>)
    requires UpToDate(log, c) && (c.waiting.For? ==> OnTime(log + batch, c))
    ensures UpToDate(log + batch, Pushed(log + batch, c))
  {
    var all := log + batch;
    if c.seqNo.Num? { assert all[c.first..c.seqNo.n] == log[c.first..c.seqNo.n]; }
    if c.waiting.For? {
      var from := c.waiting.from;
      ServedUpToDate(all, c, from);
    }
  }

  /** In any run of pushes and polls in which no answer finds the client further
      behind than the window is long, it is sent every event from its first on,
      each once, in order, through long polls too. */
  lemma {:induction false} DeliveredInOrder<E>(acts: seq<Act<E>>)
    requires AlwaysOnTime(acts)
    ensures var (log, c) := After(acts); UpToDate(log, c)
    decreases |acts|
  {
    if acts != [] {
      var rest := acts[..|acts| - 1];
      var (log, c) := After(rest);
      DeliveredInOrder(rest);
      match acts[|acts| - 1]
      case Push(batch) => PushKeeps(log, batch, c);
      case Poll => PollKeeps(log, c);
    }
  }

  /** A client that was sent a hole, or told a number beyond what it was sent. */
  ghost predicate Missed<E>(log: seq<E>, c: Client<E>) {
    && c.seqNo.Num? && c.first <= c.seqNo.n <= |log|
    && (c.waiting.For? ==> c.seqNo.n <= c.waiting.from <= |log|)
    && (Undefined in c.got || |c.got| < c.seqNo.n - c.first)
  }

  lemma MissedIsNotUpToDate<E>(log: seq<E>, c: Client<E>)
    requires Missed(log, c)
    ensures !UpToDate(log, c)
  {
  }

  lemma ServedMissed<E>(log: seq<E>, c: Client<E>, from: nat)
    requires c.seqNo.Num? && 0 <= c.seqNo.n <= from <= |log| && c.first <= c.seqNo.n
    requires Undefined in c.got || |c.got| < c.seqNo.n - c.first
    ensures Missed(log, Served(log, c, from))
  {
  }

  /** What was missed is never made up for. */
  lemma PollMisses<E>(log: seq<E>, c: Client<E>)
    requires Missed(log, c)
    ensures Missed(log, Polled(log, c))
  {
    if c.waiting.Idle? && StartAt(log, c.seqNo) != |log| {
      ServedMissed(log, c, StartAt(log, c.seqNo));
    }
  }

  lemma PushMisses<E>(log: seq<E>, batch: seq<E>, c: Client<E>)
    requires Missed(log, c)
    ensures Missed(log + batch, Pushed(log + batch, c))
  {
    if c.waiting.For? { ServedMissed(log + batch, c, c.waiting.from); }
  }

  lemma ServedHole<E>(log: seq<E>, c: Client<E>, from: nat)
    requires c.first <= |log| && |log| - from > Min(EVQ_MAX, |log|)
    ensures Missed(log, Served(log, c, from))
  {
    var e := Entries(log, from);
    assert e[0] == Shown(log, from + 0) == Undefined;
    assert (c.got + e)[|c.got|] == Undefined;
  }

  lemma LatePoll<E>(log: seq<E>, c: Client<E>)
    requires UpToDate(log, c) && c.waiting.Idle? && !OnTime(log, c)
    ensures Missed(log, Polled(log, c))
  {
    if c.seqNo.n != 0 { ServedHole(log, c, c.seqNo.n); }
  }

  lemma LatePush<E>(log: seq<E>, batch: seq<E>, c: Client<E>)
    requires UpToDate(log, c) && c.waiting.For? && !OnTime(log + batch, c)
    ensures Missed(log + batch, Pushed(log + batch, c))
  {
    ServedHole(log + batch, c, c.waiting.from);
  }

  lemma {:induction false} LateMisses<E>(acts: seq<Act<E>>)
    requires !AlwaysOnTime(acts)
    ensures var (log, c) := After(acts); Missed(log, c)
    decreases |acts|
  {
    var rest, last := acts[..|acts| - 1], acts[|acts| - 1];
    var (log, c) := After(rest);
    if AlwaysOnTime(rest) {
      DeliveredInOrder(rest);
      if last.Push? { LatePush(log, last.batch, c); } else { LatePoll(log, c); }
    } else {
      LateMisses(rest);
      if last.Push? { PushMisses(log, last.batch, c); } else { PollMisses(log, c); }
    }
  }

  /** And only then: one answer to a client further behind, and what it was sent is never again
      the events from its first on. */
  lemma DeliveredJustWhenOnTime<E>(acts: seq<Act<E>>)
    ensures var (log, c) := After(acts); UpToDate(log, c) <==> AlwaysOnTime(acts)
  {
    var (log, c) := After(acts);
    if AlwaysOnTime(acts) {
      DeliveredInOrder(acts);
    } else {
      LateMisses(acts);
      MissedIsNotUpToDate(log, c);
    }
  }

  /** A client that is told of one event, and asks again only after eleven more: it is sent a hole
      where the second event was. */
  lemma LateClient<E>(e: E)
    ensures var acts := [Push([e]), Poll, Push(seq(11, _ => e)), Poll];
            && !AlwaysOnTime(acts)
            && After(acts).1.got == [Got(e), Undefined] + GotAll(seq(10, _ => e))
  {
    var many := seq(EVQ_MAX + 1, _ => e);
    var a1: seq<Act<E>> := [Push([e])];
    var a2, a3, a4 := a1 + [Poll], a1 + [Poll] + [Push(many)], a1 + [Poll] + [Push(many)] + [Poll];
    assert a1[..0] == [] && a2[..1] == a1 && a3[..2] == a2 && a4[..3] == a3;
    assert a4 == [Push([e]), Poll, Push(many), Poll];
    var log := [e] + many;
    assert After<E>([]) == ([], Connected());
    assert [] + [e] == [e];
    assert After(a1) == ([e], Connected());
    assert Entries([e], 0) == [Got(e)];
    assert After(a2).0 == [e] && After(a2).1.seqNo == Num(1) && After(a2).1.got == [Got(e)];
    assert After(a3) == (log, After(a2).1);
    assert Entries(log, 1) == [Undefined] + GotAll(seq(EVQ_MAX, _ => e));
    assert !OnTime(log, After(a3).1);
  }

  // ----- the server and all its clients -----

  /** What happens to the server: events are posted, or one of the clients asks. */
  datatype Deed<E> = Post(batch: seq<E>) | Ask(who: nat)

  /** The deeds as one client sees them. */
  function Seen<E>(deeds: seq<Deed<E>>, who: nat): seq<Act<E>> {
    if deeds == [] then []
    else
      var last := deeds[|deeds| - 1];
      Seen(deeds[..|deeds| - 1], who)
      + if last.Post? then [Push(last.batch)] else if last.who == who then [Poll] else []
  }

  lemma SeenMore<E>(deeds: seq<Deed<E>>, i: nat, who: nat)
    requires i < |deeds|
    ensures var d, acts := deeds[i], Seen(deeds[..i], who);
            && (d.Post? ==> Seen(deeds[..i + 1], who) == acts + [Push(d.batch)])
            && (d.Ask? ==> Seen(deeds[..i + 1], who) == if d.who == who then acts + [Poll] else acts)
  {
    assert deeds[..i + 1][..i] == deeds[..i];
  }

  lemma AfterMore<E>(acts: seq<Act<E>>, act: Act<E>)
    ensures var (log, c) := After(acts);
            After(acts + [act])
            == match act case Push(batch) => (log + batch, Pushed(log + batch, c)) case Poll => (log, Polled(log, c))
  {
    assert (acts + [act])[..|acts|] == acts;
  }

  /** One more deed, seen by one client. */
  lemma Followed<E>(deeds: seq<Deed<E>>, i: nat, who: nat, log: seq<E>, c: Client<E>)
    requires i < |deeds| && After(Seen(deeds[..i], who)) == (log, c)
    ensures c.seqNo.Num? ==> 0 <= c.seqNo.n
    ensures var d := deeds[i];
            After(Seen(deeds[..i + 1], who))
            == if d.Post? then (log + d.batch, Pushed(log + d.batch, c))
               else if d.who == who && c.waiting.Idle? then (log, Polled(log, c)) else (log, c)
  {
    hide After;
    SeenMore(deeds, i, who);
    var d, acts := deeds[i], Seen(deeds[..i], who);
    if d.Post? { AfterMore(acts, Push(d.batch)); } else { AfterMore(acts, Poll); }
  }

  lemma NothingSeen<E>(deeds: seq<Deed<E>>, who: nat)
    ensures After(Seen(deeds[..0], who)) == ([], Connected())
  {
  }

  /** The listeners are those of the waiting clients: `owners[k]` waits behind listener `k`. */
  ghost predicate Tuned<E>(listeners: seq<nat>, owners: seq<nat>, clients: seq<Client<E>>) {
    && |owners| == |listeners|
    && (forall k :: 0 <= k < |owners| ==> owners[k] < |clients| && clients[owners[k]].waiting == For(listeners[k]))
    && (forall k, l :: 0 <= k < l < |owners| ==> owners[k] != owners[l])
    && (forall i :: 0 <= i < |clients| && clients[i].waiting.For? ==> i in owners)
  }

  /** A client takes a response. */
  function Told<E>(c: Client<E>, r: Response<E>): Client<E> {
    c.(seqNo := Num(r.seqNo), waiting := Idle, got := c.got + r.ev)
  }

  /** A client takes what its request was answered with. */
  function Answered<E>(c: Client<E>, a: Answer<E>): Client<E> {
    match a
    case LongPoll(from) => (if c.seqNo.NaN? then c.(first := from) else c).(waiting := For(from))
    case Now(r) => Told(if c.seqNo.NaN? && |r.ev| <= r.seqNo then c.(first := r.seqNo - |r.ev|) else c, r)
  }

  /** One request of an idle client. */
  method AskOnce<E>(s: Server<E>, c: Client<E>) returns (c': Client<E>)
    requires s.Valid() && c.waiting.Idle? && (c.seqNo.Num? ==> c.seqNo.n >= 0)
    modifies s`listeners
    ensures s.Valid() && s.log == old(s.log) && c' == Polled(s.log, c)
    ensures s.listeners == old(s.listeners) + if c'.waiting.For? then [c'.waiting.from] else []
  {
    var a := s.HandleUpd(c.seqNo);
    c' := Answered(c, a);
  }

  /** One post: every waiting client takes its answer. */
  method PostOnce<E>(s: Server<E>, batch: seq<E>, clients: seq<Client<E>>, owners: seq<nat>)
    returns (clients': seq<Client<E>>)
    requires s.Valid() && Tuned(s.listeners, owners, clients)
    modifies s
    ensures s.Valid() && s.log == old(s.log) + batch && s.listeners == [] && Tuned([], [], clients')
    ensures |clients'| == |clients| && forall i :: 0 <= i < |clients| ==> clients'[i] == Pushed(s.log, clients[i])
  {
    ghost var waiting := s.listeners;
    var answers := s.HandlePush(batch);
    clients' := clients;
    for k := 0 to |owners|
      invariant s.Valid() && s.log == old(s.log) + batch && s.listeners == []
      invariant |clients'| == |clients|
      invariant forall i :: 0 <= i < |clients| ==>
                  clients'[i] == if i in owners[..k] then Pushed(s.log, clients[i]) else clients[i]
    {
      assert owners[..k + 1] == owners[..k] + [owners[k]];
      assert answers[k].ev == Entries(s.log, waiting[k]);
      clients' := clients'[owners[k] := Told(clients'[owners[k]], answers[k])];
    }
    assert owners[..|owners|] == owners;
  }

  /** Any posts and requests of any number of clients, served by the server: every client ends as its own run says,
      so it has been sent all events, each once and in order, if and only if it was always on time. */
  method Deliver<E>(s: Server<E>, number: nat, deeds: seq<Deed<E>>) returns (clients: seq<Client<E>>)
    requires s.Valid() && s.log == [] && s.listeners == []
    requires forall d :: d in deeds && d.Ask? ==> d.who < number
    modifies s
    ensures s.Valid() && |clients| == number
    ensures forall i :: 0 <= i < number ==> After(Seen(deeds, i)) == (s.log, clients[i])
    ensures forall i :: 0 <= i < number ==> (UpToDate(s.log, clients[i]) <==> AlwaysOnTime(Seen(deeds, i)))
  {
    hide After, AlwaysOnTime, UpToDate, Polled, Pushed, Seen;
    clients := seq(number, _ => Connected());
    var owners: seq<nat> := [];
    forall i | 0 <= i < number ensures After(Seen(deeds[..0], i)) == ([], Connected()) { NothingSeen(deeds, i); }
    for k := 0 to |deeds|
      invariant s.Valid() && |clients| == number && Tuned(s.listeners, owners, clients)
      invariant forall i :: 0 <= i < number ==> After(Seen(deeds[..k], i)) == (s.log, clients[i])
    {
      ghost var log, was := s.log, clients;
      var d := deeds[k];
      if d.Post? {
        clients := PostOnce(s, d.batch, clients, owners);
        owners := [];
      } else if clients[d.who].waiting.Idle? {
        var c := AskOnce(s, clients[d.who]);
        if c.waiting.For? { owners := owners + [d.who]; }
        clients := clients[d.who := c];
      }
      forall i | 0 <= i < number ensures After(Seen(deeds[..k + 1], i)) == (s.log, clients[i]) {
        Followed(deeds, k, i, log, was[i]);
      }
    }
    assert deeds[..|deeds|] == deeds;
    forall i | 0 <= i < number ensures UpToDate(s.log, clients[i]) <==> AlwaysOnTime(Seen(deeds, i)) {
      DeliveredJustWhenOnTime(Seen(deeds, i));
    }
  }
}
