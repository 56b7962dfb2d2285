/** src/cache.c: the latest report of every ship, in a splay tree by MMSI. */
module Cache {
  import opened SplayTrees
  import opened SplayLinks
  import opened SplayPool
  import opened SplayHeap

  type Int = i: int | -0x8000_0000 <= i < 0x8000_0000

  /** A C string that may be missing. */
  datatype Str = Missing | Text(s: string)

  /** What a struct cache_ent holds; times are numbers, floats are reals. */
  datatype Entry = Entry(
    mmsi: int, receivedPos: int, lat: real, lon: real, hdg: int, course: real, sog: real, navstat: int,
    receivedData: int, imo: int, callsign: Str, name: Str, destination: Str,
    shiptype: int, a: int, b: int, c: int, d: int, draught: real,
    receivedPersons: int, persons: int)

  /** struct cache_ent, its members as one record; an assignment to a member
      updates the record in place. */
  class CacheEnt {
    var now: Entry

    /** The memset and the assignments of cache_get. */
    constructor ()
      ensures now == Blank()
    {
      now := Blank();
    }
  }

  function Blank(): Entry {
    Entry(0, 0, 0.0, 0.0, -1, -1.0, -1.0, -1, 0, -1, Missing, Missing, Missing, -1, -1, -1, -1, -1, 0.0, 0, -1)
  }

  /** The arguments of one cache_* call after the MMSI. */
  datatype Update =
    | Position(t: int, navstat: int, lat: real, lon: real, hdg: int, course: real, sog: real)
    | VesselData(t: int, imo: int, callsign: string, name: string, destination: string,
                 shiptype: int, a: int, b: int, c: int, d: int, draught: real)
    | VesselDataB(t: int, callsign: string, shiptype: int, a: int, b: int, c: int, d: int)
    | VesselDataBB(t: int, shiptype: int, a: int, b: int, c: int, d: int)
    | VesselName(t: int, name: string, destination: string)
    | Persons(t: int, persons: int)

  datatype Report = Report(mmsi: Int, update: Update)

  /** What a report makes of an entry. */
  function Updated(e: Entry, r: Report): Entry {
    match r.update
    case Position(t, navstat, lat, lon, hdg, course, sog) =>
      e.(mmsi := r.mmsi, receivedPos := t, navstat := navstat, lat := lat, lon := lon, hdg := hdg,
         course := course, sog := sog)
    case VesselData(t, imo, callsign, name, destination, shiptype, a, b, c, d, draught) =>
      e.(mmsi := r.mmsi, receivedData := t, imo := imo, callsign := Text(callsign), name := Text(name),
         destination := Text(destination), shiptype := shiptype, a := a, b := b, c := c, d := d, draught := draught)
    case VesselDataB(t, callsign, shiptype, a, b, c, d) =>
      e.(mmsi := r.mmsi, receivedData := t, imo := 0, callsign := Text(callsign), shiptype := shiptype,
         a := a, b := b, c := c, d := d, draught := 0.0)
    case VesselDataBB(t, shiptype, a, b, c, d) =>
      e.(mmsi := r.mmsi, receivedData := t, imo := 0, shiptype := shiptype, a := a, b := b, c := c, d := d,
              draught := 0.0)
    case VesselName(t, name, destination) =>
      e.(mmsi := r.mmsi, receivedData := t, name := Text(name), destination := Text(destination))
    case Persons(t, persons) =>
      e.(mmsi := r.mmsi, receivedPersons := t, persons := persons)
  }

  /** The assignments that follow cache_get in each of the cache_* calls. */
  method Amend(e: CacheEnt, r: Report)
    modifies e`now
    ensures e.now == Updated(old(e.now), r)
  {
    match r.update
    case Position(t, navstat, lat, lon, hdg, course, sog) =>
      e.now := e.now.(mmsi := r.mmsi);
      e.now := e.now.(receivedPos := t);
      e.now := e.now.(mmsi := r.mmsi);
      e.now := e.now.(lat := lat);
      e.now := e.now.(lon := lon);
      e.now := e.now.(hdg := hdg);
      e.now := e.now.(course := course);
      e.now := e.now.(sog := sog);
      e.now := e.now.(navstat := navstat);
    case VesselData(t, imo, callsign, name, destination, shiptype, a, b, c, d, draught) =>
      e.now := e.now.(mmsi := r.mmsi);
      e.now := e.now.(imo := imo);
      e.now := e.now.(receivedData := t);
      if e.now.callsign != Text(callsign) {
        e.now := e.now.(callsign := Text(callsign));
      }
      if e.now.name != Text(name) {
        e.now := e.now.(name := Text(name));
      }
      if e.now.destination != Text(destination) {
        e.now := e.now.(destination := Text(destination));
      }
      e.now := e.now.(shiptype := shiptype);
      e.now := e.now.(a := a, b := b, c := c, d := d);
      e.now := e.now.(draught := draught);
    case VesselDataB(t, callsign, shiptype, a, b, c, d) =>
      e.now := e.now.(mmsi := r.mmsi);
      e.now := e.now.(imo := 0);
      e.now := e.now.(receivedData := t);
      if e.now.callsign != Text(callsign) {
        e.now := e.now.(callsign := Text(callsign));
      }
      e.now := e.now.(shiptype := shiptype);
      e.now := e.now.(a := a, b := b, c := c, d := d);
      e.now := e.now.(draught := 0.0);
    case VesselDataBB(t, shiptype, a, b, c, d) =>
      e.now := e.now.(mmsi := r.mmsi);
      e.now := e.now.(imo := 0);
      e.now := e.now.(receivedData := t);
      e.now := e.now.(shiptype := shiptype);
      e.now := e.now.(a := a, b := b, c := c, d := d);
      e.now := e.now.(draught := 0.0);
    case VesselName(t, name, destination) =>
      e.now := e.now.(mmsi := r.mmsi);
      e.now := e.now.(receivedData := t);
      if e.now.name != Text(name) {
        e.now := e.now.(name := Text(name));
      }
      if e.now.destination != Text(destination) {
        e.now := e.now.(destination := Text(destination));
      }
    case Persons(t, persons) =>
      e.now := e.now.(mmsi := r.mmsi);
      e.now := e.now.(receivedPersons := t);
      e.now := e.now.(persons := persons);
  }

  /** (spkey_t)mmsi */
  function KeyOf(mmsi: Int): Key {
    if mmsi < 0 then mmsi + 0x1_0000_0000 else mmsi
  }

  /** The fold of the ship's own reports. */
  function Latest(key: Key, log: seq<Report>): Entry {
    if log == [] then Blank()
    else
      var e, last := Latest(key, log[..|log| - 1]), log[|log| - 1];
      if KeyOf(last.mmsi) == key then Updated(e, last) else e
  }

  /** The ship's own reports, in order. */
  function Own(mmsi: Int, log: seq<Report>): seq<Report> {
    if log == [] then []
    else
      var own, last := Own(mmsi, log[..|log| - 1]), log[|log| - 1];
      if last.mmsi == mmsi then own + [last] else own
  }

  /** A ship's entry depends on its own reports alone, and on all of them. */
  lemma {:induction false} LatestIsOwn(mmsi: Int, log: seq<Report>)
    ensures Latest(KeyOf(mmsi), log) == Latest(KeyOf(mmsi), Own(mmsi, log))
    decreases |log|
  {
    if log != [] {
      var rest, last := log[..|log| - 1], log[|log| - 1];
      LatestIsOwn(mmsi, rest);
      if last.mmsi == mmsi {
        assert (Own(mmsi, rest) + [last])[..|Own(mmsi, rest)|] == Own(mmsi, rest);
      }
    }
  }

  /** The key is the MMSI in 32 bits. */
  lemma KeyIs(mmsi: Int)
    ensures 0 <= KeyOf(mmsi) < 0x1_0000_0000 && (KeyOf(mmsi) - mmsi) % 0x1_0000_0000 == 0
  {
  }

  /** No report for the ship that stands at `from` or later is of one of these kinds. */
  predicate NoneFrom(key: Key, log: seq<Report>, from: nat, kind: Update -> bool) {
    forall j :: from <= j < |log| ==> KeyOf(log[j].mmsi) != key || !kind(log[j].update)
  }

  /** The reports that give a name and a destination, a call sign, a hull, or any of these. */
  predicate Names(u: Update) { u.VesselData? || u.VesselName? }

  predicate Calls(u: Update) { u.VesselData? || u.VesselDataB? }

  predicate Hulls(u: Update) { u.VesselData? || u.VesselDataB? || u.VesselDataBB? }

  predicate Data(u: Update) { !u.Position? && !u.Persons? }

  /** The last position report of a ship is what its entry has of a position. */
  lemma {:induction false} PositionLasts(key: Key, log: seq<Report>, i: nat)
    requires i < |log| && KeyOf(log[i].mmsi) == key && log[i].update.Position?
    requires NoneFrom(key, log, i + 1, (u: Update) => u.Position?)
    ensures var e, u := Latest(key, log), log[i].update;
            && e.receivedPos == u.t && e.lat == u.lat && e.lon == u.lon && e.hdg == u.hdg
            && e.course == u.course && e.sog == u.sog && e.navstat == u.navstat
    decreases |log|
  {
    if i < |log| - 1 { PositionLasts(key, log[..|log| - 1], i); }
  }

  /** The last of the two kinds of reports with a name gives the name and the destination. */
  lemma {:induction false} NameLasts(key: Key, log: seq<Report>, i: nat)
    requires i < |log| && KeyOf(log[i].mmsi) == key && Names(log[i].update)
    requires NoneFrom(key, log, i + 1, Names)
    ensures var e, u := Latest(key, log), log[i].update; e.name == Text(u.name) && e.destination == Text(u.destination)
    decreases |log|
  {
    if i < |log| - 1 { NameLasts(key, log[..|log| - 1], i); }
  }

  lemma {:induction false} CallsignLasts(key: Key, log: seq<Report>, i: nat)
    requires i < |log| && KeyOf(log[i].mmsi) == key && Calls(log[i].update)
    requires NoneFrom(key, log, i + 1, Calls)
    ensures Latest(key, log).callsign == Text(log[i].update.callsign)
    decreases |log|
  {
    if i < |log| - 1 { CallsignLasts(key, log[..|log| - 1], i); }
  }

  /** The last of the three kinds with a hull gives type and measures; the two of class B clear the IMO number and
      the draught. */
  lemma {:induction false} HullLasts(key: Key, log: seq<Report>, i: nat)
    requires i < |log| && KeyOf(log[i].mmsi) == key && Hulls(log[i].update)
    requires NoneFrom(key, log, i + 1, Hulls)
    ensures var e, u := Latest(key, log), log[i].update;
            && e.shiptype == u.shiptype && e.a == u.a && e.b == u.b && e.c == u.c && e.d == u.d
            && e.imo == (if u.VesselData? then u.imo else 0)
            && e.draught == (if u.VesselData? then u.draught else 0.0)
    decreases |log|
  {
    if i < |log| - 1 { HullLasts(key, log[..|log| - 1], i); }
  }

  lemma {:induction false} DataTimeLasts(key: Key, log: seq<Report>, i: nat)
    requires i < |log| && KeyOf(log[i].mmsi) == key && Data(log[i].update)
    requires NoneFrom(key, log, i + 1, Data)
    ensures Latest(key, log).receivedData == log[i].update.t
    decreases |log|
  {
    if i < |log| - 1 { DataTimeLasts(key, log[..|log| - 1], i); }
  }

  lemma {:induction false} PersonsLasts(key: Key, log: seq<Report>, i: nat)
    requires i < |log| && KeyOf(log[i].mmsi) == key && log[i].update.Persons?
    requires NoneFrom(key, log, i + 1, (u: Update) => u.Persons?)
    ensures var e, u := Latest(key, log), log[i].update; e.receivedPersons == u.t && e.persons == u.persons
    decreases |log|
  {
    if i < |log| - 1 { PersonsLasts(key, log[..|log| - 1], i); }
  }

  /** Every report names the ship. */
  lemma {:induction false} MmsiLasts(mmsi: Int, log: seq<Report>, i: nat)
    requires i < |log| && log[i].mmsi == mmsi
    ensures Latest(KeyOf(mmsi), log).mmsi == mmsi
    decreases |log|
  {
    if i < |log| - 1 { MmsiLasts(mmsi, log[..|log| - 1], i); }
  }

  /** A report leaves the fields of the other kinds as they are. */
  lemma OthersStay(e: Entry, r: Report)
    ensures var f, u := Updated(e, r), r.update;
            && (!u.Position? ==> SamePosition(e, f)) && (!u.Persons? ==> SamePersons(e, f))
            && (!Names(u) ==> f.name == e.name && f.destination == e.destination)
            && (!Calls(u) ==> f.callsign == e.callsign) && (!Hulls(u) ==> SameHull(e, f))
            && (!Data(u) ==> f.receivedData == e.receivedData)
  {
  }

  predicate SamePosition(e: Entry, f: Entry) {
    && f.receivedPos == e.receivedPos && f.lat == e.lat && f.lon == e.lon && f.hdg == e.hdg
    && f.course == e.course && f.sog == e.sog && f.navstat == e.navstat
  }

  predicate SamePersons(e: Entry, f: Entry) { f.receivedPersons == e.receivedPersons && f.persons == e.persons }

  predicate SameHull(e: Entry, f: Entry) {
    && f.shiptype == e.shiptype && f.a == e.a && f.b == e.b && f.c == e.c && f.d == e.d
    && f.imo == e.imo && f.draught == e.draught
  }

  /** What no report has given is as in a new entry. */
  lemma {:induction false} NeverGiven(key: Key, log: seq<Report>)
    ensures var e, f := Latest(key, log), Blank();
            && (NoneFrom(key, log, 0, (u: Update) => u.Position?) ==> SamePosition(f, e))
            && (NoneFrom(key, log, 0, Names) ==> e.name == f.name && e.destination == f.destination)
            && (NoneFrom(key, log, 0, Calls) ==> e.callsign == f.callsign)
            && (NoneFrom(key, log, 0, Hulls) ==> SameHull(f, e))
            && (NoneFrom(key, log, 0, Data) ==> e.receivedData == f.receivedData)
            && (NoneFrom(key, log, 0, (u: Update) => u.Persons?) ==> SamePersons(f, e))
    decreases |log|
  {
    if log != [] {
      hide Updated, Blank, Names, Calls, Hulls, Data;
      var rest, last := log[..|log| - 1], log[|log| - 1];
      NeverGiven(key, rest);
      assert forall j :: 0 <= j < |rest| ==> rest[j] == log[j];
      OthersStay(Latest(key, rest), last);
    }
  }

  /** And a new entry has zeros, minus ones and no strings. */
  lemma BlankIs()
    ensures var e := Blank();
            && e.receivedPos == e.receivedData == e.receivedPersons == 0 && e.lat == e.lon == e.draught == 0.0
            && e.hdg == e.navstat == e.imo == e.shiptype == e.a == e.b == e.c == e.d == e.persons == -1
            && e.course == e.sog == -1.0 && e.callsign.Missing? && e.name.Missing? && e.destination.Missing?
  {
  }

  ghost predicate Reported(key: Key, log: seq<Report>) {
    exists i :: 0 <= i < |log| && KeyOf(log[i].mmsi) == key
  }

  lemma {:induction false} UnreportedBlank(key: Key, log: seq<Report>)
    requires !Reported(key, log)
    ensures Latest(key, log) == Blank()
    decreases |log|
  {
    if log != [] {
      var rest := log[..|log| - 1];
      assert forall i :: 0 <= i < |rest| ==> rest[i] == log[i];
      UnreportedBlank(key, rest);
    }
  }

  /** The entries a tree's nodes carry. */
  ghost predicate Carries(ents: map<Node, CacheEnt>)
    reads ents.Keys`data
  {
    && (forall n :: n in ents ==> n.data == ents[n])
    && (forall n, m :: n in ents && m in ents && ents[n] == ents[m] ==> n == m)
  }

  /** Every entry is the fold of its ship's reports. */
  ghost predicate UpToDate(ents: map<Node, CacheEnt>, log: seq<Report>)
    reads ents.Keys`key, ents.Values`now
  {
    forall n :: n in ents ==> ents[n].now == Latest(n.key, log)
  }

  const NONE := -1

  /** The ships in the tree are those reported; `extra` is a key that may be there without a report. */
  ghost predicate Covers(ents: map<Node, CacheEnt>, log: seq<Report>, extra: int)
    reads ents.Keys`key
  {
    && (forall i :: 0 <= i < |log| ==> exists n :: n in ents && n.key == KeyOf(log[i].mmsi))
    && (forall n :: n in ents ==> Reported(n.key, log) || n.key == extra)
  }

  /** A tree that holds exactly the folds of the reports. */
  ghost predicate Keeps(spt: SpTree, pool: Pool, ents: map<Node, CacheEnt>, log: seq<Report>, extra: int)
    reads spt, Nodes(spt.shape)`left, Nodes(spt.shape)`right, Nodes(spt.shape)`up, Nodes(spt.shape)`key
    reads pool, pool.free`up, ents.Keys`key, ents.Keys`data, ents.Values`now
  {
    && spt.ValidWith(pool) && ents.Keys == Nodes(spt.shape)
    && Carries(ents) && UpToDate(ents, log) && Covers(ents, log, extra)
  }

  /** Room for a new key's entry, still without a report. */
  lemma RoomForNew(ents: map<Node, CacheEnt>, log: seq<Report>, key: Key)
    requires Covers(ents, log, NONE) && forall n :: n in ents ==> n.key != key
    ensures Latest(key, log) == Blank()
  {
    UnreportedBlank(key, log);
  }

  /** The report of a ship is told by its own entry alone. */
  lemma OneMore(ents: map<Node, CacheEnt>, log: seq<Report>, r: Report, n: Node)
    requires n in ents && n.key == KeyOf(r.mmsi) && Covers(ents, log, n.key)
    requires forall m :: m in ents && m != n ==> m.key != n.key && ents[m].now == Latest(m.key, log)
    requires ents[n].now == Updated(Latest(n.key, log), r)
    ensures UpToDate(ents, log + [r]) && Covers(ents, log + [r], NONE)
  {
    var log' := log + [r];
    assert log'[..|log|] == log;
    assert forall i :: 0 <= i < |log| ==> log'[i] == log[i];
    assert log'[|log|] == r;
    forall m | m in ents ensures Reported(m.key, log') {
      if Reported(m.key, log) {
        var i :| 0 <= i < |log| && KeyOf(log[i].mmsi) == m.key;
        assert KeyOf(log'[i].mmsi) == m.key;
      }
    }
  }

  /** A new node with a blank entry beside the others. */
  lemma BlankBeside(ents: map<Node, CacheEnt>, log: seq<Report>, n: Node, e: CacheEnt)
    requires Carries(ents) && UpToDate(ents, log) && Covers(ents, log, NONE) && n !in ents
    requires n.data == e && e.now == Blank() == Latest(n.key, log) && forall m :: m in ents ==> ents[m] != e
    ensures var ents' := ents[n := e]; Carries(ents') && UpToDate(ents', log) && Covers(ents', log, n.key)
  {
    var ents' := ents[n := e];
    assert forall i :: 0 <= i < |log| ==> exists m :: m in ents && m.key == KeyOf(log[i].mmsi);
    forall m | m in ents' ensures ents'[m].now == Latest(m.key, log) {
      if m != n { assert ents[m].now == Latest(m.key, log); }
    }
  }

  class Cache {
    var spt: SpTree
    const pool: Pool
    ghost var ents: map<Node, CacheEnt>
    ghost var log: seq<Report>

    ghost predicate Valid()
      reads this, spt, Nodes(spt.shape)`left, Nodes(spt.shape)`right, Nodes(spt.shape)`up, Nodes(spt.shape)`key
      reads pool, pool.free`up, ents.Keys`key, ents.Keys`data, ents.Values`now
    {
      Keeps(spt, pool, ents, log, NONE)
    }

    /** The cache has taken nodes from the free list or the allocator only. */
    twostate predicate Spread()
      reads this, pool
    {
      && (forall n :: n in ents ==> n in old(ents) || n in old(pool.free) || fresh(n))
      && (forall n :: n in pool.free ==> n in old(pool.free) || fresh(n))
      && (forall e :: e in ents.Values ==> e in old(ents).Values || fresh(e))
    }

    twostate lemma SpreadIs()
      requires Spread()
      ensures forall n :: n in ents ==> n in old(ents) || n in old(pool.free) || fresh(n)
      ensures forall n :: n in pool.free ==> n in old(pool.free) || fresh(n)
      ensures forall e :: e in ents.Values ==> e in old(ents).Values || fresh(e)
    {
    }

    /** Another tree on the same free list, with its own nodes and entries: one that was rotated out. */
    ghost predicate Aside(got: SpTree, gotEnts: map<Node, CacheEnt>, gotLog: seq<Report>)
      reads this, got, Nodes(got.shape)`left, Nodes(got.shape)`right, Nodes(got.shape)`up, Nodes(got.shape)`key
      reads pool, pool.free`up, gotEnts.Keys`key, gotEnts.Keys`data, gotEnts.Values`now
    {
      && got != spt && gotEnts.Keys !! ents.Keys && gotEnts.Values !! ents.Values
      && Keeps(got, pool, gotEnts, gotLog, NONE)
    }

    /** cache_init */
    constructor (pool: Pool)
      requires pool.Valid()
      ensures Valid() && log == [] && this.pool == pool && fresh(spt)
    {
      var t := new SpTree();
      spt := t;
      this.pool := pool;
      ents := map[];
      log := [];
    }

    /** Entries that nobody touches stay as they are. */
    twostate lemma Undisturbed()
      requires ents == old(ents) && log == old(log)
      requires old(Carries(ents) && UpToDate(ents, log) && Covers(ents, log, NONE))
      requires forall n :: n in ents ==> n.key == old(n.key) && n.data == old(n.data)
      requires forall n :: n in ents ==> ents[n].now == old(ents[n].now)
      ensures Carries(ents) && UpToDate(ents, log) && Covers(ents, log, NONE)
    {
      assert Carries(ents) == old(Carries(ents));
      forall n | n in ents ensures ents[n].now == Latest(n.key, log) {
        assert old(ents[n].now == Latest(n.key, log));
      }
      assert Covers(ents, log, NONE) == old(Covers(ents, log, NONE));
    }

    /** The sp_lookup of cache_get. */
    method Seek(key: Key) returns (spl: Node?)
      requires Valid()
      modifies spt`root, spt`shape, spt`lookups, spt`lkpcmps, spt`splays, spt`splayloops
      modifies Nodes(spt.shape)`left, Nodes(spt.shape)`right, Nodes(spt.shape)`up
      ensures Valid() && Nodes(spt.shape) == old(Nodes(spt.shape))
      ensures spl != null ==> spl in ents && spl.key == key
      ensures spl == null ==> !HasKey(InOrder(spt.shape), key) && forall n :: n in ents ==> n.key != key
    {
      hide *;
      Opened();
      spl := spt.Lookup(key);
      Sought(spl, key);
      assert pool.Valid() == old(pool.Valid());
      Undisturbed();
      Closed();
    }

    lemma Opened()
      requires Valid()
      ensures spt.ValidWith(pool) && spt.Valid() && pool.Valid() && ents.Keys == Nodes(spt.shape)
      ensures Carries(ents) && UpToDate(ents, log) && Covers(ents, log, NONE)
      ensures forall x :: x in pool.free ==> x !in Nodes(spt.shape)
    {
      hide SpTree.Valid, Pool.Valid, Carries, UpToDate, Covers;
    }

    lemma Closed()
      requires spt.Valid() && pool.Valid() && ents.Keys == Nodes(spt.shape)
      requires Carries(ents) && UpToDate(ents, log) && Covers(ents, log, NONE)
      requires forall x :: x in pool.free ==> x !in Nodes(spt.shape)
      ensures Valid()
    {
      hide SpTree.Valid, Pool.Valid, Carries, UpToDate, Covers;
    }

    /** What the answer of sp_lookup says of the entries. */
    lemma Sought(spl: Node?, key: Key)
      requires spt.Valid() && ents.Keys == Nodes(spt.shape)
      requires spl != null <==> HasKey(InOrder(spt.shape), key)
      requires spl != null ==> spl == spt.root && spl.key == key
      ensures spl != null ==> spl in ents
      ensures spl == null ==> !HasKey(InOrder(spt.shape), key) && forall n :: n in ents ==> n.key != key
    {
      hide HasKey, InOrder, Ordered, Distinct;
      KeysOfNodes(spt.shape, Snap(Nodes(spt.shape)), key);
    }

    /** sp_install of a new key: the entries do not notice. */
    method Grow(key: Key) returns (spl: Node)
      requires Valid() && !HasKey(InOrder(spt.shape), key)
      modifies spt, Nodes(spt.shape)`left, Nodes(spt.shape)`right, Nodes(spt.shape)`up
      modifies pool, pool.free`left, pool.free`right, pool.free`up, pool.free`key
      ensures spt.ValidWith(pool) && Nodes(spt.shape) == {spl} + ents.Keys && spl !in ents && spl.key == key
      ensures Carries(ents) && UpToDate(ents, log) && Covers(ents, log, NONE)
      ensures (fresh(spl) || spl in old(pool.free)) && forall x :: x in pool.free ==> x in old(pool.free) || fresh(x)
    {
      assert forall n :: n in ents ==> n !in pool.free;
      hide SpTree.ValidWith, HasKey, Nodes, InOrder, Carries, UpToDate, Covers;
      spl := InstallBeside(key);
      Undisturbed();
    }

    method InstallBeside(key: Key) returns (spl: Node)
      requires spt.ValidWith(pool) && ents.Keys == Nodes(spt.shape) && (forall n :: n in ents ==> n !in pool.free)
              && !HasKey(InOrder(spt.shape), key)
      modifies spt, Nodes(spt.shape)`left, Nodes(spt.shape)`right, Nodes(spt.shape)`up
      modifies pool, pool.free`left, pool.free`right, pool.free`up, pool.free`key
      ensures spt.ValidWith(pool) && Nodes(spt.shape) == {spl} + ents.Keys && spl !in ents && spl.key == key
      ensures forall n :: n in ents ==> n.key == old(n.key) && n.data == old(n.data)
      ensures forall n :: n in ents ==> ents[n].now == old(ents[n].now)
      ensures (fresh(spl) || spl in old(pool.free)) && forall x :: x in pool.free ==> x in old(pool.free) || fresh(x)
    {
      hide *;
      spl := spt.Install(key, pool);
    }

    /** A blank entry for a node that has none. */
    method Attach(spl: Node) returns (e: CacheEnt)
      requires spt.ValidWith(pool) && Nodes(spt.shape) == {spl} + ents.Keys && spl !in ents
      requires Carries(ents) && UpToDate(ents, log) && Covers(ents, log, NONE) && Latest(spl.key, log) == Blank()
      modifies this`ents, spl`data
      ensures fresh(e) && ents == old(ents)[spl := e] && Pending(spl) && e.now == Latest(spl.key, log)
    {
      hide *;
      NodesAllocated(spt.shape);
      assert forall n :: n in ents ==> allocated(ents[n]);
      e := new CacheEnt();
      spl.data := e;
      Undisturbed();
      BlankBeside(ents, log, spl, e);
      assert spt.ValidWith(pool) == old(spt.ValidWith(pool));
      ents := ents[spl := e];
      NowPending(spl);
    }

    lemma NowPending(n: Node)
      requires spt.ValidWith(pool) && ents.Keys == Nodes(spt.shape) && n in ents
      requires Carries(ents) && UpToDate(ents, log) && Covers(ents, log, n.key)
      ensures Pending(n)
    {
      hide SpTree.ValidWith, Carries, Covers;
    }

    /** Valid but for one entry, that of `n`, which may be there without a report. */
    ghost predicate Pending(n: Node)
      reads this, spt, Nodes(spt.shape)`left, Nodes(spt.shape)`right, Nodes(spt.shape)`up, Nodes(spt.shape)`key
      reads pool, pool.free`up, ents.Keys`key, ents.Keys`data, ents.Values`now
    {
      && spt.ValidWith(pool) && ents.Keys == Nodes(spt.shape) && n in ents
      && Carries(ents) && Covers(ents, log, n.key)
      && forall m :: m in ents && m != n ==> ents[m].now == Latest(m.key, log)
    }

    lemma ValidPending(n: Node)
      requires Valid() && n in ents
      ensures Pending(n) && ents[n].now == Latest(n.key, log) && n.data == ents[n]
    {
    }

    /** cache_get: the ship's entry, a blank one if it had none. */
    method Get(mmsi: Int) returns (e: CacheEnt, ghost n: Node)
      requires Valid()
      modifies this`ents, spt, Nodes(spt.shape)`left, Nodes(spt.shape)`right, Nodes(spt.shape)`up
      modifies pool, pool.free`left, pool.free`right, pool.free`up, pool.free`key, pool.free`data
      ensures Pending(n) && n.key == KeyOf(mmsi) && ents[n] == e && e.now == Latest(n.key, log)
      ensures (fresh(e) || e in old(ents).Values) && Spread()
    {
      hide SpTree.ValidWith, HasKey, InOrder, Latest, Pending, Carries, UpToDate, Covers, Keeps, Valid, KeyOf, Nodes,
        Blank;
      var key := KeyOf(mmsi);
      var spl := Seek(key);
      if spl != null {
        n := spl;
        ValidPending(n);
        e := spl.data as CacheEnt;
      } else {
        e, n := AddShip(key);
      }
    }

    /** The entry of a ship that has none: src/cache.c:174-195. */
    method AddShip(key: Key) returns (e: CacheEnt, ghost n: Node)
      requires Valid() && !HasKey(InOrder(spt.shape), key) && forall m :: m in ents ==> m.key != key
      modifies this`ents, spt, Nodes(spt.shape)`left, Nodes(spt.shape)`right, Nodes(spt.shape)`up
      modifies pool, pool.free`left, pool.free`right, pool.free`up, pool.free`key, pool.free`data
      ensures Pending(n) && n.key == key && e.now == Latest(n.key, log) && fresh(e)
      ensures ents == old(ents)[n := e] && (fresh(n) || n in old(pool.free))
      ensures forall x :: x in pool.free ==> x in old(pool.free) || fresh(x)
    {
      hide *;
      NewShip(key);
      var added := Grow(key);
      n := added;
      e := Attach(added);
    }

    lemma NewShip(key: Key)
      requires Valid() && forall m :: m in ents ==> m.key != key
      ensures Latest(key, log) == Blank()
    {
      Opened();
      hide *;
      RoomForNew(ents, log, key);
    }

    /** The entry of `n` now tells the report too. */
    ghost method Note(r: Report, n: Node)
      requires Pending(n) && n.key == KeyOf(r.mmsi) && ents[n].now == Updated(Latest(n.key, log), r)
      modifies this`log
      ensures Valid() && log == old(log) + [r]
    {
      hide *;
      PendingParts(n);
      OthersKeys(n);
      OneMore(ents, log, r, n);
      log := log + [r];
      Closed();
    }

    lemma PendingParts(n: Node)
      requires Pending(n)
      ensures spt.ValidWith(pool) && spt.Valid() && pool.Valid() && ents.Keys == Nodes(spt.shape) && n in ents
      ensures Carries(ents) && Covers(ents, log, n.key)
      ensures forall m :: m in ents && m != n ==> ents[m].now == Latest(m.key, log)
      ensures forall x :: x in pool.free ==> x !in Nodes(spt.shape)
    {
      hide SpTree.Valid, Pool.Valid, Carries, Covers, Latest;
    }

    /** The assignments and their report in the log. */
    method Tell(e: CacheEnt, ghost n: Node, r: Report)
      requires Pending(n) && ents[n] == e && n.key == KeyOf(r.mmsi) && e.now == Latest(n.key, log)
      modifies e`now, this`log
      ensures Valid() && log == old(log) + [r]
    {
      AmendOne(e, n, r);
      Note(r, n);
    }

    method AmendOne(e: CacheEnt, ghost n: Node, r: Report)
      requires Pending(n) && ents[n] == e
      modifies e`now
      ensures Pending(n) && e.now == Updated(old(e.now), r)
    {
      hide SpTree.ValidWith, Covers, Latest, Updated;
      ghost var extra := n.key;
      NodesAllocated(spt.shape);
      Amend(e, r);
      assert spt.ValidWith(pool) == old(spt.ValidWith(pool));
      assert Covers(ents, log, extra) == old(Covers(ents, log, extra));
    }

    lemma OthersKeys(n: Node)
      requires spt.ValidWith(pool) && ents.Keys == Nodes(spt.shape) && n in ents
      ensures forall m :: m in ents && m != n ==> m.key != n.key
    {
      forall m | m in ents && m != n ensures m.key != n.key {
        KeyTellsNode(spt.shape, Snap(Nodes(spt.shape)), m, n);
      }
    }

    /** cache_position */
    method Position(t: int, mmsi: Int, navstat: int, lat: real, lon: real, hdg: int, course: real, rateofturn: int,
            sog: real)
      requires Valid()
      modifies this`ents, this`log, spt, Nodes(spt.shape)`left, Nodes(spt.shape)`right, Nodes(spt.shape)`up,
              ents.Values`now
      modifies pool, pool.free`left, pool.free`right, pool.free`up, pool.free`key, pool.free`data
      ensures Valid() && log == old(log) + [Report(mmsi, Update.Position(t, navstat, lat, lon, hdg, course, sog))]
      ensures Spread()
    {
      hide SpTree.ValidWith, Pending, Keeps, Valid, Latest, Updated;
      var e;
      ghost var n;
      e, n := Get(mmsi);
      Tell(e, n, Report(mmsi, Update.Position(t, navstat, lat, lon, hdg, course, sog)));
    }

    /** cache_vesseldata */
    method VesselData(t: int, mmsi: Int, imo: int, callsign: string, name: string, destination: string,
                      shiptype: int, a: int, b: int, c: int, d: int, draught: real)
      requires Valid()
      modifies this`ents, this`log, spt, Nodes(spt.shape)`left, Nodes(spt.shape)`right, Nodes(spt.shape)`up,
              ents.Values`now
      modifies pool, pool.free`left, pool.free`right, pool.free`up, pool.free`key, pool.free`data
      ensures Valid() && log == old(log) + [Report(mmsi, Update.VesselData(t, imo, callsign, name, destination,
              shiptype, a, b, c, d, draught))]
      ensures Spread()
    {
      hide SpTree.ValidWith, Pending, Keeps, Valid, Latest, Updated;
      var e;
      ghost var n;
      e, n := Get(mmsi);
      Tell(e, n, Report(mmsi, Update.VesselData(t, imo, callsign, name, destination, shiptype, a, b, c, d, draught)));
    }

    /** cache_vesseldatab */
    method VesselDataB(t: int, mmsi: Int, callsign: string, shiptype: int, a: int, b: int, c: int, d: int)
      requires Valid()
      modifies this`ents, this`log, spt, Nodes(spt.shape)`left, Nodes(spt.shape)`right, Nodes(spt.shape)`up,
              ents.Values`now
      modifies pool, pool.free`left, pool.free`right, pool.free`up, pool.free`key, pool.free`data
      ensures Valid() && log == old(log) + [Report(mmsi, Update.VesselDataB(t, callsign, shiptype, a, b, c, d))]
      ensures Spread()
    {
      hide SpTree.ValidWith, Pending, Keeps, Valid, Latest, Updated;
      var e;
      ghost var n;
      e, n := Get(mmsi);
      Tell(e, n, Report(mmsi, Update.VesselDataB(t, callsign, shiptype, a, b, c, d)));
    }

    /** cache_vesseldatabb */
    method VesselDataBB(t: int, mmsi: Int, shiptype: int, a: int, b: int, c: int, d: int)
      requires Valid()
      modifies this`ents, this`log, spt, Nodes(spt.shape)`left, Nodes(spt.shape)`right, Nodes(spt.shape)`up,
              ents.Values`now
      modifies pool, pool.free`left, pool.free`right, pool.free`up, pool.free`key, pool.free`data
      ensures Valid() && log == old(log) + [Report(mmsi, Update.VesselDataBB(t, shiptype, a, b, c, d))]
      ensures Spread()
    {
      hide SpTree.ValidWith, Pending, Keeps, Valid, Latest, Updated;
      var e;
      ghost var n;
      e, n := Get(mmsi);
      Tell(e, n, Report(mmsi, Update.VesselDataBB(t, shiptype, a, b, c, d)));
    }

    /** cache_vesselname */
    method VesselName(t: int, mmsi: Int, name: string, destination: string)
      requires Valid()
      modifies this`ents, this`log, spt, Nodes(spt.shape)`left, Nodes(spt.shape)`right, Nodes(spt.shape)`up,
              ents.Values`now
      modifies pool, pool.free`left, pool.free`right, pool.free`up, pool.free`key, pool.free`data
      ensures Valid() && log == old(log) + [Report(mmsi, Update.VesselName(t, name, destination))]
      ensures Spread()
    {
      hide SpTree.ValidWith, Pending, Keeps, Valid, Latest, Updated;
      var e;
      ghost var n;
      e, n := Get(mmsi);
      Tell(e, n, Report(mmsi, Update.VesselName(t, name, destination)));
    }

    /** cache_vessel_persons */
    method Persons(t: int, mmsi: Int, persons: int)
      requires Valid()
      modifies this`ents, this`log, spt, Nodes(spt.shape)`left, Nodes(spt.shape)`right, Nodes(spt.shape)`up,
              ents.Values`now
      modifies pool, pool.free`left, pool.free`right, pool.free`up, pool.free`key, pool.free`data
      ensures Valid() && log == old(log) + [Report(mmsi, Update.Persons(t, persons))]
      ensures Spread()
    {
      hide SpTree.ValidWith, Pending, Keeps, Valid, Latest, Updated;
      var e;
      ghost var n;
      e, n := Get(mmsi);
      Tell(e, n, Report(mmsi, Update.Persons(t, persons)));
    }

    /** cache_rotate: the whole tree changes hands, and a new one starts empty. */
    method Rotate() returns (got: SpTree, ghost gotEnts: map<Node, CacheEnt>, ghost gotLog: seq<Report>)
      requires Valid()
      modifies this`spt, this`ents, this`log
      ensures got == old(spt) && gotEnts == old(ents) && gotLog == old(log)
      ensures Keeps(got, pool, gotEnts, gotLog, NONE)
      ensures Valid() && log == [] && fresh(spt) && Aside(got, gotEnts, gotLog)
    {
      assert pool.Valid();
      hide SpTree.ValidWith, Carries, UpToDate, Covers;
      got, gotEnts, gotLog := spt, ents, log;
      NodesAllocated(spt.shape);
      EmptyTree();
      assert Keeps(got, pool, gotEnts, gotLog, NONE) == old(Keeps(spt, pool, ents, log, NONE));
    }

    /** The new tree that the cache goes on with. */
    method EmptyTree()
      requires pool.Valid()
      modifies this`spt, this`ents, this`log
      ensures Valid() && log == [] && fresh(spt) && ents == map[]
    {
      var t := new SpTree();
      assert pool.Valid() == old(pool.Valid());
      spt := t;
      ents := map[];
      log := [];
    }
  }

  /** Taking the head out leaves the rest of the sequence. */
  lemma HeadRemoved(t: Tree, h: Heap)
    requires Rep(t, h) && Distinct(t) && Ordered(t) && t.Bin?
    ensures var s := InOrder(t);
            && s != [] && s[0].node in Nodes(t) && s[0].node in h
            && InOrder(Removed(t, h[s[0].node].key)) == s[1..]
  {
    var s := InOrder(t);
    InOrderLength(t);
    InOrderAt(t, 0);
    RepKeys(t, h, 0);
    assert HasKey(s, s[0].key);
    RemovedInOrder(t, s[0].key);
    var i := Size(LookedUp(t, s[0].key).left);
    assert i == 0;
    assert s[..0] + s[1..] == s[1..];
  }

  /** The body of the loop of cache_free, at the head of what is left. */
  method FreeHead(sp: SpTree, pool: Pool, x: Node) returns (nextx: Node?)
    requires sp.ValidWith(pool) && sp.shape.Bin? && x == InOrder(sp.shape)[0].node
    modifies sp`root, sp`shape, sp`splays, sp`splayloops, sp`eltscnt
    modifies Nodes(sp.shape)`left, Nodes(sp.shape)`right, Nodes(sp.shape)`up
    modifies pool`freeList, pool`spEntries, pool`free
    ensures sp.ValidWith(pool) && pool.free == [x] + old(pool.free)
    ensures InOrder(sp.shape) == old(InOrder(sp.shape))[1..] && Nodes(sp.shape) <= old(Nodes(sp.shape))
    ensures nextx == if InOrder(sp.shape) == [] then null else InOrder(sp.shape)[0].node
  {
    hide SplayPool.Chain;
    HeadRemoved(sp.shape, Snap(Nodes(sp.shape)));
    SuccessorAt(sp.shape, 0);
    nextx := sp.FNext(x);
    sp.Delete(x, pool);
  }

  ghost function Reversed<T>(s: seq<T>): seq<T> {
    if s == [] then [] else Reversed(s[1..]) + [s[0]]
  }

  lemma {:induction false} ReversedAppend<T>(s: seq<T>, x: T)
    ensures Reversed(s + [x]) == [x] + Reversed(s)
  {
    if s != [] {
      ReversedAppend(s[1..], x);
      assert (s + [x])[1..] == s[1..] + [x];
    }
  }

  /** cache_free, with the nodes in the order of the loop and the entries freed.
      Each step deletes the node the traversal stands on and so reshapes the
      tree it walks; still it visits every node once, in key order, and the
      tree is empty at the end. */
  method Free(sp: SpTree, pool: Pool, ghost ents: map<Node, CacheEnt>, ghost log: seq<Report>)
    returns (visited: seq<Node>, entries: seq<CacheEnt>)
    requires Keeps(sp, pool, ents, log, NONE)
    modifies sp`root, sp`shape, sp`splays, sp`splayloops, sp`eltscnt
    modifies Nodes(sp.shape)`left, Nodes(sp.shape)`right, Nodes(sp.shape)`up
    modifies pool`freeList, pool`spEntries, pool`free
    ensures sp.ValidWith(pool) && sp.shape == Leaf
    ensures visited == NodeSeq(old(InOrder(sp.shape)))
    ensures HandedOver(visited, entries, ents)
    ensures pool.free == Reversed(visited) + old(pool.free)
  {
    EntriesInOrder(sp.shape, ents);
    LeafInOrder(sp.shape);
    var x := sp.FHead();
    visited, entries := FreeLoop(sp, pool, x, InOrder(sp.shape), ents);
  }

  /** The loop of cache_free: src/cache.c:106-112. */
  method FreeLoop(sp: SpTree, pool: Pool, first: Node?, ghost all: seq<Elem>, ghost ents: map<Node, CacheEnt>)
    returns (visited: seq<Node>, entries: seq<CacheEnt>)
    requires sp.ValidWith(pool) && all == InOrder(sp.shape) && first == if all == [] then null else all[0].node
    requires forall i :: 0 <= i < |all| ==> all[i].node in ents && all[i].node.data == ents[all[i].node]
    modifies sp`root, sp`shape, sp`splays, sp`splayloops, sp`eltscnt
    modifies Nodes(sp.shape)`left, Nodes(sp.shape)`right, Nodes(sp.shape)`up
    modifies pool`freeList, pool`spEntries, pool`free
    ensures sp.ValidWith(pool) && sp.shape == Leaf
    ensures visited == NodeSeq(all) && pool.free == Reversed(visited) + old(pool.free)
    ensures HandedOver(visited, entries, ents)
  {
    hide *;
    ghost var free0 := pool.free;
    var x := first;
    visited, entries := [], [];
    NothingFreed(all, free0);
    while x != null
      invariant sp.ValidWith(pool) && |visited| <= |all| && InOrder(sp.shape) == all[|visited|..]
      invariant Nodes(sp.shape) <= old(Nodes(sp.shape))
      invariant x == if |visited| < |all| then all[|visited|].node else null
      invariant visited == NodeSeq(all)[..|visited|] && pool.free == Reversed(visited) + free0
      invariant HandedOver(visited, entries, ents)
      decreases |all| - |visited|
    {
      ghost var k := |visited|;
      LeafInOrder(sp.shape);
      OneFreed(all, visited, free0, k);
      var e := x.data as CacheEnt;
      var nextx := FreeHead(sp, pool, x);
      OneMoreHanded(visited, entries, ents, x, e);
      visited := visited + [x];
      entries := entries + [e];
      x := nextx;
    }
    LeafInOrder(sp.shape);
  }

  /** The entries of the nodes, in their order. */
  ghost predicate HandedOver(visited: seq<Node>, entries: seq<CacheEnt>, ents: map<Node, CacheEnt>) {
    |entries| == |visited| && forall i :: 0 <= i < |visited| ==> visited[i] in ents && entries[i] == ents[visited[i]]
  }

  lemma OneMoreHanded(visited: seq<Node>, entries: seq<CacheEnt>, ents: map<Node, CacheEnt>, n: Node, e: CacheEnt)
    requires HandedOver(visited, entries, ents) && n in ents && e == ents[n]
    ensures HandedOver(visited + [n], entries + [e], ents)
  {
  }

  lemma LeafInOrder(t: Tree)
    ensures InOrder(t) == [] <==> t.Leaf?
  {
  }

  lemma NothingFreed(all: seq<Elem>, free0: seq<Node>)
    ensures all[0..] == all && NodeSeq(all)[..0] == [] && Reversed<Node>([]) + free0 == free0
    ensures forall ents :: HandedOver([], [], ents)
  {
  }

  lemma OneFreed(all: seq<Elem>, visited: seq<Node>, free0: seq<Node>, k: nat)
    requires k < |all| && visited == NodeSeq(all)[..k]
    ensures var x := all[k].node;
            && visited + [x] == NodeSeq(all)[..k + 1] && all[k..][1..] == all[k + 1..]
            && [x] + (Reversed(visited) + free0) == Reversed(visited + [x]) + free0
  {
    ReversedAppend(visited, all[k].node);
  }

  lemma EntriesInOrder(t: Tree, ents: map<Node, CacheEnt>)
    requires ents.Keys == Nodes(t)
    ensures forall i :: 0 <= i < |InOrder(t)| ==> InOrder(t)[i].node in ents
  {
    forall i | 0 <= i < |InOrder(t)| ensures InOrder(t)[i].node in ents {
      InOrderAt(t, i);
    }
  }

  // ----- a rotated tree beside the live one -----

  /** cache_free of a rotated tree: its nodes go back to the free list that the live cache
      allocates from, and the live cache is none the wiser. */
  method FreeAside(cache: Cache, got: SpTree, ghost gotEnts: map<Node, CacheEnt>, ghost gotLog: seq<Report>)
    returns (visited: seq<Node>, entries: seq<CacheEnt>)
    requires cache.Valid() && cache.Aside(got, gotEnts, gotLog)
    modifies got`root, got`shape, got`splays, got`splayloops, got`eltscnt
    modifies Nodes(got.shape)`left, Nodes(got.shape)`right, Nodes(got.shape)`up
    modifies cache.pool`freeList, cache.pool`spEntries, cache.pool`free
    ensures cache.Valid() && got.shape == Leaf
    ensures visited == NodeSeq(old(InOrder(got.shape))) && HandedOver(visited, entries, gotEnts)
  {
    hide *;
    cache.Opened();
    AsideParts(cache, got, gotEnts, gotLog);
    NodesAllocated(cache.spt.shape);
    visited, entries := Free(got, cache.pool, gotEnts, gotLog);
    ReversedNodes(visited);
    VisitedNodes(got, cache.pool, gotEnts, visited);
    assert cache.spt.Valid() == old(cache.spt.Valid());
    assert Carries(cache.ents) == old(Carries(cache.ents));
    assert UpToDate(cache.ents, cache.log) == old(UpToDate(cache.ents, cache.log));
    assert Covers(cache.ents, cache.log, NONE) == old(Covers(cache.ents, cache.log, NONE));
    cache.Closed();
  }

  lemma AsideParts(cache: Cache, got: SpTree, gotEnts: map<Node, CacheEnt>, gotLog: seq<Report>)
    requires cache.Aside(got, gotEnts, gotLog)
    ensures got != cache.spt && gotEnts.Keys !! cache.ents.Keys && gotEnts.Values !! cache.ents.Values
    ensures Keeps(got, cache.pool, gotEnts, gotLog, NONE) && gotEnts.Keys == Nodes(got.shape)
    ensures got.Valid() && cache.pool.Valid() && forall x :: x in cache.pool.free ==> x !in Nodes(got.shape)
    ensures Carries(gotEnts) && UpToDate(gotEnts, gotLog) && Covers(gotEnts, gotLog, NONE)
  {
    hide SpTree.Valid, Pool.Valid, Carries, UpToDate, Covers;
  }

  lemma {:induction false} ReversedNodes(s: seq<Node>)
    ensures forall x :: x in Reversed(s) <==> x in s
  {
    if s != [] {
      ReversedNodes(s[1..]);
      assert s == [s[0]] + s[1..];
    }
  }

  lemma VisitedNodes(got: SpTree, pool: Pool, gotEnts: map<Node, CacheEnt>, visited: seq<Node>)
    requires got.ValidWith(pool)
    requires forall i :: 0 <= i < |visited| ==> visited[i] in gotEnts
    ensures pool.Valid() && forall x :: x in visited ==> x in gotEnts.Keys
  {
  }

  /** A report to the live cache, cache_position standing for all of them, leaves a rotated
      tree and what it hands over untouched, and the two still apart. */
  method PositionAside(cache: Cache, got: SpTree, ghost gotEnts: map<Node, CacheEnt>, ghost gotLog: seq<Report>,
                       t: int, mmsi: Int, navstat: int, lat: real, lon: real, hdg: int, course: real, rateofturn: int,
                               sog: real)
    requires cache.Valid() && cache.Aside(got, gotEnts, gotLog)
    modifies cache`ents, cache`log, cache.spt, cache.ents.Values`now
    modifies Nodes(cache.spt.shape)`left, Nodes(cache.spt.shape)`right, Nodes(cache.spt.shape)`up
    modifies cache.pool, cache.pool.free`left, cache.pool.free`right, cache.pool.free`up, cache.pool.free`key,
            cache.pool.free`data
    ensures cache.Valid() && cache.Aside(got, gotEnts, gotLog)
    ensures cache.log == old(cache.log) + [Report(mmsi, Update.Position(t, navstat, lat, lon, hdg, course, sog))]
  {
    hide *;
    cache.Opened();
    AsideParts(cache, got, gotEnts, gotLog);
    NodesAllocated(got.shape);
    cache.Position(t, mmsi, navstat, lat, lon, hdg, course, rateofturn, sog);
    cache.SpreadIs();
    cache.Opened();
    assert got.Valid() == old(got.Valid());
    assert Carries(gotEnts) == old(Carries(gotEnts));
    assert UpToDate(gotEnts, gotLog) == old(UpToDate(gotEnts, gotLog));
    assert Covers(gotEnts, gotLog, NONE) == old(Covers(gotEnts, gotLog, NONE));
    StillAside(cache, got, gotEnts, gotLog);
  }

  lemma StillAside(cache: Cache, got: SpTree, gotEnts: map<Node, CacheEnt>, gotLog: seq<Report>)
    requires got != cache.spt && gotEnts.Keys !! cache.ents.Keys && gotEnts.Values !! cache.ents.Values
    requires gotEnts.Keys == Nodes(got.shape)
    requires got.Valid() && cache.pool.Valid() && forall x :: x in cache.pool.free ==> x !in Nodes(got.shape)
    requires Carries(gotEnts) && UpToDate(gotEnts, gotLog) && Covers(gotEnts, gotLog, NONE)
    ensures cache.Aside(got, gotEnts, gotLog)
  {
    hide SpTree.Valid, Pool.Valid, Carries, UpToDate, Covers;
  }
}
