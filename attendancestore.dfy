/**
 * `AttendanceDB`: the in-memory hash of today's check-ins for one period,
 * rebuilt at start-up from the period's file and kept in step with it by
 * `store`, which appends one line per check-in.
 */
module AttendanceStore {
  import opened Base
  import opened Text
  import opened Timestamp
  import opened LineLoad
  import opened Records

  /**
   * Reading an attendance file back into the hash, or the index of the line
   * the source raises on. A rebuilt hash keys every check-in by its own card
   * id and holds whole-second times only.
   */
  function Replay(lines: seq<string>): (r: Result<map<string, Attendance>, nat>)
    ensures r.Failure? ==> r.error < |lines|
    ensures r.Success? ==> WellKeyed(r.value) && Truncated(r.value) == r.value
  {
    var r := LineLoad.Load(lines, RecordEffect);
    if r.Success? then ReplayWellKeyed(lines); r else r
  }

  /** The hash as its file can reproduce it: every time cut to the whole second. */
  function Truncated(m: map<string, Attendance>): (r: map<string, Attendance>)
    ensures r.Keys == m.Keys
    ensures forall k :: k in m ==> r[k].idm == m[k].idm && r[k].time == ToSecond(m[k].time)
    ensures (forall k :: k in m ==> m[k].time.nsec == 0) ==> r == m
  {
    map k | k in m :: Attendance(m[k].idm, ToSecond(m[k].time))
  }

  /** Cutting to the second a second time changes nothing. */
  lemma TruncatedIdempotent(m: map<string, Attendance>)
    ensures Truncated(Truncated(m)) == Truncated(m)
  {
  }

  /** A hash as the source keeps it: each entry under its own card id, with a real time. */
  predicate WellKeyed(m: map<string, Attendance>)
  {
    forall k :: k in m ==> m[k].idm == k && m[k].time.Valid()
  }

  /** What a successful load of records produces: well keyed, whole seconds, so truncation changes nothing. */
  lemma ReplayWellKeyed(lines: seq<string>)
    requires LineLoad.Load(lines, RecordEffect).Success?
    ensures WellKeyed(LineLoad.Load(lines, RecordEffect).value)
    ensures Truncated(LineLoad.Load(lines, RecordEffect).value) == LineLoad.Load(lines, RecordEffect).value
  {
    var m := LineLoad.Load(lines, RecordEffect).value;
    forall k | k in m
      ensures m[k].idm == k && m[k].time.Valid() && m[k].time.nsec == 0
    {
      LoadLastWins(lines, RecordEffect, k);
    }
  }

  /** One `store` keeps the file able to rebuild the hash. */
  lemma ReplayAfterStore(log: seq<string>, m: map<string, Attendance>, a: Attendance, s: Student)
    requires Replay(log) == Success(Truncated(m))
    requires Writable(a, s)
    ensures Replay(log + [PutsLine(RecordLine(a, s))]) == Success(Truncated(m[a.idm := a]))
  {
    var line := PutsLine(RecordLine(a, s));
    assert LineLoad.Load(log + [line], RecordEffect) == Success(Truncated(m)[a.idm := Attendance(a.idm, ToSecond(a.time))]) by {
      LoadAppend(log, line, RecordEffect);
      RecordRoundTrip(a, s);
    }
    TruncatedUpdate(m, a);
  }

  /** Truncating after an update is updating with the truncated entry. */
  lemma TruncatedUpdate(m: map<string, Attendance>, a: Attendance)
    ensures Truncated(m[a.idm := a]) == Truncated(m)[a.idm := Attendance(a.idm, ToSecond(a.time))]
  {
  }

  /** Every stored record is one the file format carries unchanged. */
  predicate AllWritable(stores: seq<(Attendance, Student)>)
  {
    forall i :: 0 <= i < |stores| ==> Writable(stores[i].0, stores[i].1)
  }

  /** The lines a sequence of `store` calls appends. */
  function Written(stores: seq<(Attendance, Student)>): seq<string>
    requires AllWritable(stores)
  {
    if |stores| == 0 then []
    else
      var init, last := stores[..|stores| - 1], stores[|stores| - 1];
      assert AllWritable(init) && Writable(last.0, last.1) by {
        assert forall i :: 0 <= i < |init| ==> init[i] == stores[i];
      }
      Written(init) + [PutsLine(RecordLine(last.0, last.1))]
  }

  /** The hash after a sequence of `store` calls. */
  function AfterStores(m: map<string, Attendance>, stores: seq<(Attendance, Student)>): (r: map<string, Attendance>)
    ensures forall k :: k in r <==> k in m || exists i :: 0 <= i < |stores| && stores[i].0.idm == k
  {
    if |stores| == 0 then m
    else
      var init := stores[..|stores| - 1];
      var a := stores[|stores| - 1].0;
      assert forall i :: 0 <= i < |init| ==> init[i] == stores[i];
      AfterStores(m, init)[a.idm := a]
  }

  /**
   * Restarting after any number of `store` calls rebuilds the hash they
   * left, to the second, provided every stored record is writable.
   */
  lemma {:induction false} RestartRecovers(log: seq<string>, m: map<string, Attendance>, stores: seq<(Attendance, Student)>)
    requires Replay(log) == Success(Truncated(m))
    requires AllWritable(stores)
    ensures Replay(log + Written(stores)) == Success(Truncated(AfterStores(m, stores)))
  {
    if |stores| == 0 {
      assert log + Written(stores) == log;
    } else {
      var init := stores[..|stores| - 1];
      var last := stores[|stores| - 1];
      StoresSnoc(m, stores);
      var line := PutsLine(RecordLine(last.0, last.1));
      assert log + Written(stores) == (log + Written(init)) + [line];
      RestartRecovers(log, m, init);
      ReplayAfterStore(log + Written(init), AfterStores(m, init), last.0, last.1);
    }
  }

  /** One more `store` appends its line and updates its entry. */
  lemma StoresSnoc(m: map<string, Attendance>, stores: seq<(Attendance, Student)>)
    requires AllWritable(stores)
    requires |stores| > 0
    ensures AllWritable(stores[..|stores| - 1]) && Writable(stores[|stores| - 1].0, stores[|stores| - 1].1)
    ensures var init, last := stores[..|stores| - 1], stores[|stores| - 1];
      && Written(stores) == Written(init) + [PutsLine(RecordLine(last.0, last.1))]
      && AfterStores(m, stores) == AfterStores(m, init)[last.0.idm := last.0]
  {
    var init := stores[..|stores| - 1];
    assert forall i :: 0 <= i < |init| ==> init[i] == stores[i];
  }

  /** An absent or empty file rebuilds the empty hash. */
  lemma EmptyReplay()
    ensures Replay([]) == Success(map[]) && Truncated(map[]) == map[]
  {
    var empty: map<string, Attendance> := map[];
    assert Truncated(empty) == empty;
  }

  /** From a fresh file: the rebuilt hash holds exactly the stored card ids. */
  lemma FreshFileRecovers(stores: seq<(Attendance, Student)>)
    requires AllWritable(stores)
    ensures Replay(Written(stores)).Success?
    ensures forall k :: k in Replay(Written(stores)).value <==> exists i :: 0 <= i < |stores| && stores[i].0.idm == k
  {
    EmptyReplay();
    RestartRecovers([], map[], stores);
    assert [] + Written(stores) == Written(stores);
    FreshKeys(stores);
  }

  /** The stores made from an empty hash leave exactly the stored card ids, truncated or not. */
  lemma FreshKeys(stores: seq<(Attendance, Student)>)
    ensures forall k :: k in Truncated(AfterStores(map[], stores)) <==> exists i :: 0 <= i < |stores| && stores[i].0.idm == k
  {
    var after := AfterStores(map[], stores);
    assert Truncated(after).Keys == after.Keys;
  }

  class AttendanceDB {
    /** `@attendance`: card id to check-in. */
    var attendance: map<string, Attendance>
    /** The period's file, as the lines `each_line` would give. */
    var log: seq<string>

    ghost predicate Valid()
      reads this
    {
      WellKeyed(attendance)
    }

    /** Reading the file back rebuilds the hash, to the second. */
    ghost predicate Recoverable()
      reads this
    {
      Replay(log) == Success(Truncated(attendance))
    }

    /**
     * `initialize(filename)`: `existing` is the file's lines when it exists.
     * The source raises on a line it cannot parse; such a file is excluded.
     */
    constructor (existing: Option<seq<string>>)
      requires existing.Some? ==> Replay(existing.value).Success?
      ensures Valid() && Recoverable()
      ensures existing.None? ==> attendance == map[] && log == []
      ensures existing.Some? ==> attendance == Replay(existing.value).value && log == existing.value
    {
      var m: map<string, Attendance> := map[];
      var lines: seq<string> := [];
      if existing.Some? {
        lines := existing.value;
        var r := LoadLines(lines, RecordEffect);
        m := r.value;
      }
      attendance := m;
      log := lines;
    }

    /** `exists?(idm)`. */
    method Exists(idm: string) returns (b: bool)
      ensures b <==> idm in attendance
    {
      b := idm in attendance;
    }

    /** `self[idm]`: the check-in for `idm`, nil when there is none. */
    method Get(idm: string) returns (r: Option<Attendance>)
      requires Valid()
      ensures r.Some? <==> idm in attendance
      ensures r.Some? ==> r.value == attendance[idm] && r.value.idm == idm
    {
      if idm in attendance {
        r := Some(attendance[idm]);
      } else {
        r := None;
      }
    }

    /**
     * `store(attendance, student)`: set the hash entry and append exactly
     * one tab-separated line; the file keeps rebuilding the hash.
     */
    method Store(a: Attendance, s: Student)
      requires Valid() && a.time.Valid()
      modifies this
      ensures Valid()
      ensures attendance == old(attendance)[a.idm := a]
      ensures a.idm in attendance && attendance[a.idm] == a
      ensures forall k :: k != a.idm ==> (k in attendance <==> k in old(attendance))
      ensures forall k :: k != a.idm && k in old(attendance) ==> attendance[k] == old(attendance)[k]
      ensures log == old(log) + [PutsLine(RecordLine(a, s))]
      ensures old(Recoverable()) && Writable(a, s) ==> Recoverable()
    {
      if Recoverable() && Writable(a, s) {
        ReplayAfterStore(log, attendance, a, s);
      }
      attendance := attendance[a.idm := a];
      log := log + [PutsLine(RecordLine(a, s))];
    }
  }
}
