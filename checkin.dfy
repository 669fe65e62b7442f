/**
 * The block handed to `CardReader`: for each card id read, look it up in
 * the roster and the attendance store, store a first check-in, classify a
 * repeat, and remember the id as `prev_idm`.
 */
module CheckIn {
  import opened Base
  import opened Text
  import opened Timestamp
  import opened Records
  import opened AttendanceStore

  /** Which notification the read leads to (`on_success`, `on_do_nothing`, ...). */
  datatype Outcome =
    | Succeeded(a: Attendance, s: Student)
    | DoNothing(a: Attendance, s: Student)
    | NoticeIgnorance(a: Attendance, s: Student)
    | UnknownCard(idm: string)

  /** The state one read changes: the store's hash, its file, and `prev_idm`. */
  datatype Desk = Desk(stored: map<string, Attendance>, log: seq<string>, prev: Option<string>)

  /** One read of card `idm` at time `now` (the `Time.new` of a first check-in). */
  function Step(roster: map<string, Student>, d: Desk, idm: string, now: Time): (r: (Desk, Outcome))
    requires now.Valid()
    ensures r.0.prev == Some(idm)
    ensures r.1.Succeeded? <==> idm in roster && idm !in d.stored
    ensures r.1.DoNothing? <==> idm in roster && idm in d.stored && d.prev == Some(idm)
    ensures r.1.NoticeIgnorance? <==> idm in roster && idm in d.stored && d.prev != Some(idm)
    ensures r.1.UnknownCard? <==> idm !in roster
    ensures r.1.Succeeded? ==>
      && r.1 == Succeeded(Attendance(idm, now), roster[idm])
      && r.0.stored == d.stored[idm := Attendance(idm, now)]
      && r.0.log == d.log + [PutsLine(RecordLine(Attendance(idm, now), roster[idm]))]
    ensures !r.1.Succeeded? ==> r.0.stored == d.stored && r.0.log == d.log
    ensures (r.1.DoNothing? || r.1.NoticeIgnorance?) ==> r.1.a == d.stored[idm] && r.1.s == roster[idm]
  {
    if idm in roster then
      var s := roster[idm];
      if idm in d.stored then
        var a := d.stored[idm];
        (d.(prev := Some(idm)), if d.prev == Some(idm) then DoNothing(a, s) else NoticeIgnorance(a, s))
      else
        var a := Attendance(idm, now);
        (Desk(d.stored[idm := a], d.log + [PutsLine(RecordLine(a, s))], Some(idm)), Succeeded(a, s))
    else
      (d.(prev := Some(idm)), UnknownCard(idm))
  }

  /**
   * The same read as the source is written: on a card not in the roster it
   * calls `on_unknown_card(a)` with `a` nil, whose `attendance.idm` raises
   * outside the reader's `rescue PasoriError`, so the reader stops (None).
   */
  function StepAsWritten(roster: map<string, Student>, d: Desk, idm: string, now: Time): (r: Option<(Desk, Outcome)>)
    requires now.Valid()
    ensures r.None? <==> idm !in roster
    ensures r.Some? ==> !r.value.1.UnknownCard? && r.value.0.prev == Some(idm)
  {
    if idm in roster then Some(Step(roster, d, idm, now)) else None
  }

  /** The as-written step agrees with `Step` on roster cards and stops the reader on any other card. */
  lemma UnknownCardStopsAsWritten(roster: map<string, Student>, d: Desk, idm: string, now: Time)
    requires now.Valid()
    ensures idm in roster ==> StepAsWritten(roster, d, idm, now) == Some(Step(roster, d, idm, now))
    ensures idm !in roster ==>
      StepAsWritten(roster, d, idm, now).None?
      && Step(roster, d, idm, now) == (d.(prev := Some(idm)), UnknownCard(idm))
  {
  }

  /** A concrete case: an empty roster and any tapped card. */
  lemma UnknownCardExample()
    ensures StepAsWritten(map[], Desk(map[], [], None), "0123456789ABCDEF", Time(2013, 4, 5, 9, 5, 0, 0)).None?
  {
  }

  /** Reads handled in order, from desk `d`: the final desk and the outcomes. */
  function Run(roster: map<string, Student>, d: Desk, taps: seq<(string, Time)>): (r: (Desk, seq<Outcome>))
    requires forall i :: 0 <= i < |taps| ==> taps[i].1.Valid()
    ensures |r.1| == |taps|
  {
    if |taps| == 0 then (d, [])
    else
      var init := taps[..|taps| - 1];
      assert forall i :: 0 <= i < |init| ==> init[i] == taps[i];
      var (d', outs) := Run(roster, d, init);
      var (d'', o) := Step(roster, d', taps[|taps| - 1].0, taps[|taps| - 1].1);
      (d'', outs + [o])
  }

  /** A run of one more read is the run so far followed by that read. */
  lemma RunSnoc(roster: map<string, Student>, d: Desk, taps: seq<(string, Time)>)
    requires forall i :: 0 <= i < |taps| ==> taps[i].1.Valid()
    requires |taps| > 0
    ensures var p := Run(roster, d, taps[..|taps| - 1]);
      var q := Step(roster, p.0, taps[|taps| - 1].0, taps[|taps| - 1].1);
      Run(roster, d, taps) == (q.0, p.1 + [q.1])
  {
  }

  /** Reads are of card `k` and come from a roster card. */
  predicate ReadOf(read: (string, Time), roster: map<string, Student>, k: string)
  {
    read.0 == k && k in roster
  }

  /** Some read of a run is of card `k` exactly when one before the last is, or the last is. */
  lemma ReadOfSnoc(roster: map<string, Student>, taps: seq<(string, Time)>, init: seq<(string, Time)>, k: string)
    requires |taps| > 0 && init == taps[..|taps| - 1]
    ensures (exists i :: 0 <= i < |taps| && ReadOf(taps[i], roster, k)) <==>
      (exists i :: 0 <= i < |init| && ReadOf(init[i], roster, k)) || ReadOf(taps[|taps| - 1], roster, k)
  {
    if exists i :: 0 <= i < |taps| && ReadOf(taps[i], roster, k) {
      var i :| 0 <= i < |taps| && ReadOf(taps[i], roster, k);
      if i < |init| {
        assert ReadOf(init[i], roster, k);
      }
    }
    if exists i :: 0 <= i < |init| && ReadOf(init[i], roster, k) {
      var i :| 0 <= i < |init| && ReadOf(init[i], roster, k);
      assert ReadOf(taps[i], roster, k);
    }
  }

  /** One read adds its card to the store when it is a roster card, and changes no entry already there. */
  lemma StepStore(roster: map<string, Student>, d: Desk, idm: string, now: Time)
    requires now.Valid()
    ensures forall k :: k in Step(roster, d, idm, now).0.stored <==> k in d.stored || ReadOf((idm, now), roster, k)
    ensures forall k :: k in d.stored ==> Step(roster, d, idm, now).0.stored[k] == d.stored[k]
    ensures Step(roster, d, idm, now).0.prev == Some(idm)
  {
  }

  /**
   * After a run the store holds the ids it held before plus every roster id
   * read, earlier entries are never replaced, and `prev_idm` is the last id read.
   */
  lemma {:induction false} RunStore(roster: map<string, Student>, d: Desk, taps: seq<(string, Time)>)
    requires forall i :: 0 <= i < |taps| ==> taps[i].1.Valid()
    ensures forall k :: k in Run(roster, d, taps).0.stored <==>
      k in d.stored || exists i :: 0 <= i < |taps| && ReadOf(taps[i], roster, k)
    ensures forall k :: k in d.stored ==> Run(roster, d, taps).0.stored[k] == d.stored[k]
    ensures |taps| > 0 ==> Run(roster, d, taps).0.prev == Some(taps[|taps| - 1].0)
    ensures |taps| == 0 ==> Run(roster, d, taps).0 == d
  {
    if |taps| > 0 {
      var init := taps[..|taps| - 1];
      var last := taps[|taps| - 1];
      RunStore(roster, d, init);
      var p := Run(roster, d, init);
      var d' := Step(roster, p.0, last.0, last.1).0;
      assert Run(roster, d, taps).0 == d' by {
        RunSnoc(roster, d, taps);
      }
      StepStore(roster, p.0, last.0, last.1);
      forall k
        ensures k in d'.stored <==> k in d.stored || exists i :: 0 <= i < |taps| && ReadOf(taps[i], roster, k)
      {
        ReadOfSnoc(roster, taps, init, k);
      }
    }
  }

  /** How many outcomes are a first check-in of card `k`. */
  function SuccessCount(outs: seq<Outcome>, k: string): nat
  {
    if |outs| == 0 then 0
    else SuccessCount(outs[..|outs| - 1], k) + if outs[|outs| - 1].Succeeded? && outs[|outs| - 1].a.idm == k then 1 else 0
  }

  /** One more outcome adds one to the count when it is a first check-in of `k`. */
  lemma SuccessCountSnoc(outs: seq<Outcome>, o: Outcome, k: string)
    ensures SuccessCount(outs + [o], k) == SuccessCount(outs, k) + if o.Succeeded? && o.a.idm == k then 1 else 0
  {
    assert (outs + [o])[..|outs|] == outs;
  }

  /** One more outcome adds one to the total when it is a first check-in. */
  lemma SuccessesSnoc(outs: seq<Outcome>, o: Outcome)
    ensures Successes(outs + [o]) == Successes(outs) + if o.Succeeded? then 1 else 0
  {
    assert (outs + [o])[..|outs|] == outs;
  }

  /**
   * Every roster card is stored at most once: a run yields one `Succeeded`
   * for `k` when `k` is a roster card read in the run and not stored before
   * it, and none otherwise.
   */
  lemma {:induction false} StoredExactlyOnce(roster: map<string, Student>, d: Desk, taps: seq<(string, Time)>, k: string)
    requires forall i :: 0 <= i < |taps| ==> taps[i].1.Valid()
    ensures SuccessCount(Run(roster, d, taps).1, k) ==
      if k !in d.stored && exists i :: 0 <= i < |taps| && ReadOf(taps[i], roster, k) then 1 else 0
  {
    if |taps| > 0 {
      var init := taps[..|taps| - 1];
      var last := taps[|taps| - 1];
      StoredExactlyOnce(roster, d, init, k);
      var p := Run(roster, d, init);
      var q := Step(roster, p.0, last.0, last.1);
      RunSnoc(roster, d, taps);
      SuccessCountSnoc(p.1, q.1, k);
      assert k in p.0.stored <==> k in d.stored || exists i :: 0 <= i < |init| && ReadOf(init[i], roster, k) by {
        RunStore(roster, d, init);
      }
      ReadOfSnoc(roster, taps, init, k);
    }
  }

  /** Each first check-in adds exactly one line to the file; other reads add none. */
  lemma {:induction false} RunLog(roster: map<string, Student>, d: Desk, taps: seq<(string, Time)>)
    requires forall i :: 0 <= i < |taps| ==> taps[i].1.Valid()
    ensures |Run(roster, d, taps).0.log| == |d.log| + Successes(Run(roster, d, taps).1)
    ensures Run(roster, d, taps).0.log[..|d.log|] == d.log
  {
    if |taps| > 0 {
      var init := taps[..|taps| - 1];
      var last := taps[|taps| - 1];
      RunLog(roster, d, init);
      var p := Run(roster, d, init);
      var q := Step(roster, p.0, last.0, last.1);
      RunSnoc(roster, d, taps);
      SuccessesSnoc(p.1, q.1);
      assert q.0.log[..|d.log|] == d.log by {
        assert q.0.log[..|p.0.log|] == p.0.log;
      }
    }
  }

  /** How many outcomes are first check-ins. */
  function Successes(outs: seq<Outcome>): nat
  {
    if |outs| == 0 then 0 else Successes(outs[..|outs| - 1]) + if outs[|outs| - 1].Succeeded? then 1 else 0
  }

  /** A roster card left on the reader: the second of two consecutive reads does nothing. */
  lemma SecondTapDoesNothing(roster: map<string, Student>, d: Desk, k: string, t1: Time, t2: Time)
    requires k in roster && t1.Valid() && t2.Valid()
    ensures Step(roster, Step(roster, d, k, t1).0, k, t2).1.DoNothing?
    ensures Step(roster, Step(roster, d, k, t1).0, k, t2).0 == Step(roster, d, k, t1).0
  {
  }

  /** Roster cards whose records the file format carries unchanged. */
  predicate WritableRoster(roster: map<string, Student>)
  {
    forall k :: k in roster ==> k != "" && Free(k, {Tab, '\r', '\n'}) && SingleLine(roster[k])
  }

  /** A run keeps the file able to rebuild the store, so a restart loses no check-in. */
  lemma {:induction false} RunRecoverable(roster: map<string, Student>, d: Desk, taps: seq<(string, Time)>)
    requires forall i :: 0 <= i < |taps| ==> taps[i].1.Valid()
    requires WritableRoster(roster)
    requires Replay(d.log) == Success(Truncated(d.stored))
    ensures Replay(Run(roster, d, taps).0.log) == Success(Truncated(Run(roster, d, taps).0.stored))
  {
    if |taps| > 0 {
      var init := taps[..|taps| - 1];
      var (k, now) := taps[|taps| - 1];
      assert forall i :: 0 <= i < |init| ==> init[i] == taps[i];
      RunRecoverable(roster, d, init);
      var d' := Run(roster, d, init).0;
      if k in roster && k !in d'.stored {
        assert Writable(Attendance(k, now), roster[k]);
        ReplayAfterStore(d'.log, d'.stored, Attendance(k, now), roster[k]);
      }
    }
  }

  /** The reader's state: the roster, the store and `prev_idm`. */
  class Reader {
    /** `students`, loaded once at start-up. */
    const students: map<string, Student>
    /** `db`, the period's attendance store. */
    const db: AttendanceDB
    /** `prev_idm`: the card id of the previous read, nil before the first. */
    var prevIdm: Option<string>

    ghost function State(): Desk
      reads this, db
    {
      Desk(db.attendance, db.log, prevIdm)
    }

    constructor (students: map<string, Student>, db: AttendanceDB)
      ensures this.students == students && this.db == db && prevIdm == None
    {
      this.students := students;
      this.db := db;
      prevIdm := None;
    }

    /** The block run for each card id the reader yields; `now` stands for `Time.new`. */
    method OnRead(idm: string, now: Time) returns (o: Outcome)
      requires db.Valid() && now.Valid()
      modifies this, db
      ensures db.Valid()
      ensures (State(), o) == Step(students, old(State()), idm, now)
      ensures db.Recoverable() <== old(db.Recoverable()) && (idm in students ==> Writable(Attendance(idm, now), students[idm]))
    {
      if idm in students {
        var s := students[idm];
        var stored := db.Exists(idm);
        if stored {
          var a := db.Get(idm);
          if prevIdm == Some(idm) {
            o := DoNothing(a.value, s);
          } else {
            o := NoticeIgnorance(a.value, s);
          }
        } else {
          var a := Attendance(idm, now);
          db.Store(a, s);
          o := Succeeded(a, s);
        }
      } else {
        o := UnknownCard(idm);
      }
      prevIdm := Some(idm);
    }
  }
}
