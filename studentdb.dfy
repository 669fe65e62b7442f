/**
 * `StudentDB::Load`: the roster, a hash from card id to `Student` built
 * from the lines of `students.csv`.
 */
module StudentDB {
  import opened Base
  import opened Text
  import opened LineLoad
  import opened Records

  /**
   * The roster load: every non-comment, non-blank line keys a `Student`
   * by its first comma field. `Failure(i)` is line `i` having fewer than
   * four fields, on which the source raises.
   */
  method Load(lines: seq<string>) returns (r: Result<map<string, Student>, nat>)
    ensures r == LineLoad.Load(lines, StudentEffect)
    ensures r.Success? ==> forall k :: k in r.value ==> r.value[k].idm == k
  {
    r := LoadLines(lines, StudentEffect);
    if r.Success? {
      forall k | k in r.value
        ensures r.value[k].idm == k
      {
        LoadLastWins(lines, StudentEffect, k);
      }
    }
  }

  /** The student a roster line describes: its first five comma fields in order. */
  function StudentOf(line: string): Student
  {
    StudentFrom(Split(Chop(line), {Comma}))
  }

  /** Line `i` of the roster file is a student line for card `k`. */
  predicate Keys(line: string, k: string)
  {
    PutsKey(line, StudentEffect, k)
  }

  /**
   * A loaded roster holds exactly the ids that start a student line, and
   * each maps to the student of the LAST line with that id.
   */
  lemma RosterLastLineWins(lines: seq<string>, k: string)
    requires LineLoad.Load(lines, StudentEffect).Success?
    ensures k in LineLoad.Load(lines, StudentEffect).value <==> exists i :: 0 <= i < |lines| && Keys(lines[i], k)
    ensures k in LineLoad.Load(lines, StudentEffect).value ==>
      exists i :: 0 <= i < |lines| && Keys(lines[i], k)
        && LineLoad.Load(lines, StudentEffect).value[k] == StudentOf(lines[i])
        && forall j :: i < j < |lines| ==> !Keys(lines[j], k)
  {
    LoadLastWins(lines, StudentEffect, k);
  }

  /** The load stops exactly when some student line has fewer than four fields. */
  lemma RosterStopsOnShortLine(lines: seq<string>)
    ensures LineLoad.Load(lines, StudentEffect).Failure? <==>
      exists i :: 0 <= i < |lines| && !IsComment(lines[i]) && !IsBlank(lines[i])
        && |Split(Chop(lines[i]), {Comma})| < 4
  {
    LoadStopsAtFirstAbort(lines, StudentEffect);
  }

  /** What a roster file listing `ss` in order loads to. */
  function RosterOf(ss: seq<Student>): map<string, Student>
  {
    if |ss| == 0 then map[] else RosterOf(ss[..|ss| - 1])[ss[|ss| - 1].idm := ss[|ss| - 1]]
  }

  function RosterFile(ss: seq<Student>): seq<string>
  {
    if |ss| == 0 then [] else RosterFile(ss[..|ss| - 1]) + [StudentLine(ss[|ss| - 1])]
  }

  /** A roster entry the file format can carry unchanged. */
  predicate Listable(s: Student)
  {
    && Plain(s.idm) && PlainStudent(s)
    && s.furigana != "" && (s.idm != "" ==> s.idm[0] != '#')
  }

  /** Loading a roster file written from `ss` gives each student under its id, later duplicates winning. */
  lemma {:induction false} RosterRoundTrip(ss: seq<Student>)
    requires forall i :: 0 <= i < |ss| ==> Listable(ss[i])
    ensures LineLoad.Load(RosterFile(ss), StudentEffect) == Success(RosterOf(ss))
  {
    if |ss| > 0 {
      var init := ss[..|ss| - 1];
      var s := ss[|ss| - 1];
      assert forall i :: 0 <= i < |init| ==> init[i] == ss[i];
      RosterRoundTrip(init);
      StudentRoundTrip(s);
      LoadAppend(RosterFile(init), StudentLine(s), StudentEffect);
    }
  }
}
