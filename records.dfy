/**
 * The two records of the reader and their text forms: a `Student` is one
 * comma-separated line of `students.csv`, an `Attendance` is written as one
 * tab-separated line of the session's attendance file and read back from it.
 */
module Records {
  import opened Base
  import opened Text
  import opened Timestamp
  import opened LineLoad

  /** A roster entry; a field the line does not reach is Ruby's `nil`, which `join` writes as "". */
  datatype Student = Student(idm: string, studentId: string, fullname: string, furigana: string, gender: string)

  /** A check-in: the card id and the time it was first read. */
  datatype Attendance = Attendance(idm: string, time: Time)

  const Tab: char := '\t'
  const Comma: char := ','

  /** No tab, comma or line break: the characters the files use as structure. */
  predicate Plain(s: string)
  {
    Free(s, {'\t', '\r', '\n', ','})
  }

  /** The student fields a record line carries, all plain. */
  predicate PlainStudent(s: Student)
  {
    Plain(s.studentId) && Plain(s.fullname) && Plain(s.furigana) && Plain(s.gender)
  }

  /** The student fields a record line carries hold no line break, so the line stays one line. */
  predicate SingleLine(s: Student)
  {
    Free(s.studentId, {'\r', '\n'}) && Free(s.fullname, {'\r', '\n'})
    && Free(s.furigana, {'\r', '\n'}) && Free(s.gender, {'\r', '\n'})
  }

  // ---- roster line: idm, student_id, fullname, furigana, gender ----

  /** `idm, student_id, fullname, furigana, gender = fields`: a missing field is nil, written "". */
  function StudentFrom(f: seq<string>): Student
  {
    Student(if |f| > 0 then f[0] else "", if |f| > 1 then f[1] else "", if |f| > 2 then f[2] else "",
            if |f| > 3 then f[3] else "", if |f| > 4 then f[4] else "")
  }

  /**
   * One chopped roster line. Fewer than four fields leaves `furigana` nil and
   * the source's `furigana.to_roma` raises, which ends the load.
   */
  function StudentEffect(line: string): (r: Effect<Student>)
    ensures r.Skip? == false
    ensures r.Put? <==> |Split(line, {Comma})| >= 4
    ensures r.Put? ==> r.key == r.value.idm == Split(line, {Comma})[0]
  {
    var f := Split(line, {Comma});
    if |f| < 4 then Abort
    else Put(f[0], StudentFrom(f))
  }

  /** The roster file's line for a student. */
  function StudentLine(s: Student): string
  {
    Join([s.idm, s.studentId, s.fullname, s.furigana, s.gender], Comma) + "\n"
  }

  /** A roster line for a student with a furigana reads back as that student, keyed by its idm. */
  lemma StudentRoundTrip(s: Student)
    requires Plain(s.idm) && PlainStudent(s)
    requires s.furigana != "" && (s.idm != "" ==> s.idm[0] != '#')
    ensures LineEffect(StudentLine(s), StudentEffect) == Put(s.idm, s)
  {
    StudentLineKept(s);
    StudentFieldsBack(s);
  }

  /** A roster line is neither a comment nor blank, and `chop` leaves the joined fields. */
  lemma StudentLineKept(s: Student)
    requires Plain(s.idm) && PlainStudent(s)
    requires s.furigana != "" && (s.idm != "" ==> s.idm[0] != '#')
    ensures !IsComment(StudentLine(s)) && !IsBlank(StudentLine(s))
    ensures Chop(StudentLine(s)) == Join([s.idm, s.studentId, s.fullname, s.furigana, s.gender], Comma)
  {
    var fs := [s.idm, s.studentId, s.fullname, s.furigana, s.gender];
    var body := Join(fs, Comma);
    JoinFree(fs, Comma, {'\r', '\n'});
    assert StudentLine(s) == PutsLine(body);
    ChopPuts(body);
    assert |body| > 0 && body[0] != '\r' && body[0] != '#' by {
      if s.idm != "" {
        assert body[..|s.idm|] == s.idm;
      }
    }
    NotComment(body);
  }

  /** The comma fields of a roster line give back the student. */
  lemma StudentFieldsBack(s: Student)
    requires Plain(s.idm) && PlainStudent(s) && s.furigana != ""
    ensures StudentEffect(Join([s.idm, s.studentId, s.fullname, s.furigana, s.gender], Comma)) == Put(s.idm, s)
  {
    var fs := [s.idm, s.studentId, s.fullname, s.furigana, s.gender];
    SplitJoin(fs, Comma, {Comma});
    var d := DropTrailingEmpty(fs);
    assert d == fs || (s.gender == "" && d == fs[..4]) by {
      assert fs[3] != "";
    }
    assert StudentFrom(d) == s;
  }

  /** A line without inner line breaks is a comment only if it starts with `#`. */
  lemma NotComment(body: string)
    requires Free(body, {'\r', '\n'})
    requires |body| == 0 || body[0] != '#'
    ensures !IsComment(body + "\n")
  {
    var l := body + "\n";
    forall i | 0 <= i < |l|
      ensures !(l[i] == '#' && (i == 0 || l[i - 1] == '\n'))
    {
      if i > 0 {
        assert l[i - 1] == body[i - 1];
      }
    }
  }

  // ---- attendance line: ftime, idm, student_id, fullname, furigana, gender ----

  /**
   * `[ftime, a.idm, s.student_id, s.fullname, s.furigana, s.gender].join(SEPARATOR)`:
   * the written time, a tab, then the card id and the student's fields.
   */
  function RecordLine(a: Attendance, s: Student): (r: string)
    requires a.time.Valid()
    ensures |Format(a.time)| < |r| && r[..|Format(a.time)|] == Format(a.time) && r[|Format(a.time)|] == Tab
  {
    Join([Format(a.time), a.idm, s.studentId, s.fullname, s.furigana, s.gender], Tab)
  }

  /**
   * One chopped attendance line. No fields (nil `ftime`) or a time that does
   * not parse raises; a line with only a time sets the nil key, which no card
   * id can look up, and is skipped here.
   */
  function RecordEffect(line: string): (r: Effect<Attendance>)
    ensures r.Put? ==> r.key == r.value.idm && r.value.time.Valid() && r.value.time.nsec == 0
    ensures r.Put? ==> |Split(line, {Tab})| >= 2 && r.key == Split(line, {Tab})[1]
    ensures r.Abort? <==> |Split(line, {Tab})| == 0 || ParseStamp(Split(line, {Tab})[0]).None?
  {
    var f := Split(line, {Tab});
    if |f| == 0 then Abort
    else
      match ParseStamp(f[0])
      case None => Abort
      case Some(t) => if |f| < 2 then Skip else Put(f[1], Attendance(f[1], t))
  }

  /** The fields a record line can hold without changing its shape when read back. */
  predicate Writable(a: Attendance, s: Student)
  {
    a.time.Valid() && a.idm != "" && Free(a.idm, {Tab, '\r', '\n'}) && SingleLine(s)
  }

  /**
   * The line `store` writes is read back by the replay as the same card id
   * with the same time to the second.
   */
  lemma RecordRoundTrip(a: Attendance, s: Student)
    requires Writable(a, s)
    ensures LineEffect(PutsLine(RecordLine(a, s)), RecordEffect) == Put(a.idm, Attendance(a.idm, ToSecond(a.time)))
  {
    RecordLineKept(a, s);
    RecordFieldsBack(a, s);
  }

  /** A stored line is neither a comment nor blank, and `chop` removes exactly the newline `puts` added. */
  lemma RecordLineKept(a: Attendance, s: Student)
    requires Writable(a, s)
    ensures !IsComment(PutsLine(RecordLine(a, s))) && !IsBlank(PutsLine(RecordLine(a, s)))
    ensures Chop(PutsLine(RecordLine(a, s))) == RecordLine(a, s)
  {
    var ft := Format(a.time);
    var fs := [ft, a.idm, s.studentId, s.fullname, s.furigana, s.gender];
    var body := RecordLine(a, s);
    JoinFree(fs, Tab, {'\r', '\n'});
    ChopPuts(body);
    assert body[0] == ft[0];
    NotComment(body);
  }

  /** The tab fields of a stored line give back the card id and the time, to the second. */
  lemma RecordFieldsBack(a: Attendance, s: Student)
    requires Writable(a, s)
    ensures RecordEffect(RecordLine(a, s)) == Put(a.idm, Attendance(a.idm, ToSecond(a.time)))
  {
    RecordLineHead(a, s);
    StampRoundTrip(a.time);
  }

  /**
   * The first two tab fields of a record line are the written time and the
   * card id, whatever tabs the student fields hold: all the replay reads.
   */
  lemma RecordLineHead(a: Attendance, s: Student)
    requires Writable(a, s)
    ensures |Split(RecordLine(a, s), {Tab})| >= 2
    ensures Split(RecordLine(a, s), {Tab})[0] == Format(a.time) && Split(RecordLine(a, s), {Tab})[1] == a.idm
  {
    var ft := Format(a.time);
    var fs := [ft, a.idm, s.studentId, s.fullname, s.furigana, s.gender];
    assert Free(ft, {Tab}) by {
      assert Free(ft, {'\t', '\r', '\n', ','});
    }
    assert Free(a.idm, {Tab}) by {
      assert Free(a.idm, {Tab, '\r', '\n'});
    }
    JoinTwo(fs, Tab);
    SplitHead(ft, a.idm, Join(fs[2..], Tab), Tab);
  }

  /** With no tab in the student fields, the record line is the six fields in the source's order. */
  lemma RecordLineFields(a: Attendance, s: Student)
    requires Writable(a, s) && PlainStudent(s)
    ensures Split(RecordLine(a, s), {Tab}) ==
      DropTrailingEmpty([Format(a.time), a.idm, s.studentId, s.fullname, s.furigana, s.gender])
    ensures |Split(RecordLine(a, s), {Tab})| >= 2
    ensures Split(RecordLine(a, s), {Tab})[0] == Format(a.time) && Split(RecordLine(a, s), {Tab})[1] == a.idm
  {
    var ft := Format(a.time);
    var fs := [ft, a.idm, s.studentId, s.fullname, s.furigana, s.gender];
    assert Free(ft, {Tab}) by {
      assert Free(ft, {'\t', '\r', '\n', ','});
    }
    assert forall i :: 0 <= i < |fs| ==> Free(fs[i], {Tab});
    assert RecordLine(a, s) == Join(fs, Tab);
    SplitJoin(fs, Tab, {Tab});
    var d := DropTrailingEmpty(fs);
    assert |d| >= 2 && d[0] == ft && d[1] == a.idm by {
      assert fs[1] != "";
    }
  }
}
