/** The two writing handlers of the attendance backend, generate_qr and
    mark_attendance, over in-memory tables.

    Each handler is first given as a step function from the tables before the
    request to the tables after it and the reply; AttendanceServer then holds
    the tables in fields and updates them in place, and each of its methods is
    proved to do what the step function says. */
module Backend {
  import opened Wrappers
  import opened Schema
  import opened Stats
  import Decimal

  datatype Status = Success | Error

  /** The JSON body besides `status`. DatabaseError stands for the text of a
      database exception, which the model does not reproduce. */
  datatype Body = Message(text: string) | QrIssued(qrCodeData: string, sessionId: int) | DatabaseError

  /** What a handler returns: the `status` field, the HTTP code and the rest of the body. */
  datatype Reply = Reply(status: Status, code: int, body: Body)

  const SessionExists: Reply := Reply(Error, 409, Message("Session already exists"))
  const InvalidQr: Reply := Reply(Error, 400, Message("Invalid QR Code"))
  const AlreadyMarked: Reply := Reply(Error, 409, Message("Already marked"))
  const Marked: Reply := Reply(Success, 200, Message("Attendance marked"))
  /** The INSERT into attendance broke its FOREIGN KEY on student_id. */
  const UnknownStudent: Reply := Reply(Error, 500, DatabaseError)

  /** The three tables and the next values of the two SERIAL id sequences that
      the handlers draw from. */
  datatype Db = Db(users: seq<User>, sessions: seq<Session>, attendance: seq<Attendance>,
                   nextSessionId: int, nextAttendanceId: int)

  /** The constraints the schema keeps on the tables, plus the state of the id
      sequences: every id handed out so far is below the next one. */
  predicate Consistent(db: Db)
  {
    && UserIdsDistinct(db.users)
    && SessionIdsDistinct(db.sessions)
    && AttendanceIdsDistinct(db.attendance)
    && (forall i :: 0 <= i < |db.sessions| ==> db.sessions[i].id < db.nextSessionId)
    && (forall k :: 0 <= k < |db.attendance| ==> db.attendance[k].id < db.nextAttendanceId)
    && ForeignKeysHold(db.users, db.sessions, db.attendance)
  }

  /** The (session, student) pair a mark is about. */
  function MarkKey(a: Attendance): (int, int)
  {
    (a.sessionId, a.studentId)
  }

  /** At most one mark per (session, student). */
  predicate MarksUnique(attendance: seq<Attendance>)
  {
    forall i, j :: 0 <= i < j < |attendance| ==> MarkKey(attendance[i]) != MarkKey(attendance[j])
  }

  /** At most one session per (course name, course type, date, professor). */
  predicate SessionKeysUnique(sessions: seq<Session>)
  {
    forall i, j :: 0 <= i < j < |sessions| ==> SessionKey(sessions[i]) != SessionKey(sessions[j])
  }

  function SessionKey(s: Session): (string, string, string, int)
  {
    (s.courseName, s.courseType, s.sessionDate, s.professorId)
  }

  /** The QR text of a new session: date, name, type, professor id and the
      textual timestamp, joined by '-'. */
  function QrData(sessionDate: string, courseName: string, courseType: string, professorId: int, timestamp: string)
    : (r: string)
    ensures |r| == |sessionDate| + |courseName| + |courseType| + |Decimal.IntToString(professorId)| + |timestamp| + 4
    ensures r[..|sessionDate|] == sessionDate && r[|sessionDate|] == '-'
    ensures r[|r| - |timestamp|..] == timestamp && r[|r| - |timestamp| - 1] == '-'
  {
    sessionDate + "-" + courseName + "-" + courseType + "-" + Decimal.IntToString(professorId) + "-" + timestamp
  }

  /** The text after the last '-' of s (all of s when it has none). */
  function LastField(s: string): (r: string)
    ensures '-' !in r
    ensures |r| <= |s| && r == s[|s| - |r|..]
  {
    if s == [] || s[|s| - 1] == '-' then []
    else LastField(s[..|s| - 1]) + [s[|s| - 1]]
  }

  lemma {:induction false} LastFieldAfterDash(prefix: string, t: string)
    requires '-' !in t
    ensures LastField(prefix + "-" + t) == t
  {
    var s := prefix + "-" + t;
    if t == [] {
      assert s[|s| - 1] == '-';
    } else {
      var t' := t[..|t| - 1];
      assert s[..|s| - 1] == prefix + "-" + t';
      assert s[|s| - 1] == t[|t| - 1];
      LastFieldAfterDash(prefix, t');
      assert t == t' + [t[|t| - 1]];
    }
  }

  /** A timestamp without '-' can be read back from the end of the QR text,
      whatever the other fields hold. */
  lemma {:induction false} QrDataEndsWithTimestamp(sessionDate: string, courseName: string, courseType: string,
                                                   professorId: int, timestamp: string)
    requires '-' !in timestamp
    ensures LastField(QrData(sessionDate, courseName, courseType, professorId, timestamp)) == timestamp
  {
    var prefix := sessionDate + "-" + courseName + "-" + courseType + "-" + Decimal.IntToString(professorId);
    assert QrData(sessionDate, courseName, courseType, professorId, timestamp) == prefix + "-" + timestamp;
    LastFieldAfterDash(prefix, timestamp);
  }

  /** So two sessions created at different timestamps (without '-') get
      different QR texts, even for the same course. */
  lemma {:induction false} QrDataDistinctTimestamps(d1: string, n1: string, c1: string, p1: int, t1: string,
                                                    d2: string, n2: string, c2: string, p2: int, t2: string)
    requires '-' !in t1 && '-' !in t2 && t1 != t2
    ensures QrData(d1, n1, c1, p1, t1) != QrData(d2, n2, c2, p2, t2)
  {
    QrDataEndsWithTimestamp(d1, n1, c1, p1, t1);
    QrDataEndsWithTimestamp(d2, n2, c2, p2, t2);
  }

  /** The other fields are not recoverable: a date holding '-' can swap text
      with the course name, so two different sessions created at the same
      timestamp can share one QR text. */
  lemma QrDataAmbiguousAtSameTimestamp()
    ensures QrData("2025-01-10", "Math", "TD", 1, "1736500000.5")
         == QrData("2025-01", "10-Math", "TD", 1, "1736500000.5")
  {
  }

  /** The session a QR text opens: the first in table order whose text matches. */
  function FindSessionByQr(sessions: seq<Session>, qrCodeData: string): (r: Option<nat>)
    ensures r.None? <==> forall i :: 0 <= i < |sessions| ==> sessions[i].qrCodeData != qrCodeData
    ensures r.Some? ==> r.value < |sessions| && sessions[r.value].qrCodeData == qrCodeData &&
                        forall i :: 0 <= i < r.value ==> sessions[i].qrCodeData != qrCodeData
  {
    if sessions == [] then None
    else if sessions[0].qrCodeData == qrCodeData then Some(0)
    else
      match FindSessionByQr(sessions[1..], qrCodeData)
      case None => None
      case Some(k) => Some(k + 1)
  }

  /** Whether a session with this (name, type, date, professor) exists. */
  predicate SessionKeyTaken(sessions: seq<Session>, key: (string, string, string, int))
  {
    exists i :: 0 <= i < |sessions| && SessionKey(sessions[i]) == key
  }

  /** COUNT(*) of the marks of one student in one session. */
  function CountMarks(attendance: seq<Attendance>, sessionId: int, studentId: int): (r: nat)
    ensures r <= |attendance|
    ensures r > 0 <==> exists k :: 0 <= k < |attendance| && MarkKey(attendance[k]) == (sessionId, studentId)
  {
    if attendance == [] then 0
    else
      var rest := CountMarks(attendance[1..], sessionId, studentId);
      assert forall k :: 1 <= k < |attendance| ==> attendance[k] == attendance[1..][k - 1];
      (if MarkKey(attendance[0]) == (sessionId, studentId) then 1 else 0) + rest
  }

  /** With marks unique, a student has at most one mark in a session. */
  lemma {:induction false} CountMarksAtMostOne(attendance: seq<Attendance>, sessionId: int, studentId: int)
    requires MarksUnique(attendance)
    ensures CountMarks(attendance, sessionId, studentId) <= 1
  {
    if attendance != [] {
      var tail := attendance[1..];
      assert MarksUnique(tail) by {
        forall i, j | 0 <= i < j < |tail| ensures MarkKey(tail[i]) != MarkKey(tail[j]) {
          assert tail[i] == attendance[i + 1] && tail[j] == attendance[j + 1];
        }
      }
      CountMarksAtMostOne(tail, sessionId, studentId);
      if MarkKey(attendance[0]) == (sessionId, studentId) {
        forall k | 0 <= k < |tail| ensures MarkKey(tail[k]) != (sessionId, studentId) {
          assert tail[k] == attendance[k + 1];
        }
      }
    }
  }

  /** generate_qr: refuse a second session with the same (name, type, date,
      professor); otherwise insert one session under the next id, with its QR
      text, and return that text and the id. */
  function GenerateQrStep(db: Db, sessionDate: string, courseName: string, courseType: string, professorId: int,
                          timestamp: string): (r: (Db, Reply))
    ensures r.0.users == db.users && r.0.attendance == db.attendance && r.0.nextAttendanceId == db.nextAttendanceId
    ensures r.1 == SessionExists <==> SessionKeyTaken(db.sessions, (courseName, courseType, sessionDate, professorId))
    ensures r.1 == SessionExists ==> r.0 == db
    ensures r.1 != SessionExists ==>
      var qr := QrData(sessionDate, courseName, courseType, professorId, timestamp);
      && r.1 == Reply(Success, 200, QrIssued(qr, db.nextSessionId))
      && r.0.sessions == db.sessions + [Session(db.nextSessionId, courseName, courseType, sessionDate, professorId, qr)]
      && r.0.nextSessionId == db.nextSessionId + 1
    ensures SessionKeyTaken(r.0.sessions, (courseName, courseType, sessionDate, professorId))
  {
    if SessionKeyTaken(db.sessions, (courseName, courseType, sessionDate, professorId)) then (db, SessionExists)
    else
      var qr := QrData(sessionDate, courseName, courseType, professorId, timestamp);
      var s := Session(db.nextSessionId, courseName, courseType, sessionDate, professorId, qr);
      assert (db.sessions + [s])[|db.sessions|] == s;
      (db.(sessions := db.sessions + [s], nextSessionId := db.nextSessionId + 1),
       Reply(Success, 200, QrIssued(qr, db.nextSessionId)))
  }

  /** mark_attendance: refuse an unknown QR text, then a second mark of the
      same student in the same session; otherwise insert one 'present' mark.
      The INSERT draws the next attendance id before the database checks that
      the student exists, so a refused unknown student still uses up an id. */
  function MarkAttendanceStep(db: Db, qrCodeData: string, studentId: int): (r: (Db, Reply))
    ensures r.0.users == db.users && r.0.sessions == db.sessions && r.0.nextSessionId == db.nextSessionId
    ensures r.1 in {InvalidQr, AlreadyMarked, UnknownStudent, Marked}
    ensures r.1 == InvalidQr <==> forall i :: 0 <= i < |db.sessions| ==> db.sessions[i].qrCodeData != qrCodeData
    ensures r.1 == InvalidQr || r.1 == AlreadyMarked ==> r.0 == db
    ensures r.1 == AlreadyMarked ==>
      exists i :: 0 <= i < |db.sessions| && db.sessions[i].qrCodeData == qrCodeData &&
                  CountMarks(db.attendance, db.sessions[i].id, studentId) > 0
    ensures r.1 == UnknownStudent ==>
      !IsUserId(db.users, studentId) && r.0 == db.(nextAttendanceId := db.nextAttendanceId + 1)
    ensures r.1 == Marked ==>
      && IsUserId(db.users, studentId)
      && r.0.nextAttendanceId == db.nextAttendanceId + 1
      && exists i :: 0 <= i < |db.sessions| && db.sessions[i].qrCodeData == qrCodeData &&
                     CountMarks(db.attendance, db.sessions[i].id, studentId) == 0 &&
                     r.0.attendance == db.attendance + [Attendance(db.nextAttendanceId, db.sessions[i].id, studentId, Present)]
    ensures IsUserId(db.users, studentId) && (forall i :: 0 <= i < |db.sessions| ==> db.sessions[i].qrCodeData == qrCodeData ==>
                                                CountMarks(db.attendance, db.sessions[i].id, studentId) == 0) ==>
      r.1 == InvalidQr || r.1 == Marked
  {
    match FindSessionByQr(db.sessions, qrCodeData)
    case None => (db, InvalidQr)
    case Some(k) =>
      var sessionId := db.sessions[k].id;
      if CountMarks(db.attendance, sessionId, studentId) > 0 then (db, AlreadyMarked)
      else if !IsUserId(db.users, studentId) then (db.(nextAttendanceId := db.nextAttendanceId + 1), UnknownStudent)
      else
        var row := Attendance(db.nextAttendanceId, sessionId, studentId, Present);
        (db.(attendance := db.attendance + [row], nextAttendanceId := db.nextAttendanceId + 1), Marked)
  }

  /** generate_qr keeps the schema's constraints and never creates a second
      session for the same course, type, date and professor. */
  lemma {:induction false} GenerateQrKeepsInvariants(db: Db, sessionDate: string, courseName: string, courseType: string,
                                                     professorId: int, timestamp: string)
    requires Consistent(db) && SessionKeysUnique(db.sessions)
    ensures var db' := GenerateQrStep(db, sessionDate, courseName, courseType, professorId, timestamp).0;
      Consistent(db') && SessionKeysUnique(db'.sessions)
  {
    var db' := GenerateQrStep(db, sessionDate, courseName, courseType, professorId, timestamp).0;
    if !SessionKeyTaken(db.sessions, (courseName, courseType, sessionDate, professorId)) {
      var n := |db.sessions|;
      assert forall i :: 0 <= i < n ==> db'.sessions[i] == db.sessions[i];
      forall k | 0 <= k < |db'.attendance|
        ensures IsSessionId(db'.sessions, db'.attendance[k].sessionId)
      {
        var i :| 0 <= i < n && db.sessions[i].id == db.attendance[k].sessionId;
        assert db'.sessions[i].id == db'.attendance[k].sessionId;
      }
    }
  }

  /** mark_attendance keeps the schema's constraints, keeps marks unique per
      (session, student), and writes only 'present'. */
  lemma {:induction false} MarkAttendanceKeepsInvariants(db: Db, qrCodeData: string, studentId: int)
    requires Consistent(db) && MarksUnique(db.attendance)
    ensures var db' := MarkAttendanceStep(db, qrCodeData, studentId).0;
      Consistent(db') && MarksUnique(db'.attendance) &&
      (AllPresent(db.attendance) ==> AllPresent(db'.attendance))
  {
    var (db', reply) := MarkAttendanceStep(db, qrCodeData, studentId);
    if reply == Marked {
      var k := FindSessionByQr(db.sessions, qrCodeData).value;
      var n := |db.attendance|;
      assert forall i :: 0 <= i < n ==> db'.attendance[i] == db.attendance[i];
      assert db'.attendance[n] == Attendance(db.nextAttendanceId, db.sessions[k].id, studentId, Present);
      assert IsSessionId(db.sessions, db.sessions[k].id);
    }
  }

  /** Repeating a successful mark_attendance is refused as 'Already marked'
      and changes nothing. */
  lemma {:induction false} MarkAttendanceRepeat(db: Db, qrCodeData: string, studentId: int)
    requires MarkAttendanceStep(db, qrCodeData, studentId).1 == Marked
    ensures var db' := MarkAttendanceStep(db, qrCodeData, studentId).0;
      MarkAttendanceStep(db', qrCodeData, studentId) == (db', AlreadyMarked)
  {
    var db' := MarkAttendanceStep(db, qrCodeData, studentId).0;
    var k := FindSessionByQr(db.sessions, qrCodeData).value;
    var n := |db.attendance|;
    assert MarkKey(db'.attendance[n]) == (db.sessions[k].id, studentId);
  }

  /** A session just created by generate_qr, whose QR text no older session
      has, accepts the first mark of any existing user and records it against
      the new session. */
  lemma {:induction false} GenerateThenMark(db: Db, sessionDate: string, courseName: string, courseType: string,
                                            professorId: int, timestamp: string, studentId: int)
    requires Consistent(db)
    requires IsUserId(db.users, studentId)
    requires forall i :: 0 <= i < |db.sessions| ==>
      db.sessions[i].qrCodeData != QrData(sessionDate, courseName, courseType, professorId, timestamp)
    requires GenerateQrStep(db, sessionDate, courseName, courseType, professorId, timestamp).1.status == Success
    ensures var (db', reply) := GenerateQrStep(db, sessionDate, courseName, courseType, professorId, timestamp);
      var (db'', reply') := MarkAttendanceStep(db', reply.body.qrCodeData, studentId);
      reply' == Marked &&
      db''.attendance == db.attendance + [Attendance(db.nextAttendanceId, reply.body.sessionId, studentId, Present)]
  {
    var (db', reply) := GenerateQrStep(db, sessionDate, courseName, courseType, professorId, timestamp);
    var n := |db.sessions|;
    assert db'.sessions[n].qrCodeData == reply.body.qrCodeData;
    assert forall i :: 0 <= i < n ==> db'.sessions[i] == db.sessions[i];
    assert FindSessionByQr(db'.sessions, reply.body.qrCodeData) == Some(n);
    // every existing mark names an older session, whose id is below the new one
    assert CountMarks(db'.attendance, db.nextSessionId, studentId) == 0;
  }

  /** A successful mark adds one to the total and to the present count of its
      session in the professor's view, and leaves other sessions' counts alone. */
  lemma {:induction false} MarkAttendanceCounts(db: Db, qrCodeData: string, studentId: int, s: Session)
    requires MarkAttendanceStep(db, qrCodeData, studentId).1 == Marked
    ensures var db' := MarkAttendanceStep(db, qrCodeData, studentId).0;
      var k := FindSessionByQr(db.sessions, qrCodeData).value;
      var before, after := SessionStatsOf(s, db.attendance), SessionStatsOf(s, db'.attendance);
      if s.id == db.sessions[k].id then after.total == before.total + 1 && after.present == before.present + 1
      else after.total == before.total && after.present == before.present
  {
    var db' := MarkAttendanceStep(db, qrCodeData, studentId).0;
    var k := FindSessionByQr(db.sessions, qrCodeData).value;
    var row := Attendance(db.nextAttendanceId, db.sessions[k].id, studentId, Present);
    assert db'.attendance == db.attendance + [row];
    var bySession := (a: Attendance) => a.sessionId == s.id;
    var byPresent := (a: Attendance) => a.status == Present;
    FilterAppend(db.attendance, [row], bySession);
    FilterAppend(SessionRows(db.attendance, s.id), Filter([row], bySession), byPresent);
  }

  /** The backend's tables, held in fields that the two handlers update in place. */
  class AttendanceServer {
    var users: seq<User>
    var sessions: seq<Session>
    var attendance: seq<Attendance>
    var nextSessionId: int
    var nextAttendanceId: int

    function Tables(): Db
      reads this
    {
      Db(users, sessions, attendance, nextSessionId, nextAttendanceId)
    }

    /** The schema's constraints, and the two uniqueness rules the handlers keep. */
    ghost predicate Valid()
      reads this
    {
      Consistent(Tables()) && MarksUnique(attendance) && SessionKeysUnique(sessions)
    }

    /** Fresh tables holding the given users and no sessions or marks; both id
        sequences start at 1. */
    constructor (users: seq<User>)
      requires UserIdsDistinct(users)
      ensures Valid()
      ensures this.users == users && sessions == [] && attendance == []
      ensures nextSessionId == 1 && nextAttendanceId == 1
    {
      this.users := users;
      sessions := [];
      attendance := [];
      nextSessionId := 1;
      nextAttendanceId := 1;
    }

    method GenerateQr(sessionDate: string, courseName: string, courseType: string, professorId: int,
                      timestamp: string) returns (reply: Reply)
      requires Valid()
      modifies this
      ensures Valid()
      ensures (Tables(), reply) == GenerateQrStep(old(Tables()), sessionDate, courseName, courseType, professorId, timestamp)
      ensures users == old(users) && attendance == old(attendance) && nextAttendanceId == old(nextAttendanceId)
      ensures SessionKeyTaken(old(sessions), (courseName, courseType, sessionDate, professorId)) ==>
        reply == SessionExists && sessions == old(sessions) && nextSessionId == old(nextSessionId)
      ensures !SessionKeyTaken(old(sessions), (courseName, courseType, sessionDate, professorId)) ==>
        var qr := QrData(sessionDate, courseName, courseType, professorId, timestamp);
        reply == Reply(Success, 200, QrIssued(qr, old(nextSessionId))) &&
        sessions == old(sessions) + [Session(old(nextSessionId), courseName, courseType, sessionDate, professorId, qr)] &&
        nextSessionId == old(nextSessionId) + 1
    {
      GenerateQrKeepsInvariants(Tables(), sessionDate, courseName, courseType, professorId, timestamp);
      if SessionKeyTaken(sessions, (courseName, courseType, sessionDate, professorId)) {
        reply := SessionExists;
        return;
      }
      var qr := QrData(sessionDate, courseName, courseType, professorId, timestamp);
      sessions := sessions + [Session(nextSessionId, courseName, courseType, sessionDate, professorId, qr)];
      reply := Reply(Success, 200, QrIssued(qr, nextSessionId));
      nextSessionId := nextSessionId + 1;
    }

    method MarkAttendance(qrCodeData: string, studentId: int) returns (reply: Reply)
      requires Valid()
      modifies this
      ensures Valid()
      ensures (Tables(), reply) == MarkAttendanceStep(old(Tables()), qrCodeData, studentId)
      ensures users == old(users) && sessions == old(sessions) && nextSessionId == old(nextSessionId)
      ensures (forall i :: 0 <= i < |sessions| ==> sessions[i].qrCodeData != qrCodeData) ==>
        reply == InvalidQr && attendance == old(attendance) && nextAttendanceId == old(nextAttendanceId)
      ensures reply == AlreadyMarked ==>
        attendance == old(attendance) && nextAttendanceId == old(nextAttendanceId)
      ensures reply == UnknownStudent ==>
        !IsUserId(users, studentId) && attendance == old(attendance)
      ensures reply.status == Success <==> reply == Marked
      ensures reply == Marked ==>
        exists k :: 0 <= k < |sessions| && sessions[k].qrCodeData == qrCodeData &&
          attendance == old(attendance) + [Attendance(old(nextAttendanceId), sessions[k].id, studentId, Present)]
    {
      MarkAttendanceKeepsInvariants(Tables(), qrCodeData, studentId);
      var found := FindSessionByQr(sessions, qrCodeData);
      if found.None? {
        reply := InvalidQr;
        return;
      }
      var sessionId := sessions[found.value].id;
      if CountMarks(attendance, sessionId, studentId) > 0 {
        reply := AlreadyMarked;
        return;
      }
      var id := nextAttendanceId;
      nextAttendanceId := nextAttendanceId + 1;
      if !IsUserId(users, studentId) {
        reply := UnknownStudent;
        return;
      }
      attendance := attendance + [Attendance(id, sessionId, studentId, Present)];
      reply := Marked;
    }
  }
}
