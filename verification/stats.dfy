/** The read side of the backend: the per-session counts and rates a professor
    sees, and the statistics of a user's profile. Each is a pure function of
    the tables. */
module Stats {
  import opened Wrappers
  import opened Schema
  import opened Rounding

  /** The rows of xs that satisfy keep, in their original order. */
  function Filter<T(!new)>(xs: seq<T>, keep: T -> bool): (r: seq<T>)
    ensures |r| <= |xs|
    ensures forall x :: x in r <==> x in xs && keep(x)
  {
    if xs == [] then []
    else if keep(xs[0]) then [xs[0]] + Filter(xs[1..], keep)
    else Filter(xs[1..], keep)
  }

  lemma {:induction false} FilterAppend<T(!new)>(xs: seq<T>, ys: seq<T>, keep: T -> bool)
    ensures Filter(xs + ys, keep) == Filter(xs, keep) + Filter(ys, keep)
  {
    if xs != [] {
      var zs := xs + ys;
      assert zs != [] && zs[0] == xs[0] && zs[1..] == xs[1..] + ys;
      FilterAppend(xs[1..], ys, keep);
      if keep(xs[0]) {
        calc {
          Filter(zs, keep);
          [xs[0]] + Filter(xs[1..] + ys, keep);
          [xs[0]] + (Filter(xs[1..], keep) + Filter(ys, keep));
          ([xs[0]] + Filter(xs[1..], keep)) + Filter(ys, keep);
        }
      }
    } else {
      assert xs + ys == ys;
    }
  }

  /** Filtering keeps everything when everything qualifies. */
  lemma {:induction false} FilterKeepsAll<T(!new)>(xs: seq<T>, keep: T -> bool)
    requires forall i :: 0 <= i < |xs| ==> keep(xs[i])
    ensures Filter(xs, keep) == xs
  {
    if xs != [] {
      FilterKeepsAll(xs[1..], keep);
    }
  }

  /** Every status written so far is 'present'. */
  predicate AllPresent(attendance: seq<Attendance>)
  {
    forall k :: 0 <= k < |attendance| ==> attendance[k].status == Present
  }

  /** round(present / total * 100) if total > 0 else 0, with Python's round
      (ties to even) applied to the exact quotient. */
  function Rate(present: nat, total: nat): (r: int)
    ensures total == 0 ==> r == 0
    ensures total > 0 ==> -(total as int) <= 2 * (100 * present - r * total) <= total
    ensures total > 0 && (2 * (100 * present - r * total) == total || 2 * (100 * present - r * total) == -(total as int))
            ==> r % 2 == 0
  {
    if total > 0 then RoundHalfEven(100 * present, total) else 0
  }

  /** A rate of present out of total, present <= total, is a percentage. */
  lemma {:induction false} RateBounds(present: nat, total: nat)
    requires present <= total
    ensures 0 <= Rate(present, total) <= 100
  {
    if total > 0 {
      RoundExact(0, total);
      RoundExact(100, total);
      RoundHalfEvenMonotonic(0, 100 * present, total);
      RoundHalfEvenMonotonic(100 * present, 100 * total, total);
    }
  }

  /** Nobody present gives 0; everybody present gives 100. */
  lemma {:induction false} RateExtremes(total: nat)
    ensures Rate(0, total) == 0
    ensures total > 0 ==> Rate(total, total) == 100
  {
    if total > 0 {
      RoundExact(0, total);
      RoundExact(100, total);
    }
  }

  /** One present out of eight is 12.5%, which Python rounds to the even 12. */
  lemma RateTieGoesToEven()
    ensures Rate(1, 8) == 12
  {
  }

  /** One session as the professor's list shows it. */
  datatype SessionStats = SessionStats(sessionId: int, courseName: string, courseType: string, sessionDate: string,
                                       present: nat, total: nat, rate: int)

  function SessionRows(attendance: seq<Attendance>, sessionId: int): seq<Attendance>
  {
    Filter(attendance, (a: Attendance) => a.sessionId == sessionId)
  }

  function PresentRows(rows: seq<Attendance>): seq<Attendance>
  {
    Filter(rows, (a: Attendance) => a.status == Present)
  }

  /** The counts of one session: its 'present' rows, all its rows, and the rate. */
  function SessionStatsOf(s: Session, attendance: seq<Attendance>): (r: SessionStats)
    ensures r.sessionId == s.id
    ensures r.courseName == s.courseName && r.courseType == s.courseType && r.sessionDate == s.sessionDate
    ensures r.total == |SessionRows(attendance, s.id)|
    ensures r.present == |PresentRows(SessionRows(attendance, s.id))|
    ensures r.rate == Rate(r.present, r.total)
    ensures r.present <= r.total && 0 <= r.rate <= 100
  {
    var rows := SessionRows(attendance, s.id);
    var present := |PresentRows(rows)|;
    RateBounds(present, |rows|);
    SessionStats(s.id, s.courseName, s.courseType, s.sessionDate, present, |rows|, Rate(present, |rows|))
  }

  function ProfessorSessions(sessions: seq<Session>, professorId: int): seq<Session>
  {
    Filter(sessions, (s: Session) => s.professorId == professorId)
  }

  /** The session list of one professor: one entry per session they own, each
      with a rate between 0 and 100. */
  function ProfessorAttendance(sessions: seq<Session>, attendance: seq<Attendance>, professorId: int)
    : (r: seq<SessionStats>)
    ensures |r| == |ProfessorSessions(sessions, professorId)|
    ensures forall i :: 0 <= i < |r| ==>
      exists s :: s in sessions && s.id == r[i].sessionId && s.professorId == professorId
    ensures forall i :: 0 <= i < |r| ==> r[i] == SessionStatsOf(ProfessorSessions(sessions, professorId)[i], attendance)
    ensures forall i :: 0 <= i < |r| ==> r[i].sessionId == ProfessorSessions(sessions, professorId)[i].id
    ensures forall i :: 0 <= i < |r| ==>
      r[i].total == |SessionRows(attendance, r[i].sessionId)| &&
      r[i].present == |PresentRows(SessionRows(attendance, r[i].sessionId))| &&
      r[i].rate == Rate(r[i].present, r[i].total)
    ensures forall i :: 0 <= i < |r| ==> r[i].present <= r[i].total && 0 <= r[i].rate <= 100
  {
    var mine := ProfessorSessions(sessions, professorId);
    var r := seq(|mine|, i requires 0 <= i < |mine| => SessionStatsOf(mine[i], attendance));
    assert forall i :: 0 <= i < |r| ==> r[i] == SessionStatsOf(mine[i], attendance);
    assert forall i :: 0 <= i < |r| ==> r[i].sessionId == mine[i].id && mine[i] in mine;
    r
  }

  /** When every row is 'present', each session's present count is its total
      and its rate is all or nothing. */
  lemma {:induction false} AllPresentSessionRates(sessions: seq<Session>, attendance: seq<Attendance>, professorId: int)
    requires AllPresent(attendance)
    ensures forall st :: st in ProfessorAttendance(sessions, attendance, professorId) ==>
      st.present == st.total && (st.rate == 0 <==> st.total == 0) && (st.rate == 100 <==> st.total > 0)
  {
    var r := ProfessorAttendance(sessions, attendance, professorId);
    var mine := ProfessorSessions(sessions, professorId);
    forall i | 0 <= i < |r|
      ensures r[i].present == r[i].total && (r[i].rate == 0 <==> r[i].total == 0) && (r[i].rate == 100 <==> r[i].total > 0)
    {
      var rows := SessionRows(attendance, mine[i].id);
      AllPresentRows(attendance, rows);
      RateExtremes(|rows|);
    }
  }

  /** Filtering an all-'present' table keeps every row of the subset as present. */
  lemma {:induction false} AllPresentRows(attendance: seq<Attendance>, rows: seq<Attendance>)
    requires AllPresent(attendance)
    requires forall a :: a in rows ==> a in attendance
    ensures PresentRows(rows) == rows
  {
    forall k | 0 <= k < |rows| ensures rows[k].status == Present {
      assert rows[k] in attendance;
    }
    FilterKeepsAll(rows, (a: Attendance) => a.status == Present);
  }

  /** The distinct ids of the sessions a professor owns: COUNT(DISTINCT s.id). */
  function ProfessorSessionIds(sessions: seq<Session>, professorId: int): (r: set<int>)
    ensures forall x :: x in r <==> exists j :: 0 <= j < |sessions| && sessions[j].id == x && sessions[j].professorId == professorId
  {
    if sessions == [] then {}
    else
      var rest := ProfessorSessionIds(sessions[1..], professorId);
      assert forall j :: 1 <= j < |sessions| ==> sessions[j] == sessions[1..][j - 1];
      if sessions[0].professorId == professorId then {sessions[0].id} + rest else rest
  }

  /** With the primary key on sessions, the distinct count of a professor's
      sessions equals the number of their sessions. */
  lemma {:induction false} ClassesCountsSessions(sessions: seq<Session>, professorId: int)
    requires SessionIdsDistinct(sessions)
    ensures |ProfessorSessionIds(sessions, professorId)| == |ProfessorSessions(sessions, professorId)|
  {
    if sessions != [] {
      var tail := sessions[1..];
      assert SessionIdsDistinct(tail) by {
        forall i, j | 0 <= i < j < |tail| ensures tail[i].id != tail[j].id {
          assert tail[i] == sessions[i + 1] && tail[j] == sessions[j + 1];
        }
      }
      ClassesCountsSessions(tail, professorId);
      if sessions[0].professorId == professorId {
        assert sessions[0].id !in ProfessorSessionIds(tail, professorId) by {
          forall j | 0 <= j < |tail| ensures tail[j].id != sessions[0].id {
            assert tail[j] == sessions[j + 1];
          }
        }
      }
    }
  }

  /** The distinct students with a mark in one of a professor's sessions:
      COUNT(DISTINCT student_id) over the join (a session without marks adds none). */
  function ProfessorStudentIds(sessions: seq<Session>, attendance: seq<Attendance>, professorId: int): (r: set<int>)
    ensures forall x :: x in r <==> exists k :: 0 <= k < |attendance| && attendance[k].studentId == x &&
                                                 attendance[k].sessionId in ProfessorSessionIds(sessions, professorId)
  {
    if attendance == [] then {}
    else
      var rest := ProfessorStudentIds(sessions, attendance[1..], professorId);
      assert forall k :: 1 <= k < |attendance| ==> attendance[k] == attendance[1..][k - 1];
      if attendance[0].sessionId in ProfessorSessionIds(sessions, professorId)
      then {attendance[0].studentId} + rest else rest
  }

  function ProfessorRows(sessions: seq<Session>, attendance: seq<Attendance>, professorId: int): seq<Attendance>
  {
    var ids := ProfessorSessionIds(sessions, professorId);
    Filter(attendance, (a: Attendance) => a.sessionId in ids)
  }

  /** Each student is counted once however many marks they have, so the student
      count never exceeds the number of marks in the professor's sessions. */
  lemma {:induction false} StudentsAtMostMarks(sessions: seq<Session>, attendance: seq<Attendance>, professorId: int)
    ensures |ProfessorStudentIds(sessions, attendance, professorId)| <= |ProfessorRows(sessions, attendance, professorId)|
  {
    if attendance != [] {
      StudentsAtMostMarks(sessions, attendance[1..], professorId);
    }
  }

  function StudentRows(attendance: seq<Attendance>, studentId: int): seq<Attendance>
  {
    Filter(attendance, (a: Attendance) => a.studentId == studentId)
  }

  /** The user fields the profile returns (never the password digest). */
  datatype ProfileUser = ProfileUser(fullName: string, email: string, userId: string, role: string)

  datatype ProfileStats =
    | ProfessorStats(classes: nat, students: nat)
    | StudentStats(totalClasses: nat, present: nat, rate: int)

  /** The profile reply: 404 'User not found', or 200 with the user and stats. */
  datatype ProfileReply = UserNotFound | Found(user: ProfileUser, stats: ProfileStats)

  /** The first user with the given id. */
  function FindUser(users: seq<User>, id: int): (r: Option<User>)
    ensures r.None? <==> !IsUserId(users, id)
    ensures r.Some? ==> r.value in users && r.value.id == id
  {
    if users == [] then None
    else if users[0].id == id then Some(users[0])
    else
      var r := FindUser(users[1..], id);
      assert forall i :: 1 <= i < |users| ==> users[i] == users[1..][i - 1];
      assert IsUserId(users[1..], id) ==> IsUserId(users, id);
      r
  }

  /** The profile of one user: a professor's distinct classes and students, or
      anyone else's marks, present marks and rate. */
  function Profile(users: seq<User>, sessions: seq<Session>, attendance: seq<Attendance>, userId: int)
    : (r: ProfileReply)
    ensures r.UserNotFound? <==> !IsUserId(users, userId)
    ensures r.Found? ==>
      var u := FindUser(users, userId).value;
      r.user == ProfileUser(u.fullName, u.email, u.userId, u.role)
    ensures r.Found? ==> (r.stats.ProfessorStats? <==> r.user.role == ProfessorRole)
    ensures r.Found? && r.stats.StudentStats? ==>
      r.stats.totalClasses == |StudentRows(attendance, userId)| &&
      r.stats.present == |PresentRows(StudentRows(attendance, userId))| &&
      r.stats.rate == Rate(r.stats.present, r.stats.totalClasses) &&
      r.stats.present <= r.stats.totalClasses && 0 <= r.stats.rate <= 100
    ensures r.Found? && r.stats.ProfessorStats? ==>
      r.stats.classes == |ProfessorSessionIds(sessions, userId)| &&
      r.stats.students == |ProfessorStudentIds(sessions, attendance, userId)|
  {
    match FindUser(users, userId)
    case None => UserNotFound
    case Some(u) =>
      var who := ProfileUser(u.fullName, u.email, u.userId, u.role);
      if u.role == ProfessorRole then
        Found(who, ProfessorStats(|ProfessorSessionIds(sessions, userId)|,
                                  |ProfessorStudentIds(sessions, attendance, userId)|))
      else
        var rows := StudentRows(attendance, userId);
        var present := |PresentRows(rows)|;
        RateBounds(present, |rows|);
        Found(who, StudentStats(|rows|, present, Rate(present, |rows|)))
  }

  /** When every row is 'present', a student's rate is 100 once they have any
      mark and 0 before. */
  lemma {:induction false} AllPresentStudentRate(users: seq<User>, sessions: seq<Session>, attendance: seq<Attendance>,
                                                 userId: int)
    requires AllPresent(attendance)
    requires Profile(users, sessions, attendance, userId).Found?
    requires Profile(users, sessions, attendance, userId).stats.StudentStats?
    ensures var st := Profile(users, sessions, attendance, userId).stats;
      st.present == st.totalClasses && st.rate == (if st.totalClasses > 0 then 100 else 0)
  {
    var rows := StudentRows(attendance, userId);
    AllPresentRows(attendance, rows);
    RateExtremes(|rows|);
  }
}
