/** The three tables of the attendance database, one datatype per row, and the
    key constraints the schema declares on them. */
module Schema {

  /** A row of `users`. `password` holds the SHA-256 hex digest, never the password. */
  datatype User = User(id: int, email: string, password: string, role: string, fullName: string, userId: string)

  /** A row of `sessions`: one class meeting and the QR text that opens it. */
  datatype Session = Session(id: int, courseName: string, courseType: string, sessionDate: string,
                             professorId: int, qrCodeData: string)

  /** A row of `attendance`: one student's mark for one session. */
  datatype Attendance = Attendance(id: int, sessionId: int, studentId: int, status: string)

  /** The status value for a student who was there. */
  const Present: string := "present"

  /** The role value that selects the professor branch of the profile. */
  const ProfessorRole: string := "professor"

  /** `id SERIAL PRIMARY KEY` on users: no two rows share an id. */
  predicate UserIdsDistinct(users: seq<User>)
  {
    forall i, j :: 0 <= i < j < |users| ==> users[i].id != users[j].id
  }

  /** `id SERIAL PRIMARY KEY` on sessions: no two rows share an id. */
  predicate SessionIdsDistinct(sessions: seq<Session>)
  {
    forall i, j :: 0 <= i < j < |sessions| ==> sessions[i].id != sessions[j].id
  }

  /** `id SERIAL PRIMARY KEY` on attendance: no two rows share an id. */
  predicate AttendanceIdsDistinct(attendance: seq<Attendance>)
  {
    forall i, j :: 0 <= i < j < |attendance| ==> attendance[i].id != attendance[j].id
  }

  predicate IsUserId(users: seq<User>, id: int)
  {
    exists i :: 0 <= i < |users| && users[i].id == id
  }

  predicate IsSessionId(sessions: seq<Session>, id: int)
  {
    exists i :: 0 <= i < |sessions| && sessions[i].id == id
  }

  /** The two FOREIGN KEY clauses of attendance: every mark names an existing
      session and an existing user. */
  predicate ForeignKeysHold(users: seq<User>, sessions: seq<Session>, attendance: seq<Attendance>)
  {
    forall k :: 0 <= k < |attendance| ==>
      IsSessionId(sessions, attendance[k].sessionId) && IsUserId(users, attendance[k].studentId)
  }
}
