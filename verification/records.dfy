/** The account records kept in on-device storage and the flat key space
    they live in: `faculty_<staffId>`, `student_<registerNumber>` and the
    session record under `currentUser`. */
module Records {
  import opened Wrappers

  /** The `userType` tag the login screens add to the session record. */
  datatype Role = FacultyRole | StudentRole

  /** The JSON body of an account. The two kinds share `email`, `password`,
      `department` and `createdAt`. Follow requests and quiz results are kept
      as opaque strings: the modelled handlers only copy those lists. */
  datatype Account =
    | Faculty(staffName: string, staffId: string, email: string, password: string,
              department: string, designation: string, contactNumber: string,
              followers: seq<string>, followRequests: seq<string>,
              materialsUploaded: int, createdAt: string)
    | Student(studentName: string, registerNumber: string, email: string, password: string,
              department: string, yearSemester: string,
              followedFaculty: seq<string>, pendingFollowRequests: seq<string>,
              completedAssignments: seq<string>, quizResults: seq<string>, createdAt: string)

  /** A stored record: an account plus the optional `userType` field. */
  datatype Record = Record(account: Account, userType: Option<Role>)

  /** The key-value store; serialisation is the identity. Only account
      records and the session are modelled: the JSON arrays the app also
      keeps under `faculty_` and `student_` keys are not. */
  type Store = map<string, Record>

  const SessionKey: string := "currentUser"

  function FacultyKey(staffId: string): string { "faculty_" + staffId }

  function StudentKey(registerNumber: string): string { "student_" + registerNumber }

  /** The three kinds of key never collide, and each kind is injective. */
  lemma KeysDistinct(a: string, b: string)
    ensures FacultyKey(a) != StudentKey(b)
    ensures FacultyKey(a) != SessionKey && StudentKey(b) != SessionKey
    ensures FacultyKey(a) == FacultyKey(b) <==> a == b
    ensures StudentKey(a) == StudentKey(b) <==> a == b
  {
    assert FacultyKey(a)[0] == 'f' && StudentKey(b)[0] == 's' && SessionKey[0] == 'c';
    assert FacultyKey(a)[8..] == a && FacultyKey(b)[8..] == b;
    assert StudentKey(a)[8..] == a && StudentKey(b)[8..] == b;
  }

  function Get(store: Store, key: string): Option<Record>
  {
    if key in store then Some(store[key]) else None
  }

  /** The value of `currentUser`, if anyone is logged in. */
  function CurrentUser(store: Store): Option<Record>
  {
    Get(store, SessionKey)
  }

  // Field reads that JavaScript answers with `undefined` on the other kind of account.

  function StaffIdOf(a: Account): Option<string>
  {
    if a.Faculty? then Some(a.staffId) else None
  }

  function StaffNameOf(a: Account): Option<string>
  {
    if a.Faculty? then Some(a.staffName) else None
  }

  function RegisterNumberOf(a: Account): Option<string>
  {
    if a.Student? then Some(a.registerNumber) else None
  }

  function StudentNameOf(a: Account): Option<string>
  {
    if a.Student? then Some(a.studentName) else None
  }

  /** A string value in a template literal: `undefined` prints as "undefined". */
  function Show(o: Option<string>): string
  {
    if o.Some? then o.value else "undefined"
  }

  /** JavaScript truthiness of a possibly undefined string. */
  predicate Truthy(o: Option<string>)
  {
    o.Some? && o.value != ""
  }

  /** The session's `userType` agrees with the kind of its account. */
  predicate SessionConsistent(r: Record)
  {
    r.userType == Some(if r.account.Faculty? then FacultyRole else StudentRole)
  }

  /** The shape every write of the modelled screens keeps: `faculty_<id>`
      holds the faculty whose staffId is `id`, `student_<id>` the student
      whose registerNumber is `id`, and the session is tagged with its kind. */
  ghost predicate WellFormed(store: Store)
  {
    && (forall id :: FacultyKey(id) in store ==>
          store[FacultyKey(id)].account.Faculty? && store[FacultyKey(id)].account.staffId == id)
    && (forall id :: StudentKey(id) in store ==>
          store[StudentKey(id)].account.Student? && store[StudentKey(id)].account.registerNumber == id)
    && (SessionKey in store ==> SessionConsistent(store[SessionKey]))
  }
}
