/** The faculty and student login and signup handlers, as functions from
    the store and the form to the updated store or the alert shown. */
module Auth {
  import opened Wrappers
  import opened Records

  /** The alerts that stop a handler before it writes anything. */
  datatype AuthError = MissingFields | NotFound | InvalidPassword | AlreadyExists

  datatype FacultyForm = FacultyForm(staffName: string, staffId: string, email: string,
                                     password: string, department: string,
                                     designation: string, contactNumber: string)

  datatype StudentForm = StudentForm(studentName: string, registerNumber: string, email: string,
                                     password: string, department: string, yearSemester: string)

  /** `after` is `before` with the session set to the record at `key`,
      re-tagged with `role`, and no other key touched. */
  predicate SessionSetFrom(before: Store, after: Store, key: string, role: Role)
  {
    && key in before
    && after.Keys == before.Keys + {SessionKey}
    && after[SessionKey] == Record(before[key].account, Some(role))
    && forall k :: k in before && k != SessionKey ==> after[k] == before[k]
  }

  /** `after` is `before` plus one new key `key`, every old key unchanged. */
  predicate AddsOnly(before: Store, after: Store, key: string)
  {
    && key !in before
    && after.Keys == before.Keys + {key}
    && forall k :: k in before ==> after[k] == before[k]
  }

  // ---------------------------------------------------------------- faculty

  function FacultyLogin(store: Store, staffId: string, password: string): (r: Result<Store, AuthError>)
    ensures staffId == "" || password == "" ==> r == Failure(MissingFields)
    ensures (staffId != "" && password != "" && FacultyKey(staffId) !in store) ==>
      r == Failure(NotFound)
    ensures (staffId != "" && password != "" && FacultyKey(staffId) in store &&
      store[FacultyKey(staffId)].account.password != password) ==> r == Failure(InvalidPassword)
    ensures r.Success? <==>
      staffId != "" && password != "" && FacultyKey(staffId) in store &&
      store[FacultyKey(staffId)].account.password == password
    ensures r.Success? ==>
      && FacultyKey(staffId) in store
      && store[FacultyKey(staffId)].account.password == password
      && SessionSetFrom(store, r.value, FacultyKey(staffId), FacultyRole)
  {
    if staffId == "" || password == "" then Failure(MissingFields)
    else if FacultyKey(staffId) !in store then Failure(NotFound)
    else
      var faculty := store[FacultyKey(staffId)];
      if faculty.account.password != password then Failure(InvalidPassword)
      else Success(store[SessionKey := Record(faculty.account, Some(FacultyRole))])
  }

  /** The record a successful faculty signup stores. */
  predicate IsNewFaculty(rec: Record, form: FacultyForm, createdAt: string)
  {
    && rec.userType.None?
    && rec.account.Faculty?
    && rec.account.staffName == form.staffName && rec.account.staffId == form.staffId
    && rec.account.email == form.email && rec.account.password == form.password
    && rec.account.department == form.department && rec.account.designation == form.designation
    && rec.account.contactNumber == form.contactNumber
    && rec.account.followers == [] && rec.account.followRequests == []
    && rec.account.materialsUploaded == 0 && rec.account.createdAt == createdAt
  }

  function FacultySignup(store: Store, form: FacultyForm, createdAt: string): (r: Result<Store, AuthError>)
    ensures form.staffName == "" || form.staffId == "" || form.email == "" || form.password == "" ==>
      r == Failure(MissingFields)
    ensures (form.staffName != "" && form.staffId != "" && form.email != "" && form.password != "" &&
      FacultyKey(form.staffId) in store) ==> r == Failure(AlreadyExists)
    ensures r.Success? <==>
      form.staffName != "" && form.staffId != "" && form.email != "" && form.password != "" &&
      FacultyKey(form.staffId) !in store
    ensures r.Success? ==>
      AddsOnly(store, r.value, FacultyKey(form.staffId)) &&
      IsNewFaculty(r.value[FacultyKey(form.staffId)], form, createdAt)
  {
    if form.staffName == "" || form.staffId == "" || form.email == "" || form.password == "" then
      Failure(MissingFields)
    else if FacultyKey(form.staffId) in store then Failure(AlreadyExists)
    else
      var faculty := Faculty(form.staffName, form.staffId, form.email, form.password,
                             form.department, form.designation, form.contactNumber,
                             [], [], 0, createdAt);
      Success(store[FacultyKey(form.staffId) := Record(faculty, None)])
  }

  // ---------------------------------------------------------------- student

  function StudentLogin(store: Store, registerNumber: string, password: string): (r: Result<Store, AuthError>)
    ensures registerNumber == "" || password == "" ==> r == Failure(MissingFields)
    ensures registerNumber != "" && password != "" && StudentKey(registerNumber) !in store ==>
      r == Failure(NotFound)
    ensures (registerNumber != "" && password != "" && StudentKey(registerNumber) in store &&
      store[StudentKey(registerNumber)].account.password != password) ==> r == Failure(InvalidPassword)
    ensures r.Success? <==>
      registerNumber != "" && password != "" && StudentKey(registerNumber) in store &&
      store[StudentKey(registerNumber)].account.password == password
    ensures r.Success? ==>
      && StudentKey(registerNumber) in store
      && store[StudentKey(registerNumber)].account.password == password
      && SessionSetFrom(store, r.value, StudentKey(registerNumber), StudentRole)
  {
    if registerNumber == "" || password == "" then Failure(MissingFields)
    else if StudentKey(registerNumber) !in store then Failure(NotFound)
    else
      var student := store[StudentKey(registerNumber)];
      if student.account.password != password then Failure(InvalidPassword)
      else Success(store[SessionKey := Record(student.account, Some(StudentRole))])
  }

  /** The record a successful student signup stores. */
  predicate IsNewStudent(rec: Record, form: StudentForm, createdAt: string)
  {
    && rec.userType.None?
    && rec.account.Student?
    && rec.account.studentName == form.studentName && rec.account.registerNumber == form.registerNumber
    && rec.account.email == form.email && rec.account.password == form.password
    && rec.account.department == form.department && rec.account.yearSemester == form.yearSemester
    && rec.account.followedFaculty == [] && rec.account.pendingFollowRequests == []
    && rec.account.completedAssignments == [] && rec.account.quizResults == []
    && rec.account.createdAt == createdAt
  }

  function StudentSignup(store: Store, form: StudentForm, createdAt: string): (r: Result<Store, AuthError>)
    ensures form.studentName == "" || form.registerNumber == "" || form.email == "" || form.password == "" ==>
      r == Failure(MissingFields)
    ensures (form.studentName != "" && form.registerNumber != "" && form.email != "" && form.password != "" &&
      StudentKey(form.registerNumber) in store) ==> r == Failure(AlreadyExists)
    ensures r.Success? <==>
      form.studentName != "" && form.registerNumber != "" && form.email != "" && form.password != "" &&
      StudentKey(form.registerNumber) !in store
    ensures r.Success? ==>
      AddsOnly(store, r.value, StudentKey(form.registerNumber)) &&
      IsNewStudent(r.value[StudentKey(form.registerNumber)], form, createdAt)
  {
    if form.studentName == "" || form.registerNumber == "" || form.email == "" || form.password == "" then
      Failure(MissingFields)
    else if StudentKey(form.registerNumber) in store then Failure(AlreadyExists)
    else
      var student := Student(form.studentName, form.registerNumber, form.email, form.password,
                             form.department, form.yearSemester, [], [], [], [], createdAt);
      Success(store[StudentKey(form.registerNumber) := Record(student, None)])
  }

  // ---------------------------------------------------------------- properties

  /** Signing up and then logging in with the same id and password succeeds
      and makes the new account the session. */
  lemma FacultySignupThenLogin(store: Store, form: FacultyForm, createdAt: string)
    requires FacultySignup(store, form, createdAt).Success?
    ensures var s := FacultySignup(store, form, createdAt).value;
      var l := FacultyLogin(s, form.staffId, form.password);
      l.Success? && l.value[SessionKey].account == s[FacultyKey(form.staffId)].account &&
      l.value[SessionKey].userType == Some(FacultyRole)
  {
  }

  lemma StudentSignupThenLogin(store: Store, form: StudentForm, createdAt: string)
    requires StudentSignup(store, form, createdAt).Success?
    ensures var s := StudentSignup(store, form, createdAt).value;
      var l := StudentLogin(s, form.registerNumber, form.password);
      l.Success? && l.value[SessionKey].account == s[StudentKey(form.registerNumber)].account &&
      l.value[SessionKey].userType == Some(StudentRole)
  {
  }

  /** A student signup leaves every `faculty_` key and the session as they were. */
  lemma StudentSignupKeepsFacultyKeys(store: Store, form: StudentForm, createdAt: string, staffId: string)
    requires StudentSignup(store, form, createdAt).Success?
    ensures var s := StudentSignup(store, form, createdAt).value;
      (FacultyKey(staffId) in s <==> FacultyKey(staffId) in store) &&
      (FacultyKey(staffId) in store ==> s[FacultyKey(staffId)] == store[FacultyKey(staffId)]) &&
      (SessionKey in s <==> SessionKey in store) &&
      (SessionKey in store ==> s[SessionKey] == store[SessionKey])
  {
    KeysDistinct(staffId, form.registerNumber);
  }

  /** A faculty signup leaves every `student_` key and the session as they were. */
  lemma FacultySignupKeepsStudentKeys(store: Store, form: FacultyForm, createdAt: string, registerNumber: string)
    requires FacultySignup(store, form, createdAt).Success?
    ensures var s := FacultySignup(store, form, createdAt).value;
      (StudentKey(registerNumber) in s <==> StudentKey(registerNumber) in store) &&
      (StudentKey(registerNumber) in store ==> s[StudentKey(registerNumber)] == store[StudentKey(registerNumber)]) &&
      (SessionKey in s <==> SessionKey in store) &&
      (SessionKey in store ==> s[SessionKey] == store[SessionKey])
  {
    KeysDistinct(form.staffId, registerNumber);
  }

  lemma FacultySignupPreservesWellFormed(store: Store, form: FacultyForm, createdAt: string)
    requires WellFormed(store) && FacultySignup(store, form, createdAt).Success?
    ensures WellFormed(FacultySignup(store, form, createdAt).value)
  {
    var s := FacultySignup(store, form, createdAt).value;
    forall id | FacultyKey(id) in s
      ensures s[FacultyKey(id)].account.Faculty? && s[FacultyKey(id)].account.staffId == id
    {
      KeysDistinct(id, form.staffId);
    }
    forall id | StudentKey(id) in s
      ensures s[StudentKey(id)].account.Student? && s[StudentKey(id)].account.registerNumber == id
    {
      KeysDistinct(form.staffId, id);
    }
    KeysDistinct(form.staffId, form.staffId);
  }

  lemma StudentSignupPreservesWellFormed(store: Store, form: StudentForm, createdAt: string)
    requires WellFormed(store) && StudentSignup(store, form, createdAt).Success?
    ensures WellFormed(StudentSignup(store, form, createdAt).value)
  {
    var s := StudentSignup(store, form, createdAt).value;
    forall id | FacultyKey(id) in s
      ensures s[FacultyKey(id)].account.Faculty? && s[FacultyKey(id)].account.staffId == id
    {
      KeysDistinct(id, form.registerNumber);
    }
    forall id | StudentKey(id) in s
      ensures s[StudentKey(id)].account.Student? && s[StudentKey(id)].account.registerNumber == id
    {
      KeysDistinct(id, form.registerNumber);
    }
    KeysDistinct(form.registerNumber, form.registerNumber);
  }

  lemma FacultyLoginPreservesWellFormed(store: Store, staffId: string, password: string)
    requires WellFormed(store) && FacultyLogin(store, staffId, password).Success?
    ensures WellFormed(FacultyLogin(store, staffId, password).value)
  {
    var s := FacultyLogin(store, staffId, password).value;
    forall id | FacultyKey(id) in s
      ensures s[FacultyKey(id)].account.Faculty? && s[FacultyKey(id)].account.staffId == id
    {
      KeysDistinct(id, id);
    }
    forall id | StudentKey(id) in s
      ensures s[StudentKey(id)].account.Student? && s[StudentKey(id)].account.registerNumber == id
    {
      KeysDistinct(id, id);
    }
  }

  lemma StudentLoginPreservesWellFormed(store: Store, registerNumber: string, password: string)
    requires WellFormed(store) && StudentLogin(store, registerNumber, password).Success?
    ensures WellFormed(StudentLogin(store, registerNumber, password).value)
  {
    var s := StudentLogin(store, registerNumber, password).value;
    forall id | FacultyKey(id) in s
      ensures s[FacultyKey(id)].account.Faculty? && s[FacultyKey(id)].account.staffId == id
    {
      KeysDistinct(id, id);
    }
    forall id | StudentKey(id) in s
      ensures s[StudentKey(id)].account.Student? && s[StudentKey(id)].account.registerNumber == id
    {
      KeysDistinct(id, id);
    }
  }
}
