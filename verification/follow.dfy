/** The follow/unfollow toggle of the faculty profile screen, which keeps the
    student's `followedFaculty` and the faculty's `followers` in step. */
module Follow {
  import opened Wrappers
  import opened Records
  import opened Seqs

  /** The screen's state: the viewed faculty record, the session record it
      loaded as the current student, and the `isFollowing` flag. */
  datatype ProfileScreen = ProfileScreen(faculty: Option<Record>, currentStudent: Option<Record>,
                                         isFollowing: bool)

  /** What pressing the follow button does: nothing (a record is missing),
      a caught `TypeError` (a record of the wrong kind), or the three writes. */
  datatype FollowOutcome = Unchanged | Failed | Toggled(screen: ProfileScreen, store: Store)

  /** `ids.filter(id => id !== x)`. */
  function Without(ids: seq<string>, x: string): seq<string>
  {
    Filter(ids, (id: string) => id != x)
  }

  /** `after` is `before` with every occurrence of `x` removed, the rest in order. */
  ghost predicate RemovedAll(before: seq<string>, after: seq<string>, x: string)
  {
    IsSubsequence(after, before) && multiset(after) == multiset(before)[x := 0]
  }

  /** Follows from the contract of `Filter`. */
  lemma WithoutRemovesAll(ids: seq<string>, x: string)
    ensures RemovedAll(ids, Without(ids, x), x)
    ensures x !in Without(ids, x)
  {
  }

  /** Removing an id that was appended to a list not holding it gives the list back. */
  lemma WithoutUndoesAppend(ids: seq<string>, x: string)
    requires x !in ids
    ensures Without(ids + [x], x) == ids
  {
    var p := (id: string) => id != x;
    FilterAppend(ids, [x], p);
    FilterKeepsAll(ids, p);
    assert Filter([x], p) == [];
  }

  /** The screen as it is after mounting: both records read from the store,
      and `isFollowing` computed from the session's `followedFaculty`; on a
      session that is not a student's the read throws and the flag stays false. */
  function LoadProfileScreen(store: Store, staffId: string): (s: ProfileScreen)
    ensures s.faculty == Get(store, FacultyKey(staffId)) && s.currentStudent == Get(store, SessionKey)
    ensures s.isFollowing <==>
      SessionKey in store && store[SessionKey].account.Student? &&
      staffId in store[SessionKey].account.followedFaculty
  {
    var current := CurrentUser(store);
    ProfileScreen(Get(store, FacultyKey(staffId)), current,
                  current.Some? && current.value.account.Student? &&
                  staffId in current.value.account.followedFaculty)
  }

  /** `after` is the student record `before` with only `followedFaculty` changed. */
  predicate StudentRewritten(before: Record, after: Record)
  {
    && before.account.Student? && after.account.Student?
    && after.userType == before.userType
    && after.account == before.account.(followedFaculty := after.account.followedFaculty)
  }

  /** `after` is the faculty record `before` with only `followers` changed. */
  predicate FacultyRewritten(before: Record, after: Record)
  {
    && before.account.Faculty? && after.account.Faculty?
    && after.userType == before.userType
    && after.account == before.account.(followers := after.account.followers)
  }

  /** The new id list: `x` appended when not following, every `x` removed when following. */
  function ToggledList(ids: seq<string>, x: string, following: bool): (r: seq<string>)
    ensures !following ==> r == ids + [x]
    ensures following ==> RemovedAll(ids, r, x) && x !in r
  {
    if following then WithoutRemovesAll(ids, x); Without(ids, x) else ids + [x]
  }

  /** The three writes of the handler: the same student record to the session
      and to `student_<reg>`, the faculty record to `faculty_<staffId>`. */
  function WriteBack(store: Store, student: Record, faculty: Record, reg: string, staffId: string): (s: Store)
    ensures s.Keys == store.Keys + {SessionKey, StudentKey(reg), FacultyKey(staffId)}
    ensures s[SessionKey] == student && s[StudentKey(reg)] == student && s[FacultyKey(staffId)] == faculty
    ensures forall k :: k in store && k !in {SessionKey, StudentKey(reg), FacultyKey(staffId)} ==>
      s[k] == store[k]
  {
    KeysDistinct(staffId, reg);
    store[SessionKey := student][StudentKey(reg) := student][FacultyKey(staffId) := faculty]
  }

  function HandleFollow(screen: ProfileScreen, store: Store, staffId: string): (r: FollowOutcome)
    ensures screen.faculty.None? || screen.currentStudent.None? ==> r == Unchanged
    ensures r.Failed? <==>
      screen.faculty.Some? && screen.currentStudent.Some? &&
      (!screen.currentStudent.value.account.Student? || !screen.faculty.value.account.Faculty?)
    ensures r.Toggled? <==>
      screen.faculty.Some? && screen.currentStudent.Some? &&
      screen.currentStudent.value.account.Student? && screen.faculty.value.account.Faculty?
    ensures r.Toggled? ==>
      && screen.faculty.Some? && screen.currentStudent.Some?
      && r.screen.faculty.Some? && r.screen.currentStudent.Some?
      && r.screen.isFollowing == !screen.isFollowing
      && var student, faculty := screen.currentStudent.value, screen.faculty.value;
         var student', faculty' := r.screen.currentStudent.value, r.screen.faculty.value;
         var reg := student.account.registerNumber;
         && StudentRewritten(student, student')
         && FacultyRewritten(faculty, faculty')
         && (!screen.isFollowing ==>
               student'.account.followedFaculty == student.account.followedFaculty + [staffId] &&
               faculty'.account.followers == faculty.account.followers + [reg])
         && (screen.isFollowing ==>
               RemovedAll(student.account.followedFaculty, student'.account.followedFaculty, staffId) &&
               RemovedAll(faculty.account.followers, faculty'.account.followers, reg))
         && r.store == WriteBack(store, student', faculty', reg, staffId)
  {
    if screen.faculty.None? || screen.currentStudent.None? then Unchanged
    else
      var student, faculty := screen.currentStudent.value, screen.faculty.value;
      if !student.account.Student? || !faculty.account.Faculty? then Failed
      else
        var reg := student.account.registerNumber;
        var following := ToggledList(student.account.followedFaculty, staffId, screen.isFollowing);
        var student' := student.(account := student.account.(followedFaculty := following));
        var followers := ToggledList(faculty.account.followers, reg, screen.isFollowing);
        var faculty' := faculty.(account := faculty.account.(followers := followers));
        Toggled(ProfileScreen(Some(faculty'), Some(student'), !screen.isFollowing),
                WriteBack(store, student', faculty', reg, staffId))
  }

  /** The screen's flag tells whether the viewed faculty is in the current
      student's `followedFaculty`. */
  ghost predicate FlagAccurate(screen: ProfileScreen, staffId: string)
  {
    screen.currentStudent.Some? && screen.currentStudent.value.account.Student? &&
    (screen.isFollowing <==> staffId in screen.currentStudent.value.account.followedFaculty)
  }

  /** The follow edge is recorded on both sides or on neither. */
  ghost predicate EdgeInStep(screen: ProfileScreen, staffId: string)
  {
    && screen.currentStudent.Some? && screen.currentStudent.value.account.Student?
    && screen.faculty.Some? && screen.faculty.value.account.Faculty?
    && (staffId in screen.currentStudent.value.account.followedFaculty <==>
        screen.currentStudent.value.account.registerNumber in screen.faculty.value.account.followers)
  }

  /** A toggle keeps the flag accurate and re-establishes the edge on both
      sides (follow) or removes it from both (unfollow). */
  lemma ToggleKeepsFlagAndEdge(screen: ProfileScreen, store: Store, staffId: string)
    requires FlagAccurate(screen, staffId)
    requires HandleFollow(screen, store, staffId).Toggled?
    ensures var r := HandleFollow(screen, store, staffId);
      FlagAccurate(r.screen, staffId) && EdgeInStep(r.screen, staffId)
  {
    var student, faculty := screen.currentStudent.value.account, screen.faculty.value.account;
    WithoutRemovesAll(student.followedFaculty, staffId);
    WithoutRemovesAll(faculty.followers, student.registerNumber);
  }

  /** Following and then unfollowing restores both records, and so the
      three written keys hold the records the screen started from. */
  lemma FollowThenUnfollowRestores(screen: ProfileScreen, store: Store, staffId: string)
    requires screen.faculty.Some? && screen.faculty.value.account.Faculty?
    requires screen.currentStudent.Some? && screen.currentStudent.value.account.Student?
    requires !screen.isFollowing
    requires staffId !in screen.currentStudent.value.account.followedFaculty
    requires screen.currentStudent.value.account.registerNumber !in screen.faculty.value.account.followers
    ensures var r1 := HandleFollow(screen, store, staffId);
      r1.Toggled? &&
      var r2 := HandleFollow(r1.screen, r1.store, staffId);
      && r2.Toggled?
      && r2.screen == screen
      && var reg := screen.currentStudent.value.account.registerNumber;
         r2.store == store[SessionKey := screen.currentStudent.value]
                          [StudentKey(reg) := screen.currentStudent.value]
                          [FacultyKey(staffId) := screen.faculty.value]
  {
    var student, faculty := screen.currentStudent.value, screen.faculty.value;
    var reg := student.account.registerNumber;
    FollowStep(student, faculty, store, staffId);
    UnfollowStep(student, faculty, HandleFollow(screen, store, staffId).store, staffId);
    assert screen == ProfileScreen(Some(faculty), Some(student), false);
  }

  /** Following from a screen without the edge appends to both lists. */
  lemma FollowStep(student: Record, faculty: Record, store: Store, staffId: string)
    requires student.account.Student? && faculty.account.Faculty?
    ensures var reg := student.account.registerNumber;
      var student1 := student.(account := student.account.(followedFaculty := student.account.followedFaculty + [staffId]));
      var faculty1 := faculty.(account := faculty.account.(followers := faculty.account.followers + [reg]));
      HandleFollow(ProfileScreen(Some(faculty), Some(student), false), store, staffId) ==
        Toggled(ProfileScreen(Some(faculty1), Some(student1), true), WriteBack(store, student1, faculty1, reg, staffId))
  {
  }

  /** Unfollowing right after such a follow gives both records back. */
  lemma UnfollowStep(student: Record, faculty: Record, store: Store, staffId: string)
    requires student.account.Student? && faculty.account.Faculty?
    requires staffId !in student.account.followedFaculty
    requires student.account.registerNumber !in faculty.account.followers
    ensures var reg := student.account.registerNumber;
      var student1 := student.(account := student.account.(followedFaculty := student.account.followedFaculty + [staffId]));
      var faculty1 := faculty.(account := faculty.account.(followers := faculty.account.followers + [reg]));
      HandleFollow(ProfileScreen(Some(faculty1), Some(student1), true), store, staffId) ==
        Toggled(ProfileScreen(Some(faculty), Some(student), false), WriteBack(store, student, faculty, reg, staffId))
  {
    var reg := student.account.registerNumber;
    WithoutUndoesAppend(student.account.followedFaculty, staffId);
    WithoutUndoesAppend(faculty.account.followers, reg);
  }

  /** The screen mirrors the store: both records are the stored ones. */
  ghost predicate InSync(screen: ProfileScreen, store: Store, staffId: string)
  {
    screen.faculty == Get(store, FacultyKey(staffId)) && screen.currentStudent == CurrentUser(store)
  }

  /** A toggle from a freshly loaded screen keeps the store well-formed and
      leaves the screen in step with it. */
  lemma ToggleKeepsStoreWellFormed(screen: ProfileScreen, store: Store, staffId: string)
    requires WellFormed(store) && InSync(screen, store, staffId)
    requires HandleFollow(screen, store, staffId).Toggled?
    ensures var r := HandleFollow(screen, store, staffId);
      WellFormed(r.store) && InSync(r.screen, r.store, staffId)
  {
    var r := HandleFollow(screen, store, staffId);
    var reg := screen.currentStudent.value.account.registerNumber;
    forall id | FacultyKey(id) in r.store
      ensures r.store[FacultyKey(id)].account.Faculty? && r.store[FacultyKey(id)].account.staffId == id
    {
      KeysDistinct(id, reg);
      KeysDistinct(id, staffId);
    }
    forall id | StudentKey(id) in r.store
      ensures r.store[StudentKey(id)].account.Student? && r.store[StudentKey(id)].account.registerNumber == id
    {
      KeysDistinct(staffId, id);
      KeysDistinct(id, reg);
    }
    KeysDistinct(staffId, reg);
  }
}
