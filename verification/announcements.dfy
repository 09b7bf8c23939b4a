/** Announcements: faculty post them at the head of the list, and each viewer
    sees a subset decided by their role and whom they follow. */
module Announcements {
  import opened Wrappers
  import opened Records
  import opened Seqs
  import opened Text

  datatype Visibility = FollowersOnly | Public

  /** A stored announcement; the poster's id and name are undefined when the
      session lacked them. */
  datatype Announcement = Announcement(id: string, title: string, message: string, createdAt: string,
                                       facultyId: Option<string>, facultyName: Option<string>,
                                       visibility: Visibility)

  /** Nothing happens on a blank field; a non-faculty session gets the
      "Only faculty can post" alert; otherwise the new list. */
  datatype PostOutcome = Ignored | OnlyFacultyCanPost | Posted(announcements: seq<Announcement>)

  /** The announcement a post by `poster` creates. */
  predicate IsNewAnnouncement(a: Announcement, poster: Record, title: string, message: string,
                              visibility: Visibility, id: string, createdAt: string)
  {
    && a.id == id && a.createdAt == createdAt
    && a.title == Trim(title) && a.message == Trim(message)
    && a.facultyId == StaffIdOf(poster.account) && a.facultyName == StaffNameOf(poster.account)
    && a.visibility == visibility
  }

  function PostAnnouncement(announcements: seq<Announcement>, user: Option<Record>, title: string,
                            message: string, visibility: Visibility, id: string, createdAt: string): (r: PostOutcome)
    ensures Trim(title) == "" || Trim(message) == "" ==> r == Ignored
    ensures (Trim(title) != "" && Trim(message) != "" &&
      (user.None? || user.value.userType != Some(FacultyRole))) ==> r == OnlyFacultyCanPost
    ensures r.Posted? <==>
      Trim(title) != "" && Trim(message) != "" && user.Some? && user.value.userType == Some(FacultyRole)
    ensures r.Posted? ==>
      |r.announcements| == |announcements| + 1 && r.announcements[1..] == announcements &&
      IsNewAnnouncement(r.announcements[0], user.value, title, message, visibility, id, createdAt)
  {
    if Trim(title) == "" || Trim(message) == "" then Ignored
    else if user.None? || user.value.userType != Some(FacultyRole) then OnlyFacultyCanPost
    else
      var account := user.value.account;
      var a := Announcement(id, Trim(title), Trim(message), createdAt,
                            StaffIdOf(account), StaffNameOf(account), visibility);
      Posted([a] + announcements)
  }

  /** The ids a student session follows; `[]` when the field is missing. */
  function Follows(user: Record): seq<string>
  {
    if user.account.Student? then user.account.followedFaculty else []
  }

  /** A student sees public announcements and those of faculty they follow. */
  predicate StudentMaySee(student: Record, a: Announcement)
  {
    a.visibility == Public || (a.facultyId.Some? && a.facultyId.value in Follows(student))
  }

  /** The per-announcement test of the screen's filter. */
  predicate CanSee(user: Option<Record>, a: Announcement)
  {
    if user.None? then a.visibility == Public
    else if user.value.userType == Some(FacultyRole) then a.facultyId == StaffIdOf(user.value.account)
    else if user.value.userType == Some(StudentRole) then StudentMaySee(user.value, a)
    else false
  }

  function VisibleAnnouncements(announcements: seq<Announcement>, user: Option<Record>): (r: seq<Announcement>)
    ensures IsSubsequence(r, announcements)
    ensures forall a :: multiset(r)[a] == if CanSee(user, a) then multiset(announcements)[a] else 0
    ensures user.None? ==>
      (forall i :: 0 <= i < |r| ==> r[i].visibility == Public) &&
      (forall i :: 0 <= i < |announcements| && announcements[i].visibility == Public ==> announcements[i] in r)
    ensures user.Some? && user.value.userType == Some(FacultyRole) ==>
      (forall i :: 0 <= i < |r| ==> r[i].facultyId == StaffIdOf(user.value.account)) &&
      (forall i :: 0 <= i < |announcements| && announcements[i].facultyId == StaffIdOf(user.value.account) ==>
         announcements[i] in r)
    ensures user.Some? && user.value.userType == Some(StudentRole) ==>
      (forall i :: 0 <= i < |r| ==> StudentMaySee(user.value, r[i])) &&
      (forall i :: 0 <= i < |announcements| && StudentMaySee(user.value, announcements[i]) ==>
         announcements[i] in r)
    ensures user.Some? && user.value.userType.None? ==> r == []
  {
    Filter(announcements, (a: Announcement) => CanSee(user, a))
  }

  /** A post heads the viewer's list whenever the viewer may see it, and the
      rest of the viewer's list is what it was before. */
  lemma PostHeadsEveryListThatShowsIt(announcements: seq<Announcement>, poster: Option<Record>, title: string,
                                      message: string, visibility: Visibility, id: string, createdAt: string,
                                      viewer: Option<Record>)
    requires PostAnnouncement(announcements, poster, title, message, visibility, id, createdAt).Posted?
    ensures var after := PostAnnouncement(announcements, poster, title, message, visibility, id, createdAt).announcements;
      VisibleAnnouncements(after, viewer) ==
        (if CanSee(viewer, after[0]) then [after[0]] else []) + VisibleAnnouncements(announcements, viewer)
  {
    var after := PostAnnouncement(announcements, poster, title, message, visibility, id, createdAt).announcements;
    assert after == [after[0]] + announcements;
    FilterAppend([after[0]], announcements, (a: Announcement) => CanSee(viewer, a));
  }

  /** The poster sees the new announcement first, whatever its visibility. */
  lemma PostSeenByAuthor(announcements: seq<Announcement>, poster: Record, title: string,
                         message: string, visibility: Visibility, id: string, createdAt: string)
    requires PostAnnouncement(announcements, Some(poster), title, message, visibility, id, createdAt).Posted?
    ensures var after := PostAnnouncement(announcements, Some(poster), title, message, visibility, id, createdAt).announcements;
      var seen := VisibleAnnouncements(after, Some(poster));
      |seen| > 0 && seen[0] == after[0]
  {
    PostHeadsEveryListThatShowsIt(announcements, Some(poster), title, message, visibility, id, createdAt, Some(poster));
  }

  /** A student who follows the poster sees the new announcement first, even
      one restricted to followers. */
  lemma PostSeenByFollower(announcements: seq<Announcement>, poster: Record, title: string,
                           message: string, visibility: Visibility, id: string, createdAt: string,
                           student: Record)
    requires PostAnnouncement(announcements, Some(poster), title, message, visibility, id, createdAt).Posted?
    requires poster.account.Faculty? && student.userType == Some(StudentRole)
    requires student.account.Student? && poster.account.staffId in student.account.followedFaculty
    ensures var after := PostAnnouncement(announcements, Some(poster), title, message, visibility, id, createdAt).announcements;
      var seen := VisibleAnnouncements(after, Some(student));
      |seen| > 0 && seen[0] == after[0]
  {
    PostHeadsEveryListThatShowsIt(announcements, Some(poster), title, message, visibility, id, createdAt, Some(student));
  }
}
