/** Direct messages between a student and the faculty they follow: thread
    identifiers, sending, the per-thread view and the recipient list. */
module Chat {
  import opened Wrappers
  import opened Records
  import opened Seqs
  import opened Text

  /** A stored chat message. `sender` is undefined when the session lacks
      the name field its `userType` points at. */
  datatype Message = Message(id: string, text: string, sender: Option<string>,
                             senderType: Option<Role>, timestamp: string, threadId: string)

  /** A chip of the "To:" bar, built from the `staffId`/`staffName` or
      `registerNumber`/`studentName` of a stored record. */
  datatype Recipient = Recipient(id: Option<string>, name: Option<string>)

  // ---------------------------------------------------------------- thread ids

  /** The two `type:id` parts, sorted by the default string order and joined with `|`. */
  function MakeThreadId(aType: string, aId: string, bType: string, bId: string): string
  {
    var one := aType + ":" + aId;
    var two := bType + ":" + bId;
    if LexLess(two, one) then two + "|" + one else one + "|" + two
  }

  /** The thread id does not depend on which party is named first. */
  lemma ThreadIdSymmetric(aType: string, aId: string, bType: string, bId: string)
    ensures MakeThreadId(aType, aId, bType, bId) == MakeThreadId(bType, bId, aType, aId)
  {
    var one, two := aType + ":" + aId, bType + ":" + bId;
    LexLessAsymmetric(one, two);
    LexLessTrichotomy(one, two);
  }

  /** Between a student and a faculty member the thread id is always
      `faculty:<staffId>|student:<registerNumber>`, whoever computes it. */
  lemma StudentFacultyThread(registerNumber: string, staffId: string)
    ensures MakeThreadId("student", registerNumber, "faculty", staffId) ==
            "faculty:" + staffId + "|student:" + registerNumber
    ensures MakeThreadId("faculty", staffId, "student", registerNumber) ==
            "faculty:" + staffId + "|student:" + registerNumber
  {
    var one, two := "student" + ":" + registerNumber, "faculty" + ":" + staffId;
    assert one[0] == 's' && two[0] == 'f';
    assert LexLess(two, one);
    LexLessAsymmetric(two, one);
  }

  /** With no `|` in the staff ids, distinct student/faculty pairs get distinct threads. */
  lemma {:induction false} ThreadIdSeparatesPairs(reg1: string, staff1: string, reg2: string, staff2: string)
    requires '|' !in staff1 && '|' !in staff2
    ensures MakeThreadId("student", reg1, "faculty", staff1) == MakeThreadId("student", reg2, "faculty", staff2) ==>
      reg1 == reg2 && staff1 == staff2
  {
    StudentFacultyThread(reg1, staff1);
    StudentFacultyThread(reg2, staff2);
    var t1 := "faculty:" + staff1 + "|student:" + reg1;
    var t2 := "faculty:" + staff2 + "|student:" + reg2;
    if t1 == t2 {
      assert t1[8 + |staff1|] == '|' && t2[8 + |staff2|] == '|';
      assert forall k :: 8 <= k < 8 + |staff1| ==> t1[k] == staff1[k - 8] != '|';
      assert forall k :: 8 <= k < 8 + |staff2| ==> t2[k] == staff2[k - 8] != '|';
      assert staff1 == t1[8..8 + |staff1|] == t2[8..8 + |staff2|] == staff2;
      assert reg1 == t1[|t1| - |reg1|..] == t2[|t2| - |reg2|..] == reg2;
    }
  }

  /** When a staff id may contain `|`, two different pairs can share a thread. */
  lemma ThreadIdCollision()
    ensures MakeThreadId("student", "z", "faculty", "x|student:y") ==
            MakeThreadId("student", "y|student:z", "faculty", "x")
  {
    StudentFacultyThread("z", "x|student:y");
    StudentFacultyThread("y|student:z", "x");
  }

  /** The thread a logged-in user is looking at: students compute it from
      their `registerNumber`, everyone else from their `staffId`. */
  function ThreadIdFor(user: Record, recipientId: Option<string>): string
  {
    if user.userType == Some(StudentRole) then
      MakeThreadId("student", Show(RegisterNumberOf(user.account)), "faculty", Show(recipientId))
    else
      MakeThreadId("faculty", Show(StaffIdOf(user.account)), "student", Show(recipientId))
  }

  /** A student talking to a faculty member and that faculty member talking
      back to the student are on the same thread. */
  lemma BothEndsShareThread(student: Record, faculty: Record)
    requires student.account.Student? && SessionConsistent(student)
    requires faculty.account.Faculty? && SessionConsistent(faculty)
    ensures ThreadIdFor(student, Some(faculty.account.staffId)) ==
            ThreadIdFor(faculty, Some(student.account.registerNumber))
  {
    StudentFacultyThread(student.account.registerNumber, faculty.account.staffId);
  }

  /** The screen's current thread id, empty exactly when nobody is logged in. */
  function CurrentThreadId(user: Option<Record>, recipientId: Option<string>): (t: string)
    ensures t == "" <==> user.None?
    ensures user.Some? ==> t == ThreadIdFor(user.value, recipientId)
  {
    if user.None? then ""
    else
      var t := ThreadIdFor(user.value, recipientId);
      assert '|' in t;
      t
  }

  // ---------------------------------------------------------------- view and send

  /** The messages of the current thread, in stored order; none without a user. */
  function VisibleMessages(messages: seq<Message>, user: Option<Record>, recipientId: Option<string>): (r: seq<Message>)
    ensures user.None? ==> r == []
    ensures forall i :: 0 <= i < |r| ==>
      user.Some? && r[i] in messages && r[i].threadId == ThreadIdFor(user.value, recipientId)
    ensures forall i :: (0 <= i < |messages| && user.Some? &&
      messages[i].threadId == ThreadIdFor(user.value, recipientId)) ==> messages[i] in r
    ensures IsSubsequence(r, messages)
    ensures forall m :: (multiset(r)[m] ==
      if user.Some? && m.threadId == ThreadIdFor(user.value, recipientId) then multiset(messages)[m] else 0)
  {
    var t := CurrentThreadId(user, recipientId);
    if t == "" then [] else Filter(messages, OnThread(t))
  }

  /** The test of `visibleMessages`' filter: the message belongs to thread `t`. */
  function OnThread(t: string): Message -> bool
  {
    (m: Message) => m.threadId == t
  }

  /** The message a send stores for `user` writing `text` to `recipientId`. */
  predicate IsSentMessage(m: Message, user: Record, recipientId: Option<string>, text: string,
                          id: string, timestamp: string)
  {
    && m.id == id && m.text == text && m.timestamp == timestamp
    && m.senderType == user.userType
    && m.sender == (if user.userType == Some(FacultyRole) then StaffNameOf(user.account)
                    else StudentNameOf(user.account))
    && m.threadId == ThreadIdFor(user, recipientId)
  }

  /** `sendMessage`: nothing happens for blank text, no session or no
      recipient; otherwise one message with the trimmed text is appended. */
  function SendMessage(messages: seq<Message>, newMessage: string, user: Option<Record>,
                       recipientId: Option<string>, id: string, timestamp: string): (r: Option<seq<Message>>)
    ensures r.None? <==> Trim(newMessage) == "" || user.None? || !Truthy(recipientId)
    ensures r.Some? ==>
      |r.value| == |messages| + 1 && r.value[..|messages|] == messages &&
      IsSentMessage(r.value[|messages|], user.value, recipientId, Trim(newMessage), id, timestamp)
  {
    if Trim(newMessage) == "" || user.None? || !Truthy(recipientId) then None
    else
      var u := user.value;
      var message := Message(id, Trim(newMessage),
                             if u.userType == Some(FacultyRole) then StaffNameOf(u.account)
                             else StudentNameOf(u.account),
                             u.userType, timestamp, ThreadIdFor(u, recipientId));
      Some(messages + [message])
  }

  /** After a send, every view gains the new message at its end exactly when
      it shows the new message's thread, and is otherwise unchanged. */
  lemma SendExtendsExactlyItsThread(messages: seq<Message>, newMessage: string, user: Option<Record>,
                                    recipientId: Option<string>, id: string, timestamp: string,
                                    viewer: Option<Record>, viewerRecipient: Option<string>)
    requires SendMessage(messages, newMessage, user, recipientId, id, timestamp).Some?
    ensures var after := SendMessage(messages, newMessage, user, recipientId, id, timestamp).value;
      var m := after[|messages|];
      VisibleMessages(after, viewer, viewerRecipient) ==
        VisibleMessages(messages, viewer, viewerRecipient) +
        (if viewer.Some? && ThreadIdFor(viewer.value, viewerRecipient) == m.threadId then [m] else [])
  {
    var after := SendMessage(messages, newMessage, user, recipientId, id, timestamp).value;
    var m := after[|messages|];
    assert after == messages + [m];
    ViewOfAppended(messages, m, viewer, viewerRecipient);
  }

  /** Appending a message extends a view by it exactly when the view shows its thread. */
  lemma ViewOfAppended(messages: seq<Message>, m: Message, viewer: Option<Record>, viewerRecipient: Option<string>)
    ensures VisibleMessages(messages + [m], viewer, viewerRecipient) ==
      VisibleMessages(messages, viewer, viewerRecipient) +
      (if viewer.Some? && ThreadIdFor(viewer.value, viewerRecipient) == m.threadId then [m] else [])
  {
    if viewer.Some? {
      var p := OnThread(ThreadIdFor(viewer.value, viewerRecipient));
      assert VisibleMessages(messages + [m], viewer, viewerRecipient) == Filter(messages + [m], p);
      assert VisibleMessages(messages, viewer, viewerRecipient) == Filter(messages, p);
      assert Filter(messages + [m], p) == Filter(messages, p) + Filter([m], p) by {
        FilterAppend(messages, [m], p);
      }
      assert Filter([m], p) == if p(m) then [m] else [] by {
        assert [m][1..] == [];
      }
    }
  }

  /** A message a logged-in student sends to a followed faculty member shows
      up at the end of that faculty member's view of the conversation. */
  lemma StudentMessageReachesFaculty(messages: seq<Message>, newMessage: string, student: Record,
                                     faculty: Record, id: string, timestamp: string)
    requires student.account.Student? && SessionConsistent(student)
    requires faculty.account.Faculty? && SessionConsistent(faculty)
    requires Trim(newMessage) != "" && faculty.account.staffId != ""
    ensures var sent := SendMessage(messages, newMessage, Some(student), Some(faculty.account.staffId), id, timestamp);
      sent.Some? &&
      var view := VisibleMessages(sent.value, Some(faculty), Some(student.account.registerNumber));
      |view| > 0 && view[|view| - 1] == sent.value[|messages|] && view[|view| - 1].text == Trim(newMessage)
  {
    BothEndsShareThread(student, faculty);
    SendExtendsExactlyItsThread(messages, newMessage, Some(student), Some(faculty.account.staffId), id, timestamp,
                                Some(faculty), Some(student.account.registerNumber));
  }

  // ---------------------------------------------------------------- recipients

  /** The storage key of the other party: `faculty_<id>` for students, `student_<id>` for faculty. */
  function KeyFor(kind: Role, id: string): string
  {
    if kind == FacultyRole then FacultyKey(id) else StudentKey(id)
  }

  /** The chip for a stored record of the other party. */
  function RecipientOf(kind: Role, a: Account): Recipient
  {
    if kind == FacultyRole then Recipient(StaffIdOf(a), StaffNameOf(a))
    else Recipient(RegisterNumberOf(a), StudentNameOf(a))
  }

  /** A recipient is present for `ids[j]` when its record is stored. */
  predicate Found(ids: seq<string>, store: Store, kind: Role, j: int)
  {
    0 <= j < |ids| && KeyFor(kind, ids[j]) in store
  }

  /** The chip shown for `ids[j]`. */
  function ChipAt(ids: seq<string>, store: Store, kind: Role, j: int): Recipient
    requires Found(ids, store, kind, j)
  {
    RecipientOf(kind, store[KeyFor(kind, ids[j])].account)
  }

  /** Dropping the first id shifts every position down by one. */
  lemma TailShift(ids: seq<string>, store: Store, kind: Role)
    requires |ids| > 0
    ensures forall j {:trigger Found(ids[1..], store, kind, j)} :: 0 <= j ==>
      (Found(ids[1..], store, kind, j) <==> Found(ids, store, kind, j + 1))
    ensures forall j :: Found(ids[1..], store, kind, j) ==>
      ChipAt(ids[1..], store, kind, j) == ChipAt(ids, store, kind, j + 1)
  {
    forall j | 0 <= j < |ids| - 1
      ensures ids[1..][j] == ids[j + 1]
    {
    }
  }

  /** The records of `ids` that exist, in order, as chips; missing records are dropped. */
  function RecipientsFrom(ids: seq<string>, store: Store, kind: Role): (r: seq<Recipient>)
    ensures |r| <= |ids|
    ensures forall j :: Found(ids, store, kind, j) ==> ChipAt(ids, store, kind, j) in r
    ensures |r| == 0 <==> forall j :: 0 <= j < |ids| ==> !Found(ids, store, kind, j)
    decreases |ids|
  {
    if |ids| == 0 then []
    else
      var rest := RecipientsFrom(ids[1..], store, kind);
      TailShift(ids, store, kind);
      assert forall j :: 1 <= j < |ids| ==> (Found(ids, store, kind, j) <==> Found(ids[1..], store, kind, j - 1));
      if KeyFor(kind, ids[0]) in store then
        [ChipAt(ids, store, kind, 0)] + rest
      else rest
  }

  /** `c` is the chip of some id of `ids` whose record is stored. */
  ghost predicate FromStored(ids: seq<string>, store: Store, kind: Role, c: Recipient)
  {
    exists j :: Found(ids, store, kind, j) && c == ChipAt(ids, store, kind, j)
  }

  /** Every chip comes from a followed id whose record is stored. */
  lemma {:induction false} RecipientsAreStored(ids: seq<string>, store: Store, kind: Role)
    ensures forall i :: 0 <= i < |RecipientsFrom(ids, store, kind)| ==>
      FromStored(ids, store, kind, RecipientsFrom(ids, store, kind)[i])
    decreases |ids|
  {
    if |ids| > 0 {
      var r, rest := RecipientsFrom(ids, store, kind), RecipientsFrom(ids[1..], store, kind);
      RecipientsAreStored(ids[1..], store, kind);
      TailShift(ids, store, kind);
      var offset := if KeyFor(kind, ids[0]) in store then 1 else 0;
      assert r == (if offset == 1 then [ChipAt(ids, store, kind, 0)] else []) + rest;
      forall i | 0 <= i < |r|
        ensures FromStored(ids, store, kind, r[i])
      {
        if i < offset {
          assert Found(ids, store, kind, 0) && r[i] == ChipAt(ids, store, kind, 0);
        } else {
          assert r[i] == rest[i - offset];
          assert FromStored(ids[1..], store, kind, rest[i - offset]);
          var j :| Found(ids[1..], store, kind, j) && rest[i - offset] == ChipAt(ids[1..], store, kind, j);
          assert Found(ids, store, kind, j + 1) && r[i] == ChipAt(ids, store, kind, j + 1);
        }
      }
    }
  }

  /** `ids[j]` is the first id whose record is stored. */
  ghost predicate FirstStored(ids: seq<string>, store: Store, kind: Role, j: int)
  {
    Found(ids, store, kind, j) && forall k :: 0 <= k < j ==> !Found(ids, store, kind, k)
  }

  /** The first chip, the default recipient, is the first followed id whose record is stored. */
  lemma {:induction false} FirstRecipientIsFirstStored(ids: seq<string>, store: Store, kind: Role)
    requires |RecipientsFrom(ids, store, kind)| > 0
    ensures exists j :: FirstStored(ids, store, kind, j) && RecipientsFrom(ids, store, kind)[0] == ChipAt(ids, store, kind, j)
    decreases |ids|
  {
    if KeyFor(kind, ids[0]) in store {
      assert FirstStored(ids, store, kind, 0);
    } else {
      SkipMissing(ids, store, kind);
      var rest := RecipientsFrom(ids[1..], store, kind);
      FirstRecipientIsFirstStored(ids[1..], store, kind);
      var j :| FirstStored(ids[1..], store, kind, j) && rest[0] == ChipAt(ids[1..], store, kind, j);
      FirstStoredShift(ids, store, kind, j);
    }
  }

  /** A missing first record contributes no chip. */
  lemma SkipMissing(ids: seq<string>, store: Store, kind: Role)
    requires |ids| > 0 && KeyFor(kind, ids[0]) !in store
    ensures RecipientsFrom(ids, store, kind) == RecipientsFrom(ids[1..], store, kind)
  {
  }

  /** Behind a missing first record, the first stored id moves one place on. */
  lemma FirstStoredShift(ids: seq<string>, store: Store, kind: Role, j: int)
    requires |ids| > 0 && KeyFor(kind, ids[0]) !in store && FirstStored(ids[1..], store, kind, j)
    ensures FirstStored(ids, store, kind, j + 1)
    ensures ChipAt(ids[1..], store, kind, j) == ChipAt(ids, store, kind, j + 1)
  {
    TailShift(ids, store, kind);
    forall k | 1 <= k < j + 1
      ensures !Found(ids, store, kind, k)
    {
      assert !Found(ids[1..], store, kind, k - 1);
    }
  }

  /** `r` lists the chips of exactly the positions `idx` of `ids`, and `idx`
      enumerates every position whose record is stored, in increasing order. */
  ghost predicate ListsFoundInOrder(ids: seq<string>, store: Store, kind: Role, r: seq<Recipient>, idx: seq<int>)
  {
    && |idx| == |r|
    && (forall i :: 0 <= i < |idx| ==> Found(ids, store, kind, idx[i]) && r[i] == ChipAt(ids, store, kind, idx[i]))
    && (forall i, k :: 0 <= i < k < |idx| ==> idx[i] < idx[k])
    && (forall j :: Found(ids, store, kind, j) ==> j in idx)
  }

  /** Every position moved one place on. */
  function Shift(idx: seq<int>): seq<int>
  {
    seq(|idx|, i requires 0 <= i < |idx| => idx[i] + 1)
  }

  /** The chips are those of the stored records, one per id, in the order of
      the ids: `map`, `filter(Boolean)` and `map` keep order and multiplicity. */
  lemma {:induction false} RecipientsInOrder(ids: seq<string>, store: Store, kind: Role)
    ensures exists idx :: ListsFoundInOrder(ids, store, kind, RecipientsFrom(ids, store, kind), idx)
    decreases |ids|
  {
    if |ids| == 0 {
      assert RecipientsFrom(ids, store, kind) == [];
      assert ListsFoundInOrder(ids, store, kind, [], []);
    } else {
      var rest := RecipientsFrom(ids[1..], store, kind);
      RecipientsInOrder(ids[1..], store, kind);
      var idx :| ListsFoundInOrder(ids[1..], store, kind, rest, idx);
      ShiftedListing(ids, store, kind, rest, idx);
      if KeyFor(kind, ids[0]) in store {
        assert RecipientsFrom(ids, store, kind) == [ChipAt(ids, store, kind, 0)] + rest;
        StoredHeadListing(ids, store, kind, rest, Shift(idx));
      } else {
        SkipMissing(ids, store, kind);
        MissingHeadListing(ids, store, kind, rest, Shift(idx));
      }
    }
  }

  /** `r` and `sh` list the stored positions of `ids` after the first, in increasing order. */
  ghost predicate ListsFoundAfterHead(ids: seq<string>, store: Store, kind: Role, r: seq<Recipient>, sh: seq<int>)
  {
    && |sh| == |r|
    && (forall i :: 0 <= i < |sh| ==>
          1 <= sh[i] && Found(ids, store, kind, sh[i]) && r[i] == ChipAt(ids, store, kind, sh[i]))
    && (forall i, k :: 0 <= i < k < |sh| ==> sh[i] < sh[k])
    && (forall j :: 1 <= j && Found(ids, store, kind, j) ==> j in sh)
  }

  /** The listing of `ids[1..]`, shifted, lists the stored positions of `ids` after the first. */
  lemma ShiftedListing(ids: seq<string>, store: Store, kind: Role, rest: seq<Recipient>, idx: seq<int>)
    requires |ids| > 0 && ListsFoundInOrder(ids[1..], store, kind, rest, idx)
    ensures ListsFoundAfterHead(ids, store, kind, rest, Shift(idx))
  {
    var sh := Shift(idx);
    TailShift(ids, store, kind);
    forall i | 0 <= i < |sh|
      ensures 1 <= sh[i] && Found(ids, store, kind, sh[i]) && rest[i] == ChipAt(ids, store, kind, sh[i])
    {
      assert sh[i] == idx[i] + 1 && Found(ids[1..], store, kind, idx[i]);
    }
    forall i, k | 0 <= i < k < |sh|
      ensures sh[i] < sh[k]
    {
      assert idx[i] < idx[k];
    }
    forall j | 1 <= j && Found(ids, store, kind, j)
      ensures j in sh
    {
      assert Found(ids[1..], store, kind, j - 1);
      var i :| 0 <= i < |idx| && idx[i] == j - 1;
      assert sh[i] == j;
    }
  }

  /** A stored first record puts its chip, at position 0, before the shifted rest. */
  lemma StoredHeadListing(ids: seq<string>, store: Store, kind: Role, rest: seq<Recipient>, sh: seq<int>)
    requires |ids| > 0 && KeyFor(kind, ids[0]) in store
    requires ListsFoundAfterHead(ids, store, kind, rest, sh)
    ensures ListsFoundInOrder(ids, store, kind, [ChipAt(ids, store, kind, 0)] + rest, [0] + sh)
  {
    var r := [ChipAt(ids, store, kind, 0)] + rest;
    var idx := [0] + sh;
    forall i | 0 <= i < |idx|
      ensures Found(ids, store, kind, idx[i]) && r[i] == ChipAt(ids, store, kind, idx[i])
    {
      if i > 0 {
        assert idx[i] == sh[i - 1] && r[i] == rest[i - 1];
      }
    }
    forall j | Found(ids, store, kind, j)
      ensures j in idx
    {
      if j > 0 {
        assert j in sh;
      }
    }
  }

  /** A missing first record leaves the shifted listing of the rest as it is. */
  lemma MissingHeadListing(ids: seq<string>, store: Store, kind: Role, rest: seq<Recipient>, sh: seq<int>)
    requires |ids| > 0 && KeyFor(kind, ids[0]) !in store
    requires ListsFoundAfterHead(ids, store, kind, rest, sh)
    ensures ListsFoundInOrder(ids, store, kind, rest, sh)
  {
  }

  /** `loadRecipients`: students may write to the faculty they follow,
      faculty to their followers; the first chip becomes the recipient.
      A session of any other type leaves both as they were. */
  function LoadRecipients(user: Record, store: Store, current: Option<string>): (r: (seq<Recipient>, Option<string>))
    ensures user.userType.None? ==> r == ([], current)
    ensures |r.0| == 0 ==> r.1 == current
    ensures |r.0| > 0 ==> r.1 == r.0[0].id
    ensures user.userType == Some(StudentRole) ==>
      r.0 == RecipientsFrom(if user.account.Student? then user.account.followedFaculty else [], store, FacultyRole)
    ensures user.userType == Some(FacultyRole) ==>
      r.0 == RecipientsFrom(if user.account.Faculty? then user.account.followers else [], store, StudentRole)
  {
    if user.userType == Some(StudentRole) || user.userType == Some(FacultyRole) then
      var kind := if user.userType == Some(StudentRole) then FacultyRole else StudentRole;
      var ids := if kind == FacultyRole then (if user.account.Student? then user.account.followedFaculty else [])
                 else (if user.account.Faculty? then user.account.followers else []);
      var recips := RecipientsFrom(ids, store, kind);
      (recips, if |recips| > 0 then recips[0].id else current)
    else ([], current)
  }

  /** In a well-formed store a student's chips are exactly followed faculty:
      each carries the id it was followed under. */
  lemma StudentRecipientsAreFollowed(user: Record, store: Store, current: Option<string>)
    requires WellFormed(store) && user.account.Student? && user.userType == Some(StudentRole)
    ensures var r := LoadRecipients(user, store, current);
      forall i :: 0 <= i < |r.0| ==> r.0[i].id.Some? && r.0[i].id.value in user.account.followedFaculty
  {
    var ids := user.account.followedFaculty;
    var r := LoadRecipients(user, store, current);
    RecipientsAreStored(ids, store, FacultyRole);
    forall i | 0 <= i < |r.0|
      ensures r.0[i].id.Some? && r.0[i].id.value in ids
    {
      assert FromStored(ids, store, FacultyRole, r.0[i]);
      var j :| Found(ids, store, FacultyRole, j) && r.0[i] == ChipAt(ids, store, FacultyRole, j);
      assert store[FacultyKey(ids[j])].account.staffId == ids[j];
    }
  }
}
