# GO-LMS core, modelled in Dafny

GO-LMS is a small on-device learning-management app. It keeps all of its
state in a flat key-value store of JSON records. The logic that matters
lives in the event handlers of its screens. This project restates that
logic as pure functions over immutable datatypes and proves properties
about them. Six parts are covered:

- **Accounts** (`auth.dfy`, over `records.dfy`): faculty and student
  signup and login. The store is a `map<string, Record>` holding
  the accounts under `faculty_<staffId>` and `student_<registerNumber>`
  keys and the session under `currentUser`. The app's other values under
  those prefixes are left out (see below).
  A handler either fails with the alert it raises, or returns the new store.
- **Follow toggle** (`follow.dfy`): the faculty profile screen's follow
  button keeps the student's `followedFaculty` and the faculty's
  `followers` in step.
- **Messaging** (`chat.dfy`): covers
  - the order-independent thread id
  - sending a message
  - the per-thread view
  - the recipient chips built from the follow lists
- **Announcements** (`announcements.dfy`): faculty-only posting at the
  head of the list, and a visibility filter that depends on the viewer's
  role and whom they follow.
- **Calendar** (`calendar.dfy`): adding an event checks the required
  fields and re-sorts the list by a date key. Each event type has a
  badge colour.
- **FAQ assistant** (`chatbot.dfy`): a first-match keyword responder with
  a fixed priority order, and the message list of its screen.

Shared pieces:

- `wrappers.dfy`: `Option` and `Result`.
- `seqs.dfy`: `filter` and the subsequence relation.
- `text.dfy`: the ASCII parts of `trim`, `toLowerCase`, `includes` and the
  default string order.

Three things the proofs bring out about the code as written:

- Thread ids can collide once a staff id contains `|`
  (`Chat.ThreadIdCollision`). Without a `|` in staff ids they cannot
  (`Chat.ThreadIdSeparatesPairs`).
- The assistant's greeting test fires on `hi` inside any word, such as
  "This" (`Chatbot.GreetingInsideWord`).
- Its fallback reply quotes the lower-cased input with its surrounding
  blanks, while the stored user message is trimmed
  (`Chatbot.UnmatchedInputIsQuoted`).

## Model

| member | source | states |
|---|---|---|
| Records.KeysDistinct | app/faculty-profile.tsx:76-78 | Faculty keys, student keys and the session key never collide, and each kind of key determines its id. So a write to one account's key leaves every other account and the session alone. |
| Text.Trim | app/chat.tsx:86 | `trim` keeps a contiguous slice of the input and cuts only whitespace outside it. A non-empty result starts and ends with non-whitespace. The result is empty exactly when the input is all whitespace. |
| Text.Lower | app/ai-chatbot.tsx:67 | `toLowerCase` keeps the length and lower-cases each ASCII letter in place. |
| Text.LowerIdempotent | app/ai-chatbot.tsx:53-67 | Lower-casing an already lower-cased string changes nothing. So the assistant's second `toLowerCase` is harmless. |
| Text.Lacks | app/ai-chatbot.tsx:70 | If some character of the needle does not occur in the text, `includes` returns false. |
| Text.LexLessAsymmetric | app/chat.tsx:82 | The default sort order on strings never puts each of two strings before the other. |
| Text.LexLessTrichotomy | app/chat.tsx:82 | Two strings where neither sorts before the other are equal, so `sort` on two parts has one result. |
| Seqs.Filter | app/announcements.tsx:63-71 | `filter` keeps an order-preserving subsequence. Every kept element passes the test, and every element that passes is kept as many times as it occurs in the input. |
| Auth.FacultyLogin | app/faculty-auth.tsx:21-51 | An empty staff id or password gives MissingFields. A missing `faculty_` key gives NotFound. A differing stored password gives InvalidPassword. Login succeeds exactly when both fields are non-empty, the key is stored and the password matches; it sets `currentUser` to that record tagged faculty and changes no other key. |
| Auth.FacultySignup | app/faculty-auth.tsx:53-83 | Name, staff id, email or password empty gives MissingFields; an existing key gives AlreadyExists. Success exactly otherwise. It adds exactly the one new key, leaves every old key as it was, and stores the form's fields with empty followers and follow requests, zero materials and the given creation time. |
| Auth.StudentLogin | app/student-auth.tsx:20-48 | Same outcomes as faculty login, over `student_` keys. Login succeeds exactly when both fields are non-empty, the key is stored and the password matches. A success sets `currentUser` to the stored student tagged student and changes nothing else. |
| Auth.StudentSignup | app/student-auth.tsx:50-79 | Name, register number, email or password empty gives MissingFields; an existing key gives AlreadyExists. Success exactly otherwise. It adds only the new key, holding the form's fields with empty followed, pending, completed and quiz lists. |
| Auth.FacultySignupThenLogin | app/faculty-auth.tsx:21-83 | Logging in with the staff id and password just signed up with succeeds and makes the new account the faculty session. |
| Auth.StudentSignupThenLogin | app/student-auth.tsx:20-79 | Logging in with the register number and password just signed up with succeeds and makes the new account the student session. |
| Auth.StudentSignupKeepsFacultyKeys | app/student-auth.tsx:72 | A student signup neither adds, removes nor changes any `faculty_` key or the session. |
| Auth.FacultySignupKeepsStudentKeys | app/faculty-auth.tsx:76 | A faculty signup neither adds, removes nor changes any `student_` key or the session. |
| Auth.FacultySignupPreservesWellFormed | app/faculty-auth.tsx:68-76 | Faculty signup keeps two things true: every key holds an account of its own kind and id, and the session tag matches the session's account. |
| Auth.StudentSignupPreservesWellFormed | app/student-auth.tsx:63-72 | Student signup keeps the same invariant. |
| Auth.FacultyLoginPreservesWellFormed | app/faculty-auth.tsx:41-45 | Faculty login keeps the invariant; the new session is tagged with its account's kind. |
| Auth.StudentLoginPreservesWellFormed | app/student-auth.tsx:39-42 | Student login keeps the invariant. |
| Follow.WithoutRemovesAll | app/faculty-profile.tsx:59 | Filtering out an id removes every occurrence of it and keeps all other ids, with their multiplicities and in order. |
| Follow.WithoutUndoesAppend | app/faculty-profile.tsx:58-60 | Removing an id that was appended to a list not holding it gives back the original list. |
| Follow.LoadProfileScreen | app/faculty-profile.tsx:30-52 | The screen holds the stored faculty record and the session record. `isFollowing` is true exactly when the session is a student whose `followedFaculty` contains the viewed staff id. |
| Follow.ToggledList | app/faculty-profile.tsx:58-69 | Follow appends the id. Unfollow removes every occurrence of it and keeps the rest in order. |
| Follow.WriteBack | app/faculty-profile.tsx:76-78 | The same student record goes to `currentUser` and `student_<reg>`, and the faculty record to `faculty_<staffId>`. Every other key is unchanged. |
| Follow.HandleFollow | app/faculty-profile.tsx:54-88 | With a record missing, nothing happens. A record of the wrong kind fails. The toggle happens exactly when both records are present and of the right kinds: the flag flips, and only `followedFaculty` and `followers` change: appended on follow, every occurrence removed on unfollow. All three writes happen. |
| Follow.ToggleKeepsFlagAndEdge | app/faculty-profile.tsx:58-80 | If the flag was accurate, it stays accurate after a toggle. The follow edge then sits in both lists or in neither. |
| Follow.FollowThenUnfollowRestores | app/faculty-profile.tsx:54-82 | Following and then unfollowing, from a state without the edge, restores the screen. The written keys hold the original records. |
| Follow.ToggleKeepsStoreWellFormed | app/faculty-profile.tsx:76-82 | On a freshly loaded screen a toggle keeps the store invariant, and the screen stays equal to what the store holds. |
| Chat.ThreadIdSymmetric | app/chat.tsx:79-83 | The thread id does not depend on which party is named first. |
| Chat.StudentFacultyThread | app/chat.tsx:79-83 | Between a student and a faculty member the id is always `faculty:<staffId>` and `student:<registerNumber>`, in that order, joined by a vertical bar. |
| Chat.ThreadIdSeparatesPairs | app/chat.tsx:79-83 | If no staff id contains a vertical bar, distinct student/faculty pairs get distinct thread ids. |
| Chat.ThreadIdCollision | app/chat.tsx:79-83 | With a vertical bar in a staff id, two different student/faculty pairs share a thread id. |
| Chat.BothEndsShareThread | app/chat.tsx:94-96 | A student writing to a faculty member and that faculty member writing back compute the same thread id. |
| Chat.CurrentThreadId | app/chat.tsx:136-140 | The screen's thread id is empty exactly when nobody is logged in. |
| Chat.VisibleMessages | app/chat.tsx:136-141 | Nothing is shown without a user. Otherwise the view is an order-preserving subsequence holding exactly the messages of the current thread, each as many times as it occurs in the list. |
| Chat.SendMessage | app/chat.tsx:85-99 | Nothing is sent when the trimmed text is blank, there is no user, or no recipient. Otherwise exactly one message is appended after the untouched old ones, carrying the trimmed text, the sender's name and type, and the thread id. |
| Chat.ViewOfAppended | app/chat.tsx:136-141 | Appending a message to the list extends a view by that message exactly when the view shows its thread, and leaves the view unchanged otherwise. |
| Chat.SendExtendsExactlyItsThread | app/chat.tsx:85-141 | After a send, a view that shows the new message's thread gains that message at its end. Every other view is unchanged. |
| Chat.StudentMessageReachesFaculty | app/chat.tsx:85-141 | A student's message to a faculty member is the last one in that faculty member's view of the conversation with the student. |
| Chat.RecipientsFrom | app/chat.tsx:47-52 | There are at most as many chips as ids, and every id with a stored record yields its chip. There are no chips exactly when no id has a record. |
| Chat.RecipientsInOrder | app/chat.tsx:47-52 | The chips are those of the ids whose records are stored, one chip per such id, in the order of the ids. |
| Chat.RecipientsAreStored | app/chat.tsx:47-52 | Every chip comes from an id whose record is stored; missing records are dropped. |
| Chat.FirstRecipientIsFirstStored | app/chat.tsx:49-54 | The first chip belongs to the first id in the list whose record is stored. |
| Chat.LoadRecipients | app/chat.tsx:43-66 | Students get chips for the faculty they follow, and faculty get chips for their followers. The first chip's id becomes the recipient; with no chips, or for any other session type, the recipient stays as it was. |
| Chat.StudentRecipientsAreFollowed | app/chat.tsx:45-52 | In a well-formed store, every chip a student gets carries the id of a faculty member the student follows. |
| Announcements.PostAnnouncement | app/announcements.tsx:41-56 | A blank trimmed title or message does nothing. A session that is not faculty gets the alert. Posting succeeds exactly otherwise, and prepends one announcement with the trimmed texts, the poster's staff id and name, and the chosen visibility. |
| Announcements.VisibleAnnouncements | app/announcements.tsx:63-71 | The result is an order-preserving subsequence. Each case is exact in both directions: with no user, only and all public posts; for faculty, only and all their own; for a student, only and all public or followed posts; for any other session type, nothing. Every shown post appears as many times as in the list. |
| Announcements.PostHeadsEveryListThatShowsIt | app/announcements.tsx:56-71 | After a post, a viewer who may see it finds it at the head of their list. The rest of their list is what it was before. |
| Announcements.PostSeenByAuthor | app/announcements.tsx:52-65 | The poster sees their new announcement first, whatever its visibility. |
| Announcements.PostSeenByFollower | app/announcements.tsx:52-68 | A student following the poster sees the new announcement first, even a followers-only one. |
| Calendar.InsertByDate | app/calendar.tsx:68-70 | Inserting into a date-sorted list keeps it sorted and adds exactly the one event. |
| Calendar.SortByDate | app/calendar.tsx:68-70 | The sort returns a permutation of its input in non-decreasing date order. |
| Calendar.SortKeepsSorted | app/calendar.tsx:68-70 | Sorting a list already in date order returns it unchanged. |
| Calendar.AddEvent | app/calendar.tsx:57-81 | A blank title, date or time is refused. Otherwise the new list is a date-sorted permutation of the old list plus the new event, one longer, and the form resets to empty fields with type `class`. |
| Calendar.AddToSortedInsertsInPlace | app/calendar.tsx:63-70 | Adding to a sorted list puts the new event, with the form's fields, in one place. It comes after every event not later than it and before every later one, and the other events keep their order. |
| Calendar.EventTypeColor | app/calendar.tsx:83-90 | `exam` maps to the error colour, `assignment` to warning and `class` to primary. Each holds in both directions. Every other type maps to secondary. |
| Chatbot.FirstFaq | app/ai-chatbot.tsx:69-73 | Finds the first keyword in table order contained in the input. None is returned only when no keyword from that point occurs. |
| Chatbot.Classify | app/ai-chatbot.tsx:66-84 | FAQ when some keyword occurs, naming the first one. Otherwise a greeting when `hello` or `hi` occurs, then thanks when `thank` occurs, else unknown. Each case holds in both directions. |
| Chatbot.BotResponsePriority | app/ai-chatbot.tsx:66-84 | The reply is the answer of the first keyword found. Failing that it is the greeting, then the thanks reply, then the fallback quoting the input. |
| Chatbot.KeywordBeatsGreeting | app/ai-chatbot.tsx:69-77 | "hi, help" greets, but the `help` keyword wins. |
| Chatbot.GreetingInsideWord | app/ai-chatbot.tsx:75-77 | "This" is answered with the greeting, because `hi` occurs inside it. |
| Chatbot.UnmatchedInputIsQuoted | app/ai-chatbot.tsx:53-83 | For "  Why? " nothing matches. The fallback quotes the lower-cased, untrimmed "  why? ". |
| Chatbot.InitialMessages | app/ai-chatbot.tsx:28-37 | The screen starts with the single welcome message from the bot, with id "1". |
| Chatbot.SendMessage | app/ai-chatbot.tsx:39-63 | Blank input is ignored. Otherwise the trimmed text is appended as the user's message after the old ones, and the lower-cased, untrimmed input is kept for the reply. |
| Chatbot.DeliverReply | app/ai-chatbot.tsx:52-61 | The delayed callback appends one bot message after whatever the list holds, and its text is the assistant's answer to the lower-cased input. |
| Chatbot.Exchange | app/ai-chatbot.tsx:39-64 | A send followed by its reply leaves the old messages, then the trimmed user message, then the answer to the lower-cased input. |
| Chatbot.FirstExchange | app/ai-chatbot.tsx:28-64 | The first exchange makes a conversation of three messages: welcome, user message, reply. |

## Left out

- Storage: AsyncStorage reads and writes, JSON serialisation and the
  try/catch paths for storage failures. The store is an in-memory map,
  and serialisation is the identity.
- Lists kept under their own keys (`chat_messages`, `announcements`,
  `calendar_events`) are passed in and returned as sequences. Their loading
  screens are not modelled.
- Alerts and navigation: they become the error or outcome values the
  handlers return.
- Form and input clearing after a successful action is not modelled, except
  for the calendar form reset.
- Ids and timestamps: `Date.now()` ids and ISO timestamps are parameters,
  because they come from the clock.
- The 1000 ms `setTimeout` of the assistant is split into `SendMessage` and
  `DeliverReply`. Interleavings with other sends are not explored.
- The three writes of the follow handler are taken as one step. There is no
  concurrency in the app to interleave with them.
- Text is ASCII only: ASCII whitespace for `trim`, ASCII letters for
  `toLowerCase`, and code-point order for the default `sort`.
- Calendar.SortByDate: the date key is an abstract function from date
  strings to integers, because JavaScript `Date` parsing is platform
  dependent and may give NaN. NaN keys are not modelled.
- Calendar.SortByDate: stability is not stated for arbitrary lists. It is
  stated for the case the screen produces, a sorted list plus one new
  event, in Calendar.AddToSortedInsertsInPlace.
- Chat.RecipientsFrom: its own contract gives membership and emptiness only. The order and the one-chip-per-stored-id count are stated by Chat.RecipientsInOrder, as a separate lemma.
- Store values that are not accounts: the app also keeps JSON arrays under
  keys with the account prefixes (`faculty_assignments`, `faculty_materials`,
  `student_bookmarks`). The model's store holds account records only. So
  signup with staff id `assignments` or `materials` once those arrays exist,
  which the app refuses as already existing, and login with those ids, which
  the app answers with "Invalid password" because an array has no
  `password`, are outside the model. `Records.WellFormed`, and every lemma
  that preserves it, speaks of account-valued keys only.
- Follow requests: `followRequests` and `pendingFollowRequests` hold request
  objects (register number, name, department, request time) in the app. The
  model types them as opaque strings, because the modelled handlers only
  copy these lists.
- Quiz results and completed assignments are opaque strings. The other
  screens (tabs, landing, splash and route table) are not part of this
  model.
- Rendering, styles and the theme are left out, except the four badge
  colours, which the calendar returns.
