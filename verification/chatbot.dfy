/** The canned-response assistant: a first-match keyword table, greeting and
    thanks replies, and the message list the screen keeps. */
module Chatbot {
  import opened Wrappers
  import opened Text

  datatype ChatMessage = ChatMessage(id: string, text: string, isBot: bool, timestamp: string)

  /** The FAQ keywords, in the order the table is searched. */
  const FaqKeys: seq<string> := ["timetable", "subjects", "deadlines", "grades", "contact", "help"]

  /** The answer for each keyword of `FaqKeys`, at the same position. */
  const FaqAnswers: seq<string> := [
    "Your timetable is available in the Calendar section. Faculty members regularly update class schedules and exam dates there.",
    "You can find all your subjects by checking the materials uploaded by faculty you follow. Each faculty typically handles specific subjects.",
    "Assignment deadlines are shown in the Assignments section. You can also check the Calendar for all upcoming deadlines.",
    "Grades and quiz results are available in your Profile section under the Analytics tab.",
    "You can contact faculty directly through the Messages section or check their contact details on their profile.",
    "I can help you with questions about timetables, subjects, deadlines, grades, and how to use the app. What would you like to know?"
  ]

  const GreetingReply: string := "Hello! How can I assist you with your studies today?"
  const ThanksReply: string := "You're welcome! Is there anything else I can help you with?"
  const WelcomeText: string :=
    "Hello! I'm your LMS assistant. I can help you with questions about timetables, subjects, deadlines, grades, and more. How can I help you today?"

  /** The reply when nothing matched, quoting the input as given. */
  function FallbackReply(userInput: string): string
  {
    "I understand you're asking about \"" + userInput +
    "\". Could you try asking about timetables, subjects, deadlines, grades, or contact information? I'm here to help!"
  }

  /** The first FAQ keyword at or after position `i` that occurs in `lower`. */
  function FirstFaq(lower: string, i: nat): (r: Option<nat>)
    requires i <= |FaqKeys|
    ensures r.Some? ==>
      i <= r.value < |FaqKeys| && Contains(lower, FaqKeys[r.value]) &&
      forall j :: i <= j < r.value ==> !Contains(lower, FaqKeys[j])
    ensures r.None? ==> forall j :: i <= j < |FaqKeys| ==> !Contains(lower, FaqKeys[j])
    decreases |FaqKeys| - i
  {
    if i == |FaqKeys| then None
    else if Contains(lower, FaqKeys[i]) then Some(i)
    else FirstFaq(lower, i + 1)
  }

  /** No FAQ keyword occurs in `lower`. */
  predicate NoFaq(lower: string)
  {
    forall j :: 0 <= j < |FaqKeys| ==> !Contains(lower, FaqKeys[j])
  }

  predicate Greets(lower: string)
  {
    Contains(lower, "hello") || Contains(lower, "hi")
  }

  /** What the input asks for, in the order `getBotResponse` tests it:
      the FAQ keyword at `index`, a greeting, thanks, or nothing known. */
  datatype Intent = Faq(index: nat) | Greeting | Thanks | Unknown

  /** The first match of the lower-cased input: the first FAQ keyword it
      contains; failing that a greeting, then thanks. */
  function Classify(lower: string): (r: Intent)
    ensures r.Faq? <==> !NoFaq(lower)
    ensures r.Faq? ==>
      r.index < |FaqKeys| && Contains(lower, FaqKeys[r.index]) &&
      forall k :: 0 <= k < r.index ==> !Contains(lower, FaqKeys[k])
    ensures r == Greeting <==> NoFaq(lower) && Greets(lower)
    ensures r == Thanks <==> NoFaq(lower) && !Greets(lower) && Contains(lower, "thank")
    ensures r == Unknown <==> NoFaq(lower) && !Greets(lower) && !Contains(lower, "thank")
  {
    var hit := FirstFaq(lower, 0);
    if hit.Some? then Faq(hit.value)
    else if Greets(lower) then Greeting
    else if Contains(lower, "thank") then Thanks
    else Unknown
  }

  /** The canned text for an intent; an unknown one quotes the input. */
  function Reply(intent: Intent, userInput: string): string
    requires intent.Faq? ==> intent.index < |FaqAnswers|
  {
    match intent
    case Faq(i) => FaqAnswers[i]
    case Greeting => GreetingReply
    case Thanks => ThanksReply
    case Unknown => FallbackReply(userInput)
  }

  /** `getBotResponse`: the canned reply for what the lower-cased input asks. */
  function BotResponse(userInput: string): string
  {
    Reply(Classify(Lower(userInput)), userInput)
  }

  /** The reply is the answer of the first FAQ keyword found; otherwise the
      greeting, then the thanks reply, then the fallback quoting the input. */
  lemma BotResponsePriority(userInput: string)
    ensures var lower := Lower(userInput);
      forall j :: (0 <= j < |FaqKeys| && Contains(lower, FaqKeys[j]) &&
        (forall k :: 0 <= k < j ==> !Contains(lower, FaqKeys[k]))) ==> BotResponse(userInput) == FaqAnswers[j]
    ensures var lower := Lower(userInput);
      NoFaq(lower) && Greets(lower) ==> BotResponse(userInput) == GreetingReply
    ensures var lower := Lower(userInput);
      NoFaq(lower) && !Greets(lower) && Contains(lower, "thank") ==> BotResponse(userInput) == ThanksReply
    ensures var lower := Lower(userInput);
      NoFaq(lower) && !Greets(lower) && !Contains(lower, "thank") ==> BotResponse(userInput) == FallbackReply(userInput)
  {
    var lower := Lower(userInput);
    var c := Classify(lower);
    assert BotResponse(userInput) == Reply(c, userInput);
    match c
    case Faq(i) =>
      forall j | 0 <= j < |FaqKeys| && Contains(lower, FaqKeys[j]) &&
          (forall k :: 0 <= k < j ==> !Contains(lower, FaqKeys[k]))
        ensures BotResponse(userInput) == FaqAnswers[j]
      {
        assert i == j;
      }
    case Greeting =>
    case Thanks =>
    case Unknown =>
  }

  /** Each FAQ keyword has a character missing from `lower`, so none occurs. */
  lemma NoKeyword(lower: string, witnesses: seq<char>)
    requires |witnesses| == |FaqKeys|
    requires forall j :: 0 <= j < |FaqKeys| ==> witnesses[j] in FaqKeys[j] && witnesses[j] !in lower
    ensures NoFaq(lower)
  {
    forall j | 0 <= j < |FaqKeys| ensures !Contains(lower, FaqKeys[j]) {
      Lacks(lower, FaqKeys[j], witnesses[j]);
    }
  }

  /** A keyword wins over a greeting in the same input. */
  lemma KeywordBeatsGreeting()
    ensures Greets(Lower("hi, help")) && Classify(Lower("hi, help")) == Faq(5)
  {
    LowerLiteral("hi, help");
    HelpIsFaqFive();
  }

  lemma HelpIsFaqFive()
    ensures Greets("hi, help") && Classify("hi, help") == Faq(5)
  {
    var lower := "hi, help";
    assert OccursAt(lower, "hi", 0);
    Lacks(lower, "timetable", 't');
    Lacks(lower, "subjects", 's');
    Lacks(lower, "deadlines", 'd');
    Lacks(lower, "grades", 'g');
    Lacks(lower, "contact", 'c');
    assert OccursAt(lower, FaqKeys[5], 4);
  }

  /** "hi" matches inside a word, so "This" is taken as a greeting. */
  lemma GreetingInsideWord()
    ensures Classify(Lower("This")) == Greeting
  {
    assert Lower("This") == "this" by {
      var l := Lower("This");
      assert |l| == 4 && forall i :: 0 <= i < 4 ==> l[i] == "this"[i];
    }
    NoKeyword("this", "mudgce");
    assert OccursAt("this", "hi", 1);
  }

  /** A text without upper-case letters is its own lower-case form. */
  lemma LowerLiteral(s: string)
    requires forall i :: 0 <= i < |s| ==> !('A' <= s[i] <= 'Z')
    ensures Lower(s) == s
  {
  }

  /** The welcome message the screen starts with. */
  function InitialMessages(timestamp: string): (r: seq<ChatMessage>)
    ensures |r| == 1 && r[0].isBot && r[0].id == "1" && r[0].text == WelcomeText
  {
    [ChatMessage("1", WelcomeText, true, timestamp)]
  }

  /** Pressing send: blank input is ignored; otherwise the trimmed text is
      appended as the user's message and a reply is scheduled for the
      lower-cased, untrimmed input. */
  datatype SendOutcome = Ignored | Sent(messages: seq<ChatMessage>, pendingInput: string)

  function SendMessage(messages: seq<ChatMessage>, newMessage: string, id: string, timestamp: string): (r: SendOutcome)
    ensures r.Ignored? <==> Trim(newMessage) == ""
    ensures r.Sent? ==>
      |r.messages| == |messages| + 1 && r.messages[..|messages|] == messages &&
      r.messages[|messages|] == ChatMessage(id, Trim(newMessage), false, timestamp) &&
      r.pendingInput == Lower(newMessage)
  {
    if Trim(newMessage) == "" then Ignored
    else
      Sent(messages + [ChatMessage(id, Trim(newMessage), false, timestamp)], Lower(newMessage))
  }

  /** The delayed callback: the reply to the captured input is appended as a
      bot message after whatever the list holds by then. */
  function DeliverReply(messages: seq<ChatMessage>, input: string, id: string, timestamp: string): (r: seq<ChatMessage>)
    ensures |r| == |messages| + 1 && r[..|messages|] == messages
    ensures r[|messages|] == ChatMessage(id, BotResponse(input), true, timestamp)
  {
    messages + [ChatMessage(id, BotResponse(input), true, timestamp)]
  }

  /** One exchange: the user's trimmed text and then the reply computed from
      the lower-cased input follow the earlier messages. */
  lemma {:induction false} Exchange(messages: seq<ChatMessage>, newMessage: string,
                                    id1: string, t1: string, id2: string, t2: string)
    requires Trim(newMessage) != ""
    ensures var sent := SendMessage(messages, newMessage, id1, t1);
      sent.Sent? &&
      DeliverReply(sent.messages, sent.pendingInput, id2, t2) ==
        messages + [ChatMessage(id1, Trim(newMessage), false, t1),
                    ChatMessage(id2, BotResponse(Lower(newMessage)), true, t2)]
  {
    var user := ChatMessage(id1, Trim(newMessage), false, t1);
    var bot := ChatMessage(id2, BotResponse(Lower(newMessage)), true, t2);
    assert messages + [user] + [bot] == messages + [user, bot];
  }

  /** The first exchange follows the single welcome message. */
  lemma FirstExchange(newMessage: string, t0: string, id1: string, t1: string, id2: string, t2: string)
    requires Trim(newMessage) != ""
    ensures var sent := SendMessage(InitialMessages(t0), newMessage, id1, t1);
      sent.Sent? &&
      var conversation := DeliverReply(sent.messages, sent.pendingInput, id2, t2);
      |conversation| == 3 && conversation[0] == InitialMessages(t0)[0] &&
      conversation[1] == ChatMessage(id1, Trim(newMessage), false, t1) &&
      conversation[2] == ChatMessage(id2, BotResponse(Lower(newMessage)), true, t2)
  {
    Exchange(InitialMessages(t0), newMessage, id1, t1, id2, t2);
  }

  /** An unmatched reply quotes the lower-cased input with its surrounding
      blanks, although the stored user message is trimmed. */
  lemma UnmatchedInputIsQuoted()
    ensures Classify(Lower("  Why? ")) == Unknown
    ensures BotResponse(Lower("  Why? ")) == FallbackReply("  why? ")
  {
    assert Lower("  Why? ") == "  why? " by {
      var l := Lower("  Why? ");
      assert |l| == 7 && forall i :: 0 <= i < 7 ==> l[i] == "  why? "[i];
    }
    assert Classify("  why? ") == Unknown by {
      NothingMatchesWhy();
    }
    assert BotResponse("  why? ") == Reply(Unknown, "  why? ") by {
      LowerLiteral("  why? ");
    }
    assert Reply(Unknown, "  why? ") == FallbackReply("  why? ");
  }

  lemma NothingMatchesWhy()
    ensures NoFaq("  why? ") && !Greets("  why? ") && !Contains("  why? ", "thank")
  {
    var lower := "  why? ";
    NoKeyword(lower, "tsdgce");
    Lacks(lower, "hello", 'e');
    Lacks(lower, "hi", 'i');
    Lacks(lower, "thank", 't');
  }
}
