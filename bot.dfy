/**
  The bot's per-user conversation state (user_quiz_state in bot.py) and the handlers
  that change it. Each handler is one atomic step on the map from Telegram user ids to
  sessions, answered by one reply; sending the reply is left to the transport. Whether a
  database session could be opened, the current month key and the shuffles are
  parameters of the handlers.
 */
module QuizBot {
  import opened Text
  import opened QuizParser
  import opened OptionCodec
  import opened Storage

  /** A user's slot in user_quiz_state. The two admin steps carry what the admin has typed so
      far; a quiz carries the shuffled questions, the index of the question on screen and the
      two counters. */
  datatype Session =
    | AwaitingTestName
    | AwaitingTestContent(testName: string)
    | InQuiz(testName: string, testId: int, questions: seq<QuestionRecord>,
             currentIndex: int, correctAnswers: nat, incorrectAnswers: nat)

  /** An inline keyboard button: its label ("A." …), its text and its callback data. */
  datatype Button = Button(mark: char, text: string, callbackData: string)

  /** A button of the /takequiz menu. */
  datatype MenuItem = MenuItem(name: string, callbackData: string)

  /** What a handler sends back. */
  datatype Reply =
    | NoReply
    | AdminOnly
    | AskTestName
    | AskTestContent(testName: string)
    | NothingParsed
    | StorageUnavailable
    | TestSaved(testName: string, testId: int, questionCount: nat)
    | DuplicateTest(testName: string)
    | SaveFailed
    | NoTests
    | TestMenu(items: seq<MenuItem>)
    | TestNotFound(testName: string)
    | ShowQuestion(index: int, testName: string, question: string, buttons: seq<Button>)
    | QuizFinished(testName: string, correct: nat, incorrect: nat, total: nat)
    | QuizError
    | Leaderboards(global: seq<GlobalEntry>, monthly: seq<MonthlyEntry>)

  /** A decoded answer callback: the index of the next question and whether the chosen
      option was the correct one. */
  datatype AnswerChoice = AnswerChoice(next: int, isCorrect: bool)

  /** user_quiz_state.get(u). */
  function Slot(sessions: map<int, Session>, u: int): Option<Session> {
    if u in sessions then Some(sessions[u]) else None
  }

  // ---- callback data ----

  /** str(b) for a Python bool. */
  function BoolText(b: bool): string {
    if b then "True" else "False"
  }

  /** f"ans_next_{n}_{is_correct}". */
  function AnswerCallback(n: int, isCorrect: bool): string {
    "ans_next_" + IntToString(n) + "_" + BoolText(isCorrect)
  }

  /** parts = data.split('_'); int(parts[2]); parts[3] == 'True'. A missing part
      (IndexError) or a part int() rejects (ValueError) gives None. */
  function DecodeAnswer(data: string): Option<AnswerChoice> {
    var parts := SplitOn(data, '_');
    if |parts| < 3 then None
    else
      match ParseInt(parts[2])
      case None => None
      case Some(n) => if |parts| < 4 then None else Some(AnswerChoice(n, parts[3] == "True"))
  }

  /** The callback splits at its underscores into "ans", "next", the index and the flag. */
  lemma AnswerCallbackParts(n: int, isCorrect: bool)
    ensures SplitOn(AnswerCallback(n, isCorrect), '_') == ["ans", "next", IntToString(n), BoolText(isCorrect)]
  {
    var num := IntToString(n);
    var flag := BoolText(isCorrect);
    FlagHasNoUnderscore(isCorrect);
    var t3 := num + ['_'] + flag;
    var t2 := "next" + ['_'] + t3;
    AnswerCallbackShape(num, flag);
    SplitOnNone(flag, '_');
    SplitOnPrefix(num, '_', flag);
    SplitOnPrefix("next", '_', t3);
    SplitOnPrefix("ans", '_', t2);
  }

  /** "True" and "False" hold no underscore. */
  lemma FlagHasNoUnderscore(b: bool)
    ensures '_' !in BoolText(b)
  {
    if b {
      assert BoolText(b) == ['T', 'r', 'u', 'e'];
    } else {
      assert BoolText(b) == ['F', 'a', 'l', 's', 'e'];
    }
  }

  /** The callback text, with its three underscores written out. */
  lemma AnswerCallbackShape(num: string, flag: string)
    ensures "ans_next_" + num + "_" + flag == "ans" + ['_'] + ("next" + ['_'] + (num + ['_'] + flag))
  {
    assert "ans_next_" == "ans" + ['_'] + "next" + ['_'];
  }

  /** Decoding the callback of an answer button gives back its index and its flag, for
      every integer index. */
  lemma AnswerCallbackRoundTrip(n: int, isCorrect: bool)
    ensures StartsWith(AnswerCallback(n, isCorrect), "ans_next_")
    ensures DecodeAnswer(AnswerCallback(n, isCorrect)) == Some(AnswerChoice(n, isCorrect))
  {
    AnswerCallbackParts(n, isCorrect);
    IntRoundTrip(n);
    DecodeFourParts(AnswerCallback(n, isCorrect), IntToString(n), n, isCorrect);
    AnswerCallbackPrefix(IntToString(n), BoolText(isCorrect));
  }

  /** Data that splits into "ans", "next", an index int() reads and a flag text decodes
      to that index and to whether the flag text is "True". */
  lemma DecodeFourParts(data: string, num: string, n: int, isCorrect: bool)
    requires SplitOn(data, '_') == ["ans", "next", num, BoolText(isCorrect)]
    requires ParseInt(num) == Some(n)
    ensures DecodeAnswer(data) == Some(AnswerChoice(n, isCorrect))
  {
    assert BoolText(false) != "True" by {
      assert |BoolText(false)| == 5;
    }
  }

  /** The callback starts with "ans_next_". */
  lemma AnswerCallbackPrefix(num: string, flag: string)
    ensures StartsWith("ans_next_" + num + "_" + flag, "ans_next_")
  {
    var data := "ans_next_" + num + "_" + flag;
    assert data[..9] == "ans_next_";
  }

  /** f"take_{name}". */
  function TakeCallback(name: string): (data: string)
    ensures StartsWith(data, "take_") && data[5..] == name
  {
    "take_" + name
  }

  /** data.split("take_")[1] for data starting with "take_": what follows the prefix, up to
      the next "take_" if there is one. */
  function TakeName(data: string): (name: string)
    requires StartsWith(data, "take_")
    ensures 5 + |name| <= |data| && name == data[5..5 + |name|]
  {
    var rest := data[5..];
    match Find(rest, "take_")
    case None => rest
    case Some(k) => rest[..k]
  }

  /** The test name comes back out of its menu callback exactly when it does not itself
      contain "take_"; otherwise it is cut at that point. */
  lemma TakeCallbackRoundTrip(name: string)
    ensures StartsWith(TakeCallback(name), "take_")
    ensures TakeName(TakeCallback(name)) == name <==> !Contains(name, "take_")
  {
    var data := TakeCallback(name);
    assert data[..5] == "take_";
    assert data[5..] == name;
    match Find(name, "take_")
    case None =>
    case Some(k) =>
      assert |name[..k]| < |name|;
  }

  // ---- presenting a question ----

  /** labels = ['A', 'B', 'C', 'D', 'E', 'F']. */
  const ChoiceLabels: string := "ABCDEF"

  /** How many options a question shows: options_pool[:4]. */
  const MaxChoices := 4

  /** The buttons for the shown options: the i-th is labelled by the i-th label and
      answers with the next index and whether its text is the correct answer. */
  function Buttons(qIndex: int, correct: string, shown: seq<string>): (bs: seq<Button>)
    requires |shown| <= MaxChoices
    ensures |bs| == |shown|
  {
    seq(|shown|, i requires 0 <= i < |shown| =>
      Button(ChoiceLabels[i], shown[i], AnswerCallback(qIndex + 1, shown[i] == correct)))
  }

  /** questions[i] with Python's indexing: a negative index counts from the end. */
  predicate PyIndexOk(n: int, i: int) {
    -n <= i < n
  }

  function PyIndex(qs: seq<QuestionRecord>, i: int): QuestionRecord
    requires PyIndexOk(|qs|, i)
  {
    if i < 0 then qs[i + |qs|] else qs[i]
  }

  /** present_question's buttons: the first four options of the shuffled pool, each
      flagged correct when its text equals the correct answer. */
  method PresentQuestion(q: QuestionRecord, qIndex: int, pool: seq<string>) returns (buttons: seq<Button>)
    requires IsShuffleOf(pool, q)
    ensures |buttons| == Min(MaxChoices, 1 + |q.options|) && |buttons| <= |pool|
    ensures buttons == Buttons(qIndex, q.correctAnswer, pool[..|buttons|])
  {
    assert |pool| == 1 + |q.options| by {
      assert |multiset(pool)| == |multiset(Pool(q))|;
    }
    var shown := pool[..Min(MaxChoices, |pool|)];
    buttons := [];
    for i := 0 to |shown|
      invariant buttons == Buttons(qIndex, q.correctAnswer, shown[..i])
    {
      var isCorrect := shown[i] == q.correctAnswer;
      buttons := buttons + [Button(ChoiceLabels[i], shown[i], AnswerCallback(qIndex + 1, isCorrect))];
    }
    assert shown[..|shown|] == shown;
  }

  /** The message present_question sends for a quiz session: the current question, in
      the test's name, with the buttons PresentQuestion builds from the shuffled pool of
      that question's options. */
  predicate Shows(reply: Reply, s: Session, shuffleOptions: seq<string> -> seq<string>)
  {
    s.InQuiz? && PyIndexOk(|s.questions|, s.currentIndex)
    && var q := PyIndex(s.questions, s.currentIndex);
      var pool := shuffleOptions(Pool(q));
      reply.ShowQuestion? && reply.index == s.currentIndex && reply.testName == s.testName
      && reply.question == q.question
      && |reply.buttons| == Min(MaxChoices, 1 + |q.options|) && |reply.buttons| <= |pool|
      && reply.buttons == Buttons(s.currentIndex, q.correctAnswer, pool[..|reply.buttons|])
  }

  /** Every button's callback decodes to the next question's index and to whether that
      button's text is the correct answer: a button is flagged correct exactly when it
      shows the correct answer. */
  lemma ButtonsDecode(qIndex: int, correct: string, shown: seq<string>)
    requires |shown| <= MaxChoices
    ensures forall i :: 0 <= i < |shown| ==>
      DecodeAnswer(Buttons(qIndex, correct, shown)[i].callbackData) == Some(AnswerChoice(qIndex + 1, shown[i] == correct))
  {
    forall i | 0 <= i < |shown|
      ensures DecodeAnswer(Buttons(qIndex, correct, shown)[i].callbackData) == Some(AnswerChoice(qIndex + 1, shown[i] == correct))
    {
      AnswerCallbackRoundTrip(qIndex + 1, shown[i] == correct);
    }
  }

  /** With at most four options in all, every option is shown, so the correct answer is
      always on some button. */
  lemma CorrectShownWhenFewOptions(q: QuestionRecord, pool: seq<string>)
    requires IsShuffleOf(pool, q) && 1 + |q.options| <= MaxChoices
    ensures q.correctAnswer in pool[..Min(MaxChoices, |pool|)]
  {
    assert |pool| == 1 + |q.options| by {
      assert |multiset(pool)| == |multiset(Pool(q))|;
    }
    assert q.correctAnswer in multiset(pool) by {
      assert Pool(q)[0] == q.correctAnswer;
    }
    assert pool[..Min(MaxChoices, |pool|)] == pool;
  }

  /** With five options the shuffle can push the correct answer to fifth place, and then
      no button shows it: none of the four buttons is flagged correct. */
  lemma CorrectCanBeCutOff()
    ensures var q := QuestionRecord("Q", ["b", "c", "d", "e"], "a");
      var pool := ["b", "c", "d", "e", "a"];
      IsShuffleOf(pool, q) && q.correctAnswer !in pool[..Min(MaxChoices, |pool|)]
  {
    var q := QuestionRecord("Q", ["b", "c", "d", "e"], "a");
    var pool := ["b", "c", "d", "e", "a"];
    var p := Pool(q);
    assert p == p[..1] + p[1..];
    assert pool == p[1..] + p[..1];
    assert pool[..Min(MaxChoices, |pool|)] == q.options;
    assert "a"[0] != "b"[0] && "a"[0] != "c"[0] && "a"[0] != "d"[0] && "a"[0] != "e"[0];
  }

  // ---- answering ----

  /** One more answer in the counter the flag names. */
  function Counted(s: Session, isCorrect: bool): (t: Session)
    requires s.InQuiz?
    ensures t.InQuiz? && t == s.(correctAnswers := t.correctAnswers, incorrectAnswers := t.incorrectAnswers)
  {
    if isCorrect then s.(correctAnswers := s.correctAnswers + 1)
    else s.(incorrectAnswers := s.incorrectAnswers + 1)
  }

  /** How an answer callback ends: the quiz goes on with the updated session, it is over,
      or an exception deleted the slot. */
  datatype AnswerStep = Continue(session: Session) | Finish(session: Session) | Fail

  /** The body of the try block in handle_quiz_callback for an in_quiz session: decode the
      callback, count the answer, then move to the question the callback names, or finish
      when that index is past the last question. The stored current index is read but
      never compared with the callback's index. */
  function Outcome(s: Session, data: string): (r: AnswerStep)
    requires s.InQuiz?
    ensures r.Continue? <==> DecodeAnswer(data).Some? && PyIndexOk(|s.questions|, DecodeAnswer(data).value.next)
    ensures r.Finish? <==> DecodeAnswer(data).Some? && DecodeAnswer(data).value.next >= |s.questions|
    ensures r.Continue? ==> r.session.InQuiz? && r.session.currentIndex == DecodeAnswer(data).value.next
  {
    match DecodeAnswer(data)
    case None => Fail
    case Some(c) =>
      var counted := Counted(s, c.isCorrect);
      if c.next < |s.questions| then
        if PyIndexOk(|s.questions|, c.next) then Continue(counted.(currentIndex := c.next)) else Fail
      else Finish(counted)
  }

  /** An answer that does not fail counts exactly one answer, in the counter its flag
      names, and changes nothing else but the current index. */
  lemma AnswerCountsOnce(s: Session, data: string)
    requires s.InQuiz? && !Outcome(s, data).Fail?
    ensures DecodeAnswer(data).Some?
    ensures var t := Outcome(s, data).session;
      t.InQuiz? && t.testName == s.testName && t.testId == s.testId && t.questions == s.questions
      && t.correctAnswers + t.incorrectAnswers == s.correctAnswers + s.incorrectAnswers + 1
      && (t.correctAnswers == s.correctAnswers + 1 <==> DecodeAnswer(data).value.isCorrect)
  {
  }

  /** The outcome does not depend on the stored index: an old or repeated callback is
      counted just like the current one. */
  lemma AnswerIgnoresCurrentIndex(s: Session, data: string, k: int)
    requires s.InQuiz?
    ensures Outcome(s.(currentIndex := k), data).Fail? == Outcome(s, data).Fail?
    ensures Outcome(s.(currentIndex := k), data).Continue? ==> Outcome(s.(currentIndex := k), data) == Outcome(s, data)
    ensures Outcome(s.(currentIndex := k), data).Finish? ==>
      Outcome(s.(currentIndex := k), data) == Finish(Outcome(s, data).session.(currentIndex := k))
  {
    var s2 := s.(currentIndex := k);
    match DecodeAnswer(data)
    case None =>
    case Some(c) =>
      var t, t2 := Counted(s, c.isCorrect), Counted(s2, c.isCorrect);
      assert t2 == t.(currentIndex := k);
      if c.next < |s.questions| {
        assert t2.(currentIndex := c.next) == t.(currentIndex := c.next);
      }
  }


  /** Pressing the same button twice counts it twice: after one question answered
      correctly and the same callback replayed, two correct answers are counted while the
      quiz is on its second question. */
  lemma ReplayedCallbackCountsTwice()
    ensures var q := QuestionRecord("Q", ["x"], "a");
      var s := InQuiz("T", 1, [q, q, q], 0, 0, 0);
      var data := AnswerCallback(1, true);
      Outcome(s, data).Continue?
      && Outcome(Outcome(s, data).session, data) == Continue(InQuiz("T", 1, [q, q, q], 1, 2, 0))
  {
    AnswerCallbackRoundTrip(1, true);
  }

  /** Answering the shown question through one of its buttons keeps the count of answers
      equal to the index of the question on screen; answering the last question finishes
      the quiz with one answer counted per question. */
  lemma HonestAnswerKeepsCount(s: Session, b: bool)
    requires s.InQuiz? && s.correctAnswers + s.incorrectAnswers == s.currentIndex
    ensures var t := Outcome(s, AnswerCallback(s.currentIndex + 1, b));
      (t.Continue? ==> t.session.correctAnswers + t.session.incorrectAnswers == t.session.currentIndex)
      && (t.Finish? && s.currentIndex + 1 == |s.questions| ==>
            t.session.correctAnswers + t.session.incorrectAnswers == |s.questions|)
      && (s.currentIndex + 1 < |s.questions| ==> t.Continue?)
      && (s.currentIndex + 1 >= |s.questions| ==> t.Finish?)
  {
    AnswerCallbackRoundTrip(s.currentIndex + 1, b);
  }

  /** The slot invariant: the admin steps only ever belong to the admin, and a quiz has
      questions and an index Python can read them at. */
  predicate SessionOk(u: int, s: Session, adminId: int) {
    match s
    case AwaitingTestName => u == adminId
    case AwaitingTestContent(_) => u == adminId
    case InQuiz(_, _, questions, currentIndex, _, _) =>
      questions != [] && PyIndexOk(|questions|, currentIndex)
  }

  /** A successful step keeps the slot invariant. */
  lemma AnswerKeepsSessionOk(u: int, s: Session, data: string, adminId: int)
    requires s.InQuiz? && SessionOk(u, s, adminId)
    ensures !Outcome(s, data).Fail? ==> Outcome(s, data).session.InQuiz?
    ensures Outcome(s, data).Continue? ==> SessionOk(u, Outcome(s, data).session, adminId)
  {
  }

  // ---- the /takequiz menu ----

  /** One button per test, in table order, each carrying "take_" and the test's name. */
  function Menu(tests: seq<TestRow>): (items: seq<MenuItem>)
    ensures |items| == |tests|
  {
    seq(|tests|, i requires 0 <= i < |tests| => MenuItem(tests[i].name, TakeCallback(tests[i].name)))
  }

  /** Choosing a menu button of a test whose name does not contain "take_" starts that test:
      the name read from the callback finds it. */
  lemma MenuSelectsItsTest(tests: seq<TestRow>, i: nat)
    requires i < |tests|
    requires forall a, b :: 0 <= a < b < |tests| ==> tests[a].name != tests[b].name
    requires !Contains(tests[i].name, "take_")
    ensures StartsWith(Menu(tests)[i].callbackData, "take_")
    ensures FindTest(tests, TakeName(Menu(tests)[i].callbackData)) == Some(tests[i])
  {
    TakeCallbackRoundTrip(tests[i].name);
    FindTestAt(tests, i);
  }

  /** With unique names, looking up the name of row i finds row i. */
  lemma {:induction false} FindTestAt(tests: seq<TestRow>, i: nat)
    requires i < |tests|
    requires forall a, b :: 0 <= a < b < |tests| ==> tests[a].name != tests[b].name
    ensures FindTest(tests, tests[i].name) == Some(tests[i])
  {
    if i > 0 {
      assert tests[0].name != tests[i].name;
      assert tests[1..][i - 1] == tests[i];
      FindTestAt(tests[1..], i - 1);
    }
  }

  // ---- the bot ----

  class Bot {
    /** ADMIN_ID. */
    const adminId: int
    const db: Database
    /** user_quiz_state. */
    var sessions: map<int, Session>

    /** The database keeps its constraints and its totals, every slot is well formed, and
        whoever is in a quiz has a users row (get_or_create_user runs before the quiz
        starts), so the result saved at the end is added to a known user's total. */
    ghost predicate Valid()
      reads this, db
    {
      db.Valid() && db.Ledger()
      && forall u :: u in sessions ==> SessionOk(u, sessions[u], adminId) && (sessions[u].InQuiz? ==> u in db.users)
    }

    constructor (adminId: int, db: Database)
      requires db.Valid() && db.Ledger()
      ensures Valid()
      ensures this.adminId == adminId && this.db == db && sessions == map[]
    {
      this.adminId := adminId;
      this.db := db;
      sessions := map[];
    }

    /** add_test_command: only the admin may start adding a test; the admin's slot is set
        to awaiting the name, whatever it held. */
    method AddTestCommand(userId: int) returns (reply: Reply)
      requires Valid()
      modifies this
      ensures Valid()
      ensures userId != adminId ==> sessions == old(sessions) && reply == AdminOnly
      ensures userId == adminId ==> sessions == old(sessions)[userId := AwaitingTestName] && reply == AskTestName
    {
      if userId != adminId {
        return AdminOnly;
      }
      sessions := sessions[userId := AwaitingTestName];
      reply := AskTestName;
    }

    /** handle_admin_message, for the admin's text messages. The first message names the
        test; the second holds its text. A text that parses to nothing, or no database
        session, keeps the slot so the admin can send it again; once a save has been tried,
        the slot is gone whether it succeeded, hit a taken name, or failed. */
    method HandleAdminMessage(text: string, dbUp: bool, saveFault: bool, shuffle: seq<string> -> seq<string>)
      returns (reply: Reply)
      requires Valid() && Shuffles(shuffle)
      modifies this, db
      ensures Valid()
      ensures db.users == old(db.users) && db.results == old(db.results)
      ensures Slot(old(sessions), adminId) == Some(AwaitingTestName) && text != [] ==>
        sessions == old(sessions)[adminId := AwaitingTestContent(Strip(text))]
        && reply == AskTestContent(Strip(text))
        && db.tests == old(db.tests) && db.questions == old(db.questions) && db.nextTestId == old(db.nextTestId)
      ensures Slot(old(sessions), adminId).Some? && old(sessions)[adminId].AwaitingTestContent? && text != [] ==>
        ContentReceived(old(sessions)[adminId].testName, text, dbUp, saveFault, shuffle, reply)
      ensures !(Slot(old(sessions), adminId).Some? && (old(sessions)[adminId].AwaitingTestName? || old(sessions)[adminId].AwaitingTestContent?) && text != []) ==>
        sessions == old(sessions) && reply == NoReply
        && db.tests == old(db.tests) && db.questions == old(db.questions) && db.nextTestId == old(db.nextTestId)
    {
      var slot := Slot(sessions, adminId);
      if slot == Some(AwaitingTestName) && text != [] {
        reply := ReceiveTestName(Strip(text));
        return;
      }
      if slot.Some? && slot.value.AwaitingTestContent? && text != [] {
        reply := ReceiveTestContent(slot.value.testName, text, dbUp, saveFault, shuffle);
        return;
      }
      reply := NoReply;
    }

    /** The name step, given the stripped message: it becomes the test name the admin's
        slot waits with for the content, and no table changes. */
    method ReceiveTestName(name: string) returns (reply: Reply)
      requires Valid() && Slot(sessions, adminId) == Some(AwaitingTestName)
      modifies this
      ensures Valid()
      ensures sessions == old(sessions)[adminId := AwaitingTestContent(name)]
      ensures reply == AskTestContent(name)
    {
      sessions := sessions[adminId := AwaitingTestContent(name)];
      reply := AskTestContent(name);
    }

    /** What the content step leaves behind: a text that parses to nothing, or no database
        session, keeps everything as it was; otherwise the slot is gone, and unless the save
        fails or the name is taken, one test row with the next id and its encoded questions
        are added. */
    twostate predicate ContentReceived(name: string, text: string, dbUp: bool, saveFault: bool,
                                       shuffle: seq<string> -> seq<string>, reply: Reply)
      requires Shuffles(shuffle)
      reads this, db
    {
      var parsed := Parse(text);
      (parsed == [] ==>
        sessions == old(sessions) && reply == NothingParsed
        && db.tests == old(db.tests) && db.questions == old(db.questions) && db.nextTestId == old(db.nextTestId))
      && (parsed != [] && !dbUp ==>
        sessions == old(sessions) && reply == StorageUnavailable
        && db.tests == old(db.tests) && db.questions == old(db.questions) && db.nextTestId == old(db.nextTestId))
      && (parsed != [] && dbUp ==> sessions == old(sessions) - {adminId})
      && (parsed != [] && dbUp && saveFault ==>
        reply == SaveFailed
        && db.tests == old(db.tests) && db.questions == old(db.questions) && db.nextTestId == old(db.nextTestId))
      && (parsed != [] && dbUp && !saveFault && FindTest(old(db.tests), name).Some? ==>
        reply == DuplicateTest(name)
        && db.tests == old(db.tests) && db.questions == old(db.questions) && db.nextTestId == old(db.nextTestId))
      && (parsed != [] && dbUp && !saveFault && FindTest(old(db.tests), name).None? ==>
        reply == TestSaved(name, old(db.nextTestId), |parsed|)
        && db.tests == old(db.tests) + [TestRow(old(db.nextTestId), name)]
        && db.questions == old(db.questions) + EncodeAll(old(db.nextTestId), parsed, shuffle)
        && db.nextTestId == old(db.nextTestId) + 1)
    }

    /** The content step of handle_admin_message: the admin's slot awaits the text of the
        test named name. */
    method ReceiveTestContent(name: string, text: string, dbUp: bool, saveFault: bool, shuffle: seq<string> -> seq<string>)
      returns (reply: Reply)
      requires Valid() && Shuffles(shuffle)
      requires Slot(sessions, adminId) == Some(AwaitingTestContent(name))
      modifies this, db
      ensures Valid()
      ensures db.users == old(db.users) && db.results == old(db.results)
      ensures ContentReceived(name, text, dbUp, saveFault, shuffle, reply)
    {
      var parsed := ParseTextToQuiz(text);
      if parsed == [] {
        reply := NothingParsed;
      } else if !dbUp {
        reply := StorageUnavailable;
      } else {
        reply := SaveContent(name, parsed, saveFault, shuffle);
      }
    }

    /** The try/except/finally around save_test_to_db: a failing save changes no table, a
        taken name is refused, otherwise the test is stored under the next id; in every
        case the admin's slot is deleted. */
    method SaveContent(name: string, parsed: seq<QuestionRecord>, saveFault: bool, shuffle: seq<string> -> seq<string>)
      returns (reply: Reply)
      requires Valid() && Shuffles(shuffle)
      modifies this, db
      ensures Valid()
      ensures db.users == old(db.users) && db.results == old(db.results)
      ensures sessions == old(sessions) - {adminId}
      ensures saveFault ==>
        reply == SaveFailed
        && db.tests == old(db.tests) && db.questions == old(db.questions) && db.nextTestId == old(db.nextTestId)
      ensures !saveFault && FindTest(old(db.tests), name).Some? ==>
        reply == DuplicateTest(name)
        && db.tests == old(db.tests) && db.questions == old(db.questions) && db.nextTestId == old(db.nextTestId)
      ensures !saveFault && FindTest(old(db.tests), name).None? ==>
        reply == TestSaved(name, old(db.nextTestId), |parsed|)
        && db.tests == old(db.tests) + [TestRow(old(db.nextTestId), name)]
        && db.questions == old(db.questions) + EncodeAll(old(db.nextTestId), parsed, shuffle)
        && db.nextTestId == old(db.nextTestId) + 1
    {
      if saveFault {
        reply := SaveFailed;
      } else {
        var outcome := db.SaveTest(name, parsed, shuffle);
        match outcome
        case Saved(id) =>
          reply := TestSaved(name, id, |parsed|);
        case DuplicateName =>
          reply := DuplicateTest(name);
      }
      assert db.Valid() && db.Ledger();
      var remaining := sessions - {adminId};
      assert forall u :: u in remaining ==> u in sessions && remaining[u] == sessions[u];
      sessions := remaining;
    }

    /** take_quiz_command: a menu with one button per stored test; nothing changes. */
    method TakeQuizCommand(dbUp: bool) returns (reply: Reply)
      ensures !dbUp ==> reply == NoReply
      ensures dbUp && db.tests == [] ==> reply == NoTests
      ensures dbUp && db.tests != [] ==> reply == TestMenu(Menu(db.tests))
    {
      if !dbUp {
        return NoReply;
      }
      var names := db.tests;
      if names == [] {
        return NoTests;
      }
      reply := TestMenu(Menu(names));
    }

    /** start_quiz_selection: the test named in the callback is loaded; an unknown test or
        one without questions changes nothing. Otherwise the user gets a users row if they
        had none, and their slot becomes a fresh quiz over the shuffled questions, at
        question 0 with both counters at 0, and the first question is shown. */
    method StartQuizSelection(userId: int, data: string, dbUp: bool, username: Option<string>, fullName: Option<string>,
                              shuffleQuestions: seq<QuestionRecord> -> seq<QuestionRecord>,
                              shuffleOptions: seq<string> -> seq<string>)
      returns (reply: Reply)
      requires Valid() && Shuffles(shuffleQuestions) && Shuffles(shuffleOptions)
      modifies this, db
      ensures Valid()
      ensures db.tests == old(db.tests) && db.questions == old(db.questions) && db.results == old(db.results)
      ensures db.nextTestId == old(db.nextTestId)
      ensures !dbUp ==> sessions == old(sessions) && db.users == old(db.users) && reply == StorageUnavailable
      ensures dbUp && !StartsWith(data, "take_") ==> sessions == old(sessions) && db.users == old(db.users) && reply == NoReply
      ensures dbUp && StartsWith(data, "take_") ==>
        var name := TakeName(data);
        var t := FindTest(old(db.tests), name);
        (t.None? || QuestionsOf(old(db.questions), t.value.id) == [] ==>
          sessions == old(sessions) && db.users == old(db.users) && reply == TestNotFound(name))
        && (t.Some? && QuestionsOf(old(db.questions), t.value.id) != [] ==>
          userId in sessions
          && sessions == old(sessions)[userId := sessions[userId]]
          && sessions[userId].InQuiz?
          && sessions[userId] == InQuiz(name, t.value.id, sessions[userId].questions, 0, 0, 0)
          && multiset(sessions[userId].questions) == multiset(QuestionsOf(old(db.questions), t.value.id))
          && db.users == (if userId in old(db.users) then old(db.users)
                          else old(db.users)[userId := UserRow(username, fullName, 0)])
          && Shows(reply, sessions[userId], shuffleOptions))
    {
      if !dbUp {
        return StorageUnavailable;
      }
      if !StartsWith(data, "take_") {
        return NoReply;
      }
      var name := TakeName(data);
      var qs, id := db.GetTestQuestions(name);
      if qs.None? || qs.value == [] {
        return TestNotFound(name);
      }
      reply := BeginQuiz(userId, name, id.value, qs.value, username, fullName, shuffleQuestions, shuffleOptions);
    }

    /** The start of a quiz over a test's stored questions: the user gets a users row if
        they had none, their slot becomes a fresh quiz over the shuffled questions, at
        question 0 with both counters at 0, and the first question is shown. */
    method BeginQuiz(userId: int, name: string, id: int, qs: seq<QuestionRecord>,
                     username: Option<string>, fullName: Option<string>,
                     shuffleQuestions: seq<QuestionRecord> -> seq<QuestionRecord>,
                     shuffleOptions: seq<string> -> seq<string>)
      returns (reply: Reply)
      requires Valid() && Shuffles(shuffleQuestions) && Shuffles(shuffleOptions) && qs != []
      modifies this, db
      ensures Valid()
      ensures db.tests == old(db.tests) && db.questions == old(db.questions) && db.results == old(db.results)
      ensures db.nextTestId == old(db.nextTestId)
      ensures userId in sessions
      ensures sessions == old(sessions)[userId := sessions[userId]]
      ensures sessions[userId].InQuiz? && sessions[userId] == InQuiz(name, id, sessions[userId].questions, 0, 0, 0)
      ensures multiset(sessions[userId].questions) == multiset(qs)
      ensures db.users == (if userId in old(db.users) then old(db.users)
                           else old(db.users)[userId := UserRow(username, fullName, 0)])
      ensures Shows(reply, sessions[userId], shuffleOptions)
    {
      var user := db.GetOrCreateUser(userId, username, fullName);
      assert db.Valid() && db.Ledger();
      var questions := shuffleQuestions(qs);
      assert |questions| == |qs| by {
        assert |multiset(questions)| == |multiset(qs)|;
      }
      var started := InQuiz(name, id, questions, 0, 0, 0);
      assert SessionOk(userId, started, adminId);
      sessions := sessions[userId := started];
      reply := ShowCurrent(userId, shuffleOptions);
    }

    /** present_question for the user's quiz at its current index. */
    method ShowCurrent(userId: int, shuffleOptions: seq<string> -> seq<string>) returns (reply: Reply)
      requires Valid() && Shuffles(shuffleOptions)
      requires userId in sessions && sessions[userId].InQuiz?
      ensures Shows(reply, sessions[userId], shuffleOptions)
    {
      var s := sessions[userId];
      var q := PyIndex(s.questions, s.currentIndex);
      var pool := shuffleOptions(Pool(q));
      var buttons := PresentQuestion(q, s.currentIndex, pool);
      reply := ShowQuestion(s.currentIndex, s.testName, q.question, buttons);
    }

    /** show_leaderboard's data: the two boards, read without changing anything. */
    method ShowLeaderboard(dbUp: bool, month: string) returns (reply: Reply)
      ensures !dbUp ==> reply == StorageUnavailable
      ensures dbUp ==>
        reply.Leaderboards? && IsGlobalBoard(db.users, reply.global)
        && IsMonthlyBoard(db.users, db.results, month, reply.monthly)
    {
      if !dbUp {
        return StorageUnavailable;
      }
      var global, monthly := db.GetLeaderboards(month);
      reply := Leaderboards(global, monthly);
    }

    /** What an answer step leaves behind: after an exception the slot is gone and nothing
        is saved; a quiz that goes on has its slot replaced and shows the next question; a
        finished quiz has its slot deleted and, with a database session, its result saved
        with the correct count as the score and all answers as the total. */
    twostate predicate StepApplied(userId: int, step: AnswerStep, dbUp: bool, month: string,
                                   shuffleOptions: seq<string> -> seq<string>, reply: Reply)
      reads this, db
    {
      db.tests == old(db.tests) && db.questions == old(db.questions) && db.nextTestId == old(db.nextTestId)
      &&
      (step.Fail? ==>
        sessions == old(sessions) - {userId} && reply == QuizError
        && db.users == old(db.users) && db.results == old(db.results))
      && (step.Continue? ==>
        step.session.InQuiz? && sessions == old(sessions)[userId := step.session]
        && Shows(reply, step.session, shuffleOptions)
        && db.users == old(db.users) && db.results == old(db.results))
      && (step.Finish? ==>
        var t := step.session;
        t.InQuiz?
        && sessions == old(sessions) - {userId}
        && (dbUp ==>
              reply == QuizFinished(t.testName, t.correctAnswers, t.incorrectAnswers, t.correctAnswers + t.incorrectAnswers)
              && db.results == old(db.results)
                + [ResultRow(userId, t.testId, t.correctAnswers, t.correctAnswers + t.incorrectAnswers, month)]
              && userId in old(db.users)
              && db.users == old(db.users)[userId := old(db.users)[userId].(
                   totalCorrectGlobal := old(db.users)[userId].totalCorrectGlobal + t.correctAnswers)])
        && (!dbUp ==> reply == QuizError && db.users == old(db.users) && db.results == old(db.results)))
    }

    /** handle_quiz_callback for an answer button ("ans_next_…") of a user in a quiz: the
        answer is counted; the quiz then shows the question the callback names or, past the
        last question, finishes. Finishing saves the result, with the correct count as the
        score and all answers as the total, reports the same numbers and deletes the slot;
        without a database session the save raises and the slot is deleted with nothing
        saved. A malformed callback, or an index Python cannot read, deletes the slot. Any
        other callback of a user not in a quiz changes nothing. */
    method AnswerCallbackQuery(userId: int, data: string, dbUp: bool, month: string,
                               shuffleOptions: seq<string> -> seq<string>)
      returns (reply: Reply)
      requires Valid() && Shuffles(shuffleOptions)
      requires !StartsWith(data, "take_") && data != "show_leaderboard"
      modifies this, db
      ensures Valid()
      ensures db.tests == old(db.tests) && db.questions == old(db.questions) && db.nextTestId == old(db.nextTestId)
      ensures !(Slot(old(sessions), userId).Some? && old(sessions)[userId].InQuiz? && StartsWith(data, "ans_next_")) ==>
        sessions == old(sessions) && db.users == old(db.users) && db.results == old(db.results) && reply == NoReply
      ensures Slot(old(sessions), userId).Some? && old(sessions)[userId].InQuiz? && StartsWith(data, "ans_next_") ==>
        StepApplied(userId, Outcome(old(sessions)[userId], data), dbUp, month, shuffleOptions, reply)
    {
      var slot := Slot(sessions, userId);
      if !(slot.Some? && slot.value.InQuiz? && StartsWith(data, "ans_next_")) {
        return NoReply;
      }
      assert slot.value == old(sessions)[userId];
      var step := Outcome(slot.value, data);
      AnswerKeepsSessionOk(userId, slot.value, data, adminId);
      reply := ApplyStep(userId, step, dbUp, month, shuffleOptions);
    }

    /** The three ways an answer ends for the user's slot: deleted after an exception,
        moved on to the next question, or finished. */
    method ApplyStep(userId: int, step: AnswerStep, dbUp: bool, month: string,
                     shuffleOptions: seq<string> -> seq<string>)
      returns (reply: Reply)
      requires Valid() && Shuffles(shuffleOptions)
      requires userId in sessions && sessions[userId].InQuiz?
      requires !step.Fail? ==> step.session.InQuiz?
      requires step.Continue? ==> SessionOk(userId, step.session, adminId)
      modifies this, db
      ensures Valid()
      ensures StepApplied(userId, step, dbUp, month, shuffleOptions, reply)
    {
      match step {
        case Fail =>
          var remaining := sessions - {userId};
          assert forall u :: u in remaining ==> u in sessions && remaining[u] == sessions[u];
          sessions := remaining;
          reply := QuizError;
        case Continue(t) =>
          var updated := sessions[userId := t];
          assert forall u :: u in updated ==> u in sessions && (u == userId || updated[u] == sessions[u]);
          sessions := updated;
          reply := ShowCurrent(userId, shuffleOptions);
        case Finish(t) =>
          reply := FinalizeQuiz(userId, t, dbUp, month);
      }
    }

    /** finalize_quiz: the score is the number of correct answers and the total the number
        of answers; the result is saved and reported, and the slot is deleted. Without a
        database session the save raises, nothing is saved, and the error handler deletes
        the slot. */
    method FinalizeQuiz(userId: int, t: Session, dbUp: bool, month: string) returns (reply: Reply)
      requires Valid() && t.InQuiz?
      requires userId in sessions && sessions[userId].InQuiz?
      modifies this, db
      ensures Valid()
      ensures sessions == old(sessions) - {userId}
      ensures db.tests == old(db.tests) && db.questions == old(db.questions) && db.nextTestId == old(db.nextTestId)
      ensures userId in old(db.users)
      ensures dbUp ==>
        reply == QuizFinished(t.testName, t.correctAnswers, t.incorrectAnswers, t.correctAnswers + t.incorrectAnswers)
        && db.results == old(db.results) + [ResultRow(userId, t.testId, t.correctAnswers, t.correctAnswers + t.incorrectAnswers, month)]
        && db.users == old(db.users)[userId := old(db.users)[userId].(
             totalCorrectGlobal := old(db.users)[userId].totalCorrectGlobal + t.correctAnswers)]
      ensures !dbUp ==> reply == QuizError && db.users == old(db.users) && db.results == old(db.results)
    {
      if !dbUp {
        sessions := sessions - {userId};
        return QuizError;
      }
      var total := t.correctAnswers + t.incorrectAnswers;
      db.SaveQuizResult(userId, t.testId, t.correctAnswers, total, month);
      reply := QuizFinished(t.testName, t.correctAnswers, t.incorrectAnswers, total);
      sessions := sessions - {userId};
    }
  }
}
