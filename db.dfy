/**
  The storage layer of the quiz bot (db_manager.py) over in-memory tables: users keyed
  by their Telegram id, tests, stored questions and quiz results. Each method is one
  function of db_manager.py with its commits; the SQL queries become loops over the
  tables. The month key ("%Y-%m" of the current UTC time) and the shuffles are
  parameters.
 */
module Storage {
  import opened Text
  import opened QuizParser
  import opened OptionCodec
  import opened Ranking

  /** A row of the users table: username and full_name may be NULL. */
  datatype UserRow = UserRow(username: Option<string>, fullName: Option<string>, totalCorrectGlobal: int)

  /** A row of the tests table. */
  datatype TestRow = TestRow(id: int, name: string)

  /** A row of the quiz_results table (date_taken is never written, so it is left out). */
  datatype ResultRow = ResultRow(userId: int, testId: int, score: int, totalQuestions: int, monthYear: string)

  /** What save_test_to_db ends in: the new test's id, or the IntegrityError the unique
      test name raises at flush, after which nothing of the test is kept. */
  datatype SaveOutcome = Saved(testId: int) | DuplicateName

  /** A row of the global leaderboard: (User.id, User.total_correct_global). */
  datatype GlobalEntry = GlobalEntry(userId: int, total: int)

  /** A row of the monthly leaderboard: {'id', 'username', 'score'}. */
  datatype MonthlyEntry = MonthlyEntry(userId: int, username: string, score: int)

  /** How many rows the global leaderboard shows (.limit(10)). */
  const GlobalLimit := 10

  function GlobalTotal(e: GlobalEntry): int { e.total }
  function GlobalId(e: GlobalEntry): int { e.userId }
  function MonthlyScoreOf(e: MonthlyEntry): int { e.score }
  function MonthlyId(e: MonthlyEntry): int { e.userId }

  function Min(a: int, b: int): int {
    if a < b then a else b
  }

  // ---- the tables, read declaratively ----

  /** The sum of the scores of u's results. */
  function TotalScore(results: seq<ResultRow>, u: int): int {
    if results == [] then 0
    else
      var r := results[|results| - 1];
      TotalScore(results[..|results| - 1], u) + (if r.userId == u then r.score else 0)
  }

  /** The sum of the scores of u's results in the given month (func.sum grouped by user). */
  function MonthScore(results: seq<ResultRow>, month: string, u: int): int {
    if results == [] then 0
    else
      var r := results[|results| - 1];
      MonthScore(results[..|results| - 1], month, u) + (if r.userId == u && r.monthYear == month then r.score else 0)
  }

  /** u has a result in the given month: the group_by gives u a row. */
  predicate HasMonthRow(results: seq<ResultRow>, month: string, u: int) {
    exists i :: 0 <= i < |results| && results[i].userId == u && results[i].monthYear == month
  }

  /** user.username or f"ID:{user_id}": an empty or missing username falls back to the id. */
  function DisplayName(user: UserRow, u: int): (name: string)
    ensures name != []
  {
    if user.username.Some? && user.username.value != [] then user.username.value else "ID:" + IntToString(u)
  }

  /** The first test with that name (.filter(Test.name == name).first()). */
  function FindTest(tests: seq<TestRow>, name: string): (t: Option<TestRow>)
    ensures t.Some? ==> t.value in tests && t.value.name == name
    ensures t.None? ==> forall i :: 0 <= i < |tests| ==> tests[i].name != name
  {
    if tests == [] then None
    else if tests[0].name == name then Some(tests[0])
    else FindTest(tests[1..], name)
  }

  /** Every stored row has its correct label among its keys. */
  predicate AllLabelled(questions: seq<StoredQuestion>) {
    forall i :: 0 <= i < |questions| ==> HasLabel(questions[i].options, questions[i].correctLabel)
  }

  /** The decoded questions of a test, in table order: what get_test_questions_from_db
      returns as processed_qs. */
  function QuestionsOf(questions: seq<StoredQuestion>, testId: int): (qs: seq<QuestionRecord>)
    requires AllLabelled(questions)
    ensures |qs| <= |questions|
  {
    if questions == [] then []
    else
      var q := questions[|questions| - 1];
      QuestionsOf(questions[..|questions| - 1], testId) + (if q.testId == testId then [DecodeQuestion(q)] else [])
  }

  /** The rows save_test_to_db adds for the parsed questions: each one's options shuffled
      and encoded. */
  function EncodeAll(testId: int, parsed: seq<QuestionRecord>, shuffle: seq<string> -> seq<string>): (rows: seq<StoredQuestion>)
    requires Shuffles(shuffle)
    ensures |rows| == |parsed|
    ensures forall k :: 0 <= k < |rows| ==> rows[k].testId == testId && WellLabelled(rows[k])
  {
    if parsed == [] then []
    else
      var q := parsed[|parsed| - 1];
      EncodeAll(testId, parsed[..|parsed| - 1], shuffle) + [EncodeQuestion(q, testId, shuffle(Pool(q)))]
  }

  /** Encoding one more question appends its row. */
  lemma EncodeAllStep(testId: int, parsed: seq<QuestionRecord>, k: nat, shuffle: seq<string> -> seq<string>)
    requires Shuffles(shuffle) && k < |parsed|
    ensures EncodeAll(testId, parsed[..k + 1], shuffle) ==
      EncodeAll(testId, parsed[..k], shuffle) + [EncodeQuestion(parsed[k], testId, shuffle(Pool(parsed[k])))]
  {
    assert parsed[..k + 1][..k] == parsed[..k];
  }

  /** The loop of save_test_to_db: each parsed question, its pool shuffled, becomes one row. */
  method EncodeRows(testId: int, parsed: seq<QuestionRecord>, shuffle: seq<string> -> seq<string>)
    returns (rows: seq<StoredQuestion>)
    requires Shuffles(shuffle)
    ensures rows == EncodeAll(testId, parsed, shuffle)
  {
    rows := [];
    for k := 0 to |parsed|
      invariant rows == EncodeAll(testId, parsed[..k], shuffle)
    {
      var q := parsed[k];
      var order := shuffle(Pool(q));
      EncodeAllStep(testId, parsed, k, shuffle);
      rows := rows + [EncodeQuestion(q, testId, order)];
    }
    assert parsed[..|parsed|] == parsed;
  }

  predicate ListsUsers(users: map<int, UserRow>, g: seq<GlobalEntry>) {
    forall i :: 0 <= i < |g| ==> g[i].userId in users && g[i].total == users[g[i].userId].totalCorrectGlobal
  }

  /** u has a row on the ranking. */
  predicate Listed(g: seq<GlobalEntry>, u: int) {
    exists i :: 0 <= i < |g| && g[i].userId == u
  }

  /** What the global leaderboard query returns: the users with the highest totals, at most
      ten of them, highest first, each once, and nobody left off has a higher total than
      anybody listed. */
  predicate IsGlobalBoard(users: map<int, UserRow>, g: seq<GlobalEntry>) {
    |g| == Min(GlobalLimit, |users|)
    && ListsUsers(users, g)
    && DistinctBy(g, GlobalId)
    && SortedDesc(g, GlobalTotal)
    && forall u, i :: u in users && !Listed(g, u) && 0 <= i < |g| ==> users[u].totalCorrectGlobal <= g[i].total
  }

  /** u has an entry on the monthly board. */
  predicate OnBoard(m: seq<MonthlyEntry>, u: int) {
    exists i :: 0 <= i < |m| && m[i].userId == u
  }

  /** What the monthly leaderboard holds: one entry per known user with a result in the
      month, with the sum of those results and the user's display name, highest sum first;
      users without a users row are dropped, and nothing is cut off. */
  predicate IsMonthlyBoard(users: map<int, UserRow>, results: seq<ResultRow>, month: string, m: seq<MonthlyEntry>) {
    (forall i :: 0 <= i < |m| ==>
      m[i].userId in users && HasMonthRow(results, month, m[i].userId)
      && m[i].score == MonthScore(results, month, m[i].userId)
      && m[i].username == DisplayName(users[m[i].userId], m[i].userId))
    && (forall u :: u in users && HasMonthRow(results, month, u) ==> OnBoard(m, u))
    && DistinctBy(m, MonthlyId)
    && SortedDesc(m, MonthlyScoreOf)
  }

  /** The table constraints: test names are unique (unique=True), test ids increase and
      are below the next id, no question row belongs to a test id not yet handed out, and
      every stored question's labels are distinct with its correct label among them. */
  predicate TablesValid(tests: seq<TestRow>, questions: seq<StoredQuestion>, nextTestId: int) {
    (forall i, j :: 0 <= i < j < |tests| ==> tests[i].name != tests[j].name)
    && (forall i, j :: 0 <= i < j < |tests| ==> tests[i].id < tests[j].id)
    && (forall i :: 0 <= i < |tests| ==> tests[i].id < nextTestId)
    && (forall i :: 0 <= i < |questions| ==> questions[i].testId < nextTestId && WellLabelled(questions[i]))
  }

  /** A question read back matches the parsed one: same text, same correct answer, and the
      same distractors up to order. */
  predicate SameQuestion(read: QuestionRecord, parsed: QuestionRecord) {
    read.question == parsed.question && read.correctAnswer == parsed.correctAnswer
    && multiset(read.options) == multiset(parsed.options)
  }

  /** Every read-back question matches the parsed one at the same position. */
  predicate ReadsBackAs(read: seq<QuestionRecord>, parsed: seq<QuestionRecord>) {
    |read| == |parsed| && forall k :: 0 <= k < |parsed| ==> SameQuestion(read[k], parsed[k])
  }

  // ---- lemmas about the tables ----

  /** Adding a test under an unused name with the next id, and rows of that test with
      well-formed labels, keeps the table constraints. */
  lemma SaveKeepsTablesValid(tests: seq<TestRow>, questions: seq<StoredQuestion>, nextTestId: int,
                             name: string, rows: seq<StoredQuestion>)
    requires TablesValid(tests, questions, nextTestId)
    requires forall i :: 0 <= i < |tests| ==> tests[i].name != name
    requires forall k :: 0 <= k < |rows| ==> rows[k].testId == nextTestId && WellLabelled(rows[k])
    ensures TablesValid(tests + [TestRow(nextTestId, name)], questions + rows, nextTestId + 1)
  {
    var ts := tests + [TestRow(nextTestId, name)];
    assert forall i :: 0 <= i < |tests| ==> ts[i] == tests[i];
    var qs := questions + rows;
    assert forall i :: 0 <= i < |questions| ==> qs[i] == questions[i];
    assert forall i :: |questions| <= i < |qs| ==> qs[i] == rows[i - |questions|];
  }

  /** A user without results has a total of 0. */
  lemma {:induction false} TotalScoreWithoutRows(results: seq<ResultRow>, u: int)
    requires forall i :: 0 <= i < |results| ==> results[i].userId != u
    ensures TotalScore(results, u) == 0
  {
    if results != [] {
      TotalScoreWithoutRows(results[..|results| - 1], u);
    }
  }

  /** A user without a row in the month has no monthly score. */
  lemma {:induction false} MonthScoreWithoutRows(results: seq<ResultRow>, month: string, u: int)
    requires !HasMonthRow(results, month, u)
    ensures MonthScore(results, month, u) == 0
  {
    if results != [] {
      var n := |results| - 1;
      assert !HasMonthRow(results[..n], month, u) by {
        forall i | 0 <= i < n
          ensures !(results[..n][i].userId == u && results[..n][i].monthYear == month)
        {
          assert results[..n][i] == results[i];
        }
      }
      MonthScoreWithoutRows(results[..n], month, u);
    }
  }

  /** One more result row adds its score to its user's total and to that user's score in
      its month, and changes no other sum. */
  lemma ResultRowAdds(results: seq<ResultRow>, r: ResultRow, month: string, u: int)
    ensures TotalScore(results + [r], u) == TotalScore(results, u) + (if r.userId == u then r.score else 0)
    ensures MonthScore(results + [r], month, u) == MonthScore(results, month, u) + (if r.userId == u && r.monthYear == month then r.score else 0)
    ensures HasMonthRow(results + [r], month, u) <==> HasMonthRow(results, month, u) || (r.userId == u && r.monthYear == month)
  {
    var rs := results + [r];
    assert rs[..|rs| - 1] == results;
    if HasMonthRow(results, month, u) {
      var i :| 0 <= i < |results| && results[i].userId == u && results[i].monthYear == month;
      assert rs[i] == results[i];
    }
    if HasMonthRow(rs, month, u) && !(r.userId == u && r.monthYear == month) {
      var i :| 0 <= i < |rs| && rs[i].userId == u && rs[i].monthYear == month;
      assert results[i] == rs[i];
    }
  }

  /** A test saved under a new name with a new id is found again by its name, and reading
      its questions back gives the parsed questions, in order, each with the same question
      text and correct answer and the same distractors as a multiset. */
  lemma SavedTestReadsBack(tests: seq<TestRow>, questions: seq<StoredQuestion>, id: int, name: string,
                           parsed: seq<QuestionRecord>, shuffle: seq<string> -> seq<string>)
    requires Shuffles(shuffle)
    requires forall i :: 0 <= i < |tests| ==> tests[i].name != name
    requires AllLabelled(questions)
    requires forall i :: 0 <= i < |questions| ==> questions[i].testId != id
    ensures FindTest(tests + [TestRow(id, name)], name) == Some(TestRow(id, name))
    ensures AllLabelled(questions + EncodeAll(id, parsed, shuffle))
    ensures ReadsBackAs(QuestionsOf(questions + EncodeAll(id, parsed, shuffle), id), parsed)
  {
    FindTestAppend(tests, TestRow(id, name));
    var rows := EncodeAll(id, parsed, shuffle);
    EncodeAllReadsBack(id, parsed, shuffle);
    assert QuestionsOf(questions + rows, id) == QuestionsOf(rows, id) by {
      QuestionsOfOtherTests(questions, id);
      QuestionsOfAppend(questions, rows, id);
      assert [] + QuestionsOf(rows, id) == QuestionsOf(rows, id);
    }
  }

  /** Looking a name up in a table extended by a row with that name and no earlier match
      finds the new row. */
  lemma {:induction false} FindTestAppend(tests: seq<TestRow>, t: TestRow)
    requires forall i :: 0 <= i < |tests| ==> tests[i].name != t.name
    ensures FindTest(tests + [t], t.name) == Some(t)
  {
    if tests != [] {
      assert (tests + [t])[1..] == tests[1..] + [t];
      FindTestAppend(tests[1..], t);
    }
  }

  /** Rows of other tests contribute nothing. */
  lemma {:induction false} QuestionsOfOtherTests(questions: seq<StoredQuestion>, id: int)
    requires AllLabelled(questions)
    requires forall i :: 0 <= i < |questions| ==> questions[i].testId != id
    ensures QuestionsOf(questions, id) == []
  {
    if questions != [] {
      QuestionsOfOtherTests(questions[..|questions| - 1], id);
    }
  }

  /** Reading a test's questions from two tables laid end to end reads each in turn. */
  lemma {:induction false} QuestionsOfAppend(a: seq<StoredQuestion>, b: seq<StoredQuestion>, id: int)
    requires AllLabelled(a) && AllLabelled(b)
    ensures AllLabelled(a + b)
    ensures QuestionsOf(a + b, id) == QuestionsOf(a, id) + QuestionsOf(b, id)
  {
    if b == [] {
      assert a + b == a;
    } else {
      var n := |b| - 1;
      assert (a + b)[..|a + b| - 1] == a + b[..n];
      QuestionsOfAppend(a, b[..n], id);
    }
  }

  /** The name lookup moves past a row with another name. */
  lemma FindTestSkip(tests: seq<TestRow>, i: nat, name: string)
    requires i < |tests| && tests[i].name != name
    ensures FindTest(tests[i..], name) == FindTest(tests[i + 1..], name)
  {
    assert tests[i..][1..] == tests[i + 1..];
  }

  /** The name lookup stops at a row with that name. */
  lemma FindTestHit(tests: seq<TestRow>, i: nat, name: string)
    requires i < |tests| && tests[i].name == name
    ensures FindTest(tests[i..], name) == Some(tests[i])
  {
    assert tests[i..][0] == tests[i];
  }

  /** Reading one more row of the table in get_test_questions_from_db's loop. */
  lemma QuestionsOfPrefixStep(questions: seq<StoredQuestion>, k: nat, id: int)
    requires AllLabelled(questions) && k < |questions|
    ensures AllLabelled(questions[..k]) && AllLabelled(questions[..k + 1])
    ensures QuestionsOf(questions[..k + 1], id) ==
      QuestionsOf(questions[..k], id) + (if questions[k].testId == id then [DecodeQuestion(questions[k])] else [])
  {
    assert questions[..k + 1][..k] == questions[..k];
  }

  /** The rows of one test read back as its parsed questions. */
  lemma {:induction false} EncodeAllReadsBack(id: int, parsed: seq<QuestionRecord>, shuffle: seq<string> -> seq<string>)
    requires Shuffles(shuffle)
    ensures AllLabelled(EncodeAll(id, parsed, shuffle))
    ensures ReadsBackAs(QuestionsOf(EncodeAll(id, parsed, shuffle), id), parsed)
  {
    var rows := EncodeAll(id, parsed, shuffle);
    if parsed != [] {
      var n := |parsed| - 1;
      EncodeAllReadsBack(id, parsed[..n], shuffle);
      assert rows[..n] == EncodeAll(id, parsed[..n], shuffle);
      EncodedRowReadsBack(parsed[n], id, shuffle);
      ReadsBackSnoc(rows, parsed, id);
    }
  }

  /** One question, encoded under the test id, reads back as itself. */
  lemma EncodedRowReadsBack(p: QuestionRecord, id: int, shuffle: seq<string> -> seq<string>)
    requires Shuffles(shuffle)
    ensures var r := EncodeQuestion(p, id, shuffle(Pool(p)));
      r.testId == id && HasLabel(r.options, r.correctLabel) && SameQuestion(DecodeQuestion(r), p)
  {
    RoundTrip(p, id, shuffle(Pool(p)));
  }

  /** A last row of the test that reads back as the last parsed question extends a
      matching read-back by one. */
  lemma ReadsBackSnoc(rows: seq<StoredQuestion>, parsed: seq<QuestionRecord>, id: int)
    requires AllLabelled(rows) && |rows| == |parsed| > 0
    requires ReadsBackAs(QuestionsOf(rows[..|rows| - 1], id), parsed[..|parsed| - 1])
    requires rows[|rows| - 1].testId == id && SameQuestion(DecodeQuestion(rows[|rows| - 1]), parsed[|parsed| - 1])
    ensures ReadsBackAs(QuestionsOf(rows, id), parsed)
  {
    var n := |parsed| - 1;
    var read := QuestionsOf(rows, id);
    assert read == QuestionsOf(rows[..n], id) + [DecodeQuestion(rows[n])];
    forall k | 0 <= k < |parsed|
      ensures SameQuestion(read[k], parsed[k])
    {
      if k < n {
        assert read[k] == QuestionsOf(rows[..n], id)[k];
        assert parsed[k] == parsed[..n][k];
      }
    }
  }

  // ---- building the leaderboards ----

  /** Midway through the global ranking: the users not in rest are all ranked, once each,
      with their totals, highest first. */
  ghost predicate GlobalProgress(users: map<int, UserRow>, rest: set<int>, all: seq<GlobalEntry>) {
    rest <= users.Keys
    && |all| + |rest| == |users.Keys|
    && ListsUsers(users, all)
    && DistinctBy(all, GlobalId)
    && SortedDesc(all, GlobalTotal)
    && (forall i :: 0 <= i < |all| ==> all[i].userId !in rest)
    && (forall u :: u in users && u !in rest ==> Listed(all, u))
  }

  /** Ranking one more user keeps the ranking complete for the users handled so far. */
  lemma GlobalStep(users: map<int, UserRow>, rest: set<int>, all: seq<GlobalEntry>, u: int)
    requires GlobalProgress(users, rest, all) && u in rest
    ensures GlobalProgress(users, rest - {u}, InsertDesc(all, GlobalEntry(u, users[u].totalCorrectGlobal), GlobalTotal))
  {
    var e := GlobalEntry(u, users[u].totalCorrectGlobal);
    InsertElements(all, e, GlobalTotal);
    InsertKeepsSorted(all, e, GlobalTotal);
    InsertKeepsDistinct(all, e, GlobalTotal, GlobalId);
    var all' := InsertDesc(all, e, GlobalTotal);
    GlobalStepCovers(all, e, users.Keys - rest);
    assert users.Keys - (rest - {u}) == (users.Keys - rest) + {u};
    forall i | 0 <= i < |all'|
      ensures all'[i].userId in users && all'[i].total == users[all'[i].userId].totalCorrectGlobal
      ensures all'[i].userId !in rest - {u}
    {
      assert all'[i] in all';
      if all'[i] != e {
        var j :| 0 <= j < |all| && all[j] == all'[i];
      }
    }
  }

  /** After inserting e, every user the ranking listed, and e's user, is listed. */
  lemma GlobalStepCovers(all: seq<GlobalEntry>, e: GlobalEntry, covered: set<int>)
    requires forall v :: v in covered ==> Listed(all, v)
    ensures forall v :: v in covered || v == e.userId ==> Listed(InsertDesc(all, e, GlobalTotal), v)
  {
    var all' := InsertDesc(all, e, GlobalTotal);
    InsertElements(all, e, GlobalTotal);
    forall v | v in covered || v == e.userId
      ensures Listed(all', v)
    {
      var x: GlobalEntry :| x in all' && x.userId == v by {
        if v == e.userId {
          assert e in all';
        } else {
          assert Listed(all, v);
          var i :| 0 <= i < |all| && all[i].userId == v;
          assert all[i] in all';
        }
      }
      var j :| 0 <= j < |all'| && all'[j] == x;
    }
  }

  /** .limit(10) on a complete ranking keeps the ten best. */
  function TopTen(users: map<int, UserRow>, all: seq<GlobalEntry>): (g: seq<GlobalEntry>)
    requires GlobalProgress(users, {}, all)
    ensures IsGlobalBoard(users, g)
  {
    var n := Min(GlobalLimit, |all|);
    var g := all[..n];
    assert forall u, i :: u in users && !Listed(g, u) && 0 <= i < |g| ==> users[u].totalCorrectGlobal <= g[i].total by {
      forall u, i | u in users && !Listed(g, u) && 0 <= i < |g|
        ensures users[u].totalCorrectGlobal <= g[i].total
      {
        assert Listed(all, u);
        var j :| 0 <= j < |all| && all[j].userId == u;
        assert forall k :: 0 <= k < n ==> all[k].userId != u by {
          forall k | 0 <= k < n
            ensures all[k].userId != u
          {
            assert g[k] == all[k];
          }
        }
        assert i < j;
      }
    }
    g
  }

  /** An entry of the monthly board for user u, as the loop makes it. */
  predicate MonthlyEntryOk(users: map<int, UserRow>, results: seq<ResultRow>, month: string, e: MonthlyEntry) {
    e.userId in users && HasMonthRow(results, month, e.userId)
    && e.score == MonthScore(results, month, e.userId)
    && e.username == DisplayName(users[e.userId], e.userId)
  }

  /** Midway through the monthly board: every summed user not in rest that has a users row
      has one entry, with the right sum and name, highest sum first. */
  ghost predicate MonthlyProgress(users: map<int, UserRow>, results: seq<ResultRow>, month: string,
                            sums: map<int, int>, rest: set<int>, m: seq<MonthlyEntry>) {
    (forall u :: u in sums <==> HasMonthRow(results, month, u))
    && (forall u :: u in sums ==> sums[u] == MonthScore(results, month, u))
    && rest <= sums.Keys
    && (forall i :: 0 <= i < |m| ==> MonthlyEntryOk(users, results, month, m[i]) && m[i].userId !in rest)
    && (forall u :: u in users && u in sums && u !in rest ==> OnBoard(m, u))
    && DistinctBy(m, MonthlyId)
    && SortedDesc(m, MonthlyScoreOf)
  }

  /** Adding the entry of one more summed user with a users row keeps the board right for
      the users handled so far. */
  lemma MonthlyStep(users: map<int, UserRow>, results: seq<ResultRow>, month: string,
                    sums: map<int, int>, rest: set<int>, m: seq<MonthlyEntry>, u: int)
    requires MonthlyProgress(users, results, month, sums, rest, m) && u in rest && u in users
    ensures MonthlyProgress(users, results, month, sums, rest - {u},
      InsertDesc(m, MonthlyEntry(u, DisplayName(users[u], u), sums[u]), MonthlyScoreOf))
  {
    var e := MonthlyEntry(u, DisplayName(users[u], u), sums[u]);
    InsertElements(m, e, MonthlyScoreOf);
    InsertKeepsSorted(m, e, MonthlyScoreOf);
    InsertKeepsDistinct(m, e, MonthlyScoreOf, MonthlyId);
    MonthlyStepCovers(m, e, (users.Keys * sums.Keys) - rest);
    MonthlyStepEntries(users, results, month, rest, m, e);
  }

  /** Inserting a well-formed entry for a user still to be handled keeps every entry
      well-formed and handled. */
  lemma MonthlyStepEntries(users: map<int, UserRow>, results: seq<ResultRow>, month: string,
                           rest: set<int>, m: seq<MonthlyEntry>, e: MonthlyEntry)
    requires forall i :: 0 <= i < |m| ==> MonthlyEntryOk(users, results, month, m[i]) && m[i].userId !in rest
    requires MonthlyEntryOk(users, results, month, e)
    ensures var m' := InsertDesc(m, e, MonthlyScoreOf);
      forall i :: 0 <= i < |m'| ==> MonthlyEntryOk(users, results, month, m'[i]) && m'[i].userId !in rest - {e.userId}
  {
    var m' := InsertDesc(m, e, MonthlyScoreOf);
    InsertElements(m, e, MonthlyScoreOf);
    forall i | 0 <= i < |m'|
      ensures MonthlyEntryOk(users, results, month, m'[i]) && m'[i].userId !in rest - {e.userId}
    {
      assert m'[i] in m';
      if m'[i] != e {
        var j :| 0 <= j < |m| && m[j] == m'[i];
      }
    }
  }

  /** After inserting e, every user the board covered, and e's user, is covered. */
  lemma MonthlyStepCovers(m: seq<MonthlyEntry>, e: MonthlyEntry, covered: set<int>)
    requires forall v :: v in covered ==> OnBoard(m, v)
    ensures forall v :: v in covered || v == e.userId ==> OnBoard(InsertDesc(m, e, MonthlyScoreOf), v)
  {
    var m' := InsertDesc(m, e, MonthlyScoreOf);
    InsertElements(m, e, MonthlyScoreOf);
    forall v | v in covered || v == e.userId
      ensures OnBoard(m', v)
    {
      var x: MonthlyEntry :| x in m' && x.userId == v by {
        if v == e.userId {
          assert e in m';
        } else {
          assert OnBoard(m, v);
          var i :| 0 <= i < |m| && m[i].userId == v;
          assert m[i] in m';
        }
      }
      var j :| 0 <= j < |m'| && m'[j] == x;
    }
  }

  /** Once every summed user is handled, the board is the monthly leaderboard. */
  lemma MonthlyDone(users: map<int, UserRow>, results: seq<ResultRow>, month: string,
                    sums: map<int, int>, m: seq<MonthlyEntry>)
    requires MonthlyProgress(users, results, month, sums, {}, m)
    ensures IsMonthlyBoard(users, results, month, m)
  {
    forall i | 0 <= i < |m|
      ensures m[i].userId in users && HasMonthRow(results, month, m[i].userId)
      ensures m[i].score == MonthScore(results, month, m[i].userId)
      ensures m[i].username == DisplayName(users[m[i].userId], m[i].userId)
    {
      assert MonthlyEntryOk(users, results, month, m[i]);
    }
  }

  /** Some element of a non-empty set: the row a query happens to return first. */
  lemma SomeElement<W>(s: set<W>) returns (x: W)
    requires s != {}
    ensures x in s
  {
    x :| x in s;
  }

  // ---- the database ----

  class Database {
    var users: map<int, UserRow>
    var tests: seq<TestRow>
    var questions: seq<StoredQuestion>
    var results: seq<ResultRow>
    /** The id the next test gets (the autoincrement of tests.id). */
    var nextTestId: int

    /** The table constraints hold (TablesValid). */
    ghost predicate Valid()
      reads this
    {
      TablesValid(tests, questions, nextTestId)
    }

    /** Every result belongs to a known user, and every user's global total is the sum of
        their results: what the bot keeps, since a user is created before any result of
        theirs is saved. */
    ghost predicate Ledger()
      reads this
    {
      (forall i :: 0 <= i < |results| ==> results[i].userId in users)
      && forall u :: u in users ==> users[u].totalCorrectGlobal == TotalScore(results, u)
    }

    /** The empty database init_db creates. */
    constructor ()
      ensures Valid() && Ledger()
      ensures users == map[] && tests == [] && questions == [] && results == []
    {
      users := map[];
      tests := [];
      questions := [];
      results := [];
      nextTestId := 1;
    }

    /** get_or_create_user: an existing user is returned as is and nothing changes;
        otherwise exactly one user is added, with a total of 0. */
    method GetOrCreateUser(id: int, username: Option<string>, fullName: Option<string>) returns (user: UserRow)
      modifies this
      ensures id in old(users) ==> users == old(users) && user == old(users)[id]
      ensures id !in old(users) ==> users == old(users)[id := UserRow(username, fullName, 0)]
      ensures id in users && user == users[id]
      ensures tests == old(tests) && questions == old(questions) && results == old(results)
      ensures nextTestId == old(nextTestId)
      ensures old(Ledger()) ==> Ledger()
    {
      if id in users {
        user := users[id];
      } else {
        user := UserRow(username, fullName, 0);
        if Ledger() {
          TotalScoreWithoutRows(results, id);
        }
        users := users[id := user];
      }
    }

    /** update_global_score: an existing user's total grows by exactly correctCount; an
        unknown user id changes nothing. */
    method UpdateGlobalScore(userId: int, correctCount: int)
      modifies this
      ensures userId in old(users) ==>
        users == old(users)[userId := old(users)[userId].(totalCorrectGlobal := old(users)[userId].totalCorrectGlobal + correctCount)]
      ensures userId !in old(users) ==> users == old(users)
      ensures tests == old(tests) && questions == old(questions) && results == old(results)
      ensures nextTestId == old(nextTestId)
    {
      if userId in users {
        var user := users[userId];
        users := users[userId := user.(totalCorrectGlobal := user.totalCorrectGlobal + correctCount)];
      }
    }

    /** save_quiz_result: exactly one result row is appended, with the month key of the
        current time, and the user's global total grows by the score. When the user is
        known, every total stays the sum of that user's results. */
    method SaveQuizResult(userId: int, testId: int, score: int, totalQuestions: int, monthKey: string)
      modifies this
      ensures results == old(results) + [ResultRow(userId, testId, score, totalQuestions, monthKey)]
      ensures userId in old(users) ==>
        users == old(users)[userId := old(users)[userId].(totalCorrectGlobal := old(users)[userId].totalCorrectGlobal + score)]
      ensures userId !in old(users) ==> users == old(users)
      ensures tests == old(tests) && questions == old(questions) && nextTestId == old(nextTestId)
      ensures old(Ledger()) && userId in old(users) ==> Ledger()
    {
      ghost var wasLedger := Ledger();
      var row := ResultRow(userId, testId, score, totalQuestions, monthKey);
      results := results + [row];
      UpdateGlobalScore(userId, score);
      if wasLedger && userId in old(users) {
        forall u | u in users
          ensures users[u].totalCorrectGlobal == TotalScore(results, u)
        {
          ResultRowAdds(old(results), row, monthKey, u);
        }
      }
    }

    /** save_test_to_db: a name already in use raises IntegrityError and nothing is kept;
        otherwise one test row with a new id is added, and for each parsed question, in
        order, one row holding its shuffled and labelled options. */
    method SaveTest(name: string, parsed: seq<QuestionRecord>, shuffle: seq<string> -> seq<string>) returns (outcome: SaveOutcome)
      requires Valid()
      requires Shuffles(shuffle)
      modifies this
      ensures Valid()
      ensures FindTest(old(tests), name).Some? ==>
        outcome == DuplicateName && tests == old(tests) && questions == old(questions) && nextTestId == old(nextTestId)
      ensures FindTest(old(tests), name).None? ==>
        outcome == Saved(old(nextTestId))
        && tests == old(tests) + [TestRow(old(nextTestId), name)]
        && questions == old(questions) + EncodeAll(old(nextTestId), parsed, shuffle)
        && nextTestId == old(nextTestId) + 1
      ensures users == old(users) && results == old(results)
    {
      if FindTest(tests, name).Some? {
        return DuplicateName;
      }
      var id := nextTestId;
      var rows := EncodeRows(id, parsed, shuffle);
      SaveKeepsTablesValid(tests, questions, id, name, rows);
      tests := tests + [TestRow(id, name)];
      questions := questions + rows;
      nextTestId := id + 1;
      outcome := Saved(id);
    }

    /** get_test_questions_from_db: (None, None) for a name no test has; otherwise the
        test's id and its questions decoded, in table order. */
    method GetTestQuestions(name: string) returns (qs: Option<seq<QuestionRecord>>, testId: Option<int>)
      requires Valid()
      ensures FindTest(tests, name).None? ==> qs.None? && testId.None?
      ensures FindTest(tests, name).Some? ==>
        AllLabelled(questions)
        && testId == Some(FindTest(tests, name).value.id)
        && qs == Some(QuestionsOf(questions, FindTest(tests, name).value.id))
    {
      var i := 0;
      while i < |tests| && tests[i].name != name
        invariant 0 <= i <= |tests|
        invariant FindTest(tests[i..], name) == FindTest(tests, name)
      {
        FindTestSkip(tests, i, name);
        i := i + 1;
      }
      if i == |tests| {
        assert tests[i..] == [];
        return None, None;
      }
      FindTestHit(tests, i, name);
      var id := tests[i].id;
      var processed: seq<QuestionRecord> := [];
      assert AllLabelled(questions);
      for k := 0 to |questions|
        invariant AllLabelled(questions[..k])
        invariant processed == QuestionsOf(questions[..k], id)
      {
        var q := questions[k];
        QuestionsOfPrefixStep(questions, k, id);
        if q.testId == id {
          processed := processed + [DecodeQuestion(q)];
        }
      }
      assert questions[..|questions|] == questions;
      return Some(processed), Some(id);
    }

    /** get_leaderboards: the global board (top ten totals) and the monthly board for the
        given month key. */
    method GetLeaderboards(month: string) returns (global: seq<GlobalEntry>, monthly: seq<MonthlyEntry>)
      ensures IsGlobalBoard(users, global)
      ensures IsMonthlyBoard(users, results, month, monthly)
      ensures Ledger() ==> forall i :: 0 <= i < |global| ==> global[i].total == TotalScore(results, global[i].userId)
    {
      global := GlobalBoard();
      monthly := MonthlyBoard(month);
    }

    /** User.id and User.total_correct_global, ordered by total descending, limit 10. */
    method GlobalBoard() returns (global: seq<GlobalEntry>)
      ensures IsGlobalBoard(users, global)
    {
      var all: seq<GlobalEntry> := [];
      var rest := users.Keys;
      while rest != {}
        invariant GlobalProgress(users, rest, all)
        decreases |rest|
      {
        ghost var someone := SomeElement(rest);
        var u :| u in rest;
        GlobalStep(users, rest, all, u);
        all := InsertDesc(all, GlobalEntry(u, users[u].totalCorrectGlobal), GlobalTotal);
        rest := rest - {u};
      }
      global := TopTen(users, all);
    }

    /** The monthly leaderboard: the scores of the month summed per user, then one entry per
        summed user that has a users row, sorted by score, highest first. */
    method MonthlyBoard(month: string) returns (monthly: seq<MonthlyEntry>)
      ensures IsMonthlyBoard(users, results, month, monthly)
    {
      var sums := MonthSums(month);
      var rest := sums.Keys;
      monthly := [];
      while rest != {}
        invariant MonthlyProgress(users, results, month, sums, rest, monthly)
        decreases |rest|
      {
        ghost var someone := SomeElement(rest);
        var u :| u in rest;
        if u in users {
          MonthlyStep(users, results, month, sums, rest, monthly, u);
          monthly := InsertDesc(monthly, MonthlyEntry(u, DisplayName(users[u], u), sums[u]), MonthlyScoreOf);
        }
        rest := rest - {u};
      }
      MonthlyDone(users, results, month, sums, monthly);
    }

    /** The grouped query: for each user with a result in the month, the sum of the
        month's scores. */
    method MonthSums(month: string) returns (sums: map<int, int>)
      ensures forall u :: u in sums <==> HasMonthRow(results, month, u)
      ensures forall u :: u in sums ==> sums[u] == MonthScore(results, month, u)
    {
      sums := map[];
      for k := 0 to |results|
        invariant forall u :: u in sums <==> HasMonthRow(results[..k], month, u)
        invariant forall u :: u in sums ==> sums[u] == MonthScore(results[..k], month, u)
      {
        var r := results[k];
        assert results[..k + 1] == results[..k] + [r];
        forall u {
          ResultRowAdds(results[..k], r, month, u);
        }
        if r.monthYear == month {
          if r.userId in sums {
            sums := sums[r.userId := sums[r.userId] + r.score];
          } else {
            MonthScoreWithoutRows(results[..k], month, r.userId);
            sums := sums[r.userId := r.score];
          }
        }
      }
      assert results[..|results|] == results;
    }
  }
}
