/**
  The quiz-text parser (parse_text_to_quiz). The text is cut into lines; a line
  "<digits>." starts a question, a line starting with '*' gives its correct answer and
  any other line after that is a distractor.

  ParseTextToQuiz is the source's loop, with its mutable "current question". Parse is
  an independent, declarative account of the same result: the lines are grouped into
  blocks (one per question-start line), each block is read on its own (its answer is
  its LAST '*' line, its distractors are the plain lines after its FIRST '*' line),
  and a commit rule says which blocks become records. The loop is proved to compute
  Parse, and the lemmas below state what Parse returns.
 */
module QuizParser {
  import opened Text

  /** One parsed question: {question, options, correct_answer}; options are distractors. */
  datatype QuestionRecord = QuestionRecord(question: string, options: seq<string>, correctAnswer: string)

  /** The loop's current_question_data: correctAnswer stays None until a '*' line. */
  datatype Draft = Draft(question: string, options: seq<string>, correctAnswer: Option<string>)

  // ---- lines ----

  /** A non-blank line that line.strip() leaves as it is. */
  predicate IsStrippedLine(line: string) {
    line != [] && !IsSpace(line[0]) && !IsSpace(line[|line| - 1])
  }

  /** The stripped, non-blank entries of raw, in order. */
  function NonBlank(raw: seq<string>): (lines: seq<string>)
    ensures |lines| <= |raw|
    ensures forall k :: 0 <= k < |lines| ==> IsStrippedLine(lines[k])
  {
    if raw == [] then []
    else
      var s := Strip(raw[0]);
      var rest := NonBlank(raw[1..]);
      if s == [] then rest
      else
        StrippedLine(raw[0]);
        ConsStrippedLines(s, rest);
        [s] + rest
  }

  /** A stripped line in front of stripped lines gives stripped lines. */
  lemma ConsStrippedLines(s: string, rest: seq<string>)
    requires IsStrippedLine(s)
    requires forall k :: 0 <= k < |rest| ==> IsStrippedLine(rest[k])
    ensures forall k :: 0 <= k < |[s] + rest| ==> IsStrippedLine(([s] + rest)[k])
  {
    forall k | 0 <= k < |[s] + rest|
      ensures IsStrippedLine(([s] + rest)[k])
    {
      if k > 0 {
        assert ([s] + rest)[k] == rest[k - 1];
      }
    }
  }

  /** A non-blank line, stripped, is a stripped line. */
  lemma StrippedLine(line: string)
    requires Strip(line) != []
    ensures IsStrippedLine(Strip(line))
  {
  }

  /** The lines the parser walks over: text.split('\n'), each stripped, blank ones dropped. */
  function Lines(text: string): seq<string> {
    NonBlank(SplitOn(text, '\n'))
  }

  // ---- the two kinds of marked line ----

  /** The length of the run of ASCII digits at the start of the line. */
  function DigitRun(line: string): (n: nat)
    ensures n <= |line|
  {
    if line != [] && IsDigit(line[0]) then 1 + DigitRun(line[1..]) else 0
  }

  /** DigitRun is the longest all-digit prefix: \d+ matches exactly those characters. */
  lemma {:induction false} DigitRunIsLongest(line: string)
    ensures AllDigits(line[..DigitRun(line)])
    ensures DigitRun(line) < |line| ==> !IsDigit(line[DigitRun(line)])
  {
    if line != [] && IsDigit(line[0]) {
      DigitRunIsLongest(line[1..]);
      assert line[..DigitRun(line)] == [line[0]] + line[1..][..DigitRun(line[1..])];
    }
  }

  /** The line matches ^\d+\.\s*(.*): one or more digits, then a dot. */
  predicate IsQuestionStart(line: string) {
    0 < DigitRun(line) < |line| && line[DigitRun(line)] == '.'
  }

  /** The question text of a question-start line: group(1) of the match, stripped; that
      is, whatever follows the digits and the dot, without surrounding whitespace. */
  function QuestionText(line: string): string {
    if DigitRun(line) < |line| then Strip(line[DigitRun(line) + 1..]) else []
  }

  /** line.startswith('*'). */
  predicate IsAnswerLine(line: string) {
    StartsWith(line, "*")
  }

  /** line[1:].strip(). */
  function AnswerText(line: string): string
    requires IsAnswerLine(line)
  {
    Strip(line[1..])
  }

  lemma AnswerLineIsNoQuestionStart(line: string)
    requires IsAnswerLine(line)
    ensures !IsQuestionStart(line)
  {
    assert line[0] == '*';
  }

  // ---- blocks: one per question-start line ----

  /** A question-start line and the lines that follow it up to the next one. */
  datatype Block = Block(header: string, body: seq<string>)

  /** One more line: a question-start line opens a new block, any other line joins the
      last block, or is dropped when there is none yet. */
  function Extend(bs: seq<Block>, x: string): seq<Block> {
    if IsQuestionStart(x) then bs + [Block(x, [])]
    else if bs == [] then []
    else bs[..|bs| - 1] + [Block(bs[|bs| - 1].header, bs[|bs| - 1].body + [x])]
  }

  /** Groups the lines into blocks, in order; lines before the first question-start line
      belong to no block. */
  function Blocks(lines: seq<string>): seq<Block> {
    if lines == [] then [] else Extend(Blocks(lines[..|lines| - 1]), lines[|lines| - 1])
  }

  /** The number of question-start lines. */
  function CountQuestionStarts(lines: seq<string>): nat {
    if lines == [] then 0
    else CountQuestionStarts(lines[..|lines| - 1]) + (if IsQuestionStart(lines[|lines| - 1]) then 1 else 0)
  }

  /** The lines of the blocks laid end to end: each header followed by its body. */
  function Flatten(bs: seq<Block>): seq<string> {
    if bs == [] then [] else Flatten(bs[..|bs| - 1]) + [bs[|bs| - 1].header] + bs[|bs| - 1].body
  }

  /** No line of s starts a question. */
  predicate NoQuestionStart(s: seq<string>) {
    forall k :: 0 <= k < |s| ==> !IsQuestionStart(s[k])
  }


  /** The number of leading lines before the first question-start line (all of them when
      there is none): the preamble the parser discards. */
  function PreambleLength(lines: seq<string>): (p: nat)
    ensures p <= |lines|
  {
    if lines == [] then 0
    else
      var p := PreambleLength(lines[..|lines| - 1]);
      if p == |lines| - 1 && !IsQuestionStart(lines[|lines| - 1]) then p + 1 else p
  }

  /** The preamble holds no question-start line, and the line right after it starts one. */
  lemma {:induction false} PreambleIsBeforeFirstQuestion(lines: seq<string>)
    ensures NoQuestionStart(lines[..PreambleLength(lines)])
    ensures PreambleLength(lines) < |lines| ==> IsQuestionStart(lines[PreambleLength(lines)])
  {
    if lines != [] {
      var init := lines[..|lines| - 1];
      PreambleIsBeforeFirstQuestion(init);
      var p := PreambleLength(init);
      assert lines[..p] == init[..p];
      if p == |init| && !IsQuestionStart(lines[|lines| - 1]) {
        assert lines[..p + 1] == init + [lines[|lines| - 1]];
      } else if p < |init| {
        assert lines[p] == init[p];
      }
    }
  }

  /** There is one block per question-start line. */
  lemma {:induction false} BlocksCount(lines: seq<string>)
    ensures |Blocks(lines)| == CountQuestionStarts(lines)
  {
    if lines != [] {
      BlocksCount(lines[..|lines| - 1]);
    }
  }

  /** Flattening after one more line: a non-empty block list grows by exactly that line. */
  lemma FlattenExtend(bs: seq<Block>, x: string)
    requires bs != [] || IsQuestionStart(x)
    ensures Flatten(Extend(bs, x)) == Flatten(bs) + [x]
    ensures bs != [] ==> Flatten(bs) != []
  {
    if IsQuestionStart(x) {
      var bs' := bs + [Block(x, [])];
      assert bs'[..|bs|] == bs;
    } else {
      var last := bs[|bs| - 1];
      var bs' := bs[..|bs| - 1] + [Block(last.header, last.body + [x])];
      assert bs'[..|bs'| - 1] == bs[..|bs| - 1];
    }
  }

  /** The blocks laid end to end give back exactly the lines after the preamble: no line
      after the first question-start line is lost, duplicated or moved. */
  lemma {:induction false} BlocksFlatten(lines: seq<string>)
    ensures Flatten(Blocks(lines)) == lines[PreambleLength(lines)..]
  {
    if lines != [] {
      var init := lines[..|lines| - 1];
      var x := lines[|lines| - 1];
      BlocksFlatten(init);
      var p := PreambleLength(init);
      var bs := Blocks(init);
      assert lines == init + [x];
      if bs == [] && !IsQuestionStart(x) {
        assert |init[p..]| == 0;
      } else {
        FlattenExtend(bs, x);
        assert p == |init| ==> IsQuestionStart(x) by {
          if p == |init| {
            assert Flatten(bs) == [];
          }
        }
        assert PreambleLength(lines) == p;
        SliceSnoc(init, x, p);
      }
    }
  }

  /** Dropping a prefix of the lines commutes with adding a line at the end. */
  lemma SliceSnoc(s: seq<string>, x: string, p: nat)
    requires p <= |s|
    ensures (s + [x])[p..] == s[p..] + [x]
  {
  }

  /** A text without question-start lines has no blocks. */
  lemma {:induction false} PreambleHasNoBlocks(pre: seq<string>)
    requires NoQuestionStart(pre)
    ensures Blocks(pre) == []
  {
    if pre != [] {
      PreambleHasNoBlocks(pre[..|pre| - 1]);
    }
  }

  /** Lines before the first question-start line are discarded. */
  lemma {:induction false} PreambleIgnored(pre: seq<string>, rest: seq<string>)
    requires NoQuestionStart(pre)
    requires rest != [] ==> IsQuestionStart(rest[0])
    ensures Blocks(pre + rest) == Blocks(rest)
  {
    if rest == [] {
      assert pre + rest == pre;
      PreambleHasNoBlocks(pre);
    } else if |rest| == 1 {
      assert (pre + rest)[..|pre + rest| - 1] == pre;
      PreambleHasNoBlocks(pre);
      assert rest[..0] == [];
    } else {
      var init := rest[..|rest| - 1];
      assert (pre + rest)[..|pre + rest| - 1] == pre + init;
      PreambleIgnored(pre, init);
    }
  }

  /** Every line of every block body is one of the lines. */
  lemma {:induction false} BodiesComeFromLines(lines: seq<string>)
    ensures forall k, j :: 0 <= k < |Blocks(lines)| && 0 <= j < |Blocks(lines)[k].body| ==> Blocks(lines)[k].body[j] in lines
  {
    if lines != [] {
      var init := lines[..|lines| - 1];
      var x := lines[|lines| - 1];
      assert lines == init + [x];
      BodiesComeFromLines(init);
      assert Blocks(lines) == Extend(Blocks(init), x);
      ExtendBodies(Blocks(init), init, x);
    }
  }

  /** Adding a line to the blocks only ever puts that line into a body. */
  lemma ExtendBodies(bs: seq<Block>, init: seq<string>, x: string)
    requires forall k, j :: 0 <= k < |bs| && 0 <= j < |bs[k].body| ==> bs[k].body[j] in init
    ensures forall k, j :: 0 <= k < |Extend(bs, x)| && 0 <= j < |Extend(bs, x)[k].body| ==>
      Extend(bs, x)[k].body[j] in init + [x]
  {
    var bs' := Extend(bs, x);
    forall k, j | 0 <= k < |bs'| && 0 <= j < |bs'[k].body|
      ensures bs'[k].body[j] in init + [x]
    {
      if IsQuestionStart(x) {
        assert k < |bs| && bs'[k] == bs[k];
      } else if k < |bs| - 1 {
        assert bs'[k] == bs[k];
      } else {
        assert bs'[k].body == bs[k].body + [x];
        if j < |bs[k].body| {
          assert bs'[k].body[j] == bs[k].body[j];
        }
      }
    }
  }

  // ---- reading one block ----

  /** s holds a '*' line. */
  predicate HasAnswerLine(s: seq<string>) {
    exists k :: 0 <= k < |s| && IsAnswerLine(s[k])
  }

  /** A '*' line is in s exactly when it is in one of the two pieces s splits into at i. */
  lemma HasAnswerLineSplit(s: seq<string>, i: nat)
    requires i <= |s|
    ensures HasAnswerLine(s) <==> HasAnswerLine(s[..i]) || HasAnswerLine(s[i..])
  {
    if HasAnswerLine(s) {
      var k :| 0 <= k < |s| && IsAnswerLine(s[k]);
      if k < i {
        assert s[..i][k] == s[k];
      } else {
        assert s[i..][k - i] == s[k];
      }
    }
    if HasAnswerLine(s[..i]) {
      var k :| 0 <= k < i && IsAnswerLine(s[..i][k]);
      assert s[k] == s[..i][k];
    }
    if HasAnswerLine(s[i..]) {
      var k :| 0 <= k < |s| - i && IsAnswerLine(s[i..][k]);
      assert s[k + i] == s[i..][k];
    }
  }

  /** The correct answer of a block body: the text of its LAST '*' line, if any. */
  function Answer(body: seq<string>): Option<string> {
    if body == [] then None
    else if IsAnswerLine(body[|body| - 1]) then Some(AnswerText(body[|body| - 1]))
    else Answer(body[..|body| - 1])
  }

  /** The lines of s that do not start with '*', in order. */
  function NonAnswerLines(s: seq<string>): (r: seq<string>)
    ensures |r| <= |s|
  {
    if s == [] then []
    else NonAnswerLines(s[..|s| - 1]) + (if IsAnswerLine(s[|s| - 1]) then [] else [s[|s| - 1]])
  }

  /** The distractors of a block body: the lines that follow its FIRST '*' line and do not
      start with '*' themselves, in order. */
  function Distractors(body: seq<string>): seq<string> {
    if body == [] then []
    else if IsAnswerLine(body[0]) then NonAnswerLines(body[1..])
    else Distractors(body[1..])
  }

  /** A body has an answer exactly when it holds a '*' line. */
  lemma {:induction false} AnswerExistsIff(body: seq<string>)
    ensures Answer(body).Some? <==> HasAnswerLine(body)
  {
    if body != [] {
      var n := |body| - 1;
      AnswerExistsIff(body[..n]);
      HasAnswerLineSplit(body, n);
      assert body[n..] == [body[n]];
      assert HasAnswerLine([body[n]]) <==> IsAnswerLine(body[n]);
    }
  }

  /** Reading one more line into a body: a plain line after a '*' line is a new distractor;
      anything else leaves the distractors as they are. */
  lemma {:induction false} DistractorsSnoc(body: seq<string>, x: string)
    ensures Distractors(body + [x]) == Distractors(body) + (if !IsAnswerLine(x) && Answer(body).Some? then [x] else [])
  {
    AnswerExistsIff(body);
    if body == [] {
      assert [] + [x] == [x];
      assert [x][1..] == [];
    } else {
      var t := body[1..];
      assert (body + [x])[1..] == t + [x];
      HasAnswerLineSplit(body, 1);
      assert body[..1] == [body[0]];
      assert HasAnswerLine([body[0]]) <==> IsAnswerLine(body[0]);
      if IsAnswerLine(body[0]) {
        assert (t + [x])[..|t|] == t;
      } else {
        DistractorsSnoc(t, x);
        AnswerExistsIff(t);
      }
    }
  }

  /** Distractors are the non-'*' lines after the first '*' line; the plain lines that
      come before it are discarded. */
  lemma {:induction false} DistractorsAfterFirstAnswer(pre: seq<string>, a: string, post: seq<string>)
    requires !HasAnswerLine(pre) && IsAnswerLine(a)
    ensures Distractors(pre + [a] + post) == NonAnswerLines(post)
  {
    if pre == [] {
      assert pre + [a] + post == [a] + post;
      assert ([a] + post)[1..] == post;
    } else {
      assert (pre + [a] + post)[1..] == pre[1..] + [a] + post;
      HasAnswerLineSplit(pre, 1);
      DistractorsAfterFirstAnswer(pre[1..], a, post);
    }
  }

  /** The last '*' line wins: a later '*' line overwrites the answer of an earlier one. */
  lemma {:induction false} LastAnswerWins(pre: seq<string>, a: string, post: seq<string>)
    requires IsAnswerLine(a) && !HasAnswerLine(post)
    ensures Answer(pre + [a] + post) == Some(AnswerText(a))
  {
    if post == [] {
      assert pre + [a] + post == pre + [a];
    } else {
      var n := |post| - 1;
      assert (pre + [a] + post)[..|pre + [a] + post| - 1] == pre + [a] + post[..n];
      HasAnswerLineSplit(post, n);
      LastAnswerWins(pre, a, post[..n]);
    }
  }

  /** A second '*' line replaces the answer and keeps the distractors collected so far. */
  lemma SecondAnswerKeepsDistractors(body: seq<string>, a: string)
    requires IsAnswerLine(a)
    ensures Answer(body + [a]) == Some(AnswerText(a))
    ensures Distractors(body + [a]) == Distractors(body)
  {
    DistractorsSnoc(body, a);
  }

  /** A distractor is only collected after a '*' line. */
  lemma {:induction false} DistractorsNeedAnswer(body: seq<string>)
    requires Distractors(body) != []
    ensures Answer(body).Some?
  {
    AnswerExistsIff(body);
    HasAnswerLineSplit(body, 1);
    assert body[..1] == [body[0]];
    if IsAnswerLine(body[0]) {
      assert HasAnswerLine(body[..1]);
    } else {
      DistractorsNeedAnswer(body[1..]);
      AnswerExistsIff(body[1..]);
    }
  }

  /** The draft the loop holds once it has read the whole block. */
  function DraftOf(b: Block): Draft {
    Draft(QuestionText(b.header), Distractors(b.body), Answer(b.body))
  }

  // ---- the commit rule ----

  /** Whether a block becomes a record: it needs a non-empty answer and, unless it is the
      last block, at least one distractor. */
  predicate Kept(b: Block, isLast: bool) {
    var a := Answer(b.body);
    a.Some? && a.value != [] && (isLast || Distractors(b.body) != [])
  }

  function RecordOf(b: Block): QuestionRecord
    requires Answer(b.body).Some?
  {
    QuestionRecord(QuestionText(b.header), Distractors(b.body), Answer(b.body).value)
  }

  /** The records made from the blocks, in block order: a block becomes a record when it
      is kept, judging the last block as the final question when lastIsFinal holds. Every
      record has a non-empty answer, and only a final question can lack distractors. */
  function Committed(bs: seq<Block>, lastIsFinal: bool): (rs: seq<QuestionRecord>)
    ensures |rs| <= |bs|
    ensures forall k :: 0 <= k < |rs| ==> rs[k].correctAnswer != []
    ensures forall k :: 0 <= k < |rs| ==> rs[k].options != [] || (lastIsFinal && k == |rs| - 1)
  {
    if bs == [] then []
    else
      var b := bs[|bs| - 1];
      Committed(bs[..|bs| - 1], false) + (if Kept(b, lastIsFinal) then [RecordOf(b)] else [])
  }

  /** The records parse_text_to_quiz returns for these blocks. */
  function Records(bs: seq<Block>): seq<QuestionRecord> {
    Committed(bs, true)
  }

  /** What parse_text_to_quiz returns for the text. */
  function Parse(text: string): (quizzes: seq<QuestionRecord>)
    ensures forall k :: 0 <= k < |quizzes| ==> quizzes[k].correctAnswer != []
    ensures forall k :: 0 <= k < |quizzes| - 1 ==> quizzes[k].options != []
  {
    Records(Blocks(Lines(text)))
  }

  /** The positions of the blocks that are kept, in increasing order. */
  function KeptPositions(bs: seq<Block>, lastIsFinal: bool): (idx: seq<nat>)
    ensures forall m :: 0 <= m < |idx| ==> idx[m] < |bs|
    ensures forall m, m' :: 0 <= m < m' < |idx| ==> idx[m] < idx[m']
    ensures forall j :: 0 <= j < |bs| ==> (j in idx <==> Kept(bs[j], lastIsFinal && j == |bs| - 1))
  {
    if bs == [] then []
    else
      var n := |bs| - 1;
      var idx := KeptPositions(bs[..n], false);
      assert forall j :: 0 <= j < n ==> bs[..n][j] == bs[j];
      idx + (if Kept(bs[n], lastIsFinal) then [n] else [])
  }

  /** The records are exactly the kept blocks, in block order: record m is made from block
      KeptPositions(bs, lastIsFinal)[m], so no record is invented, dropped or moved. */
  lemma CommittedAreKeptBlocks(bs: seq<Block>, lastIsFinal: bool)
    ensures |Committed(bs, lastIsFinal)| == |KeptPositions(bs, lastIsFinal)|
    ensures forall m :: 0 <= m < |Committed(bs, lastIsFinal)| ==>
      var j := KeptPositions(bs, lastIsFinal)[m];
      Answer(bs[j].body).Some? && Committed(bs, lastIsFinal)[m] == RecordOf(bs[j])
  {
    CommittedCount(bs, lastIsFinal);
    forall m | 0 <= m < |Committed(bs, lastIsFinal)|
      ensures var j := KeptPositions(bs, lastIsFinal)[m];
        Answer(bs[j].body).Some? && Committed(bs, lastIsFinal)[m] == RecordOf(bs[j])
    {
      CommittedAt(bs, lastIsFinal, m);
    }
  }

  /** One record per kept block. */
  lemma {:induction false} CommittedCount(bs: seq<Block>, lastIsFinal: bool)
    ensures |Committed(bs, lastIsFinal)| == |KeptPositions(bs, lastIsFinal)|
  {
    if bs != [] {
      CommittedCount(bs[..|bs| - 1], false);
    }
  }

  /** Record m is read from the m-th kept block. */
  lemma {:induction false} CommittedAt(bs: seq<Block>, lastIsFinal: bool, m: nat)
    requires m < |Committed(bs, lastIsFinal)|
    ensures |Committed(bs, lastIsFinal)| == |KeptPositions(bs, lastIsFinal)|
    ensures var j := KeptPositions(bs, lastIsFinal)[m];
      Answer(bs[j].body).Some? && Committed(bs, lastIsFinal)[m] == RecordOf(bs[j])
  {
    CommittedCount(bs, lastIsFinal);
    var n := |bs| - 1;
    var rs, idx := Committed(bs[..n], false), KeptPositions(bs[..n], false);
    var kept := Kept(bs[n], lastIsFinal);
    assert Committed(bs, lastIsFinal) == rs + (if kept then [RecordOf(bs[n])] else []);
    assert KeptPositions(bs, lastIsFinal) == idx + (if kept then [n] else []);
    CommittedCount(bs[..n], false);
    if m < |rs| {
      CommittedAt(bs[..n], false, m);
      assert Committed(bs, lastIsFinal)[m] == rs[m];
      assert KeptPositions(bs, lastIsFinal)[m] == idx[m];
      assert bs[..n][idx[m]] == bs[idx[m]];
    }
  }

  // ---- properties of the parser's result ----

  /** There are never more records than question-start lines. */
  lemma ParseAtMostOnePerQuestion(text: string)
    ensures |Parse(text)| <= CountQuestionStarts(Lines(text))
  {
    BlocksCount(Lines(text));
  }

  /** A text without any "<digits>." line yields no records. */
  lemma ParseWithoutQuestionStart(text: string)
    requires NoQuestionStart(Lines(text))
    ensures Parse(text) == []
  {
    PreambleHasNoBlocks(Lines(text));
  }

  /** Blocks whose bodies hold no '*' line give no records. */
  lemma {:induction false} UnansweredBlocksGiveNothing(bs: seq<Block>, lastIsFinal: bool)
    requires forall k :: 0 <= k < |bs| ==> !HasAnswerLine(bs[k].body)
    ensures Committed(bs, lastIsFinal) == []
  {
    if bs != [] {
      var n := |bs| - 1;
      UnansweredBlocksGiveNothing(bs[..n], false);
      AnswerExistsIff(bs[n].body);
    }
  }

  /** A text without any '*' line yields no records. */
  lemma ParseWithoutAnswerLine(text: string)
    requires !HasAnswerLine(Lines(text))
    ensures Parse(text) == []
  {
    var lines := Lines(text);
    var bs := Blocks(lines);
    BodiesComeFromLines(lines);
    forall k | 0 <= k < |bs|
      ensures !HasAnswerLine(bs[k].body)
    {
      forall j | 0 <= j < |bs[k].body|
        ensures !IsAnswerLine(bs[k].body[j])
      {
        NoAnswerLineIn(lines, bs[k].body[j]);
      }
    }
    UnansweredBlocksGiveNothing(bs, true);
  }

  /** A line of a text without '*' lines is no '*' line. */
  lemma NoAnswerLineIn(lines: seq<string>, x: string)
    requires x in lines && !HasAnswerLine(lines)
    ensures !IsAnswerLine(x)
  {
    var i :| 0 <= i < |lines| && lines[i] == x;
  }

  // ---- a worked example ----

  /** A text whose lines are "1. Q?", "*A", "B", "2. R?", "*C" in this shape: a question
      with its answer and one distractor, then a last question with only its answer. Both
      are returned; the last one is kept although it has no distractor, while the same
      question anywhere before the last would be dropped. */
  lemma ParseTwoQuestions(text: string, q1: string, a1: string, o1: string, q2: string, a2: string)
    requires Lines(text) == [q1, a1, o1, q2, a2]
    requires IsQuestionStart(q1) && IsQuestionStart(q2)
    requires IsAnswerLine(a1) && !IsAnswerLine(o1) && !IsQuestionStart(o1) && IsAnswerLine(a2)
    requires AnswerText(a1) != [] && AnswerText(a2) != []
    ensures Parse(text)
      == [QuestionRecord(QuestionText(q1), [o1], AnswerText(a1)), QuestionRecord(QuestionText(q2), [], AnswerText(a2))]
  {
    AnswerLineIsNoQuestionStart(a1);
    AnswerLineIsNoQuestionStart(a2);
    TwoQuestionBlocks(q1, a1, o1, q2, a2);
    TwoRecords(q1, a1, o1, q2, a2);
  }

  lemma TwoQuestionBlocks(q1: string, a1: string, o1: string, q2: string, a2: string)
    requires IsQuestionStart(q1) && IsQuestionStart(q2)
    requires !IsQuestionStart(a1) && !IsQuestionStart(o1) && !IsQuestionStart(a2)
    ensures Blocks([q1, a1, o1, q2, a2]) == [Block(q1, [a1, o1]), Block(q2, [a2])]
  {
    var lines := [q1, a1, o1, q2, a2];
    FirstLineOpens(lines);
    SecondLineJoins(lines);
    ThirdLineJoins(lines);
    FourthLineOpens(lines);
    FifthLineJoins(lines);
  }

  lemma FirstLineOpens(lines: seq<string>)
    requires |lines| == 5 && IsQuestionStart(lines[0])
    ensures Blocks(lines[..1]) == [Block(lines[0], [])]
  {
    BlocksStep(lines, 0);
    assert lines[..0] == [];
  }

  lemma SecondLineJoins(lines: seq<string>)
    requires |lines| == 5 && !IsQuestionStart(lines[1]) && Blocks(lines[..1]) == [Block(lines[0], [])]
    ensures Blocks(lines[..2]) == [Block(lines[0], [lines[1]])]
  {
    BlocksStep(lines, 1);
    var bs := [Block(lines[0], [])];
    assert bs[..0] == [] && bs[0].body + [lines[1]] == [lines[1]];
  }

  lemma ThirdLineJoins(lines: seq<string>)
    requires |lines| == 5 && !IsQuestionStart(lines[2]) && Blocks(lines[..2]) == [Block(lines[0], [lines[1]])]
    ensures Blocks(lines[..3]) == [Block(lines[0], [lines[1], lines[2]])]
  {
    BlocksStep(lines, 2);
    var bs := [Block(lines[0], [lines[1]])];
    assert bs[..0] == [] && bs[0].body + [lines[2]] == [lines[1], lines[2]];
  }

  lemma FourthLineOpens(lines: seq<string>)
    requires |lines| == 5 && IsQuestionStart(lines[3]) && Blocks(lines[..3]) == [Block(lines[0], [lines[1], lines[2]])]
    ensures Blocks(lines[..4]) == [Block(lines[0], [lines[1], lines[2]]), Block(lines[3], [])]
  {
    BlocksStep(lines, 3);
  }

  lemma FifthLineJoins(lines: seq<string>)
    requires |lines| == 5 && !IsQuestionStart(lines[4])
    requires Blocks(lines[..4]) == [Block(lines[0], [lines[1], lines[2]]), Block(lines[3], [])]
    ensures Blocks(lines) == [Block(lines[0], [lines[1], lines[2]]), Block(lines[3], [lines[4]])]
  {
    BlocksStep(lines, 4);
    assert lines[..5] == lines;
    var bs := [Block(lines[0], [lines[1], lines[2]]), Block(lines[3], [])];
    assert bs[..1] == [bs[0]] && bs[1].body + [lines[4]] == [lines[4]];
  }

  lemma AnswerThenDistractor(a: string, o: string)
    requires IsAnswerLine(a) && !IsAnswerLine(o)
    ensures Answer([a, o]) == Some(AnswerText(a)) && Distractors([a, o]) == [o]
  {
    assert [a, o][..1] == [a] && [a, o][1..] == [o];
  }

  lemma OnlyAnswer(a: string)
    requires IsAnswerLine(a)
    ensures Answer([a]) == Some(AnswerText(a)) && Distractors([a]) == []
  {
    assert [a][1..] == [];
  }

  lemma TwoRecords(q1: string, a1: string, o1: string, q2: string, a2: string)
    requires IsAnswerLine(a1) && !IsAnswerLine(o1) && IsAnswerLine(a2)
    requires AnswerText(a1) != [] && AnswerText(a2) != []
    ensures Records([Block(q1, [a1, o1]), Block(q2, [a2])])
      == [QuestionRecord(QuestionText(q1), [o1], AnswerText(a1)), QuestionRecord(QuestionText(q2), [], AnswerText(a2))]
  {
    AnswerThenDistractor(a1, o1);
    OnlyAnswer(a2);
    CommittedTwo(Block(q1, [a1, o1]), Block(q2, [a2]));
  }

  lemma CommittedTwo(b1: Block, b2: Block)
    requires Kept(b1, false) && Kept(b2, true)
    ensures Committed([b1, b2], true) == [RecordOf(b1), RecordOf(b2)]
  {
    assert [b1][..0] == [] && [b1, b2][..1] == [b1];
  }

  // ---- the loop ----

  /** The current question after some blocks have been read: the last one, if any. */
  function OpenDraft(bs: seq<Block>): Option<Draft>
  {
    if bs == [] then None else Some(DraftOf(bs[|bs| - 1]))
  }

  /** The drafts the loop appends for closed blocks: those with a distractor. */
  function ClosedDrafts(bs: seq<Block>): seq<Draft>
  {
    if bs == [] then []
    else
      var b := bs[|bs| - 1];
      ClosedDrafts(bs[..|bs| - 1]) + (if Distractors(b.body) != [] then [DraftOf(b)] else [])
  }

  function AllButLast<T>(s: seq<T>): seq<T> {
    if s == [] then [] else s[..|s| - 1]
  }

  /** The final comprehension: keep the drafts whose answer is set and non-empty. */
  function AnsweredRecords(ds: seq<Draft>): seq<QuestionRecord> {
    if ds == [] then []
    else
      var d := ds[|ds| - 1];
      AnsweredRecords(ds[..|ds| - 1])
        + (if d.correctAnswer.Some? && d.correctAnswer.value != [] then [QuestionRecord(d.question, d.options, d.correctAnswer.value)] else [])
  }

  /** A question-start line closes the open draft (keeping it only with a distractor) and
      opens a fresh one. */
  lemma ExtendOpensQuestion(bs: seq<Block>, x: string)
    requires IsQuestionStart(x)
    ensures OpenDraft(Extend(bs, x)) == Some(Draft(QuestionText(x), [], None))
    ensures ClosedDrafts(AllButLast(Extend(bs, x))) ==
      ClosedDrafts(AllButLast(bs)) + (if OpenDraft(bs).Some? && OpenDraft(bs).value.options != [] then [OpenDraft(bs).value] else [])
  {
    var bs' := bs + [Block(x, [])];
    assert bs'[..|bs|] == bs;
  }

  /** Any other line leaves the closed blocks alone and joins the open block, if any. */
  lemma ExtendContinuesQuestion(bs: seq<Block>, x: string)
    requires !IsQuestionStart(x)
    ensures AllButLast(Extend(bs, x)) == AllButLast(bs)
    ensures bs == [] ==> OpenDraft(Extend(bs, x)) == None
    ensures bs != [] ==>
      OpenDraft(Extend(bs, x)) == Some(DraftOf(Block(bs[|bs| - 1].header, bs[|bs| - 1].body + [x])))
  {
    if bs != [] {
      var bs' := Extend(bs, x);
      assert bs'[..|bs'| - 1] == bs[..|bs| - 1];
    }
  }

  /** Reading one more line into the open block: a '*' line sets the answer, a plain line
      after an answer is a distractor, and a plain line before any answer is dropped. */
  lemma DraftSnoc(b: Block, x: string)
    ensures IsAnswerLine(x) ==>
      DraftOf(Block(b.header, b.body + [x])) == DraftOf(b).(correctAnswer := Some(AnswerText(x)))
    ensures !IsAnswerLine(x) && DraftOf(b).correctAnswer.Some? ==>
      DraftOf(Block(b.header, b.body + [x])) == DraftOf(b).(options := DraftOf(b).options + [x])
    ensures !IsAnswerLine(x) && DraftOf(b).correctAnswer.None? ==>
      DraftOf(Block(b.header, b.body + [x])) == DraftOf(b)
  {
    DistractorsSnoc(b.body, x);
    assert (b.body + [x])[..|b.body|] == b.body;
  }

  lemma {:induction false} ClosedDraftsAnswered(bs: seq<Block>)
    ensures AnsweredRecords(ClosedDrafts(bs)) == Committed(bs, false)
  {
    if bs != [] {
      var b := bs[|bs| - 1];
      var init := bs[..|bs| - 1];
      ClosedDraftsAnswered(init);
      if Distractors(b.body) != [] {
        DistractorsNeedAnswer(b.body);
        var ds := ClosedDrafts(init) + [DraftOf(b)];
        assert ds[..|ds| - 1] == ClosedDrafts(init);
      } else {
        assert ClosedDrafts(init) + [] == ClosedDrafts(init);
      }
    }
  }

  /** After the last line: appending the open draft when it has an answer, then keeping
      the drafts with a non-empty answer, gives the records. */
  lemma FinalCommit(bs: seq<Block>, current: Option<Draft>, drafts: seq<Draft>)
    requires current == OpenDraft(bs) && drafts == ClosedDrafts(AllButLast(bs))
    ensures current.Some? && current.value.correctAnswer.Some? ==>
      AnsweredRecords(drafts + [current.value]) == Records(bs)
    ensures !(current.Some? && current.value.correctAnswer.Some?) ==>
      AnsweredRecords(drafts) == Records(bs)
  {
    if bs != [] {
      var init := bs[..|bs| - 1];
      ClosedDraftsAnswered(init);
      if current.value.correctAnswer.Some? {
        var ds := drafts + [current.value];
        assert ds[..|ds| - 1] == drafts;
      }
    }
  }

  /** Reading line i extends the blocks of the lines before it. */
  lemma BlocksStep(lines: seq<string>, i: nat)
    requires i < |lines|
    ensures Blocks(lines[..i + 1]) == Extend(Blocks(lines[..i]), lines[i])
  {
    assert lines[..i + 1][..i] == lines[..i];
  }

  /** One iteration of parse_text_to_quiz's loop: a question-start line commits the
      current question if it has a distractor and opens a new one; a '*' line sets the
      current answer; any other line is a distractor once an answer is set. Read against
      the blocks so far, the loop state moves on to the blocks with the line added. */
  method ReadLine(current: Option<Draft>, drafts: seq<Draft>, line: string, ghost bs: seq<Block>)
    returns (current': Option<Draft>, drafts': seq<Draft>)
    requires current == OpenDraft(bs) && drafts == ClosedDrafts(AllButLast(bs))
    ensures current' == OpenDraft(Extend(bs, line))
    ensures drafts' == ClosedDrafts(AllButLast(Extend(bs, line)))
  {
    current', drafts' := current, drafts;
    if IsQuestionStart(line) {
      ExtendOpensQuestion(bs, line);
      if current.Some? && current.value.options != [] {
        drafts' := drafts + [current.value];
      }
      current' := Some(Draft(QuestionText(line), [], None));
    } else {
      ExtendContinuesQuestion(bs, line);
      if bs != [] {
        DraftSnoc(bs[|bs| - 1], line);
      }
      if StartsWith(line, "*") {
        if current.Some? {
          current' := Some(current.value.(correctAnswer := Some(AnswerText(line))));
        }
      } else if current.Some? && current.value.correctAnswer.Some? {
        current' := Some(current.value.(options := current.value.options + [line]));
      }
    }
  }

  /** parse_text_to_quiz: one pass over the lines with a current question. */
  method ParseTextToQuiz(text: string) returns (quizzes: seq<QuestionRecord>)
    ensures quizzes == Parse(text)
    ensures forall k :: 0 <= k < |quizzes| ==> quizzes[k].correctAnswer != []
  {
    var lines := Lines(text);
    var drafts: seq<Draft> := [];
    var current: Option<Draft> := None;
    for i := 0 to |lines|
      invariant current == OpenDraft(Blocks(lines[..i]))
      invariant drafts == ClosedDrafts(AllButLast(Blocks(lines[..i])))
    {
      BlocksStep(lines, i);
      current, drafts := ReadLine(current, drafts, lines[i], Blocks(lines[..i]));
    }
    ghost var bs := Blocks(lines);
    assert current == OpenDraft(bs) && drafts == ClosedDrafts(AllButLast(bs)) by {
      assert lines[..|lines|] == lines;
    }
    FinalCommit(bs, current, drafts);
    if current.Some? && current.value.correctAnswer.Some? {
      drafts := drafts + [current.value];
    }
    quizzes := AnsweredRecords(drafts);
  }
}
