/**
  How a parsed question is stored and read back (save_test_to_db and
  get_test_questions_from_db). The correct answer and the distractors are put in one
  list, shuffled, and numbered 'A', 'B', 'C', …; the stored row keeps that
  label-to-text map and the label of the correct answer. Reading the row back takes
  the text under that label as the correct answer and every other text as a
  distractor.

  Labels are kept as code points (chr(65 + i) is the label of position i). The
  JSON text the map travels through is an identity here: the map is an ordered
  list of (label, text) entries, in insertion order, as json.dumps/json.loads
  keep it.
 */
module OptionCodec {
  import opened Text
  import opened QuizParser

  /** The code point of chr(65 + i): 'A' for 0, 'B' for 1, and so on. */
  function Label(i: nat): int {
    65 + i
  }

  /** One item of the options map: a label and the option text under it. */
  datatype OptionEntry = OptionEntry(key: int, text: string)

  /** A row of the questions table: test_id, question_text, options_json, correct_label. */
  datatype StoredQuestion = StoredQuestion(testId: int, questionText: string, options: seq<OptionEntry>, correctLabel: int)

  // ---- the options map ----

  /** {chr(65 + from + i): opt for i, opt in enumerate(all)}: the entries numbered from
      label 65 + from onwards. */
  function Enumerate(all: seq<string>, from: nat): seq<OptionEntry> {
    if all == [] then [] else [OptionEntry(Label(from), all[0])] + Enumerate(all[1..], from + 1)
  }

  /** The options map save_test_to_db builds from the shuffled options. */
  function OptionsMap(all: seq<string>): seq<OptionEntry> {
    Enumerate(all, 0)
  }

  /** options_map.values(), in order. */
  function Texts(m: seq<OptionEntry>): (r: seq<string>)
    ensures |r| == |m|
  {
    if m == [] then [] else [m[0].text] + Texts(m[1..])
  }

  /** l is a key of the map. */
  predicate HasLabel(m: seq<OptionEntry>, l: int) {
    exists i :: 0 <= i < |m| && m[i].key == l
  }

  /** No two entries share a label, as in any Python dict. */
  predicate DistinctLabels(m: seq<OptionEntry>) {
    forall i, j :: 0 <= i < j < |m| ==> m[i].key != m[j].key
  }

  /** The entries are numbered consecutively: entry i has label 65 + from + i, and the texts
      are all, in order. */
  lemma {:induction false} EnumerateShape(all: seq<string>, from: nat)
    ensures |Enumerate(all, from)| == |all|
    ensures forall i :: 0 <= i < |all| ==> Enumerate(all, from)[i] == OptionEntry(Label(from + i), all[i])
    ensures Texts(Enumerate(all, from)) == all
  {
    if all != [] {
      EnumerateShape(all[1..], from + 1);
      var e := Enumerate(all, from);
      assert e[1..] == Enumerate(all[1..], from + 1);
    }
  }

  /** The options map has one entry per option, keyed 'A', 'B', … with distinct labels, and
      its values are the options in the order given. */
  lemma OptionsMapShape(all: seq<string>)
    ensures |OptionsMap(all)| == |all|
    ensures forall i :: 0 <= i < |all| ==> OptionsMap(all)[i] == OptionEntry(Label(i), all[i])
    ensures DistinctLabels(OptionsMap(all))
    ensures Texts(OptionsMap(all)) == all
  {
    EnumerateShape(all, 0);
  }

  // ---- reading the map ----

  /** The position of the first entry whose text is v: the entry
      next(key for key, value in options_map.items() if value == v) finds. */
  function FirstMatch(m: seq<OptionEntry>, v: string): (r: Option<nat>)
    ensures r.Some? ==> r.value < |m| && m[r.value].text == v
    ensures r.Some? ==> forall j :: 0 <= j < r.value ==> m[j].text != v
    ensures r.None? ==> forall j :: 0 <= j < |m| ==> m[j].text != v
  {
    if m == [] then None
    else if m[0].text == v then Some(0)
    else
      match FirstMatch(m[1..], v)
      case None => None
      case Some(k) => Some(k + 1)
  }

  /** options[l] for a key l: the text of the entry with that label. */
  function Lookup(m: seq<OptionEntry>, l: int): string
    requires HasLabel(m, l)
  {
    if m[0].key == l then m[0].text
    else
      assert HasLabel(m[1..], l) by {
        var i :| 0 <= i < |m| && m[i].key == l;
        assert m[1..][i - 1] == m[i];
      }
      Lookup(m[1..], l)
  }

  /** [opt for key, opt in options.items() if key != l]. */
  function OtherTexts(m: seq<OptionEntry>, l: int): (r: seq<string>)
    ensures |r| <= |m|
  {
    if m == [] then []
    else (if m[0].key != l then [m[0].text] else []) + OtherTexts(m[1..], l)
  }

  /** s with the first occurrence of v taken out. */
  function RemoveFirst(s: seq<string>, v: string): (r: seq<string>)
    ensures |r| <= |s|
  {
    if s == [] then []
    else if s[0] == v then s[1..]
    else [s[0]] + RemoveFirst(s[1..], v)
  }

  /** Taking out the first v takes exactly one v out of the multiset, and nothing when s
      holds no v. */
  lemma {:induction false} RemoveFirstMultiset(s: seq<string>, v: string)
    ensures v in s ==> multiset(RemoveFirst(s, v)) == multiset(s) - multiset{v}
    ensures v !in s ==> RemoveFirst(s, v) == s
  {
    if s != [] {
      assert s == [s[0]] + s[1..];
      RemoveFirstMultiset(s[1..], v);
    }
  }

  /** A label no entry carries filters nothing out. */
  lemma {:induction false} OtherTextsOfAbsentLabel(m: seq<OptionEntry>, l: int)
    requires forall i :: 0 <= i < |m| ==> m[i].key != l
    ensures OtherTexts(m, l) == Texts(m)
  {
    if m != [] {
      OtherTextsOfAbsentLabel(m[1..], l);
    }
  }

  /** With distinct labels, looking up the label of entry k gives the text of entry k. */
  lemma {:induction false} LookupAt(m: seq<OptionEntry>, k: nat)
    requires DistinctLabels(m) && k < |m|
    ensures HasLabel(m, m[k].key) && Lookup(m, m[k].key) == m[k].text
  {
    if k > 0 {
      assert m[1..][k - 1] == m[k];
      LookupAt(m[1..], k - 1);
    }
  }

  /** With distinct labels, the entries other than the one labelled like entry k are all
      the others, in order. */
  lemma {:induction false} OtherTextsAt(m: seq<OptionEntry>, k: nat)
    requires DistinctLabels(m) && k < |m|
    ensures OtherTexts(m, m[k].key) == Texts(m)[..k] + Texts(m)[k + 1..]
  {
    assert Texts(m) == [m[0].text] + Texts(m[1..]);
    if k == 0 {
      OtherTextsOfAbsentLabel(m[1..], m[0].key);
    } else {
      assert m[1..][k - 1] == m[k];
      OtherTextsAt(m[1..], k - 1);
      assert Texts(m)[..k] == [m[0].text] + Texts(m[1..])[..k - 1];
      assert Texts(m)[k + 1..] == Texts(m[1..])[k..];
    }
  }

  /** Taking out the first occurrence of v removes the element at the first index that
      holds v. */
  lemma {:induction false} RemoveFirstAt(s: seq<string>, v: string, k: nat)
    requires k < |s| && s[k] == v && forall j :: 0 <= j < k ==> s[j] != v
    ensures RemoveFirst(s, v) == s[..k] + s[k + 1..]
  {
    if k == 0 {
      assert s[..k] + s[k + 1..] == s[1..];
    } else {
      var t := s[1..];
      assert s[0] != v;
      assert RemoveFirst(s, v) == [s[0]] + RemoveFirst(t, v);
      RemoveFirstAt(t, v, k - 1);
      assert t[..k - 1] == s[1..k] && t[k..] == s[k + 1..];
      assert s[..k] == [s[0]] + s[1..k];
    }
  }

  // ---- encoding and decoding one question ----

  /** The options of a question as save_test_to_db lists them before shuffling:
      [correct_answer] + options. */
  function Pool(q: QuestionRecord): seq<string> {
    [q.correctAnswer] + q.options
  }

  /** f reorders every list it is given and changes nothing else: the effect of
      random.shuffle, whichever permutation it draws. */
  ghost predicate Shuffles<T(!new)>(f: seq<T> -> seq<T>) {
    forall s :: multiset(f(s)) == multiset(s)
  }

  /** Whether order is a reordering of the pool: what random.shuffle may leave behind. */
  predicate IsShuffleOf(order: seq<string>, q: QuestionRecord) {
    multiset(order) == multiset(Pool(q))
  }

  /** The position in the shuffled options of the entry correct_label names: the first one
      holding the correct answer, which is always there. */
  function CorrectPosition(q: QuestionRecord, order: seq<string>): (k: nat)
    requires IsShuffleOf(order, q)
    ensures k < |order| && order[k] == q.correctAnswer
    ensures forall j :: 0 <= j < k ==> order[j] != q.correctAnswer
    ensures FirstMatch(OptionsMap(order), q.correctAnswer) == Some(k)
  {
    OptionsMapShape(order);
    assert q.correctAnswer in multiset(order) by {
      assert Pool(q)[0] == q.correctAnswer;
    }
    FirstMatchOfMember(order, q.correctAnswer);
    FirstMatch(OptionsMap(order), q.correctAnswer).value
  }

  /** A text among the options is found in the options map. */
  lemma FirstMatchOfMember(all: seq<string>, v: string)
    requires v in all
    ensures FirstMatch(OptionsMap(all), v).Some?
  {
    OptionsMapShape(all);
    var j :| 0 <= j < |all| && all[j] == v;
    assert OptionsMap(all)[j].text == v;
  }

  /** One question of save_test_to_db: the shuffled options become the options map, and
      correct_label is the label of the first entry whose text is the correct answer.
      The stored row has one entry per option, labelled 'A', 'B', … in turn, with the
      options as its values; its correct label is a key that maps to the correct answer. */
  function EncodeQuestion(q: QuestionRecord, testId: int, order: seq<string>): (s: StoredQuestion)
    requires IsShuffleOf(order, q)
    ensures s.testId == testId && s.questionText == q.question
    ensures |s.options| == 1 + |q.options|
    ensures forall i :: 0 <= i < |s.options| ==> s.options[i].key == Label(i)
    ensures DistinctLabels(s.options)
    ensures multiset(Texts(s.options)) == multiset(Pool(q))
    ensures HasLabel(s.options, s.correctLabel) && Lookup(s.options, s.correctLabel) == q.correctAnswer
  {
    var m := OptionsMap(order);
    OptionsMapShape(order);
    var k := CorrectPosition(q, order);
    LookupAt(m, k);
    assert |order| == |Pool(q)| by {
      assert |multiset(order)| == |multiset(Pool(q))|;
    }
    StoredQuestion(testId, q.question, m, m[k].key)
  }

  /** The labels of a stored row are well formed: distinct, and the correct label is one of
      them. */
  predicate WellLabelled(s: StoredQuestion) {
    DistinctLabels(s.options) && HasLabel(s.options, s.correctLabel)
  }

  /** One question of get_test_questions_from_db: the text under correct_label is the
      correct answer, every other text is a distractor, in map order. */
  function DecodeQuestion(s: StoredQuestion): QuestionRecord
    requires HasLabel(s.options, s.correctLabel)
  {
    QuestionRecord(s.questionText, OtherTexts(s.options, s.correctLabel), Lookup(s.options, s.correctLabel))
  }

  /** Decoding a stored row loses exactly one entry, the correct one: there is one
      distractor fewer than entries, and together with the correct answer the distractors
      are the map's values. */
  lemma {:induction false} DecodeKeepsTexts(m: seq<OptionEntry>, l: int)
    requires DistinctLabels(m) && HasLabel(m, l)
    ensures |OtherTexts(m, l)| == |m| - 1
    ensures multiset(OtherTexts(m, l)) + multiset{Lookup(m, l)} == multiset(Texts(m))
  {
    if m[0].key == l {
      OtherTextsOfAbsentLabel(m[1..], l);
      assert Texts(m) == [m[0].text] + Texts(m[1..]);
    } else {
      assert HasLabel(m[1..], l) by {
        var i :| 0 <= i < |m| && m[i].key == l;
        assert m[1..][i - 1] == m[i];
      }
      DecodeKeepsTexts(m[1..], l);
      assert Texts(m) == [m[0].text] + Texts(m[1..]);
    }
  }

  /** The round trip: decoding an encoded question gives back its text and its correct
      answer, and its distractors in the shuffled order with the correct answer taken out
      once; as a multiset these are the original distractors. */
  lemma RoundTrip(q: QuestionRecord, testId: int, order: seq<string>)
    requires IsShuffleOf(order, q)
    ensures DecodeQuestion(EncodeQuestion(q, testId, order)) ==
      QuestionRecord(q.question, RemoveFirst(order, q.correctAnswer), q.correctAnswer)
    ensures multiset(DecodeQuestion(EncodeQuestion(q, testId, order)).options) == multiset(q.options)
  {
    var m := OptionsMap(order);
    OptionsMapShape(order);
    var k := CorrectPosition(q, order);
    LookupAt(m, k);
    OtherTextsAt(m, k);
    RemoveFirstAt(order, q.correctAnswer, k);
    RemoveFirstMultiset(order, q.correctAnswer);
    assert multiset(Pool(q)) == multiset{q.correctAnswer} + multiset(q.options);
  }
}
