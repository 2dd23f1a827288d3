/**
 * The quiz server (app.py): looking a question up by id, the session that a
 * browser carries through `index`, `start_test`, `test_page`, `submit` and
 * `results`, and the grading done by `results`.
 *
 * The session is the two fields of `Server`. A posted form is a map from
 * field name to the list of values sent under that name. The positions that
 * `random.sample` draws are a parameter of `StartTest`.
 */
module QuizApp {
  import opened Wrappers
  import opened Strings
  import opened Sorting
  import opened Bank
  import opened Lists
  import Extractor

  // ---------------------------------------------------------------------
  // Looking questions up (get_question_by_id)
  // ---------------------------------------------------------------------

  /** `get_question_by_id`: the first record of the bank with id `id`, if any. */
  function QuestionById(bank: seq<QuestionRecord>, id: nat): (r: Option<QuestionRecord>)
    ensures r.Some? ==> r.value in bank && r.value.id == id
  {
    if bank == [] then None
    else if bank[0].id == id then Some(bank[0])
    else QuestionById(bank[1..], id)
  }

  /** The lookup fails exactly when no record has the id. */
  lemma {:induction false} QuestionByIdNone(bank: seq<QuestionRecord>, id: nat)
    ensures QuestionById(bank, id) == None <==> forall k :: 0 <= k < |bank| ==> bank[k].id != id
  {
    if bank != [] {
      QuestionByIdNone(bank[1..], id);
      assert forall k :: 1 <= k < |bank| ==> bank[k] == bank[1..][k - 1];
    }
  }

  /** The lookup finds the first record with the id. */
  lemma {:induction false} QuestionByIdFirst(bank: seq<QuestionRecord>, id: nat, k: nat)
    requires k < |bank| && bank[k].id == id
    requires forall j :: 0 <= j < k ==> bank[j].id != id
    ensures QuestionById(bank, id) == Some(bank[k])
  {
    if k > 0 {
      assert bank[0].id != id;
      forall j | 0 <= j < k - 1 ensures bank[1..][j].id != id {
        assert bank[1..][j] == bank[j + 1];
      }
      QuestionByIdFirst(bank[1..], id, k - 1);
    }
  }

  /** No two records of the bank share an id. */
  ghost predicate UniqueIds(bank: seq<QuestionRecord>) {
    forall i, j :: 0 <= i < j < |bank| ==> bank[i].id != bank[j].id
  }

  /** With unique ids, looking up the id of a record finds that record. */
  lemma QuestionByIdOfUnique(bank: seq<QuestionRecord>, k: nat)
    requires UniqueIds(bank) && k < |bank|
    ensures QuestionById(bank, bank[k].id) == Some(bank[k])
  {
    QuestionByIdFirst(bank, bank[k].id, k);
  }

  /** A bank written by the extractor has unique ids. */
  lemma BuiltBankUnique(spans: seq<Extractor.Span>, keyLines: seq<string>)
    ensures UniqueIds(Extractor.QuestionBank(spans, keyLines))
  {
    var bank := Extractor.QuestionBank(spans, keyLines);
    Extractor.QuestionBankIds(spans, keyLines, 0);
    var ids := Extractor.Ids(bank);
    forall i, j | 0 <= i < j < |bank| ensures bank[i].id != bank[j].id {
      assert ids[i] == bank[i].id && ids[j] == bank[j].id;
    }
  }

  // ---------------------------------------------------------------------
  // Starting a test (start_test)
  // ---------------------------------------------------------------------

  /** The number of questions a test asks at most. */
  const TestSize: nat := 50

  function Min(a: nat, b: nat): nat {
    if a <= b then a else b
  }

  /**
   * What `random.sample(all_ids, min(50, len(all_ids)))` draws: distinct
   * positions of the bank, as many as the test asks.
   */
  ghost predicate IsDraw(draw: seq<nat>, size: nat) {
    |draw| == Min(TestSize, size) && NoDuplicates(draw) && forall k :: 0 <= k < |draw| ==> draw[k] < size
  }

  /** The ids at the drawn positions, in the order drawn. */
  function SampleIds(bank: seq<QuestionRecord>, draw: seq<nat>): seq<nat>
    requires forall k :: 0 <= k < |draw| ==> draw[k] < |bank|
  {
    seq(|draw|, k requires 0 <= k < |draw| => bank[draw[k]].id)
  }

  /**
   * The test has `min(50, |bank|)` questions, each found by the lookup, and
   * no question twice when the bank's ids are unique.
   */
  lemma SampleFacts(bank: seq<QuestionRecord>, draw: seq<nat>)
    requires IsDraw(draw, |bank|)
    ensures |SampleIds(bank, draw)| == Min(TestSize, |bank|)
    ensures forall k :: 0 <= k < |draw| ==> QuestionById(bank, SampleIds(bank, draw)[k]).Some?
    ensures UniqueIds(bank) ==> NoDuplicates(SampleIds(bank, draw))
  {
    var ids := SampleIds(bank, draw);
    forall k | 0 <= k < |draw| ensures QuestionById(bank, ids[k]).Some? {
      QuestionByIdNone(bank, ids[k]);
      assert bank[draw[k]].id == ids[k];
    }
    if UniqueIds(bank) {
      forall i, j | 0 <= i < j < |ids| ensures ids[i] != ids[j] {
        assert draw[i] != draw[j];
        if draw[i] < draw[j] {
          assert bank[draw[i]].id != bank[draw[j]].id;
        } else {
          assert bank[draw[j]].id != bank[draw[i]].id;
        }
      }
    }
  }

  // ---------------------------------------------------------------------
  // Reading the form (submit)
  // ---------------------------------------------------------------------

  /** The posted form: every field name with the list of values sent under it. */
  type Form = map<string, seq<string>>

  /** The name of the form field of question `id`. */
  function FormKey(id: nat): string {
    "q" + DecimalString(id)
  }

  /** Different questions have different form fields. */
  lemma FormKeyInjective(m: nat, n: nat)
    requires FormKey(m) == FormKey(n)
    ensures m == n
  {
    assert FormKey(m)[1..] == DecimalString(m);
    assert FormKey(n)[1..] == DecimalString(n);
    DecimalInjective(m, n);
  }

  /**
   * Python's `int(v)` on a form value: surrounding whitespace, an optional
   * sign and ASCII digits; anything else raises `ValueError` (`None`).
   */
  function ParseInt(v: string): Option<int> {
    var t := Strip(v);
    if IsDigitString(t) then Some(DigitsValue(t))
    else if |t| >= 2 && (t[0] == '-' || t[0] == '+') && IsDigitString(t[1..]) then
      var magnitude: int := DigitsValue(t[1..]);
      Some(if t[0] == '-' then -magnitude else magnitude)
    else None
  }

  /** Python's `str(n)` for an integer. */
  function IntString(n: int): string {
    if n < 0 then "-" + DecimalString(-n) else DecimalString(n)
  }

  /** A digit string has no surrounding whitespace to strip. */
  lemma DigitsStripped(d: string)
    requires IsDigitString(d)
    ensures Strip(d) == d
  {
    assert IsDigit(d[0]) && IsDigit(d[|d| - 1]);
    StripUnchanged(d);
  }

  /** A value the page wrote with `str(i)` reads back as `i`. */
  lemma ParseIntRoundTrip(n: int)
    ensures ParseInt(IntString(n)) == Some(n)
  {
    if n >= 0 {
      NonNegativeRoundTrip(n);
    } else {
      NegativeRoundTrip(-n);
    }
  }

  lemma NonNegativeRoundTrip(n: nat)
    ensures ParseInt(DecimalString(n)) == Some(n)
  {
    DigitsStripped(DecimalString(n));
    DecimalRoundTrip(n);
  }

  lemma NegativeRoundTrip(m: int)
    requires m > 0
    ensures ParseInt("-" + DecimalString(m)) == Some(-m)
  {
    var d := DecimalString(m);
    var s := "-" + d;
    assert IsDigit(d[|d| - 1]) && s[|s| - 1] == d[|d| - 1];
    StripUnchanged(s);
    assert s[1..] == d;
    assert !IsDigit(s[0]);
    DecimalRoundTrip(m);
  }

  /**
   * `[int(v) for v in values]` inside `try`: every value converted, in
   * order, or `None` when any value fails.
   */
  function ConvertAll(values: seq<string>): Option<seq<int>> {
    MapAll(ParseInt, values)
  }

  /** `ConvertAll` succeeds exactly when every value converts, and keeps them all in order. */
  lemma ConvertAllMeaning(values: seq<string>)
    ensures ConvertAll(values).Some? <==> forall k :: 0 <= k < |values| ==> ParseInt(values[k]).Some?
    ensures ConvertAll(values).Some? ==>
              |ConvertAll(values).value| == |values| &&
              forall k :: 0 <= k < |values| ==> ParseInt(values[k]) == Some(ConvertAll(values).value[k])
  {
    MapAllMeaning(ParseInt, values);
  }

  /**
   * What `submit` records for question `id`: its converted values when the
   * form carries a non-empty list under its field and every value converts.
   */
  function Recorded(form: Form, id: nat): Option<(nat, seq<int>)> {
    var key := FormKey(id);
    if key in form && form[key] != [] then
      match ConvertAll(form[key])
      case Some(values) => Some((id, values))
      case None => None
    else None
  }

  function RecordOf(form: Form): nat -> Option<(nat, seq<int>)> {
    id => Recorded(form, id)
  }

  /** The answers `submit` stores for the session's questions. */
  function Submitted(ids: seq<nat>, form: Form): map<nat, seq<int>> {
    Assign(RecordOf(form), ids)
  }

  /**
   * A question is recorded exactly when it is in the session, its field is
   * present with a non-empty list and every value converts; what is stored
   * is the whole converted list, which is never empty.
   */
  lemma SubmittedMeaning(ids: seq<nat>, form: Form, id: nat)
    ensures id in Submitted(ids, form) <==>
              id in ids && FormKey(id) in form && form[FormKey(id)] != [] && ConvertAll(form[FormKey(id)]).Some?
    ensures id in Submitted(ids, form) ==>
              Submitted(ids, form)[id] != [] && ConvertAll(form[FormKey(id)]) == Some(Submitted(ids, form)[id])
  {
    var f := RecordOf(form);
    AssignDomain(f, ids, id);
    if FormKey(id) in form {
      ConvertAllMeaning(form[FormKey(id)]);
    }
    forall i | Declares(f, ids, i, id) ensures ids[i] == id {
      assert f(ids[i]) == Recorded(form, ids[i]);
    }
    if id in ids && Recorded(form, id).Some? {
      var i :| 0 <= i < |ids| && ids[i] == id;
      assert f(ids[i]) == Recorded(form, id);
      assert Declares(f, ids, i, id);
    }
    if id in Submitted(ids, form) {
      var v := Recorded(form, id).value.1;
      forall i | Declares(f, ids, i, id) ensures f(ids[i]).value.1 == v {
        assert f(ids[i]) == Recorded(form, id);
      }
      AssignUniform(f, ids, id, v);
    }
  }

  // ---------------------------------------------------------------------
  // Grading (results)
  // ---------------------------------------------------------------------

  /** The status `results` gives a question. */
  datatype Status = Unanswered | Correct | Incorrect

  /** The text shown in place of the user's answers when there are none. */
  const NoAnswer: string := "Нет ответа"

  /** The status of a question with answer key `answer` and stored answer `user`. */
  function StatusOf(answer: seq<int>, user: Option<seq<int>>): Status {
    match user
    case None => Unanswered
    case Some(u) => if Sort(answer) == Sort(u) then Correct else Incorrect
  }

  /**
   * Unanswered exactly when nothing is stored; otherwise correct exactly
   * when the stored indices are the key's indices up to order, with no
   * partial credit.
   */
  lemma StatusOfMeaning(answer: seq<int>, user: Option<seq<int>>)
    ensures StatusOf(answer, user) == Unanswered <==> user.None?
    ensures StatusOf(answer, user) == Correct <==> user.Some? && multiset(user.value) == multiset(answer)
    ensures StatusOf(answer, user) == Incorrect <==> user.Some? && multiset(user.value) != multiset(answer)
  {
    if user.Some? {
      SortEqualIffPermutation(answer, user.value);
    }
  }

  /** Python's `options[i]`: a negative `i` counts from the end. */
  function PyIndex(options: seq<string>, i: int): (r: string)
    requires -|options| <= i < |options|
    ensures r in options
  {
    if i >= 0 then options[i] else options[|options| + i]
  }

  /** Every index is one Python accepts on `options`. */
  predicate InRange(options: seq<string>, indices: seq<int>) {
    forall k :: 0 <= k < |indices| ==> -|options| <= indices[k] < |options|
  }

  lemma SortInRange(options: seq<string>, indices: seq<int>)
    requires InRange(options, indices)
    ensures InRange(options, Sort(indices))
  {
    SortPermutes(indices);
    forall k | 0 <= k < |Sort(indices)| ensures -|options| <= Sort(indices)[k] < |options| {
      assert Sort(indices)[k] in multiset(Sort(indices));
      var j :| 0 <= j < |indices| && indices[j] == Sort(indices)[k];
    }
  }

  /** The texts of the options at `indices`, in that order. */
  function Texts(options: seq<string>, indices: seq<int>): (r: seq<string>)
    requires InRange(options, indices)
    ensures |r| == |indices|
    ensures forall k :: 0 <= k < |r| ==> r[k] in options
  {
    seq(|indices|, k requires 0 <= k < |indices| => PyIndex(options, indices[k]))
  }

  /** One entry of the results page. */
  datatype ResultEntry = ResultEntry(
    id: nat,
    question: string,
    options: seq<string>,
    status: Status,
    userAnswers: seq<string>,
    correctAnswers: seq<string>)

  /** The results entry of record `q` with stored answer `user`. */
  function ResultOf(q: QuestionRecord, user: Option<seq<int>>): ResultEntry
    requires InRange(q.options, q.answer)
    requires user.Some? ==> InRange(q.options, user.value)
  {
    var chosen := Sort(if user.Some? then user.value else []);
    SortInRange(q.options, q.answer);
    SortInRange(q.options, if user.Some? then user.value else []);
    ResultEntry(q.id, q.question, q.options, StatusOf(q.answer, user),
                if chosen != [] then Texts(q.options, chosen) else [NoAnswer],
                Texts(q.options, Sort(q.answer)))
  }

  /** `s` lists the elements of `indices` in ascending order. */
  ghost predicate SortedPermutation(s: seq<int>, indices: seq<int>) {
    IsSorted(s) && multiset(s) == multiset(indices)
  }

  /**
   * The entry copies the record's id, prompt and options; it shows the texts
   * of the key's options in ascending index order, and the texts of the
   * user's options in ascending index order, or the single placeholder when
   * the user chose nothing.
   */
  lemma ResultOfShows(q: QuestionRecord, user: Option<seq<int>>)
    requires InRange(q.options, q.answer)
    requires user.Some? ==> InRange(q.options, user.value)
    ensures ResultOf(q, user).id == q.id && ResultOf(q, user).question == q.question
    ensures ResultOf(q, user).options == q.options
    ensures exists s :: SortedPermutation(s, q.answer) && InRange(q.options, s) &&
              ResultOf(q, user).correctAnswers == Texts(q.options, s)
    ensures user.None? || user.value == [] ==> ResultOf(q, user).userAnswers == [NoAnswer]
    ensures user.Some? && user.value != [] ==>
              exists s :: SortedPermutation(s, user.value) && InRange(q.options, s) &&
                ResultOf(q, user).userAnswers == Texts(q.options, s)
  {
    var r := ResultOf(q, user);
    SortOrders(q.answer);
    SortPermutes(q.answer);
    SortInRange(q.options, q.answer);
    assert SortedPermutation(Sort(q.answer), q.answer);
    if user.Some? && user.value != [] {
      var u := user.value;
      SortOrders(u);
      SortPermutes(u);
      SortInRange(q.options, u);
      assert |multiset(Sort(u))| == |u| > 0;
      assert Sort(u) != [];
      assert SortedPermutation(Sort(u), u);
    }
  }

  /** The stored answer of question `id`, if any (`user_answers.get(...)`). */
  function Lookup(answers: map<nat, seq<int>>, id: nat): (r: Option<seq<int>>)
    ensures r.Some? <==> id in answers
    ensures r.Some? ==> r.value == answers[id]
  {
    if id in answers then Some(answers[id]) else None
  }

  /**
   * What `results` needs of question `id` so as not to crash: the bank has
   * it, and every index of its key and of the stored answer is one Python
   * accepts on its options.
   */
  predicate GradableId(bank: seq<QuestionRecord>, id: nat, answers: map<nat, seq<int>>) {
    QuestionById(bank, id).Some? &&
    InRange(QuestionById(bank, id).value.options, QuestionById(bank, id).value.answer) &&
    (id in answers ==> InRange(QuestionById(bank, id).value.options, answers[id]))
  }

  ghost predicate Gradable(bank: seq<QuestionRecord>, ids: seq<nat>, answers: map<nat, seq<int>>) {
    forall k :: 0 <= k < |ids| ==> GradableId(bank, ids[k], answers)
  }

  /** The results entry of question `id`. */
  function ResultFor(bank: seq<QuestionRecord>, id: nat, answers: map<nat, seq<int>>): (r: ResultEntry)
    requires GradableId(bank, id, answers)
    ensures r.id == id
    ensures r.question == QuestionById(bank, id).value.question
    ensures r.options == QuestionById(bank, id).value.options
  {
    ResultOf(QuestionById(bank, id).value, Lookup(answers, id))
  }

  /** The entries of the results page: one per session question, in session order. */
  function ResultEntries(bank: seq<QuestionRecord>, ids: seq<nat>, answers: map<nat, seq<int>>): seq<ResultEntry>
    requires Gradable(bank, ids, answers)
  {
    seq(|ids|, k requires 0 <= k < |ids| => ResultFor(bank, ids[k], answers))
  }

  /** The number of entries whose status is `Correct`. */
  function CountCorrect(entries: seq<ResultEntry>): (n: nat)
    ensures n <= |entries|
  {
    if entries == [] then 0
    else CountCorrect(entries[..|entries| - 1]) + (if entries[|entries| - 1].status == Correct then 1 else 0)
  }

  /** The number of session questions that have a stored answer. */
  function CountAnswered(ids: seq<nat>, answers: map<nat, seq<int>>): nat {
    if ids == [] then 0
    else CountAnswered(ids[..|ids| - 1], answers) + (if ids[|ids| - 1] in answers then 1 else 0)
  }

  /** The entry of question `id` is about that question. */
  lemma ResultForId(bank: seq<QuestionRecord>, id: nat, answers: map<nat, seq<int>>)
    requires GradableId(bank, id, answers)
    ensures ResultFor(bank, id, answers).id == id
  {
  }

  /** The score is full exactly when every entry is correct. */
  lemma {:induction false} ScoreFull(entries: seq<ResultEntry>)
    ensures CountCorrect(entries) == |entries| <==> forall k :: 0 <= k < |entries| ==> entries[k].status == Correct
  {
    if entries != [] {
      var init := entries[..|entries| - 1];
      ScoreFull(init);
      assert forall k :: 0 <= k < |init| ==> init[k] == entries[k];
    }
  }

  /** An unanswered question never scores: the score is at most the number answered. */
  lemma {:induction false} ScoreAtMostAnswered(bank: seq<QuestionRecord>, ids: seq<nat>, answers: map<nat, seq<int>>)
    requires Gradable(bank, ids, answers)
    ensures CountCorrect(ResultEntries(bank, ids, answers)) <= CountAnswered(ids, answers)
  {
    if ids != [] {
      var n := |ids| - 1;
      var init, id := ids[..n], ids[n];
      ResultStep(bank, ids, answers, n);
      assert ids[..n + 1] == ids;
      ScoreAtMostAnswered(bank, init, answers);
      var entries, earlier := ResultEntries(bank, ids, answers), ResultEntries(bank, init, answers);
      assert entries == earlier + [ResultFor(bank, id, answers)];
      assert entries[..n] == earlier;
      if id !in answers {
        StatusOfMeaning(QuestionById(bank, id).value.answer, None);
      }
    }
  }

  /** With nothing stored, as right after `start_test`, every question is unanswered. */
  lemma {:induction false} NothingStoredScoresZero(bank: seq<QuestionRecord>, ids: seq<nat>)
    requires Gradable(bank, ids, map[])
    ensures |ResultEntries(bank, ids, map[])| == |ids|
    ensures CountCorrect(ResultEntries(bank, ids, map[])) == 0
    ensures forall k :: 0 <= k < |ids| ==> ResultEntries(bank, ids, map[])[k].status == Unanswered
  {
    ScoreAtMostAnswered(bank, ids, map[]);
    CountAnsweredNone(ids);
  }

  lemma {:induction false} CountAnsweredNone(ids: seq<nat>)
    ensures CountAnswered(ids, map[]) == 0
  {
    if ids != [] {
      CountAnsweredNone(ids[..|ids| - 1]);
    }
  }

  /** A key of `0` in the answer file gives index `-1`, which shows the last option. */
  lemma ZeroKeyShowsLastOption(q: QuestionRecord)
    requires q.answer == [-1] && q.options != []
    ensures ResultOf(q, None).correctAnswers == [q.options[|q.options| - 1]]
  {
    assert InRange(q.options, q.answer);
    assert Sort(q.answer) == [-1];
  }

  // ---------------------------------------------------------------------
  // The session
  // ---------------------------------------------------------------------

  /** The pages `results` can answer with. */
  datatype ResultsPage = RedirectToIndex | Report(score: nat, total: nat, entries: seq<ResultEntry>)

  /**
   * The server with one browser's session: `questionIds` and `answers` are
   * the session keys `question_ids` and `answers`, `None` when absent. The
   * answers are keyed by question number; the cookie turns those keys into
   * strings and `results` looks them up by `str(id)`, which names the same
   * question.
   */
  class Server {
    const bank: seq<QuestionRecord>
    var questionIds: Option<seq<nat>>
    var answers: Option<map<nat, seq<int>>>

    /**
     * What the handlers keep true of the session: answers exist only once a
     * test has started, only for its questions, and never as an empty list.
     */
    ghost predicate Valid()
      reads this
    {
      answers.Some? ==>
        questionIds.Some? &&
        forall id :: id in answers.value ==> id in questionIds.value && answers.value[id] != []
    }

    /**
     * The server after loading the bank, with an empty session. Loading
     * prints the bank's first question, which fails on an empty bank, so the
     * server only starts with at least one question.
     */
    constructor (bank: seq<QuestionRecord>)
      requires bank != []
      ensures this.bank == bank && questionIds == None && answers == None
      ensures Valid()
    {
      this.bank := bank;
      questionIds := None;
      answers := None;
    }

    /** `index`: clears the session. */
    method Index()
      modifies this
      ensures questionIds == None && answers == None
      ensures Valid()
    {
      questionIds := None;
      answers := None;
    }

    /** `start_test`: stores the drawn questions and no answers. */
    method StartTest(draw: seq<nat>)
      requires IsDraw(draw, |bank|)
      modifies this
      ensures questionIds == Some(SampleIds(bank, draw)) && answers == Some(map[])
      ensures Valid()
    {
      questionIds := Some(SampleIds(bank, draw));
      answers := Some(map[]);
    }

    /**
     * `test_page`: `None` (a redirect to the start page) when no test has
     * started; otherwise the looked-up questions in session order.
     */
    method TestPage() returns (page: Option<seq<Option<QuestionRecord>>>)
      ensures page.None? <==> questionIds.None?
      ensures page.Some? ==>
                |page.value| == |questionIds.value| &&
                forall k :: 0 <= k < |page.value| ==> page.value[k] == QuestionById(bank, questionIds.value[k])
    {
      if questionIds.None? {
        return None;
      }
      var ids := questionIds.value;
      page := Some(seq(|ids|, k requires 0 <= k < |ids| => QuestionById(bank, ids[k])));
    }

    /** `submit`: replaces the stored answers with what the form records. */
    method Submit(form: Form)
      requires questionIds.Some?
      modifies this
      ensures questionIds == old(questionIds)
      ensures answers == Some(Submitted(questionIds.value, form))
      ensures Valid()
    {
      var ids := questionIds.value;
      var userAnswers: map<nat, seq<int>> := map[];
      for i := 0 to |ids|
        invariant unchanged(this)
        invariant userAnswers == Submitted(ids[..i], form)
      {
        var id := ids[i];
        var key := FormKey(id);
        AssignPrefixStep(RecordOf(form), ids, i);
        assert RecordOf(form)(id) == Recorded(form, id);
        if key in form {
          var values := form[key];
          if values != [] {
            var converted := ConvertAll(values);
            if converted.Some? {
              userAnswers := userAnswers[id := converted.value];
            }
          }
        }
      }
      assert ids[..|ids|] == ids;
      forall id | id in userAnswers ensures id in ids && userAnswers[id] != [] {
        SubmittedMeaning(ids, form, id);
      }
      answers := Some(userAnswers);
    }

    /**
     * `results`: a redirect when either session key is missing; otherwise
     * the entries of the session's questions in order, the number graded
     * correct, and the number of questions.
     */
    method Results() returns (page: ResultsPage)
      requires questionIds.Some? && answers.Some? ==> Gradable(bank, questionIds.value, answers.value)
      ensures questionIds.None? || answers.None? ==> page == RedirectToIndex
      ensures questionIds.Some? && answers.Some? ==>
                page == Report(CountCorrect(ResultEntries(bank, questionIds.value, answers.value)),
                               |questionIds.value|,
                               ResultEntries(bank, questionIds.value, answers.value))
    {
      if questionIds.None? || answers.None? {
        return RedirectToIndex;
      }
      var ids, stored := questionIds.value, answers.value;
      var score := 0;
      var entries := [];
      for i := 0 to |ids|
        invariant Gradable(bank, ids[..i], stored)
        invariant entries == ResultEntries(bank, ids[..i], stored)
        invariant score == CountCorrect(entries)
      {
        ResultStep(bank, ids, stored, i);
        var entry := ResultOf(QuestionById(bank, ids[i]).value, Lookup(stored, ids[i]));
        if entry.status == Correct {
          score := score + 1;
        }
        entries := entries + [entry];
      }
      assert ids[..|ids|] == ids;
      page := Report(score, |ids|, entries);
    }
  }

  /** One more session question adds its entry to the results. */
  lemma ResultStep(bank: seq<QuestionRecord>, ids: seq<nat>, answers: map<nat, seq<int>>, i: nat)
    requires i < |ids| && Gradable(bank, ids, answers)
    ensures Gradable(bank, ids[..i], answers) && Gradable(bank, ids[..i + 1], answers)
    ensures GradableId(bank, ids[i], answers)
    ensures ResultEntries(bank, ids[..i + 1], answers) ==
              ResultEntries(bank, ids[..i], answers) + [ResultFor(bank, ids[i], answers)]
  {
    assert ids[..i + 1][..i] == ids[..i];
  }
}
