/** app/admin/results/page.tsx: the admin's final results page, its CSV
    export of the leaderboard, the group labels and rank medals, and the
    per-question accuracy it derives from GET /api/stats/answers. */
module AdminResults {
  import opened Db
  import Upload
  import Sorting
  import ParticipantResults
  import AnswerStats
  import Queries

  // ---------------------------------------------------------------------
  // Joining and splitting text

  /** `xs.join(sep)`. */
  function Join(xs: seq<string>, sep: char): (r: string)
    ensures |xs| == 1 ==> r == xs[0]
    ensures |xs| >= 2 ==> sep in r
  {
    if xs == [] then "" else if |xs| == 1 then xs[0] else xs[0] + [sep] + Join(xs[1..], sep)
  }

  /** `s.split(sep)`: the pieces between separators; the empty text is one
      empty piece. */
  function Split(s: string, sep: char): (r: seq<string>)
    ensures |r| >= 1
  {
    if s == [] then [""]
    else
      var rest := Split(s[1..], sep);
      if s[0] == sep then [""] + rest else [[s[0]] + rest[0]] + rest[1..]
  }

  lemma {:induction false} SplitPrefix(x: string, t: string, sep: char)
    requires sep !in x
    ensures Split(x + t, sep) == [x + Split(t, sep)[0]] + Split(t, sep)[1..]
  {
    if x == [] {
      assert x + t == t;
      assert x + Split(t, sep)[0] == Split(t, sep)[0];
      assert Split(t, sep) == [Split(t, sep)[0]] + Split(t, sep)[1..];
    } else {
      assert (x + t)[1..] == x[1..] + t;
      SplitPrefix(x[1..], t, sep);
      assert [x[0]] + (x[1..] + Split(t, sep)[0]) == x + Split(t, sep)[0];
    }
  }

  /** Splitting what was joined gives the pieces back when none of them
      holds the separator. */
  lemma {:induction false} SplitJoin(xs: seq<string>, sep: char)
    requires xs != [] && forall i :: 0 <= i < |xs| ==> sep !in xs[i]
    ensures Split(Join(xs, sep), sep) == xs
  {
    if |xs| == 1 {
      SplitPrefix(xs[0], [], sep);
      assert xs[0] + [] == xs[0];
    } else {
      var t := [sep] + Join(xs[1..], sep);
      assert Join(xs, sep) == xs[0] + t;
      SplitJoin(xs[1..], sep);
      assert t[1..] == Join(xs[1..], sep);
      SplitPrefix(xs[0], t, sep);
      assert xs[0] + "" == xs[0];
      assert xs == [xs[0]] + xs[1..];
    }
  }

  function Occurrences(s: string, c: char): nat
  {
    if s == [] then 0 else (if s[0] == c then 1 else 0) + Occurrences(s[1..], c)
  }

  lemma {:induction false} OccurrencesConcat(a: string, b: string, c: char)
    ensures Occurrences(a + b, c) == Occurrences(a, c) + Occurrences(b, c)
  {
    if a == [] {
      assert a + b == b;
    } else {
      assert (a + b)[1..] == a[1..] + b;
      OccurrencesConcat(a[1..], b, c);
    }
  }

  lemma {:induction false} ContainsOccurs(s: string, c: char)
    requires c in s
    ensures Occurrences(s, c) >= 1
  {
    if s[0] != c {
      ContainsOccurs(s[1..], c);
    }
  }

  /** One piece per separator, plus one. */
  lemma {:induction false} SplitCount(s: string, sep: char)
    ensures |Split(s, sep)| == Occurrences(s, sep) + 1
  {
    if s != [] {
      SplitCount(s[1..], sep);
    }
  }

  /** A joined text holds at least one separator between each two pieces,
      and every separator inside piece k besides. */
  lemma {:induction false} JoinOccurrences(xs: seq<string>, sep: char, k: nat)
    requires k < |xs|
    ensures Occurrences(Join(xs, sep), sep) >= |xs| - 1 + Occurrences(xs[k], sep)
  {
    if |xs| > 1 {
      var rest := Join(xs[1..], sep);
      OccurrencesConcat(xs[0] + [sep], rest, sep);
      OccurrencesConcat(xs[0], [sep], sep);
      assert Occurrences([sep], sep) == 1 by {
        assert [sep][1..] == [];
      }
      if k > 0 {
        JoinOccurrences(xs[1..], sep, k - 1);
      } else {
        JoinOccurrences(xs[1..], sep, 0);
      }
    }
  }

  lemma {:induction false} JoinAvoids(xs: seq<string>, sep: char, c: char)
    requires c != sep && forall i :: 0 <= i < |xs| ==> c !in xs[i]
    ensures c !in Join(xs, sep)
  {
    if |xs| > 1 {
      JoinAvoids(xs[1..], sep, c);
    }
  }

  // ---------------------------------------------------------------------
  // Cells

  /** `String(n)` for an integer. */
  function IntString(n: int): (r: string)
    ensures forall i :: 0 <= i < |r| ==> r[i] == '-' || '0' <= r[i] <= '9'
  {
    if n < 0 then "-" + Upload.Decimal(-n) else Upload.Decimal(n)
  }

  /** `Array.prototype.join` prints undefined and null as nothing. */
  function Cell(v: Option<string>): (r: string)
    ensures r == "" <==> v.None? || v.value == ""
  {
    if v.Some? then v.value else ""
  }

  /** `labels[groupType] || groupType`. */
  const Labels: map<string, string> := map[
    "bride" := "新婦側", "groom" := "新郎側",
    "bride_friend" := "新婦友人", "bride_family" := "新婦親族",
    "groom_friend" := "新郎友人", "groom_family" := "新郎親族"]

  function GroupLabel(groupType: string): (r: string)
    ensures groupType in Labels ==> r == Labels[groupType] && r != ""
    ensures groupType !in Labels ==> r == groupType
  {
    if groupType in Labels && Labels[groupType] != "" then Labels[groupType] else groupType
  }

  /** Each of the six groups has its own label. */
  lemma LabelsDistinct(a: string, b: string)
    requires a in Labels && b in Labels && a != b
    ensures GroupLabel(a) != GroupLabel(b)
  {
  }

  /** `getRankEmoji`. */
  function RankEmoji(rank: int): (r: string)
    ensures r != "" <==> 1 <= rank <= 3
  {
    if rank == 1 then "🥇" else if rank == 2 then "🥈" else if rank == 3 then "🥉" else ""
  }

  // ---------------------------------------------------------------------
  // The CSV export

  const Headers: seq<string> := ["順位", "名前", "ニックネーム", "グループ", "得点", "正解数", "総問題数"]

  /** The byte order mark the download starts with. */
  const Bom: char := '\U{FEFF}'

  /** The keys of a leaderboard entry as GET /api/stats/leaderboard sends it,
      printed as text; any other key reads as undefined. */
  function EntryField(e: LeaderboardEntry, key: string): (v: Option<string>)
    ensures key !in {"user_id", "name", "nickname", "group_type", "total_score", "correct_count"} ==> v.None?
  {
    if key == "user_id" then Some(IntString(e.user_id))
    else if key == "name" then Some(e.name)
    else if key == "nickname" then (if e.nickname.Some? then e.nickname else None)
    else if key == "group_type" then Some(e.group_type)
    else if key == "total_score" then Some(IntString(e.total_score))
    else if key == "correct_count" then Some(IntString(e.correct_count))
    else None
  }

  /** The row as the page builds it: rank, user_name and total_questions are
      read from the entry, which has none of them. */
  function RowAsWritten(e: LeaderboardEntry): (r: seq<string>)
    ensures |r| == |Headers|
    ensures forall rank: nat, totalQuestions: nat :: r[2..6] == Row(e, rank, totalQuestions)[2..6]
  {
    [Cell(EntryField(e, "rank")), Cell(EntryField(e, "user_name")), Cell(if Falsy(e.nickname) then None else e.nickname),
     GroupLabel(e.group_type), IntString(e.total_score), IntString(e.correct_count),
     Cell(EntryField(e, "total_questions"))]
  }

  /** Every exported row has an empty rank, name and question-count column. */
  lemma AsWrittenRowLosesColumns(e: LeaderboardEntry)
    ensures var row := RowAsWritten(e);
      |row| == 7 && row[0] == "" && row[1] == "" && row[6] == "" &&
      Join(row, ',') == ",," + Join(row[2..], ',')
  {
    var row := RowAsWritten(e);
    assert Join(row, ',') == "" + [','] + Join(row[1..], ',');
    assert Join(row[1..], ',') == "" + [','] + Join(row[2..], ',');
  }

  /** The row with the columns the headers name: the position in the
      leaderboard as rank, the entry's name, and the quiz's question count. */
  function Row(e: LeaderboardEntry, rank: nat, totalQuestions: nat): (row: seq<string>)
    ensures |row| == |Headers|
    ensures row[0] == IntString(rank) && row[1] == e.name && row[3] == GroupLabel(e.group_type)
    ensures row[2] == (if Falsy(e.nickname) then "" else e.nickname.value)
    ensures row[4] == IntString(e.total_score) && row[5] == IntString(e.correct_count)
    ensures row[6] == IntString(totalQuestions)
  {
    [IntString(rank), e.name, Cell(if Falsy(e.nickname) then None else e.nickname), GroupLabel(e.group_type),
     IntString(e.total_score), IntString(e.correct_count), IntString(totalQuestions)]
  }

  function Lines(entries: seq<LeaderboardEntry>, totalQuestions: nat): (r: seq<string>)
    ensures |r| == |entries|
    ensures forall i :: 0 <= i < |entries| ==> r[i] == Join(Row(entries[i], i + 1, totalQuestions), ',')
  {
    seq(|entries|, i requires 0 <= i < |entries| => Join(Row(entries[i], i + 1, totalQuestions), ','))
  }

  /** The header line, then one line per entry in leaderboard order. */
  function Csv(entries: seq<LeaderboardEntry>, totalQuestions: nat): (r: string)
    ensures entries == [] ==> r == Join(Headers, ',')
    ensures entries != [] ==> '\n' in r
  {
    Join([Join(Headers, ',')] + Lines(entries, totalQuestions), '\n')
  }

  /** The downloaded content. */
  function Download(csv: string): (r: string)
    ensures |r| == |csv| + 1 && r[0] == Bom && r[1..] == csv
  {
    [Bom] + csv
  }

  /** The text fields of an entry hold no character c. */
  predicate Avoids(e: LeaderboardEntry, c: char)
  {
    c !in e.name && c !in GroupLabel(e.group_type) && (e.nickname.Some? ==> c !in e.nickname.value)
  }

  lemma RowAvoids(e: LeaderboardEntry, rank: nat, totalQuestions: nat, c: char)
    requires Avoids(e, c) && c != '-' && !('0' <= c <= '9')
    ensures forall i :: 0 <= i < 7 ==> c !in Row(e, rank, totalQuestions)[i]
  {
    var row := Row(e, rank, totalQuestions);
    assert c !in row[0] && c !in row[4] && c !in row[5] && c !in row[6];
  }

  lemma HeadersAvoid(c: char)
    requires c == ',' || c == '\n'
    ensures forall i :: 0 <= i < |Headers| ==> c !in Headers[i]
  {
  }

  /** The export reads back: split at line breaks it is the header line and
      one line per entry, and each entry's line splits at commas into its
      seven cells; this needs names, nicknames and labels free of commas and
      line breaks. */
  lemma CsvRoundTrip(entries: seq<LeaderboardEntry>, totalQuestions: nat)
    requires forall e :: e in entries ==> Avoids(e, ',') && Avoids(e, '\n')
    ensures var lines := Split(Csv(entries, totalQuestions), '\n');
      |lines| == |entries| + 1 &&
      Split(lines[0], ',') == Headers &&
      forall i :: 0 <= i < |entries| ==>
        Split(lines[i + 1], ',') == Row(entries[i], i + 1, totalQuestions)
  {
    var ls := Lines(entries, totalQuestions);
    var all := [Join(Headers, ',')] + ls;
    HeadersAvoid(',');
    HeadersAvoid('\n');
    JoinAvoids(Headers, ',', '\n');
    forall i | 0 <= i < |entries|
      ensures '\n' !in ls[i] && Split(ls[i], ',') == Row(entries[i], i + 1, totalQuestions)
    {
      assert entries[i] in entries;
      RowAvoids(entries[i], i + 1, totalQuestions, ',');
      RowAvoids(entries[i], i + 1, totalQuestions, '\n');
      JoinAvoids(Row(entries[i], i + 1, totalQuestions), ',', '\n');
      SplitJoin(Row(entries[i], i + 1, totalQuestions), ',');
    }
    forall i | 0 <= i < |all|
      ensures '\n' !in all[i]
    {
      if i > 0 {
        assert all[i] == ls[i - 1];
      }
    }
    SplitJoin(all, '\n');
    SplitJoin(Headers, ',');
  }

  /** There is no quoting: a comma in a nickname splits its line into more
      cells than there are headers. */
  lemma CommaShiftsColumns(e: LeaderboardEntry, rank: nat, totalQuestions: nat)
    requires e.nickname.Some? && ',' in e.nickname.value
    ensures |Split(Join(Row(e, rank, totalQuestions), ','), ',')| > |Headers|
  {
    var row := Row(e, rank, totalQuestions);
    ContainsOccurs(row[2], ',');
    JoinOccurrences(row, ',', 2);
    SplitCount(Join(row, ','), ',');
  }

  // ---------------------------------------------------------------------
  // Per-question accuracy

  datatype QuestionResult = QuestionResult(
    question_number: int,
    question_text: string,
    correct_count: nat,
    total_answers: nat,
    accuracy_rate: int)

  function ResultNumber(r: QuestionResult): int
  {
    r.question_number
  }

  /** The numeric keys of the stats body; any other key reads as undefined. */
  function NumberField(b: Body, key: string): (v: Option<nat>)
    ensures key != "total" ==> v.None?
  {
    if b.ChoiceStats? && key == "total" then Some(b.total) else None
  }

  function OrZero(v: Option<nat>): nat
  {
    if v.Some? then v.value else 0
  }

  /** One question's line as the page computes it, from the keys
      `correct_count` and `total_count`. */
  function ResultAsWritten(q: Question, b: Body): (r: QuestionResult)
    ensures r.question_number == q.question_number && r.question_text == q.question_text
    ensures r.correct_count == 0 && r.total_answers == 0 && r.accuracy_rate == 0
  {
    var correct := NumberField(b, "correct_count");
    var total := NumberField(b, "total_count");
    QuestionResult(q.question_number, q.question_text, OrZero(correct), OrZero(total),
      if OrZero(total) > 0 then ParticipantResults.RoundPercent(OrZero(correct), OrZero(total)) else 0)
  }

  /** Whether the question has a correct choice with this id. */
  predicate CorrectId(choices: seq<Choice>, id: Id)
  {
    exists c :: c in choices && c.id == id && c.is_correct
  }

  /** The answers that picked one of the question's correct choices. */
  function CorrectPicks(stats: seq<ChoiceStat>, choices: seq<Choice>): (n: nat)
    ensures n <= AnswerStats.SumCounts(stats)
  {
    if stats == [] then 0
    else (if CorrectId(choices, stats[0].choice_id) then stats[0].count else 0) + CorrectPicks(stats[1..], choices)
  }

  /** The intended count: the answers whose choice_id names one of the
      question's correct choices. */
  function CorrectAnswerCount(answers: seq<Answer>, choices: seq<Choice>): (n: nat)
    ensures n <= |answers|
  {
    if answers == [] then 0
    else
      var k := |answers| - 1;
      var a := answers[k];
      CorrectAnswerCount(answers[..k], choices) + (if a.choice_id.Some? && CorrectId(choices, a.choice_id.value) then 1 else 0)
  }

  /** One more answer adds, to the correct picks over any run of choices,
      the number of them it picked when its choice is a correct one. */
  lemma {:induction false} CorrectPicksStep(run: seq<Choice>, choices: seq<Choice>, answers: seq<Answer>, a: Answer)
    ensures CorrectPicks(AnswerStats.Stats(run, answers + [a]), choices) ==
      CorrectPicks(AnswerStats.Stats(run, answers), choices) +
      (if a.choice_id.Some? && CorrectId(choices, a.choice_id.value) then AnswerStats.Matches(run, a.choice_id) else 0)
  {
    assert (answers + [a])[..|answers|] == answers;
    if run != [] {
      CorrectPicksStep(run[1..], choices, answers, a);
      assert AnswerStats.Stats(run, answers + [a])[1..] == AnswerStats.Stats(run[1..], answers + [a]);
      assert AnswerStats.Stats(run, answers)[1..] == AnswerStats.Stats(run[1..], answers);
    }
  }

  lemma {:induction false} CorrectPicksNone(run: seq<Choice>, choices: seq<Choice>)
    ensures CorrectPicks(AnswerStats.Stats(run, []), choices) == 0
  {
    if run != [] {
      CorrectPicksNone(run[1..], choices);
      assert AnswerStats.Stats(run, [])[1..] == AnswerStats.Stats(run[1..], []);
    }
  }

  /** A stored choice's id matches at least that choice. */
  lemma {:induction false} MatchesMember(choices: seq<Choice>, c: Choice)
    requires c in choices
    ensures AnswerStats.Matches(choices, Some(c.id)) >= 1
  {
    if choices[0] != c {
      MatchesMember(choices[1..], c);
    }
  }

  /** Under distinct choice ids, the correct picks the stats body yields are
      exactly the answers on a correct choice. */
  lemma {:induction false} CorrectPicksCountCorrectAnswers(choices: seq<Choice>, answers: seq<Answer>)
    requires Queries.DistinctChoiceIds(choices)
    ensures CorrectPicks(AnswerStats.Stats(choices, answers), choices) == CorrectAnswerCount(answers, choices)
  {
    if answers == [] {
      CorrectPicksNone(choices, choices);
    } else {
      var k := |answers| - 1;
      var a := answers[k];
      assert answers == answers[..k] + [a];
      CorrectPicksCountCorrectAnswers(choices, answers[..k]);
      CorrectPicksStep(choices, choices, answers[..k], a);
      if a.choice_id.Some? && CorrectId(choices, a.choice_id.value) {
        var c :| c in choices && c.id == a.choice_id.value && c.is_correct;
        MatchesMember(choices, c);
        AnswerStats.AtMostOneMatch(choices, a.choice_id);
      }
    }
  }

  /** One question's line from the body the endpoint does return: the
      answers on correct choices out of all the question's answers. */
  function Result(q: QuestionWithChoices, b: Body): (r: QuestionResult)
    ensures r.question_number == q.question.question_number && r.question_text == q.question.question_text
    ensures !b.ChoiceStats? ==> r.correct_count == 0 && r.total_answers == 0 && r.accuracy_rate == 0
    ensures b.ChoiceStats? ==> r.total_answers == b.total && r.correct_count <= AnswerStats.SumCounts(b.stats)
    ensures b.ChoiceStats? && b.total == 0 ==> r.accuracy_rate == 0
  {
    if b.ChoiceStats? then
      var correct := CorrectPicks(b.stats, q.choices);
      QuestionResult(q.question.question_number, q.question.question_text, correct, b.total,
                     ParticipantResults.RoundPercent(correct, b.total))
    else QuestionResult(q.question.question_number, q.question.question_text, 0, 0, 0)
  }

  /** The question table: one line per question, by question_number ascending. */
  function ResultsAsWritten(questions: seq<QuestionWithChoices>, fetched: Id -> Body): (r: seq<QuestionResult>)
    ensures |r| == |questions|
    ensures Sorting.SortedBy(r, ResultNumber)
    ensures multiset(r) == multiset(seq(|questions|, i requires 0 <= i < |questions| =>
      ResultAsWritten(questions[i].question, fetched(questions[i].question.id))))
  {
    var unsorted := seq(|questions|, i requires 0 <= i < |questions| =>
      ResultAsWritten(questions[i].question, fetched(questions[i].question.id)));
    Sorting.SortBy(unsorted, ResultNumber)
  }

  function Results(questions: seq<QuestionWithChoices>, fetched: Id -> Body): (r: seq<QuestionResult>)
    ensures |r| == |questions|
    ensures Sorting.SortedBy(r, ResultNumber)
    ensures multiset(r) == multiset(seq(|questions|, i requires 0 <= i < |questions| =>
      Result(questions[i], fetched(questions[i].question.id))))
  {
    var unsorted := seq(|questions|, i requires 0 <= i < |questions| =>
      Result(questions[i], fetched(questions[i].question.id)));
    Sorting.SortBy(unsorted, ResultNumber)
  }

  /** As written, every question shows 0 correct of 0 answers and 0%,
      whatever was answered: the stats body has neither key. */
  lemma AccuracyAlwaysZero(questions: seq<QuestionWithChoices>, fetched: Id -> Body)
    ensures forall r :: r in ResultsAsWritten(questions, fetched) ==>
      r.correct_count == 0 && r.total_answers == 0 && r.accuracy_rate == 0
  {
    var rs := ResultsAsWritten(questions, fetched);
    var unsorted := seq(|questions|, i requires 0 <= i < |questions| =>
      ResultAsWritten(questions[i].question, fetched(questions[i].question.id)));
    forall r | r in rs
      ensures r.correct_count == 0 && r.total_answers == 0 && r.accuracy_rate == 0
    {
      assert r in multiset(rs);
      assert r in multiset(unsorted);
      var i :| 0 <= i < |unsorted| && unsorted[i] == r;
      var q := questions[i].question;
      assert r == ResultAsWritten(q, fetched(q.id));
      assert NumberField(fetched(q.id), "correct_count").None?;
      assert NumberField(fetched(q.id), "total_count").None?;
    }
  }

  /** The stats body for one question with one correct choice, picked by
      its only answer. */
  lemma OneAnswerStats(q: Question, c: Choice, a: Answer)
    requires q.id == 1 && c == Choice(2, 1, "A", true, 1)
    requires a.question_id == 1 && a.choice_id == Some(2)
    ensures AnswerStats.Get(Some(q.id), [a], [c], false, false).body == ChoiceStats([ChoiceStat(2, "A", 1, 100.0)], 1)
  {
    assert Queries.ChoicesOf([c], 1) == [c];
    assert Queries.AnswersTo([a], 1) == [a];
    assert AnswerStats.Picked([a], 2) == 1;
    var s := AnswerStats.Stats([c], [a]);
    assert s[0] == ChoiceStat(2, "A", 1, 100.0);
    assert s == [ChoiceStat(2, "A", 1, 100.0)];
  }

  /** One participant answers the one question with its correct choice:
      the page shows 0%, the corrected line 100%. */
  lemma OneCorrectAnswerShowsZero()
    ensures var q := Question(1, 1, "Q", MultipleChoice, None, 30, 10, None, None);
      var c := Choice(2, 1, "A", true, 1);
      var a := Answer(3, Some(7), 1, Some(2), None, true, Some(10), 0);
      var b := AnswerStats.Get(Some(1), [a], [c], false, false).body;
      ResultAsWritten(q, b).accuracy_rate == 0 &&
      Result(QuestionWithChoices(q, [c]), b).accuracy_rate == 100
  {
    var q := Question(1, 1, "Q", MultipleChoice, None, 30, 10, None, None);
    var c := Choice(2, 1, "A", true, 1);
    var a := Answer(3, Some(7), 1, Some(2), None, true, Some(10), 0);
    OneAnswerStats(q, c, a);
    var stats := [ChoiceStat(2, "A", 1, 100.0)];
    var b := AnswerStats.Get(Some(1), [a], [c], false, false).body;
    assert b == ChoiceStats(stats, 1);
    assert CorrectId([c], 2);
    assert stats[1..] == [];
    assert CorrectPicks(stats, [c]) == 1;
  }

  /** With the stats the endpoint returns for a question, the corrected line
      counts all of the question's answers, as correct exactly those on one
      of its correct choices, and their share as a percentage between 0 and 100. */
  lemma CorrectedAccuracyIsShare(q: QuestionWithChoices, answers: seq<Answer>, choices: seq<Choice>)
    requires q.choices == Queries.ChoicesOf(choices, q.question.id)
    requires Queries.DistinctChoiceIds(q.choices)
    ensures var b := AnswerStats.Get(Some(q.question.id), answers, choices, false, false).body;
      var r := Result(q, b);
      r.total_answers == |Queries.AnswersTo(answers, q.question.id)| &&
      r.correct_count == CorrectAnswerCount(Queries.AnswersTo(answers, q.question.id), q.choices) &&
      r.correct_count <= r.total_answers &&
      0 <= r.accuracy_rate <= 100 &&
      r.accuracy_rate == ParticipantResults.RoundPercent(r.correct_count, r.total_answers)
  {
    var mine := Queries.AnswersTo(answers, q.question.id);
    AnswerStats.CountsWithinTotal(q.choices, mine);
    CorrectPicksCountCorrectAnswers(q.choices, mine);
    var b := AnswerStats.Get(Some(q.question.id), answers, choices, false, false).body;
    var r := Result(q, b);
    ParticipantResults.PercentBounds(r.correct_count, r.total_answers);
  }
}
