/**
 * The pure part of the quiz-state hook: answer records, the correctness check, the
 * append-or-replace update of `recordAnswer`, the lookups and the derived statistics.
 */
module QuizAnswers {
  import opened Wrappers
  import Scoring

  /** One record per question the user has reviewed (`UserAnswer`). Option ids, not positions. */
  datatype UserAnswer = UserAnswer(questionNumber: int, selectedAnswers: seq<int>, isCorrect: bool, answered: bool)

  /** What is persisted for one topic (`QuizState`). */
  datatype QuizState = QuizState(userAnswers: seq<UserAnswer>, totalQuestions: int)

  /** The state of a topic that has never been answered, and the fallback of every failed load. */
  const EmptyState: QuizState := QuizState([], 0)

  /** The statistics object returned by `getQuizStats`. */
  datatype QuizStats = QuizStats(
    totalQuestions: int,
    correctAnswers: nat,
    incorrectAnswers: nat,
    unanswered: int,
    answeredQuestions: nat,
    percentage: int)

  /** The ids occurring in a list, as a set. */
  function Elements(s: seq<int>): set<int> {
    set x | x in s
  }

  predicate Distinct(s: seq<int>) {
    forall i, j :: 0 <= i < j < |s| ==> s[i] != s[j]
  }

  // ---------------------------------------------------------------- correctness

  /** `selected.every(answer => correct.includes(answer))` */
  function EveryIncluded(selected: seq<int>, correct: seq<int>): (r: bool)
    ensures r <==> forall i :: 0 <= i < |selected| ==> selected[i] in correct
  {
    if selected == [] then true
    else selected[0] in correct && EveryIncluded(selected[1..], correct)
  }

  /**
   * The correctness check of `recordAnswer`: same number of ids, and every selected id is
   * one of the correct ids. This is not set equality when the lists hold duplicates
   * (see `DuplicatesDepartFromSetEquality`).
   */
  function IsCorrect(selected: seq<int>, correct: seq<int>): (r: bool)
    ensures r <==> |selected| == |correct| && forall i :: 0 <= i < |selected| ==> selected[i] in correct
  {
    |selected| == |correct| && EveryIncluded(selected, correct)
  }

  /** A list without duplicates has as many distinct ids as entries. */
  lemma {:induction false} DistinctCardinality(s: seq<int>)
    requires Distinct(s)
    ensures |Elements(s)| == |s|
  {
    if s != [] {
      DistinctCardinality(s[1..]);
      assert Elements(s) == {s[0]} + Elements(s[1..]);
      assert s[0] !in Elements(s[1..]);
    }
  }

  /** A subset as large as its superset is the whole superset. */
  lemma SubsetOfEqualSize(a: set<int>, b: set<int>)
    requires a <= b && |a| == |b|
    ensures a == b
  {
    assert |b - a| == |b| - |a|;
  }

  /**
   * For duplicate-free lists the check is exactly set equality: input order does not matter
   * and a partial multi-select is incorrect. The question page's selection is duplicate-free;
   * the correct ids come from the quiz data as they are, with nothing checking them.
   */
  lemma IsCorrectIsSetEquality(selected: seq<int>, correct: seq<int>)
    requires Distinct(selected) && Distinct(correct)
    ensures IsCorrect(selected, correct) <==> Elements(selected) == Elements(correct)
  {
    DistinctCardinality(selected);
    DistinctCardinality(correct);
    assert (forall i :: 0 <= i < |selected| ==> selected[i] in correct) <==> Elements(selected) <= Elements(correct) by {
      if Elements(selected) <= Elements(correct) {
        forall i | 0 <= i < |selected| ensures selected[i] in correct {
          assert selected[i] in Elements(selected);
        }
      }
    }
    if IsCorrect(selected, correct) {
      SubsetOfEqualSize(Elements(selected), Elements(correct));
    }
  }

  /** The index form of `every ... includes` is plain list inclusion. */
  lemma IncludedByMembership(selected: seq<int>, correct: seq<int>)
    ensures (forall i :: 0 <= i < |selected| ==> selected[i] in correct)
        <==> (forall x :: x in selected ==> x in correct)
  {
    if forall i :: 0 <= i < |selected| ==> selected[i] in correct {
      forall x | x in selected ensures x in correct {
        var i :| 0 <= i < |selected| && selected[i] == x;
      }
    }
    if forall x :: x in selected ==> x in correct {
      forall i | 0 <= i < |selected| ensures selected[i] in correct {
        assert selected[i] in selected;
      }
    }
  }

  /** Reordering either list never changes the verdict, duplicates or not. */
  lemma IsCorrectIgnoresOrder(selected: seq<int>, selected': seq<int>, correct: seq<int>, correct': seq<int>)
    requires multiset(selected) == multiset(selected') && multiset(correct) == multiset(correct')
    ensures IsCorrect(selected, correct) == IsCorrect(selected', correct')
  {
    assert |selected| == |multiset(selected)| == |selected'|;
    assert |correct| == |multiset(correct)| == |correct'|;
    IncludedByMembership(selected, correct);
    IncludedByMembership(selected', correct');
    assert forall x :: x in selected <==> x in multiset(selected);
    assert forall x :: x in correct <==> x in multiset(correct);
    assert forall x :: x in selected' <==> x in multiset(selected');
    assert forall x :: x in correct' <==> x in multiset(correct');
  }

  /**
   * With duplicates the check departs from set equality in both directions:
   * `[1,1]` against `[1,2]` is accepted, `[1]` against `[1,1]` is rejected.
   * A partial multi-select (`[1]` against `[1,4]`) is rejected.
   */
  lemma DuplicatesDepartFromSetEquality()
    ensures IsCorrect([1, 1], [1, 2]) && Elements([1, 1]) != Elements([1, 2])
    ensures !IsCorrect([1], [1, 1]) && Elements([1]) == Elements([1, 1])
    ensures !IsCorrect([1], [1, 4]) && IsCorrect([4, 1], [1, 4])
  {
    assert 2 in Elements([1, 2]) && 2 !in Elements([1, 1]);
    assert Elements([1]) == {1} == Elements([1, 1]);
  }

  // ---------------------------------------------------------------- lookups

  /** `userAnswers.find(answer => answer.questionNumber === questionNumber)`: the first record with that number. */
  function GetQuestionAnswer(s: seq<UserAnswer>, q: int): (r: Option<UserAnswer>)
    ensures r.None? <==> forall i :: 0 <= i < |s| ==> s[i].questionNumber != q
    ensures r.Some? ==> exists i :: 0 <= i < |s| && s[i] == r.value && s[i].questionNumber == q
                                    && forall j :: 0 <= j < i ==> s[j].questionNumber != q
  {
    if s == [] then None
    else if s[0].questionNumber == q then Some(s[0])
    else
      var r := GetQuestionAnswer(s[1..], q);
      assert r.Some? ==> exists i :: 1 <= i < |s| && s[i] == r.value && s[i].questionNumber == q
                                    && forall j :: 1 <= j < i ==> s[j].questionNumber != q;
      r
  }

  /** `userAnswers.some(answer => answer.questionNumber === questionNumber && answer.answered)` */
  function IsQuestionAnswered(s: seq<UserAnswer>, q: int): (r: bool)
    ensures r <==> exists i :: 0 <= i < |s| && s[i].questionNumber == q && s[i].answered
  {
    if s == [] then false
    else (s[0].questionNumber == q && s[0].answered) || IsQuestionAnswered(s[1..], q)
  }

  /** The first record whose number is `q` sits at index `i`. */
  lemma FirstWithNumber(s: seq<UserAnswer>, q: int, i: int)
    requires 0 <= i < |s| && s[i].questionNumber == q
    requires forall j :: 0 <= j < i ==> s[j].questionNumber != q
    ensures GetQuestionAnswer(s, q) == Some(s[i])
  {
    var r := GetQuestionAnswer(s, q);
    var k :| 0 <= k < |s| && s[k] == r.value && s[k].questionNumber == q
             && forall j :: 0 <= j < k ==> s[j].questionNumber != q;
    assert !(k < i) && !(i < k);
  }

  /** Question numbers are unique in the list (the hook keeps them so; see `RecordedKeepsUnique`). */
  predicate UniqueNumbers(s: seq<UserAnswer>) {
    forall i, j :: 0 <= i < j < |s| ==> s[i].questionNumber != s[j].questionNumber
  }

  /** With unique numbers, "answered" per `some` agrees with the record `find` returns. */
  lemma AnsweredAgreesWithLookup(s: seq<UserAnswer>, q: int)
    requires UniqueNumbers(s)
    ensures IsQuestionAnswered(s, q) <==> GetQuestionAnswer(s, q).Some? && GetQuestionAnswer(s, q).value.answered
  {
    if IsQuestionAnswered(s, q) {
      var i :| 0 <= i < |s| && s[i].questionNumber == q && s[i].answered;
      FirstWithNumber(s, q, i);
    }
  }

  // ---------------------------------------------------------------- recording

  /** `{ ...answer, selectedAnswers, isCorrect, answered: true }` */
  function Overwrite(a: UserAnswer, selected: seq<int>, ok: bool): (b: UserAnswer)
    ensures b == UserAnswer(a.questionNumber, selected, ok, true)
  {
    a.(selectedAnswers := selected, isCorrect := ok, answered := true)
  }

  /** The `prev.map(...)` branch: every record numbered `q` is overwritten, the rest kept, in place. */
  function ReplaceNumbered(s: seq<UserAnswer>, q: int, selected: seq<int>, ok: bool): (r: seq<UserAnswer>)
    ensures |r| == |s|
    ensures forall i :: 0 <= i < |s| ==> r[i] == if s[i].questionNumber == q then UserAnswer(q, selected, ok, true) else s[i]
  {
    if s == [] then []
    else [if s[0].questionNumber == q then Overwrite(s[0], selected, ok) else s[0]]
         + ReplaceNumbered(s[1..], q, selected, ok)
  }

  /**
   * The updater `recordAnswer` hands to `setUserAnswers`: replace in place when a record with
   * that number exists, otherwise append one new record at the end.
   */
  function Recorded(prev: seq<UserAnswer>, q: int, selected: seq<int>, correct: seq<int>): (r: seq<UserAnswer>)
    ensures var rec := UserAnswer(q, selected, IsCorrect(selected, correct), true);
      && ((exists i :: 0 <= i < |prev| && prev[i].questionNumber == q) ==>
            |r| == |prev| &&
            forall i :: 0 <= i < |prev| ==> r[i] == if prev[i].questionNumber == q then rec else prev[i])
      && ((forall i :: 0 <= i < |prev| ==> prev[i].questionNumber != q) ==> r == prev + [rec])
  {
    var ok := IsCorrect(selected, correct);
    var existing := GetQuestionAnswer(prev, q);
    if existing.Some? then ReplaceNumbered(prev, q, selected, ok)
    else prev + [UserAnswer(q, selected, ok, true)]
  }

  /** Recording never introduces a second record for a number. */
  lemma RecordedKeepsUnique(prev: seq<UserAnswer>, q: int, selected: seq<int>, correct: seq<int>)
    requires UniqueNumbers(prev)
    ensures UniqueNumbers(Recorded(prev, q, selected, correct))
  {
    var r := Recorded(prev, q, selected, correct);
    if exists i :: 0 <= i < |prev| && prev[i].questionNumber == q {
      assert forall i :: 0 <= i < |r| ==> r[i].questionNumber == prev[i].questionNumber;
    } else {
      assert forall i :: 0 <= i < |prev| ==> r[i] == prev[i];
    }
  }

  /** Right after recording, the lookup returns the new record, whatever the list held before. */
  lemma RecordedThenLookup(prev: seq<UserAnswer>, q: int, selected: seq<int>, correct: seq<int>)
    ensures GetQuestionAnswer(Recorded(prev, q, selected, correct), q)
         == Some(UserAnswer(q, selected, IsCorrect(selected, correct), true))
    ensures IsQuestionAnswered(Recorded(prev, q, selected, correct), q)
  {
    var r := Recorded(prev, q, selected, correct);
    var rec := UserAnswer(q, selected, IsCorrect(selected, correct), true);
    if exists i :: 0 <= i < |prev| && prev[i].questionNumber == q {
      var i :| 0 <= i < |prev| && prev[i].questionNumber == q && forall j :: 0 <= j < i ==> prev[j].questionNumber != q
        by {
          var found := GetQuestionAnswer(prev, q);
        }
      FirstWithNumber(r, q, i);
    } else {
      FirstWithNumber(r, q, |prev|);
    }
  }

  /** Recording question `q` leaves the lookup of every other number unchanged. */
  lemma RecordedLeavesOthers(prev: seq<UserAnswer>, q: int, selected: seq<int>, correct: seq<int>, q': int)
    requires q' != q
    ensures GetQuestionAnswer(Recorded(prev, q, selected, correct), q') == GetQuestionAnswer(prev, q')
  {
    var r := Recorded(prev, q, selected, correct);
    assert forall i :: 0 <= i < |prev| && prev[i].questionNumber == q' ==> r[i] == prev[i];
    assert forall i :: 0 <= i < |prev| ==> (r[i].questionNumber == q' <==> prev[i].questionNumber == q');
    var found := GetQuestionAnswer(prev, q');
    if found.Some? {
      var i :| 0 <= i < |prev| && prev[i] == found.value && prev[i].questionNumber == q'
               && forall j :: 0 <= j < i ==> prev[j].questionNumber != q';
      FirstWithNumber(r, q', i);
    } else if !(exists i :: 0 <= i < |prev| && prev[i].questionNumber == q) {
      assert r[|prev|].questionNumber == q;
    }
  }

  // ---------------------------------------------------------------- statistics

  predicate WasAnswered(a: UserAnswer) { a.answered }
  predicate IsRight(a: UserAnswer) { a.isCorrect }
  predicate IsWrong(a: UserAnswer) { !a.isCorrect }
  predicate AnsweredRight(a: UserAnswer) { a.answered && a.isCorrect }

  /**
   * `Array.prototype.filter` over answer records: the kept records, in order. Every record
   * that passes is kept as often as it occurs, and no other record is.
   */
  function Filter(s: seq<UserAnswer>, p: UserAnswer -> bool): (r: seq<UserAnswer>)
    ensures |r| <= |s|
    ensures forall i :: 0 <= i < |r| ==> p(r[i])
    ensures forall i :: 0 <= i < |s| && p(s[i]) ==> s[i] in r
  {
    if s == [] then []
    else (if p(s[0]) then [s[0]] else []) + Filter(s[1..], p)
  }

  /** Each record occurs in the result as often as in the input if it passes, and otherwise not at all. */
  lemma {:induction false} FilterMultiplicity(s: seq<UserAnswer>, p: UserAnswer -> bool, x: UserAnswer)
    ensures multiset(Filter(s, p))[x] == if p(x) then multiset(s)[x] else 0
  {
    if s != [] {
      FilterMultiplicity(s[1..], p, x);
      assert s == [s[0]] + s[1..];
    }
  }

  lemma {:induction false} FilterAppend(a: seq<UserAnswer>, b: seq<UserAnswer>, p: UserAnswer -> bool)
    ensures Filter(a + b, p) == Filter(a, p) + Filter(b, p)
  {
    if a != [] {
      var head := if p(a[0]) then [a[0]] else [];
      assert (a + b)[0] == a[0] && (a + b)[1..] == a[1..] + b;
      calc {
        Filter(a + b, p);
        head + Filter(a[1..] + b, p);
        { FilterAppend(a[1..], b, p); }
        head + (Filter(a[1..], p) + Filter(b, p));
        (head + Filter(a[1..], p)) + Filter(b, p);
        Filter(a, p) + Filter(b, p);
      }
    } else {
      assert a + b == b;
    }
  }

  /** The positions of `s` whose record passes `p`. */
  function Positions(s: seq<UserAnswer>, p: UserAnswer -> bool): set<int> {
    set i | 0 <= i < |s| && p(s[i])
  }

  /** Appending one record adds its position exactly when it passes. */
  lemma PositionsSnoc(init: seq<UserAnswer>, last: UserAnswer, p: UserAnswer -> bool)
    ensures Positions(init + [last], p) == Positions(init, p) + (if p(last) then {|init|} else {})
  {
    var s := init + [last];
    forall i ensures i in Positions(s, p) <==> i in Positions(init, p) || (p(last) && i == |init|) {
      if 0 <= i < |init| {
        assert s[i] == init[i];
      }
    }
  }

  /** The number of records kept is the number of positions whose record passes. */
  lemma {:induction false} FilterCountsPositions(s: seq<UserAnswer>, p: UserAnswer -> bool)
    ensures |Filter(s, p)| == |Positions(s, p)|
  {
    if s == [] {
      assert Positions(s, p) == {};
    } else {
      var init, last := s[..|s| - 1], s[|s| - 1];
      assert s == init + [last];
      FilterCountsPositions(init, p);
      FilterAppend(init, [last], p);
      assert [last][1..] == [];
      PositionsSnoc(init, last, p);
      assert |init| !in Positions(init, p);
    }
  }

  /** Keeping the answered records and then the correct ones keeps the answered correct ones. */
  lemma {:induction false} FilterAnsweredThenRight(s: seq<UserAnswer>)
    ensures Filter(Filter(s, WasAnswered), IsRight) == Filter(s, AnsweredRight)
  {
    if s != [] {
      FilterAnsweredThenRight(s[1..]);
      var head := if s[0].answered then [s[0]] else [];
      assert Filter(s, WasAnswered) == head + Filter(s[1..], WasAnswered);
      FilterAppend(head, Filter(s[1..], WasAnswered), IsRight);
      assert [s[0]][1..] == [];
    }
  }

  /** Every answered record is either correct or incorrect, never both. */
  lemma {:induction false} RightWrongPartition(s: seq<UserAnswer>)
    ensures |Filter(s, IsRight)| + |Filter(s, IsWrong)| == |s|
  {
    if s != [] {
      RightWrongPartition(s[1..]);
    }
  }

  /** The number of answered records, as `getQuizStats` counts it. */
  function AnsweredCount(s: seq<UserAnswer>): (n: nat)
    ensures n == |set i | 0 <= i < |s| && s[i].answered|
  {
    FilterCountsPositions(s, WasAnswered);
    assert Positions(s, WasAnswered) == set i | 0 <= i < |s| && s[i].answered;
    |Filter(s, WasAnswered)|
  }

  /** The number of answered and correct records, as `getQuizStats` counts it. */
  function CorrectCount(s: seq<UserAnswer>): (n: nat)
    ensures n == |set i | 0 <= i < |s| && s[i].answered && s[i].isCorrect|
  {
    FilterAnsweredThenRight(s);
    FilterCountsPositions(s, AnsweredRight);
    assert Positions(s, AnsweredRight) == set i | 0 <= i < |s| && s[i].answered && s[i].isCorrect;
    |Filter(Filter(s, WasAnswered), IsRight)|
  }

  /**
   * `getQuizStats`: answered records are split into correct and incorrect; `unanswered` is
   * `totalQuestions - answeredQuestions` and is not clamped at zero; the score is the shared
   * rounded percentage of correct answers.
   */
  function GetQuizStats(answers: seq<UserAnswer>, totalQuestions: int): (r: QuizStats)
    ensures r.totalQuestions == totalQuestions
    ensures r.answeredQuestions == AnsweredCount(answers) <= |answers|
    ensures r.correctAnswers == CorrectCount(answers)
    ensures r.correctAnswers + r.incorrectAnswers == r.answeredQuestions
    ensures r.unanswered == totalQuestions - r.answeredQuestions
    ensures r.percentage == Scoring.Percentage(r.correctAnswers, totalQuestions)
    ensures totalQuestions <= 0 ==> r.percentage == 0
    ensures 0 <= r.correctAnswers <= totalQuestions ==> 0 <= r.percentage <= 100
  {
    var answered := Filter(answers, WasAnswered);
    var correct := |Filter(answered, IsRight)|;
    var incorrect := |Filter(answered, IsWrong)|;
    RightWrongPartition(answered);
    assert correct <= totalQuestions ==> 0 <= Scoring.Percentage(correct, totalQuestions) <= 100 by {
      if correct <= totalQuestions { Scoring.PercentageInRange(correct, totalQuestions); }
    }
    QuizStats(totalQuestions, correct, incorrect, totalQuestions - |answered|, |answered|,
              Scoring.Percentage(correct, totalQuestions))
  }

  /** `unanswered` goes negative once more records are answered than the known total. */
  lemma UnansweredNotClamped()
    ensures GetQuizStats([UserAnswer(1, [2], true, true)], 0).unanswered == -1
  {
    var s := [UserAnswer(1, [2], true, true)];
    assert Filter(s, WasAnswered) == s;
  }

  /** Both counts add up over a concatenation of record lists. */
  lemma CountsAppend(a: seq<UserAnswer>, b: seq<UserAnswer>)
    ensures AnsweredCount(a + b) == AnsweredCount(a) + AnsweredCount(b)
    ensures CorrectCount(a + b) == CorrectCount(a) + CorrectCount(b)
  {
    FilterAppend(a, b, WasAnswered);
    FilterAppend(Filter(a, WasAnswered), Filter(b, WasAnswered), IsRight);
  }

  /** The counts of a single record. */
  lemma CountsOne(rec: UserAnswer)
    ensures AnsweredCount([rec]) == if rec.answered then 1 else 0
    ensures CorrectCount([rec]) == if rec.answered && rec.isCorrect then 1 else 0
  {
    assert [rec][1..] == [];
  }

  /** Answering a new question adds one answered record, counted as correct or incorrect. */
  lemma StatsAfterNewAnswer(prev: seq<UserAnswer>, total: int, q: int, selected: seq<int>, correct: seq<int>)
    requires GetQuestionAnswer(prev, q).None?
    ensures var before, after := GetQuizStats(prev, total), GetQuizStats(Recorded(prev, q, selected, correct), total);
      && after.answeredQuestions == before.answeredQuestions + 1
      && after.unanswered == before.unanswered - 1
      && after.correctAnswers == before.correctAnswers + (if IsCorrect(selected, correct) then 1 else 0)
      && after.incorrectAnswers == before.incorrectAnswers + (if IsCorrect(selected, correct) then 0 else 1)
  {
    var rec := UserAnswer(q, selected, IsCorrect(selected, correct), true);
    assert Recorded(prev, q, selected, correct) == prev + [rec];
    CountsAppend(prev, [rec]);
    CountsOne(rec);
  }

  /** With unique numbers, re-recording an existing number replaces exactly one record. */
  lemma RecordedReplacesOne(prev: seq<UserAnswer>, i: int, q: int, selected: seq<int>, correct: seq<int>)
    requires UniqueNumbers(prev) && 0 <= i < |prev| && prev[i].questionNumber == q
    ensures Recorded(prev, q, selected, correct)
         == prev[..i] + [UserAnswer(q, selected, IsCorrect(selected, correct), true)] + prev[i + 1..]
  {
    var r := Recorded(prev, q, selected, correct);
    var expected := prev[..i] + [UserAnswer(q, selected, IsCorrect(selected, correct), true)] + prev[i + 1..];
    assert |r| == |prev| == |expected|;
    forall j | 0 <= j < |r| ensures r[j] == expected[j] {
      if j < i {
        assert prev[j].questionNumber != q;
      } else if j > i {
        assert prev[j].questionNumber != q;
      }
    }
  }

  /** The counts after swapping the record between `left` and `right`. */
  lemma CountsAfterSwap(left: seq<UserAnswer>, right: seq<UserAnswer>, was: UserAnswer, rec: UserAnswer)
    requires was.answered && rec.answered
    ensures AnsweredCount(left + [rec] + right) == AnsweredCount(left + [was] + right)
    ensures CorrectCount(left + [rec] + right) == CorrectCount(left + [was] + right)
              - (if was.isCorrect then 1 else 0) + (if rec.isCorrect then 1 else 0)
  {
    CountsAppend(left + [was], right);
    CountsAppend(left, [was]);
    CountsAppend(left + [rec], right);
    CountsAppend(left, [rec]);
    CountsOne(was);
    CountsOne(rec);
  }

  /** Re-recording the answered record at index `i` keeps the answered count and swaps one verdict. */
  lemma CountsAfterReanswer(prev: seq<UserAnswer>, i: int, q: int, selected: seq<int>, correct: seq<int>)
    requires UniqueNumbers(prev) && 0 <= i < |prev| && prev[i].questionNumber == q && prev[i].answered
    ensures AnsweredCount(Recorded(prev, q, selected, correct)) == AnsweredCount(prev)
    ensures CorrectCount(Recorded(prev, q, selected, correct)) == CorrectCount(prev)
              - (if prev[i].isCorrect then 1 else 0) + (if IsCorrect(selected, correct) then 1 else 0)
  {
    var rec := UserAnswer(q, selected, IsCorrect(selected, correct), true);
    var left, right := prev[..i], prev[i + 1..];
    assert prev == left + [prev[i]] + right;
    RecordedReplacesOne(prev, i, q, selected, correct);
    CountsAfterSwap(left, right, prev[i], rec);
  }

  /**
   * Re-answering a question whose record was answered keeps the answered count; the old
   * verdict is taken out of the correct/incorrect counts and the new one put in.
   */
  lemma StatsAfterReanswer(prev: seq<UserAnswer>, total: int, q: int, selected: seq<int>, correct: seq<int>)
    requires UniqueNumbers(prev)
    requires GetQuestionAnswer(prev, q).Some? && GetQuestionAnswer(prev, q).value.answered
    ensures var was := GetQuestionAnswer(prev, q).value;
      var before, after := GetQuizStats(prev, total), GetQuizStats(Recorded(prev, q, selected, correct), total);
      && after.answeredQuestions == before.answeredQuestions
      && after.unanswered == before.unanswered
      && after.correctAnswers == before.correctAnswers - (if was.isCorrect then 1 else 0)
                                 + (if IsCorrect(selected, correct) then 1 else 0)
  {
    var was := GetQuestionAnswer(prev, q).value;
    var i :| 0 <= i < |prev| && prev[i] == was && prev[i].questionNumber == q;
    CountsAfterReanswer(prev, i, q, selected, correct);
  }
}
