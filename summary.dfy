/**
 * The grading logic of the quiz summary screen: the score, the unanswered count, and the
 * message and colour picked by the same four thresholds (90, 80, 70, 60).
 */
module QuizSummary {
  import Scoring
  import opened QuizAnswers

  /** Which of the five performance messages is shown. */
  datatype Message = Excellent | VeryGood | WellDone | Passed | NeedsReview

  /** Which text colour the score and the message get. */
  datatype Color = Green | Blue | Yellow | Orange | Red

  /** The score thresholds, lowest first. */
  const Thresholds: seq<int> := [60, 70, 80, 90]

  /** How many of `thresholds` the score reaches: a reference definition of the band. */
  function ThresholdsMet(percentage: int, thresholds: seq<int>): (n: nat)
    ensures n <= |thresholds|
  {
    if thresholds == [] then 0
    else (if percentage >= thresholds[0] then 1 else 0) + ThresholdsMet(percentage, thresholds[1..])
  }

  /** The band of a score, 0 (below every threshold) to 4 (all reached). */
  function Band(percentage: int): (b: nat)
    ensures b <= 4
  {
    ThresholdsMet(percentage, Thresholds)
  }

  /** The band counts the four thresholds one by one. */
  lemma BandCountsEach(percentage: int)
    ensures Band(percentage) == (if percentage >= 60 then 1 else 0) + (if percentage >= 70 then 1 else 0)
                              + (if percentage >= 80 then 1 else 0) + (if percentage >= 90 then 1 else 0)
  {
    var p := percentage;
    assert [90][1..] == [];
    assert ThresholdsMet(p, [90]) == (if p >= 90 then 1 else 0);
    assert [80, 90][1..] == [90];
    assert ThresholdsMet(p, [80, 90]) == (if p >= 80 then 1 else 0) + ThresholdsMet(p, [90]);
    assert [70, 80, 90][1..] == [80, 90];
    assert ThresholdsMet(p, [70, 80, 90]) == (if p >= 70 then 1 else 0) + ThresholdsMet(p, [80, 90]);
    assert Thresholds[1..] == [70, 80, 90];
  }

  function MessageRank(m: Message): nat {
    match m
    case NeedsReview => 0
    case Passed => 1
    case WellDone => 2
    case VeryGood => 3
    case Excellent => 4
  }

  function ColorRank(c: Color): nat {
    match c
    case Red => 0
    case Orange => 1
    case Yellow => 2
    case Blue => 3
    case Green => 4
  }

  /** The colour that goes with each message. */
  function MessageColor(m: Message): Color {
    match m
    case Excellent => Green
    case VeryGood => Blue
    case WellDone => Yellow
    case Passed => Orange
    case NeedsReview => Red
  }

  /** `getPerformanceMessage`: the first threshold met, from the top, picks the message. */
  function PerformanceMessage(percentage: int): (m: Message)
    ensures MessageRank(m) == Band(percentage)
  {
    BandCountsEach(percentage);
    if percentage >= 90 then Excellent
    else if percentage >= 80 then VeryGood
    else if percentage >= 70 then WellDone
    else if percentage >= 60 then Passed
    else NeedsReview
  }

  /** `getPerformanceColor`: the same chain of thresholds, picking a colour. */
  function PerformanceColor(percentage: int): (c: Color)
    ensures ColorRank(c) == Band(percentage)
  {
    BandCountsEach(percentage);
    if percentage >= 90 then Green
    else if percentage >= 80 then Blue
    else if percentage >= 70 then Yellow
    else if percentage >= 60 then Orange
    else Red
  }

  /** The message and the colour always belong to the same band. */
  lemma MessageAndColorAgree(percentage: int)
    ensures MessageColor(PerformanceMessage(percentage)) == PerformanceColor(percentage)
  {
  }

  /** Reaching thresholds is monotone in the score, for any list of thresholds. */
  lemma {:induction false} ThresholdsMetMonotone(p: int, p': int, thresholds: seq<int>)
    requires p <= p'
    ensures ThresholdsMet(p, thresholds) <= ThresholdsMet(p', thresholds)
  {
    if thresholds != [] {
      ThresholdsMetMonotone(p, p', thresholds[1..]);
    }
  }

  /** A higher score never gets a lower message or colour. */
  lemma BandMonotone(p: int, p': int)
    requires p <= p'
    ensures Band(p) <= Band(p')
    ensures MessageRank(PerformanceMessage(p)) <= MessageRank(PerformanceMessage(p'))
    ensures ColorRank(PerformanceColor(p)) <= ColorRank(PerformanceColor(p'))
  {
    ThresholdsMetMonotone(p, p', Thresholds);
  }

  /** The summary's own unanswered count: total minus correct minus incorrect, unclamped. */
  function Unanswered(totalQuestions: int, correctAnswers: int, incorrectAnswers: int): (u: int)
    ensures u + correctAnswers + incorrectAnswers == totalQuestions
  {
    totalQuestions - correctAnswers - incorrectAnswers
  }

  /** The "unanswered questions" note is rendered only for a positive count. */
  predicate ShowsUnansweredNote(totalQuestions: int, correctAnswers: int, incorrectAnswers: int): (shown: bool)
    ensures shown <==> correctAnswers + incorrectAnswers < totalQuestions
  {
    Unanswered(totalQuestions, correctAnswers, incorrectAnswers) > 0
  }

  /**
   * Fed the hook's statistics, as the question page does, the summary's unanswered count is
   * the hook's and so is its score.
   */
  lemma SummaryAgreesWithStats(answers: seq<UserAnswer>, totalQuestions: int)
    ensures var st := GetQuizStats(answers, totalQuestions);
      && Unanswered(st.totalQuestions, st.correctAnswers, st.incorrectAnswers) == st.unanswered
      && Scoring.Percentage(st.correctAnswers, st.totalQuestions) == st.percentage
  {
  }

  /** Fed the hook's statistics, the note appears exactly while fewer questions are answered than exist. */
  lemma NoteShownWhileQuestionsRemain(answers: seq<UserAnswer>, totalQuestions: int)
    ensures var st := GetQuizStats(answers, totalQuestions);
      ShowsUnansweredNote(st.totalQuestions, st.correctAnswers, st.incorrectAnswers) <==> st.answeredQuestions < totalQuestions
  {
  }
}
