/**
 * The quiz screen of app/page.tsx as a state machine over one immutable
 * session record. Each React state slot is a field; each handler is a pure
 * transition; the JSX conditions that decide which controls are on screen
 * become the predicate `Enabled`.
 */
module Quiz {
  import opened Types
  import opened FisherYates

  /** One spreadsheet row: the 문제 (question), 답 (answer) and 해설 (explanation) cells, as raw strings. */
  datatype Question = Question(text: string, answer: string, explanation: string)

  datatype Mode = Normal | Review

  /** The eight `useState` slots of the quiz screen. */
  datatype Session = Session(
    questions: seq<Question>,
    current: nat,
    answer: Option<OX>,
    isCorrect: Option<bool>,
    showExplanation: bool,
    wrongQuestions: seq<Question>,
    mode: Mode,
    wrongCounts: map<string, nat>)

  /** The state on first render: nothing loaded, nothing answered, nothing missed. */
  const Initial := Session([], 0, None, None, false, [], Normal, map[])

  /** The current index points into the question list, or is 0 while the list is empty. */
  predicate InRange(s: Session)
  {
    if |s.questions| == 0 then s.current == 0 else s.current < |s.questions|
  }

  /** `prev[questionText] || 0`: the stored count, or 0 when the key is absent. */
  function CountOf(counts: map<string, nat>, text: string): nat
  {
    if text in counts then counts[text] else 0
  }

  /** Whether `choice` is the exact answer cell of the current question (strict `===`, no trimming or case folding). */
  predicate Matches(s: Session, choice: OX)
    requires s.current < |s.questions|
  {
    Symbol(choice) == s.questions[s.current].answer
  }

  /**
   * The state reset in `onDrop`, applied to the rows already parsed from
   * the first sheet: the rows are shuffled and every other slot returns to
   * its initial value, whatever the session held before.
   */
  function Load(rows: seq<Question>, draws: seq<nat>): (r: Session)
    requires ValidDraws(draws, |rows|)
    ensures r.(questions := []) == Initial
    ensures multiset(r.questions) == multiset(rows)
    ensures InRange(r)
  {
    ShuffleIsPermutation(rows, draws);
    Initial.(questions := Shuffle(rows, draws))
  }

  /**
   * `handleAnswer(choice)`: records the choice, scores it against the current
   * row's answer cell and shows the explanation. A miss in normal mode
   * appends the current row to the wrong list and adds one to the miss
   * count of its question text; nothing else changes.
   */
  function Answer(s: Session, choice: OX): (r: Session)
    requires s.current < |s.questions|
    ensures r.answer == Some(choice)
    ensures r.isCorrect == Some(Matches(s, choice))
    ensures r.showExplanation
    ensures r.questions == s.questions && r.current == s.current && r.mode == s.mode
    ensures !Matches(s, choice) && s.mode == Normal ==>
      var t := s.questions[s.current].text;
      && r.wrongQuestions == s.wrongQuestions + [s.questions[s.current]]
      && t in r.wrongCounts
      && r.wrongCounts[t] == CountOf(s.wrongCounts, t) + 1
      && r.wrongCounts - {t} == s.wrongCounts - {t}
    ensures Matches(s, choice) || s.mode == Review ==>
      r.wrongQuestions == s.wrongQuestions && r.wrongCounts == s.wrongCounts
  {
    var q := s.questions[s.current];
    var correct := Symbol(choice) == q.answer;
    var scored := s.(answer := Some(choice), isCorrect := Some(correct), showExplanation := true);
    if !correct && s.mode == Normal then
      scored.(wrongQuestions := s.wrongQuestions + [q],
              wrongCounts := s.wrongCounts[q.text := CountOf(s.wrongCounts, q.text) + 1])
    else
      scored
  }

  /**
   * `nextQuestion`: moves to the following question, wrapping from the last
   * back to the first, and clears the answer; nothing else changes. With no
   * questions the source computes `% 0`, so a non-empty list is required.
   */
  function Next(s: Session): (r: Session)
    requires |s.questions| > 0
    ensures r.current < |s.questions|
    ensures r.current == (s.current + 1) % |s.questions|
    ensures r.answer == None && r.isCorrect == None && !r.showExplanation
    ensures r.(current := s.current, answer := s.answer, isCorrect := s.isCorrect,
               showExplanation := s.showExplanation) == s
  {
    s.(current := (s.current + 1) % |s.questions|, answer := None, isCorrect := None,
       showExplanation := false)
  }

  /**
   * `startReview`: with no missed questions, nothing happens. Otherwise the
   * missed rows, shuffled, become the question list, the answer is cleared,
   * the wrong list is emptied and the mode switches to review; the miss
   * counts are kept.
   */
  function StartReview(s: Session, draws: seq<nat>): (r: Session)
    requires ValidDraws(draws, |s.wrongQuestions|)
    ensures |s.wrongQuestions| == 0 ==> r == s
    ensures |s.wrongQuestions| > 0 ==>
      && multiset(r.questions) == multiset(s.wrongQuestions)
      && r.current == 0
      && r.answer == None && r.isCorrect == None && !r.showExplanation
      && r.wrongQuestions == []
      && r.mode == Review
      && r.wrongCounts == s.wrongCounts
  {
    if |s.wrongQuestions| == 0 then s
    else
      ShuffleIsPermutation(s.wrongQuestions, draws);
      s.(questions := Shuffle(s.wrongQuestions, draws), current := 0, answer := None,
         isCorrect := None, showExplanation := false, wrongQuestions := [], mode := Review)
  }

  /** What the user can do: drop a file, press O or X, press next, press review. */
  datatype Event =
    | Upload(rows: seq<Question>, draws: seq<nat>)
    | Choose(choice: OX)
    | NextClicked
    | ReviewClicked(draws: seq<nat>)

  /**
   * Whether the control for `e` is on screen: the drop zone only while no
   * question is loaded; the O/X buttons only while the current question is
   * unanswered; the next button only after an answer; the review button
   * only in normal mode, with missed questions, after an answer.
   */
  predicate Enabled(s: Session, e: Event)
  {
    match e
    case Upload(_, _) => |s.questions| == 0
    case Choose(_) => |s.questions| > 0 && s.answer.None?
    case NextClicked => |s.questions| > 0 && s.answer.Some?
    case ReviewClicked(_) =>
      |s.questions| > 0 && s.mode == Normal && |s.wrongQuestions| > 0 && s.answer.Some?
  }

  /** The draws an event carries stand for one `Math.random()` per swap of the shuffle it triggers. */
  predicate DrawsFit(s: Session, e: Event)
  {
    match e
    case Upload(rows, draws) => ValidDraws(draws, |rows|)
    case ReviewClicked(draws) => ValidDraws(draws, |s.wrongQuestions|)
    case _ => true
  }

  /**
   * One user action: `None` when its control is not on screen, otherwise
   * the handler's transition. The index stays in range.
   */
  function Step(s: Session, e: Event): (r: Option<Session>)
    requires InRange(s) && DrawsFit(s, e)
    ensures r.Some? <==> Enabled(s, e)
    ensures r.Some? ==> InRange(r.value)
  {
    if !Enabled(s, e) then None
    else
      match e
      case Upload(rows, draws) => Some(Load(rows, draws))
      case Choose(choice) => Some(Answer(s, choice))
      case NextClicked => Some(Next(s))
      case ReviewClicked(draws) => Some(StartReview(s, draws))
  }

  /** The question texts of a list of rows, in order. */
  function Texts(ws: seq<Question>): seq<string>
  {
    seq(|ws|, i requires 0 <= i < |ws| => ws[i].text)
  }

  /** For every question text, how many rows of `ws` carry it. */
  function Tally(ws: seq<Question>): map<string, nat>
  {
    var m := multiset(Texts(ws));
    map t | t in m :: m[t]
  }

  /** Appending one missed row adds one to its text's tally and leaves every other text alone. */
  lemma TallyAppend(ws: seq<Question>, q: Question)
    ensures Tally(ws + [q]) == Tally(ws)[q.text := CountOf(Tally(ws), q.text) + 1]
  {
    assert Texts(ws + [q]) == Texts(ws) + [q.text];
    var m := multiset(Texts(ws));
    assert multiset(Texts(ws + [q])) == m + multiset{q.text};
    if q.text !in m {
      assert m[q.text] == 0;
    }
  }

  /**
   * What every reachable session satisfies: the index is in range; an
   * answer, its score and the explanation are shown together, and the score
   * is that of the recorded choice; review mode has questions and an empty
   * wrong list; in normal mode the miss counts are exactly the tally of the
   * wrong list, and every wrong row is one of the loaded rows (so nothing is
   * missed before a set is loaded).
   */
  predicate Inv(s: Session)
  {
    && InRange(s)
    && (s.answer.None? <==> s.isCorrect.None?)
    && (s.showExplanation <==> s.answer.Some?)
    && (s.answer.Some? ==> |s.questions| > 0 && s.isCorrect == Some(Matches(s, s.answer.value)))
    && (s.mode == Review ==> |s.questions| > 0 && s.wrongQuestions == [])
    && (|s.questions| == 0 ==> s.wrongQuestions == [])
    && (s.mode == Normal ==>
          && s.wrongCounts == Tally(s.wrongQuestions)
          && forall w :: w in s.wrongQuestions ==> w in s.questions)
  }

  lemma InitialInv()
    ensures Inv(Initial)
  {
    assert Tally([]) == map[];
  }

  /** Every user action keeps the session invariant. */
  lemma StepPreservesInv(s: Session, e: Event)
    requires Inv(s) && DrawsFit(s, e)
    ensures Step(s, e).Some? ==> Inv(Step(s, e).value)
  {
    if Enabled(s, e) {
      match e
      case Upload(rows, draws) =>
        assert Tally([]) == map[];
      case Choose(choice) =>
        if !Matches(s, choice) && s.mode == Normal {
          TallyAppend(s.wrongQuestions, s.questions[s.current]);
        }
      case NextClicked =>
      case ReviewClicked(draws) =>
        PermutationLength(Step(s, e).value.questions, s.wrongQuestions);
    }
  }

  /** Once in review mode, no action leaves it: the drop zone and the review button never come back. */
  lemma ReviewIsFinal(s: Session, e: Event)
    requires Inv(s) && DrawsFit(s, e)
    requires s.mode == Review
    ensures Step(s, e).Some? ==> Step(s, e).value.mode == Review
  {
  }

  /** Once a non-empty set is on screen the drop zone is gone, so the question list never empties again. */
  lemma QuestionsStayLoaded(s: Session, e: Event)
    requires Inv(s) && DrawsFit(s, e)
    requires |s.questions| > 0
    ensures Step(s, e).Some? ==> |Step(s, e).value.questions| > 0
  {
    if Enabled(s, e) && e.ReviewClicked? {
      PermutationLength(Step(s, e).value.questions, s.wrongQuestions);
    }
  }

  /** No action lowers a miss count or forgets a missed text. */
  lemma MissCountsNeverDecrease(s: Session, e: Event)
    requires Inv(s) && DrawsFit(s, e)
    ensures Step(s, e).Some? ==>
      forall t :: t in s.wrongCounts ==>
        t in Step(s, e).value.wrongCounts && Step(s, e).value.wrongCounts[t] >= s.wrongCounts[t]
  {
    if Enabled(s, e) && e.Upload? {
      assert Tally([]) == map[];
    }
  }

  /** Review plays only rows that were loaded and missed: each one's text has a miss count. */
  lemma ReviewReplaysMisses(s: Session, draws: seq<nat>)
    requires Inv(s) && ValidDraws(draws, |s.wrongQuestions|)
    requires Enabled(s, ReviewClicked(draws))
    ensures forall q :: q in Step(s, ReviewClicked(draws)).value.questions ==>
      q in s.questions && q.text in s.wrongCounts
  {
    var r := Step(s, ReviewClicked(draws)).value;
    forall q | q in r.questions
      ensures q in s.questions && q.text in s.wrongCounts
    {
      assert q in multiset(r.questions);
      assert q in s.wrongQuestions;
      var i :| 0 <= i < |s.wrongQuestions| && s.wrongQuestions[i] == q;
      assert Texts(s.wrongQuestions)[i] == q.text;
      assert q.text in multiset(Texts(s.wrongQuestions));
    }
  }

  // Arithmetic behind the wrap-around of `(prev + 1) % questions.length`.

  /** A positive multiple of n is at least n. */
  lemma MulAtLeast(d: int, n: int)
    requires d >= 1 && n > 0
    ensures d * n >= n
  {
    assert d * n == (d - 1) * n + n;
  }

  /** Division by n leaves exactly one remainder in [0, n). */
  lemma ModUnique(x: int, n: int, q: int, r: int)
    requires n > 0 && 0 <= r < n && x == q * n + r
    ensures x % n == r
  {
    var q', r' := x / n, x % n;
    assert x == q' * n + r';
    assert (q - q') * n == r' - r;
    if q > q' {
      MulAtLeast(q - q', n);
    } else if q < q' {
      MulAtLeast(q' - q, n);
    }
  }

  /** Taking the successor commutes with reduction modulo n. */
  lemma ModSucc(c: nat, n: nat)
    requires n > 0
    ensures (c % n + 1) % n == (c + 1) % n
  {
    var q := c / n;
    var r := c % n;
    assert c == q * n + r;
    if r + 1 < n {
      assert (r + 1) % n == r + 1;
      ModUnique(c + 1, n, q, r + 1);
    } else {
      assert (r + 1) % n == 0;
      assert c + 1 == (q + 1) * n + 0 by {
        assert (q + 1) * n == q * n + n;
      }
      ModUnique(c + 1, n, q + 1, 0);
    }
  }

  /** Pressing next `k` times in a row. */
  function Advance(s: Session, k: nat): (r: Session)
    requires |s.questions| > 0
    ensures r.questions == s.questions
  {
    if k == 0 then s else Next(Advance(s, k - 1))
  }

  /** The index walks round the list: after k presses it is k places further, modulo the length. */
  lemma {:induction false} AdvanceWraps(s: Session, k: nat)
    requires InRange(s) && |s.questions| > 0
    ensures Advance(s, k).current == (s.current + k) % |s.questions|
  {
    if k > 0 {
      AdvanceWraps(s, k - 1);
      var prev := Advance(s, k - 1);
      assert Advance(s, k) == Next(prev);
      assert Advance(s, k).current == (prev.current + 1) % |s.questions|;
      assert prev.current == (s.current + (k - 1)) % |s.questions|;
      ModSucc(s.current + k - 1, |s.questions|);
      assert (prev.current + 1) % |s.questions| == (s.current + k) % |s.questions|;
    }
  }

  /** There is no finished state: after one press per question the same question is current again. */
  lemma FullRoundReturns(s: Session)
    requires InRange(s) && |s.questions| > 0
    ensures Advance(s, |s.questions|).current == s.current
  {
    var n := |s.questions|;
    assert (s.current + n) % n == s.current by {
      ModUnique(s.current + n, n, 1, s.current);
    }
    AdvanceWraps(s, n);
  }

  /**
   * Miss counts are keyed by question text alone: when the current row and
   * the one after it share a text and both are missed in normal mode, that
   * text's one counter goes up by two, whatever the two answer cells are.
   */
  lemma CountsKeyedByTextOnly(s: Session, c1: OX, c2: OX)
    requires s.current < |s.questions| && s.mode == Normal
    requires s.questions[(s.current + 1) % |s.questions|].text == s.questions[s.current].text
    requires !Matches(s, c1) && !Matches(Next(Answer(s, c1)), c2)
    ensures var t := s.questions[s.current].text;
      CountOf(Answer(Next(Answer(s, c1)), c2).wrongCounts, t) == CountOf(s.wrongCounts, t) + 2
  {
  }

  /**
   * After an answer the O/X buttons are gone and the next button is shown;
   * after next it is the other way round. A question cannot be answered
   * twice before moving on.
   */
  lemma ChoicesLockUntilNext(s: Session, choice: OX, other: OX)
    requires InRange(s) && Enabled(s, Choose(choice))
    ensures var r := Step(s, Choose(choice)).value;
      && !Enabled(r, Choose(other))
      && Enabled(r, NextClicked)
      && Enabled(Step(r, NextClicked).value, Choose(other))
      && !Enabled(Step(r, NextClicked).value, NextClicked)
  {
  }
}
