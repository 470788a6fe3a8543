/** The interview session of `AI-Interview.py`: the record kept in the web page's session
    state and the four handlers that change it (Start, Submit Answer, End, Reset). The
    three agents' replies come in as parameters; `None` stands for a `generate_reply` call
    that raised. Each handler is specified by a step function on a value copy of the
    record, and the properties of the handlers are proved about those step functions. */
module Interview {
  import opened Wrappers
  import opened Text
  import opened Scoring

  /** Upper bound of the "Number of Questions" input. */
  const MaxQuestions: nat := 15

  datatype Role = Interviewer | Candidate | Coach | Scorer

  /** One entry of `conversation_history` (its timestamp is not modelled). */
  datatype Message = Message(role: Role, content: string)

  /** Number of entries with role `r`. */
  function CountRole(history: seq<Message>, r: Role): (n: nat)
    ensures n <= |history|
  {
    if history == [] then 0
    else CountRole(history[..|history| - 1], r) + (if history[|history| - 1].role == r then 1 else 0)
  }

  /** Content of the most recent Interviewer entry, if any. */
  function LastQuestion(history: seq<Message>): Option<string> {
    if history == [] then None
    else if history[|history| - 1].role == Interviewer then Some(history[|history| - 1].content)
    else LastQuestion(history[..|history| - 1])
  }

  /** The last question is one that was asked, and there is none only before the first. */
  lemma {:induction false} LastQuestionAsked(history: seq<Message>)
    ensures LastQuestion(history).Some? ==> Message(Interviewer, LastQuestion(history).value) in history
    ensures LastQuestion(history).None? <==> CountRole(history, Interviewer) == 0
  {
    if history != [] && history[|history| - 1].role != Interviewer {
      var init := history[..|history| - 1];
      LastQuestionAsked(init);
      assert history == init + [history[|history| - 1]];
    }
  }

  /** Appending one entry adds one to the count of its role and none to the others, and
      an appended question becomes the last one. */
  lemma AppendMessage(history: seq<Message>, m: Message)
    ensures forall r :: CountRole(history + [m], r) == CountRole(history, r) + (if m.role == r then 1 else 0)
    ensures LastQuestion(history + [m]) == if m.role == Interviewer then Some(m.content) else LastQuestion(history)
  {
    assert (history + [m])[..|history|] == history;
  }

  // ---- the record as a value ----

  /** The session-state keys the interview uses. */
  datatype Record = Record(history: seq<Message>, questionCount: nat, scores: seq<real>,
                           total: real, active: bool, waiting: bool, current: string,
                           agentsReady: bool)

  /** The values the initialisation block assigns. */
  const Initial: Record := Record([], 0, [], 0.0, false, false, "", false)

  /** What every handler preserves: the running total is the sum of the scores, the
      question count is the number of questions asked, one score is kept per Scorer
      entry, and while an answer is awaited the interview is active and the current
      question is the last one asked. */
  predicate Consistent(s: Record) {
    s.total == Sum(s.scores) &&
    s.questionCount == CountRole(s.history, Interviewer) &&
    |s.scores| == CountRole(s.history, Scorer) &&
    (s.waiting ==> s.active && LastQuestion(s.history) == Some(s.current))
  }

  /** The test of the completion block taken alone: no answer is awaited and the count
      has reached the requested number of questions. */
  predicate CountReached(s: Record, numQuestions: nat) {
    !s.waiting && s.questionCount >= numQuestions
  }

  /** When the page, as written, shows the completion screen: its test is nested in the
      branch that is taken only while an interview is active. */
  predicate CompletionShown(s: Record, numQuestions: nat) {
    s.active && CountReached(s, numQuestions)
  }

  /** An active interview that awaits no answer has asked no question; only a failed
      first request leaves one. */
  predicate IdleBeforeFirstQuestion(s: Record) {
    s.active && !s.waiting ==> s.questionCount == 0
  }

  /** The outcome of a handler together with the record it leaves. */
  datatype Step<O> = Step(outcome: O, after: Record)

  datatype StartOutcome = MissingApiKey | StartFailed | Started

  /** Which remote call raised during a submission. */
  datatype Call = CoachCall | ScorerCall | InterviewerCall

  datatype SubmitOutcome = EmptyAnswer | RemoteError(call: Call) | NextQuestion | Finished

  /** `conversation_history.append(...)`. */
  function Append(s: Record, role: Role, content: string): Record {
    s.(history := s.history + [Message(role, content)])
  }

  /** `scores_list.append(score)` followed by `total_score += score`. */
  function AddScore(s: Record, score: real): Record {
    s.(scores := s.scores + [score], total := s.total + score)
  }

  /** A question becomes the current one and is appended. */
  function Ask(s: Record, question: string): Record {
    Append(s.(current := question), Interviewer, question)
  }

  /** "Start Interview". Without an API key only an error is shown. Otherwise the record
      is cleared and the flag raised before the first question is requested, so a
      failing request leaves an active interview with no question. */
  function StartStep(s: Record, apiKey: string, firstQuestion: Option<string>): Step<StartOutcome> {
    if apiKey == [] then Step(MissingApiKey, s)
    else
      var cleared := s.(agentsReady := true, active := true, questionCount := 0,
                        history := [], scores := [], total := 0.0);
      match firstQuestion
      case None => Step(StartFailed, cleared)
      case Some(q) => Step(Started, Ask(cleared, q).(waiting := true, questionCount := 1))
  }

  /** The part of "Submit Answer" that evaluates a non-blank answer: the Candidate entry
      is appended before the remote calls, then the Coach's and the Scorer's replies as
      they arrive, and the score read from the Scorer's text is kept. The outcome names
      the call that raised, if one did; nothing appended before it is rolled back. */
  function EvaluateStep(s: Record, answer: string, coachReply: Option<string>,
                        scorerReply: Option<string>): Step<Option<Call>>
  {
    var answered := Append(s, Candidate, answer);
    if coachReply.None? then Step(Some(CoachCall), answered)
    else
      var coached := Append(answered, Coach, coachReply.value);
      if scorerReply.None? then Step(Some(ScorerCall), coached)
      else Step(None, AddScore(Append(coached, Scorer, scorerReply.value), ExtractScore(scorerReply.value)))
  }

  /** The part of "Submit Answer" after scoring: the next question is asked while fewer
      than the requested number have been asked, otherwise the interview finishes. A
      raising request leaves the score already kept. */
  function AdvanceStep(s: Record, numQuestions: nat, nextQuestion: Option<string>): Step<SubmitOutcome> {
    if s.questionCount < numQuestions then
      match nextQuestion
      case None => Step(RemoteError(InterviewerCall), s)
      case Some(q) => Step(NextQuestion, Ask(s, q).(questionCount := s.questionCount + 1))
    else Step(Finished, s.(waiting := false, active := false))
  }

  /** "Submit Answer". A blank answer only draws a warning. */
  function SubmitStep(s: Record, answer: string, numQuestions: nat, coachReply: Option<string>,
                      scorerReply: Option<string>, nextQuestion: Option<string>): Step<SubmitOutcome>
  {
    if IsBlank(answer) then Step(EmptyAnswer, s)
    else
      var evaluated := EvaluateStep(s, answer, coachReply, scorerReply);
      match evaluated.outcome
      case Some(call) => Step(RemoteError(call), evaluated.after)
      case None => AdvanceStep(evaluated.after, numQuestions, nextQuestion)
  }

  /** "End Interview": only the two flags drop. */
  function EndStep(s: Record): Record {
    s.(active := false, waiting := false)
  }

  /** Whether both evaluations of a non-blank answer arrived, so that a score is kept. */
  predicate Evaluated(answer: string, coachReply: Option<string>, scorerReply: Option<string>) {
    !IsBlank(answer) && coachReply.Some? && scorerReply.Some?
  }

  // ---- properties of the handlers ----

  /** Start, offered only while no interview is active, keeps the record consistent. */
  lemma StartKeepsConsistent(s: Record, apiKey: string, firstQuestion: Option<string>)
    requires Consistent(s) && !s.active
    ensures Consistent(StartStep(s, apiKey, firstQuestion).after)
  {
    if apiKey != [] && firstQuestion.Some? {
      AppendMessage([], Message(Interviewer, firstQuestion.value));
    }
  }

  /** Without an API key nothing changes; a successful start has asked exactly one
      question, which is the current one and is awaited, and holds no scores; a failed
      first request leaves an active interview that has asked nothing. */
  lemma StartEffects(s: Record, apiKey: string, firstQuestion: Option<string>)
    ensures var step := StartStep(s, apiKey, firstQuestion);
      (apiKey == [] <==> step.outcome == MissingApiKey) &&
      (apiKey == [] ==> step.after == s) &&
      (step.outcome == Started ==>
        CountRole(step.after.history, Interviewer) == |step.after.history| == 1 &&
        LastQuestion(step.after.history) == Some(step.after.current) &&
        step.after.scores == [] && step.after.total == 0.0 &&
        step.after.questionCount == 1 && step.after.waiting && step.after.active) &&
      (step.outcome == StartFailed ==>
        step.after.history == [] && step.after.questionCount == 0 && step.after.active)
  {
    if apiKey != [] && firstQuestion.Some? {
      AppendMessage([], Message(Interviewer, firstQuestion.value));
    }
  }

  /** Appending an answer or a coaching reply keeps the record consistent. */
  lemma AppendKeepsConsistent(s: Record, role: Role, content: string)
    requires Consistent(s) && (role == Candidate || role == Coach)
    ensures Consistent(Append(s, role, content))
  {
    AppendMessage(s.history, Message(role, content));
  }

  /** Appending an evaluation together with the score read from it keeps the record
      consistent. */
  lemma ScoreKeepsConsistent(s: Record, feedback: string)
    requires Consistent(s)
    ensures Consistent(AddScore(Append(s, Scorer, feedback), ExtractScore(feedback)))
  {
    AppendMessage(s.history, Message(Scorer, feedback));
    SumAppend(s.scores, ExtractScore(feedback));
  }

  /** Asking and counting one more question keeps the record consistent. */
  lemma AskKeepsConsistent(s: Record, question: string)
    requires Consistent(s)
    ensures Consistent(Ask(s, question).(questionCount := s.questionCount + 1))
  {
    AppendMessage(s.history, Message(Interviewer, question));
  }

  lemma EvaluateKeepsConsistent(s: Record, answer: string, coachReply: Option<string>,
                                scorerReply: Option<string>)
    requires Consistent(s)
    ensures Consistent(EvaluateStep(s, answer, coachReply, scorerReply).after)
  {
    var answered := Append(s, Candidate, answer);
    AppendKeepsConsistent(s, Candidate, answer);
    if coachReply.Some? {
      AppendKeepsConsistent(answered, Coach, coachReply.value);
      if scorerReply.Some? {
        ScoreKeepsConsistent(Append(answered, Coach, coachReply.value), scorerReply.value);
      }
    }
  }

  /** Evaluation only appends: the answer first, then each reply that arrived, in order;
      one score, the one read from the Scorer's reply, is kept exactly when both replies
      arrived; the count, the current question and the flags do not change. */
  lemma EvaluateEffects(s: Record, answer: string, coachReply: Option<string>,
                        scorerReply: Option<string>)
    ensures var step := EvaluateStep(s, answer, coachReply, scorerReply);
      var n := |s.history|;
      (step.outcome.None? <==> coachReply.Some? && scorerReply.Some?) &&
      (step.outcome == Some(CoachCall) <==> coachReply.None?) &&
      |step.after.history| == n + 1 + (if coachReply.Some? then 1 else 0) +
                              (if coachReply.Some? && scorerReply.Some? then 1 else 0) &&
      step.after.history[..n] == s.history && step.after.history[n] == Message(Candidate, answer) &&
      (coachReply.Some? ==> step.after.history[n + 1] == Message(Coach, coachReply.value)) &&
      (coachReply.Some? && scorerReply.Some? ==>
        step.after.history[n + 2] == Message(Scorer, scorerReply.value) &&
        step.after.scores == s.scores + [ExtractScore(scorerReply.value)] &&
        step.after.total == s.total + ExtractScore(scorerReply.value)) &&
      (coachReply.None? || scorerReply.None? ==> step.after.scores == s.scores && step.after.total == s.total) &&
      step.after.(history := s.history, scores := s.scores, total := s.total) == s
  {
    var n := |s.history|;
    var answered := s.history + [Message(Candidate, answer)];
    assert answered[..n] == s.history;
    if coachReply.Some? {
      var coached := answered + [Message(Coach, coachReply.value)];
      assert coached[..n] == s.history;
      if scorerReply.Some? {
        var scored := coached + [Message(Scorer, scorerReply.value)];
        assert scored[..n] == s.history;
      }
    }
  }

  lemma AdvanceKeepsConsistent(s: Record, numQuestions: nat, nextQuestion: Option<string>)
    requires Consistent(s)
    ensures var after := AdvanceStep(s, numQuestions, nextQuestion).after;
      Consistent(after) && (s.questionCount <= numQuestions ==> after.questionCount <= numQuestions)
  {
    if s.questionCount < numQuestions && nextQuestion.Some? {
      AskKeepsConsistent(s, nextQuestion.value);
    }
  }

  /** After scoring, either exactly one question is appended, becoming the current and
      awaited one and counted, or, once the requested number has been asked, nothing is
      appended, the count has reached the requested number and the interview is
      inactive. A raising request changes nothing. */
  lemma AdvanceEffects(s: Record, numQuestions: nat, nextQuestion: Option<string>)
    requires Consistent(s) && s.waiting
    ensures var step := AdvanceStep(s, numQuestions, nextQuestion);
      var n := |s.history|;
      (step.outcome == NextQuestion <==> s.questionCount < numQuestions && nextQuestion.Some?) &&
      (step.outcome == Finished <==> s.questionCount >= numQuestions) &&
      (step.outcome == NextQuestion ==>
        |step.after.history| == n + 1 && step.after.history[..n] == s.history &&
        step.after.history[n] == Message(Interviewer, nextQuestion.value) &&
        step.after.current == nextQuestion.value && step.after.questionCount == s.questionCount + 1 &&
        step.after.waiting && step.after.active && step.after.scores == s.scores) &&
      (step.outcome == Finished ==>
        step.after.history == s.history && step.after.questionCount == s.questionCount &&
        step.after.scores == s.scores && !step.after.active && CountReached(step.after, numQuestions)) &&
      (step.outcome.RemoteError? ==> step.after == s)
  {
  }

  /** Submit keeps the record consistent and never lets the count pass the requested
      number of questions. */
  lemma SubmitKeepsConsistent(s: Record, answer: string, numQuestions: nat, coachReply: Option<string>,
                              scorerReply: Option<string>, nextQuestion: Option<string>)
    requires Consistent(s) && s.questionCount <= numQuestions
    ensures var after := SubmitStep(s, answer, numQuestions, coachReply, scorerReply, nextQuestion).after;
      Consistent(after) && after.questionCount <= numQuestions
  {
    if !IsBlank(answer) {
      var evaluated := EvaluateStep(s, answer, coachReply, scorerReply);
      EvaluateKeepsConsistent(s, answer, coachReply, scorerReply);
      EvaluateEffects(s, answer, coachReply, scorerReply);
      AdvanceKeepsConsistent(evaluated.after, numQuestions, nextQuestion);
    }
  }

  /** A blank answer, and only a blank answer, leaves the whole record as it was. */
  lemma SubmitBlankChangesNothing(s: Record, answer: string, numQuestions: nat, coachReply: Option<string>,
                                  scorerReply: Option<string>, nextQuestion: Option<string>)
    ensures var step := SubmitStep(s, answer, numQuestions, coachReply, scorerReply, nextQuestion);
      (IsBlank(answer) <==> step.after == s) &&
      (IsBlank(answer) <==> step.outcome == EmptyAnswer)
  {
    if !IsBlank(answer) {
      var evaluated := EvaluateStep(s, answer, coachReply, scorerReply);
      EvaluateEffects(s, answer, coachReply, scorerReply);
      var after := SubmitStep(s, answer, numQuestions, coachReply, scorerReply, nextQuestion).after;
      assert |after.history| > |s.history| by {
        assert |evaluated.after.history| > |s.history|;
        if evaluated.outcome.None? && s.questionCount < numQuestions && nextQuestion.Some? {
          assert after.history == evaluated.after.history + [Message(Interviewer, nextQuestion.value)];
        }
      }
    }
  }

  /** A raising call is not rolled back: the answer stays appended after the earlier
      entries (with the Coach's and Scorer's replies if they arrived) while the count,
      the current question and the flags are as before. */
  lemma SubmitNoRollback(s: Record, answer: string, numQuestions: nat, coachReply: Option<string>,
                         scorerReply: Option<string>, nextQuestion: Option<string>)
    requires Consistent(s) && s.waiting
    ensures var step := SubmitStep(s, answer, numQuestions, coachReply, scorerReply, nextQuestion);
      var n := |s.history|;
      step.outcome.RemoteError? ==>
        |step.after.history| > n && step.after.history[..n] == s.history &&
        step.after.history[n] == Message(Candidate, answer) &&
        step.after.questionCount == s.questionCount && step.after.current == s.current &&
        step.after.active && step.after.waiting
  {
    if !IsBlank(answer) {
      var evaluated := EvaluateStep(s, answer, coachReply, scorerReply);
      EvaluateEffects(s, answer, coachReply, scorerReply);
      EvaluateKeepsConsistent(s, answer, coachReply, scorerReply);
      if evaluated.outcome.None? {
        AdvanceEffects(evaluated.after, numQuestions, nextQuestion);
      }
    }
  }

  /** A score is kept exactly when both evaluations of a non-blank answer arrived; it is
      the one read from the Scorer's text and the total grows by it. Otherwise scores
      and total stay. */
  lemma SubmitScores(s: Record, answer: string, numQuestions: nat, coachReply: Option<string>,
                     scorerReply: Option<string>, nextQuestion: Option<string>)
    requires Consistent(s) && s.waiting
    ensures var after := SubmitStep(s, answer, numQuestions, coachReply, scorerReply, nextQuestion).after;
      (Evaluated(answer, coachReply, scorerReply) ==>
        after.scores == s.scores + [ExtractScore(scorerReply.value)] &&
        after.total == s.total + ExtractScore(scorerReply.value)) &&
      (!Evaluated(answer, coachReply, scorerReply) ==> after.scores == s.scores && after.total == s.total)
  {
    if !IsBlank(answer) {
      var evaluated := EvaluateStep(s, answer, coachReply, scorerReply);
      EvaluateEffects(s, answer, coachReply, scorerReply);
      EvaluateKeepsConsistent(s, answer, coachReply, scorerReply);
      if evaluated.outcome.None? {
        AdvanceEffects(evaluated.after, numQuestions, nextQuestion);
      }
    }
  }

  /** After both evaluations the step either asks one more question, which becomes the
      current and awaited one, or finishes the interview: inactive, nothing awaited and
      the count at the requested number. */
  lemma SubmitAdvances(s: Record, answer: string, numQuestions: nat, coachReply: Option<string>,
                       scorerReply: Option<string>, nextQuestion: Option<string>)
    requires Consistent(s) && s.waiting
    ensures var step := SubmitStep(s, answer, numQuestions, coachReply, scorerReply, nextQuestion);
      (step.outcome == NextQuestion <==>
        Evaluated(answer, coachReply, scorerReply) && s.questionCount < numQuestions && nextQuestion.Some?) &&
      (step.outcome == Finished <==>
        Evaluated(answer, coachReply, scorerReply) && s.questionCount >= numQuestions) &&
      (step.outcome == NextQuestion ==>
        step.after.questionCount == s.questionCount + 1 &&
        CountRole(step.after.history, Interviewer) == CountRole(s.history, Interviewer) + 1 &&
        LastQuestion(step.after.history) == Some(nextQuestion.value) &&
        step.after.current == nextQuestion.value && step.after.waiting && step.after.active) &&
      (step.outcome == Finished ==>
        step.after.questionCount == s.questionCount &&
        CountRole(step.after.history, Interviewer) == CountRole(s.history, Interviewer) &&
        !step.after.active && CountReached(step.after, numQuestions))
  {
    if Evaluated(answer, coachReply, scorerReply) {
      var evaluated := EvaluateStep(s, answer, coachReply, scorerReply);
      EvaluateEffects(s, answer, coachReply, scorerReply);
      EvaluateKeepsConsistent(s, answer, coachReply, scorerReply);
      AdvanceEffects(evaluated.after, numQuestions, nextQuestion);
      var step := SubmitStep(s, answer, numQuestions, coachReply, scorerReply, nextQuestion);
      if step.outcome == NextQuestion {
        AskKeepsConsistent(evaluated.after, nextQuestion.value);
      }
    }
  }

  /** The replies of one successful round: the Candidate's answer, the Coach's and the
      Scorer's evaluations and the next question (unused in the last round). */
  datatype Round = Round(answer: string, coaching: string, evaluation: string, next: string)

  /** The record after submitting the given rounds one after another, every call
      succeeding. */
  function Play(s: Record, numQuestions: nat, rounds: seq<Round>): Record
    decreases |rounds|
  {
    if rounds == [] then s
    else
      var r := rounds[0];
      Play(SubmitStep(s, r.answer, numQuestions, Some(r.coaching), Some(r.evaluation), Some(r.next)).after,
           numQuestions, rounds[1..])
  }

  /** The scores read from the rounds' evaluations. */
  function ScoresOf(rounds: seq<Round>): (scores: seq<real>)
    ensures |scores| == |rounds|
    ensures forall i | 0 <= i < |rounds| :: scores[i] == ExtractScore(rounds[i].evaluation)
  {
    if rounds == [] then [] else [ExtractScore(rounds[0].evaluation)] + ScoresOf(rounds[1..])
  }

  /** Role of the `i`-th entry of an interview whose every call succeeded. */
  function RoleAt(i: nat): Role {
    if i % 4 == 0 then Interviewer else if i % 4 == 1 then Candidate else if i % 4 == 2 then Coach else Scorer
  }

  predicate InRoleOrder(history: seq<Message>) {
    forall i | 0 <= i < |history| :: history[i].role == RoleAt(i)
  }

  /** A round appended to a history in role order that ends with a question keeps it
      in role order. */
  lemma RoundInRoleOrder(history: seq<Message>, k: nat, added: seq<Message>)
    requires InRoleOrder(history) && |history| == 4 * k + 1
    requires 3 <= |added| <= 4 && added[0].role == Candidate && added[1].role == Coach && added[2].role == Scorer
    requires |added| == 4 ==> added[3].role == Interviewer
    ensures InRoleOrder(history + added)
  {
    var h := history + added;
    forall i | 0 <= i < |h| ensures h[i].role == RoleAt(i) {
      if i >= |history| {
        var j := i - |history|;
        assert i == 4 * k + 1 + j;
        assert i % 4 == (1 + j) % 4;
      }
    }
  }

  /** One round in which every call succeeds. */
  lemma SuccessfulRound(s: Record, numQuestions: nat, r: Round)
    requires Consistent(s) && s.waiting && !IsBlank(r.answer)
    ensures var after := SubmitStep(s, r.answer, numQuestions, Some(r.coaching), Some(r.evaluation), Some(r.next)).after;
      var added := [Message(Candidate, r.answer), Message(Coach, r.coaching), Message(Scorer, r.evaluation)];
      Consistent(after) && after.scores == s.scores + [ExtractScore(r.evaluation)] &&
      (s.questionCount < numQuestions ==>
        after.history == s.history + added + [Message(Interviewer, r.next)] &&
        after.questionCount == s.questionCount + 1 && after.waiting) &&
      (s.questionCount >= numQuestions ==>
        after.history == s.history + added && after.questionCount == s.questionCount &&
        !after.waiting && !after.active)
  {
    var evaluated := EvaluateStep(s, r.answer, Some(r.coaching), Some(r.evaluation));
    EvaluateKeepsConsistent(s, r.answer, Some(r.coaching), Some(r.evaluation));
    AdvanceKeepsConsistent(evaluated.after, numQuestions, Some(r.next));
    assert evaluated.after.history ==
      s.history + [Message(Candidate, r.answer), Message(Coach, r.coaching), Message(Scorer, r.evaluation)];
  }

  /** Submitting the remaining rounds of an interview that has asked `k` questions
      finishes it: the count reaches the requested number, one score per round is
      added, the entries keep the order Interviewer, Candidate, Coach, Scorer, and
      nothing is awaited any more. */
  lemma {:induction false} PlayFinishes(s: Record, numQuestions: nat, rounds: seq<Round>)
    requires Consistent(s) && s.waiting && 1 <= s.questionCount <= numQuestions
    requires |rounds| == numQuestions - s.questionCount + 1
    requires forall i | 0 <= i < |rounds| :: !IsBlank(rounds[i].answer)
    requires InRoleOrder(s.history) && |s.history| == 4 * s.questionCount - 3
    ensures var after := Play(s, numQuestions, rounds);
      after.questionCount == numQuestions && after.scores == s.scores + ScoresOf(rounds) &&
      InRoleOrder(after.history) && |after.history| == 4 * numQuestions &&
      !after.active && CountReached(after, numQuestions) && Consistent(after)
    decreases |rounds|, 1
  {
    if s.questionCount < numQuestions {
      PlayNextRound(s, numQuestions, rounds);
    } else {
      var r := rounds[0];
      SuccessfulRound(s, numQuestions, r);
      var added := [Message(Candidate, r.answer), Message(Coach, r.coaching), Message(Scorer, r.evaluation)];
      RoundInRoleOrder(s.history, s.questionCount - 1, added);
      assert rounds[1..] == [];
      assert ScoresOf(rounds) == [ExtractScore(r.evaluation)] + [];
    }
  }

  /** A round before the last asks the next question; the remaining rounds then
      finish the interview. */
  lemma {:induction false} PlayNextRound(s: Record, numQuestions: nat, rounds: seq<Round>)
    requires Consistent(s) && s.waiting && 1 <= s.questionCount < numQuestions
    requires |rounds| == numQuestions - s.questionCount + 1
    requires forall i | 0 <= i < |rounds| :: !IsBlank(rounds[i].answer)
    requires InRoleOrder(s.history) && |s.history| == 4 * s.questionCount - 3
    ensures var after := Play(s, numQuestions, rounds);
      after.questionCount == numQuestions && after.scores == s.scores + ScoresOf(rounds) &&
      InRoleOrder(after.history) && |after.history| == 4 * numQuestions &&
      !after.active && CountReached(after, numQuestions) && Consistent(after)
    decreases |rounds|, 0
  {
    var r := rounds[0];
    var after := SubmitStep(s, r.answer, numQuestions, Some(r.coaching), Some(r.evaluation), Some(r.next)).after;
    SuccessfulRound(s, numQuestions, r);
    var added := [Message(Candidate, r.answer), Message(Coach, r.coaching), Message(Scorer, r.evaluation)];
    RoundInRoleOrder(s.history, s.questionCount - 1, added + [Message(Interviewer, r.next)]);
    assert s.history + added + [Message(Interviewer, r.next)] == s.history + (added + [Message(Interviewer, r.next)]);
    var rest := rounds[1..];
    assert forall i | 0 <= i < |rest| :: !IsBlank(rest[i].answer) by {
      forall i | 0 <= i < |rest| ensures !IsBlank(rest[i].answer) {
        assert rest[i] == rounds[i + 1];
      }
    }
    PlayFinishes(after, numQuestions, rest);
    var x := ExtractScore(r.evaluation);
    assert ScoresOf(rounds) == [x] + ScoresOf(rest);
    ConcatAssoc(s.scores, [x], ScoresOf(rest));
  }

  /** A started interview followed by one successful round per requested question ends
      inactive, with nothing awaited, `4 n` entries in role order, `n` questions asked and
      `n` scores, the ones read from the Scorer's replies. The completion test alone
      then holds, while the screen as the page is written is not shown. */
  lemma FullInterview(s: Record, apiKey: string, firstQuestion: string, numQuestions: nat, rounds: seq<Round>)
    requires Consistent(s) && !s.active && apiKey != []
    requires 1 <= numQuestions && |rounds| == numQuestions
    requires forall i | 0 <= i < |rounds| :: !IsBlank(rounds[i].answer)
    ensures var after := Play(StartStep(s, apiKey, Some(firstQuestion)).after, numQuestions, rounds);
      |after.history| == 4 * numQuestions && InRoleOrder(after.history) &&
      after.scores == ScoresOf(rounds) && after.questionCount == numQuestions &&
      !after.active && CountReached(after, numQuestions) && !CompletionShown(after, numQuestions)
  {
    var started := StartStep(s, apiKey, Some(firstQuestion)).after;
    StartKeepsConsistent(s, apiKey, Some(firstQuestion));
    assert started.history == [Message(Interviewer, firstQuestion)];
    PlayFinishes(started, numQuestions, rounds);
  }

  // ---- when the completion screen appears ----

  /** A button press or form submission on the page, with the number of questions
      set in the sidebar at that moment and the replies of the remote calls. */
  datatype Event =
    | StartPressed(apiKey: string, firstQuestion: Option<string>)
    | AnswerSubmitted(answer: string, numQuestions: nat, coachReply: Option<string>,
                      scorerReply: Option<string>, nextQuestion: Option<string>)
    | EndPressed
    | ResetPressed

  /** The record after one event. Start is offered only while no interview is active,
      End only while one is, and the answer form only while an answer is awaited and
      the count has not passed the requested number. */
  function Handle(s: Record, e: Event): Record {
    match e
    case StartPressed(apiKey, firstQuestion) =>
      if s.active then s else StartStep(s, apiKey, firstQuestion).after
    case AnswerSubmitted(answer, numQuestions, coachReply, scorerReply, nextQuestion) =>
      if s.active && s.waiting && s.questionCount <= numQuestions
      then SubmitStep(s, answer, numQuestions, coachReply, scorerReply, nextQuestion).after
      else s
    case EndPressed => if s.active then EndStep(s) else s
    case ResetPressed => Initial
  }

  /** The record after a session's events, one after another. */
  function Run(s: Record, events: seq<Event>): Record
    decreases |events|
  {
    if events == [] then s else Run(Handle(s, events[0]), events[1..])
  }

  /** Submitting while an answer is awaited leaves either an answer awaited or the
      interview inactive. */
  lemma SubmitKeepsIdleBeforeFirstQuestion(s: Record, answer: string, numQuestions: nat,
                                           coachReply: Option<string>, scorerReply: Option<string>,
                                           nextQuestion: Option<string>)
    requires Consistent(s) && s.waiting
    ensures var after := SubmitStep(s, answer, numQuestions, coachReply, scorerReply, nextQuestion).after;
      after.waiting || !after.active
  {
    SubmitNoRollback(s, answer, numQuestions, coachReply, scorerReply, nextQuestion);
    SubmitAdvances(s, answer, numQuestions, coachReply, scorerReply, nextQuestion);
  }

  /** Every event keeps the record consistent and an active interview idle only before
      its first question. */
  lemma HandleKeepsInvariant(s: Record, e: Event)
    requires Consistent(s) && IdleBeforeFirstQuestion(s)
    ensures Consistent(Handle(s, e)) && IdleBeforeFirstQuestion(Handle(s, e))
  {
    match e
    case StartPressed(apiKey, firstQuestion) =>
      if !s.active {
        StartKeepsConsistent(s, apiKey, firstQuestion);
      }
    case AnswerSubmitted(answer, numQuestions, coachReply, scorerReply, nextQuestion) =>
      if s.active && s.waiting && s.questionCount <= numQuestions {
        SubmitKeepsConsistent(s, answer, numQuestions, coachReply, scorerReply, nextQuestion);
        SubmitKeepsIdleBeforeFirstQuestion(s, answer, numQuestions, coachReply, scorerReply, nextQuestion);
      }
    case EndPressed =>
    case ResetPressed =>
  }

  /** Whatever the events and whatever number of questions the sidebar holds (at
      least 1), the page as written never shows the completion screen: it requires an
      active interview that awaits no answer and has asked at least one question. */
  lemma {:induction false} CompletionScreenUnreachable(events: seq<Event>, numQuestions: nat)
    requires 1 <= numQuestions
    ensures Consistent(Run(Initial, events)) && IdleBeforeFirstQuestion(Run(Initial, events))
    ensures !CompletionShown(Run(Initial, events), numQuestions)
  {
    RunKeepsInvariant(Initial, events);
  }

  lemma {:induction false} RunKeepsInvariant(s: Record, events: seq<Event>)
    requires Consistent(s) && IdleBeforeFirstQuestion(s)
    ensures Consistent(Run(s, events)) && IdleBeforeFirstQuestion(Run(s, events))
    decreases |events|
  {
    if events != [] {
      HandleKeepsInvariant(s, events[0]);
      RunKeepsInvariant(Handle(s, events[0]), events[1..]);
    }
  }

  /** The average on the completion screen: the running total over the number of
      scores, 0 when there are none. */
  function FinalAverage(s: Record): real {
    Average(s.total, |s.scores|)
  }

  /** In a consistent record the average is the mean of the kept scores. */
  lemma FinalAverageIsMean(s: Record)
    requires Consistent(s)
    ensures s.scores != [] ==> FinalAverage(s) * |s.scores| as real == Sum(s.scores)
    ensures s.scores == [] ==> FinalAverage(s) == 0.0 && Rate(FinalAverage(s)) == NeedsImprovement
  {
  }

  // ---- the record in the session state ----

  class Session {
    var conversationHistory: seq<Message>
    var questionCount: nat
    var scoresList: seq<real>
    var totalScore: real
    var interviewActive: bool
    var waitingForAnswer: bool
    var currentQuestion: string
    var agentsReady: bool

    /** The fields as a value. */
    function Snapshot(): Record
      reads this
    {
      Record(conversationHistory, questionCount, scoresList, totalScore, interviewActive,
             waitingForAnswer, currentQuestion, agentsReady)
    }

    /** The record invariant, kept by every handler. */
    ghost predicate Valid()
      reads this
    {
      Consistent(Snapshot()) && IdleBeforeFirstQuestion(Snapshot())
    }

    /** The initialisation block, run when the session state holds no record yet. */
    constructor ()
      ensures Snapshot() == Initial && Valid()
    {
      conversationHistory := [];
      interviewActive := false;
      questionCount := 0;
      totalScore := 0.0;
      scoresList := [];
      agentsReady := false;
      currentQuestion := "";
      waitingForAnswer := false;
    }

    /** "Reset All": every key is deleted and the initialisation block runs again. */
    method Reset()
      modifies this
      ensures Snapshot() == Initial && Valid()
    {
      conversationHistory := [];
      interviewActive := false;
      questionCount := 0;
      totalScore := 0.0;
      scoresList := [];
      agentsReady := false;
      currentQuestion := "";
      waitingForAnswer := false;
    }

    /** One `conversation_history.append(...)`. */
    method AppendEntry(role: Role, content: string)
      modifies this`conversationHistory
      ensures conversationHistory == old(conversationHistory) + [Message(role, content)]
    {
      conversationHistory := conversationHistory + [Message(role, content)];
    }

    /** "Start Interview", offered while no interview is active. */
    method Start(apiKey: string, firstQuestion: Option<string>) returns (outcome: StartOutcome)
      requires Valid() && !interviewActive
      modifies this
      ensures var step := StartStep(old(Snapshot()), apiKey, firstQuestion);
        outcome == step.outcome && Snapshot() == step.after
      ensures Valid()
    {
      StartKeepsConsistent(Snapshot(), apiKey, firstQuestion);
      if apiKey == [] {
        return MissingApiKey;
      }
      agentsReady := true;
      interviewActive := true;
      questionCount := 0;
      conversationHistory := [];
      scoresList := [];
      totalScore := 0.0;
      match firstQuestion {
        case None =>
          outcome := StartFailed;
        case Some(q) =>
          currentQuestion := q;
          AppendEntry(Interviewer, q);
          waitingForAnswer := true;
          questionCount := 1;
          outcome := Started;
      }
    }

    /** "End Interview", offered while an interview is active. */
    method End()
      requires Valid() && interviewActive
      modifies this`interviewActive, this`waitingForAnswer
      ensures Snapshot() == EndStep(old(Snapshot())) && Valid()
    {
      interviewActive := false;
      waitingForAnswer := false;
    }

    /** "Submit Answer", offered while an answer is awaited and the count has not passed
        the requested number of questions, which the sidebar limits to 1..15. */
    method SubmitAnswer(answer: string, numQuestions: nat, coachReply: Option<string>,
                        scorerReply: Option<string>, nextQuestion: Option<string>)
      returns (outcome: SubmitOutcome)
      requires Valid() && waitingForAnswer
      requires 1 <= numQuestions <= MaxQuestions && questionCount <= numQuestions
      modifies this
      ensures var step := SubmitStep(old(Snapshot()), answer, numQuestions, coachReply, scorerReply, nextQuestion);
        outcome == step.outcome && Snapshot() == step.after
      ensures Valid()
    {
      if IsBlank(answer) {
        return EmptyAnswer;
      }
      EvaluateKeepsConsistent(Snapshot(), answer, coachReply, scorerReply);
      var failed := Evaluate(answer, coachReply, scorerReply);
      if failed.Some? {
        return RemoteError(failed.value);
      }
      outcome := Advance(numQuestions, nextQuestion);
    }

    /** The answer, the Coach's and the Scorer's replies are appended as they arrive, and
        the score is kept; the call that raised, if any, is returned. */
    method Evaluate(answer: string, coachReply: Option<string>, scorerReply: Option<string>)
      returns (failed: Option<Call>)
      requires Valid()
      modifies this`conversationHistory, this`scoresList, this`totalScore
      ensures var step := EvaluateStep(old(Snapshot()), answer, coachReply, scorerReply);
        failed == step.outcome && Snapshot() == step.after
    {
      AppendEntry(Candidate, answer);
      if coachReply.None? {
        return Some(CoachCall);
      }
      AppendEntry(Coach, coachReply.value);
      if scorerReply.None? {
        return Some(ScorerCall);
      }
      AppendEntry(Scorer, scorerReply.value);
      var score := ExtractScore(scorerReply.value);
      scoresList := scoresList + [score];
      totalScore := totalScore + score;
      failed := None;
    }

    /** The next question is asked, or the interview finishes. */
    method Advance(numQuestions: nat, nextQuestion: Option<string>) returns (outcome: SubmitOutcome)
      requires Valid() && waitingForAnswer
      modifies this`conversationHistory, this`currentQuestion, this`questionCount,
               this`waitingForAnswer, this`interviewActive
      ensures var step := AdvanceStep(old(Snapshot()), numQuestions, nextQuestion);
        outcome == step.outcome && Snapshot() == step.after
      ensures Valid()
    {
      AdvanceKeepsConsistent(Snapshot(), numQuestions, nextQuestion);
      if questionCount < numQuestions {
        if nextQuestion.None? {
          return RemoteError(InterviewerCall);
        }
        currentQuestion := nextQuestion.value;
        AppendEntry(Interviewer, nextQuestion.value);
        questionCount := questionCount + 1;
        outcome := NextQuestion;
      } else {
        waitingForAnswer := false;
        interviewActive := false;
        outcome := Finished;
      }
    }

    /** The average shown on the completion screen. */
    function AverageScore(): (average: real)
      reads this
      requires Valid()
      ensures scoresList != [] ==> average * |scoresList| as real == Sum(scoresList)
      ensures scoresList == [] ==> average == 0.0
    {
      FinalAverageIsMean(Snapshot());
      FinalAverage(Snapshot())
    }
  }
}
