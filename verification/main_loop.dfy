/**
 The retry loop of `Main.run`: run a login attempt, report what it threw,
 ask whether to retry, and go round again only on the answer "y". The
 attempts and the retry answers read from one stream of input lines, as the
 handler and the loop share one `Scanner`.
 */
module MainLoop {
  import opened Results
  import opened LoginHandler

  const RetryPrompt: string := "Do you want to retry? y/n"
  const UnexpectedError: string := "Unexpected error happened"
  const Yes: string := "y"

  /**
   One pass of the loop: the attempt, the line printed for what it threw,
   and the answer read at the prompt (`None` when the input had run out,
   which ends `run` with the scanner's exception).
   */
  datatype Round = Round(attempt: Attempt, report: seq<string>, answer: Option<string>)

  /** The catch clauses: an `IllegalStateException` prints its message, anything else a fixed line. */
  function Report(outcome: Outcome): (r: seq<string>)
    ensures |r| <= 1
    ensures r == [] <==> outcome.Returned?
    ensures outcome.Threw? && outcome.error.IllegalState? ==> r == [outcome.error.message]
    ensures outcome.Threw? && outcome.error.Unexpected? ==> r == [UnexpectedError]
  {
    match outcome
    case Returned => []
    case Threw(IllegalState(message)) => [message]
    case Threw(Unexpected(_)) => [UnexpectedError]
  }

  /** The lines a round prints, prompt last. */
  function Transcript(r: Round): seq<string>
  {
    Texts(r.attempt.output) + r.report + [RetryPrompt]
  }

  /** Everything printed over the rounds. */
  function Output(rounds: seq<Round>): seq<string>
    decreases |rounds|
  {
    if |rounds| == 0 then [] else Transcript(rounds[0]) + Output(rounds[1..])
  }

  /** The input lines the rounds consumed, in order. */
  function LinesRead(rounds: seq<Round>): seq<string>
    decreases |rounds|
  {
    if |rounds| == 0 then []
    else
      var r := rounds[0];
      r.attempt.read + (if r.answer.Some? then [r.answer.value] else []) + LinesRead(rounds[1..])
  }

  /** The answers given at the retry prompts, in order. */
  function Answers(rounds: seq<Round>): seq<string>
    decreases |rounds|
  {
    if |rounds| == 0 then []
    else (if rounds[0].answer.Some? then [rounds[0].answer.value] else []) + Answers(rounds[1..])
  }

  /** How many of the first elements of `xs` equal `x`. */
  function LeadingCount(xs: seq<string>, x: string): (n: nat)
    ensures n <= |xs|
    ensures forall i | 0 <= i < n :: xs[i] == x
    ensures n < |xs| ==> xs[n] != x
    decreases |xs|
  {
    if |xs| > 0 && xs[0] == x then 1 + LeadingCount(xs[1..], x) else 0
  }

  /** How many elements of `xs` equal `x`. */
  function Count(xs: seq<string>, x: string): nat
    decreases |xs|
  {
    if |xs| == 0 then 0 else (if xs[0] == x then 1 else 0) + Count(xs[1..], x)
  }

  lemma {:induction false} CountAppend(a: seq<string>, b: seq<string>, x: string)
    ensures Count(a + b, x) == Count(a, x) + Count(b, x)
    decreases |a|
  {
    if |a| == 0 {
      assert a + b == b;
    } else {
      assert (a + b)[1..] == a[1..] + b;
      CountAppend(a[1..], b, x);
    }
  }

  lemma {:induction false} CountAbsent(xs: seq<string>, x: string)
    requires x !in xs
    ensures Count(xs, x) == 0
    decreases |xs|
  {
    if |xs| > 0 {
      assert x !in xs[1..];
      CountAbsent(xs[1..], x);
    }
  }

  /** `performLogin` as the loop sees it: the attempt of round `n`, given the lines not yet read. */
  type Handler = (nat, seq<string>) -> Attempt

  /** The handler takes the lines it reads from the front of the input, as a scanner does. */
  ghost predicate ReadsFromFront(h: Handler)
  {
    forall n: nat, input: seq<string> :: h(n, input).read <= input
  }

  /** The login handler of this model, where `scripts(n)` is the adapter's behaviour in round `n`. */
  function Login(scripts: nat -> Script): Handler
  {
    (n: nat, input: seq<string>) => PerformLogin(scripts(n), input)
  }

  lemma LoginIsWellBehaved(scripts: nat -> Script)
    ensures ReadsFromFront(Login(scripts))
  {
    forall n: nat, input: seq<string>
      ensures Login(scripts)(n, input) == PerformLogin(scripts(n), input)
    {
    }
  }

  /** A round as `run` produces it: the report matches how the attempt ended. */
  predicate WellFormedRound(r: Round)
  {
    r.report == Report(r.attempt.outcome)
  }

  /** The rounds of `run` from the `n`-th attempt on. */
  function RunFrom(h: Handler, n: nat, input: seq<string>): (rounds: seq<Round>)
    requires ReadsFromFront(h)
    ensures |rounds| >= 1
    decreases |input|
  {
    var attempt := h(n, input);
    var rest := input[|attempt.read|..];
    var report := Report(attempt.outcome);
    if |rest| == 0 then [Round(attempt, report, None)]
    else if rest[0] != Yes then [Round(attempt, report, Some(rest[0]))]
    else
      [Round(attempt, report, Some(rest[0]))] + RunFrom(h, n + 1, rest[1..])
  }

  /** `run`, with the handler of this model. */
  function Run(scripts: nat -> Script, input: seq<string>): (rounds: seq<Round>)
    ensures |rounds| >= 1
  {
    LoginIsWellBehaved(scripts);
    RunFrom(Login(scripts), 0, input)
  }

  // ---------------------------------------------------------------- properties

  /** The answer read after an attempt that left `rest` unread. */
  function AnswerOf(rest: seq<string>): Option<string>
  {
    if |rest| == 0 then None else Some(rest[0])
  }

  /** One turn of the loop: the first round, followed by the rest of the run only after "y". */
  lemma RunFromStep(h: Handler, n: nat, input: seq<string>)
    requires ReadsFromFront(h)
    ensures var a := h(n, input);
            var rest := input[|a.read|..];
            var r := Round(a, Report(a.outcome), AnswerOf(rest));
            && input == a.read + rest
            && |input| == |a.read| + |rest|
            && (|rest| > 0 ==> input == a.read + [rest[0]] + rest[1..])
            && (|rest| > 0 && rest[0] == Yes ==> RunFrom(h, n, input) == [r] + RunFrom(h, n + 1, rest[1..]))
            && (!(|rest| > 0 && rest[0] == Yes) ==> RunFrom(h, n, input) == [r])
  {
    var a := h(n, input);
    var rest := input[|a.read|..];
    if |rest| > 0 {
      assert rest == [rest[0]] + rest[1..];
    }
  }

  /** The lines read by a round put in front of other rounds. */
  lemma LinesReadCons(r: Round, later: seq<Round>)
    ensures LinesRead([r] + later) == r.attempt.read + (if r.answer.Some? then [r.answer.value] else []) + LinesRead(later)
    ensures LinesRead([r]) == r.attempt.read + (if r.answer.Some? then [r.answer.value] else [])
  {
    assert ([r] + later)[1..] == later;
    assert [r][1..] == [];
  }

  lemma AnswersCons(r: Round, later: seq<Round>)
    ensures Answers([r] + later) == (if r.answer.Some? then [r.answer.value] else []) + Answers(later)
    ensures Answers([r]) == (if r.answer.Some? then [r.answer.value] else [])
  {
    assert ([r] + later)[1..] == later;
    assert [r][1..] == [];
  }

  /**
   The loop goes round again exactly when the answer is "y": every round but
   the last was answered "y", and the last was not.
   */
  lemma {:induction false} RetriesOnlyOnYes(h: Handler, n: nat, input: seq<string>)
    requires ReadsFromFront(h)
    ensures var rounds := RunFrom(h, n, input);
            && (forall j | 0 <= j < |rounds| - 1 :: rounds[j].answer == Some(Yes))
            && rounds[|rounds| - 1].answer != Some(Yes)
    decreases |input|
  {
    var a := h(n, input);
    var rest := input[|a.read|..];
    var r := Round(a, Report(a.outcome), AnswerOf(rest));
    if |rest| > 0 && rest[0] == Yes {
      var later := RunFrom(h, n + 1, rest[1..]);
      assert RunFrom(h, n, input) == [r] + later by {
        RunFromStep(h, n, input);
      }
      RetriesOnlyOnYes(h, n + 1, rest[1..]);
      var rounds := [r] + later;
      assert forall j | 1 <= j < |rounds| :: rounds[j] == later[j - 1];
    } else {
      assert RunFrom(h, n, input) == [r] by {
        RunFromStep(h, n, input);
      }
    }
  }

  /**
   The rounds read the input in order and never invent a line: the user-id
   lines of the attempts and the retry answers, interleaved, form a prefix
   of the input.
   */
  lemma {:induction false} RunReadsInputInOrder(h: Handler, n: nat, input: seq<string>)
    requires ReadsFromFront(h)
    ensures LinesRead(RunFrom(h, n, input)) <= input
    decreases |input|
  {
    var a := h(n, input);
    var rest := input[|a.read|..];
    RunFromStep(h, n, input);
    var r := Round(a, Report(a.outcome), AnswerOf(rest));
    LinesReadCons(r, []);
    if |rest| > 0 && rest[0] == Yes {
      var later := RunFrom(h, n + 1, rest[1..]);
      RunReadsInputInOrder(h, n + 1, rest[1..]);
      LinesReadCons(r, later);
      PrefixExtends(a.read + [rest[0]], LinesRead(later), rest[1..]);
    } else if |rest| > 0 {
      assert [rest[0]] <= rest;
      PrefixExtends(a.read, [rest[0]], rest);
    } else {
      assert a.read == input;
    }
  }

  lemma PrefixExtends(a: seq<string>, b: seq<string>, c: seq<string>)
    requires b <= c
    ensures a + b <= a + c
  {
    assert (a + c)[..|a + b|] == a + b;
  }

  /** Every round of `run` printed handler lines and reported how its attempt ended. */
  lemma {:induction false} RunRoundsWellFormed(h: Handler, n: nat, input: seq<string>)
    requires ReadsFromFront(h)
    ensures forall j | 0 <= j < |RunFrom(h, n, input)| :: WellFormedRound(RunFrom(h, n, input)[j])
    decreases |input|
  {
    var a := h(n, input);
    var rest := input[|a.read|..];
    var r := Round(a, Report(a.outcome), AnswerOf(rest));
    assert WellFormedRound(r);
    if |rest| > 0 && rest[0] == Yes {
      var later := RunFrom(h, n + 1, rest[1..]);
      assert RunFrom(h, n, input) == [r] + later by {
        RunFromStep(h, n, input);
      }
      RunRoundsWellFormed(h, n + 1, rest[1..]);
      assert forall j | 1 <= j < 1 + |later| :: ([r] + later)[j] == later[j - 1];
    } else {
      assert RunFrom(h, n, input) == [r] by {
        RunFromStep(h, n, input);
      }
    }
  }

  /**
   Once the loop stops without an answer, the whole input has been read:
   `run` ends on the scanner's exception only when the lines ran out.
   */
  lemma RunEndsOnNoOrExhaustion(h: Handler, n: nat, input: seq<string>)
    requires ReadsFromFront(h)
    ensures var rounds := RunFrom(h, n, input);
            rounds[|rounds| - 1].answer.None? ==> LinesRead(rounds) == input
  {
    RunReadsInputInOrder(h, n, input);
    ReadsAllWhenExhausted(h, n, input);
  }

  /** The run stopped without an answer, having read `|input|` lines. */
  ghost predicate ExhaustedReadingAll(rounds: seq<Round>, input: seq<string>)
    requires |rounds| >= 1
  {
    rounds[|rounds| - 1].answer.None? ==> |LinesRead(rounds)| == |input|
  }

  lemma {:induction false} ReadsAllWhenExhausted(h: Handler, n: nat, input: seq<string>)
    requires ReadsFromFront(h)
    ensures ExhaustedReadingAll(RunFrom(h, n, input), input)
    decreases |input|
  {
    var a := h(n, input);
    var rest := input[|a.read|..];
    if |rest| > 0 && rest[0] == Yes {
      ReadsAllWhenExhausted(h, n + 1, rest[1..]);
      ExhaustedAfterYes(h, n, input);
    } else {
      var r := Round(a, Report(a.outcome), AnswerOf(rest));
      assert RunFrom(h, n, input) == [r] && |input| == |a.read| + |rest| by {
        RunFromStep(h, n, input);
      }
      LinesReadCons(r, []);
    }
  }

  /** The step of `ReadsAllWhenExhausted` past an answer "y". */
  lemma ExhaustedAfterYes(h: Handler, n: nat, input: seq<string>)
    requires ReadsFromFront(h)
    requires var rest := input[|h(n, input).read|..];
             && |rest| > 0 && rest[0] == Yes
             && ExhaustedReadingAll(RunFrom(h, n + 1, rest[1..]), rest[1..])
    ensures ExhaustedReadingAll(RunFrom(h, n, input), input)
  {
    var a := h(n, input);
    var rest := input[|a.read|..];
    var r := Round(a, Report(a.outcome), AnswerOf(rest));
    var later := RunFrom(h, n + 1, rest[1..]);
    assert RunFrom(h, n, input) == [r] + later && |input| == |a.read| + 1 + |rest[1..]| by {
      RunFromStep(h, n, input);
    }
    LinesReadCons(r, later);
    assert ([r] + later)[|later|] == later[|later| - 1];
  }

  /**
   `run` performs one attempt per "y" answered in a row, plus the first:
   the number of rounds is one more than the number of leading "y" answers.
   */
  lemma {:induction false} AttemptsAreOnePlusRetries(h: Handler, n: nat, input: seq<string>)
    requires ReadsFromFront(h)
    ensures var rounds := RunFrom(h, n, input);
            |rounds| == 1 + LeadingCount(Answers(rounds), Yes)
    decreases |input|
  {
    var a := h(n, input);
    var rest := input[|a.read|..];
    RunFromStep(h, n, input);
    var r := Round(a, Report(a.outcome), AnswerOf(rest));
    AnswersCons(r, []);
    if |rest| > 0 && rest[0] == Yes {
      var later := RunFrom(h, n + 1, rest[1..]);
      AttemptsAreOnePlusRetries(h, n + 1, rest[1..]);
      AnswersCons(r, later);
      assert ([Yes] + Answers(later))[1..] == Answers(later);
    }
  }

  /** No line of the handler reads as the retry prompt: they start with other letters. */
  lemma HandlerTextIsNotRetryPrompt(line: Line)
    ensures Text(line) != RetryPrompt
  {
    assert RetryPrompt[0] == 'D';
    TextStartsWithInitial(line);
  }

  /**
   The retry prompt is printed exactly once per round, provided no attempt
   threw an `IllegalStateException` whose message is the prompt itself.
   */
  lemma {:induction false} PromptOncePerRound(rounds: seq<Round>)
    requires forall i | 0 <= i < |rounds| :: WellFormedRound(rounds[i])
    requires forall i | 0 <= i < |rounds| :: rounds[i].attempt.outcome != Threw(IllegalState(RetryPrompt))
    ensures Count(Output(rounds), RetryPrompt) == |rounds|
    decreases |rounds|
  {
    if |rounds| > 0 {
      var r := rounds[0];
      assert WellFormedRound(r);
      assert r.attempt.outcome != Threw(IllegalState(RetryPrompt));
      assert UnexpectedError[0] != RetryPrompt[0];
      assert RetryPrompt !in r.report;
      forall j | 0 <= j < |r.attempt.output|
        ensures Texts(r.attempt.output)[j] != RetryPrompt
      {
        HandlerTextIsNotRetryPrompt(r.attempt.output[j]);
      }
      CountAbsent(Texts(r.attempt.output) + r.report, RetryPrompt);
      CountAppend(Texts(r.attempt.output) + r.report, [RetryPrompt], RetryPrompt);
      CountAppend(Transcript(r), Output(rounds[1..]), RetryPrompt);
      PromptOncePerRound(rounds[1..]);
    }
  }

  /**
   Whatever the attempt threw, the round prints the exception's message for
   an `IllegalStateException` and the fixed line for anything else, then
   the retry prompt.
   */
  lemma RoundTranscript(r: Round)
    requires WellFormedRound(r)
    ensures Transcript(r)[|Transcript(r)| - 1] == RetryPrompt
    ensures r.attempt.outcome.Threw? && r.attempt.outcome.error.IllegalState? ==>
              Transcript(r) == Texts(r.attempt.output) + [r.attempt.outcome.error.message, RetryPrompt]
    ensures r.attempt.outcome.Threw? && r.attempt.outcome.error.Unexpected? ==>
              Transcript(r) == Texts(r.attempt.output) + [UnexpectedError, RetryPrompt]
    ensures r.attempt.outcome.Returned? ==> Transcript(r) == Texts(r.attempt.output) + [RetryPrompt]
  {
  }

  /**
   Every round of `run` ends with its report and the retry prompt, and the
   loop goes on to another attempt exactly when the answer is "y", whatever
   the attempt threw.
   */
  lemma EveryRoundReportsAndAsks(scripts: nat -> Script, input: seq<string>, i: nat)
    requires i < |Run(scripts, input)|
    ensures WellFormedRound(Run(scripts, input)[i])
    ensures i + 1 < |Run(scripts, input)| <==> Run(scripts, input)[i].answer == Some(Yes)
  {
    LoginIsWellBehaved(scripts);
    RunRoundsWellFormed(Login(scripts), 0, input);
    RetriesOnlyOnYes(Login(scripts), 0, input);
  }

  /** A handler that reads nothing and always gives attempt `a`. */
  ghost predicate ConstantHandler(h: Handler, a: Attempt)
  {
    && a.read == []
    && forall k: nat, input: seq<string> :: h(k, input) == a
  }

  /** One round of a constant handler: the answer is the first line. */
  lemma ConstantHandlerStep(h: Handler, a: Attempt, n: nat, input: seq<string>)
    requires ConstantHandler(h, a)
    ensures ReadsFromFront(h)
    ensures |input| > 0 && input[0] == Yes ==>
              RunFrom(h, n, input) == [Round(a, Report(a.outcome), Some(Yes))] + RunFrom(h, n + 1, input[1..])
    ensures |input| > 0 && input[0] != Yes ==> RunFrom(h, n, input) == [Round(a, Report(a.outcome), Some(input[0]))]
  {
    assert ReadsFromFront(h) by {
      forall k: nat, inp: seq<string>
        ensures h(k, inp).read <= inp
      {
        assert h(k, inp) == a;
      }
    }
    assert h(n, input) == a;
    assert input[|a.read|..] == input;
  }

  /** A constant handler, answered "y" three times and then "n", runs four rounds of its attempt. */
  lemma FourRoundsOnThreeRetries(h: Handler, n: nat, a: Attempt)
    requires ConstantHandler(h, a)
    ensures ReadsFromFront(h)
    ensures var rounds := RunFrom(h, n, ["y", "y", "y", "n"]);
            && |rounds| == 4
            && forall i | 0 <= i < 4 :: rounds[i].attempt == a
  {
    var input: seq<string> := ["y", "y", "y", "n"];
    var yes := Round(a, Report(a.outcome), Some(Yes));
    var no := Round(a, Report(a.outcome), Some("n"));
    ConstantHandlerStep(h, a, n, input);
    assert RunFrom(h, n + 3, input[3..]) == [no] by {
      ConstantHandlerStep(h, a, n + 3, input[3..]);
    }
    assert RunFrom(h, n + 2, input[2..]) == [yes, no] by {
      ConstantHandlerStep(h, a, n + 2, input[2..]);
      assert input[2..][1..] == input[3..];
    }
    assert RunFrom(h, n + 1, input[1..]) == [yes, yes, no] by {
      ConstantHandlerStep(h, a, n + 1, input[1..]);
      assert input[1..][1..] == input[2..];
    }
    assert RunFrom(h, n, input) == [yes, yes, yes, no];
  }

  /**
   With an adapter whose method listing always fails, answering "y" three
   times and then "n" makes four attempts, each a single listing call, and
   prints the retry prompt four times.
   */
  lemma FourAttemptsOnThreeRetries(scripts: nat -> Script, e: Exception)
    requires forall n: nat :: scripts(n).methods == Failure(e)
    requires e != IllegalState(RetryPrompt)
    ensures var rounds := Run(scripts, ["y", "y", "y", "n"]);
            && |rounds| == 4
            && (forall i | 0 <= i < 4 :: rounds[i].attempt.calls == [GetAllLoginMethods])
            && Count(Output(rounds), RetryPrompt) == 4
  {
    var input: seq<string> := ["y", "y", "y", "n"];
    var h := Login(scripts);
    var a := Attempt([GetAllLoginMethods], [], [], Threw(e));
    forall k: nat, inp: seq<string>
      ensures h(k, inp) == a
    {
      assert h(k, inp) == PerformLogin(scripts(k), inp);
      assert scripts(k).methods == Failure(e);
    }
    assert ConstantHandler(h, a);
    FourRoundsOnThreeRetries(h, 0, a);
    LoginIsWellBehaved(scripts);
    RunRoundsWellFormed(h, 0, input);
    PromptOncePerRound(RunFrom(h, 0, input));
  }
}
