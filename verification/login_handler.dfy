/**
 One login attempt (`LoginHandler.performLogin`): list the methods, select
 Mobile BankID, resolve the user id, initiate the login and, when the
 provider says the client has not started yet, poll the status link at most
 ten times until it reports `COMPLETE`.

 The adapter is a `Script`: the answers its three operations give. The
 attempt records the calls it made, the lines it printed, the input lines it
 read and whether it returned or threw.
 */
module LoginHandler {
  import opened Results
  import opened Beans
  import opened Strings

  const DefaultUserId: string := "191212121212"
  const SelectedAuthMethod: AuthenticationCode := BankIdMobile

  /** The number of status requests the polling loop makes at most. */
  const MaxPolls: nat := 10

  /*
   The printed wording. The longer texts are written as two concatenated
   literals: the verifier reasons about a short literal cheaply but slowly
   about a long one that proofs index into. For the same reason the lines
   are told apart by their first character (`Initial` below) rather than by
   comparing whole texts.
   */
  const MethodsPrefix: string := "Available login methods: "
  const UserIdPrompt: string := "Enter user id you want to login, " + "or just press enter to use default user"
  const StatusPrefix: string := "Current login status: "
  const SuccessPrefix: string := "Login was successfully, " + "login status: "
  const CannotProceedPrefix: string := "Can not proceed with " + "current login status: "

  /** A call the handler makes on the adapter. */
  datatype Call =
    | GetAllLoginMethods
    | InitiateLogin(userId: string, authMethod: AuthenticationMethod)
    | GetLoginStatus(link: Link)

  /**
   The adapter's answers: the method list, the initiation response, and
   `status(n)` for the `n`-th status request (counting from 0).
   */
  datatype Script = Script(
    methods: Result<seq<AuthenticationMethod>>,
    initiation: Result<LoginInitiationResponse>,
    status: nat -> Result<LoginStatus>)

  /** How `performLogin` ended. */
  datatype Outcome = Returned | Threw(error: Exception)

  /** A line the handler prints, before it is rendered as text. */
  datatype Line =
    | MethodsListed(messages: seq<string>)
    | UserIdPrompted
    | StatusReported(status: LoginStatus)
    | LoginSucceeded(status: LoginStatus)
    | CannotProceed(status: LoginStatus)

  /** A stretch of the attempt: calls made, lines printed, and how it ended. */
  datatype Progress = Progress(calls: seq<Call>, output: seq<Line>, outcome: Outcome)

  /** A whole attempt; `read` is the input consumed (the user-id line, if it got that far). */
  datatype Attempt = Attempt(calls: seq<Call>, output: seq<Line>, read: seq<string>, outcome: Outcome)

  // ---------------------------------------------------------------- lines

  /** The text `println` writes for a line; the message list is printed as `List.toString` does. */
  function Text(line: Line): (r: string)
    ensures line.MethodsListed? ==> MethodsPrefix + "[" <= r && r[|r| - 1] == ']'
    ensures line.StatusReported? ==> StatusPrefix <= r && r[|StatusPrefix|..] == StatusName(line.status)
    ensures line.LoginSucceeded? ==> SuccessPrefix <= r && r[|SuccessPrefix|..] == StatusName(line.status)
    ensures line.CannotProceed? ==> CannotProceedPrefix <= r && r[|CannotProceedPrefix|..] == StatusName(line.status)
  {
    match line
    case MethodsListed(messages) => MethodsPrefix + "[" + Join(messages, ", ") + "]"
    case UserIdPrompted => UserIdPrompt
    case StatusReported(s) => StatusPrefix + StatusName(s)
    case LoginSucceeded(s) => SuccessPrefix + StatusName(s)
    case CannotProceed(s) => CannotProceedPrefix + StatusName(s)
  }

  /** The texts of the lines, in order. */
  function Texts(lines: seq<Line>): (r: seq<string>)
    ensures |r| == |lines|
    ensures forall i | 0 <= i < |lines| :: r[i] == Text(lines[i])
  {
    seq(|lines|, i requires 0 <= i < |lines| => Text(lines[i]))
  }

  /** The display messages of the methods, as `map(AuthenticationMethod::getMessage)` lists them. */
  function Messages(methods: seq<AuthenticationMethod>): seq<string>
  {
    MapSeq(methods, (m: AuthenticationMethod) => m.message)
  }

  lemma PrefixGivesFirstChar(prefix: string, line: string)
    requires |prefix| > 0 && prefix <= line
    ensures |line| > 0 && line[0] == prefix[0]
  {
    assert line[0] == line[..|prefix|][0];
  }

  /** The first character of each kind of line: the kinds can be told apart by it, except the two 'C' kinds. */
  function Initial(line: Line): char
  {
    match line
    case MethodsListed(_) => 'A'
    case UserIdPrompted => 'E'
    case StatusReported(_) => 'C'
    case LoginSucceeded(_) => 'L'
    case CannotProceed(_) => 'C'
  }

  lemma TextStartsWithInitial(line: Line)
    ensures |Text(line)| > 0 && Text(line)[0] == Initial(line)
  {
    match line
    case MethodsListed(messages) =>
      assert MethodsPrefix[0] == 'A';
      PrefixGivesFirstChar(MethodsPrefix, Text(line));
    case UserIdPrompted =>
      assert UserIdPrompt[0] == 'E';
    case StatusReported(s) =>
      assert StatusPrefix[0] == 'C';
      PrefixGivesFirstChar(StatusPrefix, Text(line));
    case LoginSucceeded(s) =>
      assert SuccessPrefix[0] == 'L';
      PrefixGivesFirstChar(SuccessPrefix, Text(line));
    case CannotProceed(s) =>
      assert CannotProceedPrefix[0] == 'C';
      PrefixGivesFirstChar(CannotProceedPrefix, Text(line));
  }

  /** Only a success line reads like one: no other line prints the text of a success line. */
  lemma OnlySuccessLinesReadAsSuccess(line: Line, s: LoginStatus)
    ensures Text(line) == Text(LoginSucceeded(s)) ==> line.LoginSucceeded?
  {
    TextStartsWithInitial(line);
    TextStartsWithInitial(LoginSucceeded(s));
  }

  /** A status line names its status: two status lines print alike only for the same status. */
  lemma StatusLineIdentifiesStatus(a: LoginStatus, b: LoginStatus)
    requires ValidStatus(a) && ValidStatus(b)
    ensures Text(StatusReported(a)) == Text(StatusReported(b)) <==> a == b
  {
    StatusNameInjective(a, b);
  }

  // ---------------------------------------------------------------- steps

  /** `getLoginMethod`'s selection: the first method whose code is Mobile BankID. */
  function GetLoginMethod(methods: seq<AuthenticationMethod>): (r: Result<AuthenticationMethod>)
    ensures r.Success? ==> r.value.code == SelectedAuthMethod
    ensures r.Success? ==> exists i :: 0 <= i < |methods| && methods[i] == r.value
                             && forall j | 0 <= j < i :: methods[j].code != SelectedAuthMethod
    ensures r.Failure? <==> forall i | 0 <= i < |methods| :: methods[i].code != SelectedAuthMethod
    ensures r.Failure? ==> r.error == IllegalState(CodeName(SelectedAuthMethod) + " method is not available")
    decreases |methods|
  {
    if |methods| == 0 then Failure(IllegalState(CodeName(SelectedAuthMethod) + " method is not available"))
    else if methods[0].code == SelectedAuthMethod then Success(methods[0])
    else
      var r := GetLoginMethod(methods[1..]);
      assert forall i | 1 <= i < |methods| :: methods[i] == methods[1..][i - 1];
      r
  }

  /** `getUserId`: a blank line stands for the default user. */
  function GetUserId(line: string): (id: string)
    ensures !IsBlank(id)
    ensures id == line || id == DefaultUserId
    ensures IsBlank(line) <==> id == DefaultUserId && line != DefaultUserId
  {
    assert !IsWhitespace(DefaultUserId[0]);
    if IsBlank(line) then DefaultUserId else line
  }

  /**
   The polling loop from iteration `c` on: request the status of `link`;
   stop after `COMPLETE` with the success line, otherwise print the status
   and go on, for at most `MaxPolls` iterations in all.
   */
  function PollFrom(link: Link, status: nat -> Result<LoginStatus>, c: nat): (p: Progress)
    requires c <= MaxPolls
    ensures |p.calls| <= MaxPolls - c
    ensures c < MaxPolls ==> |p.calls| >= 1
    ensures forall i | 0 <= i < |p.calls| :: p.calls[i] == GetLoginStatus(link)
    ensures |p.output| <= |p.calls|
    ensures forall i | 0 <= i < |p.output| :: p.output[i].StatusReported? || p.output[i] == LoginSucceeded(Complete)
    decreases MaxPolls - c
  {
    if c == MaxPolls then Progress([], [], Returned)
    else
      match status(c)
      case Failure(e) => Progress([GetLoginStatus(link)], [], Threw(e))
      case Success(s) =>
        if s == Complete then Progress([GetLoginStatus(link)], [LoginSucceeded(Complete)], Returned)
        else
          var rest := PollFrom(link, status, c + 1);
          var output := [StatusReported(s)] + rest.output;
          assert forall i | 1 <= i < |output| :: output[i] == rest.output[i - 1];
          Progress([GetLoginStatus(link)] + rest.calls, output, rest.outcome)
  }

  /** `checkLoginStatus`: poll the initiation's `next` link only when the client has not started. */
  function CheckLoginStatus(initiated: LoginInitiationResponse, status: nat -> Result<LoginStatus>): (p: Progress)
    ensures initiated.status != ClientNotStarted ==>
              p == Progress([], [CannotProceed(initiated.status)], Returned)
    ensures forall i | 0 <= i < |p.calls| :: p.calls[i] == GetLoginStatus(initiated.links.next)
    ensures |p.calls| <= MaxPolls
  {
    if initiated.status == ClientNotStarted then PollFrom(initiated.links.next, status, 0)
    else Progress([], [CannotProceed(initiated.status)], Returned)
  }

  /** The links of the status requests among `calls`, in order. */
  function Polls(calls: seq<Call>): seq<Link>
  {
    if |calls| == 0 then []
    else (if calls[0].GetLoginStatus? then [calls[0].link] else []) + Polls(calls[1..])
  }

  lemma {:induction false} PollsAppend(a: seq<Call>, b: seq<Call>)
    ensures Polls(a + b) == Polls(a) + Polls(b)
    decreases |a|
  {
    if |a| > 0 {
      assert (a + b)[1..] == a[1..] + b;
      PollsAppend(a[1..], b);
    } else {
      assert a + b == b;
    }
  }

  lemma {:induction false} PollsOfStatusCalls(calls: seq<Call>, link: Link)
    requires forall i | 0 <= i < |calls| :: calls[i] == GetLoginStatus(link)
    ensures |Polls(calls)| == |calls|
    ensures forall i | 0 <= i < |Polls(calls)| :: Polls(calls)[i] == link
    decreases |calls|
  {
    if |calls| > 0 {
      PollsOfStatusCalls(calls[1..], link);
    }
  }

  lemma {:induction false} PollsOfOtherCalls(calls: seq<Call>)
    requires forall i | 0 <= i < |calls| :: !calls[i].GetLoginStatus?
    ensures Polls(calls) == []
    decreases |calls|
  {
    if |calls| > 0 {
      PollsOfOtherCalls(calls[1..]);
    }
  }

  /** `performLogin` against a scripted adapter and an input of lines. */
  function PerformLogin(script: Script, input: seq<string>): (a: Attempt)
    ensures a.read <= input && |a.read| <= 1
    ensures |a.calls| >= 1 && a.calls[0] == GetAllLoginMethods
    ensures |a.calls| >= 2 ==> a.calls[1].InitiateLogin?
    ensures forall i | 2 <= i < |a.calls| :: a.calls[i].GetLoginStatus?
    ensures |a.calls| <= 2 + MaxPolls
  {
    match script.methods
    case Failure(e) => Attempt([GetAllLoginMethods], [], [], Threw(e))
    case Success(methods) =>
      var listed := [MethodsListed(Messages(methods))];
      match GetLoginMethod(methods)
      case Failure(e) => Attempt([GetAllLoginMethods], listed, [], Threw(e))
      case Success(authMethod) =>
        var prompted := listed + [UserIdPrompted];
        if |input| == 0 then Attempt([GetAllLoginMethods], prompted, [], Threw(Unexpected(NoLine)))
        else
          var calls := [GetAllLoginMethods, InitiateLogin(GetUserId(input[0]), authMethod)];
          match script.initiation
          case Failure(e) => Attempt(calls, prompted, [input[0]], Threw(e))
          case Success(initiated) =>
            var p := CheckLoginStatus(initiated, script.status);
            Attempt(calls + p.calls, prompted + p.output, [input[0]], p.outcome)
  }

  // ---------------------------------------------------------------- properties of the loop

  /** One iteration of the loop that neither failed nor completed: a status line, then the rest of the loop. */
  lemma PollStep(link: Link, status: nat -> Result<LoginStatus>, c: nat)
    requires c < MaxPolls
    requires status(c).Success? && status(c).value != Complete
    ensures PollFrom(link, status, c).calls == [GetLoginStatus(link)] + PollFrom(link, status, c + 1).calls
    ensures PollFrom(link, status, c).output == [StatusReported(status(c).value)] + PollFrom(link, status, c + 1).output
    ensures PollFrom(link, status, c).outcome == PollFrom(link, status, c + 1).outcome
  {
  }

  /**
   When the `k`-th status (counting from `c`) is the first `COMPLETE`, the loop
   makes `k - c + 1` requests, prints `k - c + 1` lines, the last of them the
   success line, and returns.
   */
  lemma {:induction false} PollCompleteAt(link: Link, status: nat -> Result<LoginStatus>, c: nat, k: nat)
    requires c <= k < MaxPolls
    requires forall j | c <= j < k :: status(j).Success? && status(j).value != Complete
    requires status(k) == Success(Complete)
    ensures |PollFrom(link, status, c).calls| == k - c + 1
    ensures |PollFrom(link, status, c).output| == k - c + 1
    ensures PollFrom(link, status, c).output[k - c] == LoginSucceeded(Complete)
    ensures PollFrom(link, status, c).outcome == Returned
    decreases k - c
  {
    if c < k {
      var p := PollFrom(link, status, c);
      var rest := PollFrom(link, status, c + 1);
      assert |p.calls| == 1 + |rest.calls| && p.output == [StatusReported(status(c).value)] + rest.output
             && p.outcome == rest.outcome by {
        assert status(c).Success? && status(c).value != Complete;
        PollStep(link, status, c);
      }
      PollCompleteAt(link, status, c + 1, k);
      assert p.output[k - c] == rest.output[k - c - 1];
    }
  }

  /**
   When no status from iteration `c` to the last is `COMPLETE`, the loop runs
   out: one request and one line per remaining iteration, and it returns
   normally.
   */
  lemma {:induction false} PollNeverComplete(link: Link, status: nat -> Result<LoginStatus>, c: nat)
    requires c <= MaxPolls
    requires forall j | c <= j < MaxPolls :: status(j).Success? && status(j).value != Complete
    ensures |PollFrom(link, status, c).calls| == MaxPolls - c
    ensures |PollFrom(link, status, c).output| == MaxPolls - c
    ensures PollFrom(link, status, c).outcome == Returned
    decreases MaxPolls - c
  {
    if c < MaxPolls {
      var p := PollFrom(link, status, c);
      var rest := PollFrom(link, status, c + 1);
      assert |p.calls| == 1 + |rest.calls| && |p.output| == 1 + |rest.output| && p.outcome == rest.outcome by {
        assert status(c).Success? && status(c).value != Complete;
        PollStep(link, status, c);
      }
      PollNeverComplete(link, status, c + 1);
    }
  }

  /**
   When the `j`-th status request (counting from `c`) is the first to fail,
   the loop makes `j - c + 1` requests, prints a line for each earlier one,
   and ends with that request's exception.
   */
  lemma {:induction false} PollFailsAt(link: Link, status: nat -> Result<LoginStatus>, c: nat, j: nat)
    requires c <= j < MaxPolls
    requires forall i | c <= i < j :: status(i).Success? && status(i).value != Complete
    requires status(j).Failure?
    ensures |PollFrom(link, status, c).calls| == j - c + 1
    ensures |PollFrom(link, status, c).output| == j - c
    ensures PollFrom(link, status, c).outcome == Threw(status(j).error)
    decreases j - c
  {
    if c < j {
      var p := PollFrom(link, status, c);
      var rest := PollFrom(link, status, c + 1);
      assert |p.calls| == 1 + |rest.calls| && |p.output| == 1 + |rest.output| && p.outcome == rest.outcome by {
        assert status(c).Success? && status(c).value != Complete;
        PollStep(link, status, c);
      }
      PollFailsAt(link, status, c + 1, j);
    }
  }

  /**
   While the statuses from iteration `c` to `j` are all answered and none is
   `COMPLETE`, the line printed in iteration `j` reports the `j`-th status.
   */
  lemma {:induction false} PollLineAt(link: Link, status: nat -> Result<LoginStatus>, c: nat, j: nat)
    requires c <= j < MaxPolls
    requires forall i | c <= i <= j :: status(i).Success? && status(i).value != Complete
    ensures |PollFrom(link, status, c).output| > j - c
    ensures PollFrom(link, status, c).output[j - c] == StatusReported(status(j).value)
    decreases j - c
  {
    var out := PollFrom(link, status, c).output;
    var rest := PollFrom(link, status, c + 1).output;
    assert out == [StatusReported(status(c).value)] + rest by {
      assert status(c).Success? && status(c).value != Complete;
      PollStep(link, status, c);
    }
    if c < j {
      PollLineAt(link, status, c + 1, j);
      assert out[j - c] == rest[j - c - 1];
    }
  }

  /** The status lines of the first `n` polls, all answered. */
  function StatusReports(status: nat -> Result<LoginStatus>, n: nat): (r: seq<Line>)
    requires forall i | 0 <= i < n :: status(i).Success?
    ensures |r| == n
    ensures forall i | 0 <= i < n :: r[i] == StatusReported(status(i).value)
  {
    seq(n, i requires 0 <= i < n && status(i).Success? => StatusReported(status(i).value))
  }

  /** The loop's whole output when the `k`-th status is the first `COMPLETE`. */
  lemma PollOutputCompleteAt(link: Link, status: nat -> Result<LoginStatus>, k: nat)
    requires k < MaxPolls
    requires forall j | 0 <= j < k :: status(j).Success? && status(j).value != Complete
    requires status(k) == Success(Complete)
    ensures PollFrom(link, status, 0).output == StatusReports(status, k) + [LoginSucceeded(Complete)]
  {
    var out := PollFrom(link, status, 0).output;
    var reports := StatusReports(status, k);
    var r := reports + [LoginSucceeded(Complete)];
    assert |out| == k + 1 && out[k] == LoginSucceeded(Complete) by {
      PollCompleteAt(link, status, 0, k);
    }
    forall j | 0 <= j < |r|
      ensures out[j] == r[j]
    {
      if j < k {
        PollLineAt(link, status, 0, j);
        assert r[j] == reports[j];
      }
    }
    assert out == r;
  }

  /** The loop's whole output when none of the statuses is `COMPLETE`. */
  lemma PollOutputNeverComplete(link: Link, status: nat -> Result<LoginStatus>)
    requires forall j | 0 <= j < MaxPolls :: status(j).Success? && status(j).value != Complete
    ensures PollFrom(link, status, 0).output == StatusReports(status, MaxPolls)
  {
    var out := PollFrom(link, status, 0).output;
    var r := StatusReports(status, MaxPolls);
    assert |out| == MaxPolls by {
      PollNeverComplete(link, status, 0);
    }
    forall j | 0 <= j < |r|
      ensures out[j] == r[j]
    {
      assert out[j] == StatusReported(status(j).value) by {
        PollLineAt(link, status, 0, j);
      }
    }
    assert out == r;
  }

  /** The loop's whole output when the `j`-th status request is the first to fail. */
  lemma PollOutputFailsAt(link: Link, status: nat -> Result<LoginStatus>, j: nat)
    requires j < MaxPolls
    requires forall i | 0 <= i < j :: status(i).Success? && status(i).value != Complete
    requires status(j).Failure?
    ensures PollFrom(link, status, 0).output == StatusReports(status, j)
  {
    var out := PollFrom(link, status, 0).output;
    var r := StatusReports(status, j);
    assert |out| == j by {
      PollFailsAt(link, status, 0, j);
    }
    forall i | 0 <= i < |r|
      ensures out[i] == r[i]
    {
      assert out[i] == StatusReported(status(i).value) by {
        PollLineAt(link, status, 0, i);
      }
    }
    assert out == r;
  }

  // ---------------------------------------------------------------- properties of an attempt

  /** The methods were listed and one of them is Mobile BankID, and there is a line to read. */
  predicate ReachesInitiation(script: Script, input: seq<string>)
  {
    && script.methods.Success?
    && GetLoginMethod(script.methods.value).Success?
    && |input| > 0
  }

  /** The initiation succeeded with `CLIENT_NOT_STARTED`. */
  predicate ReachesPolling(script: Script, input: seq<string>)
  {
    && ReachesInitiation(script, input)
    && script.initiation.Success?
    && script.initiation.value.status == ClientNotStarted
  }

  /**
   The first line printed lists every discovered method's display message,
   in list order, and is printed whether or not selection then succeeds.
   */
  lemma FirstLineListsMethods(script: Script, input: seq<string>)
    requires script.methods.Success?
    ensures var a := PerformLogin(script, input);
            var methods := script.methods.value;
            && |a.output| >= 1
            && Text(a.output[0]) == MethodsPrefix + "[" + Join(Messages(methods), ", ") + "]"
            && |Messages(methods)| == |methods|
            && forall i | 0 <= i < |methods| :: Messages(methods)[i] == methods[i].message
  {
  }

  /**
   Without a Mobile BankID method the attempt throws "BANKID_MOBILE method is
   not available" right after listing: no prompt, no input read, no
   initiation.
   */
  lemma NoMobileBankIdStopsAttempt(script: Script, input: seq<string>)
    requires script.methods.Success?
    requires forall i | 0 <= i < |script.methods.value| :: script.methods.value[i].code != BankIdMobile
    ensures var a := PerformLogin(script, input);
            && a.outcome == Threw(IllegalState("BANKID_MOBILE method is not available"))
            && a.calls == [GetAllLoginMethods]
            && a.read == []
            && a.output == [MethodsListed(Messages(script.methods.value))]
  {
    var selected := GetLoginMethod(script.methods.value);
    assert selected == Failure(IllegalState("BANKID_MOBILE method is not available")) by {
      assert CodeName(SelectedAuthMethod) + " method is not available" == "BANKID_MOBILE method is not available";
    }
  }

  /**
   Once a Mobile BankID method is selected, the user is prompted, one line is
   read, and the login is initiated with the first such method and the
   resolved user id: the line itself, or the default id if it is blank.
   */
  lemma UserIdPassedToInitiation(script: Script, input: seq<string>)
    requires ReachesInitiation(script, input)
    ensures var a := PerformLogin(script, input);
            && a.read == [input[0]]
            && |a.output| >= 2 && a.output[1] == UserIdPrompted
            && |a.calls| >= 2
            && a.calls[1] == InitiateLogin(if IsBlank(input[0]) then DefaultUserId else input[0],
                                           GetLoginMethod(script.methods.value).value)
            && a.calls[1].authMethod.code == BankIdMobile
  {
  }

  /**
   An initiation status other than `CLIENT_NOT_STARTED` ends the attempt
   normally after one "Can not proceed" line, with no status request.
   */
  lemma NoPollingUnlessClientNotStarted(script: Script, input: seq<string>)
    requires ReachesInitiation(script, input)
    requires script.initiation.Success? && script.initiation.value.status != ClientNotStarted
    ensures var a := PerformLogin(script, input);
            && a.calls == [GetAllLoginMethods, InitiateLogin(GetUserId(input[0]), GetLoginMethod(script.methods.value).value)]
            && Polls(a.calls) == []
            && a.output == [MethodsListed(Messages(script.methods.value)), UserIdPrompted,
                            CannotProceed(script.initiation.value.status)]
            && a.outcome == Returned
  {
    var a := PerformLogin(script, input);
    assert forall i | 0 <= i < |a.calls| :: !a.calls[i].GetLoginStatus?;
    PollsOfOtherCalls(a.calls);
  }

  /** The attempt of a script that reaches polling, in terms of the loop. */
  lemma PollingAttempt(script: Script, input: seq<string>)
    requires ReachesPolling(script, input)
    ensures var a := PerformLogin(script, input);
            var p := PollFrom(script.initiation.value.links.next, script.status, 0);
            && a.calls == [GetAllLoginMethods, InitiateLogin(GetUserId(input[0]), GetLoginMethod(script.methods.value).value)]
                          + p.calls
            && a.output == [MethodsListed(Messages(script.methods.value)), UserIdPrompted] + p.output
            && Polls(a.calls) == Polls(p.calls)
            && a.outcome == p.outcome
  {
    var a := PerformLogin(script, input);
    var p := PollFrom(script.initiation.value.links.next, script.status, 0);
    var calls := [GetAllLoginMethods, InitiateLogin(GetUserId(input[0]), GetLoginMethod(script.methods.value).value)];
    assert a.calls == calls + p.calls;
    PollsAppend(calls, p.calls);
    assert Polls(calls[1..][1..]) == [];
  }

  /**
   Whatever the adapter answers, an attempt makes at most ten status
   requests, all for the `next` link of the initiation response.
   */
  lemma PollsBoundedOnInitiationLink(script: Script, input: seq<string>)
    ensures var a := PerformLogin(script, input);
            && |Polls(a.calls)| <= MaxPolls
            && (script.initiation.Success? ==>
                  forall i | 0 <= i < |Polls(a.calls)| :: Polls(a.calls)[i] == script.initiation.value.links.next)
  {
    var a := PerformLogin(script, input);
    if ReachesInitiation(script, input) && script.initiation.Success? {
      var initiated := script.initiation.value;
      var p := CheckLoginStatus(initiated, script.status);
      var calls := [GetAllLoginMethods, InitiateLogin(GetUserId(input[0]), GetLoginMethod(script.methods.value).value)];
      assert a.calls == calls + p.calls;
      PollsAppend(calls, p.calls);
      assert Polls(calls[1..][1..]) == [];
      PollsOfStatusCalls(p.calls, initiated.links.next);
    } else {
      assert forall i | 0 <= i < |a.calls| :: !a.calls[i].GetLoginStatus?;
      PollsOfOtherCalls(a.calls);
    }
  }

  /**
   If the `k`-th status (k < 10) is the first `COMPLETE`, the attempt makes
   exactly k + 1 status requests, prints the k statuses before it and then
   one success line, and returns.
   */
  lemma CompleteAtK(script: Script, input: seq<string>, k: nat)
    requires ReachesPolling(script, input)
    requires k < MaxPolls
    requires forall j | 0 <= j < k :: script.status(j).Success? && script.status(j).value != Complete
    requires script.status(k) == Success(Complete)
    ensures var a := PerformLogin(script, input);
            && |Polls(a.calls)| == k + 1
            && a.output == [MethodsListed(Messages(script.methods.value)), UserIdPrompted]
                           + StatusReports(script.status, k) + [LoginSucceeded(Complete)]
            && a.outcome == Returned
  {
    var link := script.initiation.value.links.next;
    var a := PerformLogin(script, input);
    var p := PollFrom(link, script.status, 0);
    assert a.output == [MethodsListed(Messages(script.methods.value)), UserIdPrompted] + p.output
           && Polls(a.calls) == Polls(p.calls) && a.outcome == p.outcome by {
      PollingAttempt(script, input);
    }
    assert |Polls(p.calls)| == k + 1 && p.outcome == Returned by {
      PollCompleteAt(link, script.status, 0, k);
      PollsOfStatusCalls(p.calls, link);
    }
    assert p.output == StatusReports(script.status, k) + [LoginSucceeded(Complete)] by {
      PollOutputCompleteAt(link, script.status, k);
    }
  }

  /**
   If none of the first ten statuses is `COMPLETE`, the attempt makes exactly
   ten status requests, prints the ten statuses, and returns without an
   error.
   */
  lemma NeverCompleteRunsOut(script: Script, input: seq<string>)
    requires ReachesPolling(script, input)
    requires forall j | 0 <= j < MaxPolls :: script.status(j).Success? && script.status(j).value != Complete
    ensures var a := PerformLogin(script, input);
            && |Polls(a.calls)| == 10
            && a.output == [MethodsListed(Messages(script.methods.value)), UserIdPrompted]
                           + StatusReports(script.status, MaxPolls)
            && a.outcome == Returned
  {
    var link := script.initiation.value.links.next;
    var a := PerformLogin(script, input);
    var p := PollFrom(link, script.status, 0);
    assert a.output == [MethodsListed(Messages(script.methods.value)), UserIdPrompted] + p.output
           && Polls(a.calls) == Polls(p.calls) && a.outcome == p.outcome by {
      PollingAttempt(script, input);
    }
    assert |Polls(p.calls)| == 10 && p.outcome == Returned by {
      PollNeverComplete(link, script.status, 0);
      PollsOfStatusCalls(p.calls, link);
    }
    assert p.output == StatusReports(script.status, MaxPolls) by {
      PollOutputNeverComplete(link, script.status);
    }
  }

  /** An attempt whose ten polls never see `COMPLETE` never prints the success line. */
  lemma NeverCompletePrintsNoSuccess(script: Script, input: seq<string>)
    requires ReachesPolling(script, input)
    requires forall j | 0 <= j < MaxPolls :: script.status(j).Success? && script.status(j).value != Complete
    ensures var a := PerformLogin(script, input);
            forall j | 0 <= j < |a.output| :: Text(a.output[j]) != Text(LoginSucceeded(Complete))
  {
    var a := PerformLogin(script, input);
    var reports := StatusReports(script.status, MaxPolls);
    assert a.output == [MethodsListed(Messages(script.methods.value)), UserIdPrompted] + reports by {
      NeverCompleteRunsOut(script, input);
    }
    assert forall j | 0 <= j < |a.output| :: !a.output[j].LoginSucceeded? by {
      forall j | 2 <= j < |a.output|
        ensures a.output[j] == reports[j - 2]
      {
      }
    }
    SuccessTextAbsent(a.output);
  }

  /** Lines without a success line never print the success text. */
  lemma SuccessTextAbsent(lines: seq<Line>)
    requires forall j | 0 <= j < |lines| :: !lines[j].LoginSucceeded?
    ensures forall j | 0 <= j < |lines| :: Text(lines[j]) != Text(LoginSucceeded(Complete))
  {
    forall j | 0 <= j < |lines|
      ensures Text(lines[j]) != Text(LoginSucceeded(Complete))
    {
      OnlySuccessLinesReadAsSuccess(lines[j], Complete);
    }
  }

  /** Two `CLIENT_NOT_STARTED` polls and then `COMPLETE`: three requests, two status lines and the success line. */
  lemma CompleteOnThirdPoll(script: Script, input: seq<string>)
    requires ReachesPolling(script, input)
    requires script.status(0) == Success(ClientNotStarted) && script.status(1) == Success(ClientNotStarted)
    requires script.status(2) == Success(Complete)
    ensures var a := PerformLogin(script, input);
            && |Polls(a.calls)| == 3
            && a.output[2..] == [StatusReported(ClientNotStarted), StatusReported(ClientNotStarted), LoginSucceeded(Complete)]
  {
    CompleteAtK(script, input, 2);
  }

  /** A failed listing ends the attempt with its exception: nothing printed, nothing read, no other request. */
  lemma ListingFailureEndsAttempt(script: Script, input: seq<string>)
    requires script.methods.Failure?
    ensures var a := PerformLogin(script, input);
            && a.outcome == Threw(script.methods.error)
            && a.calls == [GetAllLoginMethods]
            && a.output == []
            && a.read == []
  {
  }

  /**
   With Mobile BankID selected but no line left to read, the prompt is
   printed and reading the user id throws: the attempt ends after the
   listing call, with no initiation.
   */
  lemma NoLineEndsAttempt(script: Script, input: seq<string>)
    requires script.methods.Success? && GetLoginMethod(script.methods.value).Success?
    requires |input| == 0
    ensures var a := PerformLogin(script, input);
            && a.calls == [GetAllLoginMethods]
            && a.output == [MethodsListed(Messages(script.methods.value)), UserIdPrompted]
            && a.read == []
            && a.outcome == Threw(Unexpected(NoLine))
  {
  }

  /**
   A failed initiation ends the attempt with its exception, after the method
   list and the prompt, with no status request.
   */
  lemma InitiationFailureEndsAttempt(script: Script, input: seq<string>)
    requires ReachesInitiation(script, input)
    requires script.initiation.Failure?
    ensures var a := PerformLogin(script, input);
            && a.outcome == Threw(script.initiation.error)
            && a.calls == [GetAllLoginMethods, InitiateLogin(GetUserId(input[0]), GetLoginMethod(script.methods.value).value)]
            && Polls(a.calls) == []
            && a.output == [MethodsListed(Messages(script.methods.value)), UserIdPrompted]
            && a.read == [input[0]]
  {
    var a := PerformLogin(script, input);
    assert forall i | 0 <= i < |a.calls| :: !a.calls[i].GetLoginStatus?;
    PollsOfOtherCalls(a.calls);
  }

  /**
   If the `j`-th status request (j < 10) is the first to fail, and no earlier
   one saw `COMPLETE`, the attempt makes j + 1 status requests, prints the j
   statuses before it, and ends with that request's exception.
   */
  lemma FailureAtPoll(script: Script, input: seq<string>, j: nat)
    requires ReachesPolling(script, input)
    requires j < MaxPolls
    requires forall i | 0 <= i < j :: script.status(i).Success? && script.status(i).value != Complete
    requires script.status(j).Failure?
    ensures var a := PerformLogin(script, input);
            && |Polls(a.calls)| == j + 1
            && a.output == [MethodsListed(Messages(script.methods.value)), UserIdPrompted]
                           + StatusReports(script.status, j)
            && a.outcome == Threw(script.status(j).error)
  {
    var link := script.initiation.value.links.next;
    var a := PerformLogin(script, input);
    var p := PollFrom(link, script.status, 0);
    assert a.output == [MethodsListed(Messages(script.methods.value)), UserIdPrompted] + p.output
           && Polls(a.calls) == Polls(p.calls) && a.outcome == p.outcome by {
      PollingAttempt(script, input);
    }
    assert |Polls(p.calls)| == j + 1 && p.outcome == Threw(script.status(j).error) by {
      PollFailsAt(link, script.status, 0, j);
      PollsOfStatusCalls(p.calls, link);
    }
    assert p.output == StatusReports(script.status, j) by {
      PollOutputFailsAt(link, script.status, j);
    }
  }
}
