# AuthInitiator login flow in Dafny

A model of a small command-line client for the Swedbank identification API,
and proofs about it. The client logs a user in with Mobile BankID. It runs in
four steps:

1. List the authentication methods.
2. Pick the Mobile BankID one.
3. Read a user id (blank means the default test user) and initiate the login.
4. Poll the status link at most ten times until it reports `COMPLETE`.

Around this sits a retry loop that reports what went wrong and asks whether
to try again.

The model has three parts, one module each, plus three supporting modules:

- `SwedbankLoginAdapter` (`swedbank_login_adapter.dfy`) is the transport:
  - the request address is the fixed base path plus the link's URI;
  - GET, POST or an error is chosen by the link's method name;
  - a header map starts with three static entries and takes its `Cookie` from
    the `JSESSIONID` fragment of `Set-Cookie` response headers;
  - a 2xx response is decoded as the expected body; any other status fails
    with the provider's field messages joined by ", ";
  - `Trace` runs a sequence of operations on one adapter and threads the
    header map through them, which is how the cookie properties are stated.
- `LoginHandler` (`login_handler.dfy`) is one `performLogin` run against a
  scripted adapter: the method list, the initiation response, and the answer
  to the n-th status request. The result records the calls made, the lines
  printed, the input line read and whether the attempt returned or threw.
- `MainLoop` (`main_loop.dfy`) is `Main.run`. It takes any handler that reads
  its lines from the front of the input. Attempts and retry answers share one
  input stream, as they share one `Scanner` in the program.
- The supporting modules:
  - `Results` (`results.dfy`): `Option`, `Result`, and the two kinds of
    exception the program tells apart (`IllegalStateException` with its
    message, anything else).
  - `Beans` (`beans.dfy`): the request and response values.
  - `Strings` (`strings.dfy`): the Java string operations the program uses,
    namely `split` on `;`, `contains`, `Collectors.joining` and `isBlank`.

These parts are parameters, not models: `HttpClient.send` (a `Reply`), Gson's
conversions and the `java.net.URI` syntax check (`Env`), and standard input
and output (an input sequence, and a trace of printed lines).

Printed lines are kept as a `Line` datatype and turned into text by
`LoginHandler.Text`, using the program's exact wording. Properties about what
is printed are stated on the lines. `Text` connects them to the strings the
program writes.

## Notes on the code

- `getLoginStatus` returns only the `status` of the decoded response, not the
  whole response.
- `performLogin` takes no argument: it reads the user id itself from the
  scanner.
- An unsupported request method, a missing Mobile BankID method and a non-2xx
  response all surface as `IllegalStateException` with a message. They are not
  separate error kinds. Anything else (I/O, URI syntax, decoding, no input
  line) is one "unexpected" kind.

## Model

| member | source | states |
|---|---|---|
| Strings.Join | src/main/java/com/company/SwedbankLoginAdapter.java:109-110 | `joining` of no parts is the empty string, and the joined string starts with the first part |
| Strings.JoinEndsWithLast | src/main/java/com/company/SwedbankLoginAdapter.java:109-110 | the joined string ends with the last part |
| Strings.Contains | src/main/java/com/company/SwedbankLoginAdapter.java:101 | the empty marker is contained in every string, and a contained marker is no longer than the string |
| Strings.Split | src/main/java/com/company/SwedbankLoginAdapter.java:100 | a string without the separator splits to itself alone; otherwise the fields lose only their trailing empty ones, so the last field kept is non-empty; no field holds the separator |
| Strings.IsBlank | src/main/java/com/company/LoginHandler.java:44 | the scan from the front agrees with "every character is whitespace" |
| Strings.Fields | src/main/java/com/company/SwedbankLoginAdapter.java:100 | the `;`-fields of a string: there is always at least one, and none contains the separator |
| Strings.JoinFields | src/main/java/com/company/SwedbankLoginAdapter.java:100 | joining the fields of a string with the separator gives back the string, so splitting loses nothing |
| Strings.FieldsOfJoin | src/main/java/com/company/SwedbankLoginAdapter.java:100 | splitting a join of separator-free parts gives back exactly those parts (the inverse direction) |
| Strings.DropTrailingEmpty | src/main/java/com/company/SwedbankLoginAdapter.java:100 | `split` drops trailing empty fields: the result is a prefix, everything dropped is empty, and the last kept field is non-empty |
| Strings.ContainsIffOccurs | src/main/java/com/company/SwedbankLoginAdapter.java:101 | `contains` holds exactly when the marker occurs at some index of the string |
| Strings.FirstContaining | src/main/java/com/company/SwedbankLoginAdapter.java:99-102 | the fragment picked contains the marker, and no earlier fragment does; nothing is picked exactly when no fragment contains it |
| Strings.SplitFindsSameAsFields | src/main/java/com/company/SwedbankLoginAdapter.java:100-101 | dropping the trailing empty fields never changes which fragment is found for a non-empty marker |
| SwedbankLoginAdapter.InitialHeadersWellFormed | src/main/java/com/company/SwedbankLoginAdapter.java:43-47 | the initial header map has the three static entries and no `Cookie` |
| SwedbankLoginAdapter.OnlyCookieDiffersKeepsWellFormed | src/main/java/com/company/SwedbankLoginAdapter.java:43-47 | a change confined to `Cookie` keeps the static headers at their initial values, with `Cookie` as the only other key |
| SwedbankLoginAdapter.InFragments | src/main/java/com/company/SwedbankLoginAdapter.java:98-100 | a string is among the flattened fragments exactly when it is a `;`-field of some `Set-Cookie` value |
| SwedbankLoginAdapter.SessionFragment | src/main/java/com/company/SwedbankLoginAdapter.java:98-101 | a fragment picked comes from a `Set-Cookie` value and contains `JSESSIONID`; none is picked exactly when there is no `Set-Cookie` header or no fragment of it contains the marker |
| SwedbankLoginAdapter.UpdateSessionCookie | src/main/java/com/company/SwedbankLoginAdapter.java:97-103 | the update changes nothing but the `Cookie` entry |
| SwedbankLoginAdapter.UpdateSessionCookieSpec | src/main/java/com/company/SwedbankLoginAdapter.java:97-103 | if some fragment of some `Set-Cookie` value contains `JSESSIONID`, `Cookie` becomes one such fragment verbatim; otherwise the map is unchanged |
| SwedbankLoginAdapter.RequestMethodConsumer | src/main/java/com/company/SwedbankLoginAdapter.java:87-95 | exactly "GET" and "POST" are accepted: POST sends the given body or an empty one, GET sends none, anything else fails with "<m> request method is not supported" |
| SwedbankLoginAdapter.PerformRequest | src/main/java/com/company/SwedbankLoginAdapter.java:72-84 | a request is sent exactly when the address parses and the method is supported. It goes to the base path plus the link URI, with the link's method, the current headers and the body the method's consumer chose. An address that does not parse fails as a URI error and a rejected method as "not supported"; both send nothing and leave the headers alone. A lost reply is an I/O failure. A response yields the new cookie map and is returned as is |
| SwedbankLoginAdapter.IsSuccessful | src/main/java/com/company/SwedbankLoginAdapter.java:106 | a status counts as success exactly when the code divided by 100 is 2, that is 200 ≤ s < 300 |
| SwedbankLoginAdapter.ErrorText | src/main/java/com/company/SwedbankLoginAdapter.java:109-110 | no field errors give the empty message; otherwise the message starts with the first field's message |
| SwedbankLoginAdapter.ParseResponse | src/main/java/com/company/SwedbankLoginAdapter.java:105-114 | success only for a status in [200, 300), with the decoded body. The `IllegalState` failure only for other statuses, carrying the joined field messages |
| SwedbankLoginAdapter.ParseResponseClassifies | src/main/java/com/company/SwedbankLoginAdapter.java:105-114 | success exactly when the status is in [200, 300) and the body decodes; any other status with a decodable error body fails with the joined messages; 199 and 300 are errors, 200 and 299 are not |
| SwedbankLoginAdapter.GetAllLoginMethods | src/main/java/com/company/SwedbankLoginAdapter.java:49-54 | the request is a GET of the base path plus "/v5/identification/" with no body. A result is the method list of a decoded 2xx body, and a decodable 2xx reply always gives that list. An address that does not parse, a lost reply and an undecodable 2xx body fail as URI, I/O and decoding errors. An `IllegalState` failure comes only from a non-2xx reply whose error body decodes, and carries its joined field messages |
| SwedbankLoginAdapter.InitiateLogin | src/main/java/com/company/SwedbankLoginAdapter.java:56-63 | a request is sent exactly when the location parses and its method is GET or POST; it goes to the location with the location's own method. For POST it carries the JSON of a request with `bankIdOnSameDevice` false and the given user id; for GET no body. A result is the decoded 2xx body, and a decodable 2xx reply always gives it. Other methods fail as "not supported"; bad addresses, lost replies and undecodable 2xx bodies as URI, I/O and decoding errors. Once a request is sent, an `IllegalState` failure comes only from a non-2xx reply whose error body decodes, and carries its joined field messages |
| SwedbankLoginAdapter.GetLoginStatus | src/main/java/com/company/SwedbankLoginAdapter.java:65-70 | a request is sent exactly when the address parses and the link's method is GET or POST. It uses the link's own method and URI without a body of its own. The result is only the `status` of the decoded 2xx body, and a decodable 2xx reply always gives it. Other methods fail as "not supported"; bad addresses, lost replies and undecodable 2xx bodies as URI, I/O and decoding errors. Once a request is sent, an `IllegalState` failure comes only from a non-2xx reply whose error body decodes, and carries its joined field messages |
| SwedbankLoginAdapter.AllOperationsReportFieldErrors | src/main/java/com/company/SwedbankLoginAdapter.java:105-114 | a non-2xx response with a decodable error body fails all three operations with the same joined message |
| SwedbankLoginAdapter.TwoFieldErrorsJoined | src/test/java/com/company/SwedbankLoginAdapterTest.java:150-158 | the field errors "Bad error" and "Worse error" give the message "Bad error, Worse error" |
| SwedbankLoginAdapter.Perform | src/main/java/com/company/SwedbankLoginAdapter.java:49-70 | any operation changes at most `Cookie`, sends the current headers, and takes the cookie from a response it received |
| SwedbankLoginAdapter.HeadersStayWellFormed | src/main/java/com/company/SwedbankLoginAdapter.java:72-103 | over any sequence of operations the static headers keep their values, `Cookie` is the only other key, and every request carries the map in force at the time |
| SwedbankLoginAdapter.CookieCarriedForward | src/main/java/com/company/SwedbankLoginAdapter.java:72-103 | once `Cookie` is set, every later request carries that value until a reply brings a new session fragment |
| SwedbankLoginAdapter.NewCookieCarriedByNextRequest | src/main/java/com/company/SwedbankLoginAdapter.java:72-103 | after a reply with a session fragment, the next request carries exactly that fragment as `Cookie` |
| Results.MapSeq | src/main/java/com/company/LoginHandler.java:34 | one result per element, in order, the i-th computed from the i-th element; this gives the methods' display messages and the field error messages |
| Beans.StatusNameInjective | src/main/java/com/company/LoginHandler.java:54-63 | among statuses the enum can hold, two print alike exactly when they are the same status |
| Beans.CodeNameInjective | src/main/java/com/company/LoginHandler.java:37-38 | among codes the enum can hold, two print alike exactly when they are the same code |
| LoginHandler.Text | src/main/java/com/company/LoginHandler.java:34-63 | the listing line starts with "Available login methods: [" and ends with "]"; each status-bearing line is its fixed prefix followed by exactly the status's name |
| LoginHandler.StatusLineIdentifiesStatus | src/main/java/com/company/LoginHandler.java:59 | two status lines print alike exactly when they report the same status |
| LoginHandler.OnlySuccessLinesReadAsSuccess | src/main/java/com/company/LoginHandler.java:54-63 | no other kind of line prints as the success line |
| LoginHandler.GetLoginMethod | src/main/java/com/company/LoginHandler.java:36-38 | the selected method has code `BANKID_MOBILE` and is the first such in the list; selection fails exactly when there is none, with "BANKID_MOBILE method is not available" |
| LoginHandler.GetUserId | src/main/java/com/company/LoginHandler.java:41-45 | the id is never blank; it is the line itself or the default, and it is the default because of the line exactly when the line is blank |
| LoginHandler.PollFrom | src/main/java/com/company/LoginHandler.java:50-60 | at most ten requests, at least one if any iteration is left, all for the same link; at most one line per request, each a status line or the success line |
| LoginHandler.CheckLoginStatus | src/main/java/com/company/LoginHandler.java:47-65 | any initiation status other than `CLIENT_NOT_STARTED` makes no request and prints one "Can not proceed" line; otherwise every request is for the initiation's `next` link, at most ten |
| LoginHandler.PerformLogin | src/main/java/com/company/LoginHandler.java:22-30 | an attempt reads at most one line, from the front of the input. Its first call always lists the methods, the second (if any) initiates the login, and every later call is a status request, so there are at most twelve calls |
| LoginHandler.PollStep | src/main/java/com/company/LoginHandler.java:50-60 | an iteration that neither failed nor completed makes one request and prints the status, and the loop goes on |
| LoginHandler.PollCompleteAt | src/main/java/com/company/LoginHandler.java:50-60 | if iteration k is the first to see `COMPLETE`, the loop makes k + 1 requests, prints k + 1 lines, the last one the success line, and returns |
| LoginHandler.PollNeverComplete | src/main/java/com/company/LoginHandler.java:50-60 | if no iteration sees `COMPLETE` or fails, the loop makes all its requests, prints a line for each, and returns |
| LoginHandler.PollFailsAt | src/main/java/com/company/LoginHandler.java:50-60 | if the request of iteration j is the first to fail, the loop makes j + 1 requests, prints j lines, and ends with that request's exception |
| LoginHandler.PollLineAt | src/main/java/com/company/LoginHandler.java:59 | the line printed in an iteration that did not complete is that iteration's status |
| LoginHandler.PollOutputCompleteAt | src/main/java/com/company/LoginHandler.java:50-60 | the loop's whole output when `COMPLETE` first comes at iteration k: the k statuses in order, then the success line |
| LoginHandler.PollOutputNeverComplete | src/main/java/com/company/LoginHandler.java:50-60 | the loop's whole output when `COMPLETE` never comes: the ten statuses in order |
| LoginHandler.PollOutputFailsAt | src/main/java/com/company/LoginHandler.java:50-60 | the loop's whole output when the request of iteration j is the first to fail: the j statuses before it, in order |
| LoginHandler.FirstLineListsMethods | src/main/java/com/company/LoginHandler.java:33-34 | once the methods are listed, the first line printed is "Available login methods: [m1, m2, …]" with every method's message in order |
| LoginHandler.NoMobileBankIdStopsAttempt | src/main/java/com/company/LoginHandler.java:22-39 | without a Mobile BankID method the attempt throws "BANKID_MOBILE method is not available" after the listing line. There is no prompt, no input is read, and only the listing call is made |
| LoginHandler.UserIdPassedToInitiation | src/main/java/com/company/LoginHandler.java:22-45 | after selection the prompt is printed and one line read. Initiation gets the selected method and the resolved id: the line itself, or the default when it is blank |
| LoginHandler.NoPollingUnlessClientNotStarted | src/main/java/com/company/LoginHandler.java:47-65 | an initiation status other than `CLIENT_NOT_STARTED` gives exactly two calls, one listing and one initiation, and no status request. It prints one "Can not proceed" line after the prompt, and returns |
| LoginHandler.PollingAttempt | src/main/java/com/company/LoginHandler.java:22-52 | an attempt that reaches polling makes exactly one listing call, one initiation call and then the loop's status requests. It prints the listing and the prompt, then exactly the loop's lines, and ends as the loop does |
| LoginHandler.PollsBoundedOnInitiationLink | src/main/java/com/company/LoginHandler.java:50-52 | whatever the adapter answers, an attempt makes at most ten status requests, all for the initiation response's `next` link |
| LoginHandler.CompleteAtK | src/main/java/com/company/LoginHandler.java:50-59 | if the k-th status (k < 10) is the first `COMPLETE`, there are exactly k + 1 status requests. The output is the listing, the prompt, the k statuses and the success line, and the attempt returns |
| LoginHandler.NeverCompleteRunsOut | src/main/java/com/company/LoginHandler.java:50-60 | if none of the ten statuses is `COMPLETE`, there are exactly ten status requests. The output is the listing, the prompt and the ten statuses, and the attempt returns without an error |
| LoginHandler.NeverCompletePrintsNoSuccess | src/main/java/com/company/LoginHandler.java:50-60 | in that case no printed line is the success text |
| LoginHandler.ListingFailureEndsAttempt | src/main/java/com/company/LoginHandler.java:22-33 | a failed method listing ends the attempt with its exception: only the listing call, nothing printed, nothing read |
| LoginHandler.InitiationFailureEndsAttempt | src/main/java/com/company/LoginHandler.java:22-27 | a failed initiation ends the attempt with its exception after the listing and the prompt. The calls are exactly the listing and the initiation, with no status request |
| LoginHandler.NoLineEndsAttempt | src/main/java/com/company/LoginHandler.java:41-44 | with Mobile BankID selected but no input line left, the prompt is printed and reading the line throws. The only call is the listing, and nothing is initiated |
| LoginHandler.FailureAtPoll | src/main/java/com/company/LoginHandler.java:50-60 | if the j-th status request (j < 10) is the first to fail, there are exactly j + 1 status requests. The output is the listing, the prompt and the j statuses before it, and the attempt ends with that exception |
| LoginHandler.CompleteOnThirdPoll | src/test/java/com/company/LoginHandlerTest.java:127-136 | `CLIENT_NOT_STARTED` twice and then `COMPLETE` gives three status requests, two status lines and the success line |
| MainLoop.LoginIsWellBehaved | src/main/java/com/company/LoginHandler.java:41-45 | the login handler takes the lines it reads from the front of the input |
| MainLoop.Report | src/main/java/com/company/Main.java:31-35 | a round prints nothing for an attempt that returned and one line for one that threw: the message of an `IllegalStateException`, "Unexpected error happened" for anything else |
| MainLoop.RunFrom | src/main/java/com/company/Main.java:26-40 | the loop runs at least one round |
| MainLoop.Run | src/main/java/com/company/Main.java:26-40 | `run` always performs at least one attempt |
| MainLoop.RunFromStep | src/main/java/com/company/Main.java:28-39 | a round runs the attempt on the unread input and then reads the answer. The loop goes on exactly when that answer is "y", with the rest of the input |
| MainLoop.RetriesOnlyOnYes | src/main/java/com/company/Main.java:38 | every round but the last was answered exactly "y", and the last was not |
| MainLoop.RunReadsInputInOrder | src/main/java/com/company/Main.java:26-40 | the user-id lines and the answers, in the order the rounds read them, form a prefix of the input |
| MainLoop.RunRoundsWellFormed | src/main/java/com/company/Main.java:29-35 | every round's report is what the catch clauses print for how its attempt ended |
| MainLoop.RunEndsOnNoOrExhaustion | src/main/java/com/company/Main.java:37-38 | a run that stops without an answer has read the whole input |
| MainLoop.AttemptsAreOnePlusRetries | src/main/java/com/company/Main.java:27-38 | the number of attempts is one more than the number of leading "y" answers |
| MainLoop.PromptOncePerRound | src/main/java/com/company/Main.java:37 | the retry prompt is printed exactly once per round |
| MainLoop.RoundTranscript | src/main/java/com/company/Main.java:29-37 | a round prints the attempt's lines and then one line for what it threw: the message of an `IllegalStateException`, "Unexpected error happened" for anything else, nothing if it returned. The retry prompt comes last |
| MainLoop.EveryRoundReportsAndAsks | src/main/java/com/company/Main.java:28-39 | every round of `run` reports its outcome, and another attempt follows exactly when the answer was "y", whatever the attempt threw |
| MainLoop.FourRoundsOnThreeRetries | src/test/java/com/company/MainTest.java:60-68 | answering "y", "y", "y", "n" to a handler that reads nothing gives four rounds of the same attempt |
| MainLoop.FourAttemptsOnThreeRetries | src/test/java/com/company/MainTest.java:60-68 | with a failing method listing, answering "y", "y", "y", "n" makes four attempts, each a single listing call, and prints the retry prompt four times |

## Left out

- Networking: `HttpClient.send` is a `Reply` parameter. An `IOException` is one unexpected error, and so is a `URISyntaxException` (the address check is the opaque `isUri`).
- JSON: Gson's encoding and decoding are function parameters of `Env`, and JSON syntax is not modelled.
- SwedbankLoginAdapter.ParseResponse: a body Gson cannot decode is one opaque `Unexpected(Decoding)` failure. Gson's `null` results and the `NullPointerException`s they cause are not modelled. Examples are an empty body, a missing `errorMessages` or `fields`, and a missing `status`, which the program would print as "null".
- LoginHandler.GetLoginMethod: `findAny` on the sequential stream is modelled as the first match in list order.
- SwedbankLoginAdapter.UpdateSessionCookie: `findAny` is modelled as the first matching fragment. Response header names are taken as already lower-case, so the case-insensitive lookup of `HttpHeaders` is not modelled.
- MainLoop.PromptOncePerRound: the count holds only when no attempt threw an `IllegalStateException` whose message is the prompt text itself. Such a message would put the same line on the output twice.
- MainLoop.RunFrom: when the input runs out at the retry prompt, the scanner's `NoSuchElementException` escapes `run`. This is modelled as a last round with no answer.
- `Thread.sleep(Duration.ofSeconds(1))` before each status request, and its `InterruptedException`: timing has no effect on the logic.
- Enum values the model does not name are `OtherStatus(name)` and `OtherCode(name)`. Gson's mapping of an unknown name to `null` is not modelled.
- Beans.LoginStatus: the type also admits `OtherStatus` with the name of a named constant, such as `OtherStatus("COMPLETE")`, which no Java value matches; it prints like `COMPLETE` but is not treated as complete. Scripts are not restricted to `ValidStatus` statuses, so the loop lemmas also cover such values. The name-based lemmas (`StatusNameInjective`, `StatusLineIdentifiesStatus`) assume `ValidStatus`, and `ValidCode` plays the same part for `OtherCode`.
- `Main()`, `main` and the `SwedbankLoginAdapter()` constructor only wire objects together. The `LoginAdapter` interface is only the signature of the scripted adapter. Lombok's generated members are not modelled.
- The credential and client-id header values are fixed strings with no further meaning.
