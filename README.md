# gobs: a verified model of the OCI-P client core

This project models the core of `gobs`, a Go client for the OCI-P provisioning protocol of
BroadWorks (BSFT) servers, and proves properties of that model.

- **Requests.** Every request is a command fragment: an XML `<command xsi:type="...">` element
  rendered from a fixed format string. The fragment is preceded by the session id and wrapped in
  a `BroadsoftDocument` envelope.
- **Sending.** The client writes the envelope to the socket and queues a promise for the answer.
- **Receiving.** A background reader collects newline-terminated chunks until the buffer ends with
  `</BroadsoftDocument>\n`. It parses the message and hands the response to the oldest pending
  promise. Answers are paired with requests by position only.
- **Responses.** A response is read through dotted-path lookups, the table convention
  (`colHeading` / `row[i].col`), and the recognition of error answers (`c:ErrorResponse` with a
  `[Error n]` code in the summary).

The modules follow the source files:

| module | file | form |
|---|---|---|
| `Connection` | connection.go | class `BSConnection` with its response queue, the framing loop, delivery, sessions |
| `Response` | response.go | datatypes for the parsed tree and the response; `GetTable` as a method with loops |
| `Authentication` | authentication.go | request datatypes, the signed-password derivation |
| `Users` | users.go | search criteria, the list request (its criteria loop as a method), the user request |
| `Sca` | sca.go | the shared-call-appearance endpoint request |
| `SystemRequests` | system.go | the parameterless system request |
| `Commands` | connection.go (`BSCommand`) | the request types as one sum type |
| `Format`, `Text`, `Wrappers` | (library behaviour) | `fmt.Sprintf` templates, `strconv`, `%x`, `strings.Join`, `bytes.TrimSpace` |

Some inputs become parameters instead of being computed:

- **XML parsing** (mxj) is a parameter: each message comes with its parsed `Node` tree.
- **SHA-1 and MD5** are parameters: digest functions whose outputs are 20 and 16 bytes long.
- **`rand.Intn`** is a parameter: the random draw, below 99999999.
- **Writes and reads** are outcomes given as parameters. A write is `Written`, `WriteFailed` or
  `FlushFailed`. A read is a sequence of events: a line, a timeout with the text read before it, or an error.

The goroutine and channel plumbing is sequential here:

- `ReadMessage` is one pass of the reader's inner loop.
- `Receive` is one delivery.
- Waiting on a promise means reading its `result` after the delivery.

A Go panic becomes a precondition. Examples are a failed type assertion, a nil dereference, a
`cols[j]` out of range and `Front()` on an empty queue.

Path lookups follow these assumptions about mxj's `ValuesForPath`:

- A path is given as its dot-separated names, and a name may carry a `[i]` index.
- A list met in the middle of a path is searched element by element.
- A list at the end of a path contributes its elements.
- An index picks one of a name's values: item i of a list, or the element itself at index 0,
  since a single element counts as a list of one.
- The lookup fails when it finds nothing.

## Model

| member | source | states |
|---|---|---|
| Format.ParseRender | system.go:21-22 | a Sprintf format whose arguments do not contain the first character of the literal after them is read back: parsing the rendered text returns exactly the arguments |
| Format.RenderInjective | users.go:90-92 | two argument lists that render to the same text under such a format are the same list |
| Format.RenderEnds | system.go:21-22 | the rendered text opens with the format's first literal and ends with its last |
| Format.RenderLength | system.go:20-23 | the rendered text is as long as the literals plus the arguments |
| Text.DecimalRoundTrip | connection.go:57 | the decimal text of n (strconv.Itoa) reads back as n |
| Text.DecimalInjective | connection.go:57 | distinct numbers have distinct decimal texts |
| Text.DecimalLength | connection.go:57 | a number below 10^k has at most k digits |
| Text.HexRoundTrip | authentication.go:43-44 | the `%x` text of a byte string decodes back to those bytes |
| Text.LowerHexInjective | authentication.go:43-44 | distinct byte strings have distinct `%x` texts |
| Text.JoinAppend | users.go:66 | joining one more piece appends the separator and the piece |
| Text.JoinLength | users.go:66 | joining n pieces adds n - 1 separators to their lengths |
| Text.TrimSpaceKeepsCore | connection.go:178 | trimming removes exactly the leading and trailing white space and keeps what is between |
| SystemRequests.NewSystemRequest | system.go:15-17 | the type is the name given, and it is read back from the prepared text |
| SystemRequests.PrepareRoundTrip | system.go:20-23 | the prepared text gives back the type, embedded verbatim |
| SystemRequests.PrepareShape | system.go:20-23 | the text opens with `<command xmlns="" xsi:type="`, holds the type next, ends with `</command>`, and is 42 characters plus the type long |
| Authentication.NewAuthenticationRequest | authentication.go:19-22 | type "AuthenticationRequest" and the user id copied |
| Authentication.AuthenticationPrepareRoundTrip | authentication.go:24-28 | the user id is read back out of the prepared text, whatever it holds |
| Authentication.NewLoginRequest | authentication.go:39-45 | type "LoginRequest", the user id copied, and a signed password of 32 lower-case hex digits that decode to MD5(nonce ":" lowerhex(SHA1(password))) |
| Authentication.SignedInputInjective | authentication.go:43 | the text MD5 is applied to determines both the nonce and the SHA-1 digest |
| Authentication.SignedPasswordDetermines | authentication.go:39-45 | equal signed passwords mean equal MD5 digests, and equal MD5 inputs mean equal nonces and SHA-1 digests |
| Authentication.LoginPrepareRoundTrip | authentication.go:48-53 | the prepared login gives back the user id and then the signed password |
| Authentication.LoginTypeNotSerialised | authentication.go:44-49 | the prepared text does not depend on the type field and always opens with `xsi:type="LoginRequest14sp4"` |
| Users.LiteralsRoundTrip | users.go:31-51 | each mode, field and boolean is read back from its literal ("Starts With", "Equals", "Contains", "UserLastName", "UserFirstName", "UserId", "true", "false") |
| Users.NewSearchCriteria | users.go:70-72 | never fails, and copies all four fields |
| Users.CriteriaRoundTrip | users.go:75-81 | the prepared criterion gives back its field (the same in both tags), mode, value and flag |
| Users.CriteriaText | users.go:75-81 | the prepared criterion is `<searchCriteria` field, then mode, value and the case flag in their elements, then the closing tag with the same field |
| Users.StartsWithUserIdExample | users.go:75-81 | the exact text of the criterion (StartsWith, UserId, "john", true) |
| Users.UserGetListInSystemRequest.Prepare | users.go:59-67 | the loop prepares every criterion in order, and the result is the list template around their join with "\n" |
| Users.NewUserGetListInSystemRequest | users.go:54-56 | type "UserGetListInSystemRequest", no criteria, and an empty slot in the prepared text |
| Users.ListRendersCriteriaInOrder | users.go:59-67 | the slot holds the criteria joined with "\n", and adding a criterion appends "\n" and its text |
| Users.NewUserGetRequest | users.go:84-86 | the type is the name and the user id is copied |
| Users.UserGetRoundTrip | users.go:84-93 | the prepared text gives back the type and then the user id, both embedded verbatim |
| Sca.NewUserSharedCallAppearanceGetEndpointRequest | sca.go:19-21 | as written: the fixed type, device name, level and line port copied, and the user id always "" |
| Sca.NewUserSharedCallAppearanceGetEndpointRequestCorrected | sca.go:19-21 | all four arguments copied, the user id included |
| Sca.PrepareRoundTrip | sca.go:24-32 | the prepared text gives back the user id, device name and line port, in that order |
| Sca.PrepareIgnoresLevelAndType | sca.go:24-32 | the prepared text depends on neither the device level nor the type field, and opens with the fixed `xsi:type` |
| Sca.UserIdDropped | sca.go:19-32 | the request built as written always sends an empty user id, so its text differs from the intended one for any non-empty user id |
| Sca.CorrectedCarriesUserId | sca.go:19-32 | the corrected request sends the user id it was given |
| Commands.Command.Prepare | connection.go:127-129 | each request type's Prepare, dispatched by type, gives that type's fragment |
| Commands.FragmentIsCommandElement | connection.go:132-133 | every command fragment opens with `<command xmlns="" xsi:type="` and ends with `</command>` |
| Commands.AuthenticationFrame | authentication.go:24-28 | the authentication fragment is a command element |
| Commands.ScaFrame | sca.go:24-32 | the shared-call-appearance fragment is a command element |
| Commands.LoginFrame | authentication.go:48-53 | the login fragment is a command element |
| Commands.ListFrame | users.go:59-67 | the user list fragment is a command element |
| Commands.UserGetFrame | users.go:89-93 | the user fragment is a command element |
| Commands.SystemFrame | system.go:20-23 | the system request fragment is a command element |
| Response.PlainLookup | response.go:57 | in any document, a path of names through elements finds the node they lead to (the items of a repeated last element), and fails with NotFound when a name is missing |
| Response.ValuesDescend | response.go:57 | plain steps through elements reach the values of the node the names lead to, or nothing |
| Response.IndexAddressesListed | response.go:61-67 | `name` finds the list's items or the single element, and `name[i]` addresses the i-th of those, so index 0 of a single row is that row |
| Response.ParsePathSteps | response.go:57 | a path is read exactly when each of its names is, and its steps are those names read one by one |
| Response.RowPathParses | response.go:67 | the path `path.row[i].col` reads as the table's steps, then row index i, then `col` |
| Response.PlainPath | response.go:81 | a dotted path without indexes reads as one plain step per name |
| Response.ParsePathAppend | response.go:57 | the steps of `path.suffix` are those of path followed by those of suffix |
| Response.GetPlain | response.go:51-53 | in any response, Get by plain names returns the node they lead to (the first item of a repeated element), and NotFound when a name is missing |
| Response.Table | response.go:56-77 | the headings' error, or the rows' error; otherwise it fails exactly when some row's cells are missing, with the error of the first such row, and else gives one map per row, in row order, each mapping heading j to cell j |
| Response.RowsFromSpec | response.go:66-75 | rows i to n-1 are built in order, and the build fails exactly when some row's cells are missing |
| Response.RowsFromFirstError | response.go:66-70 | the rows fail exactly when a row's cells are missing, and then with the error of the first such row |
| Response.FirstMissingRowIs | response.go:66-70 | every row before the first missing one has its cells, and that one has none |
| Response.RowsOutcome | response.go:65-76 | all n rows: what each holds when they are built, and which error ends them otherwise |
| Response.RowBuilt | response.go:66-75 | row k of a successful build maps the headings to the cells found at `path.row[k].col` |
| Response.BSResponse.GetTable | response.go:56-77 | the nested loops over a fresh array give exactly Table |
| Response.BuildRow | response.go:71-74 | the inner loop assigns each heading its cell, in heading order |
| Response.RowMapLastWins | response.go:72-74 | a heading maps to the cell of its last occurrence |
| Response.RowMapKeys | response.go:72-74 | a row's keys are exactly the headings |
| Response.BSResponse.IsError | response.go:80-86 | false without a command; with one, true exactly when it is typed "c:ErrorResponse" |
| Response.IsErrorIffErrorType | response.go:80-86 | for an answer with any envelope and a command, IsError holds exactly when the type attribute is "c:ErrorResponse" |
| Response.SummaryLookup | response.go:92 | in an answer with any envelope, looking up `BroadsoftDocument.command.summary` is looking up `summary` in the command |
| Response.CommandFound | response.go:81 | whatever else the envelope holds, the command of an answer is found at `BroadsoftDocument.command` |
| Response.SummaryFound | response.go:92 | whatever else the envelope holds, a text summary of the command is found at `BroadsoftDocument.command.summary`, and a missing one is not found |
| Response.NoCommandIsNoError | response.go:81-84 | an answer without a command is not an error |
| Response.FirstMatchLeftmost | response.go:96 | the leftmost position where `\[Error (\d+)\]` matches, or none when it matches nowhere |
| Response.FirstMatchIs | response.go:96 | a match with no match before it is the one found |
| Response.ErrorCode | response.go:96-100 | the code is at most the 64-bit maximum that Atoi clamps to |
| Response.ErrorCodeOf | response.go:88-100 | a summary whose first '[' opens "[Error n]" has code n |
| Response.ErrorCodeWithoutMarker | response.go:96-100 | a summary without the marker has code 0 |
| Response.ErrorCodeExample | response.go:88-100 | "[Error 4500] Invalid password" has code 4500 |
| Response.NoErrorCodeExample | response.go:88-100 | "Invalid password" has code 0 |
| Response.BSResponse.GetErrorDetails | response.go:91-102 | fails with the lookup's error exactly when there is no summary; otherwise the summary unchanged and the code read from it |
| Response.ErrorDetailsOfAnswer | response.go:91-102 | with any envelope, an error answer whose summary opens with "[Error n]" has details (n, summary) |
| Response.CodeAndSummaryRoundTrip | response.go:104-106 | a code, with or without a minus sign, followed by ": " and a summary gives back the code and the summary |
| Response.ErrorTextRoundTrip | response.go:104-106 | the text "BSFT error <code>: <summary>" gives back the code and the whole summary |
| Response.NewBSResponseAsWritten | response.go:28-48 | as written: a failed parse is an error; otherwise the body is the text, the error flag is IsError, and the error text is always "" |
| Response.NewBSResponse | response.go:35-47 | as intended: an error answer with a summary carries it as error text, and every other answer has "" |
| Response.ErrorTextLost | response.go:41-45 | as written, an error answer with a summary ends up with error text "" |
| Response.SummaryMissingRejected | response.go:41-45 | as written, an error answer without a summary cannot be built, though the intended constructor builds it |
| Response.ErrorAnswerCarriesSummary | response.go:41-45 | the intended constructor gives an error answer its summary as error text |
| Response.OtherAnswerHasNoErrorText | response.go:41-45 | a command of any other type is a plain answer with no error text |
| Connection.StripRoundTrip | connection.go:120-124 | the text between a known opening and closing is read back |
| Connection.UnwrapEnvelope | connection.go:120-124 | the request is read back out of its envelope, which ends with the trailer |
| Connection.ClosedMessageNamesError | connection.go:101-103 | the refusal of a closing connection names the last error, or `<nil>` when there is none |
| Connection.FrameCompleteSound | connection.go:152-167 | a complete message is the text of the lines up to the first line that makes the buffer end with `</BroadsoftDocument>\n`, with no error before it and timeouts adding nothing |
| Connection.FrameBrokenSound | connection.go:155-161 | a read error other than a timeout ends the read with the text read so far |
| Connection.FrameStarvedSound | connection.go:152-167 | events that run out before a message completes leave all their text in the buffer |
| Connection.FrameFirstCompletion | connection.go:163-166 | conversely, the first line that makes the buffer end with the trailer completes exactly that message |
| Connection.LineFramed | connection.go:152-167 | a message ending with the trailer, read as one line after any number of timeouts, is framed back whole |
| Connection.EnvelopeFramed | connection.go:152-167 | an envelope received after any number of timeouts is framed back whole |
| Connection.CutLineLosesHead | connection.go:154-157 | a line cut by the deadline loses the text read before the timeout: the message framed is the rest alone |
| Connection.BSConnection.constructor | connection.go:40-51 | a new connection has an empty queue, is not closing, has no last error, and its port is the decimal text of the port number |
| Connection.BSConnection.SendRaw | connection.go:100-117 | refused with the last error when closing, failed on a write or flush error, in both cases changing nothing; otherwise exactly one fresh promise for the request is appended at the tail |
| Connection.BSConnection.Send | connection.go:120-124 | the same for the request inside the header and the `</BroadsoftDocument>\n` trailer |
| Connection.BSConnection.Close | connection.go:194-200 | the connection is closing afterwards, and the queue is kept |
| Connection.BSConnection.ReadMessage | connection.go:150-167 | the framing loop returns exactly the framed message, a timeout dropping the text it cut off; a read error is recorded as the last error and closes the connection |
| Connection.BSConnection.Deliver | connection.go:182-184 | the response goes to the front promise, which leaves the queue, and the queue still pairs the k-th answer with the k-th request |
| Connection.BSConnection.Receive | connection.go:176-184 | the front promise receives the response built, as written, from the trimmed message |
| Connection.Answer | connection.go:178 | the response built as written: its body is the trimmed message, its error flag is IsError, and its error text is "" |
| Connection.NewSession | connection.go:54-59 | the session id is the plain decimal text of the draw: one to eight digits, no leading zero, read back as the draw |
| Connection.SessionTextRoundTrip | connection.go:133 | the session id and the commands are read back from `<sessionId xmlns="">id</sessionId>` followed by the commands |
| Connection.SendCommand | connection.go:132-134 | sends the envelope of the session prefix followed by the command's fragment |
| Connection.SendMultipleCommands | connection.go:137-143 | the loop prepares every fragment in order; one envelope holds the session prefix and the fragments joined with no separator |
| Connection.BatchOfOne | connection.go:137-143 | a batch of one command is sent exactly as that command alone |
| Connection.BatchAppend | connection.go:137-143 | adding a command to a batch appends its fragment |
| Connection.NonceOf | connection.go:82-86 | the nonce is the text at `BroadsoftDocument.command.nonce`, or the lookup's error |
| Connection.LoginOutcome | connection.go:92-95 | a login answer is accepted exactly when it is not an error answer, and rejected with its summary otherwise |
| Connection.BSConnection.AuthenticationStep | connection.go:77-86 | sends the authentication request as a sessioned command and returns the nonce of its answer |
| Connection.BSConnection.LoginStep | connection.go:87-95 | sends the login signed with the nonce and fails with the summary of an error answer |
| Connection.BSConnection.StartSession | connection.go:75-97 | the session is returned exactly when both sends succeed, the nonce is found and the login is not an error answer; each failure is reported as the step that failed; the authentication envelope is sent first, then the login envelope signed with the nonce, and nothing else |
| Connection.AnswersPairInOrder | connection.go:115 | on a fresh connection, two answers go to two requests in the order sent, and a closed connection refuses the next send |

## Left out

- Dialing, deadlines, the `bufio` reader and writer, and the socket itself (connection.go:61-72, 106-114, 150-154). Writes and reads are outcomes given as parameters.
- The goroutines and the `incoming`, `closing`, `closed` and `Result` channels (connection.go:145-191). They are modelled as sequential steps. `Close(true)` waiting for the reader to stop is not modelled, and neither is a second `Close` blocking on the one-slot channel.
- After a read error the reader still hands the partial message to delivery (connection.go:168). That message is then parsed or crashes, depending on what was read. `ReadMessage` returns it as `Broken`, and the model does not deliver it.
- Each pass of the reader builds a new `bufio.Reader` (connection.go:150). Bytes read ahead by the previous one are lost. The model frames each pass from a fresh event sequence.
- Parse failure of a delivered message dereferences a nil response (connection.go:178-183), and delivery with an empty queue dereferences `Front()`. Both are preconditions of `Receive`/`Deliver`.
- An error answer without a summary makes the reader's `NewBSResponse` dereference nil (response.go:42-44). `Receive`, `AuthenticationStep`, `LoginStep` and `StartSession` require answers the as-written constructor can build (`AsWrittenDefined`).
- Connection.BSConnection.StartSession: requires an empty response queue, so that the answers it is given are the ones it awaits. With requests pending, the source would wait behind them.
- Connection.BSConnection.AuthenticationStep: requires an empty response queue for the same reason: the answer given is the one to the authentication request.
- Connection.BSConnection.LoginStep: requires an empty response queue for the same reason: the answer given is the one to the login request.
- Connection.LoginOutcome: the source builds the error with `fmt.Errorf(details.Summary)`, which treats the summary as a format string. The model keeps the summary text as is.
- Response.ErrorCode: Go's `int` is taken to be 64 bits wide, so Atoi clamps an over-long code to 9223372036854775807.
- mxj's XML parsing and charset handling, and the hex dump of invalid input (response.go:29-34). The tree is a parameter, and a parse failure is the constructor's error.
- mxj's own error texts. A failed lookup is `BadPath` or `NotFound` with its path.
- SHA-1 and MD5 internals (authentication.go:40-43). The digest functions are parameters.
- `rand.Seed` and `rand.Intn` (connection.go:55-57). The draw is a parameter.
- `Connect` (connection.go:62-72): network I/O and starting the reader.
- main.go: the command-line program.

## Findings

| source | as written | input that shows it | evidently intended | confidence | as-written member | corrected member |
|---|---|---|---|---|---|---|
| response.go:42-44 | the summary is copied into `ErrorText` only when `GetErrorDetails` fails, and then its result is nil | an answer whose command has type `c:ErrorResponse` and a summary: `ErrorText` stays ""; the same answer without a summary dereferences nil | copy the summary when `GetErrorDetails` succeeds (`err == nil`) | high; not executed | Response.ErrorTextLost | Response.NewBSResponse |
| sca.go:20 | the struct literal sets every field but `UserID` | user id "alice": the request sends `<userId></userId>` | copy `userID` into `UserID` | high; not executed | Sca.UserIdDropped | Sca.NewUserSharedCallAppearanceGetEndpointRequestCorrected |

The reader builds responses as written (`Connection.Answer`), as the source does; `Response.NewBSResponse` is the constructor as intended.
