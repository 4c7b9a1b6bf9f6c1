# pywire: verified model of connections, SCRAM login, rows and shutdown

pywire puts Python handlers behind the PostgreSQL wire protocol.  This project models the parts of it
whose correctness is not visible from any one function, and proves what they keep over whole runs.

* `Ledger.dfy`, `Extended.dfy`: the resources one connection holds in Python (bound portals, parsed
  statements, a session) beside pgwire's own portal store, with every message that changes either,
  shutdown, abort, cleanup and drop.  The connection is a class with the original's fields.  An
  `.await` of the original is a call of `Suspend`, which requires the invariant `Steady`; so
  agreement of the two stores is proved at every step boundary, for every answer of every callback.
  Only there can the protocol task be dropped: by shutdown, which must first obtain the `closing`
  mutex, or by an abort, which needs nothing.  A ghost trace records the callbacks; `Ledger` is the
  reference automaton for traces, and its lemmas speak of positions of a trace only.
* `Scram.dfy`, `ScramVerifier.dfy`, `ScramStartup.dfy` (on `Bytes.dfy`, `Utf8.dfy` and `Base64.dfy`): the server
  side of SCRAM-SHA-256 against a stored verifier (sections 3, 5 and 7 of RFC 5802), the text form of
  verifiers, and the two-layer startup: a step as a function of status, message and answers, the handler
  proved against it, and theorems about whole runs.  Texts are the bytes of their UTF-8 form.  The hash
  and the keyed hash are arbitrary functions with 32-byte results.
* `EmptyQuery.dfy`: the scanner for queries without a statement, against a grammar.
* `Rows.dfy`: the row encoder, the decoder of a client, and the pull stream against the eager form.
* `Server.dfy`: the native accept loop and the Python coroutine that shields it from cancellations.

Unknown answers (Python callbacks, sockets, random numbers, HashMap order, the scheduler) are
nondeterministic choices, so every contract holds for all of them.

## Findings

* Handling a password message can fail without making later ones fail with the invalid-state error:
  the exchange is stored before the server-first-message is sent (src/scram_verifier.rs:518-524).
  `ScramStartup.FailureIsFinalIff` says that this is the only exception: the message is the first of
  its kind, it is well-formed, negotiated and looked up, and only the sending fails
  (`ContinueLostIff`).  `LostContinueExample` is such a run, and by `LostContinueThenReady` a client
  with the right password completes the startup after it.
* With pgwire's own authentication methods the client is ready for queries before the session is
  opened (src/server.rs:214-232).  `ScramStartup.ReadyWithoutSessionIff` says exactly when that leaves
  a ready client without a session, and `ReadyWithoutSessionExample` is such a run; after
  stored-verifier SCRAM it cannot happen.
* docs/api/server.md:186-191 says that cancelling `serve` aborts the active connection tasks.  The code
  waits for every one of them (pywire/server.py:127-135); the model follows the code.  Connections are
  aborted only when the native future fails or is itself dropped.  A close callback is then cut short
  exactly if the abort strikes while `closing` is held (`Extended.ServeConnection`); its resource is
  closed once more by the final cleanup (`Extended.CutShort` is such a run), but never more than one
  callback, and never more than once (`Ledger.AbandonedIsCleanedUp`).
* `encode_data_row` wraps its casts: a client recovers a row exactly when it has at most 32767 cells of
  at most 2^31-1 bytes (`Rows.RowRoundTripIff`; `Rows.LostRows` has a row beyond each limit).
* An iteration count with a plus sign or leading zeros is accepted in a verifier text, and these are
  the only texts that printing does not give back (`ScramVerifier.PrintAfterParse`, with
  `ScramVerifier.PlusSignExample`).

## Model

| member | source | states |
|---|---|---|
| Ledger.LiveIsOpen | src/extended.rs:50-66 | what the maps of a connection hold at any point of any run is exactly what was acquired and not ended since, each resource by one acquisition |
| Ledger.ClosesOnlyWhatIsOpen | src/extended.rs:231-244 | a close callback is only issued for a resource acquired earlier and not successfully closed since, and to the Python object that created it |
| Ledger.EndedBeforeReacquired | src/extended.rs:551-570 | a name is never bound or parsed again while its previous holder is still open |
| Ledger.EndsAtMostOnce | src/extended.rs:231-244 | a successfully closed resource is not closed again unless acquired anew |
| Ledger.PortalsEndBeforeTheirStatement | src/extended.rs:273-314 | when a statement's close callback is issued, every portal ever made from it has been closed, or attempted in the final cleanup |
| Ledger.UsesTheLatestObject | src/extended.rs:206-219 | Describe and Execute receive the object of the latest successful Bind of the name, and it has not been closed |
| Ledger.BoundByTheParser | src/extended.rs:542-571 | every portal is bound through the very object that parsed its statement, which is open then |
| Ledger.OnlyPortalsDepend | src/extended.rs:50-66 | statements and sessions depend on no other resource |
| Ledger.SimpleQueryRunsWithoutUnnamed | src/server.rs:90-93 | the simple handler never runs while an unnamed portal or statement is open in Python |
| Ledger.CleaningIsForever | src/extended.rs:112-133 | once the cleanup has begun or a close was abandoned, nothing is acquired or used any more: only cleanup closes follow, and what is held only shrinks |
| Ledger.CleanupOrder | src/extended.rs:112-133 | all cleanup attempts on portals precede those on statements, the session comes last, and no callback follows it |
| Ledger.SessionEndsInCleanup | src/extended.rs:124-132 | the session is closed by the cleanup alone, and only the session can be let go without a call |
| Ledger.AbandonedIffSomeClose | src/extended.rs:229-230 | the flag that shutdown safety is stated with is set exactly when some close callback was dropped before it answered |
| Ledger.AbandonedIsCleanedUp | src/extended.rs:83-133 | over a cleaned-up connection at most one close was abandoned, and its resource is closed once more, by the cleanup, through the same Python object |
| Ledger.AbandonedExample | src/extended.rs:95-110 | a legal trace with an abandoned close and its repetition by the cleanup |
| Ledger.Conservation | src/extended.rs:112-121 | at every point of every run, acquisitions equal successful protocol closes plus cleanup attempts plus what is still held, for portals, statements and sessions separately |
| Ledger.WholeRunConservation | src/extended.rs:83-133 | over a cleaned-up connection, acquisitions equal successful closes plus cleanup attempts |
| Ledger.EndedExactlyOnce | src/extended.rs:83-133 | over a cleaned-up connection the closes of each acquisition are failures, then exactly one end, then none until the name is acquired again |
| Extended.Connection.constructor | src/extended.rs:69-77 | a new connection agrees with pgwire's empty store and has called nothing |
| Extended.Connection.Suspend | src/server.rs:552-565 | at an await, which may only be reached with both stores in agreement, shutdown drops the protocol task only while no close callback holds `closing`; only an abort can strike there, which is recorded |
| Extended.Connection.CallPython | src/extended.rs:317-325 | a callback under the lock answers or raises unless the task is aborted |
| Extended.Connection.CallClosePortal | src/extended.rs:240-242 | one close attempt is recorded for a bound portal, and the resource leaves the ledger only if it succeeded |
| Extended.Connection.ClosePortal | src/extended.rs:221-245 | success removes the entry after one successful callback if it was bound; a failing callback keeps the entry for a retry; a drop changes nothing but, under an abort, one abandoned attempt |
| Extended.Connection.RemovePortal | src/extended.rs:648-649 | Python's map and pgwire's store lose the name together or not at all |
| Extended.Connection.RemovePortals | src/extended.rs:265-268 | in some order each named portal is closed with at most one callback; wherever it stops, those closed before are gone from both stores, the next one had one failed attempt, and the rest is untouched |
| Extended.PortalsClosedMaps | src/extended.rs:265-269 | a finished series of closes takes exactly the named portals from both stores and calls nothing but their closes |
| Extended.StoppedMaps | src/extended.rs:265-268 | a series that stops early has taken the same portals from both stores, and no statement |
| Extended.StatementClosedMaps | src/extended.rs:273-314 | closing a statement takes it and exactly its portals from all four maps |
| Extended.StatementStoppedMaps | src/extended.rs:273-314 | while a statement is being closed no portal of another one is touched, and the statement stays |
| Extended.Connection.CloseAllPortals | src/extended.rs:247-271 | success leaves no portal in either store, each bound one closed by one callback; otherwise the rest is untouched; only portals are closed |
| Extended.Connection.CloseStatement | src/extended.rs:273-314 | success is one close per bound dependent, in some order, then one of the statement if it has a value; failure or drop at any await keeps the statement, with exactly one failed attempt last |
| Extended.Connection.CloseLoneStatement | src/extended.rs:299-313 | the statement goes from both stores together, after a successful callback if and only if it holds a value |
| Extended.Connection.CallCloseStatement | src/extended.rs:300-310 | exactly the statements with a value are closed in Python, by the handler that parsed them |
| Extended.Connection.PutStatement | src/extended.rs:477-496 | storing keeps the agreement: Python's statements are exactly the value statements of pgwire's store |
| Extended.Connection.PutPortal | src/extended.rs:554-571 | storing keeps the agreement: a portal is bound exactly when its statement has a value |
| Extended.Connection.OnParse | src/extended.rs:452-501 | a duplicate named statement is refused untouched; otherwise the name holds an empty statement exactly for empty queries, and another one is parsed by the session if there is one and by the server's handler otherwise; a failed or dropped parse leaves a named statement's stores untouched, and of the unnamed predecessor nothing, unless its own close stopped before |
| Extended.Connection.StoreParsed | src/extended.rs:477-496 | a failing or dropped parse stores nothing anywhere |
| Extended.Connection.OnBind | src/extended.rs:503-614 | each refusal exactly under its condition on names, formats and stores, and untouched; success closes the predecessor once and then replaces just that portal in both stores, bound by the session if there is one; a Python error is either a failed close, which keeps the old portal, or a failed bind, which leaves the name free |
| Extended.Connection.BindTo | src/extended.rs:542-607 | the name is free in both stores while Python binds and after a failing bind; only a failing close, with its one attempt recorded, leaves the old portal; an empty statement cannot fail but by that |
| Extended.Connection.OnSync | src/extended.rs:616-633 | outside a transaction a successful Sync expires every portal in both stores, closing each bound one once; inside one it changes neither and calls nothing |
| Extended.Connection.OnClose | src/extended.rs:635-657 | Close of a portal or statement removes it and its dependents from both stores and nothing else, with one close each, dependents first; a failure leaves exactly the closes before it done; an unknown target changes nothing |
| Extended.Connection.CallWithPortal | src/extended.rs:737-758 | when pgwire finds a value portal pywire always finds its own object, so the not-found error cannot happen |
| Extended.Connection.OnDescribe | src/extended.rs:701-722 | Describe fails for exactly the names pgwire does not know and passes the bound object otherwise |
| Extended.Connection.OnExecute | src/extended.rs:737-770 | the end of a transaction expires every portal in both stores; without it the stores stay as they are |
| Extended.Connection.OnQuery | src/server.rs:80-98 | a simple query first closes the unnamed portal and statement, then calls the handler once, and leaves no portal outside a transaction; a failure or drop leaves a prefix of that, and a failing handler still has the portals expire outside a transaction |
| Extended.Connection.RunHandler | src/server.rs:100-122 | the simple handler is called exactly once; the end of a transaction among its responses leaves no portal in either store, and without it nothing changes |
| Extended.Connection.OpenSession | src/server.rs:239-258 | the session is recorded for the final close exactly when it is opened |
| Extended.Connection.OnMessage | src/extended.rs:452-770 | each message is handled by the contract of its own kind: completed, refused untouched, or cut off by a callback that raised |
| Extended.Connection.CleanupEntries | src/extended.rs:112-133 | the cleanup attempts everything that is held, in a legal order, and leaves nothing, whatever fails |
| Extended.Connection.Cleanup | src/extended.rs:83-92 | after `cleanup` the connection is clean and its maps are empty |
| Extended.Connection.DropResources | src/extended.rs:95-110 | after `cleanup` dropping calls nothing; without it everything is cleaned up exactly if there is a runtime or nothing is held |
| Extended.Connection.ProcessSocket | src/server.rs:552-565 | a run is a chain of handled messages, each from where the one before left both stores; wherever the protocol task ends or is dropped, the stores agree and `closing` is free |
| Extended.ServeConnection | src/server.rs:545-566 | for all messages, answers and interruptions: the run is such a chain and then a cleanup, every acquisition is made by the session or, without one, by the server's handler, the callback trace is legal, nothing is left behind unless an abort finds no runtime, and a close callback is cut short if and only if an abort strikes while `closing` is held |
| Extended.CutShort | src/extended.rs:229-242 | a run in which that happens, and the cleanup closes the portal once more |
| EmptyQuery.ReadLineComment | src/extended.rs:367-374 | a line comment ends behind the first newline or carriage return or with the text |
| EmptyQuery.ReadBlockComment | src/extended.rs:376-391 | the loop finds the matching end of a nested comment, and its 32-bit depth stays within half of the characters read |
| EmptyQuery.IsEmptyQuery | src/extended.rs:361-395 | the loops decide the recursive recognizer, without overflow for texts below 2^32 characters |
| EmptyQuery.EmptyIffGenerated | src/extended.rs:361-395 | the scanner accepts exactly the strings generated from blanks, semicolons, line comments and balanced nested comments lexed from the left |
| EmptyQuery.EmptyCharacter | src/extended.rs:361-366 | the characters that are no statement by themselves are the five ASCII whitespace characters and the semicolon |
| EmptyQuery.LineEnd | src/extended.rs:367-374 | a line comment is ended by a newline or a carriage return and by nothing else |
| EmptyQuery.EmptyPrefix | src/extended.rs:361-395 | a text without statements and a newline may be put before any text without changing the verdict |
| EmptyQuery.OpenersAndClosers | src/extended.rs:376-391 | n comment openers and m closers are empty exactly when n = m |
| ScramVerifier.New | src/scram_verifier.rs:75-96 | exactly the valid verifiers are made, and each refusal has its condition |
| ScramVerifier.ParseIff | src/scram_verifier.rs:98-117 | a text is accepted exactly when it is the written form of a valid verifier, whose iteration count alone may be written in several ways |
| ScramVerifier.MalformedIff | src/scram_verifier.rs:98-117 | a text is malformed exactly if it is not the written form of any fields at all |
| ScramVerifier.ParseWritten | src/scram_verifier.rs:98-117 | any written form is judged by its fields as `New` judges them |
| ScramVerifier.PrintInLetters | src/scram_verifier.rs:744-758 | the printed form in its own letters |
| ScramVerifier.RoundTrip | src/scram_verifier.rs:744-758 | parsing the printed form of any valid verifier gives it back |
| ScramVerifier.PrintAfterParse | src/scram_verifier.rs:98-117 | printing an accepted text keeps its meaning, and keeps the text exactly when its iteration count has no sign and no leading zero |
| ScramVerifier.PlusSignExample | src/scram_verifier.rs:98-117 | an accepted text, for any verifier, that printing does not give back |
| Base64.DecodeEncode | src/scram_verifier.rs:273-276 | decoding undoes encoding |
| Base64.QuadIsNumber | src/scram_verifier.rs:273-276 | three bytes are written as the four base-64 digits of their number |
| Base64.PaddedForms | src/scram_verifier.rs:273-276 | one or two bytes are written like three with zeros behind, padded |
| Base64.CharOfAlphabet | src/scram_verifier.rs:273-276 | the digits are those of table 1 of RFC 4648 |
| Base64.EncodeDecode | src/scram_verifier.rs:304-304 | nothing but the encoding of some data is decoded, so each data has one encoding |
| Bytes.XorAllCancel | src/scram_verifier.rs:311-315 | the server recovers the client key from the proof |
| Bytes.XorAllBits | src/scram_verifier.rs:311-315 | every bit of the client key is the sum without carry of the bits of proof and signature |
| Bytes.RSplitOnceIff | src/scram_verifier.rs:291-291 | a message is split exactly where the proof field begins for the last time |
| Utf8.ValidIff | src/scram_verifier.rs:180-182 | the texts that are read are exactly the encodings of sequences of Unicode scalar values |
| Scram.ParsePrintedFirst | src/scram_verifier.rs:200-223 | the parser inverts the printer of client-first-messages, for any extensions |
| Scram.MessagesInLetters | src/scram_verifier.rs:200-223 | the client's messages of section 7 of RFC 5802 in their own letters |
| Scram.ParseFirstIff | src/scram_verifier.rs:200-223 | every other shape is rejected, and header and bare message are verbatim parts of the message |
| Scram.ServerFirstIsReadable | src/scram_verifier.rs:270-275 | a client reads nonce, salt and iteration count back from the server-first-message |
| Scram.NewExchangeIsWellFormed | src/scram_verifier.rs:262-286 | no field a client must echo can contain a separator |
| Scram.Completeness | src/scram_verifier.rs:262-323 | a client with the salted password that echoes the nonce it reads from the server-first-message is accepted for every header, binding data, nonces and extensions, and receives the server signature it computes itself |
| Scram.NonceIsAnnounced | src/scram_verifier.rs:270-275 | the nonce that is checked is the one announced: the client's own with the server's behind it |
| Scram.ServerFirstInLetters | src/scram_verifier.rs:270-275 | the server's first message in its own letters |
| Scram.NonceIsEchoed | src/scram_verifier.rs:301-303 | an accepted message carries the announced nonce |
| Scram.HonestClientIsAccepted | src/scram_verifier.rs:442-471 | the same from the printed client-first-message on, whenever the negotiation succeeds |
| Scram.AcceptsIff | src/scram_verifier.rs:289-322 | acceptance means a real exchange and a message for it whose 32-byte proof yields a preimage of the stored key; and every such message is accepted |
| Scram.RefusalsIff | src/scram_verifier.rs:289-320 | every refusal by its condition on the encoding, the shape, the binding, the nonce and the proof of the message |
| Scram.AcceptedOncePerProoflessPart | src/scram_verifier.rs:304-322 | two different accepted messages with one part before the proof give a collision on the stored key |
| Scram.UniqueProof | src/scram_verifier.rs:304-322 | with a hash injective on 32-byte keys there is at most one accepted proof |
| Scram.ChannelBindingIsEchoed | src/scram_verifier.rs:225-300 | acceptance means the client echoed its own header and the negotiated data, over the PLUS mechanism the configured certificate hash |
| Scram.MockVerifierIsValid | src/scram_verifier.rs:326-338 | the stand-in for an unknown user meets the bounds of a stored verifier |
| Scram.MockVerifierInputs | src/scram_verifier.rs:329-338 | the stand-in announces the configured iterations and 16 bytes of salt; its salt and keys are made from inputs that differ from each other and between users |
| Scram.MockEquivalence | src/scram_verifier.rs:289-338 | the stand-in never accepts, and answers error for error like the real exchange wherever that rejects |
| ScramStartup.StartIff | src/scram_verifier.rs:442-471 | an exchange is started exactly for a printed and negotiated first message after a lookup that answers, with the random bytes in base64 as its nonce, real for a known user and the derived stand-in for an unknown one |
| ScramStartup.StartErrorsIff | src/scram_verifier.rs:442-466 | every way in which no exchange is started, by its condition on the first message and the answers |
| ScramStartup.LookedUpIff | src/scram_verifier.rs:448-455 | a first message gets as far as the lookup exactly if its channel binding is agreed on |
| ScramStartup.LookupIff | src/scram_verifier.rs:448-455 | over a run, a user is looked up exactly when the first password message gets so far |
| ScramStartup.ConnectionStartup.OnPassword | src/scram_verifier.rs:511-543 | the handler takes the step of the reference, and refuses as out of state exactly in the final state |
| ScramStartup.ConnectionStartup.Finish | src/scram_verifier.rs:526-541 | verification, session, signature and end happen in this order, up to the first that fails |
| ScramStartup.ConnectionStartup.OnStartup | src/server.rs:190-237 | the two layers together take the step of the reference for every message and answer |
| ScramStartup.TlsRequiredIff | src/server.rs:202-213 | exactly the startup messages without TLS where it is required are refused for it, and nothing changes |
| ScramStartup.OtherMessages | src/scram_verifier.rs:496-509 | a startup message makes the client unready and succeeds exactly if agreed on and answered; other messages do nothing |
| ScramStartup.ConnectionStartup.Run | src/scram_verifier.rs:484-548 | over every message sequence the handler gives the outcomes of the reference run |
| ScramStartup.StateOfRun | src/scram_verifier.rs:417-419 | the state is determined by the first password message and whether a second one came; other messages do not count |
| ScramStartup.StepsFollowScript | src/scram_verifier.rs:484-548 | lookup, verification, session, signature and end happen at most once, in this order; other methods only open the session, once |
| ScramStartup.SignatureComesLate | src/scram_verifier.rs:526-536 | when the handler has sent the signature it had verified before, and opened the session if there is a factory |
| ScramStartup.InvalidStateIff | src/scram_verifier.rs:511-543 | refused as out of state are exactly the third and later password messages, and the second if the first started no exchange; the first never is |
| ScramStartup.FirstOutcome | src/scram_verifier.rs:511-525 | every outcome of the first password message by its condition |
| ScramStartup.SecondFailuresIff | src/scram_verifier.rs:526-541 | every failure of the second one by its condition, and the steps taken until then |
| ScramStartup.FailureIsFinalIff | src/scram_verifier.rs:511-543 | after a failed password message all later ones are refused as out of state if and only if it was not the one exception, a first message whose started exchange could not be announced, or none follows |
| ScramStartup.ContinueLostIff | src/scram_verifier.rs:513-524 | that exception, told by the messages and answers alone |
| ScramStartup.LostContinueExample | src/scram_verifier.rs:518-524 | a run in which a failed password message is followed by one that is not refused |
| ScramStartup.LostContinueThenReady | src/scram_verifier.rs:518-541 | after that failure the right final message still completes the startup |
| ScramStartup.VerifiedIff | src/scram_verifier.rs:511-528 | a run has verified its client exactly when its first password message started an exchange and its second proved the password of that one |
| ScramStartup.AuthenticatesIff | src/scram_verifier.rs:511-528 | the same told by the messages themselves |
| ScramStartup.SecondSucceedsIff | src/scram_verifier.rs:526-541 | the second password message succeeds exactly when it proves the password and session, signature and end do not fail; then everything is installed |
| ScramStartup.ReadyIsVerified | src/scram_verifier.rs:526-541 | nobody is ready who has not proved the password of the real exchange that the first message of the run started, nor without the session of a configured factory |
| ScramStartup.ReadyIsBound | src/scram_verifier.rs:225-300 | over a whole run, whoever is ready used a stored verifier and echoed header and data of the first message, over PLUS the certificate hash; a client that claims there is none is ready only where none is offered |
| ScramStartup.ReadyHasSession | src/server.rs:214-237 | for every authentication method, a message answered without an error leaves no ready client without resources or its session |
| ScramStartup.ReadyWithoutSessionIff | src/server.rs:226-236 | with pgwire's own methods a ready client is left without a session exactly when opening it fails or the method itself does; the error of the message tells which |
| ScramStartup.ReadyWithoutSessionExample | src/server.rs:226-236 | a run that leaves a ready client without a session |
| ScramStartup.UnknownUserLooksTheSame | src/scram_verifier.rs:326-338 | over a whole run that proves no password, an unknown user gives the outcomes of a known one at every message, and the same status but for the exchange |
| ScramStartup.UnknownInputsLookTheSame | src/scram_verifier.rs:442-543 | the same for two runs whose inputs differ only in that lookups find nobody |
| Rows.EncodeDataRow | src/query.rs:302-322 | the loop writes the cells in order and fills the reserved capacity exactly |
| Rows.RowRoundTripIff | src/query.rs:302-322 | a client that reads the announced number of cells recovers them exactly when the casts lose nothing, NULL and empty apart |
| Rows.LengthWraps | src/query.rs:309-317 | a length is sent most significant byte first and read as the congruent signed 32-bit number; NULL is -1 |
| Rows.LostRows | src/query.rs:302-322 | a row of 32768 cells and one with a cell of 2^31 bytes are not recovered |
| Rows.RowIsInjective | src/query.rs:302-322 | different rows within the limits are sent differently |
| Rows.StreamEmits | src/query.rs:360-400 | the stream emits the rows before the first other answer, then at most one error, and never asks again |
| Rows.StreamRefinesQuery | src/query.rs:349-400 | for a finite list the stream and the eager response emit the same items |
| Server.Native.Step | src/server.rs:530-571 | connections are accepted only before shutdown, the loop ends regularly only when all have run their cleanup and been collected, and a failure aborts exactly those running |
| Server.Shield | pywire/server.py:125-133 | the native future comes to the state that its own wake-ups among the ticks give; a cancellation ends the wait and changes nothing of it |
| Server.Serve | pywire/server.py:99-135 | under any number of cancellations the coroutine ends with its cancellation only after every accepted connection has closed all it had acquired, with no close cut short, and never ends regularly; the native loop comes to what the schedule gives with the event set by the first cancellation |
| Server.OnlyTheFirstCancelCounts | pywire/server.py:125-133 | a further cancellation anywhere in the schedule makes no difference to the native loop |

## Left out

- pgwire itself (message reading, portal suspension, cancel routing, `Portal::try_new`): taken to change its portal store only by the calls shown, and not to interrupt a close callback.
- Suspend: an await is one point where the task may be dropped; how often it is polled there is not modelled, since polling changes nothing.
- Extended.Connection.OnMessage: states only that the invariant is kept; the contract of each message is on its own method.
- Values of bind parameters, descriptions and query results: passed through between Python and pgwire unchanged.
- Python callbacks that never answer: the model says what holds at every await, not that an await ends.
- Strength and timing of the cryptography, PBKDF2, random nonces and certificate hashing: the hash functions and the certificate hash are parameters.
- The base64 crate: modelled as the canonical codec of section 4 of RFC 4648; its source is not part of this model.
- Registration with the connection manager and process identifiers: they carry no state of this model.
- Error texts and SQLSTATE tables: errors are a small datatype.
- TLS files, option checks, listener binding and addresses: single conversions before the loop starts.
- Server.Native.Step: one wake-up at a time; that connection tasks eventually finish is not stated, and they are taken not to panic (`join_next` collects a task that did like any other).
- pgwire's other authentication methods: whether they succeed and make the client ready is an answer of the world; that they open no session themselves is taken from src/server.rs:177-207.
