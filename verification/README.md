# Verified models of the PFPSim framework core

This project models five cooperating parts of the PFPSim framework and proves what they promise:

* the JSON codec and value order of the bundled `json.hpp`: printer, scanner, parser, UTF-8 encoder, comparison;
* the stop/continue handshake between the simulation thread and the debugger's request server;
* the traces, packet backtraces and breakpoints that the debugger's data manager keeps up to date;
* the overlay of instance configurations on class configurations;
* the bounded queue between modules, and the fixed-width byte literals of the control-plane language.

`dafny verify dfyconfig.toml` checks everything.

## How the model is built

Code that updates things in place is a class or a method with loops: the lexer moves a cursor and a marker, the
parser its last token, `escape_string` fills a pre-filled buffer, `dump` writes to a stream, the debugger's threads
update flags and mutexes, the data manager its maps, the queue its slots. Each such method is proved against a
specification function, and the promises of the source are proved about those functions, over all inputs or all
runs. Comparison, `to_unicode` and the structure of a merge are pure functions.

* JSON bytes are integers 0 to 255, a text is a sequence of bytes, and reading at the end of a text gives the
  terminating NUL. An object is a sequence of members with distinct ascending keys, as in a `std::map`.
* `JsonDfa.Delta` is the table of the generated scanner, one state for every label at which a byte is examined.
  `JsonTokens.Legal` says independently which token stands at a place, in the terms of sections 2, 3 and 6 of RFC 7159
  and, for strings, of a body that `JsonStrings.BodyIsRfcOrControl` compares with section 7; `JsonTokens.ScanMeaning`
  connects the two. What a body spells is said byte by byte in `JsonEscapes`, what `<` answers in `JsonPrecedence`,
  and how printed text is laid out in `JsonLayout`, each without the functions that the code is proved against.
* The handshake is a state machine over atomic steps of two threads, with spurious wakeups. `start_mutex` is a binary
  semaphore, because it is locked by one thread and unlocked by the other. A message is named by its place in
  the order of allocation, so a message that is stale, sent twice or freed twice is visible. The functions of both
  threads are methods with their locks and wait loops; between their atomic blocks the other thread takes any steps.
* The data manager carries its history as a ghost field; its indexes are proved to be functions of that history.
* Times are reals. A mutex, an event of the SystemC kernel, `std::to_string` and `stof` are modelled by what they promise.
* `exit` and exceptions are results of type `Result`.

## Where the code and its documentation or standard differ

The model follows the code.

* A NUL byte inside a JSON text ends the input; bytes behind it make no difference (`JsonText.NulEndsText`).
* The scanner's table works on bytes. It accepts strings that section 7 of RFC 7159 does not have: those with a control
  character 0x10 to 0x1F that is not escaped, and those that are not UTF-8 (`JsonStrings.BodyIsRfcOrControl` says that
  these are all, `JsonTokens.IllFormedString` gives one). The printer escapes control characters, and passes text
  that is not UTF-8 on as it is (`JsonStrings.EscapedIsRfc`).
* A byte order mark is skipped like a blank between any two tokens.
* A lone low surrogate in a `\u` escape is not refused and yields bytes that are not UTF-8
  (`JsonUnicode.ToUnicodeMeaning`).
* A number with a leading zero is scanned as the token `0`, but reading its value then fails, because the C library reads on
  (`JsonNumberTokens.NumberTokenValue` lists every such case).
* `operator<` fails to be transitive around every value that holds, at any depth, an unsigned number above 2^63-1, and
  around no other value without floats (`JsonOrder.UnsignedBreaksOrder`).
* `operator==` makes 2^64-1 equal to -1, although the two print differently (`JsonRoundTrip.EqualityShows`).
* A configuration overlay treats 5 and -3 as different types, because a number without a sign is read as unsigned
  (`ConfigOverlay.SignMakesType`); an instance that is structured where its base is not (or the reverse) ends the program with exit status 0.
* If the first Continue or Next precedes every Run, the debugger never answers again (`Handshake.StuckForever`,
  `Handshake.ContinueFirst`).
* A breakpoint that is disabled can keep an enabled one from stopping the simulation (`Breakpoints.EnabledStops`), and
  makes the breakpoint of a Next get lost (`Breakpoints.NextSwallowed`).

## Model

| member | source | states |
|---|---|---|
| JsonOrder.StrictWeakOrder | pfpsim/core/json.hpp:5210-5289 | on all nested values without floats and with unsigned numbers up to 2^63-1: equality is exactly incomparability under `<`, it is an equivalence, and equal values have the same predecessors and successors |
| JsonOrder.StrictOrder | pfpsim/core/json.hpp:5400-5482 | on the same values `<` is irreflexive, asymmetric and transitive, through lexicographic arrays, key/value-ordered objects and the rank table |
| JsonOrder.Cotransitive | pfpsim/core/json.hpp:5163-5184 | of two values in order, any third value comes after the first or before the second |
| JsonOrder.UnsignedBreaksOrder | pfpsim/core/json.hpp:5469-5476 | transitivity fails around a value without floats exactly when it holds, at any depth, an unsigned number that the cast to a signed number changes; the two other values can be chosen without such numbers, and as maps |
| JsonOrder.EqIsIncomparable | pfpsim/core/json.hpp:5210-5289 | any two values without floats, whatever their numbers, are equal exactly when neither is less than the other |
| JsonPrecedence.LessMeaning | pfpsim/core/json.hpp:5400-5482 | what `<` answers for any two values without floats: null before booleans, numbers, objects, arrays and strings in this order, false before true, numbers by value (beside a signed number an unsigned one counts modulo 2^64 as signed), and the three kinds below by their first difference |
| JsonPrecedence.TextLessMeaning | pfpsim/core/json.hpp:5425-5430 | a text is less exactly when at the first difference it has the smaller byte or ends |
| JsonPrecedence.LessElemsMeaning | pfpsim/core/json.hpp:5409-5414 | an array is less exactly when at the first place where the elements are not tied it has the lesser element or ends |
| JsonPrecedence.LessMembersMeaning | pfpsim/core/json.hpp:5415-5420 | an object likewise, its members compared by their keys and under one key by their values |
| JsonValue.InsertMeaning | pfpsim/core/json.hpp:8494 | `result[key] = value` keeps the keys distinct and sorted, defines the key, and changes no other key |
| JsonUnicode.ToUnicodeMeaning | pfpsim/core/json.hpp:7149-7211 | which arguments are refused and why; every other one yields UTF-8 that decodes to the scalar value meant, except a lone low surrogate |
| JsonUnicode.EncodeDecodes | pfpsim/core/json.hpp:7178-7208 | the bytes are UTF-8 as RFC 3629 defines it exactly when the code point is a scalar value, and then a decoder recovers it |
| JsonUnicode.DecodeEncodes | pfpsim/core/json.hpp:7178-7208 | every UTF-8 character is what the encoder writes for the character it stands for, so the form written is the only and the shortest one |
| JsonUnicode.SurrogatesBijective | pfpsim/core/json.hpp:7155-7170 | the single subtraction maps surrogate pairs one to one onto 0x10000 to 0x10FFFF |
| JsonStrings.ExtraSpace | pfpsim/core/json.hpp:5758-5792 | the number of bytes that escaping adds, exactly |
| JsonStrings.PutEscaped | pfpsim/core/json.hpp:5820-5907 | one round of the loop writes the escape of the byte and nothing else; the cell it leaves alone is an intended backslash |
| JsonStrings.EscapeString | pfpsim/core/json.hpp:5807-5911 | all writes are in bounds, they end at the end of the buffer, and the buffer is the escaped text |
| JsonStrings.EscapeRoundTrip | pfpsim/core/json.hpp:5807-5911 | escaped text has no control character and no unescaped quote, and reading it gives the text back, byte by byte |
| JsonStrings.EscapedIsRfc | pfpsim/core/json.hpp:5807-5911 | escaped text is a string body of section 7 of RFC 7159 if and only if the text is UTF-8 |
| JsonStrings.EscapedIsPrintable | pfpsim/core/json.hpp:5807-5911 | no byte of the output is below 0x20 |
| JsonStrings.EscapeInjective | pfpsim/core/json.hpp:5807-5911 | different texts have different escaped forms |
| JsonEscapes.UnescapeMeaning | pfpsim/core/json.hpp:8083-8184 | a string body has a value exactly when it is spelled, piece by piece, by bytes that stand for themselves, two-byte escapes, `u` escapes and pairs of them, in the literal bytes of section 7 of RFC 7159, and the value is the text spelled, in UTF-8; any other body is refused with `std::invalid_argument` |
| JsonEscapes.UnitValue | pfpsim/core/json.hpp:8144-8170 | for every 16-bit unit, four hexadecimal digits in either case, most significant first, give the UTF-8 form of that character; a high surrogate alone is refused |
| JsonEscapes.PairValue | pfpsim/core/json.hpp:8148-8163 | for every character from 0x10000 on, the two escapes of its surrogate pair give its UTF-8 form |
| JsonEscapes.EscapeForms | pfpsim/core/json.hpp:5820-5907 | which form each byte is escaped to: the short escape when there is one, lower-case `\u00xx` for the other control characters, itself otherwise |
| JsonStrings.BodyIsRfcOrControl | pfpsim/core/json.hpp:7605-7618 | the bodies of section 7 of RFC 7159, over UTF-8, are exactly those that the scanner accepts, have no byte below 0x20, and are UTF-8 |
| JsonTokens.ScanMeaning | pfpsim/core/json.hpp:7264-8026 | behind blanks and byte order marks the scanner returns a token of some kind and extent if and only if such a token stands there: a literal, punctuation, a number of section 6 of RFC 7159, a quoted string body of bytes, or the end; otherwise it reports an error |
| JsonTokens.Alphabet | pfpsim/core/json.hpp:7277-7455 | blanks, digits, signs, exponent marks, punctuation and literals of the grammar are the bytes that RFC 7159 lists |
| JsonTokens.IllFormedString | pfpsim/core/json.hpp:7605-7618 | a string with a byte that is not UTF-8 is scanned as a string and printed as it is |
| JsonScan.ScanString | pfpsim/core/json.hpp:7456-7463 | a quoted string body is one string token that ends at its final quote, whatever follows |
| JsonScan.ScanStringSound | pfpsim/core/json.hpp:7605-7712 | every string token is a quoted string body, so that its value is defined |
| JsonScan.ScanBlanks | pfpsim/core/json.hpp:7442-7455 | blanks before a token do not change it |
| JsonNumberTokens.ScanNumber | pfpsim/core/json.hpp:7469-7545 | at a digit or minus sign the scanner takes the longest prefix that section 6 of RFC 7159 calls a number, and reports an error when there is none |
| JsonNumberTokens.NumberEndIsLongest | pfpsim/core/json.hpp:7713-7756 | no longer text is a number of that grammar |
| JsonNumberTokens.NumberTokenValue | pfpsim/core/json.hpp:8308-8369 | the exact value of every number token: integer in 64 bits, float, or an exception, with the bytes after the token that cause it |
| JsonNumbers.PrintedIntegerIsRead | pfpsim/core/json.hpp:8308-8369 | a printed 64-bit integer is one token and is read as the same number, unsigned unless negative |
| JsonNumbers.PrintedDigit | pfpsim/core/json.hpp:6035-6045 | every printed digit counts the power of ten of its place |
| JsonNumbers.PrintedLength | pfpsim/core/json.hpp:6035-6045 | all digits are printed, without leading zeros, behind a minus sign when the number is negative |
| JsonLexer.Lexer.Scan | pfpsim/core/json.hpp:7264-8026 | the cursor, the start and the kind after a scan are those of the automaton, with marker and backtracking |
| JsonLexer.Lexer.GetString | pfpsim/core/json.hpp:8083-8184 | the value of the string token, byte by byte from the input, including surrogate pairs that run on and the exceptions |
| JsonLexer.Lexer.GetNumber | pfpsim/core/json.hpp:8308-8369 | the value of the number token as the C library functions give it |
| JsonGrammar.ParseYield | pfpsim/core/json.hpp:8426-8615 | the parser reads exactly the tokens of any derivation, whatever follows, and returns its value |
| JsonGrammar.ParsedHasTree | pfpsim/core/json.hpp:8426-8615 | whatever the parser accepts has a derivation, of that value |
| JsonGrammar.AcceptsExactlyTheGrammar | pfpsim/core/json.hpp:8413-8645 | the parser accepts a token sequence with a value if and only if the grammar of sections 2, 4 and 5 of RFC 7159 derives it with that value, before the end of input |
| JsonText.AcceptedTexts | pfpsim/core/json.hpp:5639-5643 | `parse` accepts a text with a value if and only if the text is spelled by tokens, each behind the one before it, up to the end of the input, that the grammar derives with that value |
| JsonText.SpellingIsLexed | pfpsim/core/json.hpp:8618-8622 | a text has at most one such spelling, and it is what the lexer finds |
| JsonText.RefusedTexts | pfpsim/core/json.hpp:5639-5643 | every text that is not accepted is refused with `std::invalid_argument`; the `std::out_of_range` of `to_unicode` does not occur |
| JsonText.NulEndsText | pfpsim/core/json.hpp:7431-7435 | a text means what the part before its first NUL byte means |
| JsonParser.Parser.GetToken | pfpsim/core/json.hpp:8618-8622 | the parser moves on by exactly one token |
| JsonParser.Parser.ParseInternal | pfpsim/core/json.hpp:8426-8615 | one call reads one value off the tokens that remain, or fails with the first error; it terminates because tokens are used up |
| JsonParser.Parser.ParseElements | pfpsim/core/json.hpp:8536-8562 | the do-while loop of an array, with its commas |
| JsonParser.Parser.ParseMembers | pfpsim/core/json.hpp:8458-8507 | the do-while loop of an object; a later member replaces an earlier one of its name |
| JsonParser.Parser.Parse | pfpsim/core/json.hpp:8413-8423 | a value and then the end of the input |
| JsonParser.ParseString | pfpsim/core/json.hpp:5639-5643 | parsing a string is parsing its token sequence |
| JsonDump.Dump | pfpsim/core/json.hpp:5930-6081 | the stream is extended by the printed value and nothing else |
| JsonDump.DumpMembers | pfpsim/core/json.hpp:5959-5969 | the loop over an object: separators between members only, each on its indentation |
| JsonDump.DumpItems | pfpsim/core/json.hpp:6001-6009 | the loop over an array, likewise |
| JsonDump.DumpClose | pfpsim/core/json.hpp:5971-5979 | the unsigned subtraction restores the indentation even if the addition before it wrapped around, so the closing bracket stands under the line that opened it |
| JsonDump.DumpString | pfpsim/core/json.hpp:2080-2094 | compact text for a negative indent, pretty text otherwise |
| JsonLayout.Layout | pfpsim/core/json.hpp:5930-6081 | the text of every value without floats, byte by byte outside quotes: pretty text breaks the line behind each comma and opening bracket and before each closing bracket of a part, indents every line by the indentation times its bracket depth modulo 2^32, and has one space behind a colon and no other blank; compact text has no blank; the brackets balance |
| JsonLayout.LeafTexts | pfpsim/core/json.hpp:5930-6081 | the texts of null, the booleans, strings and empty arrays and objects, byte by byte |
| JsonRoundTrip.RoundTrip | pfpsim/core/json.hpp:5930-6081 | for every value without floats, of any nesting, compact or pretty at any indent, parsing the dump succeeds and gives a value equal under `operator==` |
| JsonRoundTrip.LexPrinted | pfpsim/core/json.hpp:5930-6081 | a printed value is scanned as exactly the tokens of its derivation |
| JsonRoundTrip.ValueOfTree | pfpsim/core/json.hpp:8494 | inserting the members of a printed object in their order rebuilds the map |
| JsonRoundTrip.RereadIsEqual | pfpsim/core/json.hpp:5210-5289 | the value that comes back is equal although non-negative integers have become unsigned |
| JsonRoundTrip.RereadIdentity | pfpsim/core/json.hpp:8319-8325 | the value that comes back is the very value printed exactly when it holds no non-negative signed integer |
| JsonRoundTrip.PrintReread | pfpsim/core/json.hpp:5930-6081 | dumping the value that comes back prints the same text |
| JsonRoundTrip.EqualPrintAlike | pfpsim/core/json.hpp:5210-5289 | values that print alike are equal; when all unsigned numbers in both are at most 2^63-1, equal values print alike too, at every indent |
| JsonRoundTrip.EqualityShows | pfpsim/core/json.hpp:5278-5285 | all values equal to a given one print like it exactly when it holds, at any depth, no negative number and no unsigned number above 2^63-1 |
| JsonReparse.ParsedIsWellFormed | pfpsim/core/json.hpp:8426-8615 | every object in a parsed value is a map with distinct ascending keys, whatever the order of the names in the text |
| JsonReparse.DumpOfParsed | pfpsim/core/json.hpp:8413-8423 | dumping a parsed value without floats and parsing again gives an equal value, and repeating that changes nothing any more |
| ConfigOverlay.CompareStructure | pfpsim/core/ConfigurationParameters.cpp:184-242 | succeeds exactly when the instance conforms to the base, then with the merge; otherwise with the first mismatch |
| ConfigOverlay.CompareObjects | pfpsim/core/ConfigurationParameters.cpp:195-209 | the loop that overwrites the copy of the base key by key computes the merge member by member |
| ConfigOverlay.CompareArrays | pfpsim/core/ConfigurationParameters.cpp:210-219 | the loop over two arrays of one length |
| ConfigOverlay.MismatchMeaning | pfpsim/core/ConfigurationParameters.cpp:192-241 | the walk over the instance finds no mismatch exactly when its keys, lengths and primitive types fit the base at every depth |
| ConfigFaults.MismatchIsFirstFault | pfpsim/core/ConfigurationParameters.cpp:188-241 | the reason that ends the program is the fault at the first faulty place of the walk: a key that the base lacks, lengths that differ, an array against an object, a structured value against a primitive, primitives of two types |
| ConfigOverlay.MatchandFill | pfpsim/core/ConfigurationParameters.cpp:244-262 | the overlay of a node: a merge or the reason why the program ends; the error branch after it is never taken |
| ConfigOverlay.OverlayMeaning | pfpsim/core/ConfigurationParameters.cpp:184-242 | the result has the base's paths and shape everywhere, the instance's primitive on every instance path, and the base's value on every other path |
| ConfigOverlay.SignMakesType | pfpsim/core/ConfigurationParameters.cpp:224-236 | the instance -3 does not fit the base 5 |
| ConfigOverlay.MergeSelf | pfpsim/core/ConfigurationParameters.cpp:184-242 | a configuration conforms to itself and merging it with itself changes nothing |
| ConfigOverlay.OverlaysCompose | pfpsim/core/ConfigurationParameters.cpp:184-242 | merging two instances one after the other, or first with each other, both succeed and agree |
| ConfigOverlay.MergeTwice | pfpsim/core/ConfigurationParameters.cpp:184-242 | merging the same instance again is accepted and changes nothing |
| ConfigOverlay.ConformsTransitive | pfpsim/core/ConfigurationParameters.cpp:192-241 | conforming is transitive |
| Handshake.Safety | pfpsim/core/debugger/DebuggerIPCServer.cpp:395-451 | in every run that starts with Run, under any interleaving and spurious wakeups: the two flags are never both set, and the simulation never examines or changes the data manager while a handler does |
| Handshake.ExactlyOnce | pfpsim/core/debugger/DebuggerIPCServer.cpp:404-451 | the k-th accepted Run, Continue or Next is answered by the k-th stop message; the slot is fresh when read, the NULL branch is not reached, nothing is sent or freed twice |
| Handshake.ContinuesConsumed | pfpsim/core/debugger/DebugObserver.cpp:251-260 | every Continue or Next whose handler has set the flag is consumed by exactly one pause, and every stop is paused for once: none is swallowed or used twice |
| Handshake.Progress | pfpsim/core/debugger/DebugObserver.cpp:251-269 | unless the server awaits a request, some thread can step without a spurious wakeup: no wakeup is lost |
| Handshake.StepsBounded | pfpsim/core/debugger/DebugObserver.cpp:251-269 | the threads take at most 28 steps for a request, 2 for a spurious wakeup, and 13 more: no livelock |
| Handshake.Answerable | pfpsim/core/debugger/DebuggerIPCServer.cpp:395-451 | from every reachable state the threads alone lead back to an idle server with every request answered |
| Handshake.MaximalRun | pfpsim/core/debugger/DebuggerIPCServer.cpp:395-451 | every run in which no thread can step any more, short of a new request or a spurious wakeup, has left the server idle with every request to resume answered |
| Handshake.StuckForever | pfpsim/core/debugger/DebuggerIPCServer.cpp:229-239 | the server blocks forever, unanswering, exactly when a Continue or Next was accepted before any Run |
| Handshake.ContinueFirst | pfpsim/core/debugger/DebuggerIPCServer.cpp:229-239 | the least run that does so: a single Continue |
| Handshake.RunKeeps | pfpsim/core/debugger/DebuggerIPCServer.cpp:189-209 | the invariant (mutex ownership, pending wakeups, whose turn it is, numbered messages) holds along every run |
| HandshakeThreads.Debugger.WaitForRunCommand | pfpsim/core/debugger/DebuggerIPCServer.cpp:83-85 | returns only when a Run has been accepted, before any Continue or Next, and is unfinished only while the start gate is held |
| HandshakeThreads.Debugger.NotifyServer | pfpsim/core/debugger/DebugObserver.cpp:262-269 | the whole function, under any interleaving: raises the flag exactly once and makes no message, or is blocked at the mutex |
| HandshakeThreads.Debugger.Pause | pfpsim/core/debugger/DebugObserver.cpp:251-260 | the wait loop with its lock, under any interleaving and spurious wakeups: a completed pause has consumed exactly one Continue; an unfinished one has consumed none and cannot take a step |
| HandshakeThreads.Debugger.StopSimulation | pfpsim/core/debugger/DebugObserver.cpp:321-340 | one stop makes one message and consumes one Continue, and when it is over that message and all before it have been sent; an unfinished one is blocked |
| HandshakeThreads.Debugger.Destructor | pfpsim/core/debugger/DebugObserver.cpp:53-59 | the loop reports the end once and then once more for every Continue, and ends up blocked; a simulation that is not debugged, and so has not waited for a Run, reports nothing |
| HandshakeThreads.Debugger.WaitForStop | pfpsim/core/debugger/DebuggerIPCServer.cpp:395-402 | the wait loop with its lock: a completed wait has taken exactly one stop; an unfinished one has taken none and cannot take a step |
| HandshakeThreads.Debugger.SendReply | pfpsim/core/debugger/DebuggerIPCServer.cpp:416-424 | the slot holds the next message and is not NULL; that message is sent once and freed once |
| HandshakeThreads.Debugger.HandleRun | pfpsim/core/debugger/DebuggerIPCServer.cpp:404-425 | opens the start gate and, when it completes, has taken one stop and sent the next message; otherwise it is blocked |
| HandshakeThreads.Debugger.HandleContinue | pfpsim/core/debugger/DebuggerIPCServer.cpp:427-451 | when it completes, it has granted one Continue, that one has been consumed, and the next message has been sent; otherwise it is blocked |
| HandshakeThreads.Debugger.ParseRequest | pfpsim/core/debugger/DebuggerIPCServer.cpp:189-239 | only the first Run and every Continue and Next are answered with a stop message; a handler that has not finished is blocked |
| HandshakeThreads.Debugger.RequestThread | pfpsim/core/debugger/DebuggerIPCServer.cpp:383-393 | after any list of requests that it gets through, every request to resume has been answered; otherwise a handler is blocked |
| HandshakeThreads.Debugger.ServerRuns | pfpsim/core/debugger/DebuggerIPCServer.cpp:189-209 | the server takes exactly the possible steps of the schedule; what the simulation thread may rely on meanwhile: its locks, its messages and a Continue that it has seen |
| HandshakeThreads.Debugger.SimulationRuns | pfpsim/core/debugger/DebugObserver.cpp:251-269 | the simulation takes exactly the possible steps of the schedule; what the server thread may rely on meanwhile |
| HandshakeThreads.OthersRun | pfpsim/core/debugger/DebuggerIPCServer.cpp:383-393 | a slot of possible steps of the other thread is taken exactly as it stands, so a schedule can be any interleaving |
| Backtrace.DebuggerPacket.UpdateTraceReadTime | pfpsim/core/debugger/DebuggerPacket.cpp:44-49 | a read opens an entry |
| Backtrace.DebuggerPacket.UpdateTraceWriteTime | pfpsim/core/debugger/DebuggerPacket.cpp:51-62 | the backward search completes the last open entry of the module, or appends a lone write |
| Backtrace.PartnerIsMatch | pfpsim/core/debugger/DebuggerPacket.cpp:51-57 | a write closes a read exactly when the two are matching brackets in the module's history |
| Backtrace.TraceIsMatching | pfpsim/core/debugger/DebuggerPacket.cpp:44-62 | the trace has one entry for each read, with the time of the write that closes it, and one for each lone write, in order |
| Backtrace.CloserIsMatch | pfpsim/core/debugger/DebuggerPacket.cpp:51-57 | the write time of an entry is that of the one write that matches its read |
| Backtrace.CreatorMeaning | pfpsim/core/debugger/DebuggerPacket.cpp:58-61 | the lone writes are exactly those that match no read |
| Backtrace.TimesConserved | pfpsim/core/debugger/DebuggerPacket.cpp:44-62 | every read and every write puts exactly one time into the trace |
| Backtrace.ReadBeforeWritten | pfpsim/core/debugger/DebuggerPacket.cpp:44-62 | when time does not run backwards, completed entries have read_time <= write_time |
| Traces.LatencyMeaning | pfpsim/core/debugger/DebugDataManager.cpp:208-219 | a latency waits for a write of a packet at a module exactly when an earlier read of the packet meets a trace registered before it that ends there |
| Traces.LatenciesInOrder | pfpsim/core/debugger/DebugDataManager.cpp:208-219 | pending latencies stand in the order of their reads and then of the registrations, each with a read of its own, so that none is there twice |
| Traces.LatenciesComplete | pfpsim/core/debugger/DebugDataManager.cpp:208-219 | every read that starts a latency has it in the list as its own |
| Traces.LatenciesConserved | pfpsim/core/debugger/DebugDataManager.cpp:186-252 | for every packet and module, updates emitted plus latencies pending equal latencies created |
| Traces.PendingStep | pfpsim/core/debugger/DebugDataManager.cpp:203-252 | what each event does to the pending latencies of any packet at any module |
| Traces.ThroughputTelescopes | pfpsim/core/debugger/DebugDataManager.cpp:254-268 | one update fewer than writes, each the rate between neighbours, and their reciprocals add up to the time from first to last write |
| TraceMeaning.ThroughputRates | pfpsim/core/debugger/DebugDataManager.cpp:254-268 | when no write time is negative, every two neighbouring writes are reported with a rate that times their distance is 10^9, and with an infinite one when they are simultaneous |
| TraceMeaning.WriteTimesMeaning | pfpsim/core/debugger/DebugDataManager.cpp:254-268 | those writes are all the writes at the module since its throughput trace was added, in order |
| TraceMeaning.LatencyValue | pfpsim/core/debugger/DebugDataManager.cpp:230-240 | each latency reported is the time of the write minus the time of the one read it comes from, since the packet's write there before |
| TraceMeaning.CounterMeaning | pfpsim/core/debugger/DebugDataManager.cpp:49-57 | a counter is there when it was added and not removed since |
| TraceMeaning.CounterTraceMeaning | pfpsim/core/debugger/DebugDataManager.cpp:59-79 | a counter is traced from the first request on that finds it, under the identifier of that request |
| TraceMeaning.RegisteredMeaning | pfpsim/core/debugger/DebugDataManager.cpp:81-90 | the identifiers of the latency traces between two modules are those of the requests for them |
| TraceMeaning.ThroughputMeaning | pfpsim/core/debugger/DebugDataManager.cpp:92-100 | the throughput trace of a module is the one added last |
| Traces.TracesDistinct | pfpsim/core/debugger/DebugDataManager.cpp:59-100 | no identifier is shared by two traces, across counters, latencies and throughputs |
| Traces.RegisteredIncreases | pfpsim/core/debugger/DebugDataManager.cpp:81-90 | identifiers of repeated latency traces are distinct, in the order of registration |
| DataManager.DebugDataManager.UpdatePacket | pfpsim/core/debugger/DebugDataManager.cpp:186-272 | all indexes follow the history, and the updates returned are exactly those the history calls for |
| DataManager.DebugDataManager.StartLatencies | pfpsim/core/debugger/DebugDataManager.cpp:208-219 | the loop pushes every trigger of the module, in order, to the module where it ends |
| DataManager.DebugDataManager.FinishLatencies | pfpsim/core/debugger/DebugDataManager.cpp:230-252 | the loop reports every pending latency once and erases them |
| DataManager.DebugDataManager.UpdateThroughput | pfpsim/core/debugger/DebugDataManager.cpp:256-268 | the last write time and the rate reported |
| DataManager.DebugDataManager.VisitPacket | pfpsim/core/debugger/DebugDataManager.cpp:193-206 | the packet is created on demand; its information, its place, its time and its trace are updated and no other packet changes |
| DataManager.DebugDataManager.AddCounterTrace | pfpsim/core/debugger/DebugDataManager.cpp:59-79 | -1 without such a counter, -2 when it is traced already, otherwise a new identifier |
| DataManager.DebugDataManager.AddLatencyTrace | pfpsim/core/debugger/DebugDataManager.cpp:81-90 | registers the trace under a new identifier |
| DataManager.DebugDataManager.AddThroughputTrace | pfpsim/core/debugger/DebugDataManager.cpp:92-100 | the new trace takes the place of an older one of the module |
| DataManager.DebugDataManager.RemovePacket | pfpsim/core/debugger/DebugDataManager.cpp:274-277 | the packet is forgotten; latencies that its reads have started are not |
| DataManager.EndingOfStarting | pfpsim/core/debugger/DebugDataManager.cpp:208-218 | the triggers kept by first module are the traces registered between two modules, in order |
| TraceMeaning.VisitsMeaning | pfpsim/core/debugger/DebugDataManager.cpp:186-206 | the visits in the trace of a packet are all its reads and writes since it was removed last, in order |
| TraceMeaning.LastSeenMeaning | pfpsim/core/debugger/DebugDataManager.cpp:199-206 | the place and time of a packet are those of its last read, or of its first write when it was never read |
| Breakpoints.IsEqual | pfpsim/core/debugger/Breakpoint.cpp:49-60 | every condition is one of the other breakpoint's: containment, not equality |
| Breakpoints.AddedMeaning | pfpsim/core/debugger/DebugDataManager.cpp:138-147 | after adding, an event is matched exactly when it was before or the new breakpoint matches it, also when the breakpoint is discarded; no listed breakpoint is contained in a later one |
| Breakpoints.AddedStops | pfpsim/core/debugger/DebugDataManager.cpp:138-147 | adding a breakpoint makes exactly those events stop that it matches, enabled, and that no listed breakpoint matches, enabled or not |
| Breakpoints.NextSwallowed | pfpsim/core/debugger/DebuggerIPCServer.cpp:534-543 | the breakpoint of a Next is discarded behind a disabled one for the packet, and no event of the packet stops |
| Breakpoints.BreakpointTable.AddBreakpoint | pfpsim/core/debugger/DebugDataManager.cpp:138-147 | the loop discards exactly the breakpoints that contain a listed one |
| Breakpoints.BreakpointTable.RemoveBreakpoint | pfpsim/core/debugger/DebugDataManager.cpp:149-158 | removes the first breakpoint with the identifier and keeps the list irredundant |
| Breakpoints.BreakpointTable.Switch | pfpsim/core/debugger/DebugDataManager.cpp:160-182 | enables or disables the first breakpoint with the identifier |
| Breakpoints.EditedMeaning | pfpsim/core/debugger/DebugDataManager.cpp:149-182 | removing, enabling and disabling touch the first breakpoint with the identifier only, and keep all others in their order |
| Breakpoints.EditedNothing | pfpsim/core/debugger/DebugDataManager.cpp:149-182 | they change nothing when no breakpoint has the identifier |
| Breakpoints.BreakpointTable.NewBreakpoint | pfpsim/core/debugger/Breakpoint.cpp:41-47 | an identifier that no listed breakpoint has, or -1 for a stealth breakpoint |
| Breakpoints.BreakpointTable.AddCondition | pfpsim/core/debugger/Breakpoint.cpp:62-66 | a condition that is there keeps its value |
| Breakpoints.AllHold | pfpsim/core/debugger/DebugObserver.cpp:290-312 | the inner loop decides whether all conditions hold |
| Breakpoints.BreakpointTable.FindHit | pfpsim/core/debugger/DebugObserver.cpp:281-319 | the first breakpoint that matches, or none if there is none |
| Breakpoints.BreakpointTable.CheckBreakpointHit | pfpsim/core/debugger/DebugObserver.cpp:321-340 | stops exactly when the first match is enabled, with which message and which breakpoints removed |
| Breakpoints.LoneStops | pfpsim/core/debugger/DebugObserver.cpp:290-321 | a breakpoint alone stops exactly the events that meet all its conditions: reads at its module, writes at its module, events of its packet, events at its time or later; and none when it is disabled |
| Breakpoints.StopsFromThenOn | pfpsim/core/debugger/DebugObserver.cpp:306-309 | a breakpoint in time stops the event at its time and every later one, and none before |
| Breakpoints.EnabledStops | pfpsim/core/debugger/DebugObserver.cpp:321 | an event with an enabled match stops the simulation exactly when every disabled match has an enabled one before it |
| Breakpoints.DisabledHides | pfpsim/core/debugger/DebugObserver.cpp:313-321 | an enabled breakpoint that matches and yet does not stop |
| LMTQueue.QueueIsCorrect | pfpsim/core/LMTQueue.h:62-131 | over all interleavings of any number of processes: `slots_` is the length and at most N, items leave in order, waiting for an item implies empty, waiting for room implies full |
| LMTQueue.StepMeaning | pfpsim/core/LMTQueue.h:62-104 | a call, and a process that resumes from its wait, test alike: they go through when there is room or an item, with the front item or behind the last one, and wait (again) otherwise; others are at most woken |
| LMTQueue.NeverBoth | pfpsim/core/LMTQueue.h:62-119 | some run blocks a producer and a consumer at once if and only if N is 0 |
| LMTQueue.Queue.Push | pfpsim/core/LMTQueue.h:95-104 | one slice of `push`, from a test of `full` to a wait or to the end |
| LMTQueue.Queue.Pop | pfpsim/core/LMTQueue.h:62-73 | one slice of `pop`, and the item it returns |
| LMTQueue.Queue.Full | pfpsim/core/LMTQueue.h:125-127 | the counter decides whether the queue is full |
| LMTQueue.Queue.Available | pfpsim/core/LMTQueue.h:121-123 | the free positions |
| ByteLiterals.RawBytes | pfpsim/core/cp/grammar.y:306-317 | the eight bytes spell the number, most significant byte first |
| ByteLiterals.ShrinkBytes | pfpsim/core/cp/grammar.y:276-285 | the overlapping forward copy and the cut keep exactly the last bytes, whose value is that of all bytes modulo 256 to the width |
| ByteLiterals.DecimalLiteral | pfpsim/core/cp/grammar.y:266-287 | for every 64-bit number and width up to eight, the literal has that width and the value modulo 256 to the width |
| ByteLiterals.DecimalLiteralUnique | pfpsim/core/cp/grammar.y:266-287 | no other bytes of that width have the value, and a number that fits is unchanged |
| ByteLiterals.ReversedMemory | pfpsim/core/cp/grammar.y:309-314 | reversing the memory of a little-endian number gives its big-endian form |
| ByteLiterals.MostSignificantFirst | pfpsim/core/cp/grammar.y:309-314 | in that form the first byte counts units that are greater than all bytes behind it together can spell |

## Left out

- Floats in JSON: a float keeps the text of its token, so its value, its printing with 15 digits and its comparison are not modelled; order, equality and printing are stated for values without floats, and the C locale's point is assumed.
- JsonDump.Dump: requires values without floats, whose 15 digits are not modelled.
- JsonDump.DumpItems: requires elements without floats, likewise.
- JsonDump.DumpMembers: requires members without floats, likewise.
- JsonDump.DumpString: requires values without floats, likewise.
- JsonNumberTokens.NumberTokenValue: gives the text of a float, not its double.
- JsonLexer.Lexer.GetNumber: gives the text of a float, not its double.
- Discarded values, parser callbacks, stream-backed lexing, iterators, allocators and memory management of `basic_json`.
- `std::runtime_error`-like texts of the exceptions: only the exception class of a failed parse is modelled.
- ConfigOverlay.CompareStructure: does not model that for two floats of equal value but different text the base's object is kept rather than the instance's; the double is the same up to the sign of zero. The texts written to the error stream are not modelled.
- Parameter lookup in parent nodes and reading of configuration files.
- Sockets, protobuf messages, timeouts and thread creation and shutdown of the debugger; each message is an opaque value.
- Replies to requests other than Run, Continue and Next: StartTracing falls through to the failure reply, and some handlers send twice.
- Handshake.Safety: does not model the phase in which modules are constructed before the simulation waits for Run; requests handled then are outside the protocol.
- Handshake.SimNext: an event that stops the simulation is a choice of the environment; which events do is the subject of Breakpoints.
- Breakpoints.BreakpointTable.CheckBreakpointHit: does not model the read of the hit breakpoint after the list has shifted; its identifier and flag are taken before anything is removed.
- Breakpoints.AllHold: does not model that `stof` throws on text that is no number; conversions are total functions given from outside.
- `updateSimulationTime`, a running maximum, watchpoints, dropped packets, ignored modules, counter values and the wrap-around of identifiers after 2^31 of them.
- Traces.ThroughputTelescopes: states the sum for increasing times only, because the rate of simultaneous writes is infinite.
- TraceMeaning.ThroughputRates: states nothing about negative times, because -1 marks a missing time in the code.
- Backtrace.TraceIsMatching: is stated for non-negative times, because -1.0 marks a missing time in the code.
- LMTQueue.QueueIsCorrect: does not model the kernel's choice of the next process beyond allowing every choice; `notify` is immediate, and the mutex is never contended because no slice waits while it holds it.
- The growing branch of byte literals, whose copy and fill ranges overlap and run past the end; hexadecimal and address literals; the rest of the command grammar.
- `to_binary_string`, hexadecimal formatting, `MTQueue`, `PFPObject`, the control-plane tables, argument parsing and logging would add only easy members, input/output or user interface.
