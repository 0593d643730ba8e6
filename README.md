# A verified model of the TEXT TCP 1.0 calculator client

The client (`clientmain.cpp`) is given a `<host:port>` argument and connects to a
server. It then runs one fixed exchange. It receives a greeting and checks that the
greeting contains `"TEXT TCP 1.0"`. It answers `"OK\n"` and receives one arithmetic
instruction such as `"add 7 3"`. It computes the result and sends it back as a line.
Last, it receives and prints the server's closing message.

This project models that exchange in Dafny and proves properties of the model. It
has five modules, one per piece of the client's logic, plus a small `Wrappers`
module for `Option` and `Result`:

- `CLib` (`clib.dfy`) gives the C library behaviour the client relies on, over
  `seq<char>`:
  - the NUL-terminated view of a buffer (`CString`);
  - `strstr` (`Contains`) and `strrchr` (`LastIndexOf`);
  - `isspace`, and the `%s` word of `sscanf` (`FirstWord`);
  - `atoi`: optional white space, an optional sign, then the longest run of digits;
  - the `%d` conversion (`Decimal`).
- `HostPort` (`hostport.dfy`) handles `parseHostPort`. The method works on an array
  copy of the argument, as the C code does: `strdup`, `strrchr`, then a NUL written
  over the last colon. It is proved equal to the pure split `SplitHostPort`.
- `Framer` (`framer.dfy`) covers `receiveMessage`:
  - the channel is a queue of `Segment`s, each one either the bytes one `recv`
    returns or a transport error;
  - an empty queue means the peer has closed;
  - `Classify` sorts the byte count into TransportError, PeerClosed, Oversized or
    Accepted;
  - `Filled` is the 2000-byte buffer after `memset` and `recv`.
- `Evaluator` (`evaluator.dfy`) is the pure core of `computeAndSendResult`:
  - it takes the operation word;
  - it truncates the operands toward zero (`(int)` cast);
  - it dispatches `add`/`sub`/`mul`/`div` on 32-bit `int`, with C's
    round-toward-zero division;
  - it picks the float family by the word's first letter alone;
  - it formats the integer reply with `"%d\n"`.
- `Protocol` (`protocol.dfy`) has two parts:
  - `Exchange` is the reference function for `main`'s sequence (lines 72-87).
    It runs in three phases: `Exchange` awaits the greeting, `AwaitInstruction`
    the instruction and `AwaitClosing` the closing message.
  - The `Session` class runs that sequence imperatively. It has one reused
    `response_buffer` array, the inbound queue, the log of sent lines and a receive
    counter. `Session.Run` is proved to produce exactly the trace `Exchange`
    describes.

Where the C code's behaviour is undefined, the model returns an explicit error
(`EvalError`) and the session ends without sending anything:
- `%s` matched nothing;
- the operation word overflows `operation[10]`;
- `%lf` did not assign both operands;
- a cast out of `int` range;
- signed overflow;
- division by zero.

Some behaviour of the code that is easy to misread:
- the greeting must contain `"TEXT TCP 1.0"`, not just `"TCP 1.0"`;
- a greeting without the marker still makes `main` return EXIT_SUCCESS;
- a zero-byte receive exits with EXIT_SUCCESS at every step, even in the middle of
  the exchange;
- every receive is capped at 100 bytes;
- the float format is `"%8.8g\n"`, which pads to width 8. So an unrecognised word
  starting with `f` is answered with `"       0\n"`, when both operands are scanned and truncate into `int` range; otherwise the casts at clientmain.cpp:162-163 are undefined behaviour (`CastOverflow`). Such a word
  still goes through the `int` casts.

## Model

| member | source | states |
|---|---|---|
| CLib.CString | clientmain.cpp:73-78 | the C string in a buffer is its prefix before the first NUL: it holds no NUL, and the character after it, if any, is NUL |
| CLib.ReadCString | clientmain.cpp:101-102 | reading a C string out of an array from an index yields exactly the C string of that suffix |
| CLib.ContainsIff | clientmain.cpp:75 | `strstr` finds the needle if and only if it occurs at some index of the haystack |
| CLib.LastIndexOf | clientmain.cpp:93 | `strrchr` gives nothing exactly when the character is absent; otherwise it gives an index holding it, with no later occurrence |
| CLib.SkipSpace | clientmain.cpp:102 | what `atoi` skips is white space, and what remains does not start with white space |
| CLib.DigitRun | clientmain.cpp:102 | the digits `atoi` reads are the longest all-digit prefix |
| CLib.Word | clientmain.cpp:151 | the `%s` word is the longest prefix without white space |
| CLib.FirstWordOf | clientmain.cpp:151 | a word at the start of the text, followed by white space or by nothing, is the word `%s` stores |
| CLib.Digits | clientmain.cpp:180 | `%d` writes at least one digit, only digits, and no leading zero |
| CLib.DigitValueOfDigits | clientmain.cpp:180 | the digits `%d` writes for `n` denote `n` |
| CLib.DigitsLength | clientmain.cpp:176-180 | a number below 10^k has at most k digits |
| CLib.AtoiOfDecimal | clientmain.cpp:102 | `atoi` reads back the value `%d` wrote, whatever non-digit text follows |
| CLib.DecimalInjective | clientmain.cpp:180 | `%d` writes different texts for different values |
| CLib.IsSpace | clientmain.cpp:102 | the C-locale `isspace` that `atoi` (line 102) and `%s` (line 151) skip: space, tab, newline, vertical tab, form feed and carriage return; SkipSpace and Word state how it is used |
| CLib.IsDigit | clientmain.cpp:102 | `atoi`'s digit test, `'0'` to `'9'`; DigitRun states how it is used |
| CLib.DigitValue | clientmain.cpp:102 | the value `atoi` accumulates from the digits, most significant first; DigitValueOfDigits states that it inverts Digits |
| CLib.Contains | clientmain.cpp:75 | `strstr(hay, needle) != NULL`, tried at each start in turn; its meaning is stated by ContainsIff |
| CLib.FirstWord | clientmain.cpp:151 | the word `%s` stores: white space skipped, then the longest run without white space (SkipSpace, Word); FirstWordOf states which word it is |
| CLib.Atoi | clientmain.cpp:102 | `atoi`: white space, an optional sign, then the digit run; AtoiOfDecimal states that it reads back what `%d` writes |
| CLib.Decimal | clientmain.cpp:180 | `%d`: a minus sign for a negative value then Digits; AtoiOfDecimal and DecimalInjective state its meaning |
| HostPort.SplitHostPort | clientmain.cpp:91-103 | no colon gives no endpoint; otherwise the host is the text before the last colon, no colon follows it, and the port is `atoi` of the rest |
| HostPort.Strdup | clientmain.cpp:92 | the copy is a fresh array holding the argument and a terminating NUL |
| HostPort.Strrchr | clientmain.cpp:93 | the scan finds the last occurrence in the array's C string |
| HostPort.ParseHostPort | clientmain.cpp:91-104 | the in-place method (copy, find the last colon, overwrite it with NUL, read host and port back) gives exactly the split |
| HostPort.CStringOfCopy | clientmain.cpp:92 | the copy holds the argument as its C string |
| HostPort.CutAtColon | clientmain.cpp:100-102 | after the colon is overwritten, the copy holds the host at index 0 and the port text after the colon |
| HostPort.SplitKeepsEarlierColons | clientmain.cpp:93-102 | for any host, even one that contains colons, splitting `host:port` gives back the host and the port |
| HostPort.SplitIPv6Example | clientmain.cpp:93-102 | `"::1:8080"` splits into host `"::1"` and port 8080 |
| HostPort.SplitNoColonExample | clientmain.cpp:93-98 | `"localhost"` is refused |
| Framer.RecvCount | clientmain.cpp:109 | `recv` returns -1 on a transport error, 0 once the peer has closed, and otherwise the segment's length capped at the 2000-byte buffer |
| Framer.Payload | clientmain.cpp:109 | the bytes `recv` writes are the first `count` bytes of the segment |
| Framer.Filled | clientmain.cpp:108-109 | after `memset` and `recv`, the buffer holds the received bytes and is NUL everywhere after them |
| Framer.Classify | clientmain.cpp:111-129 | the classification is total and exclusive: negative is a transport error, zero is peer closed, over 100 is oversized, 1 to 100 is accepted |
| Framer.Rest | clientmain.cpp:109 | the channel after one `recv`: the segment it read is consumed; Session.ReceiveMessage states that it is the new inbound queue |
| Framer.Outcome | clientmain.cpp:109-129 | the classification of the next receive's count; Classify and RecvCount state its cases |
| Framer.Text | clientmain.cpp:108-129 | the C string the buffer holds after a receive; AcceptedMessage states that it is the segment up to its first NUL |
| Framer.AcceptedMessage | clientmain.cpp:108-129 | an accepted message is a whole segment of 1 to 100 bytes, and the text then read is that segment up to its first NUL |
| Evaluator.CDiv | clientmain.cpp:172 | C's `int` division; CDivRoundsTowardZero states that it rounds toward zero |
| Evaluator.Trunc | clientmain.cpp:162-163 | the `(int)` cast drops the fraction toward zero: never further from zero than the operand, and less than 1 away |
| Evaluator.CDivRoundsTowardZero | clientmain.cpp:172 | C's `/` leaves a remainder smaller than the divisor and with the dividend's sign, and its magnitude is the magnitudes' quotient |
| Evaluator.FloatOpNamed | clientmain.cpp:153-160 | only words starting with `f` name a float operation |
| Evaluator.IsIntOp | clientmain.cpp:165-171 | the four words the `strcmp` chain of the integer branch recognises; IntArith and IntegerOperations state what each computes |
| Evaluator.Checked | clientmain.cpp:166-172 | a result outside the `int` range, whose computation is signed-overflow undefined behaviour in C, is the error ArithmeticOverflow; IntArith and DivErrors state it |
| Evaluator.IntArith | clientmain.cpp:165-173 | results stay in `int` range; a zero divisor is an error exactly for `div`; an unknown word gives 0 |
| Evaluator.Compute | clientmain.cpp:151-181 | a result is in the integer family exactly when the word does not start with `f`; integer results are in `int` range; errors are only cast overflow, arithmetic overflow or division by zero; a float operation gives its operation on the untruncated operands; every other word gives CastOverflow exactly when an operand truncates outside `int` range |
| Evaluator.Respond | clientmain.cpp:146-151 | no word and a word longer than 9 characters are exactly the two operation errors; a reply needs both operands to have been scanned; RespondIntegerFamily, RespondFloatOperation, RespondUnknownFloatWord and RespondNeedsOperands give the reply of every other instruction, including the CastOverflow error for operands outside `int` range |
| Evaluator.RespondIntegerFamily | clientmain.cpp:151-183 | for any instruction whose accepted word does not start with `f` and whose operands are scanned: the reply is the `"%d\n"` text of Compute's integer result, which `atoi` reads back as that result, and an undefined result is Compute's error |
| Evaluator.RespondFloatOperation | clientmain.cpp:151-160 | for any instruction whose accepted word names a float operation and whose operands are scanned: the reply is the float text of that operation on the scanned operands, untruncated |
| Evaluator.RespondUnknownFloatWord | clientmain.cpp:151-178 | for any instruction whose accepted word starts with `f` but names no float operation and whose operands are scanned: the reply is the text of 0.0 when both operands truncate into `int` range; otherwise the casts at clientmain.cpp:162-163 are undefined behaviour (`CastOverflow`) |
| Evaluator.UnknownFloatWordCastExample | clientmain.cpp:161-163 | `foo` with the operand 1e10 is a cast overflow, although `foo` starts with `f` |
| Evaluator.RespondNeedsOperands | clientmain.cpp:151 | an accepted word whose operands are not both scanned gives no reply but the error OperandsMissing |
| Evaluator.IntegerOperations | clientmain.cpp:161-172 | `add`, `sub`, `mul`, `div` compute `+`, `-`, `*` and C division on the truncated operands, when both operands are scanned and truncate into `int` range; otherwise the casts at clientmain.cpp:162-163 are undefined behaviour (`CastOverflow`); an overflow or a zero divisor is an error |
| Evaluator.UnknownOperationRepliesZero | clientmain.cpp:165-180 | a word that is no operation and does not start with `f` leaves the result 0 and replies `"0\n"`, when both operands are scanned and truncate into `int` range; otherwise the casts at clientmain.cpp:162-163 are undefined behaviour (`CastOverflow`) |
| Evaluator.UnknownFloatOperationRepliesZero | clientmain.cpp:161-178 | an unknown word starting with `f` still selects the float family and replies with 0.0, when both operands are scanned and truncate into `int` range; otherwise the casts at clientmain.cpp:162-163 are undefined behaviour (`CastOverflow`) |
| Evaluator.FormatInt | clientmain.cpp:180 | the `"%d\n"` reply; FormatIntRoundTrip and FormatIntFits state its meaning and size |
| Evaluator.Reply | clientmain.cpp:176-181 | the reply line of a value: `"%d\n"` for the integer family, the float text via `Externals.formatFloat`, `"       0\n"` for a float-family 0.0; UnknownOperationRepliesZero, AddExample and MulExample state instances |
| Evaluator.FormatIntRoundTrip | clientmain.cpp:180 | the `%d\n` reply ends in a newline, and `atoi` reads it back as the value |
| Evaluator.FormatIntFits | clientmain.cpp:176-180 | every `int` reply takes at most 12 characters, well within the 50-byte response buffer |
| Evaluator.AddExample | clientmain.cpp:162-166 | `add 7.9 3.2` gives 10 and replies `"10\n"` |
| Evaluator.MulExample | clientmain.cpp:195-196 | `mul 7 3` gives 21 and replies `"21\n"` |
| Evaluator.DivExample | clientmain.cpp:172 | `div -7 2` gives -3, rounded toward zero |
| Evaluator.DivErrors | clientmain.cpp:171-172 | division by zero and `INT_MIN / -1` are errors |
| Evaluator.MulWord | clientmain.cpp:151 | the operation word of `"mul 7 3"` is `"mul"` |
| Evaluator.RespondMulExample | clientmain.cpp:195-196 | the instruction `"mul 7 3"` is answered `"21\n"` |
| Protocol.Session.constructor | clientmain.cpp:72 | a session starts with a fresh 2000-byte buffer, nothing sent and no receive made |
| Protocol.Session.ReceiveMessage | clientmain.cpp:107-130 | the buffer becomes the zero-filled received segment, one segment is consumed, and the outcome is the classification of the count |
| Protocol.Session.SendMessage | clientmain.cpp:133-143 | the line is appended to the sent log |
| Protocol.Session.ComputeAndSendResult | clientmain.cpp:146-184 | the instruction in the buffer is answered by sending its reply; on undefined behaviour nothing is sent |
| Protocol.Session.Run | clientmain.cpp:72-87 | the sent log, the receive count and the ending are exactly those of the reference exchange on the initial channel |
| Protocol.Session.InstructionPhase | clientmain.cpp:77-78 | the instruction phase matches the reference phase |
| Protocol.Session.ClosingPhase | clientmain.cpp:79-81 | the closing phase matches the reference phase |
| Protocol.Exchange | clientmain.cpp:72-87 | the reference exchange, greeting phase first; Session.Run is proved equal to it, and ExchangeIsBounded, GreetingMismatch, GreetingMatch, SendsFollowGreeting and ReceiveFailureStops state its properties |
| Protocol.AwaitInstruction | clientmain.cpp:76-78 | the instruction phase: receive, then reply or stop; InstructionFailureStops and GreetingMatch state its outcomes |
| Protocol.AwaitClosing | clientmain.cpp:79-81 | the closing phase: receive the closing message, then finish with "Test OK"; GreetingMatch states its outcome |
| Protocol.ExitCode | clientmain.cpp:87 | the process status of an ending: success on return from `main` (line 87) and on a closed peer (line 118), failure on other receive exits (lines 114, 128), and failure for an `Undefined` ending, a choice of the model since C fixes no status under undefined behaviour; GreetingMismatch, ReceiveFailureStops and PeerClosedBeforeInstruction state it |
| Protocol.ExchangeIsBounded | clientmain.cpp:72-87 | at most three receives and two sends, and the first line sent is `"OK\n"` |
| Protocol.GreetingMismatch | clientmain.cpp:82-87 | a greeting without the marker: nothing is sent, one receive, and exit status success |
| Protocol.GreetingMatch | clientmain.cpp:73-81 | a matching greeting and a valid instruction: exactly `"OK\n"` then the reply are sent, in that order, and exactly three receives are made |
| Protocol.SendsFollowGreeting | clientmain.cpp:75-78 | anything sent follows an accepted greeting with the marker, and the second line is the reply to the instruction |
| Protocol.ReceiveFailureStops | clientmain.cpp:111-129 | a failed first receive ends the session with nothing sent; the exit is a success exactly when the peer closed |
| Protocol.PeerClosedBeforeInstruction | clientmain.cpp:115-118 | the peer closing before the instruction ends the session after `"OK\n"`, with exit status success |
| Protocol.InstructionFailureStops | clientmain.cpp:77-78 | after an accepted greeting, an instruction receive that is not accepted (transport error, peer closed, oversized, empty) or an instruction with undefined behaviour ends the session with only `"OK\n"` sent and two receives made; the ending is that receive's exit or the undefined behaviour |
| Protocol.MarkerExamples | clientmain.cpp:75 | `"TEXT TCP 1.0\n"` passes the greeting check and `"TCP 1.0\n"` fails it |
| Protocol.ReceivedText | clientmain.cpp:108-129 | a NUL-free segment of 1 to 100 bytes is accepted and read whole |
| Protocol.ThreeSegments | clientmain.cpp:73-79 | three such segments are the greeting, the instruction and the closing message, each accepted |
| Protocol.MulExchange | clientmain.cpp:72-81 | with a valid greeting, the instruction `"mul 7 3"` and a closing message, `"OK\n"` then `"21\n"` are sent and `main` finishes with "Test OK" |
| Protocol.ExchangeExample | clientmain.cpp:72-81 | the same result on the concrete channel ["TEXT TCP 1.0\n", "mul 7 3", "BYE\n"] |

## Left out

- Sockets are not modelled: `getaddrinfo`, `socket`, `connect` and `close` (clientmain.cpp:35-66, 86). The channel is an inbound queue and a sent log.
- The argument count check (clientmain.cpp:23-26) is command-line plumbing and is not modelled.
- `snprintf` of the port into the 6-byte `port_str` (clientmain.cpp:40-41) is not modelled. It belongs to address resolution and cuts longer port texts to 5 characters.
- All `printf`, `fprintf` and `perror` diagnostics are left out, including the display of the closing message (clientmain.cpp:80). The debug print at clientmain.cpp:122 runs before the size check of line 125 and is also left out, although it reads a buffer without a NUL when 2000 bytes arrive.
- Protocol.Session.SendMessage: a failed `send` (clientmain.cpp:134-138) is not modelled; every send succeeds, because send errors come from the operating system. A short `send` that writes only part of the line goes unnoticed by the code too, since line 134 checks only for a negative result; the model sends every line whole.
- Framer.RecvCount: one `recv` call reads one segment of the queue. A segment longer than the buffer is dropped whole after its first 2000 bytes. The process exits as oversized in that case anyway.
- Evaluator.Compute: the float family (clientmain.cpp:153-160) is kept symbolic. `FloatValue(op, x, y)` records which operation was chosen and on which operands. The IEEE result and its `"%8.8g\n"` text come from `Externals.formatFloat`, because floating-point rounding and `printf` are not modelled. The one exact case is 0.0, the reply to an unrecognised word starting with `f`, when both operands are scanned and truncate into `int` range; otherwise the casts at clientmain.cpp:162-163 are undefined behaviour (`CastOverflow`).
- Evaluator.Respond: `sscanf`'s `%lf` conversion of the operands is a parameter (`Externals.scanOperands`). It yields exact reals, so double rounding of long decimal inputs is not modelled. Nor are the non-finite values `%lf` accepts (`inf`, `nan`, and overflowing texts such as `1e999`): reals cannot hold them, and `(int)` of them at clientmain.cpp:162-163 is undefined behaviour, which `CastOverflow` would stand for.
- CLib.Atoi: `atoi` is modelled with unbounded integers. C leaves `atoi` of out-of-range text undefined.
- Undefined behaviour is replaced by explicit errors that end the session without a send, with a failure exit status (`Undefined` endings in `Protocol.ExitCode`). A compiled program may instead go on, for example sending a wrapped sum and returning EXIT_SUCCESS at clientmain.cpp:87. This covers:
  - an empty operation word or an uninitialised operand;
  - overflow of `operation[10]`;
  - `(int)` of an out-of-range double;
  - signed overflow;
  - division by zero.
- `testComputeAndSendResult` (clientmain.cpp:187-200) asserts nothing. Its inputs appear only as the example lemmas.
- `calcLib.h` is not part of this model.
