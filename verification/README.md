# Verified models of the vGSM and vISDN channel drivers

This project models the parts of the two Asterisk channel drivers in which protocol state, bit layout or list
order carry the correctness of everything above them, and proves what those parts are for.

| part | modules |
|---|---|
| the AT-command engine: echo matching, response lines, unsolicited codes, SMS prompt, recovery, retransmission | `Session` (the engine as a function of its state), `SessionInvariants`, `SessionProgress`, `SessionResults`, `SessionSilence`, `SessionChunking`, `SessionPrompt`, `SessionTurns`, `SessionNotices`, `SessionExchange`, `CommEngine` (the object with its buffer); `Memory`, `SessionMemory`, `SessionEndless`, `SessionResidue`, `SessionReads` (the buffer as memory) |
| short messages: septet packing, the default alphabet, semi-octet addresses, the submit and deliver PDUs | `Bits`, `GsmCharset`, `SevenBit`, `SevenBitBuffers`, `PackingValue`, `Hex`, `Bcd`, `UserData`, `Validity`, `SmsSubmit`, `SmsDeliver` |
| the timer set, whose callbacks re-enter it while it runs | `Timers`, `TimerSet` |
| hunt groups and the chain of hunts after failed calls | `Hunting`, `HuntGroup` |
| base64, the SIM answer to reset with its hold-back buffer, the jitter buffer's moving average | `Base64`, `SimAtr`, `LocalSim`, `Jitter` |

Code that updates state in place is a class or a method on arrays (`CommEngine.Comm`, `SmsSubmit.Submit`,
`TimerSet.Set`, `HuntGroup.HuntGroup`, `LocalSim.Sim`, `Jitter.Channel`, the loops over buffers); each such method is
proved equal to a function, and the theorems are about those functions over every input, every run and every
interleaving. `Text` holds the C string functions that several parts use.

`dafny verify dfyconfig.toml` checks the project.

## How to read the engine

Every step of every thread is an `Event`; `Happens` says that a sequence of events can occur and `Run` is where it
leads. All theorems of `SessionInvariants` are about an arbitrary such sequence from a freshly opened session, so
about every interleaving of submitters, main loop, serial line, timer, completion thread and URC thread. A request
is known by its number in submission order. The clock is abstracted: an armed timer may expire at any moment.

Some promises do not hold without a condition, and each is proved with the exact one:

- how the serial line cuts the bytes matters only for a NUL, which hides what follows it in the same read, and for a
  prompt that is not preceded by CR LF, for which four characters are dropped all the same (`ChunkingExact`; a run
  that gets to such a prompt is `ShortPromptReached`);
- a text of exactly the allowed number of septets is accepted only if an escaped character comes last
  (`EncodeExact`; `FullTextRefused` names texts of any such length that are refused), and a text comes back only if
  it has no escaped character (`TextRoundTrip`; `EuroIsLost` names one);
- packing stays inside the buffer of a submit PDU for every text if and only if the destination has at most 22 digits
  (`TextsFitExactly`; `LongDestinationOverruns` names a text for every longer one);
- the validity period that a submit PDU asks for is the right one, the longest that is no longer than the one wanted, if
  and only if that is from five minutes to twelve hours or more than 63 weeks (`PeriodExact`). Otherwise the message is
  kept longer (`PeriodTooLong`), or, from sixty weeks on, for minutes (`PeriodRunsOver`);
- the time zone of a delivered PDU is read as section 9.2.3.11 of 3GPP TS 23.040 has it for GMT only (`ZoneExact`): the
  code takes the sign from the eighth bit, where the standard has it in the fourth, and the other way round;
- a response line is read if and only if its CR LF is not in front of the third character (`LineScannedExactly`);
- a request that is not completed yet can still complete if and only if its session is neither closing nor closed
  (`CompletableExactly`; `StrandedRequest` is a run that strands one). While it is live, ten steps of the main loop
  are enough, even if the modem never answers (`LiveCompletes`); what they complete has failed (`LiveFails`).

### The buffer as memory

`Session` has the receive buffer as a string. In the code it is memory, in which what earlier reads left behind the NUL
is still there, and two steps of the receive loop can see it: a prompt drops four characters even where there are only
two or three, and the search for the end of a response line starts at the third character even where there is only one.
`SessionMemory` has the loop on that memory, with every read(), memmove() and line ended in place:

- a turn of the loop is the one that `Session` has if and only if it is neither of these with something to see there
  (`TurnExact`);
- a modem that puts CR LF in front of its response lines and prompts never gets there, however its bytes are cut and
  whatever the buffer held: the loop ends after every read, and in the end as after one read of it all
  (`ReadsIndependence`), with the request answered (`CommandAnsweredInMemory`, `MessageAnsweredInMemory`);
- otherwise the loop may not end at all. It ends if and only if it never comes to a prompt in two or three characters,
  for a request without a PDU, with another such prompt behind it (`EndsExactly`). The echo of any command of three or
  four characters with a bare prompt behind it in the same read gets there (`EndlessReached`), and from there on the
  loop writes Escape for ever (`StuckForever`);
- and a cut that the string does not show may show in memory (`ResidueShows`).

The runs of `Event`s take a read and its receive loop as one step, so they are the runs in which that loop ends.

## Model

| member | source | states |
|---|---|---|
| SessionInvariants.NothingLostOrReordered | chan_vgsm/comm.c:1062-1127 | after any interleaving, the completed requests, the one in hand and the queue are the submission order; callbacks have run once each in that order; `ready` is set exactly on completed requests |
| SessionInvariants.ReferencesExact | chan_vgsm/comm.c:90-132 | a request's count is the number of its owners, the engine holds it in exactly one place until its callback has run, and it is freed exactly when callback and submitter are done |
| SessionInvariants.UrcReferencesExact | chan_vgsm/comm.c:752-930 | an unsolicited code has at most one owner, which its count equals; codes are handled once, in arrival order |
| SessionInvariants.RetransmissionBounded | chan_vgsm/comm.c:1154-1240 | writes and remaining tries of the command in hand add up to four, so at most three writes, and six timer expiries end its request |
| SessionInvariants.OwnershipAlways | chan_vgsm/comm.c:236-265 | in every reachable state the current request, the current code and the timer are set exactly as the state says, the command in hand fits its buffer and the code in hand is of a multi-line class, so no assertion and no unexpected timeout is reachable |
| SessionInvariants.NextKeeps | chan_vgsm/comm.c:1407-1452 | one step of any thread keeps the ledger of requests, references, retries and codes |
| SessionInvariants.FailedServesAll | chan_vgsm/comm.c:1426-1429 | in the failed state one pass of the loop completes everything submitted so far |
| SessionInvariants.CloseStrands | chan_vgsm/comm.c:1455-1495 | once closing, no request completes in any continuation: what was in hand or queued stays so (`SessionProgress.CompletableExactly` has both directions) |
| SessionProgress.CompletableExactly | chan_vgsm/comm.c:1407-1495 | a request not completed yet can complete in some continuation if and only if the session is neither closing nor closed |
| SessionProgress.CompletableInRun | chan_vgsm/comm.c:1407-1495 | the same after every run of an opened session |
| SessionProgress.LiveCompletes | chan_vgsm/comm.c:1154-1252 | from any live state at most ten steps of the main loop, with nothing read, complete everything submitted so far |
| SessionProgress.StrandedRequest | chan_vgsm/comm.c:1455-1457 | a run after which a queued request does not complete in any continuation |
| SessionResults.ResultsExact | chan_vgsm/comm.c:697-724 | after every run, the result of a completed request is the code of its last line if that is a result code, and else 102, failed, with no such line among its lines; a line that is one is the last and completes its request |
| SessionResults.NextSettles | chan_vgsm/comm.c:1062-1252 | what every step of every thread keeps for that: the results, and text, PDU and timeout of every request |
| SessionResults.RequestsAreSubmissions | chan_vgsm/comm.c:451-508 | after every run the requests are the submissions of less than 80 characters, in order, each still with its command and CR, its PDU as the hexadecimal text that parses to it, and its timeout and a tenth of a second |
| SessionResults.ResultCodes | chan_vgsm/comm.c:606-621 | the code of each result word |
| SessionResults.ErrorCodes | chan_vgsm/comm.c:622-625 | a printed error number gives itself and 1000 or 2000 |
| SessionResults.OtherLines | chan_vgsm/comm.c:606-628 | a line that is no such word and has no such head is not a result code |
| SessionSilence.LiveFails | chan_vgsm/comm.c:1106-1207 | the silent steps of `LiveCompletes` complete everything as failed, and change no line and no other result |
| SessionSilence.FlushFails | chan_vgsm/comm.c:1106-1127 | flushing completes what is queued, in order, as failed, and changes nothing else |
| SessionSilence.UnansweredRequest | chan_vgsm/comm.c:1154-1207 | a command that nobody answers is written three times, each time with the recovery sequence behind it, and its request and the session have failed |
| SessionSilence.CodeLost | chan_vgsm/comm.c:1207-1239 | without a command in hand a silent modem costs the code that was coming in and nothing else |
| SessionSilence.TimersAlways | chan_vgsm/comm.c:752-1252 | after every run the timer is set for the interval that belongs to the state |
| SessionSilence.CloseFinishes | chan_vgsm/comm.c:1462-1492 | a closing session runs the callbacks that are left, handles the codes that are left, and is closed |
| SessionInvariants.TimerFiredKeeps | chan_vgsm/comm.c:1154-1252 | losing synchronization, retransmitting and giving up keep the ledger |
| SessionInvariants.EndLineKeeps | chan_vgsm/comm.c:697-724 | a response line, final or not, keeps the ledger |
| SessionChunking.ChunkingExact | chan_vgsm/comm.c:932-1060 | a cut after the bytes a is invisible for every continuation exactly when a contains no NUL and the loop, fed a, never faces a prompt in fewer than the four characters it drops |
| SessionChunking.NulSplits | chan_vgsm/comm.c:932-956 | if a contains a NUL, some continuation shows the cut |
| SessionChunking.ChunkingIndependence | chan_vgsm/comm.c:932-1060 | with framed prompts, and no NUL before the last chunk, reading a stream in any chunks gives the state, leftover, lines, codes, completions and writes of reading it at once |
| SessionChunking.ShortPromptSplits | chan_vgsm/comm.c:649-684 | with an unframed prompt the cut shows: one more byte is lost or kept depending on it |
| SessionPrompt.ShortPromptReached | chan_vgsm/comm.c:649-684 | a run of an opened session that gets to such a prompt, and the two reads that differ from one there |
| SessionChunking.MatchExtends | chan_vgsm/comm.c:974-1048 | a matcher that consumes something does the same with more bytes behind it |
| SessionChunking.OtherStatesSplit | chan_vgsm/comm.c:974-986 | in the states that discard or ignore input, one read or two is the same, and failed and recovering sessions are unchanged by it |
| SessionExchange.CommandAnswered | chan_vgsm/comm.c:630-930 | any notices (unsolicited codes of one line or several, however they start, unknown lines, junk), echo, any framed information lines and a final code, in any chunks, complete the request in hand with exactly those information lines and that code, leaving the engine idle and each known code queued once with all its lines, in order |
| SessionExchange.MessageAnswered | chan_vgsm/comm.c:649-684 | the same through the SMS prompt: the PDU and Ctrl-Z are written once each at the right moments and their echoes consumed |
| SessionExchange.LineScannedExactly | chan_vgsm/comm.c:635-695 | with a CR, a LF, both or neither in front of it, a response line is read exactly if its CR LF is not in front of the third character |
| SessionExchange.PromptRefused | chan_vgsm/comm.c:649-666 | a prompt for a request without a PDU is answered with Escape, and the response is read on |
| SessionExchange.OnlyTheEcho | chan_vgsm/comm.c:1012-1031 | the echo of a PDU, or of Ctrl-Z, is waited for whatever else comes |
| SessionNotices.IdleHears | chan_vgsm/comm.c:752-930 | to an idle session, in any chunks: notices of known classes are queued once each, with all their lines and in the order in which they came, and the session is idle again and otherwise as it was |
| SessionNotices.AwaitingHears | chan_vgsm/comm.c:752-930 | the same while an echo is awaited, which goes on with its timer started again if there was a known one |
| SessionNotices.NoticesHeardInMemory | chan_vgsm/comm.c:932-1060 | and of the buffer as memory, whatever is behind its NUL |
| SessionNotices.NoticePasses | chan_vgsm/comm.c:754-881 | one notice, whatever follows it: after CR LF, after two of them, or at once with '+' or '^' |
| SessionNotices.CodePasses | chan_vgsm/comm.c:883-930 | the lines of a code of several lines are collected in order until it is whole for the first time, and it is queued then |
| SessionNotices.JunkPasses | chan_vgsm/comm.c:757-800 | characters that start no line are dropped |
| SessionExchange.CommandAnsweredInMemory | chan_vgsm/comm.c:932-1060 | the same exchange on the buffer as memory, whatever is behind its NUL: the loop ends after every read and the request is answered |
| SessionExchange.MessageAnsweredInMemory | chan_vgsm/comm.c:932-1060 | likewise for a message |
| SessionMemory.TurnExact | chan_vgsm/comm.c:630-1057 | a turn of the loop in memory is the turn on the string if and only if no short prompt has a character behind its fifth place and no lone character a line end behind the NUL |
| SessionMemory.QuietDrains | chan_vgsm/comm.c:932-1060 | if that is so in every turn, the loop ends as on the string |
| SessionMemory.EndsOnce | chan_vgsm/comm.c:962-1057 | the loop in memory ends in at most one way |
| SessionMemory.FindLineEnd | chan_vgsm/comm.c:686-688 | the search from the third character on finds the first CR LF before the next NUL, which may be behind the first |
| Memory.ReadBehind | chan_vgsm/comm.c:934-947 | read() puts the bytes and a terminator behind the string and touches nothing else |
| Memory.MoveFront | chan_vgsm/comm.c:1053-1055 | the memmove() brings the string at n to the front and touches nothing behind its terminator |
| Memory.StoredIs | chan_vgsm/comm.c:934-947 | the string is then the old one with what was read, up to a NUL |
| SessionReads.ReadsIndependence | chan_vgsm/comm.c:932-1060 | however an orderly stream is cut into reads, and whatever is behind the NUL, the loop ends after every read, and in the end as after one read |
| SessionEndless.EndsExactly | chan_vgsm/comm.c:649-666 | the receive loop ends if and only if it never comes to a short prompt, for a request without a PDU, in front of another one |
| SessionEndless.StuckForever | chan_vgsm/comm.c:649-666 | from there on every turn writes Escape and leaves such a buffer again |
| SessionEndless.EndlessReached | chan_vgsm/comm.c:932-1060 | a run and one read, for any command of three or four characters, after which the receive loop never ends |
| SessionResidue.ResidueShows | chan_vgsm/comm.c:686-695 | a read and its two halves that give different responses, because of what the echo left behind the NUL |
| SessionChunking.MatchEchoExtends | chan_vgsm/comm.c:729-750 | an echo found, or ruled out, stays so when more bytes arrive |
| Session.Drain | chan_vgsm/comm.c:932-1060 | the receive loop terminates, never grows the buffer and keeps ownership |
| Session.Run | chan_vgsm/comm.c:1407-1495 | every reachable state satisfies the ownership invariant that the C assertions rely on |
| Session.ClassOf | chan_vgsm/comm.c:823-835 | the first class whose code starts the line, none if there is none |
| CommEngine.Comm.constructor | chan_vgsm/comm.c:54-84 | a fresh session is the initial state of the model |
| CommEngine.Comm.Step | chan_vgsm/comm.c:1407-1495 | every step on the object is the model's step, and keeps the ledger |
| CommEngine.Comm.ReceiveBytes | chan_vgsm/comm.c:932-1060 | append, match until nothing is consumed, drop: the buffer in place holds what the model holds |
| CommEngine.Comm.Append | chan_vgsm/comm.c:934-947 | read() behind the terminator leaves the old characters and the new ones up to a NUL |
| CommEngine.Comm.DropFront | chan_vgsm/comm.c:1050-1057 | the memmove() keeps exactly the characters behind the dropped ones |
| CommEngine.Comm.CompareEcho | chan_vgsm/comm.c:729-750 | the character loop decides whether the text is echoed, still may be, or is not |
| CommEngine.Comm.FindLineEnd | chan_vgsm/comm.c:686-692 | strstr() for CR LF finds the first one |
| CommEngine.Comm.ScanForResponse | chan_vgsm/comm.c:635-692 | prompt, line or not enough, as the model reads the buffer |
| CommEngine.Comm.MatchResponseLine | chan_vgsm/comm.c:630-727 | lines are collected, a final code completes the request, a prompt sends PDU or Escape |
| CommEngine.Comm.TakeLine | chan_vgsm/comm.c:697-724 | a line goes to the request in hand; a final code completes it and idles the engine |
| CommEngine.Comm.CompleteRequest | chan_vgsm/comm.c:705-724 | ready, error and the hand-over of the reference to the completion queue |
| CommEngine.Comm.MatchCommandEcho | chan_vgsm/comm.c:992-1005 | a full echo starts the response, an impossible one is tried as an unsolicited code |
| CommEngine.Comm.MatchPduEcho | chan_vgsm/comm.c:1012-1031 | the echo of the PDU is answered by Ctrl-Z |
| CommEngine.Comm.MatchUrcLine | chan_vgsm/comm.c:752-881 | junk is skipped a character at a time, unknown lines whole, known ones become codes (what comes of them is `SessionNotices.IdleHears`) |
| CommEngine.Comm.ScanForUrc | chan_vgsm/comm.c:754-813 | where an unsolicited line begins and ends, if it is there |
| CommEngine.Comm.MatchUrcMore | chan_vgsm/comm.c:883-930 | further lines of a code in hand, up to the one that ends it |
| CommEngine.Comm.MakeRequest | chan_vgsm/comm.c:451-508 | a command that fits is queued with two references, three tries and its PDU in hexadecimal |
| CommEngine.Comm.ProcessNextRequest | chan_vgsm/comm.c:1081-1104 | the head of the queue becomes current and is written, with the echo timer armed |
| CommEngine.Comm.FlushRequests | chan_vgsm/comm.c:1106-1127 | everything queued completes as failed, in order |
| CommEngine.Comm.FireTimer | chan_vgsm/comm.c:1154-1252 | outside recovery the code in hand and the input are dropped and recovery starts; in recovery the command is written again or fails with the session |
| CommEngine.Comm.RetryOrGiveUp | chan_vgsm/comm.c:1158-1207 | one try less, then either another write or failure of the request and the session (with which result is `SessionResults.ResultsExact`) |
| CommEngine.Comm.RunCompletion | chan_vgsm/comm.c:1544-1589 | the oldest completion's callback runs and its reference is put |
| CommEngine.Comm.HandleUrc | chan_vgsm/comm.c:1497-1542 | the oldest code is handled and its reference put |
| SevenBit.OctetsToSeptets | chan_vgsm/7bit.c:25-28 | the least number of septets that covers the octets |
| SevenBit.SeptetsToOctets | chan_vgsm/7bit.c:30-33 | the least number of octets that covers the septets |
| SevenBit.PutSeptetBits | chan_vgsm/7bit.c:66-77 | writing septet k sets its bits at 7k to 7k + 6 and touches no other bit |
| SevenBit.PackBits | chan_vgsm/7bit.c:79-113 | the bit stream after packing is the old one with the septets' bits added at the offset |
| SevenBit.UnpackPack | chan_vgsm/7bit.c:35-64 | unpacking undoes packing at every offset over clear bits |
| SevenBit.UnpackPrefix | chan_vgsm/7bit.c:41-50 | unpacking reads only the octets that the septets need |
| SevenBit.PackElsewhere | chan_vgsm/7bit.c:66-77 | octets before and behind the septets are unchanged |
| SevenBit.EncodeExact | chan_vgsm/7bit.c:85-112 | when a text is accepted, what is then written, and that no more than the maximum ever is |
| SevenBit.TextRoundTrip | chan_vgsm/7bit.c:35-113 | a text in the default alphabet comes back exactly when it has no escaped character |
| SevenBit.EscapedComesBackAsTwo | chan_vgsm/7bit.c:50 | an escaped character is decoded as two characters |
| SevenBit.EuroIsLost | chan_vgsm/7bit.c:50 | the euro sign, a character of the table, is decoded as two characters |
| SevenBit.FullTextRefused | chan_vgsm/7bit.c:103-104 | a text of exactly `max` basic characters is refused, for every `max` |
| SevenBit.FullTextWritten | chan_vgsm/7bit.c:91-109 | its septets have all been written by then |
| SevenBit.SeptetsRoundTrip | chan_vgsm/7bit.c:35-113 | the text decoded from septets without the escape encodes to those septets |
| PackingValue.PackValue | chan_vgsm/7bit.c:66-113 | on a buffer that is zero from septet o on, packing adds the base-128 value of the septets times 128^o to the base-256 value of the buffer |
| SevenBitBuffers.WriteSeptet | chan_vgsm/7bit.c:66-77 | the two or-assignments are the write of one septet |
| SevenBitBuffers.WideTo7bit | chan_vgsm/7bit.c:79-113 | the encoding loop packs exactly the septets of the accepted prefix and returns their number or -ENOSPC |
| SevenBitBuffers.SevenBitToWide | chan_vgsm/7bit.c:35-64 | the decoding loop fills the output with the decoded septets and its terminator, reading only what they need |
| GsmCharset.Table | chan_vgsm/gsm_charset.c:24-167 | the entries' codes are the septets in ascending order, the escaped ones in their place behind the escape |
| GsmCharset.TableOneToOne | chan_vgsm/gsm_charset.c:24-167 | no wide character is in the table twice |
| GsmCharset.SeptetIsOwnCode | chan_vgsm/gsm_charset.c:169-197 | every septet but the escape is the code of the character that it decodes to |
| GsmCharset.EuroIsEscaped | chan_vgsm/gsm_charset.c:24-167 | the euro sign has two septets |
| GsmCharset.BasicRoundTrip | chan_vgsm/gsm_charset.c:169-197 | a character with one septet is decoded from it |
| GsmCharset.SeptetsInRange | chan_vgsm/gsm_charset.c:180-197 | codes are septets, at most two per character |
| GsmCharset.GsmToWide | chan_vgsm/gsm_charset.c:169-178 | the search returns the first entry's character, or the substitute |
| GsmCharset.WideToGsm | chan_vgsm/gsm_charset.c:180-197 | the search returns the septets of a character, none if it has none |
| Hex.HexRoundTrip | chan_vgsm/comm.c:479-489 | printed octets are read back |
| Hex.HexValueExact | chan_vgsm/util.c:100-128 | the digits of either case have their values, and nothing else is a digit |
| Hex.HexDigitIs | chan_vgsm/comm.c:479-489 | digits are printed in lower case |
| Hex.UpperParses | chan_vgsm/sms_deliver.c:101-118 | octets printed in upper case are read as in lower case |
| Hex.PrintHex | chan_vgsm/comm.c:479-489 | the sprintf() loop prints every octet as two digits |
| Hex.ReadHex | chan_vgsm/sms_deliver.c:101-118 | an odd number of characters is refused, an even one parsed pair by pair |
| Bcd.AddressRoundTrip | chan_vgsm/bcd.c:44-132 | an address comes back, with the exact number of nibbles and with the rounded-up one, exactly when it has no 'd', whose nibble is the filler |
| Bcd.AddressReads | chan_vgsm/bcd.c:44-88 | what any number of nibbles reads back: that many digits, without 'd' |
| Bcd.NibbleExact | chan_vgsm/bcd.c:90-132 | digits and nibbles are each other's as section 9.1.2.3 of 3GPP TS 23.040 numbers them |
| Bcd.OctetOfDigits | chan_vgsm/bcd.c:72-88 | each octet has a digit in its low nibble and the next one, or the filler, in its high nibble |
| Bcd.TextToBcd | chan_vgsm/bcd.c:72-88 | the loop writes the semi-octets and nothing else |
| Bcd.BcdToText | chan_vgsm/bcd.c:44-70 | the loop gives the digits without fillers, or refuses when they do not fit |
| UserData.DataBits | chan_vgsm/sms_submit.c:225-290 | bit by bit, user data is the header and then the text from the next septet boundary |
| UserData.HeaderKept | chan_vgsm/sms_submit.c:234-282 | packing the text leaves the header's octets alone |
| UserData.TextKept | chan_vgsm/sms_submit.c:279-290 | the septets behind any header are read back |
| UserData.DataRoundTrip | chan_vgsm/sms_deliver.c:216-306 | reference, total and sequence numbers and the text come back from laid-out user data, whatever follows it |
| UserData.ElementsRead | chan_vgsm/sms_deliver.c:229-262 | a header of any information elements: the others are skipped by their lengths, and the last concatenation of at least three octets is what is read |
| SmsSubmit.RoomExact | chan_vgsm/sms_submit.c:125-135 | every octet touched, the one past the last septet included, is inside the buffer for any number of septets exactly when the destination has at most 22 digits |
| SmsSubmit.TextsFitExactly | chan_vgsm/sms_submit.c:125-135 | it is so for every text exactly when the destination has at most 22 digits |
| SmsSubmit.LongDestinationOverruns | chan_vgsm/sms_submit.c:279-287 | with more digits, a message full of commercial ats is packed past the buffer |
| SmsSubmit.ShortDestinationFits | chan_vgsm/sms_submit.c:125-135 | with at most 22 digits no text is |
| SmsSubmit.PackInside | chan_vgsm/sms_submit.c:279-290 | packing inside the PDU leaves everything before the user data unchanged and makes the user data |
| SmsSubmit.Submit.Prepare | chan_vgsm/sms_submit.c:98-310 | the PDU is complete with its lengths agreeing (pdu_len is pdu_tp_len plus the SMSC part), or the text did not fit, or it is left to UCS-2, or packing it leaves the buffer, and exactly when |
| SmsSubmit.Submit.PickAlphabet | chan_vgsm/sms_submit.c:105-120 | the default alphabet is picked exactly when every character is in it |
| SmsSubmit.Submit.PutData | chan_vgsm/sms_submit.c:225-296 | length octet, header and packed text behind what is already written |
| SmsSubmit.Submit.PutText | chan_vgsm/sms_submit.c:279-287 | the text behind the header, with the header and all before it kept |
| SmsSubmit.Submit.PutFront | chan_vgsm/sms_submit.c:137-223 | SMSC address, flags, reference, destination and the fixed fields, with zeros left behind |
| SmsSubmit.FirstOctetFields | chan_vgsm/sms_submit.c:160-170 | the first octet, taken apart, has the message type and each flag in its place |
| SmsSubmit.TypeOfAddressFields | chan_vgsm/sms_submit.c:144-149 | the type of address, taken apart, has its extension bit, type of number and plan |
| SmsSubmit.PduOctets | chan_vgsm/sms_submit.c:137-260 | octet by octet: the SMSC address behind its length, flags, reference, destination behind the number of its digits, fixed fields, length of the user data, and the header of a part of a longer message |
| Validity.PeriodExact | chan_vgsm/sms_submit.c:211-223 | the octet for the validity period is the right one exactly from five minutes to twelve hours, and for more than 63 weeks |
| Validity.PeriodTooLong | chan_vgsm/sms_submit.c:211-223 | elsewhere below sixty weeks it stands for longer than was asked for, by how much in each range |
| Validity.PeriodRunsOver | chan_vgsm/sms_submit.c:220-221 | from sixty weeks to 63 it stands for minutes |
| SmsDeliver.SubmitReadBack | chan_vgsm/sms_submit.c:125-296 | both addresses, the flags, the reference, the fixed fields and the user data can be read back from a submitted PDU |
| SmsDeliver.PduReadBack | chan_vgsm/sms_deliver.c:120-306 | both addresses with their types, the concatenation fields and the septets are read back from a delivered PDU; what flags, time, zone and coding say is `SmsDeliver.ServiceReadBack` |
| SmsDeliver.ServiceReadBack | chan_vgsm/sms_deliver.c:120-306 | for a time of twelve digits YYMMDDhhmmss, sent as semi-octets, mktime() is given that year and 100, that month less one, and that day, hour, minute and second; the zone comes back with its sign, each flag from its bit, and class or refusal from the coding |
| SmsDeliver.CodingOf | chan_vgsm/sms.h:178-260 | every octet is the coding of some fields |
| SmsDeliver.CodingRead | chan_vgsm/sms_deliver.c:270-392 | which of them have a text in the default alphabet, of which class, and which are refused |
| SmsDeliver.SubmitCoding | chan_vgsm/sms_submit.c:200-209 | the coding of a submitted message says the default alphabet and its class |
| SmsDeliver.ZoneExact | chan_vgsm/sms_deliver.c:208-214 | the zone is what section 9.2.3.11 of 3GPP TS 23.040 has for GMT and for no other zone octet |
| SmsDeliver.OriginatorExact | chan_vgsm/sms_deliver.c:160-178 | the originator is read as it was written if it has at most 31 digits, and else refused |
| SmsDeliver.ServiceCentreExact | chan_vgsm/sms_deliver.c:124-153 | and so is the address of the service centre |
| SmsDeliver.MessageRoundTrip | chan_vgsm/sms_deliver.c:94-306 | a submitted message, delivered with any flags, coding, time and zone, printed and parsed, comes back with its reference, total and sequence numbers and what the service centre said, field by field, and with its own text exactly when that has no escaped character |
| SmsDeliver.InitFromPdu | chan_vgsm/sms_deliver.c:94-409 | the walk through the buffer gives what the fields of the PDU say, with each refusal where the code makes it; what lies past the end of the PDU is reported only when the code gets there |
| SmsDeliver.ReadFields | chan_vgsm/sms_deliver.c:120-409 | the same walk, once the octets are there |
| SmsDeliver.ReadElements | chan_vgsm/sms_deliver.c:229-262 | the loop over the information elements finds the last concatenation element |
| SmsDeliver.ReadAddress | chan_vgsm/sms_deliver.c:145-178 | an address is taken from its nibbles if it fits its field, and refused if the digits inside the PDU already do not |
| Timers.InsertIsStable | chan_vgsm/timer.c:64-92 | a timer goes behind all that expire no later and before all that expire later |
| Timers.ApplyValid | chan_vgsm/timer.c:107-154 | starting and stopping keep the list sorted and without duplicates, and change what is pending only as asked |
| Timers.ApplyTimes | chan_vgsm/timer.c:107-154 | a timer that is started is then pending for the time it was started for, one that is stopped is not pending, and every other timer is pending for the time it was pending for before |
| Timers.StartedLast | chan_vgsm/timer.c:64-138 | a started timer stands behind all others that expire no later; one started for its own time stays where it is |
| Timers.RunFiresInTurn | chan_vgsm/timer.c:164-189 | a run makes FIRED calls for the timers that had expired, earliest first, each unless an earlier one's function stopped or restarted it, and leaves none expired |
| Timers.RunTellsFirings | chan_vgsm/timer.c:164-189 | the FIRED calls of a run are those made before and then its firings, in order |
| Timers.FiresUnlessSilenced | chan_vgsm/timer.c:164-189 | timer by timer: it fires if and only if no function that ran before it names it |
| Timers.RoundShrinks | chan_vgsm/timer.c:168-187 | each callback leaves fewer expired timers, if functions only start timers for `now` or later |
| Timers.ImpatientRunStays | chan_vgsm/timer.c:168-187 | without that condition the list need not change, so the run need not end |
| Timers.HistoryBalanced | chan_vgsm/me.c:4450-4470 | over any history a timer's calls alternate, and its function holds one reference exactly while it is pending |
| Timers.TimersAlternate | chan_vgsm/timer.c:107-189 | the same from a new timer set |
| TimerSet.Set.Add | chan_vgsm/timer.c:64-92 | the linked list with the tail shortcut is the stable insertion |
| TimerSet.Set.StartAt | chan_vgsm/timer.c:107-138 | start and restart, with the calls made and the answer: TRUE exactly when a pending timer was moved to another time; the timer is then pending for the new time and all other timers are as they were |
| TimerSet.Set.StopIt | chan_vgsm/timer.c:140-154 | stop, likewise |
| TimerSet.Set.RunTimers | chan_vgsm/timer.c:164-189 | the loop with its restarts is the run of the model, and ends |
| TimerSet.Set.Next | chan_vgsm/timer.c:191-204 | -1 exactly when nothing is pending, else the least time left of all pending timers |
| Hunting.HuntCorrect | chan_visdn/huntgroup.c:418-509 | a hunt succeeds exactly when some member is free, with the first one in cyclic order |
| Hunting.ScanFindsFirst | chan_visdn/huntgroup.c:463-503 | with a first interface, the same among the members before it |
| Hunting.HuntRotates | chan_visdn/huntgroup.c:450-456 | a cyclic hunt takes the first free member and moves it behind the others |
| Hunting.HuntsAreFair | chan_visdn/huntgroup.c:450-456 | any as many consecutive cyclic hunts as there are free members return each of them exactly once |
| Hunting.OneHuntMore | chan_visdn/huntgroup.c:450-456 | one more cyclic hunt starts behind the member that was found last, so that the hunts of `CyclicHunts` can be made one by one |
| Hunting.HuntAdvances | chan_visdn/huntgroup.c:443-503 | a hunt on from one interface finds one strictly further round, passing over no free member |
| Hunting.TriedAdvance | chan_visdn/chan_visdn.c:3232-3261 | whatever becomes free or busy, the interfaces tried advance strictly and never come back to the first: at most one attempt per member |
| Hunting.TriedIsAllFree | chan_visdn/chan_visdn.c:3232-3261 | with a constant set of free members, all of them are tried, in cyclic order |
| HuntGroup.HuntGroup.FindMember | chan_visdn/huntgroup.c:385-396 | the first member of that name in any case, none if there is none |
| HuntGroup.HuntGroup.HuntInterface | chan_visdn/huntgroup.c:418-509 | the do-while walk is the hunt of the model, and the current member moves exactly on success |
| HuntGroup.HuntGroup.FoundAfresh | chan_visdn/huntgroup.c:430-461 | a fresh hunt starts behind the current member in cyclic mode if there is one, and else at the first member |
| HuntGroup.HuntGroup.HuntSequential | chan_visdn/huntgroup.c:418-509 | in sequential mode every fresh hunt returns the first member that is available, whatever was returned before |
| HuntGroup.HuntGroup.HuntCyclic | chan_visdn/huntgroup.c:418-509 | in cyclic mode fresh hunts one after the other are those of `CyclicHunts`, which `Hunting.HuntsAreFair` is about |
| HuntGroup.Interface.HasChannel | chan_visdn/huntgroup.c:475-495 | whether some channel is available |
| HuntGroup.GroupCall.Begin | chan_visdn/chan_visdn.c:1462-1472 | a call gets a first interface exactly when some member is available |
| HuntGroup.GroupCall.NextOrHangup | chan_visdn/chan_visdn.c:3217-3268 | after a failure a further interface is tried exactly when there is a cause, one of the seven of the source, and a member further round is available |
| HuntGroup.GroupCall.AttemptsBounded | chan_visdn/chan_visdn.c:3232-3261 | a call makes at most as many attempts as the group has members, all different |
| Base64.RoundTrip | chan_vgsm/base64.c:45-140 | encoded octets come back with the zeros that padding decodes to, other characters in between ignored and a NUL ending the string, exactly when the destination has 3 * ceil(n / 3) + 2 octets |
| Base64.QuadNumber | chan_vgsm/base64.c:115-121 | four values in base 64 are the number that the three octets are in base 256 |
| Base64.EncodedLength | chan_vgsm/base64.c:104-105 | four characters for every three octets begun |
| Base64.CodeIs | chan_vgsm/base64.c:91-92 | the codes are capitals, small letters, figures, '+' and '/', in this order |
| Base64.ValueExact | chan_vgsm/base64.c:26-43 | a character is skipped exactly if it is neither one of them nor '='; the others have the values that the codes are for, and '=' has 0 |
| Base64.NoiseIsSkipped | chan_vgsm/base64.c:57-58 | characters outside the alphabet do not change what is decoded |
| Base64.Decode | chan_vgsm/base64.c:45-78 | the loop writes the decoded octets that the destination allows and a terminator |
| Base64.Encode | chan_vgsm/base64.c:94-140 | the encoded string and its length, or -ENOSPC with the size it takes |
| SimAtr.CompleteExactly | chan_vgsm/mesim_local.c:843-921 | the bytes received are found complete exactly when a whole answer to reset, by its grammar, stands at their start |
| SimAtr.CompleteAtLastByte | chan_vgsm/mesim_local.c:843-921 | they are found so with its last byte and not before |
| SimAtr.CompleteIsMonotone | chan_vgsm/mesim_local.c:843-921 | and remain so with more bytes |
| SimAtr.OctetOfFields | chan_vgsm/atr.h:17-53 | the bit fields of a byte are recovered from its octet |
| SimAtr.FieldsOfOctet | chan_vgsm/atr.h:17-53 | and its octet from the bit fields |
| LocalSim.IsComplete | chan_vgsm/mesim_local.c:843-921 | the loop over the flags decides completeness |
| LocalSim.LogInterface | chan_vgsm/mesim_local.c:961-1034 | the walk over a complete answer stays inside the bytes received and logs exactly its interface characters |
| LocalSim.Sim.Send | chan_vgsm/mesim_local.c:814-841 | bytes are held back in order while the answer comes in, unless they are too many, and written when the SIM is ready, unless the device fails; in other states they are dropped and the caller is told 0 |
| LocalSim.Sim.ResetRemoved | chan_vgsm/mesim_local.c:676-716 | the buffers are emptied and an answer awaited |
| LocalSim.Sim.ResetAsserted | chan_vgsm/mesim_local.c:649-674 | a SIM that is ready or reading its answer is put in reset; nothing accepted changes hands |
| LocalSim.Sim.TakeHolder | chan_vgsm/mesim_local.c:745-772 | without a holder the state drops what is sent |
| LocalSim.Sim.InsertHolder | chan_vgsm/mesim_local.c:718-743 | a new holder starts in reset |
| LocalSim.Sim.AnswerMissing | chan_vgsm/mesim_local.c:538-567 | an answer that does not come in time fails the SIM |
| LocalSim.Sim.ReceiveAtr | chan_vgsm/mesim_local.c:923-1157 | the SIM becomes ready exactly when its answer is complete and starts with the direct convention; then all that was held is written, or, if the device fails, stays held |
| Jitter.AverageBounded | chan_visdn/chan_visdn.c:2403-2405 | the average stays within the range of the pressures |
| Jitter.RestsExactly | chan_visdn/chan_visdn.c:2403-2405 | it rests exactly on the values up to the weight below the pressure |
| Jitter.AverageConverges | chan_visdn/chan_visdn.c:2403-2405 | under constant pressure it reaches its resting place in as many steps as it is away and stays |
| Jitter.RunBounded | chan_visdn/chan_visdn.c:2403-2412 | over any run, resets included, it stays within the range of pressures and reset value |
| Jitter.QueueKept | chan_visdn/chan_visdn.c:2434-2491 | a frame goes out whole behind silence or as a prefix, and the queue stays above the hard low mark and, without silence, at or below the hard high mark if it was |
| Jitter.HardHighExact | chan_visdn/chan_visdn.c:2468-2477 | over the hard high mark the queue ends on the mark or does not grow |
| Jitter.WrittenInTime | chan_visdn/chan_visdn.c:2434-2491 | how many samples are added or dropped below, between and above each of the four marks |
| Jitter.BetweenTheMarks | chan_visdn/chan_visdn.c:2434-2491 | with the queue between the soft marks a frame goes out as it is, whatever the average is |
| Jitter.WrittenLate | chan_visdn/chan_visdn.c:2407-2432 | a late frame goes out behind as much silence as the middle between the soft marks, where the average starts again |
| Jitter.Channel.WriteFrame | chan_visdn/chan_visdn.c:2386-2531 | the branches of the write path give the average and output of the model |

## Left out

- SessionChunking.ShortPromptSplits: is about the buffer as a string, as are `ChunkingExact` and all runs; what the memory behind the NUL adds is stated turn by turn (`SessionMemory.TurnExact`), not for runs with disorderly modems.
- Session.Drain: ends because its buffer is a string; when the loop in memory ends is `SessionEndless.EndsExactly`.
- CommEngine.Comm.DropFront: empties the buffer where more is dropped than there is; the memmove() as it is then is `Memory.MoveFront`.
- SmsSubmit.Submit.Prepare: what a write past the buffer does; that it happens is an outcome of its own.
- TimerSet.Set.RunTimers: functions called with STARTED or STOPPED run under the set's lock and do not re-enter the set; only FIRED ones do.
- Jitter.Channel.WriteFrame: a frame of alaw samples has as many samples as octets; a failing pressure query is not modelled.
- LocalSim.Sim.Send: a write to the device takes all of the bytes or fails; `LocalSim.Sim.ReceiveAtr` likewise, and its read does not fail.
- HuntGroup.HuntGroup.HuntInterface: members are distinct and the interface in use is one of them.
- The time of day: a timer of the session is its interval, and its expiry an event that may come at any moment while it is armed.
- Closing and reopening the same session object, read and write errors, flow control characters and the text of log messages.
- What the handlers of unsolicited codes do, and the functions that recognise the last line of a multi-line code, which are parameters.
- The UCS-2 paths of submit and deliver, and mktime(), which is a parameter.
- Reads past the end of a malformed PDU, which the code does not guard against: they are an outcome of their own.
- Shifts, masks and the bitwise or are written as arithmetic on natural numbers, with their bits proved in `Bits`.
- Concurrent restarts racing a popped timer, and duplicate members of a hunt group.
- Channel callbacks, command line, manager events, configuration, spooling, character set conversion, kernel streaming and the Q.931 stack, whose source is not part of this model.
- The module and SIM state machines around these parts, cause and error texts, the operator list and quoted-printable decoding: they would add only easy members.
