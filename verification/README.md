# Model of the Token2 OTP manager

This project models the layers through which the T2 TOTP Authenticator drives a Token2
security key, and proves what the layers promise each other. It verifies with
`dafny verify dfyconfig.toml`.

| file | models |
|---|---|
| `Bytes.dfy` | bytes, results, big-endian integers |
| `HidFrame.dfy` | HID framing: 61-byte chunks, 4-bit sequence numbers, busy polling, reassembly |
| `Hid.dfy` | the HID transport: sending, the receive loop, the one-shot button prompt |
| `HidRuns.dfy` | commands one after the other over HID, and answers that come late |
| `PcSc.dfy` | the PC/SC transport: `61xx` continuation and `6Cxx` reissue |
| `Proto.dfy` | command APDUs and status words |
| `Base32.dfy` | seeds as typed, decoded through an unmasked 64-bit shift register |
| `Entry.dfy` | records: device pages, single records, clear texts, and a device's reading of them |
| `Crypto.dfy` | padding and layout of the sealed body over abstract primitives |
| `Errors.dfy`, `Session.dfy` | the session operations over a link that answers one command at a time |
| `Device.dfy`, `Runs.dfy` | a reference token, and sessions against every token that conforms to it |
| `Links.dfy` | sessions over HID and over PC/SC against such a token |
| `Gui.dfy`, `Ages.dfy` | the window's job state under every interleaving of workers and user actions, and how old what it shows can be |
| `Clipboard.dfy` | the timed removal of a copied code |
| `Text.dfy`, `Utf8.dfy`, `Otpauth.dfy`, `Config.dfy` | text operations, lossy UTF-8, `otpauth` URIs, the settings file |

Each layer has the same shape. Code that updates state is a method or a class of methods,
proved equal to a function of its input or old state; the lemmas then relate that function
to something independent of it: an encoder, a reference token, the bit strings of RFC 4648,
or an invariant of all runs. Beside these, each operation's outcome is characterised over its
raw input, errors included, with the constants written out (`HidFrame.AcceptedIff`,
`PcSc.FailureIff`, `Entry.MalformedIff`, `Session.EnumeratedIff`, `Base32.TypedAcceptsIff`,
`Otpauth.ParsedExactly`, `Config.LoadedExactly`, `Gui.FollowsSteps` and others). The main results are `HidFrame.Resume`,
`HidFrame.LossUnnoticedIffMultipleOf16`, `HidRuns.OwnAnswerIff`, `HidRuns.LateTail`,
`PcSc.SuccessIff`, `PcSc.WorkBound`, `Base32.Base32Decode` with `Base32.EncodeDecode`,
`Entry.PageIff`, `Entry.PageCut`, `Entry.ClearTextIff`, `Device.WritePath`,
`Runs.RunRefinesMap`, `Runs.EnumerationIsCut`, `Links.HidConformsIff`,
`Links.HidRunRefinesMap`, `Links.PcScConforms`,
`Gui.RunKeepsInv`, `Gui.SettlesInTwoRounds`, `Gui.RefreshFlagIff`, `Gui.TouchCodesReadSince`
with `Gui.StartedSinceIff`, `Ages.ListFreshIff` with `Ages.FreshUntilReloadIff`,
`Otpauth.RoundTripIff` and `Config.RoundTripIff`.

How the source's environment appears:

- A HID device is the list of what successive turns of the receive loop meet (a report, an
  empty read, a read failure, the deadline) and the number of reports it takes; a card is the
  list of its answers; the link under a session is the list of its responses. Every list is
  allowed, so every device behaviour of finite length is covered. Past the end of a list the
  deadline has passed, the card is gone or the link is down.
- Clocks are arguments. Worker threads are jobs in flight; a worker's end puts a result into
  the channel, and the job it came from is kept beside it for the proofs only.
- Key agreement, hashing and encryption are function values; the only assumptions are that
  both sides agree on the key, that encryption keeps the length of whole blocks and that
  decryption undoes it. `Device.SoundCardsExist` shows these can be met.
- Names, codes and seeds are bytes; the typed seed, URIs and settings are strings of Unicode
  characters. Bit operations on bytes are written as arithmetic: `flags | seq` of disjoint
  nibbles is a sum, `& 0x0F` a remainder, `<< 5` on 64 bits a product that loses its top bits.
- The retry counter of busy reports is a `u32` and the release profile checks for overflow
  (Cargo.toml:29-30), so the increment past `2^32 - 1` panics, which ends the thread it happens
  on; it is the error `BusyOverflow`.
- `Device.Token` is a list of records; a conforming token may refuse any command with a
  status word of its own and may cut a listing into non-empty pages as it likes. Its answer to a
  command may be lost, and so may the command; the caller then has an error of the transport.

Where a promise is not kept by the code in full, its exact condition is proved:

- The 4-bit sequence number misses a loss exactly when a multiple of 16 consecutive frames is
  lost (`HidFrame.LossUnnoticedIffMultipleOf16`).
- A transmit over HID never discards what it leaves unread. When the device answers every
  command in order, whatever deadlines fall between or inside its answers, a command gets its
  own answer exactly when it and every command before it got one in time
  (`HidRuns.AnswersBelong`, `HidRuns.OwnAnswerIff`). After a deadline inside an answer the late
  frames fail one command each, until one whose index is a multiple of 16 is taken for the start
  of an answer (`HidRuns.LateTail`). So, when no answer looks like an earlier one or the rest of one, a session
  over HID conforms exactly when no transmit returns an answer after one that did not
  (`Links.HidConformsIff`); otherwise an erase that the token refuses can be reported as done
  (`Links.ExpiredListingMisleads`). Over PC/SC it always conforms (`Links.PcScConforms`).
- The comment at src/bin/gui.rs:312-313 says that `refreshing` is true while a background
  refresh is in flight. `Gui.UnmarkedRefresh` gives a run from the start that ends with a refresh
  running and the flag false. `Gui.RefreshFlagIff` gives the condition: in every run from the
  start, the comment holds throughout if and only if no load's result or failure is taken while
  a refresh is in flight.
- A touch code on show may be older than the last reload, finished command or unplugging, whether
  its worker ends before or after that (`Gui.CodeFromBeforeReload`). From a state without the
  code, every run that forgets nothing comes to hold it only if it was also asked for in that
  run, so that its reading falls into the run, exactly when no worker started before may still
  bring it: its result does not wait in the channel ahead of everything that makes the window
  forget, and no such worker runs with its way through the channel free (`Gui.StartedSinceIff`).
- The list on show may be older than the last reload too, in two ways: any worker's failure puts
  the rows from before it back on show, even with the new load still running
  (`Ages.FailureShowsOldRows`), and a refresh started before a delete can bring the deleted row
  back (`Ages.DeletedRowReturns`). In every run from the start the list is that of a worker
  started since the last reload, throughout, if and only if no result is taken that is a failure
  while an old list is held, or an old read that shows one (`Ages.ListFreshIff`). From any state
  it stays so in every run until the next reload exactly when the waiting results, taken in
  order, show no old list and then either come to a finished command, which reloads again, or
  leave no old list held and no old read running (`Ages.FreshUntilReloadIff`). Both are proved
  for rows alone and for empty lists too.
- A write, delete or erase whose answer is lost may have had its effect; that is the only case in
  which the caller cannot tell (`Runs.RunRefinesMap`, `Runs.AnsweredRunIsMap`).
- An `otpauth` URI gives its record back exactly when the first colon of the label is the
  separator (`Otpauth.RoundTripIff`).
- Settings come back exactly when the two texts hold no line break and no outer white space
  (`Config.RoundTripIff`).
- The continuation loop has no bound of its own, since every `6Cxx` restarts it; it makes at
  most 64k + 65 transmits for k such answers, and this is reached (`PcSc.WorkBound`,
  `PcSc.WorkBoundIsTight`).

## Model

| member | source | states |
|---|---|---|
| HidFrame.BuildSendFrames | src/hidframe.rs:33-57 | report i of n is 65 bytes: zero report ID, magic, more-flag on all but the last joined with i mod 16, length, message bytes 61i up to 61(i+1), zero padding; an empty message gives one empty last report |
| HidFrame.FrameBytes | src/hidframe.rs:33-57 | every byte of a report, with its constants, and how many reports there are |
| HidFrame.ChunksConcatenate | src/hidframe.rs:43-55 | the chunks put end to end are the message, and the last report ends it |
| HidFrame.ResponseAssembler.Push | src/hidframe.rs:112-161 | one report's effect on buffer, wrapping count, retry count and done flag, for every byte string and with every error |
| HidFrame.ForeignIff | src/hidframe.rs:122-124 | a report is refused as foreign iff it has three bytes and does not open with 21, bare or after a zero report ID, and then nothing changes |
| HidFrame.ShortIff | src/hidframe.rs:119-121 | it is refused as too short without a trace iff less than three bytes follow its report ID |
| HidFrame.BusyIff | src/hidframe.rs:128-133 | a report of the device is busy iff its flags are C0 to CF, and then only the retry count changes |
| HidFrame.RefusedIff | src/hidframe.rs:136-151 | a data report is refused for its index, then for a length over 61, then for missing bytes, with the state each leaves, and in no other case |
| HidFrame.AcceptedIff | src/hidframe.rs:112-161 | a report is accepted with a chunk iff it is that chunk behind magic byte, fitting index and length, and it ends the message iff bit 20 is clear |
| HidFrame.BufferIsChunks | src/hidframe.rs:144-152 | in every run of arbitrary reports that has not failed, each is busy or data and the buffer is the chunks they carry, in order |
| HidFrame.ResponseAssembler.IntoResponse | src/hidframe.rs:168-177 | splits off the last two bytes, or nothing when there are not two |
| HidFrame.SplitIffAppended | src/hidframe.rs:168-177 | a buffer splits into data and status word exactly when it is the data followed by the word, high byte first |
| HidFrame.PushFrame | src/hidframe.rs:112-161 | frame i of a message, with or without report ID, is accepted exactly when i and the count agree modulo 16, and then appends its own bytes and completes iff it is the last |
| HidFrame.Resume | src/hidframe.rs:112-161 | from any count congruent to k modulo 16, frames k to the end with busy reports anywhere append exactly their bytes and complete; the wrap of the count at 256 never shows |
| HidFrame.NotBeforeTheEnd | src/hidframe.rs:154-160 | no proper prefix of such a delivery completes or fails |
| HidFrame.FramingRoundTrip | src/hidframe.rs:33-57 | every message of any length is reassembled from its frames, done exactly on the last one |
| HidFrame.SentIsDelivery | src/hidframe.rs:42-56 | the frames as sent are such a delivery |
| HidFrame.WindowNeverCorrupts | src/hidframe.rs:136-160 | when every frame delivered is less than 16 away from the one expected, the buffer is always a prefix of the message, completion means the whole message, and a wrong frame is reported |
| HidFrame.LossUnnoticedIffMultipleOf16 | src/hidframe.rs:136-141 | losing consecutive frames goes unnoticed iff their number is a multiple of 16, with the exact buffer or error that results |
| HidFrame.CountsDataReports | src/hidframe.rs:142 | in an unfinished run of any length the count is the number of data reports modulo 256 |
| HidFrame.BoundedGrowth | src/hidframe.rs:144-152 | whatever arrives, bytes received are never changed and each report adds at most 61 |
| Hid.HidTransport.SendAll | src/transport.rs:232-234 | all frames are written in order, or those before the first failing write |
| Hid.HidTransport.Transmit | src/transport.rs:231-263 | the response is that of the reports up to the first that completes or fails, an unfinished one ends with the deadline or read error; exactly the events after that are left unread and the frames sent used up; the prompt fires once iff detection is on, a callback is set and three consecutive busy reports were looked at |
| Hid.ReceivedExactly | src/transport.rs:236-262 | every outcome of the receive loop: the stop, the assembler's error, a response too short, or data and status word |
| Hid.StoppedAt | src/transport.rs:241-248 | the first event that is no report decides how an unfinished loop ends |
| Hid.TakenIs | src/transport.rs:249-261 | the reports looked at are those up to the first that completes or fails the loop |
| Hid.StreakOne | src/transport.rs:250-257 | the retry count has reached three exactly when three busy reports in a row have occurred |
| Hid.AnswerIsReceived | src/transport.rs:236-262 | a response framed by the device and arriving in time is returned as its data and status word, whatever busy reports and empty reads come between |
| Hid.HidIsTransparent | src/transport.rs:231-263 | a device that reassembles what is written has the command, and the host has the device's data and status word |
| Hid.ReceivedError | src/transport.rs:242-262 | a receive loop that fails gives an error of the transport and never a status of the token other than the button timeout |
| HidRuns.AnswersShift | src/transport.rs:231-263 | over any run of transmits, transmit k returns the device's answer number k less the transmits that expired before it |
| HidRuns.OneLastFrame | src/transport.rs:236-262 | whatever arrives, a transmit reads at most one frame that ends an answer, and exactly one if it completes |
| HidRuns.AnswersBelong | src/transport.rs:231-263 | over any stream of the answers' frames in order, with busy reports, empty reads, failures and deadlines anywhere: a transmit that completes returns an answer, whole or from a frame whose index is a multiple of 16 on, never one after its own; its own is the next iff all transmits before it completed, and then it returns it whole |
| HidRuns.OwnAnswerIff | src/transport.rs:231-263 | over the same streams, when no earlier answer looks like it, transmit n returns the answer to its command iff it and all before it returned something |
| HidRuns.StreamInOrder | src/transport.rs:231-263 | whole answers in turn with transmits that expire are such a stream of the answers in order |
| HidRuns.DeadlineInside | src/transport.rs:241-244 | a deadline after k frames of an answer gives the button timeout and leaves the frames from k on unread |
| HidRuns.LateFrames | src/transport.rs:236-262 | frames k to the end, met by a new command, are refused one at a time iff k is not a multiple of 16 and are otherwise returned as its answer |
| HidRuns.LateTail | src/transport.rs:231-263 | how many commands fail on the rest of a late answer, whether one then returns that rest as its own, and that nothing of it is left afterwards |
| PcSc.PcScTransport.RawTransmit | src/transport.rs:454-498 | the result and, byte for byte, every command sent, the first being the command itself; exactly the answers to these are used up |
| PcSc.SendsItsCommand | src/transport.rs:459-491 | after the command itself only GET RESPONSE after 61xx, and the command and one more byte after 6Cxx |
| PcSc.FitsExactly | src/transport.rs:464-482 | an answer fits iff it has 2 to 4096 bytes and comes within 64 answers and 65536 bytes since the last 6Cxx |
| PcSc.FailureIff | src/transport.rs:465-482 | a transmit fails iff some answer is the first that does not fit, with a card error, an empty response or a malformed one accordingly |
| PcSc.ReassembleError | src/transport.rs:461-497 | a transmit that fails gives an error of the transport, never a status of the token |
| PcSc.SuccessIff | src/transport.rs:461-497 | success iff a first answer that asks for nothing more is reached within the limits; then the data is exactly the bodies received since the last 6Cxx, with that answer's status word |
| PcSc.SuccessLimits | src/transport.rs:474-496 | every success has at most 64 chunks and 65536 bytes and a status word that is neither 61xx nor 6Cxx |
| PcSc.ChunkingIsInvisible | src/transport.rs:461-497 | two chunkings of the same body and status word give the same result, whatever was retried before |
| PcSc.ChainIsReassembled | src/transport.rs:461-497 | a body cut into any 1 to 64 parts, with any announced lengths, comes back whole |
| PcSc.WorkBound | src/transport.rs:461-497 | a run with k answers 6Cxx makes at most 64k + 65 transmits |
| PcSc.WorkBoundIsTight | src/transport.rs:486-491 | for every k some card makes it exactly 64k + 65 |
| Proto.CheckSw | src/proto.rs:80-94 | each documented status word has its own error, only 9000 succeeds, only 6A80 and 6A83 mean an empty token |
| Proto.BuildApdu | src/proto.rs:118-130 | header, zero, 16-bit length and body; the bare header when the body is empty |
| Proto.ApduBytes | src/proto.rs:118-130 | every byte of a command: header, zero, length with the high byte first, body |
| Proto.CommandBytes | src/transport.rs:688-700 | the bytes of the commands a session sends |
| Bytes.U64Bytes | src/proto.rs:176-181 | the eight bytes of a time, the most significant first |
| Proto.UnwrapIffBuilt | src/proto.rs:115-130 | a device reads a header and a body out of a command exactly when it was built from them |
| Base32.Base32Decode | src/proto.rs:320-338 | output byte k is bits 8k to 8k+7 of the concatenated 5-bit values, floor(5n/8) bytes, for strings of any length though the 64-bit register loses its high bits; rejects iff some character is outside the alphabet |
| Base32.ShiftKeepsPending | src/proto.rs:330-331 | the low bits of the register are the pending bits whatever has fallen off the top |
| Base32.TakeByte | src/proto.rs:332-335 | the byte pushed is the first eight pending bits and the rest stay pending |
| Base32.EncodeDecode | src/proto.rs:320-338 | decoding inverts the encoding of section 6 of RFC 4648 on every byte string |
| Base32.DecodeBase32Seed | src/proto.rs:312-318 | cleaning, decoding and the length rule together, with the error of each |
| Base32.ValidateSeedLen | src/proto.rs:302-308 | accepts exactly 1 to 64 |
| Base32.AcceptsIff | src/proto.rs:312-318 | a typed seed is accepted iff its cleaned characters are all in the alphabet and number 2 to 103 |
| Base32.TypedAcceptsIff | src/proto.rs:312-318 | over the typed text: accepted iff every character but white space and trailing padding is a letter or 2 to 7 and these number 2 to 103; else invalid character, empty or too long, exactly |
| Base32.AlphabetLetters | src/proto.rs:321 | the 32 letters in order |
| Base32.SeedLengths | src/proto.rs:302-308 | the error of each refused length |
| Base32.IgnoresWhitespace | src/proto.rs:313 | white space inserted anywhere changes nothing |
| Base32.IgnoresCase | src/proto.rs:314 | the case of letters changes nothing |
| Base32.IgnoresPadding | src/proto.rs:314 | trailing equals signs change nothing |
| Base32.TypedSeedDecodes | src/proto.rs:310-318 | any text that is cleaned to the encoding of a seed of 1 to 64 bytes gives the seed |
| Base32.SpellingDecodes | src/proto.rs:310-318 | every spelling of an encoded seed, with white space anywhere, letters of either case and any padding, is cleaned to the encoding and gives the seed |
| Base32.EncodingDecodes | src/proto.rs:310-318 | in particular the encoding itself |
| Entry.TypeFromByte | src/entry.rs:30-36 | inverse of the type byte, nothing else accepted |
| Entry.AlgorithmFromByte | src/entry.rs:59-65 | inverse of the algorithm byte, nothing else accepted |
| Entry.Cursor.U8 | src/entry.rs:283-287 | the next byte, or truncated at the end |
| Entry.Cursor.U16BigEndian | src/entry.rs:288-292 | the next two bytes, high first, or truncated |
| Entry.Cursor.Ascii | src/entry.rs:293-301 | the next n bytes if there are n and all are ASCII |
| Entry.ParseOneEntry | src/entry.rs:228-267 | reads one record off the front and leaves exactly what follows it |
| Entry.ParseEnumPage | src/entry.rs:202-220 | the records of a page in order and its more flag, or the first error |
| Entry.ParseReadOne | src/entry.rs:223-226 | the record at the front of a READ_ONE answer |
| Entry.EntryIff | src/entry.rs:228-267 | a record is read off the front iff the front is the encoding of a well-formed record that has its code exactly when the rule says so |
| Entry.RecordBytes | src/entry.rs:228-267 | every byte of a record; a touch-required or HOTP record of a page ends with its account, every other with its code |
| Entry.PageCodes | src/entry.rs:249 | a record of a page has a code iff it is TOTP and wants no button press |
| Entry.ReadOneHasCode | src/entry.rs:223-226 | a record read on its own always has its code |
| Entry.ReadIsText | src/entry.rs:293-301 | the fields of a record are ASCII of at most 255 bytes and its account is not empty |
| Entry.PageBytes | src/entry.rs:206-209 | the first byte of a page is the first type, and 80 more if pages follow |
| Entry.MalformedIff | src/entry.rs:228-267 | a record is malformed iff its type, algorithm, button flag, a name, its account length or its code is wrong in its place; every other failure is a truncation |
| Entry.ReadOneRefused | src/entry.rs:223-226 | the same for READ_ONE data |
| Entry.PageRefusedIff | src/entry.rs:202-220 | a page is refused iff it is empty or, after some well-formed records, a record is, and for that reason |
| Entry.ReadOneIff | src/entry.rs:223-226 | READ_ONE data is accepted iff it starts with the encoding of a record with its code |
| Entry.PageIff | src/entry.rs:202-220 | pages of at least one well-formed record and their encodings are in bijection under the page reader |
| Entry.PageSize | src/entry.rs:211-215 | nine times the number of records is at most the page length |
| Entry.EntryCut | src/entry.rs:283-301 | any proper prefix of a record reads as truncated |
| Entry.PageCut | src/entry.rs:202-220 | a page cut at a record boundary reads as the records before the cut, and anywhere else as truncated |
| Entry.SerializeWriteEntry | src/entry.rs:131-155 | the clear text of a valid write; everything else is refused |
| Entry.ValidExactly | src/entry.rs:107-141 | which records and names are valid |
| Entry.WriteBytes | src/entry.rs:142-155 | every byte of a write's clear text |
| Entry.NameBytes | src/entry.rs:159-197 | every byte of a delete's clear text and of the request bodies |
| Entry.SerializeDeleteEntry | src/entry.rs:159-174 | the clear text of a delete for valid names; everything else is refused |
| Entry.SerializeReadEntry | src/entry.rs:178-197 | the READ_ONE body for valid names; everything else is refused |
| Entry.ClearTextIff | src/entry.rs:131-174 | a device decodes a clear text to a command iff it is that valid command's: writes and deletes are disjoint and each determines its record or names |
| Entry.ClearTextSize | src/entry.rs:142-166 | clear texts have 10 to 201 bytes |
| Entry.QueryRoundTrip | src/entry.rs:178-197 | the time and names of every enumerate and read request are read back by the device |
| Crypto.UnpadIffPadded | src/crypto.rs:82-89 | on whole blocks, removing the padding of section 6.3 of RFC 5652 yields m iff they are m padded |
| Crypto.EncryptSeedPayload | src/crypto.rs:56-98 | pads and encrypts its work buffer in place and lays the point before it; rejects a key that is not a valid 64-byte point |
| Crypto.SealIff | src/crypto.rs:61-97 | sealing is refused iff the key is not a valid point of 64 bytes, and else lays the point before the ciphertext |
| Crypto.PadBytes | src/crypto.rs:82-89 | the padding is 1 to 16 bytes up to a whole block, each telling their number |
| Crypto.OpenSealed | src/crypto.rs:91-97 | the device opens the blob to the clear text; a blob has at least 80 bytes and whole blocks |
| Session.OtpSession.Enumerate | src/transport.rs:688-707 | what is sent and what the answers make of it: the records of all pages in order, the empty list for an empty token, the first error otherwise |
| Session.EnumeratedIff | src/transport.rs:688-707 | over any link: an enumeration not told the token is empty gives a list iff every answer is 9000 with the encoding of at least one well-formed record and only the last announces no more, and the list is those records end to end |
| Session.EnumerationEnds | src/transport.rs:691-703 | over any link: 6A80 or 6A83 at once gives the empty list; a failure is that of the first answer that is no page, a parse error if it is 9000 |
| Session.CheckedIff | src/proto.rs:80-94 | data is taken from an answer iff its status is 9000, and every other outcome is its own error |
| Session.PageOfIff | src/transport.rs:697-703 | an answer is taken for a page iff it is one |
| Session.OtpSession.ReadEntry | src/transport.rs:711-722 | one exchange with button detection, or none for invalid names |
| Session.ReadIff | src/transport.rs:711-722 | over any link: a read gives a record iff 9000 comes with data that starts with its encoding, and else the link's, the status word's or the parser's error |
| Session.OtpSession.SealFor | src/transport.rs:783-792 | one exchange for the device's key, then the clear text sealed for it |
| Session.OtpSession.WriteEntry | src/transport.rs:726-733 | the two exchanges of a write and its result; none for an invalid record |
| Session.SealedIff | src/transport.rs:726-743 | over any link: a write or delete succeeds iff it is valid, the key is a valid point and both commands are answered 9000 |
| Session.SealedErrors | src/transport.rs:726-743 | over any link: how it fails at validation, key, seal or change |
| Session.OtpSession.DeleteEntry | src/transport.rs:736-743 | the two exchanges of a delete and its result; none for invalid names |
| Session.OtpSession.EraseAll | src/transport.rs:747-751 | one bodyless write with button detection |
| Session.ErasedExactly | src/transport.rs:747-751 | over any link: its outcome is that of its one answer |
| Device.WritePath | src/transport.rs:726-743 | serialize, pad, seal, wrap and frame, then reassemble, unwrap, open, unpad and decode gives back the very command, in at most 279 bytes and 5 frames |
| Device.RequestSealed | src/crypto.rs:82-97 | a sealed write or delete, of 80 to 272 bytes, is read by the token as that command |
| Device.RequestErase | src/proto.rs:163-165 | only the bodyless WRITE_SEED is read as an erase |
| Device.RequestListAll | src/proto.rs:176-181 | the first enumerate command reaches the token with its time |
| Device.RequestListMore | src/transport.rs:700 | so does every continuation, with the same time |
| Runs.EnumerateIsListing | src/transport.rs:688-707 | against every conforming token, however it cuts its listing and whatever is lost, a successful enumeration is exactly the listing; none changes anything, and one fails only by the token's own status or a lost answer |
| Runs.EveryCutIsListed | src/transport.rs:688-707 | for every sequence of positive page sizes that add up to the number of records, a conforming token can send its listing so, in exactly that many exchanges, and the enumeration is the listing |
| Runs.EnumerationIsCut | src/transport.rs:688-707 | conversely every successful enumeration of some records is one of these logs, byte for byte: one exchange per page |
| Runs.SealedApplies | src/transport.rs:726-743 | a write or delete changes the token's records as asked if it succeeds, and if it fails changes nothing, or as asked when the answer to its second command is lost |
| Runs.ErasesAll | src/transport.rs:747-751 | an erase empties the token if it succeeds, and if it fails changes nothing or, when its answer is lost, may have emptied it |
| Runs.ReadsStored | src/transport.rs:711-722 | a read returns the stored record with its code, which for a HOTP record may be any; not found is only said of absent names |
| Runs.Perform | src/transport.rs:688-751 | every call of a session is an event of the runs considered |
| Runs.PromptsExactly | src/transport.rs:688-751 | button detection is on in exactly the exchanges of reads and erases |
| Runs.SendsExactly | src/transport.rs:688-751 | the bytes that each call sends |
| Runs.CallRefinesMap | src/transport.rs:688-751 | one call acts on the token's records as on a map keyed by (app, account), with or without effect when its answer is lost |
| Runs.RunRefinesMap | src/transport.rs:688-751 | over every run of writes, deletes, erases, enumerations and reads, with any answers or commands lost, each call takes the token's map to the next as its outcome says, and every listing and read is true of the map at its moment |
| Runs.AnsweredRunIsMap | src/transport.rs:688-751 | if no answer to a change is lost, the map at each moment is the one the successful calls make |
| Runs.CommandCanBeAccepted | src/transport.rs:726-743 | the runs considered exist: a token can accept every valid write and delete, and its caller sees the same whether the command or only the answer is lost |
| Runs.ReadCanBeAnswered | src/transport.rs:711-722 | and it can answer a read of any stored record, of a HOTP record with any code |
| Links.CommandsArrive | src/transport.rs:232-234 | a device that reassembles the reports written over HID has every command of a log |
| Links.PartNeverArrives | src/transport.rs:232-234 | of a command whose writing fails the device has an unfinished beginning |
| Links.HidConforms | src/transport.rs:231-263 | over HID, with the answers' frames coming in order at any time and writing failing at any point, the log of any session conforms if no transmit returns an answer after one that did not |
| Links.HidConformsIff | src/transport.rs:231-263 | and only if, when no answer looks like an earlier one or the rest of one |
| Links.HidRunRefinesMap | src/transport.rs:688-751 | such a run of calls, with the last in doubt or not, takes the token's map from call to call as the outcomes say, and every listing and read is true of it at its moment |
| Links.HidRunIsMap | src/transport.rs:688-751 | if besides no change is in doubt, every listing and read is true of the map the successful calls make |
| Links.ExpiredListingMisleads | src/transport.rs:231-263 | an expired enumeration, then an erase that the token refuses and that is reported as done |
| Links.ChainYields | src/transport.rs:461-497 | a card that cuts its answer in any way within the limits yields it |
| Links.PcScCommandsArrive | src/transport.rs:459-491 | the card has exactly the commands of a log, because each transmit sends its own first |
| Links.PcScConforms | src/transport.rs:454-498 | over PC/SC, with the token serving the commands sent, the log of any session conforms, whichever of its transmits fail |
| Gui.MinPeriod | src/bin/gui.rs:444-449 | the least positive period among the rows |
| Gui.NextRefreshBounds | src/bin/gui.rs:441-460 | the next refresh is 1.4 to 5 seconds away, and if nearer than 5 it falls 0.4 to 1.4 seconds after the shortest period rolls over |
| Gui.NextRefreshIs | src/bin/gui.rs:441-460 | the next refresh exactly: 0.4 seconds into the next multiple of the shortest period, or in five seconds if that is nearer |
| Gui.App.Reload | src/bin/gui.rs:431-436 | unloads, forgets touch codes and starts a load |
| Gui.App.RefreshCodes | src/bin/gui.rs:463-476 | starts a refresh unless one is marked or nothing is loaded |
| Gui.RefreshStartsIff | src/bin/gui.rs:463-476 | what it changes, and that it changes nothing otherwise |
| Gui.App.DrainJobs | src/bin/gui.rs:594-654 | takes every result in order with its effect on flags, rows, codes and the next refresh, each with the clock reading of its own |
| Gui.App.Update | src/bin/gui.rs:713-725 | drains, then tries the refresh gate |
| Gui.DrainIsRun | src/bin/gui.rs:594-596 | a drain is the run that takes every waiting result |
| Gui.FollowsSteps | src/bin/gui.rs:594-725 | in every run the flags, the touch codes and the next refresh are what the last step that says something about them said; the gate opens iff loaded, not refreshing, not busy and due |
| Gui.StepKeepsInv | src/bin/gui.rs:414-476 | every step of worker, window or user keeps the invariant: not loaded implies a load in flight, refreshing a refresh, busy a spawned job |
| Gui.RunKeepsInv | src/bin/gui.rs:594-654 | so it holds in every reachable interleaving |
| Gui.NeverWedged | src/bin/gui.rs:719-725 | with nothing in flight only the clock holds the gate, and then it starts a refresh |
| Gui.GateOpensSoon | src/bin/gui.rs:456-459 | the clock holds it for at most five seconds after the last reading |
| Gui.SettlesInTwoRounds | src/bin/gui.rs:640-643 | once the workers have ended, draining, letting the loads so started end, and draining again leaves nothing in flight and every flag at rest |
| Gui.ShowsLastRead | src/bin/gui.rs:598-635 | in every run the rows and serial shown are those of the last read taken, and none after the key was found gone |
| Gui.TouchCodesTakenSince | src/bin/gui.rs:637-639 | every touch code held was taken off the channel since the last reload, finished command or unplugging |
| Gui.TouchCodesReadSince | src/bin/gui.rs:1038-1055 | in every run from the start a touch code held was asked for, and so read, since then, unless a worker started before could still bring it; so it was if no touch worker for its entry was in flight then |
| Gui.StartedSinceIff | src/bin/gui.rs:1038-1055 | from any state without the code, all runs that forget nothing hold it only after asking for it iff it neither waits in the channel ahead of everything that makes the window forget nor can be brought by a running worker whose way is free |
| Gui.CodeFromBeforeReload | src/bin/gui.rs:431-436 | two runs, the worker ending before or after the reload, that hold a code asked for before it |
| Ages.MarksForgotten | src/bin/gui.rs:594-654 | runs with workers marked by age are runs |
| Ages.RunsAreMarked | src/bin/gui.rs:594-654 | and every run can be marked so |
| Ages.StaysFreshIff | src/bin/gui.rs:598-647 | one step keeps the list on show that of a worker started since the last reload iff it takes neither a failure while an old list is held nor an old read that shows |
| Ages.ListFreshIff | src/bin/gui.rs:598-647 | so over every run from the start, reloads included: at every prefix iff no step of the run does so |
| Ages.FreshUntilReloadIff | src/bin/gui.rs:598-647 | from any state where the list on show is fresh, it stays so in all runs without a reload iff, the waiting results taken in order up to a finished command, none shows an old list and none is left to be shown by a failure or an old worker |
| Ages.NoOldReadIff | src/bin/gui.rs:598-635 | from any state, in all runs without a reload no read by a worker started before the last reload is the last one taken, iff no such read waits ahead of all finished commands nor can come through from a running worker |
| Ages.RowsReadSince | src/bin/gui.rs:598-647 | in every run from the start an old list is on show only if the state at the last reload or finished command allowed it; and old rows never if no row was held and no read was in flight then |
| Ages.OldReadSince | src/bin/gui.rs:598-635 | in every run from the start the last read taken is by a worker started before the last reload only if such a read could still arrive at that reload, so never if none was in flight |
| Ages.FailureShowsOldRows | src/bin/gui.rs:645-647 | a run in which a touch read fails after a reload and the rows from before are on show while the new load runs, with no old read in flight |
| Ages.DeletedRowReturns | src/bin/gui.rs:611-624 | a run in which a refresh started before a delete ends after the reload and shows the old row again |
| Gui.SingleIff | src/bin/gui.rs:463-476 | one step keeps the flag true to a single refresh in flight iff it does not clear it early, and clearing it early makes the flag wrong |
| Gui.SingleThroughoutIff | src/bin/gui.rs:463-476 | so in every run from a state with the invariant and a true flag: at every prefix iff no step clears it early |
| Gui.RefreshFlagIff | src/bin/gui.rs:312-313 | in every run from the start, at every prefix a refresh in flight is marked, and there is at most one, iff no step of the run clears the flag early |
| Gui.UnmarkedRefresh | src/bin/gui.rs:600-607 | a run from the start that ends with a refresh running and the flag false |
| Gui.TwoRefreshes | src/bin/gui.rs:600-607 | a run with two refreshes in flight |
| Clipboard.App.CopyCode | src/bin/gui.rs:585-592 | the code is on the clipboard and its removal set 45 seconds later |
| Clipboard.App.MaybeClearClipboard | src/bin/gui.rs:656-669 | one tick's effect on clipboard and pending removal |
| Clipboard.WipeIsPending | src/bin/gui.rs:585-592 | in every run, while the window wrote last its code is on the clipboard and its removal at copy time plus 45 is pending |
| Clipboard.TickWipes | src/bin/gui.rs:656-669 | the first tick at or after that time removes it and no earlier one touches it |
| Clipboard.CopyAndWait | src/bin/gui.rs:585-592 | a copy sets the removal 45 seconds later and earlier ticks change nothing |
| Clipboard.DueTick | src/bin/gui.rs:656-669 | a due tick leaves nothing pending and empties only that very code |
| Clipboard.OnlyTheCodeIsWiped | src/bin/gui.rs:661-664 | no tick removes any text but the code copied last, nor before its time |
| Utf8.LossyEncoded | src/gui/qr.rs:178 | lossy decoding gives back any encoded text, whatever bytes follow it |
| Utf8.LossyIff | src/gui/qr.rs:178 | bytes survive lossy decoding unchanged iff they are the encoding of a text |
| Utf8.ReplacedPart | src/gui/qr.rs:178 | bytes that encode no character are replaced by one U+FFFD for the longest part that begins some encoding, or for one byte |
| Otpauth.PercentDecode | src/gui/qr.rs:151-179 | left-to-right decoding of escapes and plus signs over the bytes of the text, malformed escapes kept as they are, and lossy UTF-8 decoding of the result |
| Otpauth.UnescapeEscape | src/gui/qr.rs:155-165 | an escape is the one byte that its two digits give |
| Otpauth.UnescapeOther | src/gui/qr.rs:166-176 | a plus sign is a space, and everything else itself, also a percent sign that starts no escape |
| Otpauth.HexIff | src/gui/qr.rs:181-188 | the hexadecimal digits in either case |
| Otpauth.PercentRoundTrip | src/gui/qr.rs:151-179 | decoding inverts the percent-encoding of section 2.1 of RFC 3986 on every text, over its UTF-8 bytes |
| Otpauth.ParseOtpauth | src/gui/qr.rs:75-148 | the record of a URI, or why there is none |
| Otpauth.SchemeIff | src/gui/qr.rs:76-86 | which texts are refused as HOTP and which as no code |
| Otpauth.ParsedExactly | src/gui/qr.rs:88-147 | a time-based URI gives its label's names and of each parameter the last value, of the issuer the last that is not blank; without a secret there is none |
| Otpauth.LabelRead | src/gui/qr.rs:96-112 | the label is split at its first colon, and blank parts are absent |
| Otpauth.UnsignedIff | src/gui/qr.rs:138-139 | which texts are numbers in range |
| Otpauth.DecimalRoundTrip | src/gui/qr.rs:138-139 | every number in range is parsed back from its decimal form |
| Otpauth.ParamsMerge | src/gui/qr.rs:115-142 | parameters in any order, under any spelling of their names and with unknown ones mixed in set exactly the fields they name |
| Otpauth.ParsedIsComplete | src/gui/qr.rs:75-148 | every record the parser gives is one the round trip covers |
| Otpauth.RoundTripIff | src/gui/qr.rs:75-148 | for every such record a rendered URI parses back to it iff the first colon of its label is the separator |
| Config.Save | src/gui/config.rs:116-135 | the header and one line per setting present, in order |
| Config.FileIs | src/gui/config.rs:116-135 | the whole file, line by line |
| Config.Load | src/gui/config.rs:75-107 | the settings of any text, with the source's defaults for absent keys |
| Config.LoadedExactly | src/gui/config.rs:75-107 | of each setting the last line counts, with the value of each and the default without one |
| Config.FirstLineOf | src/gui/config.rs:76 | where lines end |
| Config.LineRead | src/gui/config.rs:77-83 | a written line reads as its key and value, also for values that are empty, start with a number sign or hold equals signs |
| Config.SavedMap | src/gui/config.rs:75-84 | the map of a saved file holds exactly the values written |
| Config.RoundTripIff | src/gui/config.rs:66-137 | loading what was saved gives the same settings iff the two texts fit a line |

## Left out

- Crypto.EncryptSeedPayload: P-256, SHA-256, AES and the CBC chaining are parameters; only padding, lengths and layout are stated, and the buffer is encrypted as one value.
- Device.Conforms: an answer that gets back belongs to its own command; `Links` proves when this is so.
- HidRuns.OwnAnswerIff: the device answers every command, in order; one that drops a command when the next comes is not covered.
- Links.HidConforms: what a newly opened handle still delivers of an earlier session's reports is not part of the model.
- Gui.NeverWedged: every worker ends with a result; one that panics ends its thread without any, and its job stays in flight for ever.
- Gui.App.DrainJobs: results sent while a drain is under way are covered by the run lemmas, whose steps take one result each; error and info messages are left out.
- PcSc.PcScTransport.RawTransmit: a card that answers `6Cxx` for ever keeps the source looping; a finite list of answers does not show that.
- Session.OtpSession.Enumerate: likewise for a token that announces more pages for ever.
- Error messages, status, info and busy texts and their expiry: one error constructor stands for all messages of a kind, and `busy` is a flag.
- The `Transport` trait object: a session uses a link of responses, and the two transports are proved separately.
- `Gui.App` handles a result in helper methods where the source has one match inside the loop, and `Hid.HidTransport` has its receive loop in a method of its own.
- Device discovery and detection order, `probe`, `read_serial` and serial parsing, `DeviceInfo`, the command line, hotkeys, rendering, dialogs, QR images and screen capture.
- Zeroizing, debug traces, file system access of the settings and reads that block.
