# Tacquito in Dafny

Tacquito is a TACACS+ server (RFC 8907). This project models the four linked parts that carry its behaviour and
proves what they promise, for every input, every run and every configuration.

- **Wire codec** (`Bytes`, `ReadBuffers`, `Fields`, `Arguments`, `Authenticate`, `Authorize`, `Accounting`, `Headers`, `Layout`):
  the seven body formats, the header, and the read buffer that silently hands out fewer bytes than asked for.
- **Transport** (`Crypt`, `Transport`, `Guess`): the MD5-chained pad, XORed in place, the framing of packets on a byte stream
  and the bad-secret guess.
- **Connection** (`Handlers`, `Machine`, `Runs`, `Server`, `EndToEnd`, `Login`, `Answers`,
  `Outcomes`): the session table, `response.Reply`, the ASCII
  login handlers and the loop of `Server.handle`. `Machine` is a pure step function with a log. `Runs` proves what
  holds in every run of it. `Server` is the imperative code, objects updated in place, proved to send the bytes of
  that machine. `EndToEnd` joins the client's byte stream to the server's, `Login` follows whole ASCII logins through it, and
  `Answers` says which requests get a reply packet and
  `Outcomes` what each is answered with.
- **Policy** (`ArgLists`, `Config`, `SessionAuthorizer`, `SessionOrder`, `Selection`, `CommandAuthorizer`, `Stringy`, `Aaa`,
  `Loader`, `Resolution`,
  `Messages`): command
  and session authorization, and the reduction of users, groups and scopes to an ordered list of providers.

MD5, regular expressions, password checks, accounters, factories and the wording of server messages are parameters: any
function of their inputs. The peer's bytes are an input of the connection; its output is what the connection has sent.
A Go string is a sequence of bytes; an integer's width is written out where the code depends on it.

`dafny verify dfyconfig.toml` checks the whole project.

## Main results

- `EndToEnd.Conversation`: a client that shares the key reads back the replies of the machine's run over its packets, in
  order, up to the first that trips the bad-secret guess. None does, and it reads exactly all of them with no bytes left
  over, if stored handlers only got authentication packets or packets that are not obfuscated and no user has more than
  255 set-values.
- `Login.LoginSucceeds`: every configured user can log in over the wire with any password of up to 65531 ASCII bytes the
  check accepts, and reads back a Pass as the last packet. The name is ASCII too, of as many bytes in a CONTINUE and up to
  255 in the START; the Pass message has to fit a packet.
- `Answers.SessionAnsweredIff`: a session authorization request is answered exactly when the set-values of the services
  that apply can be sent. `Answers.EveryRequestAnswered` and `Answers.ConfiguredAnswering`: the conditions on a
  configuration under which every request is.
- `Aaa.PasswordIff` and `Handlers.StartAbortsIff`: exactly when a START and a CONTINUE are confused, by their bytes.
- `Server.Serve`: the loop with its mutable table, login objects and response objects sends exactly
  the bytes of the pure machine's replies.
- `Runs.NonInterference`: one session's events are those of its own packets alone. `Runs.AsciiPass`,
  `Runs.AtMostThreePackets`, `Runs.LivesAreNumbered`, `Runs.AcceptedIff`, `Runs.ReplyNumbers` and
  `Machine.LoopHeadInvariant` hold in every run.
- Every codec is sound and complete: a body decodes to v exactly when v is valid, fits its length fields and its
  encoding opens the body (for an authentication REPLY, from six bytes on).
- `SessionAuthorizer.Evaluate`: nested loops compute a closed form. `SessionOrder.OrderFreeIff`: the order of the client's
  arguments is irrelevant exactly when no attribute is ambiguous.
- `Resolution.NamesResolve`, `Resolution.ProvidersInOrder` and `Resolution.ConfiguredLogin`: for every configuration, which
  entry a name stands for, which authenticator, accounter and rules it gets, and that its user can log in.
- `Outcomes.CommandInRun` and `Outcomes.SessionInRun`: in every run, the status of an authorization reply by the first rule
  that decides, and by the services the arguments select (`Selection.ReplyIff`, `Selection.ReplyGrows`, `Selection.StatusIff`).
- `Layout` and `Guess`: the bytes of every format, of the pad and of the notice in the numbers of RFC 8907, and exactly
  what the reader makes of any bytes.

`Layout`, `Guess`, `Outcomes`, `Selection` and `Resolution` are reference readings: they state what the specifications that
the loops are proved against mean, by byte positions, numbers, argument fields and configuration entries.

## Where the code differs from its documentation or from RFC 8907

- A session may open with any odd number, not only 1 (`Runs.AcceptedIff`).
- The stored number is 16 bits wide but compared as 8 bits, so after a request numbered 255 any odd number is
  accepted, and that request gets no reply packet (`Headers.NextAccepted`, `Runs.ReplyNumbers`). `Login.AcceptedAfter255`
  gives a live session that takes number 1 after 255.
- The minimum size of an authentication REPLY is five bytes although its fixed part has six, so decoding is sound from
  six bytes on; `Authenticate.ShortReplyDecodes` and `ShortReplyGrows` say what five bytes do.
- A START and a CONTINUE are told apart only by trying both decoders. `Handlers.StartAbortsIff` says exactly which
  ASCII-login STARTs are taken as an abort, and `Aaa.PasswordIff` for exactly which CONTINUEs the password is not the user
  message but the data the bytes would carry as a START. `Handlers.StartCanAbort` and `Aaa.PasswordCanDiffer` give 517-byte
  bodies where each happens. A CONTINUE whose message or whose data is under 256 bytes is never confused.
- A stored login handler does not look at the header's type, so a packet of another type can finish an ASCII login and
  the Pass comes back under that type (`Login.OtherTypeLogsIn`, with a packet that is not obfuscated). An obfuscated one
  gets through only when its body does not trip the bad-secret guess: ordinary passwords do (`Login.OrdinaryPasswordFlagged`),
  and then the prompts are followed by the notice (`Login.FlaggedLoginStops`). `EndToEnd.TypesMatchIff` says when every reply
  has its packet's type.
- MarshalBinary wraps lengths and argument counts that do not fit. The `EncodedIff` lemmas say exactly which valid values
  are read back, and `Authorize.ArgumentsLost` gives a reply with 256 arguments that is read back without any.
- A reply that does not marshal is dropped and the client hears nothing: one set-value that renders to more than 255 bytes
  is enough (`Answers.NoPacketSent`).
- The authorizer's name-mismatch branch replies and does not return; `Loader.BuiltScopes` shows that it is not reached.
- The ENABLE entry of the authentication router names a service, which the lookup key never does, so it is not reached
  (`Handlers.RouterTests`).
- The injected scope argument does not make the client's `scope` attribute ambiguous unless the client sent that very
  argument (`SessionOrder.OrderFreeIff`).

## Model

| member | source | states |
|---|---|---|
| `ReadBuffers.ReadBuffer.Byte` | packet.go:167-175 | takes one byte, or gives 0 and takes nothing when the buffer is empty |
| `ReadBuffers.ReadBuffer.Uint16` | packet.go:179-190 | takes two bytes big-endian; a lone byte counts as the value, an empty buffer as 0 |
| `ReadBuffers.ReadBuffer.String` | packet.go:194-205 | hands out min(n, remaining) bytes and keeps the rest |
| `ReadBuffers.ChopTakes` | packet.go:194-205 | however long the announced fields are, the buffer hands out the first min(announced total, remaining) bytes in order |
| `ReadBuffers.ChopIff` | packet.go:162-205 | the length test passes with these fields exactly when the table holds their true lengths and they stand at the front of the buffer |
| `Bytes.BE16Iff` | packet.go:208-210 | two bytes read back as n exactly when they are the ones appendUint16 writes and n fits 16 bits |
| `Bytes.XorMeans` | crypt.go:81-84 | bit k of the exclusive or is set exactly when the two bits differ |
| `Bytes.XorZero` | crypt.go:81-84 | a zero in the pad leaves the byte alone |
| `Arguments.ReadThreeAndArgs` | authorize.go:167-187 | the argument-length loop, the argument loop and the total-length test of a request |
| `Arguments.ReadTwoAndArgs` | authorize.go:335-356 | the same for an authorization reply |
| `Arguments.AppendArgLens` | authorize.go:137-141 | the loop that writes one length byte for each argument |
| `Arguments.ArgLensPresent` | authorize.go:171-181 | although missing argument lengths read as zero, valid arguments imply that every length byte was there |
| `Authenticate.UnmarshalStart` | authenticate.go:142-171 | the reader gives the decoded START or the check that failed |
| `Authenticate.StartSound` | authenticate.go:142-171 | a decoded START is valid, fits and re-encodes to a prefix of its input |
| `Authenticate.StartRoundTrip` | authenticate.go:117-171 | every valid START that fits is read back from its encoding, whatever follows |
| `Authenticate.StartEncodedIff` | authenticate.go:117-171 | a valid START is read back from its own encoding exactly when its lengths fit |
| `Authenticate.StartBadSecret` | authenticate.go:163-165 | the mismatch error is given exactly when the announced lengths exceed the bytes that remain |
| `Authenticate.UnmarshalContinue` | authenticate.go:274-295 | the reader gives the decoded CONTINUE or the check that failed |
| `Authenticate.ContinueSound` | authenticate.go:274-295 | a decoded CONTINUE is valid, fits and re-encodes to a prefix of its input |
| `Authenticate.ContinueRoundTrip` | authenticate.go:257-295 | every valid CONTINUE that fits is read back from its encoding |
| `Authenticate.ContinueEncodedIff` | authenticate.go:257-295 | a valid CONTINUE is read back from its own encoding exactly when its lengths fit |
| `Authenticate.ContinueBadSecret` | authenticate.go:286-289 | the mismatch error, exactly |
| `Authenticate.StartDecodesIff` | authenticate.go:142-171 | exactly which bytes decode as a START: good fixed fields, every announced field present, text fields ASCII; and where its data stands |
| `Authenticate.ContinueDecodesIff` | authenticate.go:274-295 | exactly which bytes decode as a CONTINUE: both announced fields present, the message ASCII |
| `Authenticate.ContinueSizes` | authenticate.go:274-295 | the lengths and flags a decoded CONTINUE gets from its first five bytes |
| `Authenticate.UnmarshalReply` | authenticate.go:395-419 | the reader gives the decoded REPLY or the check that failed |
| `Authenticate.ReplySound` | authenticate.go:395-419 | from six bytes on, a decoded REPLY re-encodes to a prefix of its input |
| `Authenticate.ReplyRoundTrip` | authenticate.go:377-419 | every valid REPLY that fits is read back from its encoding |
| `Authenticate.ReplyEncodedIff` | authenticate.go:377-419 | a valid REPLY is read back from its own encoding exactly when its lengths fit |
| `Authenticate.ReplyBadSecret` | authenticate.go:410-413 | the mismatch error, exactly, five-byte inputs included |
| `Authenticate.ShortReplyDecodes` | authenticate.go:395-419 | five bytes decode exactly when the status is good and the length bytes are zero |
| `Authenticate.ShortReplyGrows` | authenticate.go:377-419 | re-encoding such a REPLY gives one byte more than it came from |
| `Authenticate.ContinueIsNotStart` | cmds/server/config/authenticators/shared.go:34-60 | a CONTINUE whose message or whose data is under 256 bytes never decodes as a START |
| `Authenticate.StartIsContinueIff` | cmds/server/handlers/authen_ascii.go:153-167 | exactly which ASCII-login STARTs also decode as a CONTINUE, and with which flags |
| `Authenticate.StartIsNotContinue` | cmds/server/handlers/authen_ascii.go:153-167 | in particular none under 517 bytes |
| `Authenticate.BothStartAndContinue` | cmds/server/config/authenticators/shared.go:34-60 | a 517-byte body that both decoders accept, with any flags up to 127 |
| `Authorize.MarshalRequest` | authorize.go:119-148 | appends build the encoding of a valid request, and refuse an invalid one |
| `Authorize.UnmarshalRequest` | authorize.go:151-192 | the reader and its argument loops give the decoded request or the check that failed |
| `Authorize.RequestSound` | authorize.go:151-192 | a decoded request is valid, fits and re-encodes to a prefix of its input |
| `Authorize.RequestRoundTrip` | authorize.go:119-192 | every valid request that fits is read back from its encoding |
| `Authorize.RequestEncodedIff` | authorize.go:119-192 | a valid request is read back from its own encoding exactly when its lengths and argument count fit |
| `Authorize.RequestBadSecret` | authorize.go:183-187 | the mismatch error, exactly, with missing argument lengths counted as zero |
| `Authorize.MarshalReply` | authorize.go:298-321 | appends build the encoding of a valid reply, and refuse an invalid one |
| `Authorize.UnmarshalReply` | authorize.go:324-360 | the reader and its argument loops give the decoded reply or the check that failed |
| `Authorize.ReplySound` | authorize.go:324-360 | a decoded reply is valid, fits and re-encodes to a prefix of its input |
| `Authorize.ReplyRoundTrip` | authorize.go:298-360 | every valid reply that fits is read back from its encoding |
| `Authorize.ReplyEncodedIff` | authorize.go:298-360 | a valid reply is read back from its own encoding exactly when its lengths and argument count fit |
| `Authorize.ArgumentsLost` | authorize.go:298-360 | a valid reply with 256 arguments that is read back as one without any |
| `Authorize.ReplyBadSecret` | authorize.go:351-355 | the mismatch error, exactly |
| `Accounting.MarshalRequest` | accounting.go:133-163 | appends build the encoding of a valid request, and refuse an invalid one |
| `Accounting.UnmarshalRequest` | accounting.go:166-208 | the reader and its argument loops give the decoded request or the check that failed |
| `Accounting.RequestSound` | accounting.go:166-208 | a decoded request is valid, fits and re-encodes to a prefix of its input |
| `Accounting.RequestRoundTrip` | accounting.go:133-208 | every valid request that fits is read back from its encoding |
| `Accounting.RequestEncodedIff` | accounting.go:133-208 | a valid request is read back from its own encoding exactly when its lengths and argument count fit |
| `Accounting.RequestBadSecret` | accounting.go:199-203 | the mismatch error, exactly |
| `Accounting.UnmarshalReply` | accounting.go:314-335 | the reader gives the decoded reply or the check that failed |
| `Accounting.ReplySound` | accounting.go:314-335 | a decoded reply is valid, fits and re-encodes to a prefix of its input |
| `Accounting.ReplyRoundTrip` | accounting.go:298-335 | every valid reply that fits is read back from its encoding |
| `Accounting.ReplyEncodedIff` | accounting.go:298-335 | a valid reply is read back from its own encoding exactly when its lengths fit |
| `Accounting.ReplyBadSecret` | accounting.go:326-329 | the mismatch error, exactly |
| `Headers.HeaderRoundTrip` | header.go:130-179 | a valid header is read back, with SingleConnect set on sequence number 2 |
| `Layout.HeaderLayout` | header.go:130-147 | the twelve bytes of a header by position, both numbers most significant byte first |
| `Layout.AsReadMeans` | header.go:150-179 | the reader sets bit 2 of the flags on number 2 and changes nothing else |
| `Layout.SendableIff` | crypt.go:177-202 | a packet is written exactly when its version, type and number are good and its body has at most 65536 bytes |
| `Layout.StartValidIff` | authenticate.go:103-115 | exactly which STARTs the validator accepts, in numbers |
| `Layout.RequestValidIff` | authorize.go:103-117 | exactly which authorization requests the validator accepts |
| `Layout.AcctRequestValidIff` | accounting.go:117-131 | exactly which accounting requests the validator accepts |
| `Layout.RepliesValidIff` | authorize.go:282-296 | exactly which CONTINUEs and replies the validators accept |
| `Layout.StartLayout` | authenticate.go:117-139 | the bytes of a START in order, lengths modulo 256 |
| `Layout.ContinueLayout` | authenticate.go:257-271 | the bytes of a CONTINUE in order |
| `Layout.AuthenReplyLayout` | authenticate.go:377-392 | the bytes of an authentication REPLY in order |
| `Layout.AuthorRequestLayout` | authorize.go:119-148 | the bytes of an authorization request in order, the argument lengths before the fields |
| `Layout.AuthorReplyLayout` | authorize.go:298-321 | the bytes of an authorization reply in order |
| `Layout.AcctRequestLayout` | accounting.go:133-163 | the bytes of an accounting request in order |
| `Layout.AcctReplyLayout` | accounting.go:298-311 | the bytes of an accounting reply in order, the status last |
| `Layout.FlattenSnoc` | authorize.go:143-145 | arguments stand one behind the other |
| `Headers.NextAccepted` | header_fields.go:183-209 | after a request numbered n, a request numbered m is accepted exactly when it is odd and at least n + 2, or n was 255 |
| `Crypt.MakePad` | crypt.go:60-78 | the pad loop terminates, and byte i of the pad is byte i mod 16 of the (i div 16)-th hash of the chain |
| `Crypt.Apply` | crypt.go:45-86 | the body array is XORed in place with the pad, left alone under the unencrypted flag, and refused for a bad version |
| `Crypt.CryptTwice` | crypt.go:45-86 | obfuscating twice restores the body |
| `Layout.SeedLayout` | crypt.go:64-69 | what is hashed: session, secret, version byte and number byte, in this order |
| `Layout.PadChain` | crypt.go:60-78 | the first sixteen bytes of the pad hash the seed, every later sixteen the seed and the sixteen before |
| `Layout.CryptedBits` | crypt.go:45-86 | every bit of an obfuscated byte is the clear bit, inverted exactly where the pad has a one; nothing changes under the unencrypted flag |
| `Transport.DetectBadSecret` | crypt.go:207-264 | flags a body exactly when every format of its type announces more bytes than remain |
| `Guess.GuessIff` | crypt.go:207-264 | a packet sent to a reader with the same key ends the connection with the notice exactly when it is obfuscated and every decoder of its type reports a mismatch; otherwise it is delivered |
| `Guess.OnesMismatch` | crypt.go:207-264 | for each of the three types, nine bytes of 0xFF do |
| `Guess.ReadIff` | crypt.go:126-151 | bytes that are not a good header with as many bytes as it announces, up to 65536, end the connection without a word; others give a packet of that size and leave the rest |
| `Transport.ValidlyEncodedNotFlagged` | crypt.go:207-264 | a body that decodes under some format of its type is never flagged |
| `Transport.Crypter.Write` | crypt.go:177-202 | appends the framed, obfuscated packet exactly when its header is valid and its body not too long; otherwise nothing is sent |
| `Transport.Crypter.Read` | crypt.go:109-174 | one packet and the remaining bytes, or the end of the connection with the bad-secret notice if one was due |
| `Transport.WrittenIsReceived` | crypt.go:109-202 | a written packet whose clear body does not trip the guess is delivered, with the bytes behind it |
| `Transport.FlaggedIsClosed` | crypt.go:160-171 | one whose body does is answered with the notice, and the reader gives up |
| `Transport.StreamReadUpTo` | crypt.go:109-202 | packets written back to back come back in order up to the first that trips the guess, and the rest of the bytes stays |
| `Transport.StreamRoundTrip` | crypt.go:109-202 | they come back as exactly that list, no bytes left over, SingleConnect set on number 2, exactly when none trips the guess |
| `Transport.EncodedStreamRoundTrip` | packet.go:98-136 | the same for every list whose bodies are validly encoded for their type |
| `Transport.NoticeIsReceived` | crypt.go:266-315 | the bad-secret notice is itself read back by the client: an error of the packet's type and session, numbered 1 |
| `Layout.NoticeSays` | crypt.go:266-315 | the notice read by the client: status 7, 0x11 or 2 by type, the text bad secret, the packet's session, number 1 |
| `Handlers.NextHandler` | cmds/server/handlers/authen_ascii.go:31-97 | which handler may follow which, on what packet and with what prompt |
| `Handlers.StartAbortsIff` | cmds/server/handlers/authen_ascii.go:31-36 | an ASCII-login START is taken as an abort exactly when its length, its message part and the low bit of its user length say so |
| `Handlers.StartCanAbort` | cmds/server/handlers/authen_ascii.go:153-167 | a 517-byte START that is |
| `Handlers.RouterTests` | cmds/server/handlers/authen.go:50-65 | the router's lookup is the ASCII test and the PAP test, and no START reaches the ENABLE entry |
| `Handlers.OneReply` | cmds/server/handlers/start.go:34-48 | in a well-named scope every packet of a known type gets exactly one Reply call, never a restart |
| `Handlers.ReplyTypes` | cmds/server/handlers/start.go:34-48 | replies have the type of the start packet; stored handlers send authentication replies whatever the packet's type |
| `Handlers.StoredPassMeans` | cmds/server/handlers/authen_ascii.go:101-148 | a stored handler sends Pass only from the password step, for a configured user whose check accepts the password: the user message, or the data the bytes would carry as a START |
| `Handlers.StoredPassIff` | cmds/server/handlers/authen_ascii.go:101-148 | a stored handler sends Pass exactly in the password step, on a CONTINUE that does not abort, with a non-empty message and an accepted password |
| `Handlers.StartPassIff` | cmds/server/handlers/authen_pap.go:29-86 | a session's first packet gets a Pass exactly as a PAP START whose data the named user's check accepts |
| `Aaa.PasswordIff` | cmds/server/config/authenticators/shared.go:52-60 | for every CONTINUE the password is its user message exactly when the bytes are not those of a START, and otherwise that START's data |
| `Aaa.PasswordIsUserMessage` | cmds/server/config/authenticators/shared.go:52-60 | so it is the message whenever the message or the data is under 256 bytes |
| `Aaa.PasswordCanDiffer` | cmds/server/config/authenticators/shared.go:52-60 | a CONTINUE with a 256-byte message whose password is taken to be empty |
| `Machine.OutcomeEntry` | server.go:166-178 | after an accepted packet the session is live exactly when a next handler was named, under the response's header |
| `Machine.OutcomeFrame` | sessions.go:64-99 | an accepted packet leaves every other session's entry untouched |
| `Machine.LoopHeadInvariant` | server.go:134-179 | in every run each live session has a handler, its own id, and an even number one above its last request; sets minus deletes is the number of live sessions |
| `Machine.ShapeInvariant` | cmds/server/handlers/authen_ascii.go:31-97 | in every run the waiting handler tells which packets the session has sent and what fixed its user name |
| `Runs.LookupExpected` | sessions.go:40-57 | the lookup gives no handler exactly when the session is unknown |
| `Runs.AtMostThreePackets` | cmds/server/handlers/authen_ascii.go:37-97 | every accepted packet lowers its session's rank, so no life accepts more than three packets |
| `Runs.LivesAreNumbered` | sessions.go:40-57 | accepted numbers of a life are odd and each at least two above the one before, unless that was 255 |
| `Runs.AcceptedIff` | sessions.go:40-57 | exactly which packet the connection accepts next |
| `Runs.ReplyNumbers` | handlers.go:31-70 | what a Reply puts on the wire: same session, type, version and flags, the even number one above, never over 254, and exactly when nothing is sent |
| `Runs.AsciiPass` | cmds/server/handlers/authen_ascii.go:101-148 | an ASCII Pass in any run: only from the password step, for a configured user fixed by the START or first CONTINUE, whose check accepts the message, or the data the bytes would carry as a START |
| `Runs.NonInterference` | server.go:134-179 | one session's events and entry are those of the run over its own accepted packets |
| `Runs.RepliesUndisturbed` | sessions.go:26-99 | when no packet is refused, one session's events in an interleaving are those of its packets alone |
| `Server.ResponseObject.Reply` | handlers.go:31-70 | the stored header and the bytes sent follow the pure Reply step, the header being stored before the write |
| `Server.ResponseObject.Next` | handlers.go:80-82 | stores the next handler |
| `Server.AuthenticateASCII.Handle` | cmds/server/handlers/authen_ascii.go:31-52 | on the mutable login object: the replies and next handler of the pure ASCII step |
| `Server.AuthenticateASCII.GetUsername` | cmds/server/handlers/authen_ascii.go:55-98 | the user name field is set at most once; replies and next handler as in the pure step |
| `Server.AuthenticateASCII.GetPassword` | cmds/server/handlers/authen_ascii.go:101-148 | one reply and no next handler, as in the pure step |
| `Server.AuthenticateASCII.ContinueStop` | cmds/server/handlers/authen_ascii.go:153-167 | detects an aborting CONTINUE |
| `Server.Start` | cmds/server/handlers/start.go:34-48 | the start handler's effect on a response object, with a fresh login object for ASCII |
| `Server.Sessions.Get` | sessions.go:40-57 | lookup on the mutable table: refused, unknown or the stored handler; an even number also deletes |
| `Server.Sessions.Set` | sessions.go:64-74 | a new entry without a handler, counted |
| `Server.Sessions.Update` | sessions.go:77-88 | overwrites a known entry only |
| `Server.Sessions.Delete` | sessions.go:91-99 | removes the entry and counts the call |
| `Server.HandlePacket` | server.go:158-178 | one turn on the heap is one step of the machine, and login objects stay unshared between sessions |
| `Server.Serve` | server.go:128-181 | the loop sends exactly the bytes of the machine's replies, until the bytes end, a packet cannot be read or one is refused |
| `EndToEnd.ServedThen` | server.go:128-181 | fed the bytes of packets that do not trip the guess, the server sends the bytes of the run's replies, and goes on with the bytes behind them if none was refused |
| `EndToEnd.ServedUpToFlagged` | crypt.go:160-171 | a packet that trips the guess is answered with the notice and ends the connection, whatever follows |
| `EndToEnd.TypesMatchIff` | server.go:158-171 | every reply of a run has its packet's type exactly when stored handlers got authentication packets only |
| `EndToEnd.ReplyNotFlagged` | crypt.go:207-264 | a reply sent under its own type is never taken for a bad secret |
| `EndToEnd.OneTypeSuffices` | server.go:158-171 | if the client keeps one type to a session, stored handlers get authentication packets only |
| `EndToEnd.Conversation` | server.go:128-181 | the client reads back the run's replies up to the first that trips the guess, and all of them when stored handlers got authentication packets or packets that are not obfuscated and no user has over 255 set-values |
| `EndToEnd.ConfiguredRepliesOnce` | cmds/server/handlers/author.go:28-57 | for every configuration each packet of a known type makes exactly one Reply call |
| `EndToEnd.ConfiguredConversation` | cmds/server/loader/loader.go:293-387 | for every configuration with at most 255 set-values a user, a client that keeps one type to a session reads back exactly the replies of the built scope's run |
| `Login.LoginPasses` | cmds/server/handlers/authen_ascii.go:31-148 | every packet of a login is accepted, and the last gets a Pass exactly when the configured user's check accepts the password |
| `Login.InterleavedLoginPasses` | server.go:134-179 | the same among the packets of other sessions, as long as none is refused |
| `Login.LoginReadsPass` | server.go:128-181 | over the wire the client reads back a Pass as its last packet, in its session and type, one number up |
| `Login.LoginSucceeds` | cmds/server/handlers/authen_ascii.go:31-148 | such logins exist, and get past the bad-secret guess, for every configured user and accepted password, with the name in the START or in a CONTINUE and the password in a packet of any type |
| `Login.OtherTypeLogsIn` | server.go:158-171 | a packet typed as authorization finishes an ASCII login, and the client reads the Pass back under an authorization header |
| `Login.FlaggedLoginStops` | crypt.go:160-171 | if the packet with the password trips the bad-secret guess, the prompts are followed by the notice and no Pass |
| `Login.OrdinaryPasswordFlagged` | crypt.go:231-246 | a password of 3 to 60 printable bytes in an obfuscated authorization packet trips it |
| `Login.AcceptedAfter255` | sessions.go:40-57 | a live session whose last request was numbered 255 takes a packet numbered 1, both packets being ones the server can receive |
| `Answers.SessionAnsweredIff` | handlers.go:50-70 | in every run a session authorization request numbered below 255 gets one packet if the set-values of every applying service can be sent and the reply is not too long, and none otherwise |
| `Answers.EveryRequestAnswered` | handlers.go:31-70 | with sendable set-values, at most 255 a user, plain wording and proper accounters, every request numbered below 255 with bodies up to 65280 bytes gets exactly one packet |
| `Answers.ConfiguredAnswering` | cmds/server/loader/loader.go:293-387 | the conditions on a configuration that give its built scopes that property |
| `Answers.NoPacketSent` | handlers.go:50-55 | a request that the server accepts and never answers, because a set-value renders to 256 bytes |
| `ArgLists.TrimIdempotent` | authorize_fields.go:102-104 | trimming white space twice is trimming once |
| `ArgLists.DedupMeans` | authorize_fields.go:208-221 | deduplication keeps the same elements, none twice, ordered by first occurrence |
| `ArgLists.Unique` | authorize_fields.go:208-221 | the loop with its map of seen strings is that deduplication |
| `ArgLists.TrimmedUnique` | authorize_fields.go:198-205 | the trimmed strings of Unique |
| `ArgLists.CollectValues` | authorize_fields.go:185-194 | the values of every argument with an attribute, in order |
| `SessionAuthorizer.ServiceMatcher` | cmds/server/config/authorizers/stringy/session.go:171-192 | holds exactly when the last value of each listed attribute equals every listed value |
| `SessionAuthorizer.ServiceMatcherModifier` | cmds/server/config/authorizers/stringy/session.go:103-166 | optional exactly when an argument naming the service asks for it or an applying set-value is optional; values collected if and only if the service applies |
| `SessionAuthorizer.Evaluate` | cmds/server/config/authorizers/stringy/session.go:79-100 | the closed form: the stable deduplication of the applying services' rendered set-values in configuration order, and PassRepl exactly when something is optional |
| `SessionAuthorizer.ReplyArgsCount` | cmds/server/config/authorizers/stringy/session.go:79-100 | a reply has at most one argument for each configured set-value |
| `SessionAuthorizer.ReplyArgsValidIff` | cmds/server/config/authorizers/stringy/session.go:79-166 | the reply's arguments are all valid exactly when every set-value of every applying service renders, trimmed, to 2 to 255 ASCII bytes |
| `Selection.TrimAscii` | authorize_fields.go:102-104 | trimming ASCII takes the white space off both ends and nothing else |
| `Selection.SplitAtFirst` | authorize_fields.go:107-114 | a trimmed argument splits at its first = or * |
| `Selection.ScopeArgument` | cmds/server/config/types.go:75-84 | the injected argument splits to scope, = and the localized scope |
| `Selection.JoinSnoc` | cmds/server/config/types.go:162-171 | values are joined with one space between them |
| `Selection.SelectedIff` | cmds/server/config/authorizers/stringy/session.go:130-166 | a service applies exactly when some argument has its trimmed name as attribute or as value and the last argument of each condition's attribute has the listed values |
| `Selection.ReplyIff` | cmds/server/config/authorizers/stringy/session.go:79-100 | a text is in the reply exactly when a selected service has it as a set-value |
| `Selection.ReplyGrows` | cmds/server/config/authorizers/stringy/session.go:89-99 | one more service adds its set-values in order if it is selected, each only if the reply does not hold it yet |
| `Selection.NamedByAttribute` | cmds/server/config/authorizers/stringy/session.go:133-135 | naming a service by an attribute brings every one of its set-values |
| `Selection.NamedByValue` | cmds/server/config/authorizers/stringy/session.go:133-135 | so does naming it by a value, as in service=ppp |
| `Selection.StatusIff` | cmds/server/config/authorizers/stringy/session.go:92-97 | the status is 2 exactly when a * other than cmd* names a service or a selected one has an optional set-value, and else 1 |
| `SessionOrder.PermutationFree` | cmds/server/config/authorizers/stringy/session.go:79-192 | permuting unambiguous arguments changes neither the reply arguments, their order nor the status |
| `SessionOrder.AmbiguityShows` | cmds/server/config/authorizers/stringy/session.go:171-176 | for ambiguous arguments some services and some order give a different reply |
| `SessionOrder.OrderFreeIff` | cmds/server/config/authorizers/stringy/session.go:79-192 | the reply is the same in every order, for all services, exactly when no attribute is ambiguous |
| `CommandAuthorizer.PermitsIff` | cmds/server/config/authorizers/stringy/command.go:74-108 | permission is the verdict of the first deciding rule |
| `CommandAuthorizer.LaterRulesIgnored` | cmds/server/config/authorizers/stringy/command.go:85-107 | rules after the deciding one never matter |
| `CommandAuthorizer.Rules.Evaluate` | cmds/server/config/authorizers/stringy/command.go:74-108 | permits exactly when the first deciding rule does, and trims the patterns of exactly the rules it reached |
| `CommandAuthorizer.EvaluateRule` | cmds/server/config/authorizers/stringy/command.go:86-106 | one rule's verdict, a bad pattern reached first denying |
| `CommandAuthorizer.PermitsSame` | cmds/server/config/types.go:198-203 | trimming rules in place changes no later decision |
| `Outcomes.VerdictMeans` | cmds/server/config/authorizers/stringy/command.go:85-106 | what one rule says, by its trimmed name, patterns and action number |
| `Outcomes.PermitsMeans` | cmds/server/config/authorizers/stringy/command.go:74-108 | permission is the first deciding rule permitting, in those terms |
| `Outcomes.CommandRequestIff` | cmds/server/config/authorizers/stringy/command.go:21-48 | a request is for a command exactly when its first service is shell and its first cmd has an = and a value |
| `Outcomes.CommandNameIs` | authorize_fields.go:173-182 | the command is the value of the first cmd |
| `Outcomes.CommandTextGrows` | authorize_fields.go:185-194 | the text matched is the values of the cmd-arg arguments in order |
| `Stringy.ReduceAll` | cmds/server/config/authorizers/stringy/stringy.go:49-54 | the user's rules, then each group's in order |
| `Stringy.Handle` | cmds/server/config/authorizers/stringy/stringy.go:57-93 | the replies to an authorization request by command or session rules |
| `Stringy.OneReplyForOwnName` | cmds/server/config/authorizers/stringy/stringy.go:57-93 | exactly one reply when the request names the authorizer's user |
| `Outcomes.OtherUsersRequest` | cmds/server/config/authorizers/stringy/stringy.go:73-86 | given another user's request the authorizer says 0x10 first and then decides all the same |
| `Outcomes.CommandOutcome` | cmds/server/config/authorizers/stringy/command.go:52-72 | one reply to a command request: 1 when the first deciding rule permits, 0x10 otherwise, no arguments |
| `Outcomes.SessionOutcome` | cmds/server/config/authorizers/stringy/session.go:50-76 | one reply to a session request: 0x10 when no selected service has a set-value, otherwise the arguments with status 1 or 2 |
| `Outcomes.CommandInRun` | cmds/server/config/authorizers/stringy/command.go:52-108 | the same for every command request in every run |
| `Outcomes.SessionInRun` | cmds/server/config/authorizers/stringy/session.go:50-100 | the same for every session request in every run |
| `Outcomes.OtherAuthorization` | cmds/server/handlers/author.go:28-57 | 0x11 to a body that does not decode, 0x10 for an unknown user |
| `Outcomes.AccountingOutcome` | cmds/server/handlers/acct.go:28-57 | 2 to a body that does not decode, an unknown user or one without accounter, and else what the accounter says to the packet |
| `Outcomes.PasswordStepOutcome` | cmds/server/handlers/authen_ascii.go:101-148 | every answer of the password step with its status, and that it ends the session |
| `Outcomes.UsernameStepOutcome` | cmds/server/handlers/authen_ascii.go:55-98 | every answer of the user-name step with its status and next handler, the password prompt with the no-echo flag |
| `Outcomes.StartOutcome` | cmds/server/handlers/authen.go:37-77 | every answer to the first packet of an authentication session |
| `Outcomes.RestartNumber` | handlers.go:31-44 | a restart reply starts the numbers over at 1 |
| `Loader.ReduceFromGroups` | cmds/server/loader/loader.go:394-425 | the user's own authenticator and accounter, or else those of the first group that has one |
| `Loader.FirstAuthenticatorIs` | cmds/server/loader/loader.go:407-414 | the group's authenticator is the first in group order, and absent exactly when no group has one |
| `Loader.FirstAccounterIs` | cmds/server/loader/loader.go:415-421 | the same for accounters |
| `Loader.BuildUser` | cmds/server/loader/loader.go:308-355 | one user's handlers, denying by default, or nothing when the authenticator factory fails |
| `Loader.BuildUsers` | cmds/server/loader/loader.go:299-357 | a name resolves to the last listed user with that name and scope whose factory did not fail, and to nothing else |
| `Loader.Build` | cmds/server/loader/loader.go:293-387 | the providers of the served secret configurations, in order |
| `Loader.Get` | cmds/server/loader/loader.go:207-219 | the first provider that answers, or none if none does |
| `Loader.BuiltScopes` | cmds/server/loader/loader.go:293-387 | in every built provider, for every configuration, last-listed-wins resolution and authorizers that carry the name they are found by |
| `Resolution.RulesFollow` | cmds/server/config/authorizers/stringy/stringy.go:49-54 | rules of groups follow the user's own, group by group |
| `Resolution.AuthConfigIs` | cmds/server/loader/loader.go:394-425 | the authenticator configured for a user is its own, or that of the first group that has one, or none |
| `Resolution.AcctConfigIs` | cmds/server/loader/loader.go:394-425 | the same for the accounter |
| `Resolution.LandingIff` | cmds/server/loader/loader.go:299-357 | an entry gets handlers exactly when it has the scope and its factory does not fail, and they are what the factories give, or the defaults, with its rules |
| `Resolution.NamesResolve` | cmds/server/loader/loader.go:293-387 | in every built provider a name has the handlers of the last entry of that name that lands |
| `Resolution.KnownStandsFor` | cmds/server/loader/loader.go:293-387 | every known name has such an entry |
| `Resolution.ProvidersInOrder` | cmds/server/loader/loader.go:295-386 | secret configurations are taken in order, and each gives a provider exactly when some entry lands, its types are registered and its factory gives one |
| `Resolution.ConfiguredLogin` | cmds/server/loader/loader.go:326-345 | a user of the configuration whose configured check accepts the password logs in to the built scope over the wire |

## Left out

- Sockets, deadlines, contexts, `Serve`'s accept loop and goroutines: a connection is its byte stream, handled in order.
- Metrics, timers, logging, `Fields`, `ResponseLogger` and extra response writers: they only observe.
- The wording of server messages: any function of the kind of message, so no property depends on the text.
- The contents of a receiver after UnmarshalBinary has failed: callers do not use them.
- MarshalBinary of the four formats without argument lists, straight-line appends, is the function `Marshal`; the three with loops are methods.
- PROXY headers, and packets with a nil header or body.
- Transport.Crypter.Write: a body of 4 GiB or more, where the 32-bit length wraps and Go would index past the pad, is refused as too long.
- A second failure of the connection itself: writing to the peer always succeeds.
- Authenticators beyond a password check that makes one reply; the keychain path of the bcrypt authenticator replies twice on a secret error.
- Accounters: any function from the request packet to one reply.
- An authorizer provider other than stringy, and handler types other than start (the span handler).
- Slices shared between users or scopes: a user's rule lists are values, except for the in-place trimming of command patterns.
- Prefix filters, file loaders, DNS and CIDR lookup, the exporter, command-line clients and the password generator.
- Loader.Get: how a provider matches a remote address is any function of the provider and the address.
