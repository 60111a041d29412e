# Verified model of the Hysteria 2 client core

This project models the deterministic core of the client and proves what it promises, with
Dafny 4.11. `dafny verify dfyconfig.toml` checks everything.

| file | models |
|---|---|
| `Bytes.dfy`, `Ascii.dfy`, `ProtocolLimits.dfy`, `Utf8.dfy` | machine integers, big-endian numerals, delimiters, size limits, UTF-8 validity, lossy decoding, trimming |
| `Varint.dfy` | QUIC variable-length integers (section 16 of RFC 9000) |
| `UdpCodec.dfy` | the UDP message wire format |
| `Frag.dfy`, `Defrag.dfy` | splitting a message into fragments, and the defragger |
| `UdpRelay.dfy`, `UdpSend.dfy` | the path from `send` over a lossy, reordering, duplicating network to the reader |
| `UdpSessions.dfy` | the session manager: table, bounded queues, readers, shutdown |
| `UdpEndToEnd.dfy` | the two halves joined: from the datagrams of one `send` to what a session's reader returns |
| `TcpResponse.dfy` | the TCP response parser, the growing-buffer reader, the proxied connection |
| `Percent.dfy`, `ShareLink.dfy` | percent- and form-encoding, and `hysteria2://` links |
| `Unicode.dfy`, `LinkGrammar.dfy`, `PortGrammar.dfy` | what text, links and port specs mean, independently of how they are parsed |
| `Store.dfy`, `Model.dfy` | the profile store over failing backends, and the app model actor |
| `Brutal.dfy` | the Brutal congestion controller |
| `PortUnion.dfy` | port specs, their normal form, and the port dialed first |
| `UdpNat.dfy` | the per-source UDP NAT and the counters of the loop that drives it |

Code that computes values is written as functions. Code that changes state is written as classes and
loops, each method proved against a function of the old state; what the source promises is then
proved about every sequence of those steps. Three results are worth reading first:
`UdpEndToEnd.SplitReachesReader` (a payload cut into fragments is returned by its session's reader
exactly once, whatever the network does) with `UdpSend.DeliveredIff` (exactly which payloads get
through), `ShareLink.RoundTripIff` (exactly which profiles a link can carry), and
`UdpSessions.CloseIsIsolatedIff` (exactly when closing one session is invisible to every other, in
every run that follows).

Modelling decisions:

- Text is a sequence of bytes. Validity as UTF-8 is a predicate (`Utf8.Valid`); it is demanded only
  where the source's types demand it.
- Counters that are one byte or 32 bits wide in the source wrap in the model: `count` in the
  defragger, `frag_id` and `frag_count` when splitting, session ids. This is the release build; a debug
  build stops instead at the additions that overflow.
- Arrival order, chunk boundaries, backend failures, ids and the clock are arbitrary choices inside
  methods or plain inputs. A failed secure-store write may or may not have taken effect. Failures are
  counted in a ghost field, so that every reported error is tied to one.
- Floating point is `real`, time is a natural number.
- A property that fails for some inputs is stated as an equivalence with its exact condition:
  fragment numbering (`Frag.NumberedIff`, with `Frag.SixteenIsTooFew` as the failing input), payloads
  that are lost although every datagram arrives (`UdpSend.DeliveredIff`, with `UdpSend.LostAtSixteen`),
  session ids past 2^32 sessions (`UdpSessions.IdsRepeatIff`), closing a session whose id was taken over
  (`UdpSessions.CloseIsIsolatedIff`, with the run of `UdpSessions.CloseAfterWrap`), messages a session
  drops (`UdpEndToEnd.NothingLostIff`, with the run of `UdpEndToEnd.FullQueueDrops`), profiles a link
  cannot carry (`ShareLink.RoundTripIff`, with `ShareLink.FastOpenIsLost`), NAT sessions that are swept
  (`UdpNat.KeepsSessionIff`, with `UdpNat.LateSourceLosesSession`).
- The source's comments say a payload needing more than 255 fragments cannot occur. The model follows
  the code: with 16 payload bytes per datagram it can.
- Functions that specify a step or a format are tied down by laws that do not mention them: texts and
  numbers against their spellings (`Unicode`, `LinkGrammar`, `PortGrammar`, `Varint.DecodeIff`), steps
  against what a user sees (`Model.SelectThenConnect`, `UdpSessions.TransportErrorCloses`), arithmetic
  against its defining equations (`Brutal.RateOfMeans`, `Brutal.WindowMeans`).
- Every lemma switches automatic induction off, so each induction that is used is written out.

## Model

| member | source | states |
|---|---|---|
| `Varint.LenIsLeast` | crates/hysteria/src/internal/protocol/varint.rs:17-29 | `len` is the least of the widths 1, 2, 4, 8 whose capacity admits the value |
| `Varint.RoundTrip` | crates/hysteria/src/internal/protocol/varint.rs:38-81 | for every value below 2^62 and any trailing bytes, reading the encoding gives the value and uses exactly `len` bytes |
| `Varint.PrefixFree` | crates/hysteria/src/internal/protocol/varint.rs:38-65 | encodings followed by anything split in only one way |
| `Varint.DecodeSound` | crates/hysteria/src/internal/protocol/varint.rs:70-81 | every value read is below 2^62, re-encodes in no more bytes than were used, and is canonical exactly when it used the fewest |
| `Varint.DecodeExtends` | crates/hysteria/src/internal/protocol/varint.rs:70-81 | more input never changes a value that was already readable |
| `Varint.DecodeIff` | crates/hysteria/src/internal/protocol/varint.rs:70-81 | a value is read exactly when the bytes spell it in 1, 2, 4 or 8 bytes, shortest or not |
| `Varint.Put` | crates/hysteria/src/internal/protocol/varint.rs:38-65 | the shifted bytes written in place are the big-endian digits with the width tag, and nothing else in the buffer changes |
| `Varint.Read` | crates/hysteria/src/internal/protocol/varint.rs:70-81 | the byte-by-byte loop agrees with the reference decoder, end of input included |
| `UdpCodec.Serialize` | crates/hysteria/src/internal/protocol/proxy.rs:139-154 | writes exactly `size()` bytes of the wire format and leaves the rest of the buffer alone, or nothing when the buffer is too small |
| `UdpCodec.RoundTrip` | crates/hysteria/src/internal/protocol/proxy.rs:139-197 | a message's bytes parse, and parse back to it, exactly when its address has 1 to 2048 bytes of text and its data is not empty |
| `UdpCodec.ParseVerdict` | crates/hysteria/src/internal/protocol/proxy.rs:156-197 | every datagram with a whole header, however its address length is spelled, is accepted with its parts or refused for the reason named |
| `UdpCodec.ShortDatagram` | crates/hysteria/src/internal/protocol/proxy.rs:156-197 | every other datagram is too short |
| `UdpCodec.Reencode` | crates/hysteria/src/internal/protocol/proxy.rs:156-197 | every accepted datagram re-serializes to no more bytes and to the same message, and to the same bytes exactly when its address length was minimal |
| `Frag.FragUdpMessage` | crates/hysteria/src/internal/frag.rs:16-47 | the cutting loop yields the message itself, nothing, or the greedy cut with wrapping counters |
| `Frag.LosslessAndFitting` | crates/hysteria/src/internal/frag.rs:16-47 | fragments carry the payload in order, each fits the datagram, every other field is unchanged |
| `Frag.Fewest` | crates/hysteria/src/internal/frag.rs:32-46 | no cut into pieces that fit has fewer pieces |
| `Frag.NumberedIff` | crates/hysteria/src/internal/frag.rs:26-45 | ids run 0 to n-1 and the count is n exactly when the payload is at most 255 pieces' worth |
| `Frag.ScratchBufferBound` | crates/hysteria/src/client/transport.rs:548-566 | a message that fits the 4096-byte scratch buffer is numbered right once 17 payload bytes fit a datagram |
| `Frag.SixteenIsTooFew` | crates/hysteria/src/internal/frag.rs:26-32 | a concrete message for which 16 are not enough |
| `Defrag.Defragger.Feed` | crates/hysteria/src/internal/frag.rs:65-100 | one call is one transition of the defragger's state |
| `Defrag.Assemble` | crates/hysteria/src/internal/frag.rs:87-90 | the loop collects every payload present in slot order |
| `Defrag.StartsRun` | crates/hysteria/src/internal/frag.rs:74-80 | from any state not on its packet, a fragment starts a fresh run and yields nothing |
| `Defrag.Collects` | crates/hysteria/src/internal/frag.rs:81-97 | while collecting, a fragment fills its slot or is a duplicate, and the last one missing yields the assembled message |
| `Defrag.StaysDone` | crates/hysteria/src/internal/frag.rs:81-98 | after completion, replays of the same packet never yield anything, also when the byte counter wraps |
| `Defrag.Refines` | crates/hysteria/src/internal/frag.rs:65-100 | for every history, the output is the concatenation by id of the first arrivals of the current run, at the message that completes it, and nothing otherwise |
| `Defrag.RefinesFrom` | crates/hysteria/src/internal/frag.rs:65-100 | the same from any state that is not on one of the packets to come |
| `Defrag.NonFragmentsAreInvisible` | crates/hysteria/src/internal/frag.rs:66-72 | unfragmented messages pass through and badly numbered ones vanish, without touching the state |
| `Defrag.OncePerRun` | crates/hysteria/src/internal/frag.rs:49-53 | between two reassembled outputs a fragment of another packet must have arrived |
| `UdpRelay.FragmentOutcome` | crates/hysteria/src/internal/frag.rs:65-100 | among any traffic, a fragment of a split message yields the whole payload if it was the last one missing, else nothing |
| `UdpRelay.Arrival` | crates/hysteria/src/client/transport.rs:539-547 | the same over datagrams, with unparsable ones skipped |
| `UdpRelay.DeliveredExactlyOnce` | crates/hysteria/src/internal/frag.rs:16-101 | traffic that contains every datagram of a message, in any order, duplicated and mixed with noise, returns that message exactly once |
| `UdpSend.SendMessage` | crates/hysteria/src/client/transport.rs:548-566 | too large for the scratch buffer is a silent drop; otherwise exactly the serialized message is handed to the path, and the path's answer, its limit included, is the answer |
| `UdpSend.UdpConn.Send` | crates/hysteria/src/client/udp.rs:131-152 | on success an acceptable payload is on the wire: one datagram that parses to this session, address and payload, or parts under one packet id that add up to it; the attempts stop at the first the path does not take, and the answer is the path's to the last one tried |
| `UdpSend.DeliveredIff` | crates/hysteria/src/client/udp.rs:111-152 | once everything `send` put on the wire has arrived, in any order and company, the peer's reader was handed the payload if and only if it fits the scratch buffer, is acceptable, and is at most 255 pieces long |
| `UdpSend.UndeliverableNeverReturned` | crates/hysteria/src/internal/frag.rs:26-45 | any other payload comes back at no arrival of its datagrams, in any traffic |
| `UdpSend.LostAtSixteen` | crates/hysteria/src/client/udp.rs:131-152 | a concrete acceptable payload, within the scratch buffer, that is lost although every datagram arrives |
| `UdpSend.WholeDatagram` | crates/hysteria/src/client/udp.rs:133-141 | a payload that fits one datagram is returned by every arrival of it |
| `UdpSend.SendThenReceive` | crates/hysteria/src/client/udp.rs:111-152 | from `send` to `receive`: payload and address come back exactly once, at the arrival that completes the set of datagrams |
| `UdpSessions.EveryRun` | crates/hysteria/src/client/udp.rs:111-274 | after every interleaving: ids count up, the table is consistent, a closed manager has an empty table, queues hold at most 1024, each session received an in-order subsequence of its messages and returned what its defragger yields on them |
| `UdpSessions.TableStep` | crates/hysteria/src/client/udp.rs:216-263 | every step keeps the table consistent, and closed stays closed |
| `UdpSessions.IdsRepeatIff` | crates/hysteria/src/client/udp.rs:223-226 | two sessions share an id exactly when created a multiple of 2^32 apart |
| `UdpSessions.DistinctWithinIdSpace` | crates/hysteria/src/client/udp.rs:223-226 | ids are pairwise distinct exactly up to 2^32 sessions |
| `UdpSessions.SessionReturnsMessage` | crates/hysteria/src/client/udp.rs:111-123 | in every run, whatever was taken before and after: a reader that takes all fragments of a message returns the unfragmented messages in order and the reassembled one exactly once, where its last fragment came in |
| `UdpSessions.CloseIsIsolatedIff` | crates/hysteria/src/client/udp.rs:156-158 | closing a session leaves every other session the same in every run that follows, exactly when no later session has taken over its id |
| `UdpSessions.CloseIsIsolated` | crates/hysteria/src/client/udp.rs:156-158 | so it does whenever at most 2^32 sessions have been created by then |
| `UdpSessions.CloseAfterWrap` | crates/hysteria/src/client/udp.rs:156-158 | a run that breaks it: after 2^32 + 1 sessions, closing the first cuts off the last |
| `UdpSessions.ClosedDrains` | crates/hysteria/src/client/udp.rs:258-263 | once the transport failed, every session keeps its messages, drains one per read, then sees end of file, whatever else happens |
| `UdpSessions.TransportErrorCloses` | crates/hysteria/src/client/udp.rs:254-263 | in every run: a transport error closes the manager and empties its table for good, and every session hands out what it had and then sees end of file |
| `UdpSessions.ReadsConserve` | crates/hysteria/src/client/udp.rs:111-123 | reads only move messages from the session's own queue to its reader |
| `UdpSessions.UdpSessionManager.New` | crates/hysteria/src/client/udp.rs:218-237 | refused once closed; otherwise a live session with the next id |
| `UdpSessions.UdpSessionManager.CloseConn` | crates/hysteria/src/client/udp.rs:156-158 | removes the sender; closing again changes nothing |
| `UdpSessions.UdpSessionManager.Deliver` | crates/hysteria/src/client/udp.rs:267-274 | queued for its session, or dropped when unknown or full |
| `UdpSessions.UdpSessionManager.Pump` | crates/hysteria/src/client/udp.rs:254-263 | delivers every message until the transport fails, then leaves the manager closed with an empty table |
| `UdpSessions.UdpSessionManager.Receive` | crates/hysteria/src/client/udp.rs:111-123 | takes messages until one completes a datagram, blocks only on a live empty queue, and reports end of file only on a dead one |
| `UdpEndToEnd.NothingLostIff` | crates/hysteria/src/client/udp.rs:267-274 | in every run, a session has received every message addressed to it, in order, exactly when it was live and had room each time one came in |
| `UdpEndToEnd.FullQueueDrops` | crates/hysteria/src/client/udp.rs:267-274 | a run that loses one: 1025 messages before the reader looks |
| `UdpEndToEnd.SplitReachesReader` | crates/hysteria/src/client/udp.rs:111-152 | from the datagrams of one `send`, mixed with other sessions' and noise, through parsing, routing and queueing: the session's reader returns payload and address exactly once, at the last missing fragment |
| `UdpEndToEnd.WholeReachesReader` | crates/hysteria/src/client/udp.rs:111-152 | a payload that fits one datagram: what the reader returns from then on holds one copy per arrival of it, and no more unless fragments under its packet id add up to it |
| `TcpResponse.SpelledParses` | crates/hysteria/src/internal/protocol/proxy.rs:70-103 | a response is read back however its lengths are spelled and whatever follows, or refused for exactly the limit it breaks |
| `TcpResponse.MessageLengthParses` | crates/hysteria/src/internal/protocol/proxy.rs:70-85 | a message length over the limit is refused at once; otherwise the message is needed first |
| `TcpResponse.PaddingLengthParses` | crates/hysteria/src/internal/protocol/proxy.rs:85-103 | the same for the padding, before the message's encoding is looked at |
| `TcpResponse.EncodedParses` | crates/hysteria/src/internal/protocol/proxy.rs:63-103 | in particular every response in the shortest spelling |
| `TcpResponse.PrefixMonotone` | crates/hysteria/src/internal/protocol/proxy.rs:70-103 | a verdict other than "need more bytes" is final |
| `TcpResponse.NeverEofBeyondMaximum` | crates/hysteria/src/internal/protocol/proxy.rs:20-103 | the parser never asks for more than 6161 bytes |
| `TcpResponse.EofBoundIsTight` | crates/hysteria/src/internal/protocol/proxy.rs:20-103 | and on some 6160 bytes it does ask for one more |
| `TcpResponse.ReadResponse` | crates/hysteria/src/client/transport.rs:426-446 | for every chunking, the result is that of one parse of the whole stream, the bytes left over are the stream after the header, and at most 6416 bytes are taken |
| `TcpResponse.TcpConn.Read` | crates/hysteria/src/client/transport.rs:474-511 | each read delivers the next bytes of what remains, none lost or repeated; nothing at a clean end, an error where the stream broke off; a deferred refusal is reported by the first read, and reading on panics |
| `TcpResponse.TcpConn.ReadAll` | crates/hysteria/src/client/transport.rs:474-511 | any sequence of reads delivers a prefix of what remained, at least a byte per read with room until nothing remains; only a stream that broke off fails, after everything was delivered |
| `TcpResponse.Open` | crates/hysteria/src/client/transport.rs:159-206 | with and without fast open, an accepted connection goes on to deliver exactly the stream after the header |
| `TcpResponse.OpenAndRead` | crates/hysteria/src/client/transport.rs:159-206 | opening and reading, either way, delivers exactly the stream after the header once there were reads enough, and a prefix of it before |
| `Percent.DecodeEncode` | crates/config/src/lib.rs:168-186 | percent-decoding undoes percent-encoding in front of anything |
| `Percent.EscapeDecodes` | crates/config/src/lib.rs:168-174 | an escape in either case is its byte |
| `Percent.OthersDecode` | crates/config/src/lib.rs:168-174 | everything else is itself, a stray percent sign included |
| `Percent.EncodesAs` | crates/config/src/lib.rs:27-54 | which characters each encoder leaves alone, and that the rest become upper-case escapes |
| `Percent.SerializedParses` | crates/config/src/lib.rs:121-129 | every list of text pairs is read back from its form encoding |
| `Percent.ParseQuery` | crates/config/src/lib.rs:190-196 | the map holds the first value of every key and no other keys |
| `Percent.GetFirst` | crates/config/src/lib.rs:188-196 | the value of a repeated key is the first one |
| `Percent.SegmentMeans` | crates/config/src/lib.rs:190-196 | a segment's key ends at its first equals sign, and without one the value is empty |
| `Percent.FormPlus` | crates/config/src/lib.rs:190-196 | in a query a plus is a space and an escaped plus is a plus |
| `Percent.GetIsText` | crates/config/src/lib.rs:190-196 | whatever a query yields is well-formed text |
| `Unicode.ValidIff` | crates/config/src/lib.rs:168-174 | bytes are text exactly when they are the encodings of scalar values |
| `Unicode.LossyReplaces` | crates/config/src/lib.rs:190-196 | where no character starts, one replacement character stands for the maximal ill-formed subpart |
| `Unicode.LossyKeeps` | crates/config/src/lib.rs:190-196 | every character is kept |
| `Unicode.TrimMeans` | crates/config/src/lib.rs:142-145 | trimming takes white space off both ends, all of it and nothing else |
| `Unicode.WhiteSpaceIff` | crates/config/src/lib.rs:142-145 | white space is exactly the characters with the White_Space property |
| `LinkGrammar.SchemeIff` | crates/config/src/lib.rs:60-64 | a link is accepted under `hysteria2` and `hy2` in any case, and its rest is all that follows `://` |
| `LinkGrammar.OtherSchemesRefused` | crates/config/src/lib.rs:60-64 | any other text is no link and has no name |
| `LinkGrammar.EveryLinkIsCut` | crates/config/src/lib.rs:65-80 | every rest of a link is made of a credential before its last `@`, a host, a path, a query and a fragment |
| `LinkGrammar.LinkMeans` | crates/config/src/lib.rs:59-101 | every link, printed or not, parses to what its parts stand for, or to nothing without a host or with a credential that is not text |
| `LinkGrammar.LinkNameMeans` | crates/config/src/lib.rs:148-165 | its name is its decoded fragment, if there is one and it is text |
| `LinkGrammar.PrintsAsShown` | crates/config/src/lib.rs:118-146 | a profile with nothing to escape prints letter by letter as one would write it, keys in alphabetical order |
| `LinkGrammar.CredentialPrints` | crates/config/src/lib.rs:176-186 | the first colon of a credential is kept and its halves are escaped on their own |
| `LinkGrammar.BlankNamePrints` | crates/config/src/lib.rs:142-145 | a name of nothing but white space is not printed at all |
| `ShareLink.ParsedIsLinkable` | crates/config/src/lib.rs:59-101 | whatever a link parses to has a non-empty server without delimiters, text in all decoded parts and no empty obfs type |
| `ShareLink.RoundTripIff` | crates/config/src/lib.rs:59-146 | for every profile and name: printing then parsing gives the profile back exactly when a link can carry it |
| `ShareLink.FastOpenIsLost` | crates/config/src/lib.rs:103-146 | a profile with fast open comes back without it, under any name |
| `ShareLink.NormalForm` | crates/config/src/lib.rs:59-146 | for every accepted link and every name: printing what it parsed to parses to the same profile |
| `ShareLink.NameReadBack` | crates/config/src/lib.rs:118-165 | the name comes back trimmed, and a blank one leaves none |
| `ShareLink.UserinfoReadBack` | crates/config/src/lib.rs:168-186 | encoding each half around the first colon decodes to the credential |
| `ShareLink.ToUriWithName` | crates/config/src/lib.rs:118-146 | the serializer grown pair by pair prints the specified link |
| `Store.Store.Add` | crates/store/src/lib.rs:179-210 | one entry appended with its link, the existing one returned, or nothing changed; every error has a failure behind it; every durable state on the way is recoverable and holds the old or the new list with its links |
| `Store.Store.Delete` | crates/store/src/lib.rs:220-235 | exactly that entry gone, and its secret too when no backend failed, or nothing changed after a failed write, with the same crash guarantee |
| `Store.Store.Rename` | crates/store/src/lib.rs:248-266 | exactly that name changed, host fallback included, or nothing changed after a failed write or read, with the same crash guarantee |
| `Store.Store.FindMatching` | crates/store/src/lib.rs:287-292 | a match holds that link; with readable secrets, no match means nobody does |
| `Store.Store.Load` | crates/store/src/lib.rs:273-282 | the stored link, none, or a failure that a readable store never reports |
| `Store.SetUnlisted` | crates/store/src/lib.rs:191-195 | writing the secret of an unlisted id is invisible and recoverable |
| `Store.RemoveSound` | crates/store/src/lib.rs:226-235 | dropping an entry keeps the rest in order with their links, and its id is gone |
| `Store.Open` | crates/store/src/lib.rs:145-163 | a process that starts over sees the document's list exactly when the document can be read, parses and is not newer; otherwise the error says which |
| `Store.Reopen` | crates/store/src/lib.rs:145-163 | after any call, reopening succeeds exactly when the document can be read, and gives the list the closed store showed, links included |
| `Store.Restart` | crates/store/src/lib.rs:145-163 | a process that stopped between any two writes leaves a state that, if it can be read, opens as a sound store with that state's list and links |
| `Store.HostOfServer` | crates/store/src/lib.rs:342-345 | the fallback name is the host before the port spec |
| `Store.HostOfBracketed` | crates/store/src/lib.rs:335-341 | of a bracketed literal the fallback name is what the brackets enclose |
| `Store.NameForMeans` | crates/store/src/lib.rs:185-188 | a given name is kept but for the white space around it; a blank one, or none, is replaced by the host |
| `Model.Actor.AddFromUri` | crates/model/src/lib.rs:307-322 | a link that parses ends up stored and selected or only sets the error; one already stored changes no list |
| `Model.Actor.RenameTo` | crates/model/src/lib.rs:323-328 | a listed profile gets the trimmed name or its host, or the error is shown after a failure; ids and links stay as they were |
| `Model.Actor.DeleteById` | crates/model/src/lib.rs:329-343 | the profile is gone and deselected, or a failed delete leaves list and selection alone |
| `Model.Actor.SelectOrTunnel` | crates/model/src/lib.rs:344-358 | only listed profiles are selected; connecting starts the selected one and changes neither list, selection nor connection status |
| `Model.Actor.ApplyIntent` | crates/model/src/lib.rs:300-360 | every intent has the effect the state machine names, or a failure is counted and shown |
| `Model.Actor.Handle` | crates/model/src/lib.rs:277-296 | one command is one transition of the state machine |
| `Model.Actor.Run` | crates/model/src/lib.rs:265-297 | any commands are a run of the state machine, at whose end: list equals the store's, selection listed, connection is the last OS status, tunnel calls are the connects and disconnects, every start named a listed profile, one snapshot plus one per intent or status, stats forwarded in order |
| `Model.TunnelCalls` | crates/model/src/lib.rs:348-358 | over every run: one start per connect with a selection, naming it, one stop per disconnect, in order and nothing else |
| `Model.SelectThenConnect` | crates/model/src/lib.rs:344-356 | over every run: selecting a listed profile selects it, and a connect right after that starts it and clears the error |
| `Model.SelectionMoves` | crates/model/src/lib.rs:307-347 | the selection changes by selecting, by adding and by deleting the selected profile, and not otherwise |
| `Model.SavedMoves` | crates/model/src/lib.rs:308-321 | an add without a failure leaves the link stored under its name, selected, and no error; with one it only shows it |
| `Model.RenameMoves` | crates/model/src/lib.rs:323-328 | a rename without a failure changes that name and nothing else |
| `Model.DeleteMoves` | crates/model/src/lib.rs:329-343 | a delete without a failure takes exactly that profile off the list |
| `Model.ErrorMoves` | crates/model/src/lib.rs:287-360 | which error is shown after each command: the OS's last, the intent's own, or none any more |
| `Model.EverythingIsShown` | crates/model/src/lib.rs:277-296 | every intent and OS status ends in a snapshot of list, selection, status and error |
| `Model.Outputs` | crates/model/src/lib.rs:265-297 | over every run: status, snapshots and stats follow from the commands alone |
| `Model.ErrorsHaveCauses` | crates/model/src/lib.rs:307-343 | over every run on readable secrets: while no backend fails, no state shows that a save, rename or delete failed |
| `Model.LinksStay` | crates/model/src/lib.rs:300-360 | over every run: a stored profile stays listed with its link until it is itself deleted |
| `Model.Actor.Export` | crates/model/src/lib.rs:363-372 | the stored link with the name it is listed under, none for an unknown id, an error only on unreadable secrets |
| `Model.Actor.ShareThenImport` | crates/model/src/lib.rs:300-372 | importing the very link that was exported, name included, leaves the list unchanged and selects that profile |
| `Brutal.RingInvariant` | crates/hysteria/src/internal/congestion/brutal.rs:90-104 | every slot holds everything recorded at its second, and nothing later fell into it |
| `Brutal.RingIsSlidingWindow` | crates/hysteria/src/internal/congestion/brutal.rs:90-122 | the totals the rate is drawn from are the sums over all samples of the last five seconds, although the filter admits a sixth |
| `Brutal.BrutalSender.AddSamples` | crates/hysteria/src/internal/congestion/brutal.rs:90-105 | ring and rate stay those of the whole history |
| `Brutal.BrutalSender.UpdateAckRate` | crates/hysteria/src/internal/congestion/brutal.rs:112-129 | the loop's rate is that of the ring's totals |
| `Brutal.RateOfMeans` | crates/hysteria/src/internal/congestion/brutal.rs:112-129 | the rate is 1 on fewer than 50 samples of the last five seconds, else the acknowledged share, and 4/5 below that |
| `Brutal.WindowMeans` | crates/hysteria/src/internal/congestion/brutal.rs:138-145 | the window is twice the bandwidth-delay product over the rate, down to whole bytes, or one datagram if that is more |
| `Brutal.BrutalSender.CongestionWindow` | crates/hysteria/src/internal/congestion/brutal.rs:138-145 | in every reachable state: the initial window before an RTT, then between the loss-free window, attained without losses or on few samples, and five quarters of it, attained from a fifth of losses on |
| `Brutal.BrutalSender.OnAck` | crates/hysteria/src/internal/congestion/brutal.rs:149-160 | one acknowledged packet and the new RTT |
| `Brutal.BrutalSender.OnCongestionEvent` | crates/hysteria/src/internal/congestion/brutal.rs:162-175 | lost bytes count as packets rounded up; none leaves the history alone |
| `Brutal.BrutalSender.LossNeverShrinksWindow` | crates/hysteria/src/internal/congestion/brutal.rs:131-145 | loss recorded in the second sampled last, or as the very first sample, never shrinks the window |
| `Brutal.LargerLossWidensWindow` | crates/hysteria/src/internal/congestion/brutal.rs:112-145 | after any history, had the losses of the latest second been larger, the window would not be smaller |
| `Brutal.MoreLossLowerRate` | crates/hysteria/src/internal/congestion/brutal.rs:123-128 | more losses never raise the rate |
| `PortUnion.NormalizeCorrect` | crates/hysteria/src/internal/portunion.rs:60-75 | the result is sorted with a gap between neighbours and denotes the same ports |
| `PortUnion.CanonicalUnique` | crates/hysteria/src/internal/portunion.rs:15-17 | a set of ports has one such form |
| `PortUnion.NormalForm` | crates/hysteria/src/internal/portunion.rs:60-75 | two lists normalize alike exactly when they denote the same ports; normalizing again changes nothing |
| `PortUnion.NormalizeRanges` | crates/hysteria/src/internal/portunion.rs:60-75 | the in-place merge loop computes that form |
| `PortUnion.Ports` | crates/hysteria/src/internal/portunion.rs:80-95 | exactly the ports `contains` accepts, strictly increasing for a normalized union |
| `PortUnion.ParsePortUnion` | crates/hysteria/src/internal/portunion.rs:22-57 | all parts or nothing, wildcards included, and the result is canonical |
| `PortGrammar.PortIff` | crates/hysteria/src/internal/portunion.rs:36-49 | a port is read from exactly its spellings: its numeral, perhaps behind zeros, perhaps behind a plus |
| `PortGrammar.PartMeans` | crates/hysteria/src/internal/portunion.rs:32-53 | a part denotes the range between its ends, in whichever order they are written |
| `PortGrammar.PartRefused` | crates/hysteria/src/internal/portunion.rs:32-53 | a part that spells no port and no range is refused |
| `PortGrammar.ListMeans` | crates/hysteria/src/internal/portunion.rs:22-57 | a list denotes the ports of all its parts and no others |
| `PortGrammar.ListRefused` | crates/hysteria/src/internal/portunion.rs:22-57 | a list with a bad part is refused as a whole |
| `PortGrammar.WildcardMeans` | crates/hysteria/src/internal/portunion.rs:23-29 | `all` and `*` denote every port |
| `PortUnion.PrimaryPortInUnion` | crates/hysteria/src/client/config.rs:147-155 | whatever spec turns hopping on, the port dialed first parses and is in the union |
| `PortUnion.DialedPortIsHopPort` | crates/hysteria/src/client/config.rs:145-155 | the same for every server address, and a valid union never fails on the port |
| `PortUnion.PortSpecOfServer` | crates/hysteria/src/client/config.rs:204-219 | the spec follows the only colon, and defaults to 443 |
| `PortUnion.PortSpecOfBracketed` | crates/hysteria/src/client/config.rs:205-210 | after a bracketed IPv6 literal the spec follows the colon there |
| `PortGrammar.BracketedDefault` | crates/hysteria/src/client/config.rs:205-210 | a bracketed literal without a port has the spec 443 |
| `PortGrammar.BareLiteralDefault` | crates/hysteria/src/client/config.rs:211-218 | so has a bare IPv6 literal |
| `PortGrammar.EmptySideDefault` | crates/hysteria/src/client/config.rs:211-218 | so has an address with nothing on one side of its colon |
| `PortGrammar.SinglePortDials` | crates/hysteria/src/client/config.rs:145-155 | a host with one port dials it and does not hop, and 443 without one |
| `PortGrammar.HoppingDials` | crates/hysteria/src/client/config.rs:145-155 | a host with a range or a list hops over its ports and first dials the first number written |
| `UdpNat.Sessions.GetOrCreate` | crates/dataplane/src/session.rs:116-148 | reuses, refuses at the cap, or opens and stamps a session |
| `UdpNat.Sessions.Forward` | crates/dataplane/src/session.rs:154-180 | reports sent or dropped, and "opened" exactly when the source became listed |
| `UdpNat.ForwardMeans` | crates/dataplane/src/session.rs:116-180 | a known source keeps its session, a new one gets one while there is room, the session used is stamped, and "sent" means both a session and a working send |
| `UdpNat.Sessions.ReapIdle` | crates/dataplane/src/session.rs:184-194 | removes exactly the sessions idle longer than the window |
| `UdpNat.EveryRunBalances` | crates/dataplane/src/lib.rs:274-327 | over every run: table within its cap, opened equals live plus reaped, each datagram logged once in order and sent or counted as an error, the other errors are failed relays, byte counters are datagrams, relayed bytes and replies, permits conserved, flows relayed below the cap and refused at it |
| `UdpNat.SteadySourceKeepsSession` | crates/dataplane/src/session.rs:184-249 | a source never silent longer than the idle window keeps its upstream session for every datagram |
| `UdpNat.KeepsSessionIff` | crates/dataplane/src/session.rs:184-249 | a datagram goes out through the session its source started with exactly when no sweep before it found the source silent longer than the idle window |
| `UdpNat.LateSourceLosesSession` | crates/dataplane/src/session.rs:240-249 | any longer than the window, and a sweep takes it |
| `UdpNat.Dataplane.Handle` | crates/dataplane/src/lib.rs:275-326 | one turn of the loop is one transition |
| `UdpNat.Dataplane.Orchestrate` | crates/dataplane/src/lib.rs:274-327 | the loop over any events ends with balanced books |

## Left out

- QUIC, TLS and HTTP/3 dialing, authentication, endpoint building and error categorization: library plumbing.
- The netstack, the TUN and SOCKS5 front-ends, the byte-counting wrapper and the foreign-function layers: I/O pumps and adapters.
- Salamander obfuscation and the hopping socket: one XOR involution, random choice and timing.
- `write_tcp_request` with its random padding, the cert and header tables, configuration defaults: finite tables or plain data.
- The routing of replies from upstream sessions to the app (their bytes are counted), and the abort of tasks when a manager or a table is dropped.
- JSON, the file system below an atomic rename, UUIDs and the clock: documents round-trip, ids are fresh, times are inputs.
- A rename that finds no link for a listed profile: `Store` proves that a listed profile always has one, so that branch is not written.
- Rounding and saturation of floating point in the congestion controller, and event times that run backwards.
- `UdpSend.SendThenReceive`: assumes, as `UdpSend.DeliveredIff` and `UdpEndToEnd.SplitReachesReader` do, that the receiving defragger is not already on the same packet id and fragment count; a stale match is outside what the protocol can tell apart.
- `Frag.FragUdpMessage`: a debug build stops at the 256th fragment instead of wrapping.
