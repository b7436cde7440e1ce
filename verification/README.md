# rp-wheel-bridge: a verified model

The firmware bridges a PlayStation console to a steering wheel and relays the console's
authentication to a device that can sign. This project models its state machines and codecs in
Dafny and proves what they keep. `dafny verify dfyconfig.toml` checks all of it.

| file | models |
|---|---|
| `AuthCache.dfy` | the signature cache shared by the two cores, as a machine over critical sections |
| `AuthSigning.dfy` | what the signer side may ask of the signer for one nonce, and how much of it |
| `AuthRelay.dfy` | the relay itself: core 1's code, core 0 interleaved at every wait, an adversarial signer |
| `HidItems.dfy`, `HidReports.dfy`, `HidParser.dfy` | report descriptor grammar, its interpreter, and the offset-driven parser |
| `HidMeaning.dfy` | what the parser's numbers mean, said of the items and bytes alone |
| `Framing.dfy` | reports in packets, and the USB host that puts them together |
| `LinkFollower.dfy` | the wheel-link queue, the pull-up that follows it, the packet queues |
| `Hub.dfy` | devices behind a hub, their children, ports and addresses |
| `UartLog.dfy` | the drop-counting logger over a ring of bytes |
| `InputMap.dfy` | input report translation |
| `RevLights.dfy` | rev lights sent on change |
| `Changes.dfy`, `Common.dfy` | streams of which only the changes count; bytes and optional values |

How it is modelled:

- Code that updates state in place is a class or a method on arrays; where it awaits, everything
  else may take any number of steps (`Interfere`, `Others`, `Suspend`). An invariant that each
  method requires and ensures therefore holds in every state of every interleaving.
- What the environment chooses (console requests, replies, times, how far the signer's page pointer
  jumps, how long anything takes) is `*` or `:| true`.
- Fields and ghost fields that the source does not have (`history`, `published`, `io`, `sent`,
  `changes`, `delivered`, `calls`, `stranded`, ...) record what happened; nothing is decided on them, except
  where they describe an orderly console.

What is assumed, because the code relies on it:

- A transfer that succeeds has its full length (src/auth.rs:421-422 does not compare it).
- A signer takes a whole nonce page or reports failure. It may take a page and still have it reported
  as failed, take any time to answer, lose any reply, move its page pointer by any amount, and after a
  nonce show the previous signing for up to `staleWindow`; a reply is at most `latency` old, and both
  together are within the 500 ms grace period (src/auth.rs:363).
- The results marked "orderly console" are for consoles that send a round as full pages 0 to 4 in
  order, lose none to a full queue, and start a round only when no page of an earlier one is
  queued and `sign` has returned; `serve` starts between rounds. Everything else about
  authentication holds for any console.
- A write that fails has not got all its packets out, and a host drops the beginning of a report when
  the endpoint goes away.
- The console sends nothing to a device that is off the bus; the tasks behind a hub run whenever
  the event loop waits, and it waits between any two signals to one child.

Where the code differs from its documentation: docs/ps5-auth.md:70-72 and src/auth.rs:254-255 say
that a refused nonce page is resent. For page 0 it is not: the same call that notes the refusal
forgets it (src/auth.rs:257, 262-263). `RefusedIsResentIff` gives the exact condition,
`RefusedPageZeroIsForgotten` the failing round, and the freshness results carry the condition.

Section 6.2.2.7 of HID 1.11 names no limit to how deep Push and Pop items nest; the parser's stack
holds four. `MatchedPopRestoresIff` and `OverrunIsMisread` say when that matters.

## Model

| member | source | states |
|---|---|---|
| `AuthCache.ReadyCarriesLatestId` | src/auth.rs:124-187 | in every state reachable by any interleaving, the cache's id is byte 1 of the console's latest F0; when ready, F2 says ready, page i is numbered i, and all carry that id |
| `AuthCache.AnswersCarryLatestId` | src/auth.rs:137-163 | byte 1 of every F2 and F1 answer in any run is byte 1 of the latest F0 before it |
| `AuthCache.AnswersWithoutId` | src/auth.rs:178-178 | it is 0 before any F0, and after one too short to carry an id |
| `AuthCache.StateAnswers` | src/auth.rs:137-148 | in any run F2 says ready if and only if a signature was published since the latest F3 read or F0, and then is that publication's F2 answer, byte 1 apart; otherwise it is `f2`, the id, `10` and zeros |
| `AuthCache.ResetAnswers` | src/auth.rs:128-136 | F3 gives the answer adopted last, and the built-in one before any was |
| `AuthCache.PagesInOrder` | src/auth.rs:149-163 | with no cursor reset, F1 hands out pages 0, 1, 2, ... of the cached signature, one a read until all 19 are out, and none while not ready |
| `AuthCache.PagesBetweenResets` | src/auth.rs:128-163 | over any history, the F1 answers between two cursor resets are the first pages of the one signature published at the first of them, byte 1 rewritten; after F3 or F0 there are none |
| `AuthSigning.BoundedWork` | src/auth.rs:288-382 | against any signer, one nonce costs at most 5 resets, 20 nonce pages, 500 polls in each of at most 4 fetches, and 76 page reads |
| `AuthSigning.SignEnds` | src/auth.rs:304-317 | every attempt but the last lost a page, a lost page ends `sign` only at the fourth; the signer is reset at the end if and only if the last fetch was not done |
| `AuthSigning.FetchOnlyAfterAcks` | src/auth.rs:246-304 | whenever a fetch starts, for any commands in any order: on a pass that resends, right after a reset and the five pages, all taken, with their pauses of 300, 50 and 10 ms; on one that does not, every nonce page sent to the signer since the last page that cleared the flag was acknowledged |
| `AuthSigning.DirectIffAllAcked` | src/auth.rs:256-264 | the first fetch goes ahead without resending if and only if every nonce page in the trace since then was acknowledged |
| `AuthSigning.PollMore` | src/auth.rs:342-368 | one more poll ends the polling exactly when its "ready" follows a "signing" or comes after the grace period |
| `AuthSigning.FlagMeaning` | src/auth.rs:256-264 | after any commands in any order, `NONCE_REFUSED` is set if and only if a page was refused (or the flag set before) and no first or last page has cleared it since |
| `AuthSigning.ResentIffLaterRefused` | src/auth.rs:256-264 | a round of five pages is resent if and only if one of pages 1 to 4 was refused, whatever came before the round |
| `AuthSigning.RefusedIsResentIff` | src/auth.rs:254-264 | "a round with a refused page is resent" holds of the relay's turns if and only if page 0 was acknowledged or a later page was refused too |
| `AuthSigning.RefusedPageZeroIsForgotten` | src/auth.rs:257-264 | the turns that break the promise: page 0 refused, the others taken, and the round is fetched and done without a resend |
| `AuthSigning.SignedWithoutResendIff` | src/auth.rs:259-261 | what the signer holds of a round that is not resent is the console's nonce if and only if it took page 0 (acknowledged or not) or held the same page 0 from before |
| `AuthRelay.Relay.ReadyMeans` | src/auth.rs:243-410 | in every state of every interleaving with an orderly console, a ready cache holds one signature the signer made, page for page with byte 1 rewritten to byte 1 of the console's latest F0, over the data of the console's last five F0 requests (page 0 under the condition above) |
| `AuthRelay.Relay.GetReport` | src/auth.rs:124-167 | each answer is what the cache model allows; reading F3 makes the cache not ready and queues a reset if there is room |
| `AuthRelay.Relay.SetReport` | src/auth.rs:170-184 | only F0 is taken; it makes the cache not ready and sets the id, and the page is still to be queued |
| `AuthRelay.Relay.SetReportSend` | src/auth.rs:185-193 | the second half, after other steps may have come in between: queued at the end, or dropped when the queue is full |
| `AuthRelay.Relay.ConsoleStep` | src/auth.rs:124-187 | one step of core 0 keeps the invariant and what core 1 relies on |
| `AuthRelay.Relay.Interfere` | src/auth.rs:124-187 | so does any number of steps |
| `AuthRelay.Relay.ResetSigner` | src/auth.rs:321-326 | F3 to the signer, which may drop what it was signing; signatures made stay made |
| `AuthRelay.Relay.SetNonce` | src/auth.rs:270-283 | an acknowledged page is the signer's page of that number; an acknowledged last page has begun a signing of exactly the five it holds |
| `AuthRelay.Relay.PollTurn` | src/auth.rs:342-368 | a "ready" that is believed is of the signing that was begun, never of the previous one, however long the signer takes to answer |
| `AuthRelay.Relay.PollUntilReady` | src/auth.rs:338-368 | polling ends at the first believed "ready" or after the timeout, polls are a pause apart, and a believed "ready" means the signer has finished the signing that had begun |
| `AuthRelay.Relay.FetchPages` | src/auth.rs:370-382 | against any page pointer and any lost reply, 19 pages read in place are page for page those of the signer's one signature; otherwise the first wrong reply ends the reading |
| `AuthRelay.Relay.PublishSignature` | src/auth.rs:383-403 | the cache then holds the pages read, rewritten, and is fresh for the console's latest nonce |
| `AuthRelay.Relay.FetchSignature` | src/auth.rs:337-410 | done: exactly the pages read were published, and they are the signer's signature; lost or not ready: nothing was published |
| `AuthRelay.Relay.StartOver` | src/auth.rs:290-303 | either the signer took all five kept pages after a reset and is signing exactly these, or the attempt ends |
| `AuthRelay.Relay.Sign` | src/auth.rs:288-318 | at most four attempts, resending in all but perhaps the first, going on only after a lost page; what was done to the signer is exactly what the attempts say; done means ready and fresh |
| `AuthRelay.Relay.KeepPage` | src/auth.rs:247-253 | a full page with a number below 5 replaces that page of `NONCE`, anything else changes nothing |
| `AuthRelay.Relay.TakeRefused` | src/auth.rs:259-261 | the round is resent exactly if the flag was set; if not, the signer is signing the console's pages 1 to 4, and page 0 if it was taken |
| `AuthRelay.Relay.HandlePage` | src/auth.rs:246-265 | a nonce page is kept and passed on once, the flag follows, and the last page, and only it, starts `sign` |
| `AuthRelay.Relay.Receive` | src/auth.rs:230-230 | commands come out oldest first; a reset comes out only when it takes no page away from an unfinished round |
| `AuthRelay.Relay.Handle` | src/auth.rs:243-267 | one command is one turn: what it does to the signer, to `NONCE` and to the flag |
| `AuthRelay.Relay.Serve` | src/auth.rs:226-233 | in any interleaving, every command that got into the queue since the start was handled once and in order, or is still queued, and none from before was; the loop stops only after as many as asked or on an empty queue; everything done to the signer is what the turns say |
| `AuthRelay.Relay.TrySigner` | src/auth.rs:203-221 | one to five reads of F3, pauses between; the device is a signer if and only if one was answered, the first answer is adopted as the console's F3, and without one nothing is |
| `HidItems.RoundTrip` | src/hid.rs:384-405 | the items read from encoded items are those items, with nothing left over (section 6.2.2 of HID 1.11) |
| `HidItems.ItemsOfEncoded` | src/hid.rs:384-405 | the grammar is unambiguous: encoded items are read back whatever follows |
| `HidItems.ItemsAndRest` | src/hid.rs:384-405 | any bytes are their items, encoded, and a rest that starts with no whole item |
| `HidItems.LongestPrefix` | src/hid.rs:397-400 | the items read are the longest list of whole items the bytes start with |
| `HidParser.LogReportSummary` | src/hid.rs:377-488 | for any bytes, the loop over offsets ends with the table and the collections that the interpreter gives for the whole items the bytes start with |
| `HidParser.AddMain` | src/hid.rs:426-449 | the fixed table gets the contribution in its report, in the first free row, or nowhere when full |
| `HidParser.GlobalItem` | src/hid.rs:453-467 | the four-entry array does what the stack of the interpreter does; pushes and pops that do not fit are ignored |
| `HidParser.MainItem` | src/hid.rs:409-451 | input, output and feature items add their bits, application collections are logged, other tags do nothing |
| `HidParser.ReadValue` | src/hid.rs:401-404 | item data read from the last byte to the first is its little-endian value |
| `HidParser.ItemRead` | src/hid.rs:385-474 | one item taken from the bytes and applied leaves the rest to complete the same result |
| `HidReports.TableIsAccount` | src/hid.rs:426-449 | the table holds the first 24 distinct (id, kind) pairs in order of first appearance, each with the sum of the bits of all its contributions (modulo 2^32) and the usage page of the first |
| `HidMeaning.MainItemAdds` | src/hid.rs:409-457 | what a contribution is, anywhere in a descriptor: an input, output or feature item adds size times count bits, with the Report Size, Report Count, Report ID and Usage Page of the last items still in effect, that is, set since outside any push that was popped; other items add nothing |
| `HidMeaning.GlobalsAre` | src/hid.rs:453-467 | after any items each global is what the last such item still in effect set, 0 if there is none |
| `HidMeaning.PositionalIsValue` | src/hid.rs:401-404 | byte k of item data counts 256^k |
| `HidMeaning.CollectionLogged` | src/hid.rs:414-423 | an application collection, and nothing else, is logged, with the last usage page in effect and the first usage since the main item before |
| `HidMeaning.OneMainItem` | src/hid.rs:393-447 | in bytes: size, count and id items of any data size and one main item give one row with that id, kind and product |
| `HidMeaning.LongItemSkipped` | src/hid.rs:387-392 | in bytes: a long item makes no difference |
| `HidReports.SummaryIsAccount` | src/hid.rs:377-488 | the same for the summary of any bytes, with distinct pairs |
| `HidReports.SummaryOfEncoded` | src/hid.rs:377-474 | parsing the encoding of items gives what interpreting the items gives |
| `HidReports.BoundedStackAgrees` | src/hid.rs:458-466 | a stack of four agrees with any larger one on every item list that does not nest deeper |
| `HidReports.MatchedPopRestores` | src/hid.rs:458-466 | a matched pop restores exactly the globals of its push, whatever is in between |
| `HidReports.MatchedPopRestoresIff` | src/hid.rs:458-466 | with anything on the stack, a matched pop restores the state of its push if and only if the nesting stays within the limit |
| `HidReports.EmptyStackForgives` | src/hid.rs:458-466 | on an empty stack the nesting is not needed: n pushes and n pops restore the state for every n |
| `HidReports.OverrunIsMisread` | src/hid.rs:377-488 | a descriptor, as items and as bytes, that nests five deep and is misread: its 8-bit input counts 0 bits, with one more stack entry 8 |
| `HidParser.ReadFeatureReports` | src/hid.rs:201-233 | the requests made are those of the table's feature reports, in order, with their length in the buffer |
| `HidParser.RequestsAreRows` | src/hid.rs:207-223 | a request is made if and only if a row asks for it |
| `HidParser.RequestsInOrder` | src/hid.rs:207-215 | one request for each row that asks, in the order of the rows |
| `HidParser.LengthIsLeast` | src/hid.rs:216-216 | the length is the id byte and the fewest bytes that hold the bits, 256 beyond 2032 bits |
| `HidParser.ReadIff` | src/hid.rs:201-488 | from bytes to requests: a feature report is read if and only if it has an id, is among the first 24 reports, and its first main item is not under the authentication usage page |
| `Framing.ChunksReassemble` | src/device.rs:552-582 | without a zero-length packet a report ends by itself exactly when its last packet is short or it has full length |
| `Framing.TransferReassembles` | src/device.rs:557-575 | with the rule `len < MAX_PACKET` every report ends, and the packet is needed exactly for shorter reports that fill their last packet |
| `Framing.FramesRoundTrip` | src/device.rs:561-582 | for every sequence of reports of at most 64 bytes and every packet size from 1 to 64, a host recovers exactly that sequence (section 5.7.3 of USB 2.0, section 8.4 of HID 1.11) |
| `Framing.CutTransfer` | src/device.rs:571-578 | no proper beginning of a report's packets is ever read as a report |
| `Framing.ForwardIn` | src/device.rs:561-582 | whichever writes fail and wherever in the report, the host reads exactly the reports of the other writes, in order; the relay keeps packets as they are |
| `Framing.WriteTransfer` | src/device.rs:574-574 | the loop over chunks is the transfer |
| `Framing.Truncated` | src/device.rs:274-288 | a packet holds exactly the first 64 bytes of what it is made from, or all of it |
| `Changes.ChangeShows` | src/device.rs:474-495 | a value that differs from the one before is never collapsed away |
| `Changes.CollapsedChanges` | src/proxy.rs:457-460 | the collapsed stream has no repeats |
| `LinkFollower.Device.WheelLink` | src/device.rs:333-335 | a report takes effect if and only if the queue had room or the last accepted one was the same |
| `LinkFollower.Device.ProxyStep` | src/proxy.rs:82-86 | whatever the proxy was doing, also in the middle of a recovery, its last word when dropped is off |
| `LinkFollower.Device.Enqueue` | src/device.rs:545-547 | a packet is added at the end, or dropped when its queue is full |
| `LinkFollower.Device.Dequeue` | src/device.rs:569-569 | packets go out oldest first, and one that goes out on the bus was queued in the same connection, by the console only while on the bus |
| `LinkFollower.Device.Start` | src/device.rs:389-392 | the device stays off the bus until the first on; all values taken before it are offs, and it stops only there, after as many as asked, or on an empty queue |
| `LinkFollower.Device.FollowTurn` | src/device.rs:474-495 | one value taken: the pull-up follows it, stays off at least 500 ms, and goes on only as a new connection with all six queues cleared |
| `LinkFollower.Device.Reconnect` | src/device.rs:484-494 | while others run between the clears, nothing queued before the reconnection is left when the pull-up goes on |
| `LinkFollower.Device.FollowWheel` | src/device.rs:469-496 | for any number of turns and any interleaving, the changes of the pull-up are exactly the values taken without repeats, every off lasts at least 500 ms, and no packet crosses a reconnection; values are taken as long as there are any |
| `LinkFollower.Device.DrainedMeans` | src/device.rs:469-496 | drained: the pull-up is what was last accepted; if no report was lost, what was last sent, so off the bus once the proxy is gone |
| `LinkFollower.Device.OffIsSeen` | src/device.rs:328-338 | an off met while on, with an on right behind it, is two changes at least 500 ms apart |
| `LinkFollower.Device.ChangesAlternate` | src/device.rs:473-495 | the pull-up's changes alternate, starting with on |
| `Hub.AttachKeeps` | src/hub.rs:150-153 | whatever port the hub reports, ports and children stay consistent, with at most one child stranded by it: the new one if the port is not tracked, the one the port had if it had one |
| `Hub.AttachKeepsIff` | src/hub.rs:150-153 | nobody is stranded if and only if the port is tracked and has no child |
| `Hub.RemoveKeeps` | src/hub.rs:158-160 | a removal frees exactly the port's child |
| `Hub.Freeing` | src/hub.rs:280-297 | a child that was told gives its address back, and the books stay right |
| `Hub.Bus.DeviceDetected` | src/hub.rs:128-154 | on any port: the device is served if and only if a child is not busy and it enumerates as anything but a hub, and then by the first such child, with an address of its own; a hub keeps its address; a child is stranded if and only if the port was not tracked or had a child |
| `Hub.Bus.DeviceRemoved` | src/hub.rs:156-161 | the port's child, and no other, is told, and no signal is overwritten |
| `Hub.Bus.RunChild` | src/hub.rs:267-298 | a child serves what it is handed, and gives the address back exactly when told, also when serving had ended before |
| `Hub.Bus.Suspend` | src/hub.rs:88-95 | after every wait all signals are taken, and exactly the busy children have devices |
| `Hub.Bus.Events` | src/hub.rs:123-177 | for any sequence of events on any ports all this holds throughout, and ports, busy and stranded children are exactly what the events, one after the other, make of them |
| `Hub.Bus.ValidMeans` | src/hub.rs:101-178 | ports map to children one to one, a child is busy if and only if a port maps to it or it is stranded, an address is in use if and only if it was handed over and not given back (or is unserved), and none is ever out of turn |
| `UartLog.LineBuf.WriteStr` | src/uart_log.rs:161-167 | text is appended up to the room left for the line ending |
| `UartLog.LineBuf.Write` | src/uart_log.rs:97-99 | however the text comes in fragments, the line is the whole text cut once |
| `UartLog.Pipe.TryWrite` | src/uart_log.rs:127-127 | a ring that writes no further than its end still appends at least one byte unless full |
| `UartLog.Push` | src/uart_log.rs:125-132 | all bytes that fit are appended in spite of the wraparound |
| `UartLog.Logger.Commit` | src/uart_log.rs:103-117 | a record and the notice due go in whole, in that order, if and only if both fit; otherwise it is counted |
| `UartLog.Logger.Log` | src/uart_log.rs:96-118 | the same from the fragments on |
| `UartLog.NoticeFits` | src/uart_log.rs:105-109 | for every count the notice is not cut off, and its digits read back as the count |
| `UartLog.Conservation` | src/uart_log.rs:103-117 | lines put out, drops announced and drops to be announced make up all records, but for those dropped with the counter saturated |
| `UartLog.TextsInOrder` | src/uart_log.rs:103-117 | the lines put out are the accepted records in call order |
| `UartLog.LinesRecovered` | src/uart_log.rs:5-8 | splitting the stream at line feeds gives exactly the lines and notices, whole and in order, each with CR LF behind it, if no record's text holds a line feed |
| `UartLog.NoticeInFront` | src/uart_log.rs:103-117 | an accepted record stands right behind what was put out before the refused ones in front of it, with one notice of their number between if there are any |
| `UartLog.Logger.ValidMeans` | src/uart_log.rs:79-118 | after any run of calls and reads all of this holds, and the UART has got a beginning of the stream, all of it once the pipe is empty |
| `InputMap.RemapInverse` | src/input_map.rs:97-101 | for any one-to-one bit map, the map with its pairs swapped undoes it on the mapped bits |
| `InputMap.RemapDistributes` | src/input_map.rs:97-101 | mapping distributes over bitwise or |
| `InputMap.RemapSameIff` | src/input_map.rs:97-101 | two bytes map to the same if and only if their mapped bits are the same |
| `InputMap.Neutral` | src/input_map.rs:56-74 | the report before the first, byte by byte |
| `InputMap.Translate` | src/input_map.rs:77-95 | the translated report, byte by byte |
| `InputMap.ButtonsShow` | src/input_map.rs:17-44 | each of the 19 buttons is set in the translation exactly where the map says, and only then |
| `InputMap.NeutralBytes` | src/input_map.rs:56-74 | the neutral report by value |
| `InputMap.Recoverable` | src/input_map.rs:77-95 | hat, buttons, rotaries, wheel and pedals can all be read back from the translation, and every other byte is neutral |
| `InputMap.TranslatedSameIff` | src/input_map.rs:77-95 | two reports translate to the same if and only if all controls that the target has are the same |
| `InputMap.AtRest` | src/input_map.rs:54-95 | a wheel at rest translates to the neutral report |
| `RevLights.LevelMonotone` | src/proxy.rs:456-456 | more LEDs lit, no lower level |
| `RevLights.LevelRange` | src/proxy.rs:441-446 | the level is even and at most 10 |
| `RevLights.LevelAdds` | src/proxy.rs:456-456 | no LED is level 0, each further one of the five adds 2, no other bit counts |
| `RevLights.Lights.RevLights` | src/proxy.rs:448-484 | a command is attempted if and only if the report is a rev-light command with a known index and its level differs from the last; its message shows that level |
| `RevLights.Lights.SentOnChange` | src/proxy.rs:441-484 | over any stream of reports the commands are the levels without repeats, and the last one is the latest level |

## Left out

- AuthRelay.Relay.Sign: a signer that is unplugged while it signs, which cancels core 1's code in the middle; the model has one signer that stays.
- AuthRelay.Relay.Serve: `CMD.clear` while an orderly round is being sent. Its pages would be lost, which the source leaves to the console to start over.
- AuthRelay.Relay.Interfere: rounds of an orderly console that lose a page to a full queue are not followed; nothing is claimed about freshness then.
- LinkFollower.Device.Dequeue: which task empties which packet queue, and what is in a packet; packets carry only the connection they were queued in.
- LinkFollower.Device.FollowTurn: the pull-up register and the bus reset the console then does.
- Hub.Bus.DeviceDetected: the retries of an enumeration, the port reset and its timing; a device answers or does not. What a failed enumeration leaves behind is the host library's, which is not part of this model.
- Hub.Bus.Events: hub errors and their back-off, which change no port.
- UartLog.Pipe.TryWrite: the ring is embassy-sync's, which is not part of this model; the one here writes up to the end of its buffer.
- UartLog.Logger.Log: number and uptime formatting of a line, which reach it as fragments; the two cores' critical sections are its calls in order.
- RevLights.Lights.RevLights: whether the command reached the wheel; like the source, the model remembers the level as sent either way.
- HidParser.MainItem: arithmetic is that of a release build, where `u32` wraps; a debug build would stop instead.
- Text output (descriptor and report logging, `Hex`, UTF-16 strings), `src/ghub_init.rs`, and the descriptor and feature byte tables.
- PIO timing, start of frame, multicore start-up, clocks and `memory.x`.
- HID++ request matching in src/proxy.rs: answers are matched by software id only, so a late answer can pair with a later request and no strong claim holds.
- Packet plumbing in src/relay.rs, src/usb_host.rs and src/main.rs.
- The signature's cryptography: a signature is whatever pages the signer made for its five input pages.
