# net4cxx in Dafny

A model of the parts of net4cxx that carry state across many calls, with proofs of what they promise. Bytes,
sockets, the reactor, compression and user callbacks are inputs: a proof about every run is a proof about every
choice they make.

| module | models |
|---|---|
| `Defer`, `DeferLaws` | the network of Deferreds, its callback queues, pause counts and continuations, and the loop `runCallbacks` |
| `DeferLists` | `DeferredList` |
| `JsonText`, `JsonNumber` | UTF-8, quoting, decoding of strings and numbers |
| `JsonValues`, `JsonParse`, `JsonLayouts` | JSON values, the grammar the reader accepts, and all ways a value can be laid out |
| `JsonWriter`, `JsonReader` | the printer and the cursor parser as classes, and the round trip through both |
| `ByteConvert`, `Framing` | byte orders and the five length-prefixed receivers |
| `MessageBuffers`, `IOStreams` | the byte buffer, the search, and the stream with its pending read and posted wake-ups |
| `HttpBody` | bodies, from the server's chunk printer to the client's decoder on top of `IOStreams` |
| `Gzip` | the read buffer of `GzipFile` |
| `TcpMachine`, `TcpConnections` | the TCP write queue and close machine, and queue merging |
| `TaskPools`, `TaskPoolClasses` | the worker pool and the concurrent queue |
| `UrlText`, `UrlPath` | percent and form encoding, and relative paths |
| `ArchiveFormat`, `Archives` | serialization |

Each class is proved against functions on values: its methods say that they compute the function, and the laws are
lemmas about the functions. The main results:

- Deferreds: in every reachable network pauses, links and histories are as they should be, and without user pauses
  and empty tags it is quiescent; when a Deferred is fired does not matter. `DeferLaws.ReachableIsTidy` and
  `DeferLaws.PausedChaineeStopsRun` say exactly when empty tags and pauses spoil this.
- JSON: printing and reading any printable value gives its canonical form back. `JsonReader.CanonIsSame` says when
  that is the value itself. Texts with keys in any order, repeated ones included, are read as the map in which each
  key has its last value.
- Framing, `IOStream`, HTTP bodies: what is delivered depends on the bytes and not on how they were cut or when
  wake-ups run; the encoders are inverted exactly under the conditions stated.
- `GzipFile` agrees with indexing the decompressed stream.
- TCP: what the protocol wrote is what was sent and what waits, no two writes overlap, connectionLost comes once,
  and a close by loseConnection loses nothing when the network does not fail. That every close completes is false;
  `TcpMachine.LoseCanHang` and `TcpMachine.AbortCanHang` say, at the call, exactly when it can hang.
- Worker pool: no lost wake-up, each task once and in order, and nothing lost by a graceful stop.
  `TaskPools.PushedInTime` says which tasks pushed late are run.
- URLs and archives: round trips, with reals between hosts of either byte order; the dot-dot loop equals one pass,
  and relative paths resolve on the strings as they should.

## Model

| member | source | states |
|---|---|---|
| `Defer.Deferred.RunContinuation` | `src/net4cxx/core/network/defer.cpp:90-99` | The waiting Deferred gets exactly the result of the one it waited for and loses one pause; the other is left null |
| `Defer.Deferred.ChainTo` | `src/net4cxx/core/network/defer.cpp:109-124` | Returning a Deferred without a usable result queues one continuation there and pauses once; returning a fired one leaves null on both sides |
| `Defer.Deferred.RunPair` | `src/net4cxx/core/network/defer.cpp:82-125` | One turn of the inner loop on the objects is one step of the network, and says which Deferred goes on |
| `Defer.Deferred.RunQueue` | `src/net4cxx/core/network/defer.cpp:82-125` | The inner loop terminates and leaves the outcome of the whole run unchanged |
| `Defer.Deferred.RunCallbacks` | `src/net4cxx/core/network/defer.cpp:62-131` | The explicit-stack loop terminates and computes the run of the network from this Deferred, of which DeferLaws.RightHalfRuns and DeferLaws.WaiterGetsResult say what each turn does |
| `Defer.Deferred.AddCallbacks` | `src/net4cxx/core/network/defer.h:280-291` | Adding a pair keeps its place in the order and runs it at once on a fired Deferred |
| `Defer.Deferred.StartRunCallbacks` | `src/net4cxx/core/network/defer.h:412-424` | The first call fires and runs; a later one raises AlreadyCalledError unless cancel suppressed it once |
| `Defer.Deferred.Pause` | `src/net4cxx/core/network/defer.h:361-363` | A pause by a user is counted apart from the pause of a continuation |
| `Defer.Deferred.Unpause` | `src/net4cxx/core/network/defer.h:365-374` | The last pause taken back resumes the callbacks |
| `Defer.Deferred.Cancel` | `src/net4cxx/core/network/defer.cpp:47-60` | Lets the canceller fire an unfired Deferred, or fires it with CancelledError, or follows the waits to one that is unfired |
| `Defer.StepPairInv` | `src/net4cxx/core/network/defer.cpp:82-125` | Every turn keeps the network invariant: pause count = users' pauses plus one if waiting, exactly one continuation per wait and none elsewhere, history = pairs run then pairs queued |
| `Defer.StepPairWork` | `src/net4cxx/core/network/defer.cpp:82-125` | Every turn decreases 2 per queued user pair plus 1 per queued continuation, summed over the network |
| `Defer.StepPairExtends` | `src/net4cxx/core/network/defer.cpp:82-125` | Every turn only extends the histories of added and run pairs of every Deferred |
| `DeferLaws.RunKeepsInv` | `src/net4cxx/core/network/defer.cpp:62-131` | A whole run keeps the invariant, and what each Deferred has run stays a prefix of what was added to it |
| `DeferLaws.RunLeavesNoneBusy` | `src/net4cxx/core/network/defer.cpp:62-131` | After a run a fired, unpaused Deferred with a result has work left only if it is in the chain the run left behind |
| `DeferLaws.RunDrainsChain` | `src/net4cxx/core/network/defer.cpp:72-130` | Without user pauses a run never returns early: the whole chain is worked off |
| `DeferLaws.RunIsTidy` | `src/net4cxx/core/network/defer.cpp:62-131` | Without user pauses a run leaves no Deferred that could do work, whatever the callbacks return |
| `DeferLaws.QuiescentExactly` | `src/net4cxx/core/network/defer.cpp:62-131` | Every fired Deferred has an empty queue or waits on one that is unfired or itself waiting, if and only if every fired Deferred with work left is waiting |
| `DeferLaws.ApplyKeepsInv` | `src/net4cxx/core/network/defer.h:280-374` | Adding, firing, pausing and unpausing keep the invariant on every network |
| `DeferLaws.ReachableInv` | `src/net4cxx/core/network/defer.cpp:62-131` | In every reachable network: pause count, single continuation on the Deferred waited for, each pair run at most once and in the order added |
| `DeferLaws.ReachableIsTidy` | `src/net4cxx/core/network/defer.cpp:62-131` | Whatever users do short of pausing, and whatever callbacks return, nothing that could run is left, and the network is quiescent if and only if no fired Deferred with work left holds the empty tag |
| `DeferLaws.ReachableIsQuiescent` | `src/net4cxx/core/network/defer.cpp:62-131` | So without pauses and empty tags every fired Deferred has an empty queue or waits on one that is unfired or itself waiting |
| `DeferLaws.PausedChaineeStopsRun` | `src/net4cxx/core/network/defer.cpp:75-97` | The loop returns early if and only if it wakes a Deferred that a user has paused; the one it was at is then left with work it could do if and only if it has another callback |
| `DeferLaws.PausedChaineeStrandsChain` | `src/net4cxx/core/network/defer.cpp:75-77` | With a pause quiescence fails: a run of seven steps from nothing leaves a Deferred fired and not paused with a callback that is not run |
| `DeferLaws.EmptyResultIsAwaited` | `src/net4cxx/core/network/defer.cpp:114-119` | A turn starts a wait for a Deferred that is fired, not paused and not waiting, if and only if that one holds the empty tag; the network is then not quiescent |
| `DeferLaws.EmptyResultStrandsWaiter` | `src/net4cxx/core/network/defer.cpp:114-119` | With a callback returning the empty tag quiescence fails: a run of six steps from nothing leaves a Deferred waiting for one that has fired |
| `DeferLaws.WaiterGetsResult` | `src/net4cxx/core/network/defer.cpp:90-99` | Through a continuation the result is handed over unchanged, error or value |
| `DeferLaws.RightHalfRuns` | `src/net4cxx/core/network/defer.cpp:82-125` | The errback half of a pair sees an error and the callback half anything else, once; what it returns is the result, or is waited for if it has none to give, or loses its result |
| `DeferLaws.FiredDeferredYieldsNull` | `src/net4cxx/core/network/defer.cpp:112-122` | Returning an already fired Deferred transfers its result if and only if that result was null |
| `DeferLaws.RunPlain` | `src/net4cxx/core/network/defer.cpp:82-107` | With callbacks returning plain values or errors a run leaves the left fold of the pairs and touches nothing else |
| `DeferLaws.FiringTimeIrrelevant` | `src/net4cxx/core/network/defer.h:280-424` | For any interleaving of adding, balanced pausing and one firing the result is the fold of all pairs in add order, errback halves on errors and callback halves otherwise |
| `DeferLaws.CancelSwallowsOneFire` | `src/net4cxx/core/network/defer.cpp:47-60` | After cancel one later callback or errback changes nothing else, and is swallowed if and only if there is no canceller |
| `DeferLaws.CancelArrives` | `src/net4cxx/core/network/defer.cpp:47-60` | A cancel is passed along the waits to the Deferred at their end; one that has not fired is fired with what its canceller gives, or with the error for cancellation; one that has is left alone |
| `DeferLaws.WaitsEndUnlessCycle` | `src/net4cxx/core/network/defer.cpp:55-124` | When cancel ends everywhere it still does after the next pair has run, if and only if that pair does not make its Deferred wait for one from which the waits lead back to it |
| `DeferLaws.MutualWaitDefeatsCancel` | `src/net4cxx/core/network/defer.cpp:57-59` | A run of six steps from nothing leaves two Deferreds waiting for each other; cancelling either never ends |
| `DeferLists.DeferredList.Wait` | `src/net4cxx/core/network/defer.cpp:134-155` | An empty list fires at once, unless it is to fire on one callback: then never |
| `DeferLists.DeferredList.CbDeferred` | `src/net4cxx/core/network/defer.cpp:172-191` | A completion is recorded in its place and fires the list at most once; what goes on in the member is a value that wraps the entry, null for a consumed error, so that no errback follows a failure |
| `DeferLists.FiresWithTheLast` | `src/net4cxx/core/network/defer.cpp:172-186` | While nothing is decisive the list fires with the n-th completion and not before |
| `DeferLists.FirstDecisiveWins` | `src/net4cxx/core/network/defer.cpp:175-184` | The first decisive completion is what the list fires with, whatever comes later |
| `DeferLists.FlagsDecide` | `src/net4cxx/core/network/defer.cpp:172-186` | The first success fires a list that is to fire on one callback and the first error one that is to fire on one errback; otherwise it fires when all have completed |
| `DeferLists.DeliversEachResult` | `src/net4cxx/core/network/defer.cpp:172-191` | The list delivered has each result in its place, consumed errors as null, except the error that came last |
| `DeferLists.OrderIrrelevant` | `src/net4cxx/core/network/defer.cpp:172-191` | No other order of the same completions delivers anything else, if and only if errors are not consumed or there are none |
| `DeferLists.ErrorShows` | `src/net4cxx/core/network/defer.cpp:181-188` | With errors consumed, every list with an error has an order that delivers something else |
| `JsonText.IsAnyCharRequiredQuoting` | `src/net4cxx/common/configuration/json.cpp:67-74` | True exactly when some character needs quoting, which any ASCII character does |
| `JsonText.ValueToQuotedString` | `src/net4cxx/common/configuration/json.cpp:175-234` | Prints the quoted form of a byte string, piece by piece |
| `JsonText.StringEndOfQuoted` | `src/net4cxx/common/configuration/json.cpp:1617-1628` | For every byte string the reader stops exactly at the closing quote of its quoted form |
| `JsonText.DecodeString` | `src/net4cxx/common/configuration/json.cpp:1913-1967` | Decodes escapes and surrogate pairs as the specification says, or fails |
| `JsonText.DecodeQuoted` | `src/net4cxx/common/configuration/json.cpp:1913-2059` | Decoding a quoted string always succeeds and gives what the quoting helpers kept of it |
| `JsonText.ReadBackExact` | `src/net4cxx/common/configuration/json.cpp:76-234` | Quoting and decoding are inverse on a well-formed UTF-8 string if and only if all its code points are below U+40000 |
| `JsonNumber.DecodeNumber` | `src/net4cxx/common/configuration/json.cpp:1866-1901` | The overflow-guarded accumulator yields the exact integer when it is in [-2^63, 2^64-1], and goes to the double path otherwise |
| `JsonNumber.LeadingZeros` | `src/net4cxx/common/configuration/json.cpp:1866-1901` | Leading zeros do not change what is decoded |
| `JsonNumber.NumberOfText` | `src/net4cxx/common/configuration/json.cpp:1866-1901` | Every printed 64-bit integer is decoded to itself, as signed if it fits |
| `JsonNumber.ZeroExactly` | `src/net4cxx/common/configuration/json.cpp:1866-1901` | A token is decoded as zero if and only if nothing but zeros follows its sign; so a lone minus sign is |
| `JsonValues.LessExactly` | `src/net4cxx/common/configuration/json.h:41` | Keys are ordered by the first byte that differs, a proper prefix first |
| `JsonValues.InsertFind` | `src/net4cxx/common/configuration/json.cpp:1798` | After an assignment the key has the new value and every other key what it had |
| `JsonValues.InsertAscending` | `src/net4cxx/common/configuration/json.h:41` | Assigning keeps the keys in strictly ascending order |
| `JsonValues.AscendingIsMap` | `src/net4cxx/common/configuration/json.h:41` | What is found under each key determines the members of an object |
| `JsonValues.AssignedIsLast` | `src/net4cxx/common/configuration/json.cpp:1756-1820` | Members assigned in any order, with keys repeated or not, make the map in which each key has the value of its last member |
| `JsonParse.ParsedIsHeld` | `src/net4cxx/common/configuration/json.cpp:1675-1855` | For every text: in a value that is read every object has strictly ascending keys without NUL |
| `JsonLayouts.ParseLayout` | `src/net4cxx/common/configuration/json.cpp:1675-1855` | Whatever the white space, the order of the keys and their repetitions, a laid-out value is read with each key having its last value; it throws when nested too deeply or a key is too long, and is rejected for a repeated key when these are refused |
| `JsonLayouts.ParseDocument` | `src/net4cxx/common/configuration/json.cpp:1375-1413` | The same for whole documents, with what the rule for the root says |
| `JsonLayouts.StrangeStartFails` | `src/net4cxx/common/configuration/json.cpp:1439-1540` | Only blanks, tabs, carriage returns and line feeds are skipped, and a document that then starts with a byte that starts no value is refused |
| `JsonWriter.StyledStreamWriter.PushValue` | `src/net4cxx/common/configuration/json.h:422-428` | Goes to the output, or to the cache while array elements are measured |
| `JsonWriter.StyledStreamWriter.WriteWithIndent` | `src/net4cxx/common/configuration/json.h:436-442` | Adds only white space before the text, and leaves the cursor not indented |
| `JsonWriter.StyledStreamWriter.IsMultilineArray` | `src/net4cxx/common/configuration/json.cpp:1223-1246` | A single line is chosen only with the text of every element in the cache, and nothing is printed meanwhile |
| `JsonWriter.StyledStreamWriter.WriteArrayValue` | `src/net4cxx/common/configuration/json.cpp:1173-1221` | In either form prints a layout of the array |
| `JsonWriter.StyledStreamWriter.WriteObjectValue` | `src/net4cxx/common/configuration/json.cpp:1145-1169` | Prints a layout of the object with its keys in order |
| `JsonWriter.StyledStreamWriter.WriteValue` | `src/net4cxx/common/configuration/json.cpp:1116-1171` | Whatever the indent flag, the indentation and the cache, prints white space and a layout of the value |
| `JsonWriter.StyledStreamWriter.Write` | `src/net4cxx/common/configuration/json.cpp:1099-1114` | The whole output is white space and a layout of the root |
| `JsonReader.BuiltReader.ReadString` | `src/net4cxx/common/configuration/json.cpp:1617-1628` | Stops at the first unescaped quote, or at the end without one |
| `JsonReader.BuiltReader.ReadNumber` | `src/net4cxx/common/configuration/json.cpp:1643-1673` | Takes the longest number, except that -I is refused |
| `JsonReader.BuiltReader.Match` | `src/net4cxx/common/configuration/json.cpp:1551-1563` | Moves over a keyword if and only if it is all there |
| `JsonReader.BuiltReader.ReadToken` | `src/net4cxx/common/configuration/json.cpp:1439-1540` | Skips white space and takes one token |
| `JsonReader.BuiltReader.ReadValue` | `src/net4cxx/common/configuration/json.cpp:1675-1754` | The cursor parser agrees with the grammar function on the rest of the text, and balances the node stack unless it throws |
| `JsonReader.BuiltReader.ReadObject` | `src/net4cxx/common/configuration/json.cpp:1756-1820` | Members are assigned in order of reading, a later one with the same key replacing the earlier; any failure recovers and fails |
| `JsonReader.BuiltReader.ReadArray` | `src/net4cxx/common/configuration/json.cpp:1822-1855` | Elements are kept in order; any failure recovers and fails |
| `JsonReader.BuiltReader.ParseText` | `src/net4cxx/common/configuration/json.cpp:1375-1413` | Accepts, fails or throws as the grammar function and the root and extra-text rules say |
| `JsonReader.WriteThenParse` | `src/net4cxx/common/configuration/json.cpp:1099-1855` | Printing then reading, for every indentation, style and colon, gives the canonical value, or throws exactly when the depth exceeds the stack limit, or fails exactly when the root must be a container and is not |
| `JsonReader.CanonIsSame` | `src/net4cxx/common/configuration/json.cpp:1866-1901` | What is read is the very value printed if and only if no string value has a code point from U+40000 on and no unsigned integer fits an int64 |
| `ByteConvert.BytesInverse` | `src/net4cxx/common/serialization/byteconvert.h:103-142` | Converting to the wire order and back is the identity on exactly the integers that fit the width |
| `ByteConvert.OnTheWire` | `src/net4cxx/common/serialization/byteconvert.h:102-140` | Each byte on the wire: network order is most significant byte first on every host |
| `ByteConvert.MisreadPalindrome` | `src/net4cxx/core/protocols/uintnreceiver.h:147-149` | Reading in the wrong order gives the same integer on exactly the byte palindromes |
| `Framing.HeaderOfEncoded` | `src/net4cxx/core/protocols/uintnreceiver.h:129-172` | The header written by sendMessage gives the message length back if and only if it fits and, in the long Ext forms, is in host order or a byte palindrome |
| `Framing.RoundTrip` | `src/net4cxx/core/protocols/uintnreceiver.h:127-198` | The receiver recovers exactly the messages sent, with nothing kept, if and only if the header of every length is read back and the cursor moves past the frame: in the UInt32 form, below 2^32 - 4 |
| `Framing.FirstOfEncoded` | `src/net4cxx/core/protocols/uintnreceiver.h:444-452` | The first message sent is received with the others to follow if and only if its length is readable |
| `Framing.DeliveredForever` | `src/net4cxx/core/protocols/uintnreceiver.h:444-452` | A UInt32 message is delivered over and over, with everything kept, if and only if its length is 2^32 - 4 |
| `Framing.DeliverSplit` | `src/net4cxx/core/protocols/uintnreceiver.h:37-75` | Two pieces one after the other are delivered like their concatenation; after a throw or an endless delivery more bytes change nothing |
| `Framing.FeedIsDeliver` | `src/net4cxx/core/protocols/uintnreceiver.h:231-270` | Any split of the stream into calls of dataReceived delivers the same messages and keeps the same bytes, or stops early, and which of the two does not depend on the split |
| `Framing.AnySplitDelivers` | `src/net4cxx/core/protocols/uintnreceiver.h:429-488` | However the stream was cut, exactly the messages sent arrive, in order and with nothing kept, if and only if all lengths are readable |
| `Framing.ThrowLosesNothing` | `src/net4cxx/core/protocols/uintnreceiver.h:58-75` | What was delivered and what is later found in the bytes kept are the messages of the buffer, if and only if the last message is not one with which the cursor stays |
| `Framing.EndsAtLast` | `src/net4cxx/core/protocols/uintnreceiver.h:444-463` | Delivery ends at the first message on which the handler throws or the cursor stays, and only there |
| `Framing.ForeverNeedsBytes` | `src/net4cxx/core/protocols/uintnreceiver.h:444-452` | Only a UInt32 buffer of 2^32 bytes or more can be delivered for ever |
| `Framing.RestIncomplete` | `src/net4cxx/core/protocols/uintnreceiver.h:37-75` | A receiver that waits keeps no complete frame, and one that delivers for ever has one in hand |
| `Framing.BytesConserved` | `src/net4cxx/core/protocols/uintnreceiver.h:37-75` | In the forms without escape the bytes received are the encoding of the messages delivered, then the bytes kept, if and only if the cursor moved past every one of them |
| `Framing.AdvanceExact` | `src/net4cxx/core/protocols/uintnreceiver.h:446-450` | The 32-bit sum moves the cursor past a frame if and only if its length is below 2^32 - 4, and at 2^32 - 4 it does not move |
| `Framing.Receiver.ReadHeader` | `src/net4cxx/core/protocols/uintnreceiver.h:127-155` | Reads a length in its three forms, or finds it incomplete |
| `Framing.Receiver.ReadMessages` | `src/net4cxx/core/protocols/uintnreceiver.h:443-454` | The loop over the frames: the messages delivered, where the cursor is left, and whether the handler threw |
| `Framing.Receiver.DataReceived` | `src/net4cxx/core/protocols/uintnreceiver.h:429-474` | The carry-over buffer, the messages and loseConnection after any bytes with which it returns, as the delivery function says |
| `Framing.Receiver.SendMessage` | `src/net4cxx/core/protocols/uintnreceiver.h:85-93` | Appends exactly one frame, or raises LengthLimitExceededError |
| `MessageBuffers.StrNStr` | `src/net4cxx/common/common.cpp:8-18` | Finds the first occurrence, or none |
| `MessageBuffers.NulDelimiterOverruns` | `src/net4cxx/core/protocols/iostream.cpp:129-137` | A delimiter read never takes more bytes than the buffer holds if and only if the delimiter has no NUL |
| `MessageBuffers.MessageBuffer.Normalize` | `src/net4cxx/common/utilities/messagebuffer.h:81-89` | Moves the active bytes to the front in place and keeps them |
| `MessageBuffers.MessageBuffer.EnsureSomeFreeSpace` | `src/net4cxx/common/utilities/messagebuffer.h:91-95` | Makes room if and only if there was some or the buffer had more than one byte |
| `MessageBuffers.MessageBuffer.EnsureFreeSpace` | `src/net4cxx/common/utilities/messagebuffer.h:97-101` | Makes room by growing to exactly what is needed, and keeps the active bytes |
| `MessageBuffers.MessageBuffer.Write` | `src/net4cxx/common/utilities/messagebuffer.h:103-108` | Appends to the active bytes |
| `MessageBuffers.MessageBuffer.ReadCompleted` | `src/net4cxx/common/utilities/messagebuffer.h:61-63` | Takes active bytes off the front |
| `IOStreams.IOStream.FindReadPos` | `src/net4cxx/core/protocols/iostream.cpp:157-172` | True exactly when the pending request can be served from the buffer |
| `IOStreams.IOStream.ReadUntil` | `src/net4cxx/core/protocols/iostream.cpp:68-75` | Sets the delimiter, keeps an earlier bound if none is given, and posts a wake-up exactly when it can be served |
| `IOStreams.IOStream.ReadBytes` | `src/net4cxx/core/protocols/iostream.cpp:77-81` | Sets the count, and posts a wake-up exactly when it can be served |
| `IOStreams.IOStream.ReadUntilClose` | `src/net4cxx/core/protocols/iostream.cpp:83-87` | Sets the flag, and posts a wake-up exactly when it can be served |
| `IOStreams.IOStream.ReadFromBuffer` | `src/net4cxx/core/protocols/iostream.cpp:116-155` | Serves at most one request: exactly n bytes, or through the end of the first occurrence of the delimiter, or everything; or fails on the bound |
| `IOStreams.IOStream.DataReceived` | `src/net4cxx/core/protocols/iostream.cpp:20-33` | Keeps the stream invariant: bytes conserved, no lost wake-up, deliveries determined by the bytes; serves one request, or closes on an exception; and fails once all bytes ever received exceed the limit |
| `IOStreams.IOStream.RunPosted` | `src/net4cxx/core/protocols/iostream.cpp:104-114` | A posted call keeps the stream invariant and serves one request, closes on an exception, or finds nothing to serve |
| `IOStreams.IOStream.ConnectionLost` | `src/net4cxx/core/protocols/iostream.cpp:35-45` | A pending readUntilClose gets exactly the bytes left, and the application is what its handler made of them |
| `IOStreams.IOStream.ReadKeeps` | `src/net4cxx/core/protocols/iostream.cpp:116-155` | Serving a request keeps delivered bytes plus buffered bytes equal to received bytes |
| `IOStreams.ReadyInTail` | `src/net4cxx/core/protocols/iostream.cpp:104-114` | A request that can be served after the delivered bytes are taken off could be served before: why no wake-up is lost |
| `IOStreams.AfterExtends` | `src/net4cxx/core/protocols/iostream.cpp:116-155` | More bytes never change what was already delivered |
| `IOStreams.BrokenExtends` | `src/net4cxx/core/protocols/iostream.cpp:174-179` | More bytes never avert an exception |
| `IOStreams.UnsatisfiableExactly` | `src/net4cxx/core/protocols/iostream.cpp:174-179` | A bounded read fails exactly when more bytes than the bound are there and the delimiter does not end within the bound |
| `IOStreams.ScheduleIrrelevant` | `src/net4cxx/core/protocols/iostream.cpp:104-155` | Two streams that received the same bytes and have no wake-up outstanding delivered the same pieces and wait for the same request |
| `HttpBody.LineRoundTrip` | `src/net4cxx/plugins/web/httpserver.cpp:245-248` | The hexadecimal length line of a chunk is found at its own line end and read back |
| `HttpBody.StoulForms` | `src/net4cxx/plugins/web/httpclient.cpp:549-553` | Signs and the prefix 0x are accepted in a length line; a negative length is taken modulo 2^64 |
| `HttpBody.BlanksIgnored` | `src/net4cxx/plugins/web/httpclient.cpp:549-553` | White space around the length does not matter |
| `HttpBody.HTTPConnection.constructor` | `src/net4cxx/plugins/web/httpserver.cpp:127-154` | Chunks exactly for an HTTP/1.1 response that may have a body and announces neither a length nor a coding; expects nothing for HEAD and 304, and otherwise what Content-Length says |
| `HttpBody.HTTPConnection.FormatChunk` | `src/net4cxx/plugins/web/httpserver.cpp:231-252` | Counts down Content-Length and refuses to go below zero; frames non-empty chunks only |
| `HttpBody.HTTPConnection.WriteChunk` | `src/net4cxx/plugins/web/httpserver.cpp:174-180` | While the response is open, succeeds exactly while the total stays within Content-Length, and otherwise closes; on failure nothing is written |
| `HttpBody.HTTPConnection.Finish` | `src/net4cxx/plugins/web/httpserver.cpp:182-204` | While the response is open, succeeds exactly when the total is Content-Length; the stream then holds the header and the coded body |
| `HttpBody.HTTPClientConnection.OnDataRead` | `src/net4cxx/plugins/web/httpclient.cpp:241-280` | The body states of the client, by length, in chunks or until close: next state, next read, or failure |
| `HttpBody.HTTPClientConnection.OnChunkLength` | `src/net4cxx/plugins/web/httpclient.cpp:549-561` | Refuses a chunk that would exceed the body limit |
| `HttpBody.HTTPClientConnection.OnChunkData` | `src/net4cxx/plugins/web/httpclient.cpp:563-570` | Collects blocks until the chunk is complete |
| `HttpBody.HTTPClientConnection.Fixed` | `src/net4cxx/plugins/web/httpclient.h:777-790` | A body of announced length is read in blocks, or is finished if it is empty |
| `HttpBody.HTTPClientConnection.UntilClose` | `src/net4cxx/plugins/web/httpclient.cpp:443-444` | A body without length or chunks is read until the connection is closed |
| `HttpBody.HTTPClientConnection.OnFixedBody` | `src/net4cxx/plugins/web/httpclient.cpp:540-547` | Collects blocks until the announced length is reached, then finishes |
| `HttpBody.ChunkReadExactly` | `src/net4cxx/plugins/web/httpclient.cpp:549-575` | From a length line the client reaches the next one with exactly this chunk, and what follows it unread, if and only if the chunk fits one block or is made of whole blocks |
| `HttpBody.FixedReadExactly` | `src/net4cxx/plugins/web/httpclient.cpp:540-547` | The client finishes with exactly the announced body, and what follows it unread, if and only if the body fits one block or is made of whole blocks |
| `HttpBody.FixedBodyArrives` | `src/net4cxx/plugins/web/httpclient.cpp:540-547` | When exactly the announced body was sent, in any pieces, and no wake-up is outstanding, the client has finished if and only if the body fits one block or is made of whole blocks |
| `HttpBody.ChunkDecode` | `src/net4cxx/plugins/web/httpclient.cpp:549-575` | A whole chunk is decoded to its bytes and leaves the client at the next length line |
| `HttpBody.BodyDecode` | `src/net4cxx/plugins/web/httpclient.cpp:549-582` | A whole coded body is decoded to the concatenation of the chunks, whatever follows it |
| `HttpBody.ChunkedBodyArrives` | `src/net4cxx/plugins/web/httpclient.cpp:549-602` | For every sequence of chunks within the limits and every fragmentation, once no wake-up is outstanding the client has exactly the concatenated body |
| `HttpBody.ChunkedBodyExactly` | `src/net4cxx/plugins/web/httpclient.cpp:549-602` | When no chunk begins with a carriage return, the client has exactly the concatenated body in the end if and only if each chunk fits one block or is made of whole blocks |
| `HttpBody.UntilCloseWaits` | `src/net4cxx/plugins/web/httpclient.cpp:584-587` | Before the connection is closed nothing of such a body is delivered and every byte is kept |
| `HttpBody.UntilCloseArrives` | `src/net4cxx/plugins/web/httpclient.cpp:584-587` | However the bytes were cut, when the connection is closed the client has finished with exactly the bytes received |
| `HttpBody.BadEndFails` | `src/net4cxx/plugins/web/httpclient.cpp:572-575` | A chunk not followed by a line end makes the client fail, with the chunk and nothing more |
| `HttpBody.BadLastEndFails` | `src/net4cxx/plugins/web/httpclient.cpp:577-582` | So does a last chunk |
| `HttpBody.TooLongFails` | `src/net4cxx/plugins/web/httpclient.cpp:549-561` | A chunk is refused at its length line if and only if its length and the bytes so far, added as 64-bit integers, exceed the limit |
| `HttpBody.BadLineFails` | `src/net4cxx/plugins/web/httpclient.cpp:549-553` | A length line that does not start like a number makes the client fail with what it had |
| `Gzip.GzipFile.AddReadData` | `src/net4cxx/common/compress/gzip.cpp:445-455` | The buffer stays the stream from its start position on, and the unread size its unread tail |
| `Gzip.GzipFile.Read` | `src/net4cxx/common/compress/gzip.cpp:91-127` | Returns the slice of the stream from the offset: size bytes, all if negative, fewer only at the end |
| `Gzip.GzipFile.Unread` | `src/net4cxx/common/compress/gzip.h:118-121` | Bytes put back are unread again, and the buffer invariant holds |
| `Gzip.GzipFile.Rewind` | `src/net4cxx/common/compress/gzip.cpp:217-227` | Back to offset 0 with an empty buffer |
| `Gzip.GzipFile.Seek` | `src/net4cxx/common/compress/gzip.cpp:229-250` | Moves to the position or the end; a negative position ends at the end; from the end is refused |
| `Gzip.GzipFile.BufferedLine` | `src/net4cxx/common/compress/gzip.cpp:254-267` | A line found in the buffer is the line of the stream |
| `Gzip.GzipFile.CollectLine` | `src/net4cxx/common/compress/gzip.cpp:273-295` | Stops at the first newline, the limit or the end of the stream |
| `Gzip.GzipFile.ReadLine` | `src/net4cxx/common/compress/gzip.cpp:252-300` | Returns the slice of the stream up to the first newline, size bytes or the end; without a size the whole line comes if and only if its newline is buffered or it is no longer than INT32_MAX bytes |
| `Gzip.LinesSplitStream` | `src/net4cxx/common/compress/gzip.cpp:252-300` | The lines up to the end make up the stream, each but the last with exactly one newline, at its end |
| `TcpMachine.WriteLoopKeeps` | `src/net4cxx/core/network/tcp.cpp:139-206` | Synchronous writes of any lengths move bytes from the queue to the socket in order and start at most one asynchronous write |
| `TcpMachine.DoWriteKeeps` | `src/net4cxx/core/network/tcp.cpp:139-206` | Also when the queue is first merged into its front packet |
| `TcpMachine.CbWriteKeeps` | `src/net4cxx/core/network/tcp.h:111-121` | Any completion of a write keeps bytes, in-flight and close invariants |
| `TcpMachine.CbReadKeeps` | `src/net4cxx/core/network/tcp.h:93-99` | Any completion of a read, with any calls made by the protocol meanwhile, keeps them |
| `TcpMachine.NextKeeps` | `src/net4cxx/core/network/tcp.cpp:20-232` | Every event keeps them |
| `TcpMachine.EveryRun` | `src/net4cxx/core/network/tcp.cpp:20-232` | Over every run: bytes taken by the socket then the queue are exactly the data the protocol wrote while up and not closing; it got exactly the data read while not closing; at most one write in flight, and a read exactly until then; connectionLost once, at the end, with a reason unless a write took no byte |
| `TcpMachine.DoGives` | `src/net4cxx/core/network/tcp.cpp:20-41` | After any call, bytes sent and waiting are those before and then the data given, writing or idle |
| `TcpMachine.PoliteCloseLosesNothing` | `src/net4cxx/core/network/tcp.cpp:43-55` | When nothing fails and nobody aborts, every byte given has been taken by the socket once the connection is closed |
| `TcpMachine.CompletionsThatClose` | `src/net4cxx/core/network/tcp.cpp:114-232` | A posted close, a read without data, a failed write, any completed write after abort and the write that empties the queue of a closing connection end it, once |
| `TcpMachine.ClosesUnlessStuck` | `src/net4cxx/core/network/tcp.cpp:62-99` | A closing connection can still be closed by some event if and only if it is not stuck, and a stuck one stays so for ever |
| `TcpMachine.HangsExactly` | `src/net4cxx/core/network/tcp.cpp:62-232` | Some run of a closing connection ends stuck if and only if no closeSocket is posted and no write is in flight, or one that synchronous writes follow |
| `TcpMachine.LoseCanHang` | `src/net4cxx/core/network/tcp.cpp:43-75` | After loseConnection some run ends stuck if and only if, at the call, only a read was in flight, or a write that is followed by synchronous writes |
| `TcpMachine.AbortCanHang` | `src/net4cxx/core/network/tcp.cpp:52-89` | After abortConnection some run ends stuck if and only if, at the call, only a read was in flight |
| `TcpMachine.CloseCanHang` | `src/net4cxx/core/network/tcp.cpp:131-137` | Such runs exist: a fresh connection can become stuck when it is closed |
| `TcpMachine.DrainForgetsToClose` | `src/net4cxx/core/network/tcp.cpp:165-178` | On every closing connection, synchronous writes that drain the queue send all accepted bytes and return without closing |
| `TcpMachine.DataAfterLoss` | `src/net4cxx/core/network/tcp.cpp:129-137` | After connectionLost some event delivers data if and only if a read is in flight, and then any data |
| `TcpMachine.LossWithReadInFlight` | `src/net4cxx/core/network/tcp.cpp:208-221` | A run in which connectionLost is delivered while a read is in flight: a write fails |
| `TcpMachine.AssertionHolds` | `src/net4cxx/core/network/tcp.cpp:120-121` | An aborted operation on a connection not yet lost finds its reason set if and only if no write took no byte while no close had been asked for |
| `TcpMachine.ZeroWriteHasNoReason` | `src/net4cxx/core/network/tcp.cpp:157-160` | On every connection that is reading and idle, a write of which the socket takes no byte makes the assertion fail for the aborted read |
| `TcpConnections.TCPConnection.SyncWrite` | `src/net4cxx/core/network/tcp.cpp:139-190` | The loop over the queue computes the write function |
| `TcpConnections.TCPConnection.Write` | `src/net4cxx/core/network/tcp.cpp:20-41` | Refuses after close, ignores empty data, queues behind what waits, and writes at once if idle |
| `TcpConnections.TCPConnection.HandleRead` | `src/net4cxx/core/network/tcp.cpp:114-137` | Delivers data unless disconnecting; any error closes once |
| `TcpConnections.TCPConnection.HandleWrite` | `src/net4cxx/core/network/tcp.cpp:208-232` | Takes written bytes off the queue; closes when asked and drained, aborting, or on error |
| `TcpConnections.TCPConnection.Handle` | `src/net4cxx/core/network/tcp.h:93-121` | Every event on the object is the step of the machine and keeps the invariant |
| `TcpConnections.Coalesce` | `src/net4cxx/core/network/ssl.cpp:194-208` | Merging in place leaves the front buffer with the bytes of all buffers in order |
| `TaskPools.InOrderNext` | `src/net4cxx/common/threading/taskpool.cpp:40-62` | Every step keeps the list as the accepted items not yet taken, in order |
| `TaskPools.AccountedNext` | `src/net4cxx/common/threading/taskpool.cpp:28-56` | Every step keeps each taken item held by one thread or executed once |
| `TaskPools.WakesNext` | `src/net4cxx/common/threading/taskpool.cpp:40-62` | Every step keeps: while a thread is blocked, at least as many are woken as items wait; and none is blocked once stopped |
| `TaskPools.NextKeeps` | `src/net4cxx/common/threading/concurrentqueue.h:30-129` | All invariants over every step of TaskPool and of ConcurrentQueue |
| `TaskPools.BlockedMeansServed` | `src/net4cxx/common/threading/taskpool.cpp:40-62` | In every run, if items wait and a thread is blocked, a woken thread is on its way |
| `TaskPools.EachItemOnce` | `src/net4cxx/common/threading/taskpool.cpp:28-62` | In every run each accepted item is in exactly one of: list, held, executed once, disposed |
| `TaskPools.TakenInOrder` | `src/net4cxx/common/threading/taskpool.cpp:46-49` | In every run pop and tryDequeue take the oldest accepted item off the list, and leave a terminated or empty list alone |
| `TaskPools.EventsDetermine` | `src/net4cxx/common/threading/concurrentqueue.h:30-129` | Whether the list is stopped or terminated and how many items were accepted, from the events alone |
| `TaskPools.StartMakesWorkers` | `src/net4cxx/common/threading/taskpool.cpp:10-26` | Starting makes exactly the workers asked for, unless there are some or the pool was stopped or terminated |
| `TaskPools.ReturnsOnlyWhenDone` | `src/net4cxx/common/threading/taskpool.cpp:43-54` | In every run a worker has returned if and only if at one of its passes the list was terminated, or stopped and empty, and it was not called again since |
| `TaskPools.GracefulStopLosesNothing` | `src/net4cxx/common/threading/taskpool.h:53-57` | After stop without terminate, reset or late items, when all workers have returned every accepted item has been executed |
| `TaskPools.QueueIsGraceful` | `src/net4cxx/common/threading/concurrentqueue.h:30-129` | A run of ConcurrentQueue accepts nothing after stop and is not reset or terminated, if and only if nobody terminates or resets it |
| `TaskPools.StoppedQueueLosesNothing` | `src/net4cxx/common/threading/concurrentqueue.h:30-129` | A ConcurrentQueue that is stopped, not terminated or reset, has executed every accepted item when all workers have returned |
| `TaskPools.PushedInTime` | `src/net4cxx/common/threading/taskpool.cpp:28-62` | An item that TaskPool accepts, before or after stop, has been executed when all workers have returned, if and only if some worker had not yet returned when it was pushed |
| `TaskPools.LatePushIsLost` | `src/net4cxx/common/threading/taskpool.cpp:58-62` | A run in which TaskPool accepts an item after stop and nobody is left to run it |
| `TaskPoolClasses.TaskQueue.StartWorkers` | `src/net4cxx/common/threading/taskpool.cpp:10-26` | Starts workers once, unless stopped or terminated |
| `TaskPoolClasses.TaskQueue.Enqueue` | `src/net4cxx/common/threading/concurrentqueue.h:30-38` | Accepts and wakes one blocked thread, or refuses after stop or terminate |
| `TaskPoolClasses.TaskQueue.PopOnce` | `src/net4cxx/common/threading/taskpool.cpp:40-56` | One pass: an item, a return, or blocking |
| `TaskPoolClasses.TaskQueue.TryDequeue` | `src/net4cxx/common/threading/concurrentqueue.h:77-101` | An item without blocking, or none |
| `TaskPoolClasses.TaskQueue.StopAll` | `src/net4cxx/common/threading/taskpool.h:53-57` | Sets the flag and wakes every blocked thread |
| `TaskPoolClasses.TaskQueue.TerminateAll` | `src/net4cxx/common/threading/taskpool.h:64-68` | Sets the flag and wakes every blocked thread |
| `TaskPoolClasses.TaskQueue.ResetAll` | `src/net4cxx/common/threading/taskpool.h:75-79` | Clears both flags and wakes nobody |
| `TaskPoolClasses.TaskQueue.Dispose` | `src/net4cxx/common/threading/taskpool.h:27-31` | After every worker was joined, disposes exactly what is left on the list |
| `TaskPoolClasses.TaskQueue.Process` | `src/net4cxx/common/threading/taskpool.cpp:28-38` | Undisturbed, a worker runs every item in order, then returns or blocks; a terminated list is left alone |
| `UrlPath.FindRedex` | `src/net4cxx/common/httputils/urlparse.cpp:475-486` | Finds a segment to cancel, or there is none before the last |
| `UrlPath.CancelParents` | `src/net4cxx/common/httputils/urlparse.cpp:472-490` | The loop that restarts from the left terminates and equals a one-pass stack normaliser on all segments but the last, which it keeps |
| `UrlPath.NormalCancel` | `src/net4cxx/common/httputils/urlparse.cpp:479-484` | Cancelling any segment with its ".." leaves the one-pass result unchanged |
| `UrlPath.NormalIsReduced` | `src/net4cxx/common/httputils/urlparse.cpp:472-490` | The one-pass result has nothing left to cancel |
| `UrlPath.MergePath` | `src/net4cxx/common/httputils/urlparse.cpp:462-498` | The path urlJoin builds for a relative path, in terms of one pass; the seven laws from UrlPath.LastOfBaseIgnored on say what it is on the strings |
| `UrlPath.MergedIsResolved` | `src/net4cxx/common/httputils/urlparse.cpp:468-496` | No "." is left, and before the last segment no ".." after a segment it could remove; a ".." is left last if and only if it was there and at most one other segment is left, not a leading slash |
| `UrlPath.MergedSplits` | `src/net4cxx/common/httputils/urlparse.cpp:462-498` | The merged path splits into the merged segments again |
| `UrlPath.LastOfBaseIgnored` | `src/net4cxx/common/httputils/urlparse.cpp:462-467` | What follows the last slash of the base does not matter |
| `UrlPath.PlainPathReplacesLast` | `src/net4cxx/common/httputils/urlparse.cpp:462-498` | Without "." and ".." the path takes the place of what follows the last slash of the base |
| `UrlPath.DotSegmentDropped` | `src/net4cxx/common/httputils/urlparse.cpp:471` | A leading "." segment of the path does nothing |
| `UrlPath.ParentRemovesSegment` | `src/net4cxx/common/httputils/urlparse.cpp:472-490` | A leading ".." segment of the path removes the last directory of the base, whichever it is |
| `UrlPath.DotIsDirectory` | `src/net4cxx/common/httputils/urlparse.cpp:468-470` | The path "." gives the directory of the base with a slash |
| `UrlPath.ParentIsAbove` | `src/net4cxx/common/httputils/urlparse.cpp:493-496` | The path ".." gives the directory above with a slash |
| `UrlPath.ParentOfRoot` | `src/net4cxx/common/httputils/urlparse.cpp:491-492` | At the root ".." stays at the root |
| `UrlText.Quote` | `src/net4cxx/common/httputils/urlparse.cpp:549-567` | The all-safe shortcut agrees with quoting character by character |
| `UrlText.Unquote` | `src/net4cxx/common/httputils/urlparse.cpp:513-543` | The pieces between percent signs decode as the specification says; malformed escapes stay |
| `UrlText.QuotingIsInvertible` | `src/net4cxx/common/httputils/urlparse.cpp:513-567` | Unquoting undoes quoting on every byte string if and only if the percent sign is not declared safe |
| `UrlText.QuotedByte` | `src/net4cxx/common/httputils/urlparse.cpp:549-567` | Exactly letters, digits, underscore, full stop, hyphen and the bytes declared safe stay; any other becomes a percent sign and two upper-case digits |
| `UrlText.QuotePlus` | `src/net4cxx/common/httputils/urlparse.cpp:569-576` | As quoting, with spaces as plus signs |
| `UrlText.QuotedPlusBytes` | `src/net4cxx/common/httputils/urlparse.cpp:569-576` | Byte by byte: a space becomes a plus sign, anything else what it is quoted to |
| `UrlText.PlusInverse` | `src/net4cxx/common/httputils/urlparse.cpp:545-576` | unquotePlus undoes quotePlus on every byte string, and no separator is left in it |
| `UrlText.UrlEncode` | `src/net4cxx/common/httputils/urlparse.cpp:594-600` | Joins the encoded pairs |
| `UrlText.ParseQsl` | `src/net4cxx/common/httputils/urlparse.cpp:633-673` | Splits at both separators, and skips, rejects or decodes each field |
| `UrlText.FormRoundTrip` | `src/net4cxx/common/httputils/urlparse.cpp:594-673` | Every list of byte-string pairs survives, empty names and values included; without keepBlankValues exactly the blank values are dropped; strict parsing fails on exactly the empty list |
| `UrlText.SeparatorsAreAlike` | `src/net4cxx/common/httputils/urlparse.cpp:633-645` | Encoded pairs survive with ampersands and semicolons mixed in any way between them |
| `UrlText.BareName` | `src/net4cxx/common/httputils/urlparse.cpp:646-668` | A field without an equals sign, anywhere among others: an error when strict, a name with an empty value, or dropped |
| `UrlText.FirstEqualsDivides` | `src/net4cxx/common/httputils/urlparse.cpp:646-668` | A field is divided at its first equals sign, whatever the value |
| `UrlText.EncodeThenParse` | `src/net4cxx/common/httputils/urlparse.cpp:594-673` | The same through the two methods |
| `ArchiveFormat.LengthRoundTrip` | `src/net4cxx/common/serialization/archive.h:552-560` | A length is read back, whatever follows, if and only if it is below 2^32 |
| `ArchiveFormat.RoundTrip` | `src/net4cxx/common/serialization/archive.h:135-519` | Reading the encoding of any nested value, on a host of either byte order, gives the value and leaves exactly what follows, if and only if its reals are finite and the hosts agree on them; otherwise it fails with ArchiveError or, between hosts, gives another value |
| `ArchiveFormat.RealRoundTrip` | `src/net4cxx/common/serialization/archive.h:724-746` | A float or double is read back if and only if it is finite and the hosts have the same byte order or its bytes are a palindrome |
| `ArchiveFormat.RealsOnTheWire` | `src/net4cxx/common/serialization/archive.h:724-746` | A float takes four bytes and a double eight, in the order of the host; the bits refused are those of infinities and of what is not a number |
| `ArchiveFormat.ItemsRoundTrip` | `src/net4cxx/common/serialization/archive.h:643-722` | Sequences, and sets and mappings with distinct keys, are rebuilt element by element in order if and only if all elements survive |
| `ArchiveFormat.SequenceReadAsSet` | `src/net4cxx/common/serialization/archive.h:643-722` | Elements written with repetitions are read into a set as the first of each |
| `ArchiveFormat.SequenceReadAsMapping` | `src/net4cxx/common/serialization/archive.h:643-722` | Pairs written with repeated keys are read into a mapping as the first with each key |
| `ArchiveFormat.DecodeExtends` | `src/net4cxx/common/serialization/archive.h:330-519` | Unless it stops for want of bytes, reading never looks past what it consumes |
| `ArchiveFormat.TruncatedFails` | `src/net4cxx/common/serialization/archive.h:748-754` | Cutting an encoding short anywhere makes reading fail, with ArchivePositionError unless a real is not finite |
| `Archives.Archive.Write` | `src/net4cxx/common/serialization/archive.h:135-324` | Appends exactly the encoding and restores the mode |
| `Archives.Archive.ReadValue` | `src/net4cxx/common/serialization/archive.h:330-523` | Agrees with the decoding of the bytes at the position, in value, error and position reached, and restores the mode |
| `Archives.Archive.WriteThenRead` | `src/net4cxx/common/serialization/archive.h:135-523` | A value written at the read position is read back, and the position is at the end again, if and only if its reals are finite |

## Left out

- Deferred: callbacks do not call back into the network while it runs, do not pause it and are pure; a canceller does nothing but fire its Deferred or not, and is not replaced; addTimeout, chainDeferred and the reset of `_chainTo` are not modelled; an assertion failure (a callback returning its own Deferred, unpause below zero) is excluded by precondition.
- Defer.Deferred.Cancel: requires that following the waits ends; `DeferLaws.WaitsEndUnlessCycle` says when it does and `DeferLaws.MutualWaitDefeatsCancel` shows that it need not.
- DeferLists.DeferredList.CbDeferred: completions come from outside; the list's own queue of callbacks is the Deferred of the other module, and cancel of the members is not modelled.
- JSON: comments, special floats, the value of reals (which tokens sscanf reads is a parameter, and reals are not printed), numeric keys, single quotes, dropped nulls and error messages; text with a slash outside a string is read by the original as a comment and here as an error.
- JsonReader.WriteThenParse: keys are required to survive quoting, to have no NUL and to be shorter than 2^30; the printer looks members up by the key cut at its NUL. What is read for other keys is said by `JsonLayouts.ParseDocument`.
- Framing.Receiver.DataReceived: requires that the call returns; `Framing.EndsAtLast` says that it does unless it meets a UInt32 message of 2^32 - 4 bytes that does not make the handler throw.
- IOStreams: regular-expression reads, write callbacks, and requests made outside onConnected and onDataRead; the application is a pure function of its state and the data. After connectionLost the invariant keeps bytes and wake-ups but no longer says that the bytes alone determine the deliveries.
- IOStreams.IOStream.ReadUntil: a delimiter has no NUL; `MessageBuffers.NulDelimiterOverruns` says why.
- HttpBody: header parsing and printing and the choice of the client between the three kinds of body, trailers, decompression, timeouts, redirects and streaming callbacks; the header block is a parameter.
- HttpBody.ChunkedBodyArrives: each chunk fits one block of 65535 bytes or is made of whole blocks; `HttpBody.ChunkReadExactly` says that other chunks are overrun, and `HttpBody.ChunkedBodyExactly` that the body then does not arrive, unless a chunk begins with a carriage return, which is left open. The server's own chunk decoder, which never dispatches its last state, is not modelled.
- Gzip: zlib, the member headers and trailers and their errors, writing, and closed files; the stream is yielded in pieces of any sizes.
- TcpMachine: producers, time-outs, the SSL handshake and shutdown, and the listener and connector; a completion with an error transfers no byte; the protocol's connectionLost handler makes no further calls, which would be refused anyway.
- TcpConnections.TCPConnection: packets are their active bytes; `TcpConnections.Coalesce` alone works on buffer objects.
- TaskPools: tasks do not throw and make no calls on the pool; one step is one critical section, and time does not pass. Both kinds share one class.
- UrlPath.MergePath: only the merging of a relative path; the choice by scheme, netloc and empty path, and urlSplit, are not modelled.
- UrlText: the map forms of urlEncode and parseQS; characters are bytes.
- ArchiveFormat.RoundTrip: sets and mappings are their elements in the order of iteration, and compare reals by their bits, so that 0 and -0 differ; lengths are below 2^32; arrays of fixed size are structs.
- Connector and Listener liveness, ReconnectingClientFactory, Random, WebSocket, logging, options, configuration, CSV, watchers and web handlers: easy members or foreign behaviour.
