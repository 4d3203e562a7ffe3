# Native engine: protocols, conversions and lifetimes

A Dafny model of the parts of the native engine whose correctness rests on state, order or arithmetic,
with proofs of what they are for. `dafny verify dfyconfig.toml` checks all of it.

| files | what they model |
|---|---|
| `safe_async_protocol.dfy`, `safe_async_proofs.dfy`, `safe_async_laws.dfy`, `safe_async_wakeup.dfy`, `safe_async_shutdown.dfy`, `safe_async_work.dfy` | The thread-safe function: a bounded queue with blocking senders, a thread reference count, three statuses, and the async-to-idle handshake with the event loop. A step machine, the cases of each step, what every run of it keeps and does, and the class whose methods are proved to take its steps. |
| `utf_code_points.dfy`, `utf_conversion.dfy`, `utf_strings.dfy` | The UTF-8 and UTF-16 conversions: bit arithmetic of one code point, whole strings as functions with their round trips, and the cursor loops over caller-supplied buffers proved against those functions. |
| `sequences.dfy` | Distinct sequences, sequences without one element and sequences backwards, for the other files. |
| `scope_stack.dfy`, `scope_manager.dfy` | Handle scopes: a stack of value lists with conservation over every run, and the linked chain of scopes and handles that refines it. |
| `cleanup_protocol.dfy`, `cleanup_proofs.dfy`, `cleanup_order.dfy`, `cleanup_calls.dfy`, `cleanup_laws.dfy`, `cleanup_hooks.dfy` | Environment teardown: hooks run from a set that they change themselves, and the ledger of asynchronous hooks. A function of the state and of what user code does, its theorems, and the class whose methods are proved to compute it. |
| `reference_manager.dfy` | The linked list of reference handlers, whose destructor is re-entered by the references it deletes. |
| `bigint_words.dfy` | BigInts as 64-bit words: the encoding and decoding scripts and the native code around them. |

## How the parts are modelled

*Thread-safe function.* One action is one critical section or one event-loop callback, and a run is any
interleaving of them. libuv is an async flag that coalesces, an idle flag and the closing phase; each
libuv call that can fail has a result parameter. The condition variable is a set of waiting and a set of
notified threads; which thread `notify_one` picks is a parameter, and a thread may wake spuriously. The
log in a state is ghost information that no step reads.

*Conversions.* Bytes and units are bit vectors. Whether `char` is signed is a parameter; the round trips
hold either way. The decoder's precondition is that what it reads is there, which the length pass checks,
as in the `GetCString16` of QuickJS.

*Scopes and references.* `delete` is recorded in a ghost sequence. Which index a scope has in the chain,
and which scope a handle is in, are ghost facts.

*Cleanup hooks.* Each time control goes out to user code, by calling a hook or by turning the event loop,
the next entry of a script says which API calls it makes. The theorems hold for every script. An entry is
removed from the script as it is used up; a call records how many had been used up before it.

*BigInt words.* `BigInt(2 ** 64 - 1)` is computed in doubles; `RadixRoundsUp` shows why it is 2^64.

## Where the code falls short of what one would expect

Each is proved, where the code meets the expectation only at times with the exact condition for it.

- A failing `uv_async_send` or `uv_idle_start` leaves work that nothing will come for. `StepKeepsWork`
  says exactly when; `FailedSendLosesWork` is a run.
- `notify_one` at one exact queue size, and once on abort, serves one blocked sender. `StepKeepsWakeUp`
  says exactly which steps break the invariant that a waiting sender's notification is ahead, and
  `NotifiedSoon` how soon it comes while it holds. A broken invariant is not yet a lost notification, for
  senders that go on may fill the queue again: `LeftBehindExactly` says exactly when a waiting sender of an
  open object can no longer be notified without a new call, `OpenObjectStrands` is a run that ends so, and
  `TwoBlockedSenders` with `StrandedForever` shows the same after an abort.
- The comment "when queue is full, notify send" (native_engine/native_safe_async_work.cpp:282) describes
  size `maxQueueSize_`, while senders block only above it, at `maxQueueSize_` + 1. `RunKeepsInv` has
  the bound this gives: the queue may hold one item more than its limit.
- Closing a scope other than the current one leaves its child linked to a deleted parent. `Close` keeps
  the chain well formed if and only if the scope is null, the root or the current one.
- A finalizer is forgotten only after it has run. On a last `Unref`, one that deletes its own reference is
  therefore run a second time by the destructor; `UnrefLast` says that this is so if and only if the
  reference is among its own victims.
- Unpaired surrogates are dropped by the encoder. `RoundTripIsLossless` says when nothing is lost.
- The encoder writes its terminator after `str8Len` bytes when they are all used; the caller's buffer
  then needs one byte more. `FillsExactly` says when that is: if and only if some prefix of the string
  encodes to exactly `str8Len` bytes; `TerminatorPastTheEnd` is an input. `Char16ToChar8` provides the byte,
  as `LengthPassSuffices` shows.
- The length pass accepts bytes outside the RFC 3629 grammar, such as overlong forms and stray tail bytes.
  `OverlongIsAccepted` is one; `ReverseRoundTripIsExact` says that of the accepted inputs exactly the
  grammatical ones come back unchanged. Two-pass agreement and truncation hold for all accepted inputs.
- `GetCString16` of QuickJS stops at an embedded zero, and on malformed bytes keeps the engine's byte count
  as the length.
- A BigInt of more than 20 words can be read but not created.

## Model

| member | source | states |
|---|---|---|
| `SafeAsyncProofs.RunKeepsInv` | native_engine/native_safe_async_work.cpp:129-349 | In every state of every run, libuv failing or not: pushed items = delivered, then drained, then queued, in order; handles closed and finalizer run at most once and in that order; threads held + released + sends answered CLOSED = initial + acquired; the queue is never longer than its limit plus one; CLOSED without an abort means empty queue, no threads, nothing drained |
| `SafeAsyncProofs.RunOutcome` | native_engine/native_safe_async_work.cpp:129-349 | After `CleanUp` each item pushed was delivered or handed back exactly once, in push order; a close without abort delivered all of them; nobody gives up more references than were taken |
| `SafeAsyncProofs.SendResultTells` | native_engine/native_safe_async_work.cpp:129-163 | The result code of `Send` says exactly whether the item was queued, whether a reference was given up, or whether nothing changed, and why |
| `SafeAsyncProofs.ReleaseResultTells` | native_engine/native_safe_async_work.cpp:183-221 | The result code of `Release` says exactly whether a reference was given up; an accepted abort or last release that reports success has an event pending |
| `SafeAsyncProofs.PathIsMonotone` | native_engine/native_safe_async_work.cpp:129-349 | Between any two states of a path the status only advances and logs only grow; once closing nothing is pushed, delivered, acquired or released any more |
| `SafeAsyncProofs.StepKeepsWork` | native_engine/native_safe_async_work.cpp:26-44 | Outstanding work keeps an event coming, and a step breaks this if and only if it is one of the failing calls: a send, resumed send or release whose `uv_async_send` fails, or a failing `uv_idle_start`, while nothing else will wake the loop |
| `SafeAsyncProofs.RunKeepsWork` | native_engine/native_safe_async_work.cpp:129-304 | No lost work: in every run that starts with at least one thread and has no such failing call, a non-closed object with queued items, a pending close or no threads has its async event pending or its idle handle active |
| `SafeAsyncProofs.FailedSendLosesWork` | native_engine/native_safe_async_work.cpp:154-159 | A concrete run: one failing `uv_async_send` leaves an item queued with nothing to deliver it |
| `SafeAsyncLaws.RunIsFifo` | native_engine/native_safe_async_work.cpp:129-349 | In every run the arguments of the `Send` calls that went through, read off the calls and in the order in which they went through, blocked ones included, are the items handed to the script side, then those handed back by `CleanUp`, then those still queued |
| `SafeAsyncLaws.RunAborts` | native_engine/native_safe_async_work.cpp:203-208 | In every run the object counts as aborted if and only if one of the calls was `Release` with abort on an open object with a thread; no ordinary release aborts |
| `SafeAsyncLaws.WithoutAbortAllDelivered` | native_engine/native_safe_async_work.cpp:129-349 | In a run without such a call an object that is no longer open is closed, has no thread and has delivered the argument of every `Send` that went through, in order |
| `SafeAsyncLaws.DeliveredSoon` | native_engine/native_safe_async_work.cpp:278-294 | With no lost work and no new call, whatever the threads, the wait set and the order of loop steps, the item at position k of an open object's queue has been delivered after k + 2 loop steps, behind all those in front of it |
| `SafeAsyncLaws.RunDeliversSoon` | native_engine/native_safe_async_work.cpp:129-304 | The same from any state of any run in which no waking call fails, in terms of what the steps of the run deliver |
| `SafeAsyncLaws.RunCountsThreads` | native_engine/native_safe_async_work.cpp:129-221 | In every run `threadCount_` is the initial count, plus the calls of `Acquire` on an open object, minus the calls of `Release` on an open and of `Send` on a closing object while a thread is left |
| `SafeAsyncLaws.StepMovesItems` | native_engine/native_safe_async_work.cpp:129-349 | Whatever the step and the state: what goes in is the argument of the send that goes through, what is delivered is the first of the queue of an open object, what is handed back is the whole queue at `CleanUp`, and no other step moves an item |
| `SafeAsyncLaws.SendTells` | native_engine/native_safe_async_work.cpp:129-143 | The four cases of `Send` up to its wait, for every state: queued with its event, parked only if blocking, `QUEUE_FULL` only if not, or the answers of a closing object; nothing else changes |
| `SafeAsyncLaws.WakeResultTells` | native_engine/native_safe_async_work.cpp:137-162 | A sender that goes on after the wait pushes the data it was called with, or parks again with it, or gets the answers of a closing object; nothing else changes |
| `SafeAsyncLaws.ParkedBefore` | native_engine/native_safe_async_work.cpp:137-139 | Whoever waits after a step waited before with the same data, or has just called with it |
| `SafeAsyncLaws.AcquireTells` | native_engine/native_safe_async_work.cpp:165-181 | One thread more if the object is open; CLOSED and nothing else changed if it is not |
| `SafeAsyncLaws.OrdinaryReleaseTells` | native_engine/native_safe_async_work.cpp:190-221 | An ordinary release leaves status, queue and senders alone, tells CLOSED from INVALID_ARGS, and asks for an event exactly when the last thread goes |
| `SafeAsyncLaws.AbortTells` | native_engine/native_safe_async_work.cpp:203-221 | An abort also starts closing, asks for an event whatever the thread count, and notifies one sender where the queue is limited |
| `SafeAsyncLaws.NotifyTells` | native_engine/native_safe_async_work.cpp:206-206 | `notify_one` moves the chosen waiting thread with its data to the notified ones and does nothing else |
| `SafeAsyncLaws.FireTells` | native_engine/native_safe_async_work.cpp:26-36 | The async callback consumes the event and starts the idle handle unless that fails, and does nothing else |
| `SafeAsyncLaws.TickDelivers` | native_engine/native_safe_async_work.cpp:278-304 | A tick of any open object with items queued hands over exactly the first one and leaves the rest, whatever threads hold it or wait; it notifies at exactly the limit, stops behind the last item and closes exactly if no thread is left then |
| `SafeAsyncLaws.TickWithoutDelivery` | native_engine/native_safe_async_work.cpp:258-304 | Every other tick delivers nothing: it does nothing once closed, closes if closing or if no thread is left, and otherwise stops the idle handle |
| `SafeAsyncLaws.EnabledTells` | native_engine/native_safe_async_work.cpp:129-349 | When each step can happen: calls by threads that do not wait, resumption of those that do, callbacks of active handles |
| `SafeAsyncWakeUp.StepKeepsWakeUp` | native_engine/native_safe_async_work.cpp:121-143 | The invariant `WakeUpAhead`, that un-notified blocked senders imply an open object holding at least `maxQueueSize_` items, is broken by a step if and only if the step notifies while more than one is waiting |
| `SafeAsyncWakeUp.RunKeepsWakeUp` | native_engine/native_safe_async_work.cpp:275-294 | With never more than one un-notified blocked sender, `WakeUpAhead` holds in every state of every run |
| `SafeAsyncWakeUp.NotifiedSoon` | native_engine/native_safe_async_work.cpp:275-294 | Where `WakeUpAhead` holds and no work is lost, a waiting sender's notification comes: without new calls, whatever the order of loop steps and resumed senders, at most queue length - max + 1 + 3 * notified steps pass before the notifying tick, and the loop can always take one |
| `SafeAsyncWakeUp.RunNotifiesSoon` | native_engine/native_safe_async_work.cpp:129-304 | The same from any state of any run with successful waking calls and at most one un-notified blocked sender at a time |
| `SafeAsyncWakeUp.LeftBehindExactly` | native_engine/native_safe_async_work.cpp:275-294 | A waiting sender of an open object in which no work is lost can be notified without any new call if and only if the queue and the notified senders together reach `maxQueueSize_` |
| `SafeAsyncWakeUp.LeftBehind` | native_engine/native_safe_async_work.cpp:137-143 | Once they are too few, or the object is closing, the wait set stays exactly as it is in every continuation without new calls and spurious wake-ups, libuv failing or not |
| `SafeAsyncWakeUp.OpenObjectStrands` | native_engine/native_safe_async_work.cpp:282-285 | A concrete run from the initial state, all libuv calls succeeding: limit two, two blocked senders, one notified in time; the open object ends with an empty queue, no event pending and the second sender still waiting |
| `SafeAsyncWakeUp.AbortFreesOne` | native_engine/native_safe_async_work.cpp:203-208 | An accepted abort wakes exactly one blocked sender, so all of them only when there is at most one |
| `SafeAsyncWakeUp.StrandedForever` | native_engine/native_safe_async_work.cpp:137-143 | A sender still un-notified once the object is closing stays blocked in every continuation in which it is not woken spuriously |
| `SafeAsyncWakeUp.TwoBlockedSenders` | native_engine/native_safe_async_work.cpp:203-208 | A concrete run with two blocked senders and one abort that strands the second |
| `SafeAsyncShutdown.WindingDownStep` | native_engine/native_safe_async_work.cpp:254-349 | Each successful loop step of an object with no threads or in closing keeps it winding down and decreases a measure of queue length and phase |
| `SafeAsyncShutdown.WindingDownNotStuck` | native_engine/native_safe_async_work.cpp:26-44 | Until it is finalized such an object always has a loop step to take |
| `SafeAsyncShutdown.ShutdownTerminates` | native_engine/native_safe_async_work.cpp:254-349 | Loop steps alone take such an object to rest within queue length + 4 steps, and it can rest only finalized: closed once, finalizer run once, queue empty, every item accounted for |
| `SafeAsyncShutdown.ShutdownWithSenders` | native_engine/native_safe_async_work.cpp:129-349 | With senders still parked, loop steps and resumed senders in any order settle within 2 * queue length + 3 * waiting + 4 * notified + 4 steps, and rest only finalized with every notified sender answered |
| `SafeAsyncShutdown.RunWindsDown` | native_engine/native_safe_async_work.cpp:129-349 | In any run whose libuv calls succeed and whose initial thread count is positive the object is winding down as soon as no thread holds it or an abort came |
| `SafeAsyncShutdown.OrderlyShutdown` | native_engine/native_safe_async_work.cpp:129-349 | Therefore, from any such reachable state, with no further API calls the loop and the resumed senders bring it to finalized rest within the bound above; the loop alone within queue length + 4 steps |
| `SafeAsyncShutdown.CleanUpIsDraining` | native_engine/native_safe_async_work.cpp:332-349 | `CleanUp` is the finalizer and then one item after the other, in order |
| `SafeAsyncShutdown.CleanUpCommutes` | native_engine/native_safe_async_work.cpp:332-349 | `CleanUp` takes no lock; any call of another thread on the closed object, before it, between two items or after, commutes with what is left of it, so one atomic step loses no behaviour |
| `SafeAsyncWork.NativeSafeAsyncWork.constructor` | native_engine/native_safe_async_work.cpp:68-90 | A new object is the protocol's initial state but for its status and handles, which are not set up yet |
| `SafeAsyncWork.NativeSafeAsyncWork.Init` | native_engine/native_safe_async_work.cpp:94-119 | Usable exactly when loop, async handle and idle handle are all there; only then is the status set; an async handle without an idle handle is closed again |
| `SafeAsyncWork.NativeSafeAsyncWork.IsMaxQueueSize` | native_engine/native_safe_async_work.cpp:121-127 | The queue-full test of the protocol |
| `SafeAsyncWork.NativeSafeAsyncWork.Send` | native_engine/native_safe_async_work.cpp:129-143 | Takes the protocol's send step with its result, whose cases are in `SendTells` |
| `SafeAsyncWork.NativeSafeAsyncWork.Resume` | native_engine/native_safe_async_work.cpp:137-139 | A parked sender that holds the mutex again takes the protocol's wake step and so, by `WakeResultTells`, pushes the data it was called with or parks again with it |
| `SafeAsyncWork.NativeSafeAsyncWork.FinishSend` | native_engine/native_safe_async_work.cpp:145-162 | The part after the wait takes the protocol's tail step, error codes included |
| `SafeAsyncWork.NativeSafeAsyncWork.Acquire` | native_engine/native_safe_async_work.cpp:165-181 | Takes the protocol's acquire step (`AcquireTells`) |
| `SafeAsyncWork.NativeSafeAsyncWork.Release` | native_engine/native_safe_async_work.cpp:183-221 | Takes the protocol's release step, whose cases are in `OrdinaryReleaseTells` and `AbortTells` |
| `SafeAsyncWork.NativeSafeAsyncWork.Notify` | native_engine/native_safe_async_work.cpp:206-206 | Moves the chosen waiting thread, and only it, to the notified ones |
| `SafeAsyncWork.NativeSafeAsyncWork.AsyncCallback` | native_engine/native_safe_async_work.cpp:26-36 | Consumes the async event and starts the idle handle if that succeeds |
| `SafeAsyncWork.NativeSafeAsyncWork.ProcessAsyncHandle` | native_engine/native_safe_async_work.cpp:254-304 | Takes the protocol's process step and so, by `TickDelivers`, hands over the first item whenever the object is open and has one |
| `SafeAsyncWork.NativeSafeAsyncWork.CloseHandles` | native_engine/native_safe_async_work.cpp:306-330 | Closes once; a second call reports CLOSED and changes nothing |
| `SafeAsyncWork.NativeSafeAsyncWork.OnAsyncHandleClosed` | native_engine/native_safe_async_work.cpp:318-327 | The async handle's close callback closes the idle handle |
| `SafeAsyncWork.NativeSafeAsyncWork.CleanUp` | native_engine/native_safe_async_work.cpp:332-349 | Finalizer, then the drain loop hands back the whole queue in order |
| `UtfCodePoints.LeadByteTable` | native_engine/impl/jerryscript/native_value/jerryscript_native_string.cpp:107-111 | The packed table 0xe5000000 gives length 2, 3, 4 exactly for lead bytes C0-DF, E0-EF, F0-FF and 1 for all others |
| `UtfCodePoints.EncodeThenDecode2` | native_engine/impl/jerryscript/native_value/jerryscript_native_string.cpp:127-130 | Every code point of two bytes encodes to grammatical bytes that decode to it |
| `UtfCodePoints.EncodeThenDecode3` | native_engine/impl/jerryscript/native_value/jerryscript_native_string.cpp:131-135 | The same for three bytes, surrogates excluded |
| `UtfCodePoints.EncodeThenDecode4` | native_engine/impl/jerryscript/native_value/jerryscript_native_string.cpp:136-141 | The same for four bytes |
| `UtfCodePoints.DecodeThenEncode2` | native_engine/impl/jerryscript/native_value/jerryscript_native_string.cpp:276-297 | Two grammatical bytes decode into the two-byte range and re-encode to themselves |
| `UtfCodePoints.Decode3InRange` | native_engine/impl/jerryscript/native_value/jerryscript_native_string.cpp:131-135 | Three grammatical bytes decode into the three-byte range, never to a surrogate |
| `UtfCodePoints.DecodeThenEncode3` | native_engine/impl/jerryscript/native_value/jerryscript_native_string.cpp:276-297 | Three bytes of the right shape re-encode to themselves |
| `UtfCodePoints.Decode4InRange` | native_engine/impl/jerryscript/native_value/jerryscript_native_string.cpp:136-141 | Four grammatical bytes decode to 0x10000 up to 0x10FFFF |
| `UtfCodePoints.DecodeThenEncode4` | native_engine/impl/jerryscript/native_value/jerryscript_native_string.cpp:276-297 | Four bytes of the right shape re-encode to themselves |
| `UtfCodePoints.SplitThenCombine` | native_engine/impl/jerryscript/native_value/jerryscript_native_string.cpp:92-99 | Splitting a supplementary code point gives a high and a low surrogate whose combination is that code point |
| `UtfCodePoints.CombineThenSplit` | native_engine/impl/jerryscript/native_value/jerryscript_native_string.cpp:256-260 | Combining any surrogate pair gives a supplementary code point that splits into that pair |
| `UtfCodePoints.Decode2Value` | native_engine/impl/jerryscript/native_value/jerryscript_native_string.cpp:127-130 | The value of a two-byte character by the numbers of section 3 of RFC 3629 |
| `UtfCodePoints.Decode3Value` | native_engine/impl/jerryscript/native_value/jerryscript_native_string.cpp:131-135 | The same for three bytes |
| `UtfCodePoints.Decode4Value` | native_engine/impl/jerryscript/native_value/jerryscript_native_string.cpp:136-141 | The same for four bytes |
| `UtfCodePoints.PairValue` | native_engine/impl/jerryscript/native_value/jerryscript_native_string.cpp:256-260 | The value of a surrogate pair by the numbers of section 2.2 of RFC 2781 |
| `UtfCodePoints.SurrogateHalves` | native_engine/impl/jerryscript/native_value/jerryscript_native_string.cpp:252-255 | The masks tell high and low surrogates by their ranges |
| `UtfCodePoints.WideningTells` | native_engine/impl/jerryscript/native_value/jerryscript_native_string.cpp:125-126 | A byte widened by a signed `char` is its sign extension; below 0x80 and for an unsigned `char` it is the byte |
| `UtfConversion.ScalarLength` | native_engine/impl/jerryscript/native_value/jerryscript_native_string.cpp:175-195 | The encoder's length is positive exactly for Unicode scalar values |
| `UtfConversion.EncodedCharacter` | native_engine/impl/jerryscript/native_value/jerryscript_native_string.cpp:276-297 | The bytes of any scalar value, followed by anything, are one grammatical character of the announced length that decodes to it |
| `UtfConversion.DecodedCharacter` | native_engine/impl/jerryscript/native_value/jerryscript_native_string.cpp:113-145 | Any grammatical character decodes to a scalar value that encodes to exactly those bytes |
| `UtfConversion.RoundTrip` | native_engine/impl/jerryscript/native_value/jerryscript_native_string.cpp:246-274 | Every UTF-16 sequence encodes to bytes in the grammar of RFC 3629 section 4, and decoding those gives the input without exactly its unpaired surrogates |
| `UtfConversion.RoundTripIsLossless` | native_engine/impl/jerryscript/native_value/jerryscript_native_string.cpp:246-274 | Encoding then decoding is the identity if and only if every surrogate is paired |
| `UtfConversion.ReverseRoundTrip` | native_engine/impl/jerryscript/native_value/jerryscript_native_string.cpp:73-105 | Every grammatical byte sequence can be decoded, and encoding the result gives the same bytes |
| `UtfConversion.ReverseRoundTripIsExact` | native_engine/impl/jerryscript/native_value/jerryscript_native_string.cpp:73-105 | Of all bytes the length pass accepts, exactly the grammatical ones come back unchanged from decoding and encoding |
| `UtfConversion.OverlongIsAccepted` | native_engine/impl/jerryscript/native_value/jerryscript_native_string.cpp:153-173 | A concrete input outside the grammar that the length pass accepts and the round trip changes |
| `UtfConversion.EncoderImage` | native_engine/impl/jerryscript/native_value/jerryscript_native_string.cpp:246-274 | The byte sequences the encoder produces are exactly the grammatical ones |
| `UtfConversion.DecodedIsPaired` | native_engine/impl/jerryscript/native_value/jerryscript_native_string.cpp:84-104 | Decoding grammatical bytes never yields an unpaired surrogate |
| `UtfConversion.FittingIsPrefix` | native_engine/impl/jerryscript/native_value/jerryscript_native_string.cpp:264-273 | Encoding into limited room gives a grammatical prefix of the full encoding, the whole of it exactly when it fits |
| `UtfConversion.FittingIsLongest` | native_engine/impl/jerryscript/native_value/jerryscript_native_string.cpp:264-273 | What is written into limited room is at least the encoding of every prefix of the string that fits: the early break comes as late as it can |
| `UtfConversion.FillsExactly` | native_engine/impl/jerryscript/native_value/jerryscript_native_string.cpp:264-273 | The encoder uses all of its `str8Len` bytes, so that its terminator goes one past them, if and only if some prefix of the string encodes to exactly that many bytes |
| `UtfConversion.TerminatorPastTheEnd` | native_engine/impl/jerryscript/native_value/jerryscript_native_string.cpp:273-273 | A concrete input: the letter A into one byte |
| `UtfConversion.DecodeIntoIsPrefix` | native_engine/impl/quickjs/native_value/quickjs_native_string.cpp:156-177 | Of input the length pass accepts, exactly the first min(n, room) units of the full decoding are stored |
| `UtfConversion.ReadsWholeCharacters` | native_engine/impl/quickjs/native_value/quickjs_native_string.cpp:156-177 | On any input the loop stops behind the last whole character that fits: it stores the decoding of the bytes up to there and the first half of the next character if one unit of room is left, and returns the length of the former |
| `UtfConversion.CutSplitsAtMostOnePair` | native_engine/impl/quickjs/native_value/quickjs_native_string.cpp:156-177 | Cut off at a number of units, the whole characters stored fall short of it by at most one |
| `UtfConversion.CutSplitsPair` | native_engine/impl/jerryscript/native_value/jerryscript_native_string.cpp:94-99 | In grammatical input the cut goes through a pair exactly when the last unit before it is a high surrogate |
| `NativeStrings.Utf8ToUtf16Length` | native_engine/impl/quickjs/native_value/quickjs_native_string.cpp:225-247 | For any bytes: -1 exactly when some announced character runs past the end, otherwise the number of units decoding gives |
| `NativeStrings.StoreCodePoint` | native_engine/impl/quickjs/native_value/quickjs_native_string.cpp:160-172 | Stores one or two units as far as there is room and touches nothing else |
| `NativeStrings.Utf8ToUtf16` | native_engine/impl/quickjs/native_value/quickjs_native_string.cpp:145-177 | On any input of which every character begun before the buffer is full is complete: reads nothing past the end, stores units until the input ends or only the last place is left, keeps the rest of the buffer, and returns where the last whole character ended |
| `NativeStrings.EnoughRoom` | native_engine/impl/quickjs/native_value/quickjs_native_string.cpp:80-83 | Two-pass agreement: with room for the measured n units beside the last one, exactly n are stored and the position returned is n |
| `NativeStrings.CutShort` | native_engine/impl/quickjs/native_value/quickjs_native_string.cpp:160-171 | With less room exactly that many leading units are stored, even through a pair, and the position returned is short by at most one; for grammatical input it is short exactly when the last unit stored is a high surrogate |
| `NativeStrings.CString` | native_engine/impl/quickjs/native_value/quickjs_native_string.cpp:73-73 | `strlen`: the longest prefix without a zero byte |
| `NativeStrings.TruncatedCopyOf` | native_engine/impl/quickjs/native_value/quickjs_native_string.cpp:80-83 | Zeroing and then converting leaves each unit of the buffer decoded or zero, the last always zero, and nothing changed beyond |
| `NativeStrings.GetCString16` | native_engine/impl/quickjs/native_value/quickjs_native_string.cpp:65-86 | The length is the decoded length, or the count the engine stored where it gives no string or malformed bytes; the buffer is then untouched, as it is when no length is asked for, otherwise it holds the truncated decoding followed by zeros |
| `NativeStrings.Utf16ToUtf8Length` | native_engine/impl/jerryscript/native_value/jerryscript_native_string.cpp:198-223 | The size of the encoding; -1 for empty input and where `int` would overflow |
| `NativeStrings.Utf32CodePointToUtf8` | native_engine/impl/jerryscript/native_value/jerryscript_native_string.cpp:276-297 | Writing from the last byte backwards leaves the encoding of the code point at its place and nothing else changed |
| `NativeStrings.StrncpyStr16ToStr8` | native_engine/impl/jerryscript/native_value/jerryscript_native_string.cpp:246-274 | Writes the whole characters that fit, then a zero byte, and nothing else |
| `NativeStrings.Char16ToChar8` | native_engine/impl/jerryscript/native_value/jerryscript_native_string.cpp:226-243 | Measure, allocate, convert: the complete encoding and its terminator, or null exactly for empty or too long input or a failed allocation |
| `NativeStrings.LengthPassSuffices` | native_engine/impl/jerryscript/native_value/jerryscript_native_string.cpp:229-241 | Two-pass agreement: with the measured length everything is written and the early break never taken; the terminator needs, and has, one byte more |
| `ScopeStack.EscapeIsMove` | scope_manager/native_scope_manager.cpp:116-149 | `Escape` loses and gains no value, puts the moved one first in the parent, keeps the order of all others and every other scope; counts change by one each |
| `ScopeStack.EscapedSurvivesClose` | scope_manager/native_scope_manager.cpp:78-97 | An escaped value outlives its scope: closing deletes everything else the scope held, and the value stands first in the new current scope |
| `ScopeStack.RunConserves` | scope_manager/native_scope_manager.cpp:61-172 | In every run of open, close, create and escape, the values created are, with multiplicity, those owned by open scopes together with those deleted |
| `ScopeStack.DestroyDeletesEachOnce` | scope_manager/native_scope_manager.cpp:42-59 | After the destructor every value created has been deleted, each exactly once if they were distinct |
| `ScopeStack.CloseAtConserves` | scope_manager/native_scope_manager.cpp:78-97 | Closing a scope out of order gains and loses no value either |
| `ScopeStack.OpenThenCreate` | scope_manager/native_scope_manager.cpp:151-172 | Whatever is open, a new scope holds exactly the values created in it since, newest first, and all scopes below are as they were |
| `ScopeStack.OpenCreateClose` | scope_manager/native_scope_manager.cpp:61-97 | Opening a scope, creating values and closing it restores the scopes as they were and deletes exactly those values, newest first |
| `ScopeStack.OpenEscapeThenEscape` | scope_manager/native_scope_manager.cpp:99-149 | From a scope opened as escapable exactly the values created in it escape: the newest handle of the value leaves the scope's list, the value stands first in the scope that was current before, and everything else is as it was |
| `ScopeStack.EscapeOne` | scope_manager/native_scope_manager.cpp:99-149 | One value: it stands first in the scope below, and an empty escapable scope is left on top |
| `ScopeStack.NothingEscapesPlainScope` | scope_manager/native_scope_manager.cpp:61-76 | From a scope opened by `Open` nothing escapes, whatever was created in it |
| `ScopeStack.EscapeMovesExactly` | scope_manager/native_scope_manager.cpp:116-149 | `Escape` changes something if and only if the scope is not the root, is escapable and holds the value anywhere in its list; it is then the first match that moves |
| `ScopeStack.InitialTells` | scope_manager/native_scope_manager.cpp:36-40 | A new manager has one scope, the root, empty and not escapable |
| `ScopeManager.NativeScope.AddHandle` | scope_manager/native_scope_manager.cpp:157-171 | A fresh handle at the front of a well-formed list; count and order kept |
| `ScopeManager.NativeScope.DeleteHandles` | scope_manager/native_scope_manager.cpp:89-95 | Deletes every handle of the list once, front to back |
| `ScopeManager.NativeScope.UnlinkHandle` | scope_manager/native_scope_manager.cpp:124-132 | Finds the first handle of the value, only in an escapable scope, and leaves the list well formed without it, the others in order |
| `ScopeManager.NativeScope.UnlinkFirst` | scope_manager/native_scope_manager.cpp:128-129 | Unlinks the first handle |
| `ScopeManager.NativeScope.UnlinkAfter` | scope_manager/native_scope_manager.cpp:130-132 | Unlinks a handle behind its predecessor |
| `ScopeManager.NativeScope.LinkHandle` | scope_manager/native_scope_manager.cpp:133-141 | Puts an unlinked handle first in a list |
| `ScopeManager.NativeScopeManager.constructor` | scope_manager/native_scope_manager.cpp:36-40 | A well-formed chain of one empty root scope |
| `ScopeManager.NativeScopeManager.Open` | scope_manager/native_scope_manager.cpp:61-76 | Pushes an empty scope, which becomes current; null and no change without a current scope |
| `ScopeManager.NativeScopeManager.OpenEscape` | scope_manager/native_scope_manager.cpp:99-106 | The same, escapable, so that by `OpenEscapeThenEscape` every value created in the scope can escape |
| `ScopeManager.NativeScopeManager.CreateHandle` | scope_manager/native_scope_manager.cpp:151-172 | The value becomes the first of the current scope; no effect without one |
| `ScopeManager.NativeScopeManager.Close` | scope_manager/native_scope_manager.cpp:78-97 | Closing any open scope but the root deletes its values and takes it out, others as they were; null and root are ignored; the chain stays well formed if and only if the scope is null, the root or the current one, and otherwise its child is left linked to the deleted scope |
| `ScopeManager.NativeScopeManager.CloseEscape` | scope_manager/native_scope_manager.cpp:108-114 | The same as `Close` |
| `ScopeManager.NativeScopeManager.Escape` | scope_manager/native_scope_manager.cpp:116-149 | On the linked structure, exactly the stack's escape: moved and returned if and only if the scope is escapable and holds the value, else null and no change |
| `ScopeManager.NativeScopeManager.Destroy` | scope_manager/native_scope_manager.cpp:42-59 | Deletes every value of every scope, root first, and leaves nothing |
| `ScopeManager.Call` | scope_manager/native_scope_manager.cpp:61-172 | Any call of a client that closes the current scope only does on the linked structure what it does on the stack, and touches nothing but the structure and new objects |
| `ScopeManager.Run` | scope_manager/native_scope_manager.cpp:36-172 | Any sequence of such calls on a new manager leaves a well-formed linked structure that holds exactly what the same run leaves on a stack |
| `ScopeManager.RunAndDestroy` | scope_manager/native_scope_manager.cpp:36-172 | After any such run the destructor has deleted every value created, each exactly once if they were distinct |
| `CleanupHooks.SortCallbacks` | native_engine/native_engine.cpp:400-407 | All keys of the set, once each, in strictly decreasing insertion order; there is only one such list |
| `CleanupProtocol.CallShrinks` | native_engine/native_engine.cpp:409-417 | A call uses up a hook whatever it does to the set, so hooks present and still to be added become fewer |
| `CleanupProofs.RegisterKeepsInfos` | native_engine/native_node_api.cpp:224-236 | A fresh record that owns itself keeps the ledger of records in order |
| `CleanupProofs.StartKeepsInfos` | native_engine/native_node_api.cpp:213-222 | A registered hook that is called was not started before and its record is still alive; starting it keeps the ledger |
| `CleanupProofs.FinishKeepsInfos` | native_engine/native_node_api.cpp:202-211 | A started hook whose handle goes had not finished and still owned itself; finishing it keeps the ledger |
| `CleanupProofs.WithdrawKeepsInfos` | native_engine/native_node_api.cpp:238-247 | Withdrawing a hook that has not started never reports completion, and keeps the ledger |
| `CleanupProofs.DoneKeepsInfos` | native_engine/native_engine.cpp:415-416 | Erasing the hook after its call keeps the ledger |
| `CleanupProofs.FinishKeepsValid` | native_engine/native_node_api.cpp:258-266 | Deleting the handle of a started hook finishes that hook, which had not finished before, and nothing else |
| `CleanupProofs.WithdrawKeepsValid` | native_engine/native_node_api.cpp:258-266 | Deleting the handle of a hook that has not started removes that hook, and nothing else |
| `CleanupProofs.ApplyKeepsValid` | native_engine/native_node_api.cpp:286-308 | Whatever API call user code makes, at any moment, waiting requests = hooks started and not finished, and every record owns itself exactly while registered or started and not finished |
| `CleanupProofs.BeginKeepsValid` | native_engine/native_node_api.cpp:213-222 | A hook that is called has its record alive, and an asynchronous one is started for the first time |
| `CleanupProofs.CallKeepsValid` | native_engine/native_engine.cpp:415-416 | Calling a hook, with everything it does, keeps all that |
| `CleanupProofs.AllSettled` | native_engine/native_node_api.cpp:176-184 | With no hook left and no request waiting every started hook has finished and every record has let go of itself |
| `CleanupProofs.RunCleanupEnds` | native_engine/native_engine.cpp:392-431 | For every script: at most as many calls as hooks present and added; teardown ends with no hook left, every started hook finished, no record owning itself, unless it waits for a hook that nothing finishes; the asynchronous hooks called are exactly those newly started |
| `CleanupLaws.HooksAfter` | native_engine/native_engine.cpp:374-390 | After any sequence of API calls on a new engine, plain and asynchronous, the registered hooks are exactly those added and not removed since, in the order of their first insertion |
| `CleanupLaws.AfterIsApplyAll` | native_engine/native_engine.cpp:374-390 | A life of single API calls is the fold of those calls over a new engine |
| `CleanupLaws.WholeLife` | native_engine/native_engine.cpp:374-421 | From a new engine through any sequence of API calls to the end of a teardown whose hooks add nothing: the calls made are the hooks added and not removed since, last inserted first, but for those that an entry used up before their turn removes |
| `CleanupLaws.QuietLife` | native_engine/native_engine.cpp:374-421 | If the hooks do nothing, exactly the hooks added and not removed since are called, last inserted first |
| `CleanupLaws.NobodyIsForgotten` | native_engine/native_engine.cpp:392-421 | For every script, one that adds hooks included: a teardown that ends has called every hook there was at entry and every plain hook added meanwhile, but for those that an entry used up removes |
| `CleanupLaws.FinishedExactly` | native_engine/native_node_api.cpp:258-266 | For every script, an asynchronous hook that a teardown calls has finished at its end if and only if an entry used up from its call on deletes its handle |
| `CleanupLaws.DrainExactly` | native_engine/native_engine.cpp:423-431 | `CleanupHandles` turns the loop as often as it takes until no request waits or no event is left, and no more |
| `CleanupLaws.AddTells` | native_engine/native_engine.cpp:374-382 | The hook added is there; one that is new is newer than all others, one already there keeps its place, and so do all others |
| `CleanupLaws.RemoveTells` | native_engine/native_engine.cpp:384-390 | Exactly that hook is gone, the others keep their places, and nothing else changes |
| `CleanupLaws.AddAsyncTells` | native_engine/native_node_api.cpp:224-236 | The fresh record is alive, owns itself and has not started, and its hook is there, newer than all others |
| `CleanupLaws.ApplyFinishes` | native_engine/native_node_api.cpp:258-266 | Of all API calls only deleting its handle finishes a started hook, and that always does |
| `CleanupOrder.ListingIsUnique` | native_engine/native_engine.cpp:400-407 | Two sorted lists of the same set are equal, so the order of the copy does not depend on the set's iteration order |
| `CleanupOrder.ApplyAllRemoves` | native_engine/native_engine.cpp:384-390 | Calls that add nothing leave exactly the hooks that none of them removes, hooks being called right now aside |
| `CleanupOrder.CallKeepsShrinking` | native_engine/native_engine.cpp:409-417 | Calling the newest hook left keeps the order of calls, and every hook of the start still there, called, or removed by an entry used up |
| `CleanupCalls.BatchMakesCallsDue` | native_engine/native_engine.cpp:409-417 | A pass over the sorted copy, if nothing is added, calls each hook in turn but for those that a script entry used up by then removes, and leaves none of them registered |
| `CleanupCalls.RunCleanupCalls` | native_engine/native_engine.cpp:392-421 | If nothing is added, the calls of a whole teardown, with the number of entries used up before each, are exactly those due: the hooks at entry, newest first, but for those removed by an entry used up before their turn; none if the first wait never ends |
| `CleanupCalls.DueExactly` | native_engine/native_engine.cpp:409-417 | A hook is called if and only if none of the entries used up before its turn removes it: those used up at the start and one for every call of a newer hook |
| `CleanupCalls.SkippedBeforeTurn` | native_engine/native_engine.cpp:410-414 | A hook that is not called was removed by an entry used up before each call of an older hook, and by the end of the last call or, if there is none, by the end of the first wait |
| `CleanupCalls.RunCleanupOrder` | native_engine/native_engine.cpp:392-421 | If nothing is added: hooks are called strictly newest first and so at most once each; unless the first wait never ends, a hook at entry is called if and only if it was not removed before its turn, and one that is not called was removed before any older hook was called |
| `CleanupCalls.AllAreCalled` | native_engine/native_engine.cpp:392-421 | If the script adds nothing and removes none of the hooks, the calls are exactly the hooks at entry, newest first |
| `CleanupCalls.BatchInOrder` | native_engine/native_engine.cpp:409-417 | Even when hooks add hooks, one pass calls hooks of its sorted copy only, strictly newest first |
| `CleanupHooks.NativeEngine.constructor` | native_engine/native_engine.h:330-332 | A new engine has no hooks, a zero counter and no request waiting, and its ledger is in order |
| `CleanupHooks.NativeEngine.AddCleanupHook` | native_engine/native_engine.cpp:374-382 | The hook is in the set afterwards, by `AddTells` as the newest if it is new; every hook already there keeps its place in the order; the counter advances either way |
| `CleanupHooks.NativeEngine.RemoveCleanupHook` | native_engine/native_engine.cpp:384-390 | Removes the hook with that function and argument and no other |
| `CleanupHooks.NativeEngine.AddEnvironmentCleanupHook` | native_engine/native_node_api.cpp:224-236 | A fresh, self-owning, unstarted record and its hook |
| `CleanupHooks.NativeEngine.StartAsyncHook` | native_engine/native_node_api.cpp:213-222 | Starts a hook; one more request waits |
| `CleanupHooks.NativeEngine.FinishAsyncHook` | native_engine/native_node_api.cpp:202-211 | One request fewer waits and the record lets go of itself |
| `CleanupHooks.NativeEngine.RemoveEnvironmentCleanupHook` | native_engine/native_node_api.cpp:238-247 | Withdraws a hook that has not started and ignores one that has |
| `CleanupHooks.NativeEngine.DeleteHookHandle` | native_engine/native_node_api.cpp:258-266 | Deleting the handle withdraws or finishes as the destructor does |
| `CleanupHooks.NativeEngine.DoOp` | native_engine/native_node_api.cpp:286-308 | Makes exactly the API call asked for, and keeps the ledger |
| `CleanupHooks.NativeEngine.UserTurn` | native_engine/native_node_api.cpp:268-276 | Makes exactly the calls of the next script entry, in order |
| `CleanupHooks.NativeEngine.CallHook` | native_engine/native_engine.cpp:415-416 | Calls one hook, which makes the calls of the next entry, and then takes it out of the set whatever it did |
| `CleanupHooks.NativeEngine.CleanupHandles` | native_engine/native_engine.cpp:423-431 | The loop turns exactly until no request waits or no event is left |
| `CleanupHooks.NativeEngine.RunBatch` | native_engine/native_engine.cpp:397-417 | One pass over the sorted copy, skipping what has been removed meanwhile |
| `CleanupHooks.NativeEngine.RunCallbacks` | native_engine/native_engine.cpp:409-417 | The loop over the copy is the recursion over it |
| `CleanupHooks.NativeEngine.TearDown` | native_engine/native_engine.cpp:392-421 | The nested loops compute the teardown function of the state and the script, and terminate |
| `CleanupHooks.NativeEngine.RunCleanup` | native_engine/native_engine.cpp:392-421 | The state after teardown is a function of the state before and the script, and has all that `RunCleanupEnds`, `RunCleanupCalls`, `RunCleanupOrder` and `AllAreCalled` say: where nothing is added, a hook at entry is called if and only if it was not removed before its turn |
| `ReferenceManager.NativeReferenceManager.CreateHandler` | reference_manager/native_reference_manager.cpp:34-40 | A new handler for the reference comes first in a well-formed list, and all accounts stay in order |
| `ReferenceManager.NativeReferenceManager.ReleaseHandler` | reference_manager/native_reference_manager.cpp:42-57 | Unlinks and frees the handler of the reference, the others in order; nothing happens without one |
| `ReferenceManager.NativeReferenceManager.Unlink` | reference_manager/native_reference_manager.cpp:46-53 | Unlinks one handler at the front or behind its predecessor |
| `ReferenceManager.NativeReferenceManager.UnlinkFirst` | reference_manager/native_reference_manager.cpp:28-28 | The first handler leaves a list that stays well formed before its reference is touched |
| `ReferenceManager.NativeReferenceManager.DeleteReference` | native_engine/impl/ark/ark_native_reference.cpp:61-72 | Deleting a reference, with all nested deletions its finalizer makes, terminates, leaves the list well formed and every reference either registered, in order and unchanged or destroyed once and settled; it takes with it exactly what it reaches through pending finalizers |
| `ReferenceManager.CascadeExactly` | native_engine/impl/ark/ark_native_reference.cpp:117-125 | A reference is destroyed by a deletion if and only if it is reached from the deleted one through pending finalizers and live victims |
| `ReferenceManager.NativeReferenceManager.DeleteUnlisted` | native_engine/impl/ark/ark_native_reference.cpp:67-71 | The destructor after the handler has been released: settled, destroyed once, with exactly what its finalizer reaches |
| `ReferenceManager.NativeReferenceManager.Settle` | native_engine/impl/ark/ark_native_reference.cpp:67-71 | The destructor leaves count zero, a weak value and the finalizer run as often as it should, whatever the finalizer deletes; what that reaches is gone, all other references are unchanged |
| `ReferenceManager.NativeReferenceManager.FinalizeCallback` | native_engine/impl/ark/ark_native_reference.cpp:117-125 | A pending finalizer runs once, deletes its victims with what they reach and nothing else, and is forgotten; count and weakness stay |
| `ReferenceManager.NativeReferenceManager.RunFinalizer` | native_engine/impl/ark/ark_native_reference.cpp:117-125 | A finalizer that deletes any registered references re-enters the manager safely, leaves none of its victims registered, takes only what they reach, and leaves all other references unchanged |
| `ReferenceManager.NativeReferenceManager.Unref` | native_engine/impl/ark/ark_native_reference.cpp:83-94 | One count fewer, not below zero; the last one finalizes, and the finalizer may delete other references, which takes only what they reach |
| `ReferenceManager.NativeReferenceManager.Destroy` | reference_manager/native_reference_manager.cpp:25-32 | Re-entrant teardown: every registered reference is destroyed exactly once, its finalizer run exactly once if it has one, every handler freed exactly once, the list empty |
| `ReferenceManager.ArkNativeReference.constructor` | native_engine/impl/ark/ark_native_reference.cpp:26-59 | A reference is weak from the start exactly when nobody counts on it, and registers first in the list exactly when it deletes itself and there is a manager |
| `ReferenceManager.ArkNativeReference.Ref` | native_engine/impl/ark/ark_native_reference.cpp:74-81 | One count more; weak exactly while the count is zero; the finalizer untouched |
| `ReferenceManager.ArkNativeReference.UnrefLast` | native_engine/impl/ark/ark_native_reference.cpp:83-94 | On the last count the finalizer runs twice if and only if it is pending and deletes its own reference, and once if it is pending and does not |
| `ReferenceManager.ArkNativeReference.FinalizeAlone` | native_engine/impl/ark/ark_native_reference.cpp:117-125 | The finalizer is forgotten only after it has run, so the destructor of a reference that deletes itself runs it again |
| `ReferenceManager.RunAndDestroy` | reference_manager/native_reference_manager.cpp:25-57 | Whatever a client creates, counts, gives up and deletes, destroying the manager leaves every reference ever created destroyed exactly once, its finalizer run exactly once if it had one |
| `BigIntWords.RadixRoundsUp` | native_engine/impl/quickjs/quickjs_ext.cpp:387-387 | 2^64 is a number with 53 significant bits and the only one within one of 2^64 - 1, so the scripts' `2 ** 64 - 1` is 2^64 |
| `BigIntWords.WordsRoundTrip` | native_engine/impl/quickjs/quickjs_ext.cpp:464-481 | The words of a value made from words are those words without leading zero words, at least one kept |
| `BigIntWords.CreateThenGet` | native_engine/impl/quickjs/quickjs_ext.cpp:350-404 | Creating from any sign and words and reading back gives the stripped words, and the same sign unless the value is zero |
| `BigIntWords.GetThenCreate` | native_engine/impl/quickjs/quickjs_ext.cpp:452-496 | Reading any value into words and creating again gives the value; creation refuses exactly the values past 20 words |
| `BigIntWords.LowOrderWords` | native_engine/impl/quickjs/quickjs_ext.cpp:425-425 | With a smaller capacity the words delivered are the value modulo that power of 2^64 |
| `BigIntWords.SplitWords` | native_engine/impl/quickjs/quickjs_ext.cpp:372-383 | Each word becomes its high half and its low half, in that order |
| `BigIntWords.EncodeScript` | native_engine/impl/quickjs/quickjs_ext.cpp:386-396 | The script's sum is the positional value of the words, negated for a set sign |
| `BigIntWords.TwoWords` | native_engine/impl/quickjs/quickjs_ext.cpp:386-396 | Two words stand for the low one plus 2^64 times the high one, and unless the high one is zero that value reads back as them |
| `BigIntWords.SignBits` | native_engine/impl/quickjs/quickjs_ext.cpp:360-360 | A sign bit counts as negative exactly if it is odd |
| `BigIntWords.CreateBigIntWords` | native_engine/impl/quickjs/quickjs_ext.cpp:350-404 | The signed value of 1 to 20 words, refused for none or more |
| `BigIntWords.DecodeScript` | native_engine/impl/quickjs/quickjs_ext.cpp:463-481 | The division loop terminates with the sign and all words of the magnitude, least significant first |
| `BigIntWords.ParseBigIntWords` | native_engine/impl/quickjs/quickjs_ext.cpp:406-450 | Count only, or sign and low-order words as far as they fit, or refused when only one output is asked for |
| `BigIntWords.GetBigIntWords` | native_engine/impl/quickjs/quickjs_ext.cpp:452-496 | The same from a value: its sign and its words |
| `BigIntWords.Int64RoundTrip` | native_engine/impl/quickjs/quickjs_ext.cpp:440-442 | A word read as a signed 64-bit integer and cast back is the word |

## Left out

- Integer widths of counters: `threadCount_`, `refCount_`, `handleCount`, the hook counter, the waiting
  counter and the `int` length of the decoder are unbounded here.
- NativeStrings.Char16ToChar8: excludes an encoding of exactly `INT_MAX` bytes, where adding one to the
  length overflows a signed `int`.
- NativeStrings.Utf8ToUtf16: requires that every character begun before the buffer is full is complete;
  other input makes the loop read past its end.
- NativeStrings.StrncpyStr16ToStr8: requires a byte for the terminator, which is otherwise written past the
  buffer.
- The wrapper `GetCString16` of JerryScript, which measures an unterminated buffer, and `EncodeWriteUtf8`.
- SafeAsyncWork.NativeSafeAsyncWork.Send: user callbacks that call back into the object while the mutex is
  held are not modelled; `Ref`, `Unref` and `GetContext` have no state here.
- ScopeManager.NativeScopeManager.Close: what later calls do with a scope whose parent link leads to a deleted
  scope is not modelled.
- ScopeManager.Call: the client closes the current scope only.
- Allocation failure in scopes, where `new` throws rather than returning null.
- ReferenceManager.NativeReferenceManager.CreateHandler: requires a reference that is not registered yet,
  as the constructor of a reference guarantees.
- ReferenceManager.NativeReferenceManager.DeleteReference: finalizers that register references, that call
  `Ref` or `Unref`, or that delete a reference which is gone, being deleted, or itself running a finalizer;
  the last only in `UnrefLast`, for a finalizer that deletes its own reference directly and no other.
- CleanupHooks.NativeEngine.DoOp: deleting a hook handle twice is undefined behaviour in the code and has no
  effect here; hook addresses are not reused.
- CleanupHooks.NativeEngine.RunCleanup: hooks that call `RunCleanup`. A wait in `uv_run` that no event ends
  is the result `idle == false`.
- BigIntWords.CreateBigIntWords: exceptions thrown by the engine while an array or number is made, and a null
  word array.
- libuv, pthread and the JavaScript engines beyond what is named above, garbage collection, module loading,
  value wrappers, property definition, serialization, worker creation and profiling.
