# mon-os: a verified model of the kernel's algorithms

mon-os is a small bare-metal x86_64 kernel. Below its port I/O it contains several
self-contained algorithms, and this project models them in Dafny and proves what they
promise: the two xHCI rings it shares with the USB controller, the walk over USB
descriptors, the key buffer between the interrupt handler and the shell, the two readers of
the cpio initrd, the AIMD model file with its quantised inference, the lock-free page
allocator, the transactional action executor, the round-robin scheduler, the scrolling
console and the decimal printer and parser.

`dafny verify dfyconfig.toml` checks everything.

## How the model is built

- **Concurrent parts** (event ring, command ring, key buffer, allocator, transactions) are
  step systems: a `Sys` value, an action type, `Next`, and `Run` over a list of actions.
  Every atomic access of the source is a step of its own, so a list of actions is an
  interleaving, and the theorems quantify over all lists. Histories (`produced`, `handled`,
  `grants`, `journal`, ...) are part of `Sys`.
- **Imperative parts** are classes and methods with the source's fields and loops, proved
  against specification functions. Those that belong to a step system are proved to be runs
  of it; `EventRing.Controller.PollEvents` and `Pmm.Allocator.AllocAligned` take what the
  other side does in between as a parameter.
- **Machine arithmetic** is explicit. The kernel is built in release mode, so `align_up`
  and the heuristic score wrap (`% U64_RANGE`, `WrapI32`); saturating operations are written
  out; the forward pass uses an `I32` newtype, so that each of its additions and
  multiplications is proved not to overflow. Bit masks are written as division and remainder,
  `& !(a - 1)` for a power of two `a` as `v - v % a`, and ORs of disjoint fields as sums.
- **Sizes are symbolic**: ring lengths, buffer capacity, number of slots and screen
  dimensions are parameters.

| file | models |
|---|---|
| `RingArithmetic.dfy`, `Bytes.dfy` | laps and slots of a ring; bytes, words, saturation |
| `Trbs.dfy`, `EventRing.dfy`, `CommandRing.dfy` | transfer request blocks and the two xHCI rings |
| `UsbDescriptors.dfy` | the search for the keyboard's endpoint |
| `KeyBuffer.dfy` | the single-producer single-consumer key buffer |
| `Cpio.dfy` | both cpio readers and the format they read |
| `Aimd.dfy`, `Inference.dfy`, `ModelLoading.dfy` | model file, forward pass, and the path from archive to decision |
| `Actions.dfy`, `Transactions.dfy`, `AgentLoop.dfy` | admission test, transactions, agent and kernel together |
| `Pmm.dfy` | the page allocator |
| `Tasks.dfy` | the table of cooperative tasks and its rotating cursor |
| `Transcript.dfy`, `Console.dfy` | what a console has shown, and the screen as a window on it |
| `Decimal.dfy` | decimal printing and parsing |

## Where the code does less than its design suggests

- **Command ring.** The Link TRB's cycle bit is written once and never again, so the ring
  works for two laps only: `AllDeliveredIff` gives the exact bound, `SerialUseLosesThirdLap`
  shows for every ring length that even one command at a time loses everything after it, and
  `StuckAtLink` that nothing later helps. The producers do not test for a full ring either:
  a slot overwritten once stops the controller, one overwritten twice gives it the wrong
  command. `CommandRingDelivery` says exactly when the order is kept, and
  `LateFetchTakesTheWrongCommand` is the smallest failure.
- **Allocator.** `align_up` wraps. `EveryCallerHoldsIff` states exactly which runs serve every
  caller, `AttemptIsSoundIff` exactly which attempts are sound, `FittingRequestsAreSound` a
  test before the call that suffices, and `WrappingRequestGetsNothing` is a concrete failing
  request. The pointer value 0 means uninitialised, so a region that starts at address 0 is
  never used and `free_kib` reports 0 for it (`FreeSpaceIsConservedIff`,
  `RegionAtZeroIsNeverUsed`, `RegionAtZeroReportsNothing`); a region that starts in the last
  page of the address space is trimmed to such a one (`TrimmingStaysInsideIff`).
- **Slot numbers.** `enqueue_command_trb_slot` shifts the slot by 16, while section 6.4.3 of
  the xHCI specification has it in the top byte of the control word. `EncodeFields` and
  `CommandRingDelivery` follow the code; `SlotFieldIsMissed` says that the specified field is
  right for slot 0 only.
- **Heuristic score.** It is computed in wrapping i32 arithmetic; `HeuristicIsExactIff` says
  when it is the intended value. The proposed action is admissible either way.
- **Model header.** `try_set_model_from_initrd` reads 16 header bytes wherever the file
  starts and does not test that they are in the image, so the model takes the memory behind
  the image as a parameter. `HeaderCanLieOutside` is a failing image, `HeaderInsideIff` the
  missing test. An archive closed by a trailer, or an entry of 16 bytes, passes it
  (`ClosedArchiveKeepsHeaderInside`, `LongEntryKeepsHeaderInside`), and once weights are
  found present every read lies inside the image (`ReadsStayInside`).
- **Outcome codes.** The comment in `kernel/src/ai_action.rs:36` lists 2 for rolled back and
  3 for error; the code returns 5 for a rollback and never 2, 3 or 4. The model follows the code.

## Model

| member | source | states |
|---|---|---|
| `EventRing.EventRingRefinesFifo` | kernel/src/xhci.rs:630-668 | For every ring length and every interleaving with a controller that obeys the cycle-bit and ERDP rules, the events handed on are a prefix of those produced, ERDP names the consumer's index and since the first report is the base plus 16 times that index plus 8, and the bit about to be tested says exactly whether an event is pending |
| `EventRing.CycleBitDecides` | kernel/src/xhci.rs:641-647 | The cycle bit in the dequeue slot equals the consumer's if and only if an event is pending there, and then the slot holds that very event |
| `EventRing.HwWriteKeeps` | kernel/src/xhci.rs:659-661 | A controller that stops before the reported dequeue index never overwrites an unread event, from any reachable state |
| `EventRing.AdvanceKeeps` | kernel/src/xhci.rs:653-657 | Moving the dequeue index and flipping the cycle on wrap keeps index and cycle those of the event count |
| `EventRing.RunKeeps` | kernel/src/xhci.rs:630-668 | The ring invariant holds after any interleaving |
| `EventRing.Controller.PollEvents` | kernel/src/xhci.rs:630-668 | The loop is a run of the two-party system; it hands on at least everything posted before the call, in order, and reports whether it handed on anything |
| `EventRing.Controller.ReadSlot` | kernel/src/xhci.rs:642-647 | When the loop breaks nothing was pending at that read |
| `EventRing.Controller.constructor` | kernel/src/xhci.rs:466-514 | The initial ring, registers and fields are the initial state of the system |
| `CommandRing.ProducersKeepRing` | kernel/src/xhci.rs:689-776 | Under any mix of the three producers, overrun or not, the last slot keeps the original Link, the producer's cycle is the parity of its lap, and each slot holds its newest command with that lap's bit |
| `CommandRing.CommandRingDelivery` | kernel/src/xhci.rs:689-776 | In every run of any mix of producers and fetches, overrunning or not: what was sent carries the commands the producers were called with, one for one; at most two laps are received; each received TRB carries the type, parameter, status and slot of the command its slot held at the time; and they are the first ones sent, in order, if and only if no fetch took a slot that had been overwritten |
| `CommandRing.SentIsWhatWasCalled` | kernel/src/xhci.rs:689-776 | In any run the TRBs sent carry, one for one and in order, the commands of the calls |
| `CommandRing.FetchOutcome` | kernel/src/xhci.rs:689-776 | In any reachable state a fetch takes the newest command of its slot if that slot was overwritten an even number of times, takes nothing if an odd number, and otherwise follows the Link exactly once |
| `CommandRing.LateFetchTakesTheWrongCommand` | kernel/src/xhci.rs:713-716 | On a ring of any length, with two laps and one command sent before the first fetch, that fetch takes the last command instead of the first |
| `CommandRing.AllDeliveredIff` | kernel/src/xhci.rs:567-577 | After every run: fetching on delivers exactly what was sent if and only if what was received is right so far, at most one lap is outstanding and at most two laps were sent |
| `CommandRing.DrainsToTwoLaps` | kernel/src/xhci.rs:567-577 | From any state in which the controller has not been overrun, fetching on ends with all commands sent, cut off at two laps |
| `CommandRing.StuckAtLink` | kernel/src/xhci.rs:567-577 | After two laps no later sequence of enqueues and fetches, overrunning or not, delivers another command |
| `CommandRing.SerialUseLosesThirdLap` | kernel/src/xhci.rs:713-716 | For every ring length, sending one command at a time delivers the first two laps and loses the third |
| `CommandRing.EncodeFields` | kernel/src/xhci.rs:748-768 | The three words of an encoded command read back as its type, parameter, status and slot (0 where a producer takes none), bit 5 and the cycle bit, and no other control bit is set |
| `CommandRing.SlotFieldIsMissed` | kernel/src/xhci.rs:762-763 | The field in which the xHCI specification has the slot holds the slot that was meant if and only if that is slot 0 |
| `CommandRing.Producer.EnqueueNoop` | kernel/src/xhci.rs:689-718 | The new ring state is the specified one, and the slot written carries a no-op; a ring without usable slots is left alone |
| `CommandRing.Producer.EnqueueCommand` | kernel/src/xhci.rs:720-746 | The same for a plain command: the slot written carries its type, parameter and status |
| `CommandRing.Producer.EnqueueCommandSlot` | kernel/src/xhci.rs:748-776 | The same for a command with a slot number, which it carries too |
| `CommandRing.Producer.constructor` | kernel/src/xhci.rs:453-457 | Zeroed slots and the Link in the last one |
| `UsbDescriptors.ParserFindsKeyboardEndpoint` | kernel/src/xhci.rs:1059-1097 | On every concatenation of well-formed descriptors the result is exactly the first interrupt-IN endpoint whose nearest preceding interface is a HID boot keyboard, or nothing if there is none |
| `UsbDescriptors.ComposedEndpointIsParsed` | kernel/src/xhci.rs:1059-1097 | Round trip: from the bytes of any list of descriptors, laid out as USB 2.0 has them, the parser returns the address, 16-bit packet size and interval that the first interrupt-IN endpoint of a boot keyboard was composed with, and nothing if and only if there is none |
| `UsbDescriptors.LayoutFields` | kernel/src/xhci.rs:1070-1086 | The tests on the bytes of a composed interface or endpoint hold exactly when class, subclass, protocol, direction and transfer type say so, and the three numbers read are those composed |
| `UsbDescriptors.ParseHidKeyboardEndpoint` | kernel/src/xhci.rs:1059-1097 | On every byte buffer the loop terminates, reads in range and computes the specified walk |
| `UsbDescriptors.WalkIsSearch` | kernel/src/xhci.rs:1064-1094 | Walking the bytes of well-formed descriptors is walking the descriptors |
| `UsbDescriptors.SearchFindsFirst` | kernel/src/xhci.rs:1069-1092 | From any descriptor on, with the flag telling whether the nearest interface is a keyboard's, the search returns the first wanted endpoint |
| `KeyBuffer.KeyBufferIsSpscQueue` | kernel/src/keyboard.rs:15-35 | For every capacity and every interleaving of loads, byte accesses and stores: accepted are exactly the pushed arguments that were not dropped, in order; popped bytes are a prefix of them, at most capacity - 1 are held, the slot about to be written is never the one about to be read, a push is dropped exactly when the ring was full for the tail it read, and a pop is empty exactly when it was empty for the head it read |
| `KeyBuffer.PusherKeeps` | kernel/src/keyboard.rs:15-26 | Every step of the pusher keeps the invariant, with a stale tail too |
| `KeyBuffer.PopperKeeps` | kernel/src/keyboard.rs:28-35 | Every step of the popper keeps the invariant, with a stale head too |
| `KeyBuffer.Buffer.KbufPush` | kernel/src/keyboard.rs:15-26 | Uninterrupted, a push is a run of the step system and appends unless capacity - 1 bytes are waiting |
| `KeyBuffer.Buffer.PollChar` | kernel/src/keyboard.rs:28-35 | Uninterrupted, a poll is a run of the step system and removes and returns the oldest byte, or nothing |
| `Cpio.ArchiveRoundTrip` | kernel/src/ramfs.rs:13-45 | For every list of files not named as the trailer, any spelling of the size fields that the readers accept, any unused header bytes and anything after the trailer, the walk lists exactly those files in order with their data |
| `Cpio.DecodesAt` | kernel/src/ramfs.rs:22-42 | An encoded file on a 4-byte boundary anywhere in an image, its sizes spelled in either case, is read back as itself, padding included |
| `Cpio.HexRoundTrip` | kernel/src/ramfs.rs:25-29 | Reading a hexadecimal field inverts writing it, in lower and in upper case and for any number of digits |
| `Cpio.PackedIsEncodable` | Makefile:80-86 | What an archiver writes, with sizes in upper or in lower case, is an archive the round trip covers |
| `Cpio.RoomBehind` | kernel/src/ramfs.rs:13-45 | In an archive closed by a trailer at least a whole header follows every file that is visited |
| `Cpio.ReadHex` | kernel/src/ai_initrd.rs:18-26 | In 32-bit arithmetic the field reader computes the exact number of eight digits of either case, or nothing if one is not a digit |
| `Cpio.ForEach` | kernel/src/ramfs.rs:13-45 | On every byte buffer the callback sees exactly the specified entries; offsets grow, stay 4-aligned, and reads stay inside |
| `Cpio.Find` | kernel/src/ramfs.rs:47-57 | The first visited entry with exactly that name, or nothing if there is none |
| `Cpio.CpioFind` | kernel/src/ai_initrd.rs:10-58 | On every byte buffer, damaged or not, it returns the data of the first entry the other reader visits under the name or "./" and the name, although it tests the data bound at a different point |
| `Cpio.FirstNamedMeaning` | kernel/src/ai_initrd.rs:39-51 | That result without recursion: nothing if and only if no visited entry matches, otherwise the earliest match |
| `Cpio.ArchivedFileFound` | kernel/src/ai_initrd.rs:10-58 | A file packed under either spelling of its name is found, its bytes are at the returned place, and at least a header follows them |
| `Aimd.ComputeLayout` | kernel/src/ai_model.rs:43-61 | The saturating sum is the exact payload size for every header |
| `Aimd.OffsetBound` | kernel/src/ai_model.rs:51-60 | For all u16, u16 and u32 fields the offsets stay far below 2^64 |
| `Aimd.LayerPtr` | kernel/src/ai_model.rs:64-79 | The exact address of a layer's weights, or nothing for a missing layer or another data type |
| `Aimd.BiasPtr` | kernel/src/ai_model.rs:91-110 | The exact address of a layer's biases |
| `Aimd.LayersTile` | kernel/src/ai_model.rs:64-79 | Every payload byte belongs to exactly one layer |
| `Aimd.NextLayer` | kernel/src/ai_model.rs:91-110 | The weights of the first layer begin at byte 16, a layer's biases end where the next layer's weights begin, and begin where its own weights end |
| `Aimd.GenAiMod` | scripts/gen-ai-mod.py:21-47 | The loops write exactly the specified file for arguments in range; nothing for a refused data type or a size below 1; and where packing a field fails, the fields before it, which are shorter than a header |
| `Aimd.FileShape` | scripts/gen-ai-mod.py:29-47 | The file's length is exactly what the reader computes, its header bytes are the magic, the little-endian layers, hidden and vocab and four zeros, and it reads back and is valid |
| `Aimd.HeaderFields` | kernel/src/ai_model.rs:5-36 | Any 16 bytes are read as little-endian numbers at their places, and are valid if and only if they spell AIMD, both counts are positive and the data type is 0 or 1 |
| `Aimd.WeightRoundTrip` | kernel/src/ai_model.rs:64-79 | Every weight read at the reader's address is the one the generator drew |
| `Aimd.BiasRoundTrip` | kernel/src/ai_model.rs:91-110 | Every bias read at the reader's address is the one the generator drew, stored lowest byte first |
| `Inference.RunLayers` | kernel/src/ai_agent.rs:147-183 | For every header, weights and telemetry the in-place loops leave the mathematical fold in the buffer, without any i32 overflow and with every read in range |
| `Inference.LayerInPlace` | kernel/src/ai_agent.rs:153-180 | One layer: dot products, saturating bias, ReLU, shift and clamp, in place |
| `Inference.Row` | kernel/src/ai_agent.rs:159-171 | The accumulator is the exact dot product and never overflows before the bias |
| `Inference.DotBound` | kernel/src/ai_agent.rs:160-166 | A dot product of n activations is at most 16256 n in magnitude |
| `Inference.DotPicks` | kernel/src/ai_agent.rs:160-166 | A dot product in which only one activation is not 0 is that activation times its own weight |
| `Inference.DotAdds` | kernel/src/ai_agent.rs:160-166 | Dot products of two activation vectors add up |
| `Inference.SaturatedIsNearest` | kernel/src/ai_agent.rs:167-169 | A saturated sum lies between the exact one and every i32 |
| `Inference.RequantisedCounts` | kernel/src/ai_agent.rs:174-180 | An activation is 0 for a negative sum, and otherwise the number of whole multiples of 2^shift in it, at most 127 |
| `Inference.FeaturesAreReadings` | kernel/src/ai_agent.rs:121-134 | The first four inputs are task count, interrupt rate, free MiB and page fault rate, each cut off at 127, as far as the model is wide; all others are 0 |
| `Inference.ScoreMeaning` | kernel/src/ai_agent.rs:185-193 | The score is the first neuron of the last evaluated layer, 0 if that is empty, and without weights the clamped sum of the readings |
| `Inference.StopsOnlyThere` | kernel/src/ai_agent.rs:150-151 | The layer loop stops early only before layer 0 or before the last layer, and exactly when the widths say so |
| `Inference.InsideModel` | kernel/src/ai_agent.rs:136-172 | With the weights present every row and bias lies inside the model's bytes |
| `Inference.InferAndPropose` | kernel/src/ai_agent.rs:121-205 | The action is TRIM_CACHE of 1 MiB if and only if memory is low or page faults are frequent; otherwise it is SET_QUANTUM with exactly base + scale * score where that lies in 100..50000 and the nearer limit elsewhere; it is always admissible |
| `Inference.ProposalsAreAdmissible` | kernel/src/ai_agent.rs:194-204 | In every preset and for every score the proposal passes the kernel's admission test, and the upper limit is never reached |
| `Inference.ProposalAnswers` | kernel/src/ai_agent.rs:194-204 | For every score the proposal is the decision described without it: low memory or page faults first, then the linear quantum within its limits |
| `Inference.QuantumIsMonotone` | kernel/src/ai_agent.rs:200-204 | A higher score never asks for a shorter quantum, and for a longer one wherever the limits allow it |
| `Inference.HeuristicIsExactIff` | kernel/src/ai_agent.rs:188-193 | The wrapping fallback score is the intended one if and only if the interrupt rate fits an i32 |
| `ModelLoading.Globals.TrySetModelFromInitrd` | kernel/src/ai_initrd.rs:61-78 | The globals are set exactly when a valid model is located, to its address and all the image behind it |
| `ModelLoading.HeaderInsideIff` | kernel/src/ai_initrd.rs:61-78 | For every image and place, the 16 bytes read as header do not depend on the memory behind the image if and only if 16 bytes are left there |
| `ModelLoading.HeaderDecidedByImageIff` | kernel/src/ai_initrd.rs:61-78 | What the loader makes of them is decided by the image alone if and only if 13 bytes are left there |
| `ModelLoading.HeaderCanLieOutside` | kernel/src/ai_initrd.rs:61-78 | For an image that is one empty entry named ai.mod, any valid header in the memory behind it is taken for the model's |
| `ModelLoading.ClosedArchiveKeepsHeaderInside` | kernel/src/ai_initrd.rs:61-78 | In every archive closed by a trailer the header read stays inside |
| `ModelLoading.LongEntryKeepsHeaderInside` | kernel/src/ai_initrd.rs:61-78 | In every image the header read stays inside if the entry found is at least 16 bytes long |
| `ModelLoading.ReadsStayInside` | kernel/src/ai_agent.rs:136-172 | For every located model: if its weights are present, the header, every weight row and every bias read lies inside the initrd image |
| `ModelLoading.ForwardIsNetForward` | kernel/src/ai_agent.rs:147-183 | The pass over the file's bytes is the pass over the drawn weights and biases |
| `ModelLoading.PackedModelIsEvaluatedAsGenerated` | kernel/src/ai_initrd.rs:61-78 | For every network the generator can write, packed under its name in any archive, the loader locates it, finds all weights present, and inference computes what the network itself computes |
| `Transactions.TransactionsAreAtomic` | kernel/src/apply_action.rs:78-112 | Over any interleaving of calls the quantum stays in 100..50000; whenever the lock is free it is the low word of the parameter of the last ApplyOk record of a SetQuantum, or 1000 if there is no such record; the journal always reads as transactions with only rejections inside, and before readiness nothing but rejections happens |
| `Transactions.CommittedMeaning` | kernel/src/apply_action.rs:92-112 | For every journal, what a scan takes for committed is the parameter of the last committed SetQuantum, by index, or the initial quantum |
| `Transactions.AdmissionIsExact` | kernel/src/apply_action.rs:25-46 | A SetQuantum is admitted if and only if it would leave a quantum in 100..50000, a TrimCache if and only if it asks for 1 byte to 16 MiB, and nothing else ever |
| `Transactions.FinishedCallLeavesItsRecords` | kernel/src/journal.rs:43-77 | A finished call has left one rejection, or its intent and exactly one conclusion that its outcome code names; an admissible call made when ready is never rejected |
| `Transactions.RejectionChangesNothing` | kernel/src/apply_action.rs:80-87 | A rejecting step changes neither quantum nor lock nor what is committed |
| `Transactions.StepKeeps` | kernel/src/apply_action.rs:78-112 | Every step of every call keeps the invariant for all calls |
| `Transactions.SoloRun` | kernel/src/apply_action.rs:78-112 | From any state with the lock free, the steps of one call taken without interruption end with its outcome and its records; the quantum becomes the parameter's low word for a committed SetQuantum and stays otherwise |
| `Transactions.Kernel.ApplyActionAtomic` | kernel/src/apply_action.rs:78-112 | The call is a run of the step system; the code is 1, 0 or 5 by readiness, admission and self-test and decides the records; the quantum is the parameter's low word after an accepted SetQuantum and the old one after anything else |
| `Transactions.Kernel.AiProposeAction` | kernel/src/apply_action.rs:114-143 | A null pointer changes nothing; otherwise the call is a run of the step system, the sequence number advances, wrapping, the outcome is reported, and the quantum is the parameter's low word after an accepted SetQuantum and the old one otherwise |
| `Transactions.Kernel.SetSystemReady` | kernel/src/apply_action.rs:145-147 | Opens the gate and touches nothing else |
| `AgentLoop.AgentIsNeverRejected` | kernel/src/ai_agent.rs:251-266 | In any run beside any other callers, a proposal of the agent made when the system was ready ends committed or rolled back, never rejected |
| `AgentLoop.Step` | kernel/src/ai_agent.rs:251-266 | The kernel's new state is the run of one call with the action the score calls for; the outcome is 0 or 5 once ready and 1 before, and the quantum is the proposed one if committed, within the preset's bounds |
| `Pmm.AllocatorIsSafe` | kernel/src/pmm.rs:46-69 | Over all interleavings of any number of callers in which no wrapped attempt wins: a call that returned an address holds its own grant there, the only one in its name, aligned and of the size it was begun with, inside the region; a call that returned nothing or has not returned has no grant; the pointer is page-aligned and within the limit, and lost exchanges are bounded by the pages there are |
| `Pmm.EveryCallerHoldsIff` | kernel/src/pmm.rs:46-78 | For every run of u64 requests: every caller that got an address holds what it asked for if and only if no attempt with a wrapping rounding won its exchange |
| `Pmm.FittingRequestsAreSound` | kernel/src/pmm.rs:46-78 | If every request passes a test that can be made before the call, no such attempt ever wins |
| `Pmm.CallersNeverShare` | kernel/src/pmm.rs:46-69 | In every run in which no wrapped attempt wins, the ranges that two different callers got never overlap |
| `Pmm.RequestsAreKept` | kernel/src/pmm.rs:46-69 | Size and alignment of a call are to the end those it was begun with, in any run |
| `Pmm.RunKeeps` | kernel/src/pmm.rs:46-69 | The pointer never moves back and grants are never withdrawn, in any run |
| `Pmm.LostExchangeIsProgress` | kernel/src/pmm.rs:62-67 | A failed compare-and-exchange means that at least a page was taken in between |
| `Pmm.FreeSpaceIsConservedIff` | kernel/src/pmm.rs:84-88 | With alignments up to a page, the reported free space is the region less the page-rounded grants if and only if the region does not start at address 0 |
| `Pmm.RegionAtZeroIsNeverUsed` | kernel/src/pmm.rs:51-56 | From a region that starts at address 0 no run ever grants anything |
| `Pmm.RegionAtZeroReportsNothing` | kernel/src/pmm.rs:84-88 | A page of free memory at address 0 is reported as 0 KiB |
| `Pmm.AttemptIsSound` | kernel/src/pmm.rs:50-61 | An attempt without wrapping yields an aligned range after the pointer, skips less than the alignment, adds less than a page (or the alignment) to the size, moves the pointer by whole pages and takes nothing extra for alignments up to a page |
| `Pmm.RefusedIff` | kernel/src/pmm.rs:51-61 | An attempt is refused if and only if the pointer is 0 or at the limit, or the rounded request ends behind the limit |
| `Pmm.AttemptIsSoundIff` | kernel/src/pmm.rs:76-78 | A successful attempt is sound if and only if neither of its roundings wraps |
| `Pmm.WrappingRequestGetsNothing` | kernel/src/pmm.rs:50-61 | A concrete request whose size wraps is granted an empty range |
| `Pmm.AlignUpIsUpIff` | kernel/src/pmm.rs:76-78 | Rounding up rounds up if and only if the sum does not wrap, and then by less than the alignment |
| `Pmm.PowerOfTwoMeaning` | kernel/src/pmm.rs:47-49 | The alignments accepted are exactly the powers of two |
| `Pmm.TrimmingStaysInsideIff` | kernel/src/pmm.rs:20-25 | The page-trimmed part of a usable region lies inside it if and only if the region does not start in the last page of the address space |
| `Pmm.TrimmingKeepsEveryPage` | kernel/src/pmm.rs:20-25 | Where neither end wraps, every whole page of a usable region is kept |
| `Pmm.GrantsLieInRegion` | kernel/src/pmm.rs:11-69 | Every grant of every sound run lies inside the region that was chosen, wherever it starts |
| `Pmm.Allocator.Init` | kernel/src/pmm.rs:11-44 | The first of the largest page-trimmed usable regions is chosen; with none the allocator stays empty |
| `Pmm.Allocator.AllocAligned` | kernel/src/pmm.rs:46-69 | For any request and whatever other callers complete before each exchange, the call is a run of the step system that terminates; if no wrapped attempt won, success holds the caller's own grant; failure means that the pointer was 0 or at the limit or the rounded request ended behind the limit; a bad alignment changes nothing |
| `Tasks.RoundRobinIsFair` | kernel/src/task.rs:19-38 | For any table, any occupied slots and any cursor, as many consecutive calls as there are tasks run each occupied slot exactly once |
| `Tasks.FirstFromMeaning` | kernel/src/task.rs:19-33 | The slot a call runs is the first occupied one from the cursor on, going round, all before it being empty; none is run if and only if all are empty |
| `Tasks.Table.RunOnce` | kernel/src/task.rs:19-33 | Runs the first occupied slot from the cursor on, going round, and leaves the cursor behind it |
| `Tasks.Table.Register` | kernel/src/task.rs:8-17 | Fills the first empty slot, refuses exactly when the table is full, and keeps the occupied slots a prefix |
| `Tasks.Table.RunqueueLen` | kernel/src/task.rs:35-38 | Counts the occupied slots |
| `Console.Screen.Replay` | kernel/src/vga.rs:70-129 | From a clear on, after any sequence of operations the cells are the last rows of the unbounded transcript of those operations, with the same cursor and style |
| `Console.Screen.ScrollUp` | kernel/src/vga.rs:106-116 | Scrolling moves every row up by exactly one and adds a blank one |
| `Console.Screen.NewLine` | kernel/src/vga.rs:99-117 | The screen after a new line shows the transcript with one line more |
| `Console.Screen.WriteByte` | kernel/src/vga.rs:90-97 | A byte goes to the cursor's cell, after a new line if the row is full |
| `Console.Screen.Backspace` | kernel/src/vga.rs:119-129 | The cell before the cursor becomes a blank of the current style, every other cell stays and the cursor goes there; in the top left corner nothing happens |
| `Console.Screen.WriteStr` | kernel/src/vga.rs:80-88 | The screen shows the transcript of all bytes of the message |
| `Console.Screen.WriteChar` | kernel/src/vga.rs:153-164 | The screen shows the transcript of the encoded bytes, a newline being special and a carriage return not |
| `Console.Screen.Clear` | kernel/src/vga.rs:70-78 | All cells blank in the current style, cursor at the top left |
| `Console.Screen.CursorOnScreen` | kernel/src/vga.rs:131-133 | Row and column stay within the screen and the cursor's cell address inside the memory |
| `Transcript.ScrollbackIsPermanent` | kernel/src/vga.rs:99-129 | Over any operations the transcript only grows and rows that left the screen never change |
| `Transcript.ClearedFlows` | kernel/src/vga.rs:80-97 | On a cleared console a text without line breaks fills the rows cell after cell, however far it scrolls |
| `Transcript.EraseChangesOneCell` | kernel/src/vga.rs:119-129 | An erase moves the cursor back by one place and blanks exactly that cell; in the first place on screen it does nothing |
| `Transcript.EraseUndoesWrite` | kernel/src/vga.rs:90-129 | Erasing after one byte gives the transcript back, or after a wrap that with the cursor in the new row, if and only if the byte was written on a blank of the current style; a row added at the end is blank |
| `Transcript.EraseFlowsBack` | kernel/src/vga.rs:119-129 | On flowing text an erase takes the last byte back, as long as that is on screen |
| `Transcript.LinesAreShown` | kernel/src/vga.rs:80-117 | Every text whose lines fit the width is shown line by line, each in a row of its own followed by blanks, however far it has scrolled |
| `Transcript.ReturnOverwrites` | kernel/src/vga.rs:84-86 | After a carriage return the last line is written over from its start and keeps what is behind |
| `Transcript.CharactersAreShown` | kernel/src/vga.rs:153-164 | A character other than a newline is shown as all of its bytes, a carriage return too |
| `Decimal.PrintU64` | kernel/src/journal.rs:18-33 | The backward loop never underflows its 20 bytes and yields the decimal digits |
| `Decimal.ParseU64` | kernel/src/shell.rs:145-152 | The value of the digits cut off at 2^64 - 1, despite saturating at each step; refused if and only if some byte is not a digit |
| `Decimal.PrintedNumberReadsBack` | kernel/src/shell.rs:145-161 | A printed number has no leading zero, fits 20 bytes and is read back as itself |
| `Decimal.PrintingIsInjective` | kernel/src/journal.rs:18-33 | Different numbers print differently |
| `Decimal.PrintThenParse` | kernel/src/shell.rs:145-161 | Parsing what was printed gives the number back |

## Left out

- `handle_event`, doorbells, MMIO register access, controller and port reset in `kernel/src/xhci.rs`: effects on hardware, with no logic of their own; a call to `handle_event` is an entry in `handled`.
- The EP0 and interrupt transfer rings and the contexts of `address_device` and `configure_interrupt_in_endpoint`: they publish a dequeue pointer whose cycle state does not match the producer's, so nothing can be promised for their consumer.
- Tearing: a 16-byte TRB and the 64-bit ERDP register are read and written in one step, and a journal record is written in one step.
- EventRing.Controller.PollEvents: the controller posts finitely often during one call; a controller that posts forever keeps the loop going forever. A missing controller state, for which the function returns false, is not modelled.
- Pmm.CallersNeverShare: stated, like `Pmm.AllocatorIsSafe`, `Pmm.FreeSpaceIsConservedIff` and `Pmm.GrantsLieInRegion`, for the runs in which no wrapped attempt wins; by `Pmm.EveryCallerHoldsIff` in any other run some caller is served wrongly.
- Pmm.Allocator.AllocAligned: other callers complete whole calls before each exchange, one attempt each; `Pmm.AllocatorIsSafe` covers all interleavings. One call of `init`, before any allocation.
- KeyBuffer.KeyBufferIsSpscQueue: sequentially consistent memory; the relaxed orderings of the source are not modelled.
- Transactions.TransactionsAreAtomic: sequence numbers are distinct per call, although the counter is an unsynchronised static that wraps; the self-test's answer is arbitrary.
- Transactions.Kernel.ApplyActionAtomic: an uninterrupted call with a sequence number not used before; so are `AiProposeAction` and `AgentLoop.Step`. Interleaved calls are `Transactions.TransactionsAreAtomic`.
- AgentLoop.Step: one call with a loaded model; the test for manual confirmation, which no proposal asks for (its flags are 1, the bit is 4), is not modelled; gathering telemetry, the `hlt` loops and the globals' wiring are not modelled.
- Aimd.GenAiMod: the random draws are parameters, and so is whether the data type argument is int8; the command line is not modelled.
- Tasks.RoundRobinIsFair: no registration between the calls; tasks that call the scheduler again are not modelled.
- `matmul_int8` in `kernel/src/ai_agent.rs` is never called.
- The journal's text layout around its numbers, `hex_dump`, command dispatch of the shell, scancode and HID tables: constant tables and fixed text around the numbers of `Decimal.dfy`.
- `boot/boot.asm`, `stage2/stage2.asm`, GDT, IDT, PIC, PCI, serial and syscall: firmware calls and thin wrappers over ports.
