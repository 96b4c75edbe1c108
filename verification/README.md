# Stridetastic: verified models

Dafny models of the stateful parts of the Stridetastic backend and of its graph view, with proofs
of what they keep over every input and every run. `dafny verify dfyconfig.toml` checks everything.

Each module follows one component and has the same shape: the operations written as functions on
values, a class whose methods do the work step by step as the source does and are proved equal to
those functions, and lemmas about the functions over whole runs. What an operation leaves behind is
stated once more in plain fields, without those functions. Time is an integer, a database
table is a map from keys to rows, and everything that comes from outside (clock, connects, random
keys, other processes) is an argument that may take any value.

| module | component |
|---|---|
| `PcapNg` | the pcapng format (draft-ietf-opsawg-pcapng, sections 3.1, 3.5, 4.1, 4.2 and 4.3): byte encoding, and a reader written from the format alone |
| `PcapWriter` | the capture file writer |
| `Links` | the logical link index, as a protocol of separate database statements run by concurrent calls |
| `Identifiers` | node ids, MAC addresses and id seeds |
| `NodeRegistry` | virtual node identities: the probe over three unique columns, create, update, delete |
| `Scheduler` | the periodic publishing queue |
| `Reactive` | the reactive publish limiter |
| `Keepalive` | the detector of nodes that went offline |
| `Capture` | capture sessions over the file writer |
| `Interfaces` | the interface runtime of the worker |
| `GraphDiff` | the in-place graph reconciliation of the web client |
| `Prelude` | `Option`, `Result`, and what the others share |

## Where the code does less than one might expect

Each of these has its exact condition and an input or run on which it happens:

- A job edit saves every column. Saved over a row that was queued in the meantime, it puts the old
  due time back and the job is queued again (`Scheduler.EditRepeatsQueueingIff`), which can break the
  minimum spacing (`Scheduler.StaleSaveBreaksSpacing`), as giving a period does on purpose
  (`Scheduler.ResetBreaksSpacing`), and delay others
  (`Scheduler.StaleSaveDelays`). The starvation bound counts such saves; with atomic edits there are
  none.
- A keepalive configuration save writes every column too, the time of the last run included, and so
  can make a check record a transition again (`Keepalive.FurtherRowIff`,
  `Keepalive.StaleSaveRepeats`). So can raising the threshold, while lowering it loses transitions
  (`Keepalive.ThresholdChange`, `Keepalive.RaisedThresholdRepeats`,
  `Keepalive.LoweredThresholdLoses`), as do rejected and crashed checks (`Keepalive.PassedOverIff`,
  `Keepalive.RejectedCheckLoses`, `Keepalive.CrashedCheckLoses`).
- An explicit node number is given up when its default id or MAC is taken
  (`NodeRegistry.ExplicitNumberKeptIff`, `NodeRegistry.ExplicitNumberMoves`).
- Renumbering a node can flip the order of a pair, which then gets a second link. No increment is
  lost, but they are split over both, and neither need ever be flagged as bidirectional
  (`Links.SecondLinkIff`, `Links.FlippedOrderSplits`).
- A fixed-window limit of m allows 2m - 1 injections within one window's length, and m more for each
  time the table is emptied in it by a start, a stop or a flip of the flag (`Reactive.BoundIff`,
  `Reactive.LimitHoldsIff`, `Reactive.WindowWithClearsAttained`).
- A packet is decided some time after its refresh, so the bound on how long a disabled service still
  injects is one on refreshes (`Reactive.DisablingTakesEffect`, `Reactive.DecidedLate`).
- A link counts deliveries, not packets: one that arrives through two gateways counts twice
  (`Links.IndexAgreesWithLog`, `Links.TwoDeliveriesCountTwice`).
- Bootstrap runs once per process. A second one would leave every running interface with a row that
  says INIT (`Interfaces.SecondLoadIncoherent`, `Interfaces.RebootCoherentIff`). Starting an interface
  that has no wrapper yet is answered as already running if and only if it connects
  (`Interfaces.ServiceManager.StartInterfaceTask`, `Interfaces.StartedWhileLoading`).
- Cancelling a finished capture overwrites its status, though never its counters
  (`Capture.TerminalStatusChangesIff`, `Capture.CompletedThenCancelled`).
- The writer declares a snapshot length of 65535 bytes but accepts longer payloads, and interface ids
  it never described (`PcapWriter.ConformingRoundTripIff`, `PcapWriter.OverlongPayloadAccepted`,
  `PcapWriter.UndescribedInterfaceAccepted`).
- The graph's refresh handler skips the filter that keeps links between displayed nodes
  (`GraphDiff.GraphData.Refresh`, `GraphDiff.UnfilteredLinkDangles`).

## Model

| member | source | states |
|---|---|---|
| PcapNg.ReadWrittenOptions | api_stridetastic/stridetastic_api/utils/pcap_writer.py:80-84 | any list of options whose codes and lengths fit 16 bits is read back exactly by a reader of section 3.5 of the format, and occupies a multiple of four bytes |
| PcapNg.ReadWrittenBlock | api_stridetastic/stridetastic_api/utils/pcap_writer.py:59-66 | a written block is read back with its type and body, and the reader continues at the very next byte |
| PcapNg.ReadWrittenBlocks | api_stridetastic/stridetastic_api/utils/pcap_writer.py:59-66 | reading a file forwards gives exactly the blocks written, in order |
| PcapNg.ReadWrittenBlocksBackward | api_stridetastic/stridetastic_api/utils/pcap_writer.py:59-66 | walking backwards by the trailing length copies gives the same blocks and ends at offset 0 |
| PcapNg.CutFile | api_stridetastic/stridetastic_api/utils/pcap_writer.py:59-66 | blocks are flushed one by one: cut the file at any byte and a reader gets all the blocks that end at or before the cut, and nothing else |
| PcapWriter.SplitTimestamp | api_stridetastic/stridetastic_api/utils/pcap_writer.py:116-118 | the high and low timestamp words rejoin to the tick count modulo 2^64, for every integer tick count including negative ones |
| PcapWriter.ReadWrittenSection | api_stridetastic/stridetastic_api/utils/pcap_writer.py:68-78 | the section header is read as version 1.0 of unspecified length |
| PcapWriter.ReadWrittenInterface | api_stridetastic/stridetastic_api/utils/pcap_writer.py:86-103 | an interface description is read back with its link type, snap length and five options, for any short name and hint |
| PcapWriter.ReadWrittenPacket | api_stridetastic/stridetastic_api/utils/pcap_writer.py:105-138 | a packet block reads back with interface, ticks, lengths, payload and the one comment it has if its message type is not empty; what the comment says is in `PacketsRead` |
| PcapWriter.RoundTrip | api_stridetastic/stridetastic_api/utils/pcap_writer.py:41-178 | whole file: for every sequence of accepted writes the bytes parse to one section header, the two interface descriptions and one packet for each frame in order; the next rows say what a reader finds in them |
| PcapWriter.PacketsRead | api_stridetastic/stridetastic_api/utils/pcap_writer.py:105-138 | packet i of the parsed file has the interface, payload and message type of frame i and its ticks modulo 2^64, the message type being what a reader finds after the five bytes of `type=` in a comment, and absent exactly if it was empty |
| PcapWriter.FileDetermines | api_stridetastic/stridetastic_api/utils/pcap_writer.py:59-178 | with ticks that fit 64 bits, equal files come from equal frames: nothing that is written gets lost |
| PcapWriter.InterfacesRead | api_stridetastic/stridetastic_api/utils/pcap_writer.py:41-103 | in every file a reader finds a section of version 1.0 and two interfaces, each with link type 162, 65535 bytes, resolution byte 6, and its name, description, filter and protocol spelled out |
| PcapWriter.FileStarts | api_stridetastic/stridetastic_api/utils/pcap_writer.py:68-78 | the first 32 bytes of every file, byte by byte |
| PcapWriter.FitsIff | api_stridetastic/stridetastic_api/utils/pcap_writer.py:105-138 | exactly which frames are accepted: a 32-bit interface id, a message type of at most 65530 bytes, and a block whose length fits 32 bits |
| PcapWriter.ConformingRoundTripIff | api_stridetastic/stridetastic_api/utils/pcap_writer.py:98-138 | a reader that also insists on described interfaces and on the declared snapshot length of 65535 gets the same capture if and only if every frame keeps to both, and rejects the file otherwise |
| PcapWriter.UndescribedInterfaceAccepted | api_stridetastic/stridetastic_api/utils/pcap_writer.py:105-138 | an input that breaks the first rule: the writer accepts a frame on interface 7, and that reader rejects the file |
| PcapWriter.OverlongPayloadAccepted | api_stridetastic/stridetastic_api/utils/pcap_writer.py:98-138 | inputs that break the second: the writer accepts any payload of 65536 bytes, and that reader rejects the file |
| PcapWriter.BackwardWalk | api_stridetastic/stridetastic_api/utils/pcap_writer.py:59-66 | the file of any sequence of writes reads the same backwards as forwards |
| PcapWriter.TruncatedFile | api_stridetastic/stridetastic_api/utils/pcap_writer.py:59-66 | cut a capture anywhere past its header: exactly the frames that end at or before the cut are recovered |
| PcapWriter.PacketLength | api_stridetastic/stridetastic_api/utils/pcap_writer.py:105-138 | a frame adds 36 bytes and its padded payload, and with a message type 4 more and the padded comment; every body is a multiple of four |
| PcapWriter.HeaderSize | api_stridetastic/stridetastic_api/utils/pcap_writer.py:41-57 | the fixed header is 352 bytes |
| PcapWriter.FileSize | api_stridetastic/stridetastic_api/utils/pcap_writer.py:59-66 | the file length is the header plus the cost of each frame |
| PcapWriter.PcapNgWriter.constructor | api_stridetastic/stridetastic_api/utils/pcap_writer.py:41-57 | a new writer holds exactly the header, knows its two interface ids, and has accepted no frame |
| PcapWriter.PcapNgWriter.WriteBlock | api_stridetastic/stridetastic_api/utils/pcap_writer.py:59-66 | the file stays a sequence of whole blocks with one more at the end, and the byte counter stays equal to the file length |
| PcapWriter.PcapNgWriter.WriteSectionHeaderBlock | api_stridetastic/stridetastic_api/utils/pcap_writer.py:68-78 | appends the one section header |
| PcapWriter.PcapNgWriter.WriteInterfaceDescriptionBlock | api_stridetastic/stridetastic_api/utils/pcap_writer.py:86-103 | appends the description and hands out the next interface id |
| PcapWriter.PcapNgWriter.WritePacket | api_stridetastic/stridetastic_api/utils/pcap_writer.py:140-158 | succeeds exactly when the message type is non-empty, the frame is acceptable and the file is open, with the default interface when none is given; the file is then that of one more frame, which `PacketsRead` reads back; every failure leaves file and counter unchanged |
| PcapWriter.PcapNgWriter.WriteEnhancedPacketBlock | api_stridetastic/stridetastic_api/utils/pcap_writer.py:105-138 | the same for a frame whose interface is chosen, with or without a message type |
| PcapWriter.PcapNgWriter.WriteMeshPacket | api_stridetastic/stridetastic_api/utils/pcap_writer.py:160-168 | writes on interface 0, which the header describes |
| PcapWriter.PcapNgWriter.WriteDataPacket | api_stridetastic/stridetastic_api/utils/pcap_writer.py:170-178 | writes on interface 1, which the header describes |
| PcapWriter.PcapNgWriter.Close | api_stridetastic/stridetastic_api/utils/pcap_writer.py:180-184 | closes without touching the contents |
| PcapWriter.PcapNgWriter.BytesWritten | api_stridetastic/stridetastic_api/utils/pcap_writer.py:186-190 | open or closed, the answer is the file length and equals header plus frame costs |
| Links.EitherOrder | api_stridetastic/stridetastic_api/models/link_models.py:22-48 | both endpoint orders of a pair lead to the same canonical pair, with opposite directions, and the direction is the label that the serializer shows |
| Links.CanonicalFirstIff | api_stridetastic/stridetastic_api/models/link_models.py:29-48 | which node comes first: the one with a number, then the smaller number, then the one with an id, then the id first in the alphabet, then the older row |
| Links.LabelledOnOwnLink | api_stridetastic/stridetastic_api/utils/link_serialization.py:93-99 | a packet gets a known direction label on a canonical link exactly when that link is its own pair and it is not a self-packet |
| Links.StepKeepsInv | api_stridetastic/stridetastic_api/models/link_models.py:58-108 | each single database statement of any concurrent call, and each renumbering of a node, keeps the invariant: unique ordered pairs, counters and last packet equal to what the log says, a flag only with both counters positive, some running call that owes any missing flag, no link without a call |
| Links.RunKeepsInv | api_stridetastic/stridetastic_api/models/link_models.py:50-108 | the invariant holds at the end of every interleaving of any number of calls and renumberings |
| Links.SafeAlways | api_stridetastic/stridetastic_api/models/link_models.py:50-108 | at every point of every such run: no two links of one ordered pair, no premature flag, last packet and time from one and the same call |
| Links.NoIncrementLost | api_stridetastic/stridetastic_api/models/link_models.py:75-85 | even if nodes are renumbered, the packets from one node to another past their update are those counted in that direction on the two links the pair can have |
| Links.FlagExactWhenQuiet | api_stridetastic/stridetastic_api/models/link_models.py:100-106 | once all calls have finished, a link's flag holds if and only if both its counters are positive |
| Links.OneLink | api_stridetastic/stridetastic_api/models/link_models.py:43-66 | as long as no node is renumbered, a pair of nodes has one link, whichever sends first |
| Links.IndexAgreesWithLog | api_stridetastic/stridetastic_api/models/link_models.py:22-85 | as long as no node is renumbered: a pair has one link; each counter is the number of deliveries counted in its direction, never below the number of different packets counted, and equal to it if and only if no packet was counted twice; once all calls have finished those packets are exactly the packet rows that the serializer labels with the direction |
| Links.TwoDeliveriesCountTwice | api_stridetastic/stridetastic_api/mesh/packet/handler.py:1243-1280 | a concrete run: one packet delivered by two gateways is one labelled row and two increments |
| Links.SecondLinkIff | api_stridetastic/stridetastic_api/models/link_models.py:29-66 | over every run a pair of nodes ends up with two links if and only if two calls that reached a link held its nodes in opposite key orders |
| Links.FlippedOrderSplits | api_stridetastic/stridetastic_api/models/link_models.py:29-106 | a concrete run: numbers 5 and 9, a packet each way, the first node renumbered to 20 in between, leaves two links with one packet each and no flag |
| Links.SelfPacketsIgnored | api_stridetastic/stridetastic_api/models/link_models.py:58-59 | a call finishes without a link if and only if its packet is from a node to itself, and such a call never gets past its first check |
| Links.NodeLinkManager.RecordActivity | api_stridetastic/stridetastic_api/models/link_models.py:50-108 | one uninterrupted call: the link of the canonical pair and no other is touched, its counter for the packet's direction grows by one, packet and time are the call's, the log gains one entry, the flag is exact on return |
| Links.NodeLinkManager.GetOrCreate | api_stridetastic/stridetastic_api/models/link_models.py:63-66 | returns the link of the canonical pair, created with zero counters and no flag if it was missing |
| Links.NodeLinkManager.CountAndFlag | api_stridetastic/stridetastic_api/models/link_models.py:85-106 | the counter of the packet's direction grows by one, last packet and time are the call's, the flag is exact, and only this link changes |
| Identifiers.IdRoundTrip | api_stridetastic/stridetastic_api/mesh/utils.py:34-48 | the id of a number reads back as the number, for numbers of any size |
| Identifiers.IdShape | api_stridetastic/stridetastic_api/mesh/utils.py:34-38 | an id is an exclamation mark and at least eight lowercase hexadecimal digits, exactly eight below 2^32 |
| Identifiers.IdToNumIff | api_stridetastic/stridetastic_api/mesh/utils.py:41-48 | exactly which texts read as an id: an exclamation mark followed by at least one hexadecimal digit of either case and nothing else |
| Identifiers.DefaultIdAliases | api_stridetastic/stridetastic_api/services/virtual_node_service.py:426-429 | two numbers share a default id if and only if they agree modulo 2^32 |
| Identifiers.SeedInRange | api_stridetastic/stridetastic_api/services/virtual_node_service.py:431-439 | the seed of a valid id is at least the virtual start and congruent to the id modulo 2^32 |
| Identifiers.SeedIsFirst | api_stridetastic/stridetastic_api/services/virtual_node_service.py:431-439 | an id in the virtual range is its own seed; below it, the seed is the first number from 10^9 on that stands for the id modulo 2^32 |
| Identifiers.SeedRoundTrip | api_stridetastic/stridetastic_api/services/virtual_node_service.py:426-439 | for an eight-digit id, the default id of its seed is the id itself |
| Identifiers.MacInjective | api_stridetastic/stridetastic_api/mesh/utils.py:51-55 | below 2^48 different numbers have different MAC addresses |
| Identifiers.DefaultMacReads | api_stridetastic/stridetastic_api/mesh/utils.py:51-55 | below 2^48 the default MAC is six pairs of uppercase digits with colons between, and reads as the number |
| Identifiers.LeadingDigits | api_stridetastic/stridetastic_api/mesh/utils.py:51-55 | appending hexadecimal digits leaves the leading ones, which are all a MAC shows of a long number |
| NodeRegistry.Pigeonhole | api_stridetastic/stridetastic_api/services/virtual_node_service.py:368-387 | more distinct candidates than taken values in three columns leave one candidate free in all three |
| NodeRegistry.NearStop | api_stridetastic/stridetastic_api/services/virtual_node_service.py:368-387 | with n rows, 3n+1 at most 2^32 and candidates below 2^48, one of the next 3n+1 candidates is not skipped |
| NodeRegistry.Stops | api_stridetastic/stridetastic_api/services/virtual_node_service.py:368-387 | with fewer than 2^32 rows the probe stops from any starting number, even past 2^48 where MACs repeat |
| NodeRegistry.NextAvailableNumber | api_stridetastic/stridetastic_api/services/virtual_node_service.py:414-424 | the first number from the start that no row uses; without a start, one past the largest, never below the virtual range |
| NodeRegistry.Checked | api_stridetastic/stridetastic_api/services/virtual_node_service.py:330-366 | the checks before the probe, with the column sets as lookups; what survives them is a valid id, a number in the virtual range that no other row uses, and a MAC that no other row uses |
| NodeRegistry.Probe | api_stridetastic/stridetastic_api/services/virtual_node_service.py:368-393 | every candidate before the last collides in a column the caller left open, the last one decides the answer, and at most 3n+1 are examined in the range above |
| NodeRegistry.ResolveIdentity | api_stridetastic/stridetastic_api/services/virtual_node_service.py:321-393 | the whole answer over the rows: the first fault of the request if it has one; else a taken id; else the identity at the first number from the given one, the id's seed or one past the largest, at which number, id and MAC are all free, a given number giving up at the first that is taken |
| NodeRegistry.NoFaultIff | api_stridetastic/stridetastic_api/services/virtual_node_service.py:330-366 | a request passes the checks if and only if each given field normalizes, a given MAC belongs to no other row, and a given number belongs to none and is at least 10^9 |
| NodeRegistry.GivenNumberAnswered | api_stridetastic/stridetastic_api/services/virtual_node_service.py:353-393 | a given number of at least 10^9 is the answer whenever it, the id and the MAC that go with it are free |
| NodeRegistry.OpenNumberAnswered | api_stridetastic/stridetastic_api/services/virtual_node_service.py:353-393 | without a given number, a request without fault fails if and only if it gives an id that another row has |
| NodeRegistry.ExplicitNumberKeptIff | api_stridetastic/stridetastic_api/services/virtual_node_service.py:368-387 | an explicit free number is kept if and only if the id and MAC that go with it are free too; otherwise another number is chosen or the probe fails |
| NodeRegistry.ExplicitNumberMoves | api_stridetastic/stridetastic_api/services/virtual_node_service.py:368-387 | an input for which it is not kept: a physical node with number m, and a request for m plus 2^32, which gets the next number |
| NodeRegistry.GivenFieldsKept | api_stridetastic/stridetastic_api/services/virtual_node_service.py:368-393 | a node id or MAC the caller gave is never replaced, and with all three given neither is the number |
| NodeRegistry.NumberFound | api_stridetastic/stridetastic_api/services/virtual_node_service.py:353-387 | with a given id, the number is the first from the one given, or else from the id's seed, that no other row has and, if the MAC is open, whose default MAC no other row has |
| NodeRegistry.TextParts | api_stridetastic/stridetastic_api/services/virtual_node_service.py:458-476 | every text is a core without blank ends between two runs of blanks |
| NodeRegistry.NodeIdAnswer | api_stridetastic/stridetastic_api/services/virtual_node_service.py:458-476 | what becomes of an id given as text, and each error exactly when: blanks around it are dropped, the exclamation mark may be missing, one to nine hexadecimal digits of either case must follow, and the answer is these in lower case |
| NodeRegistry.NodeIdNormalForm | api_stridetastic/stridetastic_api/services/virtual_node_service.py:458-476 | normalization leaves an id alone if and only if it is an exclamation mark and one to nine lowercase hexadecimal digits |
| NodeRegistry.MacAnswer | api_stridetastic/stridetastic_api/services/virtual_node_service.py:478-489 | what becomes of a MAC given as text, and each error exactly when: dashes and colons are dropped wherever they are, twelve digits of either case must be left, and the answer is these in upper case with colons between pairs |
| NodeRegistry.SeparatedIff | api_stridetastic/stridetastic_api/services/virtual_node_service.py:478-489 | the text without separators, defined by what it must look like, is what the normalization computes |
| NodeRegistry.MacNormalForm | api_stridetastic/stridetastic_api/services/virtual_node_service.py:478-489 | normalizing a MAC twice is the same as once, whatever separators and case it came with |
| NodeRegistry.OtherValues | api_stridetastic/stridetastic_api/services/virtual_node_service.py:445-489 | a number is taken as it is or as its text reads; an id or a MAC that is not text is refused |
| NodeRegistry.GenerateKeyPair | api_stridetastic/stridetastic_api/services/virtual_node_service.py:209-233 | the first of the 32 draws neither of whose keys another row holds; it fails if and only if there is none |
| NodeRegistry.PlacingKeepsRegistered | api_stridetastic/stridetastic_api/services/virtual_node_service.py:344-393 | writing a row with an available identity and unshared keys keeps all columns distinct |
| NodeRegistry.VirtualNodeService.CreateVirtualNode | api_stridetastic/stridetastic_api/services/virtual_node_service.py:73-101 | succeeds if and only if the allocation answers an identity and some draw is free, and then adds exactly one row with that identity and the first free draw; otherwise the error says which of the two failed and nothing changes; a given free number of at least 10^9 is the one the new row gets; numbers, ids and MACs stay pairwise distinct, virtual numbers in range, keys unshared |
| NodeRegistry.VirtualNodeService.UpdateVirtualNode | api_stridetastic/stridetastic_api/services/virtual_node_service.py:103-185 | the exact answer, each error with its cause, over the fields given and the row as it is; rewrites exactly the one row or nothing and keeps the same invariant; given identity fields are honoured and unmentioned ones kept; an open number becomes the first open one from the id's seed; keys change only when regenerated |
| NodeRegistry.VirtualNodeService.UpdatedIdentity | api_stridetastic/stridetastic_api/services/virtual_node_service.py:103-160 | the identity after an update is available to this row; a given id is honoured; with the id unchanged, given fields are honoured and unmentioned ones kept; the number moves only if it or the MAC is asked for but left open, and then to the first open one |
| NodeRegistry.VirtualNodeService.DeleteVirtualNode | api_stridetastic/stridetastic_api/services/virtual_node_service.py:187-191 | removes exactly a virtual row, refuses others, keeps the invariant |
| Scheduler.TickAdvances | api_stridetastic/stridetastic_api/tasks/publisher_tasks.py:22-35 | a tick that passes over a due job queues a full batch from ahead of it and leaves none of those ahead |
| Scheduler.OtherEventAdvances | api_stridetastic/stridetastic_api/controllers/publisher_controller.py:601-628 | executions, creations, deletions and edits put nothing ahead of a due job, except that a save of an outdated row can put one |
| Scheduler.TickedSpelledOut | api_stridetastic/stridetastic_api/tasks/publisher_tasks.py:26-38 | a queued batch, row by row: only enabled due jobs, earliest first, none repeated, at most 100, all others unchanged, a due one left behind only if 100 were queued and none of them is later; a queued row has its due time moved to now plus its period, at least 30, and nothing else |
| Scheduler.NoStarvation | api_stridetastic/stridetastic_api/tasks/publisher_tasks.py:22-35 | an enabled due job with r jobs ahead is queued within floor((r + outdated saves until then)/100) + 1 ticks, for any number of jobs and any events in between; without outdated saves this is floor(r/100) + 1 |
| Scheduler.NotBeforeDue | api_stridetastic/stridetastic_api/tasks/publisher_tasks.py:26-35 | a job whose edits are up to date and reset nothing is never queued before its due time |
| Scheduler.MinimumSpacing | api_stridetastic/stridetastic_api/tasks/publisher_tasks.py:32-38 | two queueings of such a job are at least the period it had at the first, and at least 30 seconds, apart, whatever the outcomes of its executions |
| Scheduler.EditRepeatsQueueingIff | api_stridetastic/stridetastic_api/controllers/publisher_controller.py:562-628 | an edit that resets nothing, saved within the period after a tick queued the job, makes the job due again at once if and only if it saves anything and the request had read a due time from before that tick |
| Scheduler.StaleSaveBreaksSpacing | api_stridetastic/stridetastic_api/controllers/publisher_controller.py:562-628 | a concrete run: a job renamed while it is queued is queued twice within two seconds, with a period of thirty |
| Scheduler.ResetBreaksSpacing | api_stridetastic/stridetastic_api/controllers/publisher_controller.py:617-628 | a concrete run: so is a job whose up-to-date edit gives the period it already has |
| Scheduler.StaleSaveDelays | api_stridetastic/stridetastic_api/controllers/publisher_controller.py:562-628 | a concrete run: a due job with 99 ahead is passed over by the next tick because a rename put a queued job back in front of it |
| Scheduler.DisablingTurnsOff | api_stridetastic/stridetastic_api/controllers/publisher_controller.py:603-628 | saving an edit with the enabled flag false turns the job off, whatever row it was read from |
| Scheduler.OffStaysQuiet | api_stridetastic/stridetastic_api/tasks/publisher_tasks.py:26-61 | once a job is off, in any run no tick queues it and no execution of it publishes until an edit or a creation enables it again |
| Scheduler.PeriodicPublisher.SelectDue | api_stridetastic/stridetastic_api/tasks/publisher_tasks.py:26-30 | the due rows by due time, as many as there are up to 100, none later than one left behind |
| Scheduler.PeriodicPublisher.ProcessPeriodicPublishJobs | api_stridetastic/stridetastic_api/tasks/publisher_tasks.py:20-43 | queues such a batch and leaves the table exactly as described for it |
| Scheduler.PeriodicPublisher.ExecutePeriodicPublishJob | api_stridetastic/stridetastic_api/tasks/publisher_tasks.py:47-105 | true exactly if the job is there, enabled and gets published; its last run is then now, its status is the outcome's, each case spelled out, and no other column or job changes, the due time never |
| Scheduler.PeriodicPublisher.CreatePeriodicJob | api_stridetastic/stridetastic_api/controllers/publisher_controller.py:507-548 | a valid job starts with the given period and flag, due from its creation, never run and idle; a period below 30 is refused and changes nothing |
| Scheduler.PeriodicPublisher.UpdatePeriodicJob | api_stridetastic/stridetastic_api/controllers/publisher_controller.py:559-630 | accepted exactly if the job was found and the edit is empty or leaves a period of at least 30; after a non-empty edit, enabled, period, last run and status are the fields given, else those of the row read, whatever the row became since; due time is now exactly when the job was re-enabled or an enabled job got a period, else the one read; refusals and empty requests change nothing |
| Reactive.GrantExtends | api_stridetastic/stridetastic_api/services/publisher_service.py:404-439 | a granted request joins the batch its window holds or opens a new one a whole window after the last, and the table entry describes that batch |
| Reactive.RunKeepsLimiter | api_stridetastic/stridetastic_api/services/publisher_service.py:404-439 | over any run the grants of a node come in batches shorter than a window, a window apart, of at most the limit each |
| Reactive.SlidingWindow | api_stridetastic/stridetastic_api/services/publisher_service.py:404-439 | every half-open interval one window long holds at most 2m - 1 injections per node since the table was last emptied |
| Reactive.SlidingWindowAttained | api_stridetastic/stridetastic_api/services/publisher_service.py:404-439 | for every limit and every window of at least two clock units a run puts exactly 2m - 1 injections into one window |
| Reactive.WindowWithClears | api_stridetastic/stridetastic_api/services/publisher_service.py:404-439 | over whole runs, with their emptyings: an interval one window long within which the table is emptied k times holds at most 2m - 1 + km injections per node, and (k + 1)m if m is one or the window a single clock unit |
| Reactive.WindowWithClearsAttained | api_stridetastic/stridetastic_api/services/publisher_service.py:346-353 | for every m and k and every positive window a run attains exactly that number, by restarting the service |
| Reactive.BoundIff | api_stridetastic/stridetastic_api/services/publisher_service.py:404-439 | so a number bounds the injections of all such intervals if and only if it is at least that one |
| Reactive.LimitHoldsIff | api_stridetastic/stridetastic_api/services/publisher_service.py:404-439 | at most m injections in every interval one window long that holds k emptyings, over all runs, if and only if k is zero and m is one or the window a single clock unit |
| Reactive.RefusedOnlyWhenSpent | api_stridetastic/stridetastic_api/services/publisher_service.py:404-439 | a request with a positive limit is refused only if that many were granted to the node within the window that ends now |
| Reactive.DisablingTakesEffect | api_stridetastic/stridetastic_api/services/publisher_service.py:229-261 | once the stored flag is off from time d on, no packet whose refresh comes at or after d plus the refresh interval is injected, over any packets, refreshes and stops |
| Reactive.DecidedLate | api_stridetastic/stridetastic_api/services/publisher_service.py:989-1084 | an input that shows the bound is on the refresh: a packet let through just before it can be decided any time later |
| Reactive.StopTurnsOff | api_stridetastic/stridetastic_api/services/publisher_service.py:355-361 | stopping a service whose configuration was read turns it off, at run time and as stored |
| Reactive.OffStaysQuiet | api_stridetastic/stridetastic_api/services/publisher_service.py:229-261 | a service that is off injects nothing in any run of packets, refreshes, loads, stops and saves that keep it off, until it is started or stored as on |
| Reactive.ReactivePublisher.RefreshReactiveState | api_stridetastic/stridetastic_api/services/publisher_service.py:229-261 | throttled refreshes change nothing; otherwise the runtime flag becomes the stored one and the table is emptied exactly when it flips |
| Reactive.ReactivePublisher.ShouldInjectForNode | api_stridetastic/stridetastic_api/services/publisher_service.py:404-439 | verdict and table entry, spelled out: refused without a node or a limit or when the limit is spent within the window of the first attempt; otherwise counted, in a new window if the old one is over; other nodes untouched |
| Reactive.ReactivePublisher.StartReactiveService | api_stridetastic/stridetastic_api/services/publisher_service.py:346-353 | enabled, stored as enabled, table empty; nothing else changes |
| Reactive.ReactivePublisher.StopReactiveService | api_stridetastic/stridetastic_api/services/publisher_service.py:355-361 | disabled, table empty; stored as disabled if the configuration had been read and unchanged otherwise; nothing else changes |
| Reactive.ReactivePublisher.OnPacketReceived | api_stridetastic/stridetastic_api/services/publisher_service.py:982-1088 | refreshes first; a packet that comes while disabled or that a gate stops leaves the attempt table as the refresh left it and is not injected; any other is decided as above |
| Keepalive.StepAdds | api_stridetastic/stridetastic_api/services/keepalive_service.py:79-109 | a check adds one history row for each pair it records, and nothing else ever adds one |
| Keepalive.ReopensIff | api_stridetastic/stridetastic_api/controllers/keepalive_controller.py:101-150 | a last-seen time behind the cutoff comes before it again only through a save that writes back an older run or raises the threshold, and exactly when the saved row puts its cutoff before that time |
| Keepalive.PassedOverIff | api_stridetastic/stridetastic_api/services/keepalive_service.py:48-96 | the exact list of events that move the cutoff past a pair without recording it: rejected and crashed checks, saves, a first check whose window starts later, a check that finds the node out of scope or heard since |
| Keepalive.ExactCount | api_stridetastic/stridetastic_api/services/keepalive_service.py:36-177 | the number of rows of a pair over every run of checks, failures, sightings and saves: one if it is open and the event that closes it records it, and one more for each reopening that ends so |
| Keepalive.RowsBound | api_stridetastic/stridetastic_api/services/keepalive_service.py:36-177 | at most one row for an open pair, and one more per reopening |
| Keepalive.ExactlyOnceIff | api_stridetastic/stridetastic_api/services/keepalive_service.py:36-177 | while nothing reopens it, an open pair gets exactly one row if the event that closes it is a check that records it, and none otherwise; first checks included |
| Keepalive.FurtherRowIff | api_stridetastic/stridetastic_api/services/keepalive_service.py:36-177 | a closed pair gets a further row if and only if a save reopens it and it is then decided by a check that records it |
| Keepalive.AtMostOnce | api_stridetastic/stridetastic_api/services/keepalive_service.py:36-177 | with a fixed threshold a pair gets at most one row, and one more for each save that writes back a run from before its cutoff |
| Keepalive.ThresholdChange | api_stridetastic/stridetastic_api/controllers/keepalive_controller.py:119-150 | over runs: raising the threshold reopens exactly the times between the old and the new cutoff, lowering it closes exactly those, and a pair gets a row afterwards if and only if it lies after the new cutoff and a check that records it decides it |
| Keepalive.StaleSaveRepeats | api_stridetastic/stridetastic_api/controllers/keepalive_controller.py:101-150 | a concrete run with a fixed threshold in which a save of the row read before a check makes the same transition recorded twice |
| Keepalive.RaisedThresholdRepeats | api_stridetastic/stridetastic_api/controllers/keepalive_controller.py:119-150 | a concrete run in which raising the threshold makes the same transition recorded twice |
| Keepalive.LoweredThresholdLoses | api_stridetastic/stridetastic_api/controllers/keepalive_controller.py:119-150 | a concrete run in which lowering the threshold closes the time of a silent node in scope that was never recorded |
| Keepalive.RejectedCheckLoses | api_stridetastic/stridetastic_api/services/keepalive_service.py:57-63 | a concrete run in which a check rejected for an incomplete configuration does |
| Keepalive.CrashedCheckLoses | api_stridetastic/stridetastic_api/tasks/keepalive_tasks.py:20-26 | a concrete run in which a crashed check does |
| Keepalive.ListedAreRows | api_stridetastic/stridetastic_api/services/keepalive_service.py:25-106 | what the scope and the window mean for the rows: a node of the table, virtual if only virtual ones are watched, selected if a selection is, last seen after the window's start and not after its end |
| Keepalive.KeepaliveService.Events | api_stridetastic/stridetastic_api/services/keepalive_service.py:91-106 | one row for each node that the scope selects and whose last-seen time is in the window, with that time and the window's end, and no other |
| Keepalive.KeepaliveService.RunCheck | api_stridetastic/stridetastic_api/services/keepalive_service.py:36-177 | disabled or early it does nothing; an invalid or incomplete configuration is noted with the time; otherwise the rows of the window from the last run, or one interval ago, to now, both less the threshold, are added, with the floors of 30 and 60 seconds, and run time and outcome are saved; counts the rows except after a context error |
| Keepalive.KeepaliveService.RecordCrash | api_stridetastic/stridetastic_api/tasks/keepalive_tasks.py:20-26 | time and error text of a crashed check are noted, nothing else changes |
| Keepalive.KeepaliveService.UpdateConfig | api_stridetastic/stridetastic_api/controllers/keepalive_controller.py:98-158 | accepted exactly if threshold, interval, payload and completeness of the edited row are; then each field is the one given, else the one read, run time and note as read; the selection is saved besides; refusals change nothing |
| Capture.IngestAccounts | api_stridetastic/stridetastic_api/services/capture_service.py:557-596 | one target of an ingest stays running with exact byte, packet and size accounting and below the limit, or leaves the active map in a terminal status |
| Capture.StepKeepsInv | api_stridetastic/stridetastic_api/services/capture_service.py:192-838 | every public operation keeps: an active writer has a running row, its accounting is exact to the byte, and it is below the limit once written to |
| Capture.RunKeepsInv | api_stridetastic/stridetastic_api/services/capture_service.py:192-838 | the same over whole runs of operations |
| Capture.ActiveFileReadsBack | api_stridetastic/stridetastic_api/services/capture_service.py:557-585 | at any point of any run the file of an active session parses back to the frames its writer accepted; the stored size is the file size and the stored byte count grows by the payload bytes that are read |
| Capture.StepKeepsFrozen | api_stridetastic/stridetastic_api/services/capture_service.py:192-838 | no operation returns a session to RUNNING or changes the counters of one that has left it |
| Capture.FrozenForever | api_stridetastic/stridetastic_api/services/capture_service.py:192-838 | over whole runs a session that left RUNNING keeps its packet count, byte count and file size for as long as its row exists |
| Capture.StepStatus | api_stridetastic/stridetastic_api/services/capture_service.py:192-838 | a session that left RUNNING changes status only by being cancelled |
| Capture.FinalStatus | api_stridetastic/stridetastic_api/services/capture_service.py:192-838 | over whole runs it ends as cancelled if it was cancelled on the way, and as it was otherwise |
| Capture.TerminalStatusChangesIff | api_stridetastic/stridetastic_api/services/capture_service.py:345-379 | over whole runs a terminal status changes if and only if it is completed or failed and the run cancels the session |
| Capture.CompletedThenCancelled | api_stridetastic/stridetastic_api/services/capture_service.py:345-379 | a concrete run: started, stopped, then cancelled |
| Capture.SizeBound | api_stridetastic/stridetastic_api/services/capture_service.py:579-596 | after an ingest that did not fail the file is smaller than the limit plus what that ingest wrote, and the session is completed if and only if the limit was reached |
| Capture.OperationsSpelledOut | api_stridetastic/stridetastic_api/services/capture_service.py:192-441 | what start, activate, stop, cancel, stop all, delete and delete all do to each row and each active session, field by field |
| Capture.IngestSpelledOut | api_stridetastic/stridetastic_api/services/capture_service.py:481-596 | what an ingest does to each session: listeners of the source and the interface, or of any when they name none, get the frames; dormant ones are woken only if there is no listener; the frames are counted and the limit applied, or the session fails uncounted; all others stay as they were |
| Capture.SomeWriteFailsIff | api_stridetastic/stridetastic_api/services/capture_service.py:566-573 | an envelope is refused if and only if some write fails or some frame has no message type or does not fit |
| Capture.CaptureService.RegisterActiveSession | api_stridetastic/stridetastic_api/services/capture_service.py:168-190 | opening succeeds and registers the session, or marks the row as failed |
| Capture.CaptureService.Start | api_stridetastic/stridetastic_api/services/capture_service.py:243-309 | an unknown interface changes nothing; otherwise a new row with zero counters, running and active if the writer opens and failed and not active if not; no other session changes |
| Capture.CaptureService.ActivateExisting | api_stridetastic/stridetastic_api/services/capture_service.py:192-214 | true exactly when the session is active afterwards; only running rows are activated |
| Capture.CaptureService.Stop | api_stridetastic/stridetastic_api/services/capture_service.py:311-343 | a live session ends with the size its closed writer reports; an unknown one is an error, and a finished one keeps its status |
| Capture.CaptureService.Cancel | api_stridetastic/stridetastic_api/services/capture_service.py:345-379 | cancels any existing session, overwriting a terminal status but no counter |
| Capture.CaptureService.CancelAllActive | api_stridetastic/stridetastic_api/services/capture_service.py:381-402 | exactly the active sessions that still run become cancelled, and every writer is closed |
| Capture.CaptureService.Delete | api_stridetastic/stridetastic_api/services/capture_service.py:404-423 | removes row and active entry of one session and closes its writer |
| Capture.CaptureService.DeleteAllSessions | api_stridetastic/stridetastic_api/services/capture_service.py:425-441 | leaves nothing and counts the rows |
| Capture.CaptureService.ActivateForIngest | api_stridetastic/stridetastic_api/services/capture_service.py:216-238 | the loop opens every dormant session concerned, independently of the failures of others |
| Capture.CaptureService.HandleIngest | api_stridetastic/stridetastic_api/services/capture_service.py:481-596 | does what is described for each session, and nothing to the others; activation only when no target is active |
| Capture.CaptureService.WriteTarget | api_stridetastic/stridetastic_api/services/capture_service.py:566-588 | a failed write changes no counter and ends the session with its writer closed; otherwise the packet is counted and the limit enforced |
| Capture.WriteEnvelope | api_stridetastic/stridetastic_api/services/capture_service.py:566-573 | the writer accepts exactly the frames of the envelope in order, and this succeeds if and only if every one of them is acceptable and no write fails |
| Capture.FramesInOrder | api_stridetastic/stridetastic_api/services/capture_service.py:559-573 | which frames an envelope gives: the mesh message on interface 0, the data message, if there is one, on interface 1, then the others on interface 0, all with the packet's time |
| Capture.PayloadOfEnvelope | api_stridetastic/stridetastic_api/services/capture_service.py:557-561 | the byte count computed before writing is the payload total of the frames written |
| Capture.CaptureService.CountPacket | api_stridetastic/stridetastic_api/services/capture_service.py:579-588 | one packet and its bytes are counted, the stored size is what the writer reports, and reaching the limit completes the session and closes the writer |
| Interfaces.RunKeepsCoherent | api_stridetastic/stridetastic_api/services/service_manager.py:137-182 | any sequence of start-all, stop-all, reload, start, stop, resolve and row edits keeps cached statuses equal to row statuses |
| Interfaces.CacheAlwaysCoherent | api_stridetastic/stridetastic_api/services/service_manager.py:343-346 | from a fresh bootstrap over any rows, with arbitrary connect results, every run keeps the cache coherent |
| Interfaces.SecondLoadIncoherent | api_stridetastic/stridetastic_api/services/service_manager.py:95-104 | loading once more after a bootstrap always breaks the agreement of cache and rows, whatever connected |
| Interfaces.RebootCoherentIff | api_stridetastic/stridetastic_api/services/service_manager.py:343-346 | a complete second bootstrap from any coherent state restores the agreement if and only if no wrapper was running or connecting |
| Interfaces.StartedWhileLoading | api_stridetastic/stridetastic_api/tasks/interface_tasks.py:11-44 | whenever an interface without a wrapper is started and connects while it is loaded, it runs, and no second connect is made |
| Interfaces.BootSpelledOut | api_stridetastic/stridetastic_api/services/service_manager.py:82-135 | after a bootstrap every enabled row has a wrapper, running or failed as its connect went, every other row is stopped without one, and if none was enabled there is one new MQTT interface |
| Interfaces.StartAllSpelledOut | api_stridetastic/stridetastic_api/services/service_manager.py:137-145 | each wrapper that neither runs nor connects ends running or failed with its row, all others stay as they were |
| Interfaces.StopAllSpelledOut | api_stridetastic/stridetastic_api/services/service_manager.py:147-156 | each wrapper and each row ends stopped, with its kind and enabled flag |
| Interfaces.ReloadSpelledOut | api_stridetastic/stridetastic_api/services/service_manager.py:160-182 | each answer of a reload: a missing row changes nothing, any other gets a wrapper of its row's kind, stopped if the row is disabled and otherwise running or failed as the connect went, and no other interface changes |
| Interfaces.StartSpelledOut | api_stridetastic/stridetastic_api/tasks/interface_tasks.py:11-47 | the state a start leaves, for a missing, disabled, running and stopped interface, with and without a wrapper |
| Interfaces.StopSpelledOut | api_stridetastic/stridetastic_api/tasks/interface_tasks.py:51-78 | the state a stop leaves, for the same cases |
| Interfaces.ResolveSpelledOut | api_stridetastic/stridetastic_api/services/service_manager.py:391-448 | the state a resolve leaves: a missing wrapper is made if its row is enabled, and only an MQTT wrapper that does not run or fails its first check is restarted |
| Interfaces.ServiceManager.constructor | api_stridetastic/stridetastic_api/services/service_manager.py:70-80 | a new manager has no wrappers |
| Interfaces.ServiceManager.StartWrapper | api_stridetastic/stridetastic_api/services/service_manager.py:26-42 | row and cached copy end with the same status, running exactly if the connect succeeded and failed otherwise; kinds, the enabled flag and every other interface are unchanged |
| Interfaces.ServiceManager.StopWrapper | api_stridetastic/stridetastic_api/services/service_manager.py:44-51 | row and cached copy both end stopped, whatever the disconnect did; kinds, the enabled flag and every other interface are unchanged |
| Interfaces.ServiceManager.Bootstrap | api_stridetastic/stridetastic_api/services/service_manager.py:343-346 | at least one wrapper exists, and each is running or failed as its connect went |
| Interfaces.ServiceManager.StartAllInterfaces | api_stridetastic/stridetastic_api/services/service_manager.py:137-145 | exactly the wrappers that are neither running nor connecting get a new status, with their rows |
| Interfaces.ServiceManager.StopAllInterfaces | api_stridetastic/stridetastic_api/services/service_manager.py:147-156 | every row and wrapper ends stopped |
| Interfaces.ServiceManager.ReloadInterface | api_stridetastic/stridetastic_api/services/service_manager.py:160-182 | the wrapper is rebuilt from the row and runs only if the row is enabled; no other interface changes |
| Interfaces.ServiceManager.StartInterfaceTask | api_stridetastic/stridetastic_api/tasks/interface_tasks.py:20-47 | each error if and only if its cause; an interface without a wrapper whose load connects is answered as already running |
| Interfaces.ServiceManager.StopInterfaceTask | api_stridetastic/stridetastic_api/tasks/interface_tasks.py:51-78 | each error if and only if its cause; a usable interface is stopped afterwards in every case |
| Interfaces.ServiceManager.ResolvePublishContext | api_stridetastic/stridetastic_api/services/service_manager.py:391-448 | succeeds if and only if it ends with an MQTT wrapper in RUNNING whose most recent connection check was positive; after a failed wait no check was |
| Interfaces.ServiceManager.AwaitConnection | api_stridetastic/stridetastic_api/services/service_manager.py:428-446 | stops at the first positive check, at the first exception after the first check, or after twenty-one checks |
| GraphDiff.KeysMember | web_stridetastic/src/components/NetworkGraph.tsx:289-290 | the keys of the new data are those of some entry |
| GraphDiff.KeysAppend | web_stridetastic/src/components/NetworkGraph.tsx:289-290 | a key takes its place at its first entry and keeps it |
| GraphDiff.KeysAfter | web_stridetastic/src/components/NetworkGraph.tsx:291-309 | after the diff the keys are exactly the new keys, each once |
| GraphDiff.ShowsAfter | web_stridetastic/src/components/NetworkGraph.tsx:291-301 | after the diff each object agrees with the last new entry of its key on all that entry's fields |
| GraphDiff.NothingToDo | web_stridetastic/src/components/NetworkGraph.tsx:287-309 | an array that already shows the entries has nothing to add and nothing to remove |
| GraphDiff.LinkKeyInjective | web_stridetastic/src/components/NetworkGraph.tsx:312-313 | the link key determines both endpoints as long as source ids contain no greater-than sign |
| GraphDiff.LinkKeyIdentifies | web_stridetastic/src/components/NetworkGraph.tsx:312-313 | for all ids the client builds, two links share a key if and only if they have the same ends |
| GraphDiff.MergedNodesInOrder | web_stridetastic/src/components/NetworkGraph.tsx:273-278 | the merged nodes are the nodes that are not brokers, in their order, and then the interfaces |
| GraphDiff.MergedLinksInOrder | web_stridetastic/src/components/NetworkGraph.tsx:279-282 | filtering the links keeps their order and looks at each by itself |
| GraphDiff.NodesSpelledOut | web_stridetastic/src/components/NetworkGraph.tsx:273-335 | the keys of the displayed nodes are exactly those of the interfaces and the nodes that are not brokers |
| GraphDiff.LinksSpelledOut | web_stridetastic/src/components/NetworkGraph.tsx:279-335 | the keys of the displayed links are exactly those of the given links both of whose ends are displayed |
| GraphDiff.LinkFields | web_stridetastic/src/components/NetworkGraph.tsx:279-335 | a displayed link carries the fields it was given with its two ends under their names |
| GraphDiff.ItemArray.Index | web_stridetastic/src/components/NetworkGraph.tsx:289 | each key of the array leads to an object with that key |
| GraphDiff.ItemArray.AddOrUpdate | web_stridetastic/src/components/NetworkGraph.tsx:291-302 | objects that stay are updated, copies of the new entries follow in key order |
| GraphDiff.ItemArray.AddOrUpdateNext | web_stridetastic/src/components/NetworkGraph.tsx:292-301 | one key: its one object is updated, or a copy is appended |
| GraphDiff.UpdateItem | web_stridetastic/src/components/NetworkGraph.tsx:296-300 | only the one object changes, and it then agrees with its entry |
| GraphDiff.ItemArray.RemoveMissing | web_stridetastic/src/components/NetworkGraph.tsx:304-309 | the splices leave exactly the objects whose key is kept, in their order |
| GraphDiff.ItemArray.Reconcile | web_stridetastic/src/components/NetworkGraph.tsx:287-309 | survivors keep identity, order and extra fields and take the last new entry of their key; keys are the new keys without duplicates; repeating the diff changes nothing |
| GraphDiff.GraphData.Update | web_stridetastic/src/components/NetworkGraph.tsx:287-335 | the same for nodes and links together, neither diff touching the other array |
| GraphDiff.NoDanglingLinkIff | web_stridetastic/src/components/NetworkGraph.tsx:326-332 | after a diff no displayed link dangles if and only if, for each link key, the last new link has both ends among the new nodes |
| GraphDiff.GraphData.ShowMerged | web_stridetastic/src/components/NetworkGraph.tsx:273-335 | exactly the interfaces and the nodes that are not brokers are displayed, and exactly the links both of whose ends are; so no displayed link dangles |
| GraphDiff.GraphData.Refresh | web_stridetastic/src/components/NetworkGraph.tsx:347-403 | the refresh handler repeats the diff without that filter: the nodes are the same, and it leaves no dangling link if and only if, for each key, the last unfiltered link has both ends; with ids the client builds, if and only if all of them have |
| GraphDiff.UnfilteredLinkDangles | web_stridetastic/src/components/NetworkGraph.tsx:347-403 | for a node linked to the broker, every pair of arrays that shows the refreshed data holds a dangling link |

## Left out

- Text is its UTF-8 bytes and timestamps are integer ticks; turning a datetime into ticks and failures of the operating system in the middle of a block are not modelled.
- `int(text, 16)` accepts a sign, underscores and a `0x` prefix in `id_to_num`, and `num_to_id` accepts negative numbers; only plain hexadecimal text and natural numbers are modelled. The answer of `int(text, 0)` for a node number given as text is an argument.
- Case folding and white space cover ASCII only.
- `_suggest_identity`, the other columns of a node, key generation itself, tables of 2^32 rows or more (the probe need not stop there) and rows written by others between the identity checks and the insert.
- The channels of a link, packets or nodes deleted later, and overflow of the counters. A delivery may hold any key its nodes ever had. Each database statement of `record_activity` is atomic and the unique constraint on the pair is the database's.
- Several scheduler workers at once with `skip_locked`, delivery of queued executions, and validation of job fields other than the period.
- The gates of a packet before the attempt limiter are one boolean, the cached `max_tries` is an argument of each packet, and publishing itself is left out. Attempt tables of other processes are separate instances.
- Every stored row a configuration request could have read is allowed for, whether or not the run ever held it; the fields of a keepalive configuration that concern publishing are two flags. Publishing in a keepalive check is reduced to its outcome, including the error text. The branch for an empty window cannot be reached and is only shown to be so.
- Parsing, decrypting and nested decoding of captured envelopes (the payloads are arguments), file names, notes, end times, delegation from a process without a writer, and thread interleavings inside one capture operation. A write that the operating system fails leaves no partial block in the model; its session ends there. A restart opens a new writer, so byte accounting is per writer lifetime. The size limit is applied right after each target instead of in a second loop, which is the same because targets are independent.
- Interface rows deleted or given another status while a wrapper lives, broker settings, base topics, the sleeps between connection checks, and stopping captures from `stop_all`.
- Comparing objects by `JSON.stringify` is modelled as comparing fields; a different key order only repeats an assignment that changes nothing. Field values are strings, and the renderer's habit of replacing link endpoints by objects is left out, as are React's hooks and the fallback after a failed fetch.
- Metrics, payload schemas, HTTP and Django wiring, encryption and protobuf crafting.
