# A verified model of the USB man-in-the-middle core

`driver.c` talks to a real USB device, `gadget.c` impersonates that device to a host, and the two
exchange framed messages (`msg.c`) over UDP (`com_udp.c`) through a userland relay. This project
models the two ends, the messages between them and the registries they keep, and proves what the
pair is for: the host sees the device, no payload is lost, repeated or swapped without a failure,
and nothing stays allocated when an endpoint goes away.

Conventions: the 32-bit ARM layout (4-byte sizes and enums, a packed 10-byte endpoint id), so
headers take 18 (DATA), 22 (ACK) and 12 (MANAGEMENT) bytes. The relay forwards messages unchanged
and may drop or reorder them, but never duplicates them. A work item runs as one step. Kernel
calls (allocation, submission, transport, endpoint configuration) are outcomes handed to each
step, so every theorem holds for all of them.

How the modules build on each other:

- `Bytes`, `Messages`, `Transport`: message images in memory, appends, `check_msg`, the chunked
  send and receive loops.
- `Descriptors`, `InitPacket`, `InitBuilder`, `InitParser`: the packet that describes the device.
  `InitPacket` says what it means; the two methods build and parse it in place. `PacketBounds` and
  `ShortEndpoints` say exactly where the parser leaves its arrays or its own announcement.
- `EndpointList`, `Registry`, `RegistryInvariant`, `Mirror`, `GadgetRegistry`, `DriverRegistry`, `EndToEnd`: the endpoint
  lists of both ends, each as a class refining one map from interface number to alternate setting.
- `Requests`, `GadgetEndpoint`, `DriverEndpoint`: request ownership and endpoint teardown.
- `Pipeline`, `Traffic`, `PacketKinds`, `InDelivery`, `OutDelivery`: both ends, both channels, every
  interleaving; what travels, credit conservation and delivery order.
- `ControlTransfer`, `ControlGadget`, `ControlDriver`, `Sums`, `Control`, `StatusStage`, `ControlOutcomes`:
  endpoint zero as a system of steps, and its theorems over all runs.
- `HeldRequests`, `DataMessages`, `ControlMessages`, `GadgetZero`, `DriverZero`, `ControlSystem`: the
  same endpoint zero in memory. Requests are messages updated in place, and every operation is shown
  to be a step of `Control`, so its theorems hold of the bytes.
- `PayloadMessages`: the requests of bulk and interrupt endpoints in memory, from one controller to
  the other.
- `RegistryRuns`, `RegistryMirror`, `RegistryAgreement`, `RegistryReached`, `ControlRegistries`:
  endpoint zero together with both registries. The transfers that change a registry are joint steps;
  over runs of them it is said which SET_INTERFACE both ends carry out, that the registries mirror
  each other whenever an orderly run has settled, and exactly when they agree after any other.
  `ControlRegistries` is both ends and both registries in memory, each operation one such step.
- `StagedSelection`, `RereadConfiguration`: two ways in which the registries part though nothing fails, with their
  exact conditions and runs that get there.

Where the code does less than one would expect, the model follows the code and the exact condition
is proved:

- `set_interface` does not disable the chosen setting first, so selecting the active setting again
  lists its endpoints twice (`RegistryInvariant.ReselectingDuplicates`); `RegistryInvariant.SetInterfaceInvariantExactly`
  gives the condition, which holds whenever the setting is not active.
- The guard at gadget.c:698 tests the interface descriptor's length where the endpoint's is meant, so
  short endpoint descriptors are counted instead of skipped. The scan is the announced one exactly
  when no short endpoint is met while an interface is open, and the parsed list exactly when none
  stands inside an interface that is completed (`ShortEndpoints.ParseAsMeantExactly`, with a packet
  in `ShortEndpoints.ShortEndpointIsCounted`).
- The interface count clamped at gadget.c:644-651 is never applied. Parsing stays inside
  `interfaces[64]` and `endpoints[8]` exactly when the arrays can hold what was read
  (`PacketBounds.InBoundsExactly`); `PacketBounds.NineEndpointsLeaveTheArrays` is an accepted packet
  that does not.
- `build_init_pkt` counts 9 and 7 bytes per descriptor but appends `bLength` bytes; the fill stays in
  its allocation exactly when the total excess is not positive (`InitPacket.FillFitsAllocation`), and
  a nine-byte endpoint overflows it by two (`PacketBounds.LongEndpointOverflows`).
- The driver's work item resubmits after a stall even during teardown, so a waiting stalled
  completion leaves a request behind, exactly then (`DriverEndpoint.TeardownCompleteExactly`,
  reached in `DriverEndpoint.StallIsReached`).
- `free_endpoint` releases the endpoint's descriptor before it flushes the work queue, and an OUT
  resubmission reads it: exactly when an OUT completion still waits for its work item
  (`GadgetEndpoint.DescriptorReadExactly`, reached in `GadgetEndpoint.DescriptorReadIsReached`).
- IN order needs that nothing older for the endpoint is in transit when it is enabled
  (`InDelivery.InOrderExactly`).
- A control OUT URB asks for `wLength` bytes whatever the host sent; in every run its buffer holds
  them exactly when the data stage was full (`Control.BufferHoldsLength`, short in
  `Control.ShortStageIsReached`).
- A message longer than com.c's receive buffer is refused by the receiver
  (`DataMessages.DeliverableExactly`); a device that answers a read of 16000 bytes in full makes the
  driver send one (`ControlSystem.LongAnswerIsReached`).
- The driver carries out every SET_INTERFACE it receives, the gadget only those without a data stage:
  one that is delivered and succeeds is selected on both ends exactly when it has none
  (`RegistryRuns.SelectedOnBothExactly`, and `StagedSelection.DataStageDiverges` for one byte of
  data). The lists still agree exactly when the new alternate has the endpoints of the old one
  (`StagedSelection.StagedMirrorsExactly`). The same requests are the only ones that may name an
  interface the driver's lookup does not find.
- Answering a further read of the configuration descriptor takes the gadget back to alternate 0; the
  driver stays where it is. The lists still agree exactly when every current alternate has the
  endpoints of alternate 0 (`RereadConfiguration.RereadMirrorsExactly`, reached in
  `RereadConfiguration.RereadDiverges`).

## Model

| member | source | states |
|---|---|---|
| Messages.DataSizeOf | msg.c:23-49 | in a well-formed image the stored size minus the type's header is exactly the number of data bytes, and the data starts right behind the header: no underflow |
| Messages.AppendFacts | msg.c:105-113 | one append adds exactly the buffer to the data and leaves every header field other than the size alone |
| Messages.AppendAllFacts | msg.c:105-113 | any sequence of appends that fits leaves the concatenation of the buffers, in order, and the size grown by their total |
| Messages.AllocationHoldsMessage | msg.c:56-72 | the 32-bit allocation size covers header and data exactly when the sum does not wrap |
| Messages.CheckMsgMeaning | msg.c:134-171 | acceptance holds exactly for a known type with valid fields and a size of at least the type's header, so the data size of an accepted message never underflows |
| Messages.Message.constructor | msg.c:56-72 | a new message of a known type is well-formed and empty, of the wanted type, in an allocation of exactly the computed size |
| Messages.Message.Append | msg.c:105-113 | in place: the new memory is the append of the old one, in the same allocation |
| Messages.AllocAck | msg.c:79-94 | the acknowledgement carries the given endpoint, status and data, and is accepted by the integrity test |
| Transport.UdpSend | com_udp.c:155-180 | whatever the partial sends, the bytes on the wire are a prefix of the message; a short result means the primitive gave up or failed just there; if every call progresses the whole message is sent |
| Transport.UdpRecv | com_udp.c:271-320 | the outcome is that of the receipt specification, and memory holds exactly the bytes accepted, after the size field, never past the allocated size |
| Transport.ReceiveRebuilds | com_udp.c:271-320 | every split of a message whose first chunk holds the size field and whose size fits is received as the same bytes |
| Transport.ReceiveSound | com_udp.c:271-320 | conversely a successful receipt is as long as its own size field says, fits, and is a prefix of what arrived |
| Transport.ReceiveExactly | com_udp.c:271-320 | a receipt fails with -EINVAL on a bad first read, afterwards only with the code of a read that failed while the message was incomplete, and waits exactly while every read succeeds without completing it |
| Transport.Delivery | com_udp.c:155-320 | a message sent in one buffer and received in another, over any split, keeps type, data and integrity |
| InitPacket.TwoPasses | driver.c:1097-1139 | filled bytes are the counted bytes plus the descriptors' excess over the standard lengths, hence equal for standard descriptors |
| InitPacket.FillFitsAllocation | driver.c:1097-1139 | the packet fits the counted allocation exactly when the excess is not positive, and fills it exactly for a standard device |
| InitPacket.AcceptsExactly | gadget.c:571-651 | exactly the packets made of a speed, a device and a configuration descriptor of at least the standard lengths, and a rest are accepted, and parsed into those parts and the settings of the rest |
| InitPacket.ParsedComplete | gadget.c:654-719 | every interface kept has a full descriptor and all the endpoints it announces |
| InitPacket.LexAccounts | gadget.c:545-564 | for any bytes, the descriptors found and the unread rest make up the whole, and the rest starts with no valid header |
| InitPacket.Truncation | gadget.c:571-719 | cutting an accepted packet anywhere after the configuration descriptor is accepted with the same device and a prefix of its interfaces, each complete |
| InitPacket.SkipInsensitive | gadget.c:654-715 | two descriptor sequences that agree on interface and endpoint descriptors parse to the same identity, at any position, whatever else is interspersed |
| InitPacket.RoundTrip | driver.c:1086-1144 | parsing the built packet of a standard device recovers speed, device, configuration and all settings with their endpoints, in order |
| InitPacket.RoundTripWoven | gadget.c:654-715 | the round trip survives other descriptors woven in anywhere after the configuration |
| PacketBounds.InBoundsExactly | gadget.c:654-719 | from any scan that fits, no write of the following descriptors leaves `interfaces[64]` or `endpoints[8]` exactly when the arrays can hold everything stored in the end |
| PacketBounds.BuiltInBoundsExactly | types.h:9-10 | a standard device's packet is parsed within the arrays exactly when it has at most 64 settings of at most 8 endpoints |
| PacketBounds.TruncatedInBounds | gadget.c:654-719 | a cut packet respects the count bounds its whole respects |
| PacketBounds.NineEndpointsLeaveTheArrays | gadget.c:644-651 | a standard device with nine endpoints in a setting builds an accepted packet that leaves the arrays |
| PacketBounds.LongEndpointOverflows | driver.c:1097-1139 | a device with a nine-byte endpoint descriptor fills two bytes more than were counted |
| ShortEndpoints.ScanAsMeantExactly | gadget.c:693-711 | from every scan that kept only full endpoints, scanning equals scanning with the guard on the endpoint exactly when no short endpoint is met while an interface is open |
| ShortEndpoints.ParseAsMeantExactly | gadget.c:654-719 | for every packet, the parsed interfaces are those of the announced skipping exactly when no short endpoint stands inside an interface that is completed |
| ShortEndpoints.ShortEndpointIsCounted | gadget.c:693-711 | a packet for which they differ |
| InitBuilder.CountBytes | driver.c:1097-1113 | the nested counting loops compute the specified packet size |
| InitBuilder.BuildInitPkt | driver.c:1086-1144 | for every device the appends stay inside the allocation exactly when the excess is not positive; then the message holds exactly the serialised device and is accepted, and for a standard device its data fills its allocation |
| InitParser.CheckDescriptorHeader | gadget.c:545-564 | true exactly when a header fits and its length is at least 2 and within the remaining bytes |
| InitParser.ReadEndpoints | gadget.c:674-711 | position and remaining size move together; it reads all announced endpoints into the open slot, or stops where the finished interfaces are the packet's, or leaves memory only for a packet that exceeds the arrays or lacks seven bytes behind it |
| InitParser.ReadInterfaces | gadget.c:654-719 | the slots filled are the identity's settings, in order, and the count is their number |
| InitParser.ParseInitPkt | gadget.c:571-719 | for every management message: it leaves memory exactly when the packet exceeds the arrays (given seven bytes behind the data); otherwise it returns 0 exactly when the specification parses the data, and the identity in memory then holds its fields, settings and count |
| InitParser.ParseBuilt | gadget.c:571-719 | a built packet within the limits is parsed with result 0 into the device's own identity, the count being the total number of settings |
| Descriptors.EndpointFields | common.c:76-84 | of a descriptor of any length, the identity is the number in bits 0..3 and the direction in bit 7 of bEndpointAddress and the type in bits 0..1 of bmAttributes, whatever the other bits |
| Descriptors.SettingFields | gadget.c:391-392 | interface number, alternate and endpoint count are bytes 2, 3 and 4 of the interface descriptor |
| EndpointList.FindEndpoint | common.c:96-106 | the first listed endpoint with the id, or none if there is none |
| EndpointList.RemoveAllIsWithout | driver.c:341-361 | freeing endpoints one by one from a duplicate-free list leaves exactly the others in their order |
| EndpointList.PrependNoDup | driver.c:365-395 | adding a run of endpoints keeps the list duplicate-free exactly when none was listed |
| RegistryInvariant.SetInterfaceKeepsInvariant | gadget.c:379-417 | whatever endpoint additions fail, the gadget registry invariant (no duplicate id, at most one active alternate per interface, every listed endpoint of an active setting) survives a selection that passes the caller's test |
| RegistryInvariant.SetInterfaceInvariantExactly | gadget.c:379-417 | when nothing fails the invariant survives exactly for those selections |
| Registry.EnableStops | gadget.c:343-377 | on either side enabling stops at the first endpoint that does not join, lists exactly those before it (on the driver also one whose first transfer failed), and succeeds when there is none |
| RegistryInvariant.SetInterfaceExactly | gadget.c:379-417 | whatever fails and whether or not the alternate exists: which settings are active, what is listed, and when it succeeds |
| RegistryInvariant.EnableDefaultStops | gadget.c:298-317 | the default settings before the first that fails are active and listed whole, that one is active and listed in part, those after it are as they were |
| RegistryInvariant.InactiveIsSelectable | gadget.c:379-417 | every selection of an alternate that is not active passes the test |
| RegistryInvariant.ReselectingDuplicates | gadget.c:379-417 | selecting the active setting again lists its endpoint twice |
| RegistryInvariant.DisableActiveClears | gadget.c:274-293 | disabling leaves exactly endpoint zero listed and every setting inactive |
| RegistryInvariant.ConfigReplyFacts | gadget.c:967-983 | the invariant survives the reply; on success the list is exactly the endpoints of all alternates 0 and endpoint zero, and exactly those are active; it succeeds if nothing fails |
| RegistryInvariant.RunKeepsInvariant | gadget.c:274-417 | the invariant holds after every run of selections and configuration replies, partly failed ones included |
| RegistryInvariant.BoundIsInvariant | gadget.c:1108-1132 | a freshly bound identity starts inside the invariant |
| GadgetRegistry.GadgetState.EnableInterface | gadget.c:343-377 | in place: the loop adds the setting's endpoints, stopping at the first failure, as the specification does |
| GadgetRegistry.GadgetState.DisableInterface | gadget.c:320-340 | in place: the setting's endpoints leave the list and the flag is cleared |
| GadgetRegistry.GadgetState.SetAlternate | gadget.c:379-417 | in place: exactly the specified selection, keeping the invariant when the selection passes the test |
| GadgetRegistry.GadgetState.ConfigurationReply | gadget.c:967-983 | in place: disable-active then enable-default, keeping the invariant |
| Mirror.DriverListAfter | driver.c:442-472 | a successful selection leaves the new alternate's endpoints before the old list without the old alternate's, the others in their order |
| Mirror.SetDriverInterfaceRefines | driver.c:442-472 | the driver's list keeps refining the map, updated at that interface only, also when the new alternate is the old one |
| Mirror.RefusedChangesNothing | driver.c:442-472 | a selection of a missing alternate, or one the device refuses, fails and leaves list and current alternates as they were; any other moves the current alternate and lists a run of its endpoints before what the old one leaves |
| Mirror.EnableCurrentStops | driver.c:424-440 | SET_CONFIGURATION lists the current alternates before the first that fails whole and that one in part |
| Mirror.ConfigureDriverRefines | driver.c:765-780 | after SET_CONFIGURATION the driver's list refines the map of current alternates |
| Mirror.SetInterfaceRefines | gadget.c:379-417 | a successful selection updates the gadget's map at one interface, and its list accordingly |
| Mirror.ConfigReplyRefines | gadget.c:967-983 | a successful configuration reply makes the gadget refine the all-zero map |
| Mirror.Mirrored | driver.c:340-395 | two registries refining one map list the same endpoint ids, each once |
| Mirror.RunBothRefines | gadget.c:379-417 | after any sequence of SET_INTERFACE requests that succeed on both ends, one map describes both |
| Mirror.EndsMirror | driver.c:442-472 | from the configuration phase on, after any such sequence, both ends list the same ids without duplicates |
| DriverRegistry.DriverState.SetAlternate | driver.c:442-472 | in place: the specified selection; refused by the device, or of a missing alternate, it changes nothing; otherwise the refinement of every map the old state refined is kept, updated at that interface |
| DriverRegistry.DriverState.ConfigurationSet | driver.c:765-780 | in place: disable every alternate, then enable each current one |
| EndToEnd.ParsedIsBound | gadget.c:747-775 | the identity the parser left in memory is the registry the gadget binds |
| EndToEnd.LimitedSize | types.h:9-10 | a standard device within the limits takes at most 4191 bytes |
| EndToEnd.Announce | com.c:43-92 | the driver builds the packet, the socket takes it in any pieces, the relay delivers it in any others, the gadget receives and parses it; the integrity test accepts it on sending and on receipt, and the identity in memory is the device's own |
| EndToEnd.BindBoth | gadget.c:747-775 | from the announced device to both ends in memory: they start in the state from which all joint runs start |
| EndToEnd.HeldMirrors | gadget.c:747-775 | with the device's identity in memory, after a configuration and any selections that succeed on both ends, both list the same endpoints |
| EndToEnd.DeviceMirrored | driver.c:1086-1144 | the composition: from the device over the wire and the parser to two ends that list the same endpoints, each once, after any such selections |
| GadgetEndpoint.ReleasedOnce | gadget.c:460-468 | with an empty list each allocated id occurs once among the releases, and no other id |
| Requests.AllocOwned | gadget.c:424-458 | allocation keeps: every request ever allocated is listed or was released, exactly once |
| Requests.FreeOwned | gadget.c:460-468 | so does a release |
| GadgetEndpoint.LifeOwned | gadget.c:479-515 | and so does every life of an endpoint: submissions with any payload and outcome, completions and work items |
| GadgetEndpoint.TeardownComplete | gadget.c:231-266 | for every life since the endpoint was created, whatever completions, work items and resubmissions run between dequeue, disable and flush, the list ends empty and every request ever allocated was released exactly once |
| GadgetEndpoint.DescriptorReadExactly | common.c:86-94 | the flush may read the descriptor released just before it exactly when an OUT completion waits for its work item |
| GadgetEndpoint.DescriptorReadIsReached | common.c:86-94 | one payload received before the teardown is enough |
| GadgetEndpoint.FlushFacts | common.c:86-94 | on a disabled, drained endpoint the flush empties the list in whatever order the work items run |
| GadgetEndpoint.WorkLeaves | gadget.c:896-936 | a work item on IN sends an acknowledgement with the completion's status, on OUT the payload received; it releases its own request, and puts a new one in front only after an OUT payload was sent |
| GadgetEndpoint.GadgetEndpoint.SendUsb | gadget.c:844-864 | in place: queues one request, or allocates and frees it on refusal, or does nothing without memory |
| GadgetEndpoint.GadgetEndpoint.OnComplete | gadget.c:493-515 | in place: a negative status releases at once, any other leaves the request for its work item |
| GadgetEndpoint.GadgetEndpoint.RunWork | gadget.c:479-491 | in place: an OUT payload is sent and the endpoint listens again, an IN completion is acknowledged, the request is released in every case |
| GadgetEndpoint.GadgetEndpoint.FreeEndpoint | gadget.c:231-266 | the three phases in place: no request left and each released exactly once |
| DriverEndpoint.DriverEndpoint.RunWork | driver.c:508-557 | in place: success forwards an IN payload, a stall asks the device again, any other status only releases |
| DriverEndpoint.TeardownCompleteExactly | driver.c:250-266 | whatever the order of the work items, the driver's teardown always empties the list exactly when no stalled IN completion waits for its work item |
| DriverEndpoint.TeardownReleases | driver.c:250-266 | for every life since the endpoint was created that leaves no such stall, every request ever allocated was released exactly once |
| DriverEndpoint.StallIsReached | driver.c:518-530 | a submission and a stall suffice to leave a request behind |
| DriverEndpoint.DriverEndpoint.OnMessage | driver.c:688-712 | in place: an acknowledgement asks the device for more, data is submitted to it |
| DriverEndpoint.DriverEndpoint.FreeEndpoint | driver.c:250-266 | in place: kill every URB, then run the waiting work items |
| Pipeline.StepOnLane | common.c:96-106 | endpoints are independent: any step of the whole system leaves every other endpoint's view alone and is one step of its own endpoint's |
| Pipeline.UnlistedDiscarded | gadget.c:524-535 | a message for an endpoint its receiver does not list is discarded, and nothing else happens |
| Pipeline.RunOnLane | driver.c:575-595 | every run of the system is, for each endpoint, a run of that endpoint alone |
| Traffic.LogsAreTraffic | driver.c:560-571 | the payload histories of both ends are exactly what the steps of the run exchanged with the device and with the host, in order |
| PacketKinds.TravelsAsMeant | gadget.c:896-936 | over every run, for an IN endpoint only payloads read from the device travel up and only acknowledgements with the non-negative status of one of its completions travel down; for an OUT endpoint only payloads received from the host travel down and nothing up |
| InDelivery.StepConserves | driver.c:813-830 | no step creates a credit, and exactly the listed failures lose one |
| InDelivery.CreditConservation | driver.c:384-391 | in every reachable state outstanding URBs, DATA, gadget requests, ACKs and past losses of an IN endpoint add up to one |
| InDelivery.NoCreditNoStep | driver.c:518-556 | after a loss the endpoint stays silent |
| InDelivery.InOrderDelivery | gadget.c:918-933 | over channels that drop and reorder, the payloads the host consumed along the run are a prefix of those the device returned along it, at most one short |
| InDelivery.InOrderExactly | driver.c:688-700 | order holds over all runs exactly when nothing older for the endpoint was in transit at the enable |
| OutDelivery.StepLine | gadget.c:901-917 | each step extends the line of received payloads by what the host sent, keeps it, or loses one payload from it |
| OutDelivery.OneReceiveRequest | gadget.c:365-373 | over all runs and channels, whatever is lost or reordered, an OUT endpoint has at most one receive request outstanding |
| OutDelivery.ListensUnlessStopped | gadget.c:901-917 | in every reachable state an OUT endpoint listens with one request or has stopped once, exactly when a transfer failed or listening again did not succeed; every payload submitted has its URB outstanding or worked off |
| OutDelivery.OutPipeline | driver.c:701-710 | over FIFO delivery: without losses the host's payloads are those submitted to the device followed by those in transit; with losses the device's are a subsequence; both sequences are the run's own traffic |
| Control.StepLedger | gadget.c:1141-1212 | every step keeps every host transfer at exactly one place: on the gadget, under way, taken, on return, ended, or failed |
| Control.StepExact | gadget.c:866-893 | every step keeps every message, buffer and URB byte-exact for its transfer, and the room behind the setup sufficient |
| Control.AtMostOnceAndExact | gadget.c:1141-1212 | in every run, whatever fails, each setup is forwarded, taken and ended at most once; each forwarded message is setup plus data stage, and each buffer queued to the host is the device's bytes with the setup stripped |
| Control.ExactlyOnce | gadget.c:866-893 | a run without failures can stop only when each host setup was forwarded, taken and ended exactly once |
| ControlTransfer.SetupFields | gadget.c:1145-1190 | direction, wValue, wIndex and wLength are read from where the setup packet has them, low byte first, and the three requests are told apart by type, code and descriptor type |
| ControlTransfer.SetupIsFields | gadget.c:1145-1190 | every setup packet is made of such fields |
| StatusStage.SetupQueues | gadget.c:1141-1212 | by the bytes of a setup: whether it is forwarded, and the one empty or wLength-sized OUT request it puts in front of the list; none for IN |
| StatusStage.ClosedExactlyOnce | gadget.c:1197-1203 | in every run each forwarded OUT transfer without data has one closing request, listed or worked off, or refused, and no other transfer has any; a run without failures that has stopped closed each exactly once |
| ControlOutcomes.FailsExactly | gadget.c:1141-1212 | a failure is recorded, or a request left behind, by exactly the steps in which memory, transport, submission, activation, the transfer or the relay failed |
| ControlOutcomes.HostSeesDevice | driver.c:508-557 | in every run what ends as answered or delivered was completed with success by the device, what ends as stalled with a stall, each by its only completion |
| ControlOutcomes.HarmlessRunsSettle | driver.c:745-805 | a run in which nothing fails stops only when each transfer was forwarded, taken and ended exactly once, as the device completed it |
| Control.NeverStuck | driver.c:745-805 | while anything waits or is in transit, some step other than a new setup is possible |
| Control.RunsAreShort | driver.c:745-805 | without new setups every run ends within a computed number of steps |
| Control.BufferHoldsLength | driver.c:877-919 | in every run, an URB asks for `setup[6] + 256 * setup[7]` bytes, and its buffer holds them exactly for IN transfers and full OUT data stages |
| Control.ShortStageIsReached | driver.c:877-919 | a run in which it does not |
| DataMessages.NewMessage | gadget.c:424-458 | the fresh message carries the data for its endpoint, at the front of exactly the room asked for |
| DataMessages.Resize | msg.c:51-54 | in place: the message now carries exactly the first bytes of the memory behind its header |
| DataMessages.DeliverableExactly | com_udp.c:271-320 | of any message cut into any pieces, exactly those that fit com.c's buffer are delivered, whole; the others fail |
| ControlMessages.DeliveredCarries | com_udp.c:271-320 | a control message carries the same body and direction in whatever buffer it is received |
| ControlMessages.ReplyIsAccepted | driver.c:530-545 | each reply passes the integrity test and names endpoint 0, the control type and the half its transfer belongs to |
| GadgetZero.EndpointZero.FillRequest | gadget.c:1018-1054 | the request's memory is the data with room behind it for the OUT data stage, `data[6] + 256 * data[7]` bytes, and nothing else |
| DriverZero.EndpointZero.FillRequest | driver.c:877-919 | the URB's transfer length is `data[6] + 256 * data[7]`, and its memory is the message with that much room behind it for IN |
| ControlSystem.Ends.MessagesExact | gadget.c:866-893 | in every reachable memory state, each image on its way to the driver passes the integrity test and its data is the host's setup followed by the data stage; each image on its way back passes it too and names the half of endpoint zero its transfer belongs to: an answer is the setup followed by the device's bytes, a SET_INTERFACE is acknowledged with what was received, a stall with nothing |
| ControlSystem.Ends.OnRunSetup | gadget.c:1141-1212 | in place: a step of the system; the memory of both ends and the images in transit keep matching a reachable state |
| ControlSystem.Ends.OnGadgetDone | gadget.c:493-515 | in place: the controller's bytes land behind the setup, and memory keeps matching |
| ControlSystem.Ends.OnGadgetWork | gadget.c:866-893 | in place: the resized message is sent or not as the system's step says, and memory keeps matching |
| ControlSystem.Ends.OnToDriver | driver.c:639-681 | in place: the message is read from com.c's buffer, becomes an URB in fresh memory or an acknowledgement, and memory keeps matching |
| ControlSystem.Ends.OnDriverWork | driver.c:508-557 | in place: the grown message is returned, a stall reported, or the request kept by an early return, and memory keeps matching |
| ControlSystem.Ends.OnToGadget | gadget.c:951-1001 | in place: what is queued to the host is exactly the bytes the device returned for that transfer, and memory keeps matching |
| ControlSystem.LongAnswerIsReached | com_udp.c:271-320 | a run in which an answer is sent that no receive buffer can take |
| PayloadMessages.Arrive | gadget.c:896-902 | in place: the message of a waiting request is cut to exactly the bytes the controller wrote into its buffer |
| PayloadMessages.Submit | gadget.c:1057-1097 | the new request holds the received payload, and its buffer from the front is exactly the bytes given to the controller |
| PayloadMessages.Carry | driver.c:964-1006 | one payload from controller to controller, over any pieces: it reaches the other end's buffer byte for byte exactly if it fits com.c's buffer, as every bulk IN payload does |
| RegistryRuns.ChangesExactly | driver.c:645-657 | which transfers change which registry, and with which interface and alternate |
| RegistryRuns.SelectedOnBothExactly | gadget.c:1170-1190 | in every run, whatever fails, is lost or reordered, a SET_INTERFACE the driver carried out was carried out on the gadget exactly when it has no data stage; one in transit that has none names a known interface |
| RegistryRuns.WalkKeepsRegistry | gadget.c:379-417 | the gadget's registry invariant survives every run of both ends in which the selections pass the caller's test, whatever else fails |
| RegistryMirror.ReplayEarly | driver.c:645-657 | delivering a SET_INTERFACE before older ones for other interfaces leads to the same map in the end |
| RegistryMirror.ConfiguredAgain | driver.c:765-780 | SET_CONFIGURATION makes the driver list the current alternates, whether or not they were listed before |
| RegistryMirror.MirroredWhenSettled | driver.c:639-681 | in every orderly run the gadget's registry is the driver's map with the selections in transit carried out; once both are configured and none is in transit, they list the same endpoints, each once |
| RegistryAgreement.SameIdsExactly | gadget.c:274-417 | two selections over one device call for the same endpoints exactly when they do so interface by interface |
| RegistryAgreement.ListsAgreeExactly | driver.c:639-681 | over runs in which requests may be lost, overtaken, refused or carried out on one end only, the lists hold the same endpoints exactly when what was last carried out on each end calls for the same endpoints of every interface |
| RegistryReached.ConfiguredIsReached | driver.c:765-780 | for every configuration an orderly run from bound ends configures both |
| StagedSelection.StagedIsForwarded | gadget.c:1170-1175 | from any state a SET_INTERFACE with a data stage is forwarded, whatever interface it names, and the gadget's registry is as before |
| StagedSelection.DriverAloneExactly | driver.c:645-657 | a selection on the driver alone leaves the lists equal exactly when the new alternate has the endpoints of the old one |
| StagedSelection.StagedMirrorsExactly | gadget.c:1170-1175 | for every configuration, alternate and data stage a run delivers such a request and ends settled, the lists equal exactly under that condition |
| StagedSelection.DataStageDiverges | common.h:22 | a run with one byte of data after which they differ |
| RereadConfiguration.RereadMirrorsExactly | gadget.c:967-983 | a further configuration reply leaves the lists equal exactly when every current alternate has the endpoints of its interface's alternate 0 |
| RereadConfiguration.RereadDiverges | gadget.c:967-983 | an orderly run and one more read of the configuration after which they differ |
| ControlRegistries.Pair.constructor | gadget.c:1108-1132 | both ends bound in memory are the state from which all these runs start |
| ControlRegistries.Pair.Setup | gadget.c:1176-1190 | in place: a joint step; set_interface changes the list and the flags before the setup is forwarded, and its failure stops the forwarding |
| ControlRegistries.Pair.Packet | driver.c:639-681 | in place: a joint step; a SET_INTERFACE is carried out on the driver's list, which for one without a data stage needs no assumption on the interface number |
| ControlRegistries.Pair.Reply | gadget.c:967-983 | in place: a joint step; a configuration descriptor reconfigures the gadget's list before it is queued |
| ControlRegistries.Pair.Completion | driver.c:764-780 | in place: a joint step; exactly a completed SET_CONFIGURATION reconfigures the driver's list |
| ControlRegistries.Pair.ListsMirror | driver.c:340-395 | the two lists in memory agree whenever an orderly run has settled |

## Left out

- Isochronous endpoints: unsupported by the repository's own account.
- The endpoint record's name and callback row.
- Concurrency inside one list traversal: each traversal is atomic, and steps interleave between phases only; the driver's kill loop and flush are two adjacent phases, so a work item that runs in between counts as the first of the flush.
- Disabling or enabling an endpoint in the middle of a delivery run: delivery is stated from an enable to the next disable, teardown and registries separately.
- DriverEndpoint.DriverEndpoint.RunWork: does not model the early returns of the control-IN stall branch (driver.c:536-547), which skip the release: it covers bulk and interrupt endpoints, and the branch is in the endpoint-zero modules.
- The two request lists of the endpoint-zero pair are kept as one list whose entries name their direction.
- Control transfers: the host's data stage and the device's answer belong to the transfer from its setup on, and completions deliver them; data messages shorter than a setup packet, which only a relay that alters messages could inject, are not part of the model.
- ControlRegistries.Pair.Packet: for a SET_INTERFACE with a data stage it requires an interface number the kernel knows, because `set_driver_interface` uses the lookup's result untested.
- RegistryMirror.MirroredWhenSettled: is about orderly runs: a SET_INTERFACE has no data stage, follows the configuration of both ends, passes the caller's test, succeeds on each end it reaches, is not lost and overtakes none for its own interface; a configuration succeeds, on the gadget while every alternate is 0. RegistryAgreement.ListsAgreeExactly drops what this asks of the channels and of data stages.
- RegistryAgreement.ListsAgreeExactly: requires that an end completes what it begins on its registry; what an operation that fails half way leaves is stated for one operation at a time (`RegistryInvariant.SetInterfaceExactly`, `RegistryInvariant.EnableDefaultStops`, `Mirror.RefusedChangesNothing`, `Mirror.EnableCurrentStops`), and over runs only that the gadget's invariant survives (`RegistryRuns.WalkKeepsRegistry`).
- Endpoint matching and packet-size clamping in `usb_ep_config`: an endpoint is found or not.
- Kernel and socket calls, work-queue internals, clocks: outcomes or steps.
- The `zero` flag of gadget requests (gadget.c:1048, 1092), which only the controller reads.
- InitParser.ParseInitPkt: stops at the first copy outside its memory, which C leaves undefined; the two bytes beyond a seven-byte endpoint descriptor are stored but nothing is said about them.
- InitBuilder.BuildInitPkt: stops at the first append outside its allocation, for the same reason.
- The guard at gadget.c:698 never fires and the zero-size branch of `udp_recv` is never reached, so neither has a branch in the model.
- PayloadMessages.Carry: one payload at a time; how requests follow each other on an endpoint is the subject of `InDelivery` and `OutDelivery`, over payloads as values.
- RESET and device removal, registration with the gadget core, socket setup, module wiring, debug output.
