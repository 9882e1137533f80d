# zwan: a verified model

zwan is a self-hosted overlay network. This project models the parts of it whose correctness is not visible in
any one function, and proves what they promise together.

**The packet translator.** Each joined network has a table between overlay addresses and a local range of this
device. `Packet` says what translating one IPv4 packet makes of its bytes; `Integrity` proves what every accepted
packet keeps (residues of header, transport and quoted checksums; all other bytes), `RoundTrip` and `Fragments`
what survives the way back and fragmentation; `Wire` says acceptance, repair and quotes over the bytes on the
wire. `Table` is the stateful mapping with its wrapping scan; `Device`
is the in-place code over buffers and batches, proved against `Packet` and `Table`; `Learning` and `DeviceLaws`
carry the packet theorems over whole runs in which the table keeps growing. The key fact that joins them is that
an answer of the table, be it a mapping or a refusal, is final.

**The address plan.** `Ipam` splits and hands out a network's range, `Manager` gives each network on a device
its own slice of one pool, and `AddressPlan` and `DevicePlan` count and compose: the local range is never
exhausted by what a server can hand out, any other requests exhaust it exactly when it is no larger than the
overlay, and a local address names one network and one overlay address.

**The control plane and the node.** `Store` and `Api` are registration, publication and the views each caller
gets; `Acl` and `Rules` the group policy; `Node` what a node builds from the lists (restated lists, access check,
tunnel peers); `Views` follows a registration or publication to what every other member is listed and tunnels
to; `Enforcement` proves that the server's view and the node's own check agree, and that the tunnel
table claims each address once and carries every visible service.

**Small protocols.** `UdpFlows` is the UDP proxy as interleaved lock-delimited steps, `Nrpt` the name-resolution
reconciler with its signature cache, `Relay` the learn-and-forward relay with the client's framing.

Conventions. Code that works in place is a class or a method over arrays, proved against functions on values; the
theorems are about those functions. An address is a host-order integer. `x & (size-1)` for a power of two is
what `x` exceeds the largest multiple of `size` by (`Net.Floor`), with the wrapped size 0 of a /0 range standing
for 2^32. Map iteration is an arbitrary choice
of the next key. Strings are ASCII. Reads of sockets, HTTP requests, minted tokens, backend sockets and the
operating system's answers are parameters of the steps.

What the proofs found to hold only conditionally is stated as an if-and-only-if: the incremental checksum differs
from the recomputed one on an all-zero block; a stored checksum of 0xffff (header, TCP, ICMP or quoted) does not
survive a round trip, nor does a quote foreign to the table in one direction only; a local range of /0 cannot map
0.0.0.0 and 255.255.255.255; a first fragment that ends before the checksum field leaves it unrepaired; a local
range of the overlay's size can be filled by packets to addresses nobody was given; a remembered policy is not
compared with a table edited meanwhile; a host admits to an open service also members the server does not connect it with
(the comment at client/l4/access.go:42-44 says a source without a member record is refused; the code is followed);
a rule whose source group contains an arrow is not read back; a payload above 1491 bytes is cut by the relay.

## Model

| member | source | states |
|---|---|---|
| `Checksum.CsumUpdate` | client/vip/rewrite.go:129-139 | the loop over words with a wrapping uint32 accumulator and the carry-folding loop compute the RFC 1624 update for every edit of at most 65536 bytes |
| `Checksum.AccumulatorFits` | client/vip/rewrite.go:130-134 | the accumulator never overflows for edits of at most 65536 bytes |
| `Checksum.AccumulatorCanWrap` | client/vip/rewrite.go:130-134 | the bound is exact: any longer even edit from all zeros to all ones overflows it |
| `Checksum.TwoFoldsSuffice` | client/vip/rewrite.go:135-137 | the folding loop ends within two iterations on every 32-bit sum |
| `Checksum.IncrementalIsFromScratch` | client/vip/rewrite.go:126-139 | the update equals the checksum recomputed over the edited block if and only if that block is not all zeros or nothing was edited |
| `Checksum.UpdateCongruent` | client/vip/rewrite.go:129-139 | checksum plus edited words keep one residue mod 65535 |
| `Checksum.UpdateIsAllOnes` | client/vip/rewrite.go:129-139 | the update yields 0xffff only from 0xffff, replacing all ones by all zeros |
| `Integrity.AddressesTranslated` | client/vip/rewrite.go:30-51 | a packet is accepted exactly when its header is complete and both addresses have a mapping, and then carries the mapped pair |
| `Integrity.HeaderIntegrity` | client/vip/rewrite.go:43-52 | the IPv4 header keeps its residue: valid stays valid, corrupt stays corrupt |
| `Integrity.TransportIntegrity` | client/vip/rewrite.go:54-74 | a TCP or UDP segment carrying a checksum keeps its residue and verdict under the pseudo-header; an unused UDP checksum stays zero and a used one never becomes zero |
| `Integrity.IcmpIntegrity` | client/vip/rewrite.go:81-124 | an ICMP message keeps its residue and verdict, also when a rewritten quote has its header cut short; a whole quoted header keeps its own |
| `Integrity.QuoteTranslated` | client/vip/rewrite.go:95-113 | a quoted pair is translated when both its addresses map, and otherwise nothing of the message changes |
| `Integrity.NothingElseChanges` | client/vip/rewrite.go:51-123 | only the address pair, the checksums over it and the same of a quoted header ever change; a later fragment's payload never does |
| `PacketLaws.LaterFragmentIff` | client/vip/rewrite.go:54-57 | the code takes a packet for a later fragment exactly when its 13-bit fragment offset is not zero, whatever the three flag bits |
| `Wire.AcceptedIff` | client/vip/rewrite.go:30-43 | which bytes are translated: version 4, a whole header, both big-endian addresses mapped |
| `Wire.TcpRepaired` | client/vip/rewrite.go:54-61 | at fragment offset zero a TCP segment of at least 18 bytes keeps its verdict under the pseudo-header, a shorter one is left |
| `Wire.UdpRepaired` | client/vip/rewrite.go:62-72 | so does a UDP datagram of at least 8 bytes with a checksum in use, which stays in use; any other is left |
| `Wire.OtherOffsetsUntouched` | client/vip/rewrite.go:54-57 | at any other fragment offset the payload is left alone |
| `Wire.ErrorsTranslated` | client/vip/rewrite.go:73-123 | only ICMP types 3, 11 and 12 quoting an IPv4 header of two mapped addresses are changed, and then exactly those addresses are the mapped ones |
| `RoundTrip.UpdateBack` | client/vip/rewrite.go:129-139 | updating there and back is exact except that 0xffff comes back as 0 |
| `RoundTrip.UdpBack` | client/vip/rewrite.go:66-72 | with UDP's spelling of zero the round trip is exact for every checksum in use |
| `RoundTrip.QuoteBack` | client/vip/rewrite.go:86-124 | a message with a quote is restored if and only if the quote translates with no checksum at 0xffff, or is foreign in both directions |
| `RoundTrip.ThereAndBack` | client/vip/rewrite.go:30-79 | translating an accepted packet back always succeeds, and restores it byte for byte if and only if the outer pair did not change, or the header checksum, the TCP checksum and the quote are restorable |
| `Fragments.FragmentwiseIsWhole` | client/vip/rewrite.go:54-74 | fragments rewritten one by one reassemble to the transport bytes of the datagram rewritten whole if and only if the first carries the checksum field, or there is none, or the edit would not move it: an unused UDP checksum, or old and new pair of one residue (and a TCP field of 0xffff then only for all ones replaced by zeros) |
| `Fragments.EditIsIdleIff` | client/vip/rewrite.go:56-72 | the transport edit leaves the segment as it is exactly under that condition on the field and the two pairs |
| `Fragments.SixteenByteFirstFragment` | client/vip/rewrite.go:54-59 | the failing input: a TCP first fragment of 16 bytes, renumbered from 10.0.0.x to 10.64.0.x, reassembles to something else than the datagram rewritten whole |
| `Table.Mapping.New` | client/vip/table.go:42-64 | a fresh, valid table, refused exactly for local prefixes longer than /30 |
| `Table.Mapping.Local` | client/vip/table.go:79-105 | one lookup does to the fields what the specification step does to the state, keeps the invariant and forgets nothing |
| `Table.Mapping.AllocLocked` | client/vip/table.go:127-142 | the in-place wrapping scan, with uint32 wrap-around of the cursor, is the specified allocation |
| `Table.Mapping.Real` | client/vip/table.go:108-113 | a local address reverses exactly when some overlay address maps to it, and to that address |
| `Table.LocalKeeps` | client/vip/table.go:79-105 | one request keeps the two directions mutually inverse, the used set exact and every earlier mapping, and adds at most the requested address |
| `Table.LocalsInRange` | client/vip/table.go:145 | local addresses lie in the local prefix and avoid its network and broadcast addresses |
| `Table.ScanComplete` | client/vip/table.go:131-141 | from any cursor position the scan fails if and only if every usable index is taken |
| `Table.RefusedIff` | client/vip/table.go:79-105 | an address is refused if and only if it is outside the overlay, or new with every index taken (for a wrapped /0 range: new with unusable bits) |
| `Table.RefusalIsFinal` | client/vip/table.go:79-105 | a refused address stays refused in every later table |
| `Table.RunKeeps` | client/vip/table.go:79-105 | the invariant and every mapping survive any run of requests |
| `Table.AnswersAreFinal` | client/vip/table.go:79-105 | each answer of a run is what the table at the end of the run says |
| `Table.RunIsCanonical` | client/vip/table.go:127-130 | when the local range is as large as the overlay and low bits are usable, every address maps to base plus low bits and the fallback scan never runs |
| `Table.RemaindersKept` | client/vip/table.go:60-105 | in numbers: from a fresh range as large as the overlay, every address is mapped to the base plus its remainder by the range size |
| `Table.ChoiceMeans` | client/vip/table.go:127-145 | one new address: base plus remainder when that index is usable and free, with the cursor unmoved; otherwise base plus the first free index from the cursor on |
| `Table.ScanIsFirst` | client/vip/table.go:131-142 | the wrapping scan finds the first free index from the cursor on and leaves the cursor just past it |
| `Table.OrderIndependent` | client/vip/table.go:79-105 | so the mapping does not depend on the order of the requests |
| `Device.Device.Wrap` | client/vip/device.go:27-34 | fails exactly when the table has no local address for this node |
| `Device.Device.Translate` | client/vip/device.go:78-92 | the self shortcut agrees with the table; translating inwards may allocate, outwards never does |
| `Device.Device.Rewrite` | client/vip/rewrite.go:30-79 | the in-place edit of a window of a buffer produces the specified packet under the table as it ends up, learns exactly the addresses it looked up, and leaves a refused packet and the rest of the buffer untouched |
| `Device.Device.RewriteQuoted` | client/vip/rewrite.go:86-124 | the same for a quoted header: bytes, lookups and surroundings |
| `Device.Device.EditQuote` | client/vip/rewrite.go:104-123 | the order of the nested checksum edits yields the specified error message |
| `Device.Device.Read` | client/vip/device.go:45-56 | each buffer of a batch is translated with its size kept, or left untouched with size zero; the table does not change |
| `Device.Device.Write` | client/vip/device.go:61-75 | each buffer's outcome can be read off the final table, exactly the accepted buffers are kept in order, and the table learns from every offered packet, dropped ones too |
| `Learning.OutcomeIsFinal` | client/vip/table.go:79-105 | a packet's outcome is the same under the table that answered it and under every later one |
| `Learning.BatchSettles` | client/vip/device.go:61-75 | after a batch every packet's addresses have their final answer |
| `Wire.LearnsOnly` | client/vip/device.go:61-92 | a packet makes the table learn its two addresses and, if its pair changes and it is the first fragment of an ICMP error, the two it quotes, and nothing else |
| `DeviceLaws.WriteThenRead` | client/vip/device.go:45-75 | Write, any traffic, then Read: always accepted, and byte for byte the same if and only if the packet is restorable |
| `DeviceLaws.ReadThenWrite` | client/vip/device.go:45-75 | Read, any traffic, then Write of the packet coming back: likewise |
| `DeviceLaws.OutcomeAtIsFinal` | client/vip/device.go:61-75 | the outcome of the k-th packet of a run is what the table at the end of the run would give |
| `DeviceLaws.FragmentsInAnyOrder` | client/vip/device.go:61-75 | fragments arriving in any order among other traffic, each under the table of its moment, reassemble to the datagram as the final table translates it, if and only if the first fragment suffices |
| `Ipam.RequestKeeps` | server/ipam/ipam.go:83-101 | a key keeps its address for good, two keys never share one, the network address is never handed out, and a request fails exactly when every other address is taken |
| `Ipam.RequestCounts` | server/ipam/ipam.go:83-101 | it fails exactly after size-1 keys |
| `Ipam.HalvesPartition` | server/ipam/ipam.go:57-65 | the two halves are aligned prefixes that partition the range |
| `Ipam.Allocator.Allocate` | server/ipam/ipam.go:83-101 | the loop over the cursor is the specified request |
| `Ipam.Split` | server/ipam/ipam.go:45-68 | refuses exactly prefixes longer than /28 and otherwise yields fresh allocators over the two halves |
| `AddressPlan.HandedOutBound` | server/ipam/ipam.go:45-101 | all addresses handed out lie in the network's range, node and service addresses never meet, and there are at most size-2 of them |
| `AddressPlan.NeverExhausts` | client/vip/table.go:127-145 | a local range as large as the overlay serves every address the server can have handed out, in any order, if and only if the range is not a wrapped /0 asked for 255.255.255.255 |
| `AddressPlan.MappedIff` | client/vip/table.go:79-142 | whatever a fresh table is asked, by its node or by the packets of peers, it ends up mapping exactly the overlay addresses asked for before size-2 different ones had been |
| `AddressPlan.ServedIff` | client/vip/table.go:79-142 | the exact condition for the next request to be answered, for every range of /1 to /30 and every earlier requests |
| `AddressPlan.AlwaysServedIff` | client/vip/table.go:79-142 | every overlay address is answered after any requests if and only if the local range is larger than the overlay |
| `AddressPlan.EqualRangeExample` | client/vip/table.go:127-142 | the failing input at equal size: overlay 0.0.0.16/28, local 0.0.0.0/28, requests for 16 to 29, then service address 30 is refused |
| `Manager.SliceFits` | client/manager/manager.go:353-358 | the 32-bit slice arithmetic never wraps, and every slice is an aligned block inside the pool |
| `Manager.SlicesDisjoint` | client/manager/manager.go:353-362 | different slices have no address in common |
| `Manager.FirstFreeIsFirst` | client/manager/manager.go:356-361 | the slice found is free, inside the pool, and every earlier one is taken |
| `Manager.FreePrefixFailsIff` | client/manager/manager.go:336-363 | allocation fails if and only if the slice size does not fit or every slice is taken |
| `Manager.Networks.FreePrefixLocked` | client/manager/manager.go:336-372 | the loop in wrapping arithmetic finds the specified slice |
| `Manager.Networks.Connect` | client/manager/manager.go:158-210 | as one step: an alias already up is taken down first, and the network is remembered whether or not it comes up |
| `Manager.Networks.Disconnect` | client/manager/manager.go:214-233 | the slice is released and the saved entry unmarked, nothing else changes |
| `Manager.Networks.Forget` | client/manager/manager.go:236-251 | the alias leaves the live networks and the saved list, nothing else changes |
| `Manager.ConnectKeeps` | client/manager/manager.go:158-210 | live networks keep distinct slices, each is remembered as connected, and a network that fails to start is not lost |
| `Manager.DisconnectKeeps` | client/manager/manager.go:214-233 | the same invariant survives disconnecting |
| `Manager.ForgetKeeps` | client/manager/manager.go:236-251 | and forgetting, after which the alias is gone |
| `Manager.ConnectMeans` | client/manager/manager.go:158-210 | connecting succeeds exactly when the network starts and some slice is held by no other network, and then takes the lowest such; failures leave it down, and which failure is which |
| `Manager.ConnectRemembers` | client/manager/manager.go:314-334 | whatever comes of it, it is remembered as one to connect, in its place or at the end |
| `Manager.DisconnectMeans` | client/manager/manager.go:214-233 | the one network is down and marked not to connect, all else stands |
| `Manager.ForgetMeans` | client/manager/manager.go:236-252 | the one network is down and dropped, all else stands |
| `DevicePlan.LiveSlicesDisjoint` | client/manager/manager.go:158-251 | over every serialised run, live networks hold pairwise disjoint slices inside the pool |
| `DevicePlan.LocalAddressesUnambiguous` | client/manager/manager.go:158-251 | over every run, a local address on the device names one network and one overlay address in it |
| `Acl.RuleAdded` | shared/acl/acl.go:45-60 | adding a rule allows exactly what it says, and the first rule turns everything else off |
| `Acl.AllowsGroupIff` | shared/acl/acl.go:73-78 | a service list admits everyone when empty, and otherwise exactly the groups it covers: by "*", or under a spelling that differs in case and surrounding blanks |
| `Acl.AllowsIff` | shared/acl/acl.go:49-61 | an empty policy allows everything, any other exactly what some rule leads to |
| `Acl.ConnectedIff` | shared/acl/acl.go:63-69 | two groups are connected without a policy or along a rule in either direction |
| `Acl.GroupOf` | shared/acl/acl.go:143-156 | a known join token admits to a group in normal form |
| `Acl.GroupOfMeans` | shared/acl/acl.go:144-154 | a token admits exactly when the table has it, to the group its entry names, in lower case and without blanks around it, "default" for an empty entry |
| `Acl.ClaimedIff` | shared/acl/acl.go:159-167 | what it means that an entry claims a token for a group, without trimming or lowering |
| `Acl.BuiltIsExact` | shared/acl/acl.go:198-230 | the token table is rejected exactly when a token is claimed by two groups, and otherwise says exactly what was claimed, whatever the order |
| `Acl.BuildJoinTokens` | shared/acl/acl.go:198-230 | the loop over the entries builds that table |
| `Rules.ParseRenderIff` | shared/acl/acl.go:98-123 | reading a rendered rule gives it back if and only if no side is empty, every group is a non-empty comma-free normal form, and no source group contains an arrow |
| `Store.UpsertKeepsIndexIff` | server/store/store.go:67-77 | an upsert keeps token index and member map exact inverses if and only if the token is not another device's |
| `Store.OldTokenDies` | server/store/store.go:70-72 | the device's previous token finds nobody afterwards |
| `Store.Network.Upsert` | server/store/store.go:67-77 | the two maps are updated in step |
| `Store.Network.MemberByToken` | server/store/store.go:80-88 | a token finds the one member that holds it, and only then |
| `Store.Network.MemberByIP` | server/store/store.go:92-104 | the scan in arbitrary order finds a holder exactly when there is one |
| `Api.RegisterKeeps` | server/api/api.go:95-142 | registration with a fresh token keeps the control-plane invariant and continues every earlier identity |
| `Api.PublishKeeps` | server/api/api.go:206-249 | so does publication |
| `Api.RunKeeps` | server/api/api.go:95-249 | and every run of both: members keep their addresses, services theirs, dead tokens stay dead |
| `Api.IdentitiesUnique` | server/api/api.go:95-249 | in every state that satisfies the invariant device addresses are injective, service addresses are, the two never meet, and a token is live exactly when one member holds it |
| `Api.ReachableIdentities` | server/api/api.go:95-249 | so in every state any run of registrations and publications with fresh tokens reaches from an empty server |
| `Api.RegisteredIsKnown` | server/api/api.go:105-133 | a successful registration makes the minted token authenticate as the device, with its earlier address and the join token's group, and changes nobody else |
| `Views.RegisterOutcome` | server/api/api.go:105-122 | which registrations succeed, which error the others get, and that a failing one changes no member, token or service |
| `Views.RegisteredAsAsked` | server/api/api.go:124-133 | the stored member has the uuid, hostname, public key and endpoint of the request, each in its place |
| `Views.RegisteredIsListed` | server/api/api.go:144-166 | through any further run without the device, every list that shows it shows the hostname, key and endpoint it registered with; and it is shown exactly to itself and to the groups the policy links with its own |
| `Views.RegisteredIsTunnelled` | client/engine/engine.go:373-390 | a node that is listed the device and can parse its key tunnels to that key, at the registered endpoint without the relay and at its address with it |
| `Api.PublishedOnOwnNode` | server/api/api.go:220-248 | a publication is on the caller's own node at the name's earlier address, and changes nothing else |
| `Views.PublishOutcome` | server/api/api.go:220-239 | which publications succeed, which error the others get, and that a failing one changes nothing listed |
| `Views.PublishedAsAsked` | server/api/api.go:228-248 | the service listed has the ports of the request, tcp unless it says otherwise, the caller's node, and exactly the non-blank groups asked for, trimmed |
| `Api.OldTokenStaysDead` | server/api/api.go:119-133 | a device that registers again kills its previous token for the rest of any run |
| `Api.HostsAreListed` | server/api/api.go:144-204 | the host of every listed service is in the caller's peer list |
| `Api.Server.Register` | server/api/api.go:95-142 | the handler performs the specified transition, error paths included |
| `Api.Server.Publish` | server/api/api.go:206-249 | likewise for publishing |
| `Api.Server.Peers` | server/api/api.go:144-166 | an authenticated caller is listed exactly the members it may see, each once |
| `Api.Server.VisibleService` | server/api/api.go:170-182 | the decision by way of MemberByIP is the specified visibility |
| `Api.Server.Services` | server/api/api.go:187-204 | an authenticated caller is listed exactly the services visible to it, each once |
| `Node.AccessPolicy.Set` | client/l4/access.go:26-38 | the policy is rebuilt from the two lists, later entries winning |
| `Views.LastPeerWins` | client/l4/access.go:26-38 | an address has the group of its last entry in the list |
| `Views.LastServiceWins` | client/l4/access.go:26-38 | a service has the list of its last entry |
| `Node.AccessPolicy.Check` | client/l4/access.go:45-60 | the check is the specified permission |
| `Node.Translator.Local` | client/engine/translate.go:54-67 | the identity when translating is off, one table request otherwise |
| `Node.Translator.Peers` | client/engine/translate.go:71-85 | the list is restated as the table at the end has it, asking for each address once, in order |
| `Node.Translator.Services` | client/engine/translate.go:89-113 | likewise for services, the service's own address being asked for only after its node's |
| `Views.RestatedServiceMeans` | client/engine/translate.go:89-113 | node and service address are looked up each in its own place, and nothing else of the service changes |
| `Node.Translator.Handshakes` | client/engine/translate.go:116-127 | re-keying keeps every mapped entry and invents none |
| `Node.BuildPeers` | client/engine/engine.go:366-390 | the two loops build exactly one entry per foreign peer with a usable key, carrying its address and those of the services it hosts |
| `Views.PeerIsTunnelled` | client/engine/engine.go:366-390 | every foreign peer with a usable key gets an entry with that key, its endpoint or relay address, its own address first and then exactly those of the services on it |
| `Views.TunnelsAreForPeers` | client/engine/engine.go:366-390 | and every entry is such a peer's |
| `Node.Republish` | client/engine/engine.go:440-462 | the unlisted services the server accepted are appended in order, each as stored, a name wanted twice being published twice |
| `Views.RepublishedMeans` | client/engine/engine.go:440-462 | the list comes back as it was, followed by exactly one entry for each wanted one that was not listed and was accepted |
| `Enforcement.HostKnows` | client/l4/access.go:26-60 | a host knows a member's translated address exactly when the member is in its list, and then with the member's group |
| `Enforcement.EnforcementAgrees` | client/l4/access.go:45-60 | in one server state a member's translated address passes the host's check if and only if the host has local addresses for the service, and the server shows it the service or the service's list is empty |
| `Enforcement.NotOffered` | client/engine/translate.go:89-113 | a service without a local address for its node or itself is missing from the host's lists, so nobody is admitted to it |
| `Enforcement.OpenServiceAdmitsStrangers` | client/l4/access.go:45-60 | the failing input: a member the policy does not connect with the host is not shown its open service, yet passes the host's check |
| `Enforcement.PeersAreTreatedAlike` | client/l4/access.go:45-60 | among the host's own peers the check passes exactly for the visible services the host has local addresses for, open ones included |
| `Enforcement.ServiceIsFor` | server/api/api.go:170-204 | said over groups: a service of another node is listed exactly to members the policy links with its node and its list, if not empty, covers |
| `Enforcement.CheckIsFor` | client/l4/access.go:45-60 | and exactly those get past the node's check, when it has local addresses for the service, or everyone when the list is empty |
| `Enforcement.PeerIsListedIff` | server/api/api.go:144-166 | a member is listed exactly to itself and to the groups the policy links with its own, with its own fields |
| `Enforcement.ListedAddressesHandedOut` | client/engine/translate.go:71-113 | every address in a peer or service list was handed out by the allocators |
| `Enforcement.EverythingTranslates` | client/engine/translate.go:54-113 | a table over a larger local range maps every overlay address it is asked for, whatever else it was asked; one of equal size does when asked only for addresses the server handed out (`AddressPlan.MappedIff` is the exact condition otherwise) |
| `Enforcement.TranslatingHostAgrees` | client/l4/access.go:45-60 | so the agreement holds for a host that translates under a larger range, whatever its table was asked, and under an equal one asked only for handed-out addresses |
| `Enforcement.RefreshedHostAgrees` | client/engine/engine.go:410-414 | the agreement for the lists a node really holds, from any table state and through any further requests: peers restated under the table of one moment, services under a later one; a packet that has a local address passes if and only if the service was offered, and is visible or open |
| `Enforcement.RoomyHostAgrees` | client/engine/engine.go:410-414 | from a fresh table with a larger range, or an equal one asked only for handed-out addresses, the packet always has a local address and the service is always offered, so the host decides as the server does |
| `Node.Refresh` | client/engine/engine.go:410-414 | restates the peers, then the services with the table as it has grown, and sets the access check to the two |
| `Enforcement.ListsHaveOneMeaning` | server/api/api.go:144-204 | in lists read in any two states that satisfy the invariant, no address means two things |
| `Enforcement.ReachableListsHaveOneMeaning` | server/api/api.go:144-204 | so in lists read in any two reachable states of a server |
| `Enforcement.ClaimedOnce` | client/engine/engine.go:366-390 | every overlay address is claimed by at most one tunnel peer |
| `Enforcement.ServicesAreCarried` | client/engine/engine.go:363-390 | from lists taken in one state the address of every visible foreign service sits in its host's entry, if the host's key parses |
| `Enforcement.RepublishingIsLocal` | client/engine/engine.go:440-462 | services a node publishes itself change nothing in its tunnel table |
| `UdpFlows.RetireSpares` | client/l4/udp.go:128-135 | a finishing pump removes its own flow and no other, in particular no newer one |
| `UdpFlows.ExistingFlowIsUsed` | client/l4/udp.go:91-101 | a datagram of a client with a flow goes to that flow's socket, and nothing is dialled or replaced |
| `UdpFlows.FirstDatagram` | client/l4/udp.go:91-123 | the first one, left alone, dials a socket that becomes the client's flow, is pumped, and carries it |
| `UdpFlows.LateDialIsDiscarded` | client/l4/udp.go:107-118 | a thread that dialled in vain leaves the table alone, gives its socket up and goes on with the winner's |
| `UdpFlows.ClosingTakesAll` | client/l4/udp.go:57-68 | closing empties the table and closes every flow's socket |
| `UdpFlows.EndedPumpCleansUp` | client/l4/udp.go:128-135 | a pump that ends removes its flow and closes its socket, and nothing else |
| `UdpFlows.UDPProxy.LookupLocked` | client/l4/udp.go:91-101 | the first section of flowFor |
| `UdpFlows.UDPProxy.InstallLocked` | client/l4/udp.go:107-119 | the second section: closed, lost to another datagram, or installed |
| `UdpFlows.UDPProxy.RetireLocked` | client/l4/udp.go:128-133 | the deferred section of pump |
| `UdpFlows.UDPProxy.CloseLocked` | client/l4/udp.go:57-62 | the section of Close that takes every flow away |
| `UdpFlows.NextKeeps` | client/l4/udp.go:57-148 | every step of every thread keeps the invariant |
| `UdpFlows.OnePumpPerClient` | client/l4/udp.go:91-148 | over every interleaving an open proxy pumps for a client from its flow only, so never from two sockets at once |
| `UdpFlows.FlowsAreTheirClients` | client/l4/udp.go:88-148 | over all interleavings each flow's socket is open and was dialled for its key, datagrams go only to sockets of their own client and pumps reply only to that client |
| `UdpFlows.ClosedStaysEmpty` | client/l4/udp.go:57-68 | once closed the flow table stays empty for the rest of any run |
| `UdpFlows.OpenIsOwned` | client/l4/udp.go:57-148 | every open socket has a pump, a thread or Close that is going to close it |
| `UdpFlows.QuietMeansClosed` | client/l4/udp.go:57-148 | when threads, pumps and Close are done, every socket is closed |
| `Nrpt.NamespacesOf` | client/nrpt/nrpt.go:165-178 | the collecting loop and the sort |
| `Nrpt.NamespacesMean` | client/nrpt/nrpt.go:165-191 | the result is sorted, without duplicates, holds exactly what the suffixes ask for, and only clean namespaces |
| `Nrpt.WantedIff` | client/nrpt/nrpt.go:155-190 | a namespace is wanted exactly for the plain names some suffix spells, but for case, surrounding blanks and dots |
| `Nrpt.SignatureInjective` | client/nrpt/nrpt.go:68-74 | the comma-joined cache key tells lists of namespaces apart |
| `Nrpt.SameQuestionSameSignature` | client/nrpt/nrpt.go:165-178 | the list depends only on the names asked for, not on order, spelling or repetition |
| `Nrpt.CleanIsSame` | client/nrpt/nrpt.go:144-150 | a namespace we wrote is recognised when read back |
| `Nrpt.PlanFor` | client/nrpt/nrpt.go:114-136 | the two loops compute the specified plan |
| `Nrpt.ServedByIff` | client/nrpt/nrpt.go:154-156 | a rule counts as ours exactly when it names one server, ours but for case and blanks |
| `Nrpt.SameNamespaceIff` | client/nrpt/nrpt.go:144-150 | an installed rule is for a namespace exactly when it names it but for case, blanks and one final dot |
| `Nrpt.RemovedIff` | client/nrpt/nrpt.go:114-134 | exactly those rules go that are for no wanted namespace, not served by us alone, or after an earlier good one |
| `Nrpt.PlanInstalls` | client/nrpt/nrpt.go:114-136 | from any table, carrying the plan out leaves exactly one rule per wanted namespace pointing only at our server, nothing else of ours, and every foreign rule as it was |
| `Nrpt.NothingToDoIff` | client/nrpt/nrpt.go:114-136 | the plan is empty if and only if the table is already right, so planning again yields nothing to do |
| `Nrpt.ApplySound` | client/nrpt/nrpt.go:68-88 | an Apply that succeeds, cached or not, leaves the table matching if and only if the memory did not answer or the table matches all the same, so always when nobody edited it since it was last listed or the memory reset; a failing one changes nothing |
| `Nrpt.ApplyOkIff` | client/nrpt/nrpt.go:68-88 | when Apply reports success, and that the next one for the same suffixes is answered from memory |
| `Nrpt.RunSound` | client/nrpt/nrpt.go:68-102 | over any run of calls and edits the binder's memory is sound |
| `Nrpt.ApplyAfterAnyRun` | client/nrpt/nrpt.go:68-102 | the same after any run of calls and edits |
| `Nrpt.StaleMemory` | client/nrpt/nrpt.go:74-79 | the failing run: install, table emptied by others, the same Apply again answers from memory and puts nothing back |
| `Nrpt.Binder.Apply` | client/nrpt/nrpt.go:68-88 | the method does what the specification step does to memory and table |
| `Nrpt.Binder.Resync` | client/nrpt/nrpt.go:94-98 | forgets that the table is known |
| `Nrpt.Binder.Clear` | client/nrpt/nrpt.go:102 | a success leaves no rule of ours, unless the memory answers for a table edited meanwhile |
| `Relay.Relay.Handle` | server/relay/relay.go:86-123 | learns the sender, then forwards if the destination is known, with the frame rebuilt by appends |
| `Relay.SpeakerIff` | server/relay/relay.go:86-104 | exactly registrations of at least 5 and data packets of at least 9 bytes speak, for the big-endian address behind the type |
| `Relay.SentIff` | server/relay/relay.go:94-123 | exactly data packets for a known destination are forwarded, to the port that speaks as it, with type, source and payload |
| `Relay.KnowsLastSpeaker` | server/relay/relay.go:86-114 | after any history the relay knows an address exactly if someone spoke as it, by the port that did so last |
| `Relay.Send` | client/wgbind/bind.go:141-157 | one data frame per buffer |
| `Relay.RegisteringSpeaks` | server/relay/relay.go:86-92 | a registration makes its sender the last speaker for its overlay address |
| `Relay.Receive` | client/wgbind/bind.go:107-130 | the overlapping in-place shift yields exactly the payload and the sender's address; anything but a data frame is skipped untouched |
| `Relay.EndToEnd` | server/relay/relay.go:59-123 | a receiver that has spoken is delivered the sender's address and the payload, whole if and only if it is at most 1491 bytes |
| `Relay.UnknownIsDropped` | server/relay/relay.go:111-114 | nothing is sent to an address nobody has spoken as |

## Left out

- Sockets, HTTP, JSON, deadlines, timers and the operating system's packet devices: step inputs of the model.
- WireGuard, Wintun, PowerShell, TLS, ACME, keys and certificates: foreign code; keys are opaque strings, the policy table a map from id to rule.
- IPv6 and 4-in-6 addresses: `Unmap` and the `Is4` checks are not modelled, every address is IPv4.
- Parsing of prefixes and address strings: a prefix is an address with a length of at most 32; AssignedIP, NodeIP and VIP are addresses rather than their dotted text, and a requested NodeIP that is no address counts as someone else's.
- Locking: one call is one step, except in `UdpFlows`. Concurrent `Connect` calls, which choose a slice and record it in two steps, are outside the model.
- Buffers of one Read or Write batch are required to be distinct arrays, as the device contract of wireguard-go provides them.
- A policy mutation that fails halfway: `AfterApply` lets a failing mutation change nothing.
- Order of the listings: `Api.Server.Peers` and `Api.Server.Services` list in an arbitrary order, the source sorts by text; the theorems hold for every order.
- `peerSig`, routes, host proxies and DNS zones of the engine, `freePortLocked`, overlap warnings, `Stop` (which empties `nets` when the process ends) and saved profile fields other than alias and auto-connect: bookkeeping without a hard property.
- `Nrpt.NamespacesOf`: the library sort is an insertion sort here; what matters is that a set has one sorted listing, which is proved.
- `Relay.EndToEnd`: a datagram longer than the relay's buffer is cut, as POSIX reads do; platforms that report an error instead are not modelled.
- `Relay.Receive`: one datagram is taken as read; the loop that reads again after a skipped one, and read errors, are not modelled.
- lastSeen, JoinedAt and the UDP idle timeout: a pump may end at any step.
- GUI, installer, update, configuration files and command line: no hard property.
