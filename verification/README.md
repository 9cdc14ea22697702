# Verified model of the network encryptor

The program forwards Ethernet frames between LAN and WAN over AF_XDP and encrypts them at layer 2, 3 or 4. A packet that
would outgrow the MTU is split into two encrypted fragments that the far side joins again. Policies decide what is
encrypted how; they are merged from per-profile configurations and can be reloaded while packets flow.

This project models that program in Dafny and proves what it is built to guarantee. Packets are octet sequences; each
codec is a function on them, and the in-place C routines are methods on arrays proved equal to those functions. Tables,
rings, caches and the merge destination are classes whose methods are proved against maps, queues and lists. The
protocols between threads are state machines whose steps are the atomic operations. AES is a parameter: two keystream
functions and a tag function about which nothing is assumed, so CTR (NIST SP 800-38A section 6.5) and GCM (NIST SP
800-38D section 7) open what they sealed by proof. HMAC is an arbitrary function. Clocks and the random salt are parameters.

| files | contents |
|---|---|
| Bytes, Remainders | octets, words, buffer copies; the little modular arithmetic the rings need |
| Checksum, PacketCrypto | one's-complement checksums, header patching, sealing and opening payloads |
| Layer2, Layer3, Layer3Packet, Layer4 | encryption and decryption of packets and fragments per layer |
| WireFormat, Decoding | every wire format octet by octet; what the decoders make of any packet, and under which key |
| FragTable, SplitL2, SplitL3, SplitL4, SlotOutcomes | splitting, the pending-half table, reassembly of one packet; what a slot does with any fragment |
| Receiver | what the receiver of a decrypted packet makes of it, by its IPv4 total length |
| Reassembly, IdBound, Completeness | reassembly over every run of splits and deliveries: what it emits, why 65536 packet ids are the limit, which second halves complete |
| Policy, ConfigMerge, MergeRun | policy selection, validation, merging configurations |
| CryptoRuntime, NonceRuns | key contexts and the table of policies; nonces over runs of encryptions and reloads |
| Dispatch, NonceSizes, Grace | finding the policy of a received packet, which configurations allow it, the grace period |
| PolicyPins, Quiescence | pinned flows, hot reload |
| HashTable, FlowTable, WanScheduler, WanChoice, Stride, ArpCache | chained table, byte-window rotation, weighted round robin, the choice between them, the shared counter, neighbour cache |
| XskRing, Umem, TxQueue, FrameQueues, Pipeline, ReleaseSteps, ReleaseRuns | AF_XDP rings, frame layout, sending, receive frames from ring to ring |

Results that hold only under a condition are stated with that condition exactly: the layer-2 to layer-4 round trips,
padding that a receiver can tolerate, the protocol guess of layer-3 reassembly, the bound of 65536 packet ids, which
second halves complete, nonce sizes that dispatch can tell apart, packets that the grace period restores, nonces that
never repeat, selection by local interface after a merge, shares under a shared counter, the sizes that validation
protects, the reuse of transmit frames, reloads that swap at once, and overlapping releases.
`Receiver.ShortAckIsLost`, `IdBound.OneIdTooMany`, `NonceSizes.HarmfulHits`, `Grace.SpoiledIsLost`,
`NonceRuns.ReloadRepeats`, `Stride.TurnsStarve`, `Umem.HugeUmemOverlaps`, `Quiescence.SwapsOverHappen` and
`ReleaseSteps.OverlapLosesFrame` exhibit inputs and runs outside those conditions for which the code does not deliver.

Where comments and code of the repository differ, the model follows the code.

## Model

| member | source | states |
|---|---|---|
| PacketCrypto.OpenSealed | src/crypto/packet_crypto.c:194-313 | whatever is sealed under the current key, in CTR or GCM mode, opens to the same plaintext through the CURRENT, PREV, NEXT key order |
| PacketCrypto.StreamTwice | src/crypto/packet_crypto.c:194-214 | the CTR keystream applied twice is the identity |
| PacketCrypto.Nonce | src/crypto/packet_crypto.c:319-343 | a nonce of the configured size whose first octet has its top bit clear, as the decoders test for |
| PacketCrypto.OpenInPlace | src/crypto/crypto_layer4.c:206-232 | the in-place loop with backup and restore leaves exactly what the key-order function says |
| PacketCrypto.SealInPlace | src/crypto/crypto_layer4.c:137-156 | the in-place encryption writes the ciphertext over the plaintext and yields the tag |
| Bytes.XorBit | src/crypto/packet_crypto.c:194-214 | each bit of an exclusive or is one exactly when the two bits differ |
| WireFormat.SealCarriesExactly | src/crypto/packet_crypto.c:194-313 | a sealed body is the payload under the keystream octet by octet - AES-CTR from the nonce padded with zeros, or AES-GCM - with the tag of that behind it in GCM mode, and nothing else is |
| WireFormat.NonceExactly | src/crypto/packet_crypto.c:319-343 | a nonce is 31 bits of counter in network order and then the salt, cut to its size |
| Decoding.FirstKeyOpens | src/crypto/crypto_layer4.c:206-232 | an authenticated body of up to 2048 octets opens under the first of CURRENT, PREV, NEXT whose tag it has, and under none without |
| Decoding.AnyKeyOpens | src/crypto/crypto_layer4.c:206-232 | so what was sealed under any of the three keys opens, unless an earlier one happens to give its tag |
| Decoding.LongBodySpoiled | src/crypto/crypto_layer4.c:206-232 | beyond 2048 octets each key is tried on what the one before made of the body |
| Checksum.CalcIpChecksum | src/crypto/packet_crypto.c:368-379 | the word loop and the carry-fold loop end and give the complement of the folded sum |
| Checksum.WordSumOctet | src/crypto/packet_crypto.c:368-379 | octets at even offsets count 256 fold, those at odd ones once |
| Checksum.VerifiesExactly | src/crypto/packet_crypto.c:368-379 | a sum verifies exactly when it is a positive multiple of 0xFFFF |
| Checksum.FoldModulo | src/crypto/packet_crypto.c:368-379 | folding carries keeps the sum modulo 0xFFFF and never turns a positive sum into zero |
| Checksum.PatchIpv4InPlace | src/core/fragment.c:43-51 | patching in place equals the patch function on the buffer, touching only the header |
| Checksum.PatchedHeaderVerifies | src/crypto/crypto_layer4.c:91-101 | after any patch the header holds the new length and sums to 0xFFFF |
| Checksum.PatchStampsExactly | src/core/fragment.c:43-51 | a patched header is the only one that differs at most in length and checksum, holds the new length and adds up to a multiple of 0xFFFF without writing zero as 0xFFFF |
| Checksum.PatchFixedPoint | src/crypto/crypto_layer4.c:91-101 | patching changes nothing exactly when length and checksum already were right |
| Checksum.PatchTwice | src/crypto/crypto_layer3.c:28-36 | of two patches only the last one counts |
| Checksum.PatchOthers | src/core/fragment.c:43-51 | no octet but length and checksum changes |
| Layer4.Ipv4Offset | src/crypto/crypto_layer4.c:70-89 | IPv4 is found behind at most two VLAN tags, with its EtherType in front |
| WireFormat.Ipv4OffsetExactly | src/crypto/crypto_layer4.c:70-89 | IPv4 lies at 14, 18 or 22 exactly when 08 00 stands there behind no, one or two 81 00 tags |
| Layer4.TransportHdrSize | src/crypto/crypto_layer4.c:28-44 | a TCP header is 20 to 60 octets and inside the segment, a UDP header 8 |
| WireFormat.TransportHdrSizeExactly | src/crypto/crypto_layer4.c:28-44 | found exactly for a TCP header of 20 octets or more inside the segment, or eight octets of UDP |
| Layer4.RoundTrip | src/crypto/crypto_layer4.c:103-248 | decrypting an encrypted packet gives it back canonical, hence unchanged if and only if its IPv4 length and checksum were canonical |
| Layer4.WirePacketOpens | src/crypto/crypto_layer4.c:170-248 | every packet in wire form decrypts to its canonical self |
| WireFormat.EncryptFormatL4 | src/crypto/crypto_layer4.c:103-168 | layer 4 encrypts exactly TCP and UDP packets with their headers inside; on the wire stand the headers and ports with the total length and checksum of the wire packet, nonce, policy id, 0xA5 and the sealed rest; it fails exactly without a context or with a broken IPv4 header |
| Decoding.DecryptOutcomeL4 | src/crypto/crypto_layer4.c:170-248 | for any packet: failed, passed on as no tunnel packet, or the opened payload behind the ports with its length and checksum |
| Layer4.CanonicalFixedPoint | src/crypto/crypto_layer4.c:91-101 | a packet is its own canonical form exactly when its length and checksum fields say so |
| Layer4.FragmentRoundTrip | src/crypto/crypto_layer4.c:262-409 | a wire fragment decrypts to its plaintext behind patched headers, with the packet id and index it was given |
| WireFormat.FragmentFormatL4 | src/crypto/crypto_layer4.c:262-324 | a wire fragment holds the total length and checksum of the wire fragment, nonce, policy id, 0x5A, id, index, zero, and the sealed half |
| Decoding.DecryptFragmentOutcomeL4 | src/crypto/crypto_layer4.c:326-409 | for any packet: refused, or id, index and opened half as they stand in it |
| Layer4.Encrypt | src/crypto/crypto_layer4.c:103-168 | the in-place encryption ends in the outcome the function gives: failed, unchanged or rewritten |
| Layer4.Decrypt | src/crypto/crypto_layer4.c:170-248 | the in-place decryption ends in the outcome the function gives |
| Layer4.EncryptFragment | src/crypto/crypto_layer4.c:262-324 | the fragment written to the output buffer is the wire fragment; it fails exactly without a context, plaintext or room |
| Layer4.DecryptFragmentInPlace | src/crypto/crypto_layer4.c:326-409 | the in-place fragment decryption gives the decrypted fragment, id and index, or fails |
| FragTable.Table.Gc | src/core/fragment.c:28-36 | each slot keeps its entry exactly when that is at most 200 ms old |
| FragTable.InTimeExactly | src/core/fragment.c:32-32 | the unsigned difference measures time forward: in time is at most 200 ms from stamp to now, or that across a wrap of the clock |
| SlotOutcomes.ReassembleOutcomeL4 | src/core/fragment.c:537-619 | for any fragment and slot: a half of at most 1600 octets is parked with its headers and the time; a second one with its id empties the slot, and completes exactly in time with 8 to 4096 octets in all, to headers and both halves with length and checksum; all else changes nothing |
| FragTable.Table.TryReassembleL4 | src/core/fragment.c:537-619 | the table and output buffer end as the slot function says; other slots stay |
| FragTable.Store | src/core/fragment.c:65-81 | a half is stored with its id and time, or refused when it does not fit the slot |
| FragTable.JoinedHeaders | src/core/fragment.c:587-612 | headers of a packet joined with its own payload are the packet in canonical form |
| SplitL4.CutParts | src/core/fragment.c:462-489 | the two halves carry every octet once, and only the ports twice |
| SlotOutcomes.CutExactly | src/core/fragment.c:462-489 | a packet is cut exactly if it has a payload and a first half of at most 2048 octets; the halves of the payload differ by at most one octet |
| SplitL4.SplitRoundTrip | src/core/fragment.c:445-619 | split, decrypt both fragments, reassemble 0 at t0 and 1 at t1: a first half of at most 1600 octets is parked, and the packet then comes back exactly if t1 - t0 is at most 200 ms and the halves have at most 4096 octets; canonical, so as it was if and only if it was canonical |
| SplitL4.ReceiveStray | src/core/fragment.c:537-619 | a second half never completes against an empty slot or another id |
| SplitL4.ReusedIdMixes | src/core/fragment.c:14-16 | of two packets that share an id, the second half of one completes the first half of the other, and gives the first packet exactly when their second halves are equal |
| Reassembly.DeliverSecond | src/core/fragment.c:171-619 | at every layer, a second half completes the packet whose first half waits in its slot, or nothing |
| Reassembly.DeliverStray | src/core/fragment.c:171-619 | at every layer, a second half never completes against an empty slot or another id |
| Reassembly.EmittedWereSent | src/core/fragment.c:119-619 | for every run that takes at most 65536 packet ids - splits at all three layers on one counter, any delivery, loss, repetition, order or collection - each emitted packet is a sent one in canonical form (at layer 3 under the guessed protocol); halves of different packets are never joined |
| Completeness.CompletesExactly | src/core/fragment.c:171-619 | after any run of at most 65536 ids a second half completes its packet if and only if some step parked its first half at most 200 ms ago, no step since has parked another one in that slot, used it up or swept it away, and the halves are not too long or, at layer 2, too short; and then gives what was sent |
| Completeness.RunTracks | src/core/fragment.c:65-81 | over any such run every slot holds the first half of the packet its owner says, or nothing |
| Completeness.FirstExactly | src/core/fragment.c:171-619 | a first half is parked exactly when it fits the slot and, at layer 2, shows IP version 4 |
| Completeness.SecondExactly | src/core/fragment.c:171-619 | every outcome of a second half that meets its own first half |
| IdBound.OneIdTooMany | src/core/fragment.c:14-16 | a run of 65537 ids in which two packets of different content come out as one that was never sent |
| IdBound.SafeExactly | src/core/fragment.c:14-16 | all runs of at most n packet ids emit only what was sent if and only if n is at most 65536 |
| SplitL4.PacketIds.Next | src/core/fragment.c:14-16 | ids are consecutive 16-bit values that wrap |
| SplitL4.SplitAndEncrypt | src/core/fragment.c:445-495 | the two buffers hold the wire forms of the two halves under one new id, or the call fails as the source does |
| SplitL4.EthernetSplitFits | inc/fragment.h:50-56 | a split of a packet of at most 1514 octets with nonce at most 16 gives two fragments within 1500 octets, and the first half fits its slot |
| SplitL4.UnsplitFitsMtu | inc/fragment.h:50-56 | when the 32-bit test leaves a packet whole, its encrypted form is within 1500 octets exactly when the test did not wrap, which is when the packet itself is |
| SplitL4.SplitsExactly | inc/fragment.h:50-56 | a split is asked for exactly when the encrypted packet and 8 octets more exceed 1500, and do not reach 2^32 |
| SplitL4.FitsOutputExactly | src/core/fragment.c:445-495 | the output buffers take exactly the splits whose fragments have at most 2048 octets |
| Layer3.FragmentRoundTripL3 | src/crypto/crypto_layer3.c:251-389 | a layer-3 fragment decrypts to its plaintext behind marked headers, with its id and index |
| WireFormat.FragmentFormatL3 | src/crypto/crypto_layer3.c:251-308 | the same for layer 3, with the marker protocol and 0x5C |
| Decoding.DecryptFragmentOutcomeL3 | src/crypto/crypto_layer3.c:310-389 | for any packet: refused, or id, index and opened half as they stand in it |
| Layer3.EncryptFragmentL3 | src/crypto/crypto_layer3.c:251-308 | the output buffer holds the wire fragment, or the call fails |
| Layer3.DecryptFragmentL3InPlace | src/crypto/crypto_layer3.c:310-389 | the in-place fragment decryption gives the decrypted fragment, or fails |
| Layer3Packet.RecheckedVerifies | src/crypto/crypto_layer3.c:219-246 | a rebuilt TCP or UDP segment sums to 0xFFFF with its pseudo-header |
| Receiver.PseudoSumIsHeader | src/crypto/packet_crypto.c:381-435 | what is added to the segment is the word sum of source, destination, protocol and length in network order |
| Receiver.RecheckedOutcome | src/crypto/crypto_layer3.c:219-246 | the rebuild changes the TCP checksum at 16 over the whole segment, the UDP checksum at 6 over its length field kept between 8 and the segment, and nothing else |
| Layer3Packet.DecryptedSegmentVerifies | src/crypto/crypto_layer3.c:133-249 | in every TCP or UDP packet the decryption returns, the octets the code covers - for TCP up to the end of the frame, for UDP the length field - sum to 0xFFFF with that length in the pseudo-header; what that is worth to a receiver is Receiver.DecryptedAcceptedExactly |
| Layer3Packet.RoundTripL3 | src/crypto/crypto_layer3.c:79-249 | a packet of another protocol than the marker and, in CTR mode, without two zero ports comes back with fresh header and transport checksums, unchanged exactly when the header checksum field holds the checksum and the transport checksum field that of the octets the code covers; which other packets decrypt is stated exactly, for any keys and lengths |
| Layer3Packet.WirePacketOutcomeL3 | src/crypto/crypto_layer3.c:133-249 | an encrypted packet is passed on untouched exactly for the marker protocol, and else decrypts exactly when it opens |
| WireFormat.EncryptFormatL3 | src/crypto/crypto_layer3.c:79-131 | layer 3 encrypts exactly untagged IPv4 packets without 0x5C where the mark of a fragment would be; on the wire stand the marker protocol, the total length raised by what is added, nonce, policy id, true protocol and the sealed rest |
| WireFormat.LengthStaysTrue | src/crypto/crypto_layer3.c:79-131 | when the total length fits the packet, that of the wire packet fits it too |
| Decoding.DecryptOutcomeL3 | src/crypto/crypto_layer3.c:133-249 | for any packet: failed, passed on, or restored with the octet before the body as protocol and the total length lowered |
| Decoding.FirstPortsOpen | src/crypto/crypto_layer3.c:181-213 | in CTR mode a body of up to 2048 octets opens under the first of the three keys that shows ports other than zero; in GCM mode as at layer 4 |
| Layer3Packet.EqualKeysOpen | src/crypto/crypto_layer3.c:181-213 | under equal keys that is when its ports are plausible or, beyond 2048 octets, when its ciphertext passes for a payload |
| Layer3Packet.RestoredFixedPoint | src/crypto/crypto_layer3.c:196-246 | restoring a packet from its own parts changes nothing exactly when its header checksum field and the transport checksum field hold what is computed over the other octets |
| Receiver.HeaderCanonicalExactly | src/crypto/packet_crypto.c:368-379 | the header checksum field holds the computed value exactly when the header verifies and the field is not 0xFFFF |
| Receiver.SegmentCanonicalExactly | src/crypto/packet_crypto.c:381-435 | the same for the transport checksum field and the octets the code covers |
| Receiver.OtherLength | src/crypto/crypto_layer3.c:219-246 | a TCP checksum right for one length is right for a shorter one exactly when what lies between adds a multiple of 0xFFFF |
| Receiver.ZerosShow | src/crypto/crypto_layer3.c:219-246 | 1 to 65534 octets of zero never do |
| Receiver.DecryptedAcceptedExactly | src/crypto/crypto_layer3.c:133-249 | a receiver, who takes the segment from the IPv4 total length, accepts what layer-3 decryption returns exactly when the total length fits the frame, it is no fragment and - for TCP - what the frame carries behind the datagram adds a multiple of 0xFFFF; for UDP exactly when its length field fits the datagram |
| Receiver.AcceptanceSurvivesExactly | src/crypto/crypto_layer3.c:79-249 | a packet that its receiver accepts is still accepted after layer-3 encryption and decryption if and only if it is not TCP or its padding adds a multiple of 0xFFFF |
| Receiver.NoPaddingIsHarmless | src/crypto/crypto_layer3.c:219-246 | so always when the total length ends with the frame |
| Receiver.ZeroPaddingIsNot | src/crypto/crypto_layer3.c:219-246 | and never for TCP behind zero padding |
| Receiver.ComesBackExactly | src/crypto/crypto_layer3.c:79-249 | an accepted packet comes back as it was exactly when none of its checksums writes zero as 0xFFFF, its padding is harmless and a UDP checksum is present |
| Receiver.CanonicalAcceptedExactly | src/crypto/crypto_layer4.c:91-101 | the canonical form, as layer 4 and the reassembly at layers 2 and 4 return it, is accepted under the same condition |
| Receiver.AcceptanceSurvivesL4 | src/crypto/crypto_layer4.c:103-248 | so acceptance survives layer 4 exactly then |
| Receiver.ShortAckIsLost | src/crypto/crypto_layer3.c:219-246 | a TCP acknowledgement in a frame of 60 octets, six of them padding: accepted before layer-3 encryption and decryption, refused after |
| Layer3Packet.CalcSegmentChecksum | src/crypto/packet_crypto.c:381-435 | the pseudo-header and word loops give the one-complement checksum of the covered octets without the TCP checksum field, whatever that holds |
| Layer3Packet.EncryptL3 | src/crypto/crypto_layer3.c:79-131 | the in-place encryption ends in the outcome the function gives |
| Layer3Packet.DecryptL3 | src/crypto/crypto_layer3.c:133-249 | the in-place decryption ends in the outcome the function gives |
| SplitL3.GuessIsRight | src/core/fragment.c:182-200 | the protocol guessed at reassembly is right for TCP always, for UDP exactly when the half does not parse as TCP |
| SplitL3.SplitRoundTripL3 | src/core/fragment.c:119-251 | the same at layer 3, where the packet comes back canonical if and only if the first half is not mistaken for another protocol |
| SplitL3.ReceiveSecondL3 | src/core/fragment.c:203-248 | every outcome of a second half for its own slot: stale or too long and dropped, or complete under the guessed protocol |
| SlotOutcomes.ReassembleOutcomeL3 | src/core/fragment.c:171-251 | for any fragment and slot, as at layer 4 without a least length, parking only halves of a guessed protocol and writing that back |
| SlotOutcomes.GuessExactly | src/core/fragment.c:182-200 | the guess is TCP where a TCP header would fit, else UDP from eight octets on |
| SplitL3.TryReassembleL3 | src/core/fragment.c:171-251 | the table and output buffer end as the slot function says |
| SplitL3.SplitAndEncryptL3 | src/core/fragment.c:119-169 | the two buffers hold the wire forms of the halves, or the call fails as the source does |
| SplitL3.EthernetSplitFitsL3 | inc/fragment.h:45-47 | splits of Ethernet-size packets fit the MTU and the slot at layer 3 |
| SplitL3.UnsplitFitsMtuL3 | inc/fragment.h:45-47 | the same at layer 3 |
| SplitL3.SplitsExactlyL3 | inc/fragment.h:45-47 | a split is asked for exactly when the encrypted packet and 4 octets more exceed 1500, and do not reach 2^32 |
| Layer2.RoundTripL2 | src/crypto/crypto_layer2.c:65-169 | an encrypted frame decrypts to itself exactly when its first ciphertext octet is not the fragment magic, it looks like IPv4 (or GCM is used), and it carries no inner EtherType to strip |
| WireFormat.EncryptFormatL2 | src/crypto/crypto_layer2.c:65-106 | layer 2 encrypts exactly untagged IPv4 frames of at least 22 octets when it has a marker; on the wire stand addresses, marker, policy id, nonce and the sealed rest |
| Decoding.DecryptOutcomeL2 | src/crypto/crypto_layer2.c:108-169 | for any packet: failed, passed on, or the opened payload behind 08 00, less an EtherType at its front; in CTR mode only payloads that look like IPv4 of ten protocols with time to live |
| Layer2.FragmentRoundTripL2 | src/crypto/crypto_layer2.c:183-309 | a layer-2 fragment decrypts to its plaintext with its id and index |
| WireFormat.FragmentFormatL2 | src/crypto/crypto_layer2.c:183-238 | a wire fragment holds marker, policy id, nonce, 0x5B, id, index, zero and the sealed half |
| Decoding.DecryptFragmentOutcomeL2 | src/crypto/crypto_layer2.c:240-309 | for any packet: refused, or id, index and opened half as they stand in it |
| Layer2.EncryptL2 | src/crypto/crypto_layer2.c:65-106 | the in-place encryption ends in the outcome the function gives |
| Layer2.DecryptL2 | src/crypto/crypto_layer2.c:108-169 | the in-place decryption ends in the outcome the function gives |
| Layer2.EncryptFragmentL2 | src/crypto/crypto_layer2.c:183-238 | the output buffer holds the wire fragment, or the call fails |
| Layer2.DecryptFragmentL2InPlace | src/crypto/crypto_layer2.c:240-309 | the in-place fragment decryption gives the decrypted fragment, or fails |
| SplitL2.CutPartsL2 | src/core/fragment.c:262-319 | the two halves together are everything behind the Ethernet header |
| SlotOutcomes.CutExactlyL2 | src/core/fragment.c:262-319 | a packet is cut exactly if it has a payload behind the headers that are known and a first half of at most 2048 octets |
| SplitL2.SplitRoundTripL2 | src/core/fragment.c:253-443 | the same at layer 2, where the first half must be of IP version 4 and the second have 20 octets |
| SplitL2.ReceiveSecondL2 | src/core/fragment.c:354-443 | every outcome of a second half for its own slot: refused below 20 octets, stale or too long and dropped, or complete |
| SlotOutcomes.ReassembleOutcomeL2 | src/core/fragment.c:354-443 | for any fragment and slot, as at layer 4 without a least length, parking only halves that start with an IPv4 header |
| SlotOutcomes.JoinedOutcomeL2 | src/core/fragment.c:400-443 | the joined packet is the addresses, 08 00 and both halves, with length and checksum |
| SplitL2.TryReassembleL2 | src/core/fragment.c:354-443 | the table and output buffer end as the slot function says |
| SplitL2.SplitAndEncryptL2 | src/core/fragment.c:253-322 | the two buffers hold the wire forms of the halves, or the call fails as the source does |
| SplitL2.EthernetSplitFitsL2 | inc/fragment.h:59-62 | splits of Ethernet-size packets fit the MTU and the slot at layer 2 |
| SplitL2.UnsplitFitsMtuL2 | inc/fragment.h:59-62 | the same at layer 2 |
| SplitL2.SplitsExactlyL2 | inc/fragment.h:59-62 | a split is asked for exactly when the encrypted packet and 5 octets more exceed 1500, and do not reach 2^32 |
| Policy.SelectCryptoPolicy | src/db/config.c:330-362 | the first listed policy for the flow's own protocol that fits it one way round or the other, without one the first that fits for any protocol, and None exactly without either |
| Policy.SelectReverse | src/db/config.c:304-362 | both directions of a flow select the same policy |
| Policy.MatchesExactly | src/db/config.c:304-328 | a policy matches exactly when each end is any address, or inside the net, or with negation outside, each port is in a range with both ends set, and the protocol is 0 or the flow's |
| Policy.AnyDropsAddress | src/db/config.c:197-203 | any drops the address of its end |
| Policy.NegationTurns | src/db/config.c:197-203 | negation turns the address test round |
| Policy.PortsBind | src/db/config.c:312-321 | a port range binds exactly if both its ends are set |
| Policy.SelectProfileForLocal | src/db/config.c:210-224 | the first enabled profile that lists the local interface |
| Policy.SelectPolicyForLocal | src/crypto/crypto_policy_utils.c:43-58 | the policy that this profile selects for the flow |
| Policy.Validate | src/db/config.c:123-190 | accepted exactly when the global sizes are set and every interface has a name, non-zero sizes and enough UMEM by the 32-bit test |
| ConfigMerge.FindByName | src/db/db_runtime.c:113-127 | the first index of a name, or -1 exactly when it is absent |
| ConfigMerge.FreeIdExists | src/db/db_runtime.c:158-184 | fewer than 255 policies never use up the wire ids 1 to 255 |
| ConfigMerge.ExtendsKeepsDistinct | src/db/db_runtime.c:158-184 | appending policies keeps wire ids pairwise distinct in 1 to 255 |
| ConfigMerge.Merged.CollectUsedWireIds | src/db/db_runtime.c:149-156 | the map marks exactly the ids in use |
| ConfigMerge.Merged.AppendLocalUnique | src/db/db_runtime.c:129-137 | an existing interface of that name, a new one at the end, or -1 exactly when new and full |
| ConfigMerge.Merged.AppendWanUnique | src/db/db_runtime.c:139-147 | as for local interfaces |
| ConfigMerge.Merged.AppendPolicyUnique | src/db/db_runtime.c:158-184 | fails exactly when the array is full; keeps a free wanted id, else takes the lowest free one; changes nothing else |
| ConfigMerge.Merged.MergeLocals | src/db/db_runtime.c:194-198 | fails exactly when the union of names does not fit; otherwise adds the interfaces of new names in order, and every source index leads to the same name |
| ConfigMerge.Merged.MergeWans | src/db/db_runtime.c:199-203 | as for local interfaces |
| ConfigMerge.Merged.MergePolicies | src/db/db_runtime.c:204-208 | fails exactly when the array is too small; otherwise the policies are appended in order |
| ConfigMerge.Merged.CopyProfile | src/db/db_runtime.c:213-245 | the copied profile stands for its source: same identity, interfaces of the same names and weights, moved policy indices |
| ConfigMerge.Merged.MergeProfiles | src/db/db_runtime.c:210-246 | fails exactly when the array is too small; every profile stays faithful to its origin |
| ConfigMerge.Merged.MergeOne | src/db/db_runtime.c:186-248 | succeeds exactly when everything fits; whenever it returns, every merged profile stands for its source profile |
| ConfigMerge.FirstIndexKept | src/db/db_runtime.c:238-245 | dropping out-of-range indices does not change what a profile finds first |
| ConfigMerge.SelectionPreserved | src/db/config.c:330-362 | selection through a merged profile is selection through its source, up to the wire id, for every flow |
| ConfigMerge.Merged.SelectionIsFaithful | src/db/db_runtime.c:186-248 | the same for every profile of the destination after any merges |
| MergeRun.MergeAll | src/db/db_runtime.c:259-265 | merging a list of configurations succeeds exactly when all interface names, policies and profiles fit |
| MergeRun.BuildMerged | src/db/db_runtime.c:250-282 | there is a result exactly when everything fits and the first interface of each name passes validation; it is a meaning-preserving merge: distinct ids, the union of interfaces, and every profile with the interfaces, weights and, for every flow, the policy of its source |
| MergeRun.FirstLocalWins | src/db/db_runtime.c:129-137 | of several local interfaces of one name the merge keeps the first |
| MergeRun.FirstWanWins | src/db/db_runtime.c:139-147 | the same for WANs |
| MergeRun.ClaimsAreKept | src/db/db_runtime.c:213-245 | a merged profile lists an interface name exactly when its source profile does |
| MergeRun.LocalSelectionSurvives | src/db/config.c:210-224 | a local interface is served by the same profile after a merge if and only if no earlier enabled profile lists its name, and then every flow on it gets the same policy up to the wire id |
| MergeRun.MergedPoliciesAreFound | src/core/forwarder.c:284-325 | after a merge and a rebuild every policy with a context finds itself through (action, wire id) |
| CryptoRuntime.InitUsesKeySize | src/crypto/packet_crypto.c:145-166 | only as many key octets as the cipher uses reach the context |
| CryptoRuntime.InitIsKeyed | src/crypto/packet_crypto.c:118-166 | initialising gives the context that holds as many octets of the configured key as the cipher takes, and in all three places as many of the HMAC of these and epoch 0 |
| CryptoRuntime.Runtime.FreshIsKeyed | src/core/forwarder.c:284-325 | the state of a rebuild is one of such contexts, and the table leads to the first |
| CryptoRuntime.Runtime.GetsContext | src/core/forwarder.c:290-298 | a policy gets a context exactly when it does not bypass and its key is not all zero |
| CryptoRuntime.Runtime.ContextFor | src/core/forwarder.c:300-320 | reusing the context of an equal ready policy gives what a fresh initialisation would |
| CryptoRuntime.Runtime.Rebuild | src/core/forwarder.c:271-336 | exactly the policies that do not bypass and have a non-zero key get a context, and each of its own key; the table leads to the first of them by action and id octet; this is what initialising every policy from scratch would leave; and the nonce counter starts over exactly when some policy was initialised |
| CryptoRuntime.Runtime.NextCounter | src/crypto/packet_crypto.c:110-112 | consecutive values modulo 2^31 |
| NonceRuns.NonceEqualExactly | src/crypto/packet_crypto.c:319-343 | two nonces of one size are equal exactly when the salts agree on the octets in use and the counters agree modulo 2^31, or in as many leading octets as a shorter nonce holds |
| NonceRuns.RestartsAsRebuilt | src/core/forwarder.c:300-320 | a rebuild starts the counter over exactly when the step of the run model does |
| NonceRuns.DistinctExactly | src/crypto/packet_crypto.c:145-166 | over any run of encryptions and reloads no counter value is used twice if and only if all encryptions lie between two restarts and are at most 2^31 |
| NonceRuns.RunWithoutRestart | src/crypto/packet_crypto.c:110-116 | a run whose reloads initialise no policy counts its encryptions without a restart |
| NonceRuns.RepeatsExactly | src/crypto/packet_crypto.c:319-343 | with nonces of at least four octets two encryptions of one thread under one policy repeat a nonce exactly with equal counters |
| NonceRuns.NoRepeatsExactly | src/crypto/packet_crypto.c:145-166 | a thread that encrypts under one policy never repeats a nonce if and only if all its encryptions lie between two restarts and are at most 2^31 |
| NonceRuns.ReloadRepeats | src/core/forwarder.c:300-320 | a reload that keeps a policy and adds any other with a key makes the next encryption under the kept one repeat a nonce under its old key |
| CryptoRuntime.RebuildAll | src/core/forwarder.c:271-336 | so does any sequence of reloads |
| CryptoRuntime.SlotFindsReady | src/core/forwarder.c:284-325 | the table finds a policy with a context for (action, id) exactly when there is one |
| CryptoRuntime.SlotIsHome | src/core/forwarder.c:321-325 | with distinct wire ids every policy with a context is found as itself |
| CryptoRuntime.Runtime.PolicyIndex | src/core/forwarder.c:684-697 | the lookup gives the first policy with a context, and -1 exactly when there is none |
| Dispatch.ExtractPolicyId | src/crypto/crypto_dispatch.c:80-127 | the loop gives the id and nonce size of the first policy that recognises the packet |
| Dispatch.ExtractExactly | src/crypto/crypto_dispatch.c:109-124 | read off are the id octet and nonce size of the first layer-4 policy whose id and 0xA5 stand where its nonce would end |
| Dispatch.LookupPolicyIndex | src/crypto/crypto_dispatch.c:11-35 | the table entry when the action has one in range, else the first policy with that action and id |
| Dispatch.TryRuntime | src/crypto/crypto_dispatch.c:201-212 | one decryption attempt succeeds exactly when it yields a shorter packet |
| Dispatch.DecryptL4 | src/crypto/crypto_dispatch.c:184-240 | the layer-4 branch: unrecognised packets pass unchanged; otherwise the result is that of the serving policy or, in grace, of the previous one on what the first attempt left |
| Dispatch.OwnHit | src/crypto/crypto_dispatch.c:109-124 | what layer 4 encrypts under a policy is recognised by that policy |
| Dispatch.UniformHitIsOwn | src/crypto/crypto_dispatch.c:109-124 | with distinct ids and one nonce size no other policy recognises it |
| Dispatch.EarlierHitWins | src/crypto/crypto_dispatch.c:109-124 | an earlier accidental hit is taken for another policy |
| Dispatch.DispatchRoundTrip | src/crypto/crypto_dispatch.c:184-222 | a packet encrypted at layer 4 under a ready policy is recognised as its own if and only if no earlier policy hits it; then it is mapped back to it and restored, unchanged exactly when its length and checksum were canonical |
| Dispatch.MixedNoncesMisroute | src/crypto/crypto_dispatch.c:109-124 | with an earlier nonce of at least four octets that is shorter by two or more, some salts misroute every packet of a policy |
| NonceSizes.RecognisedExactly | src/crypto/crypto_dispatch.c:80-127 | with distinct ids all packets of a policy, for every counter and salt, are recognised as its own if and only if each earlier layer-4 policy has the same nonce size, or one octet less while the own id is not 0xA5, or one octet more while the earlier id is not 0xA5 |
| NonceSizes.HarmfulHits | src/crypto/crypto_dispatch.c:109-124 | after any other earlier policy there is a packet, counter and salt for which the packet is taken for another policy's |
| NonceSizes.AnyTail | src/crypto/crypto_layer4.c:103-168 | any octets whose first is zero, with the own id and marker in place, occur behind the ports of some encrypted packet |
| NonceSizes.SeparableRoundTrip | src/crypto/crypto_dispatch.c:184-222 | for such configurations every packet a policy encrypts comes back canonical by way of that policy |
| Grace.GraceRestoresExactly | src/crypto/crypto_dispatch.c:203-240 | in the grace period a packet of the previous policy whose id and nonce size a current one has taken over is restored always if the current one has no key; exactly if its body survives the first attempt where that is refused; and where the current one does not authenticate, only if both do not and their streams agree |
| Grace.ReopensIfSurvived | src/crypto/crypto_layer4.c:206-232 | a refused body opens again under its own key exactly if it was too short for a tag, or the other stream is silent over it, or beyond 2048 octets gives the plaintext, which the tag tells apart |
| Grace.SpoiledIsLost | src/crypto/crypto_layer4.c:206-232 | so an authenticated body of up to 2048 octets that was refused once does not open again, if the first octet of the other stream is not zero |
| Grace.RemovedIsPassedOn | src/crypto/crypto_dispatch.c:80-127 | with one nonce size, packets of a policy that is gone after the new start are not recognised, so not even tried in the grace period |
| HashTable.Chain.Find | src/core/flow_table.c:129-132 | the walk finds the node of a key exactly when the key is an entry |
| HashTable.Chain.PushFront | src/core/flow_table.c:171-172 | a new node at the head adds one entry |
| HashTable.Chain.Unlink | src/core/flow_table.c:430-432 | unlinking through the previous pointer removes exactly that node |
| HashTable.Chain.Remove | src/core/forwarder.c:549-558 | the pointer walk removes exactly the entry of the key |
| HashTable.Chain.RemoveIf | src/core/flow_table.c:427-437 | the sweep removes exactly the entries the test rejects |
| HashTable.Chain.Clear | src/core/forwarder.c:443-449 | freeing from the head empties the bucket |
| HashTable.Table.Insert | src/core/flow_table.c:171-172 | the entry goes into the bucket of its hash; all other buckets stay |
| HashTable.Table.Store | src/core/flow_table.c:135-148 | updating a node in place changes its entry only |
| HashTable.Table.Remove | src/core/forwarder.c:538-560 | removes one entry of the table |
| HashTable.Table.RemoveIf | src/core/flow_table.c:421-440 | the sweep over all buckets removes exactly the entries the test rejects |
| HashTable.Table.Clear | src/core/forwarder.c:464-472 | clearing every bucket empties the table |
| Bytes.NtohlTwice | src/core/flow_table.c:34-35 | byte order conversion is its own inverse |
| FlowTable.NormalIsUnordered | src/core/flow_table.c:29-40 | two address pairs share a key exactly when they are equal up to direction |
| FlowTable.NormalAscends | src/core/flow_table.c:29-40 | the smaller address in host order comes first |
| FlowTable.FlowTable.GetWan | src/core/flow_table.c:103-178 | a packet advances the rotator of its own pair and returns its WAN: bytes add up until they fill a window that is set, which moves to the next WAN; every other entry stays; a new pair, and only that, moves the counter of starting WANs on |
| FlowTable.FlowTable.Gc | src/core/flow_table.c:421-440 | a pair stays exactly when its last packet is at most 60 seconds old |
| FlowTable.FlowTable.Serve | src/core/flow_table.c:103-178 | over any run of packets and sweeps each packet gets the WAN its own pair alone would give, new pairs starting where the counter says |
| FlowTable.CountedStaysInRange | src/core/flow_table.c:105-114 | from a new table up to 2^31 calls put every flow on a WAN that exists |
| FlowTable.PairsAreIndependent | src/core/flow_table.c:116-178 | over any run the table holds one independent rotator per unordered pair |
| FlowTable.WindowHolds | src/core/flow_table.c:134-144 | below the window a flow stays on its WAN and its bytes add up |
| FlowTable.WindowFills | src/core/flow_table.c:142-145 | the packet that fills the window moves the flow to the next WAN |
| FlowTable.RunStaysInRange | src/core/flow_table.c:142-149 | a flow is always on a WAN it may be on |
| FlowTable.NextWanStarts | src/core/flow_table.c:105-114 | a new flow starts on an existing WAN, exactly unless the counter is the smallest integer and the number of WANs does not divide it |
| FlowTable.NthPairStarts | src/core/flow_table.c:105-114 | from a new table, whatever arrives in fewer than 2^31 calls, the n-th new pair starts on WAN n modulo the number of WANs |
| FlowTable.StartsSpread | src/core/flow_table.c:105-114 | away from its wrap the counter meets every WAN exactly once in as many values as there are WANs |
| FlowTable.PairIsThereExactly | src/core/flow_table.c:116-178 | over any run a pair is in the table, last seen at t, if and only if it had a packet at t and since then no other and no sweep more than 60 seconds later |
| WanScheduler.WeightsSumPositive | src/core/flow_table.c:188-197 | the sum of the positive weights |
| WanScheduler.SlotToEntry | src/core/flow_table.c:199-214 | the entry of positive weight that owns the slot, also for negative slots, and the first entry when no weight is positive; the final return is never reached |
| WanScheduler.OwnerIsUnique | src/core/flow_table.c:205-212 | a slot has one owner, and only positive weights own slots |
| WanScheduler.OwnersAscend | src/core/flow_table.c:205-212 | slots are owned in entry order |
| WanScheduler.SlotsAreOwned | src/core/flow_table.c:205-212 | exactly the slots below the sum of the positive weights are owned |
| WanScheduler.PickPerPacket | src/core/flow_table.c:216-230 | the WAN for packet number n and the counter after it; lists of one or no entry leave the counter alone |
| WanScheduler.WindowIsFair | src/core/flow_table.c:216-230 | in any window of as many consecutive counter values as the weights add up to, each entry is picked exactly weight times |
| WanScheduler.RoundRobinIsUnitWeights | src/core/flow_table.c:229-229 | round robin is the case of equal weights, so it is fair too |
| WanScheduler.SelectWan | src/core/forwarder.c:632-661 | one of the competing WANs of the profile by weight, its only WAN, or the fall-back |
| WanScheduler.SelectByProfile | src/core/forwarder.c:628-664 | what the profile that serves the local interface gives, and nothing without one |
| WanScheduler.ChosenExactly | src/core/forwarder.c:632-661 | a profile of several WANs gives none exactly when no entry may compete - an existing WAN, with weight where there are weights - and moves the counter on exactly when two may |
| WanScheduler.CompetingListed | src/core/forwarder.c:637-655 | those that compete are exactly the entries that may, each once and in their order |
| WanChoice.SelectWanForPacket | src/core/forwarder.c:622-669 | the WAN the profile gives, and exactly without one that of the flow table, which then alone counts the packet; it exists if the flows of the table are on existing WANs |
| WanScheduler.ChosenIsUsable | src/core/forwarder.c:632-661 | what is chosen is a WAN of the profile that exists; with some positive weight, no WAN without one |
| Stride.StrideIsFairExactly | src/core/flow_table.c:9-9 | the counter is shared by all profiles: an entry of a profile that sees every g-th value is picked exactly weight times in a window of picks if and only if the greatest common divisor of g and the sum of weights divides its weight, from any start |
| Stride.CoprimeIsFair | src/core/flow_table.c:216-230 | so a stride coprime to the sum is fair to all |
| Stride.SmallWeightStarves | src/core/flow_table.c:216-230 | an entry of smaller weight than that divisor is never picked at all from some start on |
| Stride.TurnsStarve | src/core/flow_table.c:216-230 | two profiles in turn with two equal WANs each: either uses one WAN only |
| Stride.StrideOne | src/core/flow_table.c:216-230 | at stride one this is the share of consecutive values |
| ArpCache.ProbeIsComplete | src/core/wan_arp.c:62-77 | a probe that ends at an empty place proves the address absent |
| ArpCache.StoresAfter | src/core/wan_arp.c:79-95 | writing the place a probe ended at keeps addresses unique, gap-free and mapped to their last value |
| ArpCache.FullMeansNoEmpty | src/core/wan_arp.c:79-95 | the cache refuses new addresses exactly when no place is empty |
| ArpCache.Cache.Lookup | src/core/wan_arp.c:62-77 | the last accepted hardware address, or nothing |
| ArpCache.Cache.Insert | src/core/wan_arp.c:79-95 | an address other than 0 is bound if it is known or fewer than 2048 are; else nothing changes |
| ArpCache.Cache.Load | src/core/wan_arp.c:101-117 | the lines are inserted in order; a new cache becomes what its file says |
| ArpCache.LastLineCounts | src/core/wan_arp.c:101-117 | of up to 2048 lines the last one for an address counts |
| ArpCache.Cache.Save | src/core/wan_arp.c:119-141 | afterwards the file loads to the cache contents, also when an unchanged cache is not written |
| ArpCache.SaveThenLoad | src/core/wan_arp.c:101-141 | saving and loading into a new cache gives the same map |
| Quiescence.StepKeepsInvariant | src/core/forwarder.c:82-95 | every step of threads and reloads keeps: counter equals threads past their increment, pause set exactly while a reload waits or updates, no thread inside while it updates |
| Quiescence.UpdatesAreExclusive | src/core/forwarder.c:2470-2497 | for any number of threads and any interleaving, no thread is between enter and leave during an update |
| Quiescence.PausedStepsShrink | src/core/forwarder.c:82-95 | with pause set every step but a spin lowers the rank sum |
| Quiescence.WaitingIsNotStuck | src/core/forwarder.c:2470-2472 | while the reloader waits some thread can move |
| Quiescence.MovesAreBounded | src/core/forwarder.c:82-95 | at most three moves per thread after pause is set, in any schedule |
| Quiescence.FairWaitEnds | src/core/forwarder.c:2470-2472 | once every thread had three turns the counter is zero and the wait ends |
| Quiescence.ReloadTakesForce | src/core/forwarder.c:2466-2497 | once the spare slot is filled and every thread had three turns under pause, the update goes through, the pause ends, and each thread that then enters holds the new filling |
| Quiescence.OtherReloadsEnd | src/core/forwarder.c:2455-2468 | a rejected reload leaves the configuration in force, a swap at once replaces it |
| Quiescence.ZeroMeansNobody | src/core/forwarder.c:2471-2472 | a zero count means that no thread is inside |
| Quiescence.StaysStableExactly | src/core/forwarder.c:2464-2468 | of all steps, exactly the immediate swap over a thread inside changes the configuration that a thread entered with |
| Quiescence.StableRunsExactly | src/core/forwarder.c:2455-2497 | a run is stable throughout if and only if it never swaps over a thread |
| Quiescence.SwapsOverHappen | src/core/forwarder.c:2464-2468 | such swaps are reachable |
| Quiescence.StaysUntouchedExactly | main.c:250-254 | of all steps, exactly filling a slot that a thread inside still uses overwrites a configuration in use |
| Quiescence.SlotsAreSafe | main.c:250-254 | a run that never swaps over a thread never overwrites a configuration in use |
| Quiescence.SwapExposesSlot | main.c:250-254 | after a swap over a thread the next filling does |
| PolicyPins.NormalKeyIsUndirected | src/core/forwarder.c:405-419 | two tuples share a pin exactly when they are one flow up to direction |
| PolicyPins.CryptoRuntimeChanged | src/core/forwarder.c:240-258 | changed exactly when a crypto field or a policy differs |
| PolicyPins.CryptoIsAllElse | src/core/forwarder.c:214-258 | no field or policy is overlooked: it compares everything but interfaces and profiles |
| PolicyPins.CompareTopology | src/core/forwarder.c:198-212 | same exactly when the interface names agree in order |
| PolicyPins.Forwarder.Set | src/core/forwarder.c:496-536 | pins the flow, when encryption is on and the index is in range |
| PolicyPins.Forwarder.Remove | src/core/forwarder.c:538-560 | removes the pin of the flow only |
| PolicyPins.Forwarder.Gc | src/core/forwarder.c:474-494 | a pin stays exactly when it was seen at most 120 seconds ago |
| PolicyPins.Forwarder.Lookup | src/core/forwarder.c:562-600 | returns the usable pinned policy and refreshes it, or removes an unusable pin |
| PolicyPins.Forwarder.Reload | src/core/forwarder.c:2455-2501 | accepted exactly when the interfaces have the same names one by one; contexts and table are rebuilt of the new policies and pins cleared exactly when encryption is on and anything but interfaces and profiles differs, else both stay |
| PolicyPins.LookupReturnsLastPinned | src/core/forwarder.c:405-600 | over any run, also with encryption switched off and on, a lookup returns field by field the policy the flow was last pinned to, and that has a context or bypasses |
| PolicyPins.PinnedExactly | src/core/forwarder.c:405-600 | over any run a pin is there, last seen at t, if and only if some step pinned or found it at t and none since has pinned it anew, removed it, found it unusable, swept it more than 120 seconds later or reloaded encryption |
| PolicyPins.AnswersExactly | src/core/forwarder.c:562-600 | so a lookup answers if and only if encryption is on, such a step exists, and the policy last pinned exists and bypasses or has a key |
| PolicyPins.RunKeepsPinsTrue | src/core/forwarder.c:405-600 | every run keeps: while encryption is on, the contexts are those of the configuration in force and every pin leads to the policy it was made for |
| PolicyPins.PinSurvives | src/core/forwarder.c:474-600 | a pin outlives everything done to other flows, sweeps within its age and reloads that change no policy |
| XskRing.ProdRing.NbFree | include/xdp/xsk.h:92-110 | the cached 32-bit difference is the true free count when it is used |
| XskRing.ProdRing.Reserve | include/xdp/xsk.h:124-133 | succeeds exactly when the ring has room, across counter wrap-around |
| XskRing.ProdRing.Write | include/xdp/xsk.h:55-77 | filling in a reserved entry leaves the queued ones alone |
| XskRing.ProdRing.Submit | include/xdp/xsk.h:135-141 | the written entries join the queue in order |
| XskRing.ProdRing.Push | include/xdp/xsk.h:124-141 | reserve, write and submit append one entry exactly when there is room |
| XskRing.ConsRing.Peek | include/xdp/xsk.h:143-153 | gives a prefix of the queue, empty only if the queue is |
| XskRing.ConsRing.Release | include/xdp/xsk.h:160-166 | frees peeked entries only |
| XskRing.PlaceOf | include/xdp/xsk.h:55-77 | masking the wrapped index finds the entry of the true counter |
| Umem.DisjointExactly | src/core/interface.c:543-545 | receive and transmit frames never overlap exactly when the ring fits below the transmit base |
| Umem.AcceptedSizesFit | src/db/config.c:150-155 | accepted sizes fit the ring below the transmit half when the need is exact in 32 bits and below a MiB or in whole MiB |
| Umem.AcceptedSizesAreSafe | src/core/interface.c:1410-1412 | for such sizes all frames are disjoint and inside the UMEM |
| Umem.ValidationProtectsExactly | src/db/config.c:150-155 | for 4096-octet frames and ring sizes a socket can have, every accepted UMEM below 2^24 MiB is safe if and only if the ring has at most 262144 entries; from twice that on the 32-bit product wraps to zero |
| Umem.LayoutSafeExactly | src/core/interface.c:543-545 | for a UMEM of any size with 32-bit frame counts the frames are apart and inside exactly when the ring fits half the count that is left after the wrap |
| Umem.HugeUmemOverlaps | src/db/config.c:150-155 | at 2^24 MiB the frame count wraps to zero: rings of up to 262144 entries are accepted, and none is safe |
| Umem.SizeIsPow2 | include/xdp/xsk.h:55-77 | a ring size that divides the counter range is a power of two |
| Umem.LoaderSizesWork | src/db/db_config.c:534-574 | both size triples the loader sets are accepted, keep all frames apart and in bounds, and never reuse a transmit frame within a ring |
| Umem.NoReuseExactly | src/core/interface.c:1410-1412 | a ring of packets never shares a frame exactly when it fits the half and the counter wraps cleanly |
| TxQueue.Queue.Send | src/core/interface.c:1363-1447 | a packet is queued exactly when the ring has room, disturbs nothing in flight and no receive frame |
| TxQueue.Queue.Transmit | src/core/interface.c:1426-1428 | the kernel takes packets in order, each exactly as it was sent |
| FrameQueues.AddrsNameFrames | src/core/interface.c:543-545 | distinct receive frames have distinct addresses |
| FrameQueues.InitialFill | src/core/interface.c:539-545 | the fill ring then holds every receive frame, in order |
| FrameQueues.Receive | src/core/interface.c:1302-1335 | the batch is a prefix of the received frames, whose RX entries are freed |
| FrameQueues.GiveBack | src/core/interface.c:1337-1361 | the frames join the fill ring in order while it has room, all of them if they fit |
| FrameQueues.WorkerRing.Enqueue | src/core/forwarder.c:1413-1421 | a bounded queue: fails exactly when 4095 jobs wait |
| FrameQueues.WorkerRing.Dequeue | src/core/forwarder.c:1989-1995 | takes the oldest job, none exactly when empty |
| Pipeline.RoomToRelease | src/core/interface.c:1345-1359 | while a frame is elsewhere its fill ring has room |
| Pipeline.ReleaseHasRoom | src/core/interface.c:1347-1356 | the branch that drops a frame is never taken, when a release is one step |
| Pipeline.FrameGoesRound | src/core/forwarder.c:1389-1428 | the oldest frame of a fill ring, taken, filled, received, handed over and given back by thread or worker, is then its youngest, with all else as before |
| Pipeline.FullRingGivesBack | src/core/forwarder.c:1413-1428 | the worker ring takes 4095 jobs; only then the thread gives the frame back itself |
| Pipeline.StepIsConserved | src/core/forwarder.c:1389-1428 | each step of kernel, thread or worker keeps every frame in exactly one place |
| Pipeline.FramesAreConserved | src/core/forwarder.c:2251-2256 | through any interleaving in which a release is one step, no receive frame is lost, duplicated or released twice, and every release finds room |
| ReleaseSteps.SubmitConservesExactly | src/core/interface.c:1345-1359 | with releases in three steps: a submit conserves the frames if and only if the place it exposes holds the frame being released |
| ReleaseRuns.ReleaseAlone | src/core/interface.c:1345-1359 | with no reservation open and a place free, the four steps of one release are the release in one step |
| ReleaseSteps.StepIsOrderly | src/core/interface.c:1337-1361 | every step that reserves only while no other release to that ring is open conserves the frames |
| ReleaseSteps.FramesAreConservedApart | src/core/interface.c:1337-1361 | so any run in which releases to one ring do not overlap conserves them, and its reserves find room |
| ReleaseRuns.WriteConservesExactly | src/core/interface.c:1357-1358 | a write conserves the frames exactly when the entry it fills is not one that is submitted and not consumed |
| ReleaseRuns.StepConservesExactly | src/core/interface.c:1337-1361 | with releases in three steps and all frames in place, each step keeps them so exactly under its own condition: a reserve finds room, a write spares what is visible, a submit exposes its own frame |
| ReleaseRuns.RunConservesExactly | src/core/interface.c:1337-1361 | a run conserves the frames throughout if and only if every step of it meets its condition, whatever releases overlap |
| ReleaseSteps.OverlapLosesFrame | src/core/forwarder.c:1425-1425 | without that a run exists in which the worker and the packet thread overlap and a frame is lost |

## Left out

- Layer4.Encrypt: requires the IPv4 header length to stay inside the packet, which parse_flow has checked before the worker calls it; the C function itself does not.
- Layer4.EncryptFragment: the caller's front is Ethernet header, IPv4 header and ports of one length, as the split functions pass them.
- SplitL4.SplitAndEncrypt: takes packets that parse_flow accepted, whose IPv4 header lies inside; other callers do not exist.
- FragTable.Table.TryReassembleL4: takes packets as the fragment decryption leaves them, whose IPv4 header has at least 20 octets and lies inside; the C function does not test that.
- Layer2.DecryptL2: a GCM packet with no or one encrypted octet for which decryption and the tag behind it read 08 00 makes the C code read on into the tag and take 2 from its length; here it is an ordinary short packet. The encoder never makes one.
- Layer3Packet.DecryptL3: packets of at most 65535 octets, as are Layer3Packet.DecryptedSegmentVerifies, the layer-3 round trip and Receiver; longer ones do not fit a frame.
- Receiver.DecryptedAcceptedExactly: the receiver judges whole datagrams in frames without VLAN tags. The code also rebuilds the checksum of an IPv4 fragment as if it were a whole datagram; what its receiver makes of the joined datagram is not stated.
- Dispatch.DecryptL4: needs a configuration with policies; without any, the C function decrypts with a default context instead. Nonce sizes above the 16-octet buffer are a precondition.
- Dispatch.MixedNoncesMisroute: covers earlier nonces shorter by two, because it is about all packets of a policy; which configurations misroute any is NonceSizes.RecognisedExactly.
- Grace.GraceRestoresExactly: of a packet that passes the authentication of the current policy it says that this policy's result is taken, not when that is the packet; and it is about layer 4 only.
- CryptoRuntime.Runtime.Rebuild: packet_crypto_init succeeds, as it does once a cipher context can be allocated.
- NonceRuns.NoRepeatsExactly: one thread and one policy; NonceRuns.DistinctExactly is about any number of both, whose nonces may still differ in the salt.
- PolicyPins.Forwarder.Reload: one step with no packet in flight. The branch that rebuilds waits for that, as Quiescence proves; the branch that finds nothing changed does not wait, and there only the configuration pointer changes, to one with the same policies. What packets in flight then see is the subject of Quiescence.
- FlowTable.FlowTable.GetWan: next_wan is an atomic counter outside the bucket lock; here a call takes its value and stores the entry in one step. Negation of the smallest integer is taken to wrap.
- WanScheduler.WeightsSumPositive: weights add up without 32-bit overflow.
- WanScheduler.WindowIsFair: for a profile that sees consecutive values of the counter; Stride has the case of a counter shared at a fixed stride, and arbitrary mixes of profiles are not covered. Picks are counted by an unbounded number; a window across the wrap of the 64-bit counter is not covered.
- TxQueue.Queue.Send: one reserve attempt; the retries and wake-ups in between are not modelled. The packet fits a frame, which the C code does not test.
- FrameQueues.Receive: one peek; polling for packets and the second peek are not modelled.
- FlowTable.HashIps, PolicyPins.PinHash, ArpCache.Hash: their constants follow the source; no result depends on them, as the tables are right for every hash.
- HashTable.Node: the C entry is flat; here its fields besides the key are one record that is replaced in place.
- Memory: malloc and posix_memalign succeed; structures that C keeps in arrays of structs are datatype elements of arrays or sequences.
- Pipeline.FramesAreConserved: a release is one step, though the source takes no lock around reserve, write and submit; ReleaseSteps and ReleaseRuns split it up.
- ReleaseSteps.StepIsOrderly: reserve and submit are one step each, as in ReleaseRuns, though include/xdp/xsk.h:124-141 reads and writes cached_prod and the producer index without atomicity; two reserves or submits that interleave inside are not modelled.
- Weak memory: atomic operations are sequentially consistent steps, and a section under a mutex is one step.
- OpenSSL: cipher contexts, their per-thread caching and error returns; HMAC and AES are functions. The tag of an empty GCM payload, which the C code leaves uninitialised, follows the tag function.
- The randomness of the salt.
- Fragment resolution through forwarder_resolve_l3_decrypt_ctx and forwarder_resolve_l4_decrypt_ctx and layer-3 whole-packet dispatch: their tests of the tunnel magic do not match what the encoders write; CRYPTO_L3_TUNNEL_MAGIC is not part of this model.
- The no-crypto WAN thread, which releases a frame on two paths, is outside the frame conservation claim.
- flow_table_get_wan_profile and flow_table_add_bytes: nothing calls them.
- The per-profile window computation, the non-IP flow hash and config_select_profile_for_wan: plain arithmetic, and a search like the one modelled for local interfaces.
- Loading from PostgreSQL, environment parsing, notification handling, scripts: input and output.
- BPF programs, sockets, raw ARP frames, XDP attachment, thread creation; the kernel appears as in-order steps on its rings.
- Completion rings: their entries are only counted and dropped.
- Diagnostics, statistics and the probe tools.
