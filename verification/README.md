# A verified model of the rsdhcp DHCP server

This project models the decisions of the rsdhcp server with its in-memory lease store: how it reads and
writes DHCP packets, how it packs options into the size a client asks for, how it compresses a domain
search list, which lease it hands out, and what it sends back. Everything is proved by Dafny's verifier;
`dafny verify dfyconfig.toml` checks all of it.

## How it is organised

| file | content |
|---|---|
| `Bytes.dfy`, `Enums.dfy`, `Wrappers.dfy` | bytes, network byte order, the one-byte enumerations, Option and Result |
| `DhcpOption.dfy` | the option table and the codec of one option, value kind by value kind |
| `OptionArea.dfy` | the option parser and serialiser; the specification separates framing from decoding |
| `Overload.dfy` | the first-fit packer into options, `file` and `sname`, first fit in numbers, and the client that reads them back |
| `Packet.dfy` | the 240-byte header, the packet codec, its layout byte by byte, sizes, and what a client reads from a packet |
| `Reply.dfy` | message type, client state, response, negative acknowledgement, destination, and what a client reads of them |
| `Datagrams.dfy` | two datagrams and a search list with all their bytes |
| `DomainNames.dfy` | the name list compressor against the decoder of section 4.1.4 of RFC 1035 |
| `SuffixSharing.dfy` | how well it compresses: longest shared suffix, never longer than the plain encoding |
| `MisreadNames.dfy` | lists it takes but a reader gets back changed: trailing dots, offsets beyond a pointer |
| `Fqdn.dfy` | printing of the client FQDN option |
| `Lease.dfy`, `Store.dfy` | leases and the store: a class whose handlers are proved against the relation `Step` |
| `StoreRuns.dfy` | whole sequential runs of the store |
| `Interleaving.dfy` | the store at the granularity of its lock, with any number of handlers in flight |
| `Server.dfy` | from a datagram to the store call and the datagram sent; end-to-end results |
| `Sessions.dfy` | whole sessions of datagrams, one at a time, judged by what clients read |
| `Scenarios.dfy` | particular sessions, put together from messages a client can send |
| `WireInterleaving.dfy` | concurrent handlers of datagrams, judged by what clients read |

Where the program is a loop or changes state, the model has a method with that loop or a class with that
field, proved equal to a specification function (or to a relation, where the order of a hash map leaves a
choice); the results are about those specifications. What ends up on the wire or at a client is stated in numbers,
bytes and fields beside the functions that compute it, so that a wrong number in one of them breaks a proof.

Conventions: bytes and machine words are integers with their range; strings and names are their bytes; an
option is a code and a value of the kind the table gives the code; a fixed-size array is a sequence of that
length; a network is an address with its netmask. The clock is an integer of seconds given to each call, and one
handler call reads it once in the sequential model, at every step in the interleaved one. The choice made by
hash map iteration is left open. A discover panics when the netmask of its lease is not ones followed by zeros, or
when it is asked for a search list that cannot be compressed: its task then ends without touching the store, and
the methods require exactly that this does not happen.

## Where the code does not do what one might expect

- Names with empty or long labels, and lists too long for their pointers, are compressed without complaint.
  `DomainNames.CompressedHeard` says what a reader finds in any such list: a label of more than 63 bytes makes it
  unreadable, an empty label ends a name, and a pointer is looked up at its offset modulo 2^14. A list reads back
  as it was given exactly when every name is "." or dot-joined labels of 1 to 63 bytes and what stands at each such
  place reads as the suffix pointed to (`DomainNames.TextRoundTrip`). The second is always so while the offsets used
  are below 2^14 (`DomainNames.ShortPointersRead`), and past that it can still be so by the bytes that happen to
  stand there.
- A name with a trailing dot reads back followed by the root when it is the first of the list to end in an empty
  label, and alone when it is not (`MisreadNames.TrailingDot`, `MisreadNames.TwoTrailingDots`).
- A new name written past offset 2^14 and then pointed to reads back as the suffix recorded at the same offset
  modulo 2^14 (`MisreadNames.LateSuffixMisread`, with an actual list in `MisreadNames.MisreadList`).
- The packer keeps 4 bytes in reserve before it knows whether it needs them, so a list that fits the limit by
  less than that is split or shortened although it would fit plainly (`Overload.PackerRefinesPlain`,
  `Overload.ReserveSplits`, and at the smallest limit `Overload.ReserveSplitsTwo`). The reader
  of this repository does not follow option 52, so a well-formed packet with a limit reads back identical exactly when
  nothing was moved or dropped (`Packet.PacketRoundTrip`).
- Init-reboot looks for a subnet mask option in the lease, which the store never puts there (it answers the
  default parameter list without code 1), so it always ends in an error (`StoreRuns.InitRebootNeverSucceeds`).
  Its later branch, which drops a lease of another network and then stores it again, is modelled but not reached.
- Release removes the lease of `yiaddr` and looks at nothing else, neither `ciaddr` nor transaction nor client
  (`Sessions.ReleaseExact`). Section 4.4.1 of RFC 2131 has the client name its address in `ciaddr` and leave `yiaddr`
  0: such a release does not free its lease (`Scenarios.ReleasedLeaseStays`), while a release by any other client
  that names the address in `yiaddr` does (`Scenarios.StrangerReleases`).
- Decline removes one lease of its transaction, which need not be the declined one (`Sessions.DeclineExact`), and the
  address goes to the next discover, although section 4.3.3 of RFC 2131 wants it kept back
  (`Scenarios.DeclinedAddressReturns`).
- Discover searches and stores under separate lock acquisitions. Two concurrent discovers can be answered with
  the same address (`Interleaving.RacingDiscovers`), and both clients read the offer (`WireInterleaving.RacingOffers`);
  while the first lease stays current and is not removed, the second search must have come before the first store
  (`Interleaving.DiscoversOverlap`).
  A current lease is safe from other transactions exactly when no handler is about to store a lease of another
  transaction for its address (`Interleaving.TakeoverExact`).
- Renewing and rebinding do not look at the transaction or the client, and they revive expired leases: a request
  is answered exactly when it selects an address held under its transaction, or renews or rebinds any held
  address (`Server.RequestAnswered`). Another client gets an expired lease acknowledged
  (`Scenarios.StrangerRenews`).
- The upper end of the scope is never handed out (`StoreRuns.RunInv`), and an offer of 0.0.0.0 may have nowhere to
  be sent (`Server.DiscoverAnswered`): the lease is made and the client not told (`Scenarios.UnsentOffer`).

## Model

| member | source | states |
|---|---|---|
| Enums.WireNumbers | rsdhcp/src/protocol/enums.rs:12-168 | the numbers of the operations, the eight message types and the eighteen hardware types, any other being unknown |
| DhcpOptions.EncodedPayload | rsdhcp/src/protocol/option.rs:179-493 | what is written for any value, byte by byte: numbers and addresses most significant byte first, lists one after the other, 255 in the two unused FQDN bytes |
| DhcpOptions.DecodedPayload | rsdhcp/src/protocol/option.rs:179-493 | a payload is accepted exactly when it has the length its kind asks for, only ASCII for a text, a number from 1 to 8 for a message type; the value read is then the one it says, but for trailing NULs of a text |
| DhcpOptions.ValueRoundTrip | rsdhcp/src/protocol/option.rs:179-493 | for every value kind, decoding an encoded value gives it back exactly when strings are ASCII without trailing NUL, FQDN data is not empty and the message type is a known one |
| DhcpOptions.ValueNormalises | rsdhcp/src/protocol/option.rs:179-493 | whatever payload decodes gives a value that can be encoded, in no more bytes |
| DhcpOptions.DecodeAddrsLoop | rsdhcp/src/protocol/option.rs:395-414 | the chunk loop computes the address list the round trip is about |
| DhcpOptions.DecodePairsLoop | rsdhcp/src/protocol/option.rs:425-454 | the offset loop computes the list of address pairs |
| DhcpOptions.DecodeU16sLoop | rsdhcp/src/protocol/option.rs:307-322 | the chunk loop computes the list of 16-bit numbers |
| DhcpOptions.OptionRoundTrip | rsdhcp_macros/src/lib.rs:83-142 | reading back a written option gives it exactly when its payload has at most 255 bytes and its value is encodable; longer payloads are always misread |
| DhcpOptions.OptionNormalises | rsdhcp_macros/src/lib.rs:83-142 | an option that decodes keeps its code, re-encodes to no more payload, and decodes to the same option again |
| OptionArea.FromNetworkLoop | rsdhcp/src/protocol/packet.rs:414-453 | the cursor loop equals framing followed by decoding, errors included |
| OptionArea.ToNetworkLoop | rsdhcp/src/protocol/packet.rs:458-465 | the serialiser writes the options in order and one End |
| OptionArea.EncodedInOrder | rsdhcp/src/protocol/packet.rs:458-465 | the bytes of a list are those of its first option followed by those of the rest |
| OptionArea.ParseFramed | rsdhcp/src/protocol/packet.rs:414-453 | over pads, unknown codes, undecodable and good options the parser returns exactly the good ones in order, whatever follows End |
| OptionArea.AcceptsExactlyFramed | rsdhcp/src/protocol/packet.rs:414-453 | a non-empty area is accepted exactly when its framing reaches an End |
| OptionArea.RejectedExactly | rsdhcp/src/protocol/packet.rs:414-437 | a non-empty area is refused exactly when its elements break off before an End: as an early end before the length of an element, as malformed in its payload |
| OptionArea.AreaRoundTrip | rsdhcp/src/protocol/packet.rs:414-465 | a written list reads back, whatever bytes follow, exactly when every option is well-formed and none is Pad or End |
| OptionArea.FirstFound | rsdhcp/src/protocol/packet.rs:533-536 | the lookup finds the first option of a code, and nothing exactly when there is none |
| Overload.ToNetworkOverflow | rsdhcp/src/protocol/packet.rs:469-530 | the loop over byte buffers computes the first-fit packing, with option 52 and an End per used area |
| Overload.PackPartitions | rsdhcp/src/protocol/packet.rs:483-505 | options area, `file`, `sname` and the dropped options are order-preserving selections that together are the input, each option once |
| Overload.PackFirstFit | rsdhcp/src/protocol/packet.rs:486-504 | each option goes to the first of options area, `file` and `sname` where the bytes already sent there leave room for it, in numbers: with 4 bytes to spare within the limit, with one byte to spare within 128 and 64, fields only if they may be used |
| Overload.FirstFitIsPack | rsdhcp/src/protocol/packet.rs:486-504 | that determines the packing: any split of the list that obeys it is the one computed |
| Overload.PackedSizes | rsdhcp/src/protocol/packet.rs:475-498 | the options area with Overload and End stays within the limit, the copies within 128 and 64 bytes, and only in fields that may be used |
| Overload.PackMaximal | rsdhcp/src/protocol/packet.rs:486-504 | no option moved or dropped would have fitted where it was passed over: its length and 4 over the limit for the options area as it ends up, and its length and 1 over 128 for `file` and over 64 for `sname`, if those may be used |
| Overload.PackerRefinesPlain | rsdhcp/src/protocol/packet.rs:458-530 | the result is the plain serialisation without field data exactly when the list is empty or its size plus 4 fits the limit |
| Overload.ReserveSplits | rsdhcp/src/protocol/packet.rs:486-489 | a list that fits the limit with its End but not with 4 more bytes is split or shortened |
| Overload.ReserveSplitsTwo | rsdhcp/src/protocol/packet.rs:213-218 | at the smallest limit, 336 bytes, two options of 333 bytes are split |
| Overload.OverloadRoundTrip | rsdhcp/src/protocol/packet.rs:469-530 | whatever the fields held, a client that follows option 52 reads back exactly the packed options of the three areas, in order, plus Overload, if and only if those options can be carried and the first option 52 among them names the fields in use |
| Overload.PackedDeliverable | rsdhcp/src/protocol/packet.rs:508-516 | that is so for every list of options that can be carried, with no Overload among them, at any limits |
| Packet.FromNetwork | rsdhcp/src/protocol/packet.rs:170-205 | the packet reader: too short, wrong cookie, bad options, or the header fields with the parsed options |
| Packet.ToNetwork | rsdhcp/src/protocol/packet.rs:208-260 | the packet writer: header, overlaid fields, padded options |
| Packet.AcceptedExactly | rsdhcp/src/protocol/packet.rs:170-205 | a datagram is accepted exactly when it has 240 bytes, the cookie, and nothing else or a framed area; the error tells a short one from a wrong cookie |
| Packet.DecodedLayout | rsdhcp/src/protocol/packet.rs:178-204 | what is read of an accepted datagram, byte by byte: every header field at its offset in network order, and the options of its area |
| Packet.EncodedLayout | rsdhcp/src/protocol/packet.rs:233-258 | what is written for any packet, byte by byte: every header field at its offset in network order, the cookie, the options area, zeros to 300 bytes |
| Packet.ImageAreas | rsdhcp/src/protocol/packet.rs:211-231 | without a size limit the three areas hold the options and the own bytes of the fields; with one, the first-fit packing within the larger of it and 576, copied over the start of the fields that begin with a zero |
| Datagrams.DiscoverRead | rsdhcp/src/protocol/packet.rs:170-205 | a discover of 259 bytes with a pad, an unknown option and bytes after the End is read as the packet it says |
| Datagrams.OfferWritten | rsdhcp/src/protocol/packet.rs:208-260 | the 300 bytes written for an offer of 192.168.0.10 |
| Packet.DecodedIsWellFormed | rsdhcp/src/protocol/enums.rs:12-168 | an accepted packet holds no Unknown operation or hardware type with a named code, and only options that can be carried |
| Packet.PacketRoundTrip | rsdhcp/src/protocol/packet.rs:170-260 | a packet reads back identical, size limit aside, exactly when its enumerations, cookie and options are well-formed and there is no limit, no option, or room for all options and 4 bytes in the options area |
| Packet.DecodeEncodeStable | rsdhcp/src/protocol/packet.rs:170-260 | for every accepted byte string, decoding the re-encoded packet gives the identical packet, and so the same message type and client state |
| Packet.EncodedSize | rsdhcp/src/protocol/packet.rs:208-260 | every encoded packet has at least 300 bytes, and at most max(m, 576) when the client limit is m |
| Packet.ClientReadsEncoded | rsdhcp/src/protocol/packet.rs:208-260 | an overload-aware client reads from an encoded packet its header fields and exactly the delivered options, whenever those can be carried and option 52 names the fields in use |
| Reply.FindMessageType | rsdhcp/src/protocol/packet.rs:263-270 | the search loop finds the value of the first option 53 |
| Reply.ClassificationExact | rsdhcp/src/protocol/packet.rs:273-318 | a request is selecting, init-reboot, renewing or rebinding exactly by options 54 and 50, `ciaddr`, relay and broadcast as section 4.3.2 of RFC 2131 tells them apart, and never two of them |
| Reply.Response | rsdhcp/src/protocol/packet.rs:46-123 | the response built field by field and push by push is the specified one |
| Reply.ResponseWellFormed | rsdhcp/src/protocol/packet.rs:46-123 | the response to an accepted discover, request or inform can be carried unchanged if the lease's options can |
| Reply.ResponseRead | rsdhcp/src/protocol/packet.rs:46-123 | what the client reads of any response, to the last field and option: the header, the options of the answer in order and then those of the lease; without option 57 all of them, with it those of first fit within its size |
| Reply.LeaseOptionRead | rsdhcp/src/protocol/packet.rs:118-120 | without option 57 the client finds under every code but 1, 51, 53, 54 and 61 what the lease has |
| Reply.OptionReadOrUnfit | rsdhcp/src/protocol/packet.rs:118-120 | with option 57 each option of the answer is read, or its length is over what the final layout leaves in each of the three areas, in numbers |
| Reply.MandatorySurvive | rsdhcp/src/protocol/packet.rs:78-116 | message type, server id, lease time, subnet mask and echoed client id stand first in the options area, never moved or dropped, whatever size option 57 asks for |
| Reply.NakReply | rsdhcp/src/protocol/packet.rs:127-166 | the negative acknowledgement built field by field is the specified one |
| Reply.NakReadBack | rsdhcp/src/protocol/packet.rs:127-166 | what the client reads of a NAK: every header field, message type and client id and no other option; relayed ones carry the broadcast flag and go to port 67 of the relay, others to port 68 of everyone |
| DomainNames.DomainNameListCompression | rsdhcp/src/util.rs:3-61 | the nested loops over buffer and two tables compute the specified output whenever the conversions do not panic |
| DomainNames.CompressName | rsdhcp/src/util.rs:9-57 | the inner loop writes one name and records its new suffix offsets |
| DomainNames.CompressedHeard | rsdhcp/src/util.rs:9-60 | what the RFC 1035 decoder reads from any list whose labels have fewer than 192 bytes: unreadable with a label over 63 bytes, a name ended at each empty label, each pointer read at its offset modulo 2^14 |
| DomainNames.ShortListHeard | rsdhcp/src/util.rs:9-60 | with labels of at most 63 bytes and offsets below 2^14 that is determined by the names alone, and every recorded offset decodes to its suffix in the final buffer |
| DomainNames.PrefixRecorded | rsdhcp/src/util.rs:11-57 | the offsets recorded by the first names of a list decode to their suffixes in the final buffer, whatever names follow |
| DomainNames.CompressedReads | rsdhcp/src/util.rs:9-60 | for well-formed names that is the labels of the listed names, one name each |
| Datagrams.SearchListWritten | rsdhcp/src/util.rs:3-61 | the nine bytes written for "a.b" and "c.b" |
| DomainNames.TextRoundTrip | rsdhcp/src/util.rs:3-61 | for every list that does not panic, the decoded names are the given ones exactly when each is "." or dot-joined labels of 1 to 63 bytes and each pointer, at the 14 bits written, reads as the suffix it stands for |
| DomainNames.ShortPointersRead | rsdhcp/src/util.rs:20-26 | the latter always holds while every offset used is below 2^14 |
| SuffixSharing.TableKeys | rsdhcp/src/util.rs:11-57 | the table holds exactly the suffixes of the names so far and is suffix-closed |
| SuffixSharing.SuffixOptimal | rsdhcp/src/util.rs:10-57 | a pointer replaces the longest suffix that an earlier name ends in, and goes before the name |
| SuffixSharing.NeverLonger | rsdhcp/src/util.rs:9-60 | output is never longer than the plain encoding and shorter exactly when a pointer is used |
| MisreadNames.EmptyRecorded | rsdhcp/src/util.rs:29-55 | the empty suffix is recorded exactly once some name is empty or ends in one dot |
| MisreadNames.TrailingDot | rsdhcp/src/util.rs:29-55 | anywhere in a list, what is read in the bytes of a name with a trailing dot is the name and the root when no earlier name is empty or ends in one dot, and one name otherwise, the given one while the offsets used fit a pointer |
| MisreadNames.TwoTrailingDots | rsdhcp/src/util.rs:29-55 | two names with trailing dots read back as the first, the root, and the second |
| MisreadNames.LateSuffixMisread | rsdhcp/src/util.rs:20-26 | a new name written past 2^14 bytes and written again does not panic and reads back the second time as the suffix recorded at the same offset modulo 2^14 |
| MisreadNames.MisreadList | rsdhcp/src/util.rs:20-26 | a list of 258 well-formed names that reads back with a wrong last name |
| DomainNames.PrefixStable | rsdhcp/src/util.rs:9-60 | compressing the first names gives a prefix of the bytes |
| DomainNames.ShortOutputFits | rsdhcp/src/util.rs:22-24 | no offset used reaches the length of the output |
| Fqdns.Fmt | rsdhcp/src/protocol/option.rs:211-250 | the display loop stays in bounds and ends on arbitrary bytes, printing what the specification says |
| Fqdns.Utf8Exact | rsdhcp/src/protocol/option.rs:211-240 | the text test accepts exactly the octets of characters as section 3 of RFC 3629 writes them |
| Fqdns.DisplayExact | rsdhcp/src/protocol/option.rs:211-240 | what is printed of any option: with bit 2 of the flags its labels, each with a dot, up to the first that is empty, cut short or no text; else all of it if it is text |
| Fqdns.DisplayOfEncoded | rsdhcp/src/protocol/option.rs:211-240 | the encoding of a non-root UTF-8 name prints as the name with a final dot |
| Store.ProcessParams | rsdhcp/src/backends/memory.rs:354-378 | the loop over requested codes computes the options added to a lease |
| Store.NetmasksAre | rsdhcp/src/backends/memory.rs:152 | the netmasks a discover does not panic on are the 33 of leading ones, one by one |
| StoreRuns.DiscoverGets | rsdhcp/src/backends/memory.rs:157-168 | the lease a discover is given carries exactly the configured values of the codes in its option 55, or of 1, 3 and 6 if that is missing or empty, in the order asked for |
| StoreRuns.AnswerExact | rsdhcp/src/backends/memory.rs:354-378 | of those options, the one found under a code is the configured router, name servers, domain or search list exactly when the code was asked for and the configuration has a value for it |
| StoreRuns.SearchListReadBack | rsdhcp/src/backends/memory.rs:368-372 | the search list in option 119 of a lease reads back as the configured names exactly when they are well-formed |
| Store.Memory.GetUnusedIpAddr | rsdhcp/src/backends/memory.rs:39-49 | the first address of the half-open scope without a lease |
| Store.Memory.GetExpiredLeaseIpAddr | rsdhcp/src/backends/memory.rs:51-60 | some expired address in map order, none only if all leases are current |
| Store.Memory.GetLeaseForXid | rsdhcp/src/backends/memory.rs:62-71 | some lease of the transaction, none only if there is none |
| Store.Memory.Discover | rsdhcp/src/backends/memory.rs:135-172 | the new store and answer of a discover |
| Store.Memory.Selecting | rsdhcp/src/backends/memory.rs:174-205 | the answer to a selecting request |
| Store.Memory.InitReboot | rsdhcp/src/backends/memory.rs:207-274 | the new store and answer of init-reboot, all error branches included |
| Store.Memory.Renewing | rsdhcp/src/backends/memory.rs:276-312 | the new store and answer of a renewal |
| Store.Memory.Release | rsdhcp/src/backends/memory.rs:323-328 | the new store after a release |
| Store.Memory.Decline | rsdhcp/src/backends/memory.rs:330-341 | the new store after a decline |
| StoreRuns.SelectionExact | rsdhcp/src/backends/memory.rs:174-205 | a selection is answered with the lease of the address in option 50, unchanged, exactly when it is held under the transaction of the request |
| StoreRuns.RenewalExact | rsdhcp/src/backends/memory.rs:276-312 | a renewal starts anew the lease of the address in option 50, or else in `ciaddr`, whoever holds it; which error it ends in otherwise |
| StoreRuns.RebootExact | rsdhcp/src/backends/memory.rs:207-274 | init-reboot starts anew the lease of the address in option 50 exactly when that lease carries a subnet mask option other than 0, and changes nothing otherwise |
| StoreRuns.RunInv | rsdhcp/src/backends/memory.rs:135-341 | in every run each lease is keyed by its own address, in the scope, and no newer than the clock |
| StoreRuns.Tenancy | rsdhcp/src/backends/memory.rs:135-341 | while a stored lease is current, renewals included, and no release of its address or decline of its transaction arrives, it stays, keeps its transaction, never expires earlier, and no discover gets its address |
| StoreRuns.NoDoubleOffer | rsdhcp/src/backends/memory.rs:135-172 | two discovers get one address only if in between a call found the first lease, as last renewed, expired, or a message gave it up; the second never takes a current lease |
| StoreRuns.OfferIsHonoured | rsdhcp/src/backends/memory.rs:174-205 | a selecting request for the offered address and transaction is granted unless the lease had expired for an earlier call or a message gave it up |
| StoreRuns.SelectingRestsOnOffer | rsdhcp/src/backends/memory.rs:174-205 | a granted selecting request rests on an earlier discover of the transaction that got the address |
| StoreRuns.Allocation | rsdhcp/src/backends/memory.rs:39-49 | without removals the discovers of a fresh store get the scope's addresses in order, whatever comes between |
| StoreRuns.Exhaustion | rsdhcp/src/backends/memory.rs:141-147 | a reachable store never exceeds the pool, and discover fails exactly when it is full and all leases are current |
| StoreRuns.InitRebootNeverSucceeds | rsdhcp/src/backends/memory.rs:238-258 | on every reachable store init-reboot fails and changes nothing |
| Interleaving.TraceSafe | rsdhcp/src/backends/memory.rs:38-92 | in every lock-level interleaving each stored, held or answered lease is keyed by its own address, in the scope, with the transaction of a discover that was answered with it, or in a discover's own hands, chose it |
| Interleaving.SelectingRestsOnAnswer | rsdhcp/src/backends/memory.rs:174-205 | in every interleaving a granted selecting request rests on an earlier discover of that transaction that was answered with the address |
| Interleaving.InterleavedTenancy | rsdhcp/src/backends/memory.rs:38-92 | a lease that no handler is about to overwrite for another transaction or to remove keeps its address and transaction in every interleaving while it is current and no message gives it up; no search chooses the address |
| Interleaving.TakeoverExact | rsdhcp/src/backends/memory.rs:81-86 | a current lease keeps its transaction in every continuation in which it stays current and is not removed exactly when no handler is about to store a lease of another transaction for its address |
| Interleaving.RacingDiscovers | rsdhcp/src/backends/memory.rs:141-170 | any two concurrent discovers can be answered with one address, for any non-empty scope |
| Interleaving.DiscoversOverlap | rsdhcp/src/backends/memory.rs:141-170 | two discovers answered with one address, while its lease stays current and is not removed, overlap: the second search settled on it before the first lease was stored |
| Interleaving.SoloIsStep | rsdhcp/src/backends/memory.rs:38-341 | a handler running undisturbed through its lock steps does what the sequential handler may do |
| Interleaving.StepIsSolo | rsdhcp/src/backends/memory.rs:38-341 | every sequential call is such an undisturbed passage |
| Server.ProcessPacketData | rsdhcp/src/server.rs:197-336 | what one datagram does to the store and what is sent |
| Server.OfferEndToEnd | rsdhcp/src/server.rs:205-336 | whatever is sent for a discover reads back as an offer, to the last header field and option: the client's identity, this server's id, mask, one hour, the address, and then the options asked for; without a size limit each code it asked for gives what the configuration has, and no other code, beside those of the answer itself, gives anything. The address is the first unused one or an expired one, the store holds its lease for that transaction, and the size asked for is kept |
| Server.AckEndToEnd | rsdhcp/src/server.rs:205-336 | whatever is sent for a request reads back as an acknowledgement of a held lease, to the last header field and option, its own options included: the selected one unchanged, or the renewed one with its start moved |
| Server.RequestAnswered | rsdhcp/src/server.rs:246-336 | a request is answered exactly when option 54 is this server or missing and it has the selecting shape for an address held under its transaction, or the renewing or rebinding shape from any held address (shapes of section 4.3.2 of RFC 2131, which exclude each other); only the latter changes the store, and the lease starts anew; the answer goes to port 67 of the relay, else to port 68 of the client or everyone |
| Server.DiscoverAnswered | rsdhcp/src/server.rs:262-336 | a discover gets an address exactly when option 54 is this server or missing, the pool has an unused one or a lease an hour old, and the lease can be made; it is answered exactly when that address has a destination: always, when 0.0.0.0 is outside the scope |
| Server.OtherServerIgnored | rsdhcp/src/server.rs:215-220 | a datagram with another server in option 54 changes nothing and is not answered |
| Server.OthersIgnored | rsdhcp/src/server.rs:197-260 | an unreadable datagram, or one that is no discover, request, release or decline, changes nothing and is not answered |
| Sessions.SessionInv | rsdhcp/src/server.rs:197-336 | every session of datagrams keeps the store invariant |
| Sessions.OtherServersMessage | rsdhcp/src/server.rs:215-220 | the same at any place of any session |
| Sessions.SessionTenancy | rsdhcp/src/server.rs:197-336 | while a lease is current, renewals included, and no datagram gives it up, the store holds it and no client reads an offer of its address |
| Sessions.OffersApart | rsdhcp/src/server.rs:197-336 | two clients read offers of one address only if in between a datagram found the first lease, as last renewed, expired, or gave it up |
| Sessions.OfferThenAcknowledge | rsdhcp/src/server.rs:197-336 | a client that selects the offer it read reads an acknowledgement of that address, unless the lease had expired for an earlier datagram or one gave it up |
| Sessions.ReleaseExact | rsdhcp/src/backends/memory.rs:323-328 | in every session a release that names no other server takes away exactly the lease of its `yiaddr`, whoever sends it; with `yiaddr` 0 outside the scope nothing changes |
| Sessions.DeclineExact | rsdhcp/src/backends/memory.rs:330-341 | in every session a decline that names no other server takes away one lease of its transaction or nothing: the declined address if it has the only one, never one leased under another transaction |
| Scenarios.UnsentOffer | rsdhcp/src/server.rs:364-415 | a session in which a discover is given 0.0.0.0 and nothing is sent |
| Scenarios.ReleasedLeaseStays | rsdhcp/src/backends/memory.rs:323-328 | a session in which a client releases its address as RFC 2131 has it and the lease stays |
| Scenarios.StrangerReleases | rsdhcp/src/backends/memory.rs:323-328 | a session in which another client releases a current lease |
| Scenarios.StrangerRenews | rsdhcp/src/backends/memory.rs:276-312 | a session in which another client reads an acknowledgement of an expired address and revives the lease |
| Scenarios.DeclinedAddressReturns | rsdhcp/src/backends/memory.rs:330-341 | a session in which a declined address is offered to the next client |
| WireInterleaving.GrantsReadBack | rsdhcp/src/server.rs:189-336 | in every interleaving of datagram tasks, whatever lease one is answered with reads back as an offer or acknowledgement of an address of the scope with the client's identity and this server's id |
| WireInterleaving.AcknowledgeRestsOnOffer | rsdhcp/src/server.rs:189-336 | in every interleaving a selecting client reads an acknowledgement only after a discover of its transaction was answered with what reads as an offer of that address |
| WireInterleaving.RacingOffers | rsdhcp/src/backends/memory.rs:141-170 | an interleaving of datagram tasks in which two concurrent discovers both read as offers of the first address of the scope, and both are sent unless that is 0.0.0.0 |

## Left out

- Sockets, interface enumeration, packet-info control messages, tasks and logging: input and output only.
- The netbox backend (`rsdhcp/src/backends/netbox.rs`): its store is a remote service that is not part of this model.
- Configuration loading, start-up and error wrapping; the derive macro's token handling (its generated code is modelled).
- Printing of packets, option names and hardware addresses.
- The network type of the ipnet crate is not part of this model: a network is an address and a netmask, and the netmask check is stated as ones followed by zeros.
- Packet.ClientReadsEncoded: says nothing of packets whose delivered options cannot be carried or whose option 52 names other fields; for those `Overload.OverloadRoundTrip` shows that some field contents are misread.
- DomainNames.CompressedHeard: assumes labels of fewer than 192 bytes; the length byte of a longer one reads as the start of a pointer, and what follows it is read out of step.
- MisreadNames.TrailingDot: assumes the same.
- Server.OfferEndToEnd: assumes a configuration whose options fit their length byte; a longer list is written with a wrong length.
- Store.Memory.Discover: the sequential model reads the clock once per call; the interleaved model lets it advance between all steps.
- Sessions.SessionTenancy: whether a lease is current is told by the lease the store then holds, and a decline counts as giving up every lease of its transaction although it removes only one.
