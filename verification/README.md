# Verified model of shadowsocks-rust with realm traversal

A Dafny model of the stateful and byte-level core of this proxy, with proofs of what that core
promises over whole runs and arbitrary inputs. `dafny verify dfyconfig.toml` checks everything.

The parts, by file:

| file | models |
|---|---|
| `PacketWindow.dfy` | the sliding packet-id window: a ring of 128 words, cleared lazily (the scheme of section 2 of RFC 6479) |
| `UdpAssociation.dfy` | one UDP association: replay window, reply counter, keep-alive flag |
| `UdpServer.dfy` | the UDP server: NAT map, inboxes, keep-alive channel, associations as interleaved tasks |
| `SubDomainsTree.dfy` | the pruned label tree behind `\|\|domain` rules |
| `HostRules.dfy` | the rewrite of regular-expression rules into name and sub-domain rules; host matching |
| `AccessControl.dfy` | the bypass and outbound decisions |
| `ReverseLookup.dfy` | the cache of exceptions to the access-control list |
| `PunchCodec.dfy`, `PunchProtocol.dfy` | HYRLMv1 packets; two peers punching over an unreliable network |
| `Rendezvous.dfy`, `RealmSession.dfy` | the rendezvous server's handlers; keys from client to server and on to the punch |
| `Sse.dfy`, `SseCuts.dfy`, `Utf8.dfy` | the event-stream reader, on text and on byte chunks; what a cut inside a character does |
| `Stun.dfy`, `StunDiscovery.dfy` | binding responses (RFC 5389, sections 6, 15, 15.1, 15.2); the discovery loop |
| `Control.dfy` | the control-stream framing |
| `Password.dfy` | passwords with extensible identity headers |
| `Bytes.dfy`, `Net.dfy`, `Text.dfy` | bytes and exclusive or, addresses, splitting and joining |

Objects that the program updates in place (`PacketWindowFilter`, `UdpAssociationContext`,
`ServiceContext`, the rule parser, the event buffer, `ServerConfig`) are classes whose methods are
proved against functions on values; the theorems are about those functions. Concurrent parts (the
UDP server, the rendezvous, the punch) are state machines: an event per atomic step, a run is any
sequence of enabled events, timeouts and evictions may happen at any time.

What libraries do enters as a parameter: SHA-256 is any function with 32-byte results, JSON and
regular-expression matching and name resolution are arbitrary functions, Base64 is any pair with
`decode(encode(k)) = k`, no colon in the output, and no text with a colon accepted.

## What the proofs show about the code

Some natural expectations hold only under a condition. In each case the code is modelled as it is,
a concrete failing input or run is constructed, and the condition is proved necessary and
sufficient.

- Rewriting a recognised regular expression keeps the matched hosts exactly when the rule starts
  with `(^|\.)`, `(?:^|\.)` or `^`, ends with `$`, and its name has no trailing dot. The recogniser
  also accepts `\.name`, `^.+\.name`, rules without `$` and names ending in a dot; those change
  meaning (`RewriteKeepsHostsIffExact`, `UnanchoredRuleIsNarrowed`).
- Between two sides with the same nonce and key, a punch that returns an address has proved
  reachability in both directions exactly when neither side is handed a candidate that leads back to
  itself (`SoundIffNoSelfTarget`, `SelfTargetMisleads`). With one key and a working candidate it can
  succeed exactly when both sides hold the same nonce (`CanConfirmIffSameNonce`).
- A side that returns from such a punch never leaves the other unable to confirm: the other still can
  exactly if its own deadline has not passed. It can pass: one side then returns an address and the
  other times out (`OtherCanStillConfirmIff`, `LostAcksStrand`).
- The two sides that a rendezvous brings together hold the same key exactly when no nonce is reused
  with another key (`KeysAgreeIffNonceFixesKey`). Keeping only the nonces in progress distinct does
  not change that: a late poll still hands out the event of a connect that is over
  (`ReusedNonceMisleads`, `DistinctLiveNoncesDoNotSuffice`).
- The "NatMap & NatKey mismatch" branch is unreachable exactly when control data reaches only
  servers keyed by session (`NeverPanicsIffControlFits`, `StrayControlPanics`).
- The packets of a UDP session are dispatched at most once exactly when the NAT map never drops the
  session's entry: the replay window goes with the association, and a dropped session starts over
  with an empty one (`ReplaySafeIffKept`, `DroppedSessionReplays`).
- A control message survives the stream exactly when it has at most 255 addresses and a body of at
  most 65536 bytes; the writer accepts any (`RoundTripIffCarried`, `LongOfferIsCut`).
- There is at most one binding per address family exactly when STUN servers answer in their own
  family (`OnePerFamilyIffSameFamilyAnswers`). The documentation of the discovery loop says that the
  ports within a family reveal the NAT's behaviour, and a warning depends on seeing two; with at
  most one binding per family there never are two (`PortSetNeverTwo`).
- Event-stream chunks are decoded one by one. The decoded text is that of the joined bytes exactly
  for chunks that end between characters (`PiecewiseIffComplete`). The event that the reader returns
  is unaffected, for every continuation and every JSON parser, exactly when the chunk ends between
  characters, or an event is already decided, or the line left open is neither an `event:` nor a
  `data:` line (`HarmlessCutIff`, `CutInsideDataShows`). On text, chunking is never visible.
- A domain with one resolved address is treated like that address exactly when unlisted traffic is
  proxied or the address is not in both lists (`SingleAddressAgreesIff`, `TwiceListedDisagrees`).
- A recorded reverse-lookup verdict is honoured exactly when there is an access-control list or the
  verdict is to forward (`RecordHonouredIff`, `UnlistedVerdictIsLost`).
- A refused `set_method` keeps the old keys under the new method. The configuration then still
  matches its own exported password exactly when both AEAD-2022 methods have one key length and the
  new one supports identity headers or there are no identity keys; coming from an older method,
  exactly when the password decodes to the stored key and that key has the new length (`SetMethod`,
  `RefusedSwitches`).

## Model

| member | source | states |
|---|---|---|
| `PacketWindow.PacketWindowFilter.constructor` | crates/shadowsocks-service/src/net/packet_window.rs:31-36 | a new filter stands for the empty set of ids |
| `PacketWindow.PacketWindowFilter.Reset` | crates/shadowsocks-service/src/net/packet_window.rs:39-42 | clearing one word of the ring is enough to stand for the empty set |
| `PacketWindow.PacketWindowFilter.MoveForward` | crates/shadowsocks-service/src/net/packet_window.rs:53-66 | the clearing loop over at most 128 blocks computes the advanced window |
| `PacketWindow.PacketWindowFilter.ValidatePacketId` | crates/shadowsocks-service/src/net/packet_window.rs:47-79 | the answer is membership of the admitted ids over the set accepted so far, which grows by exactly the accepted id |
| `PacketWindow.ClearReaches` | crates/shadowsocks-service/src/net/packet_window.rs:56-65 | every block newly entered reads zero, also when the jump is longer than the ring |
| `PacketWindow.AdvanceRepresents` | crates/shadowsocks-service/src/net/packet_window.rs:53-66 | moving forward loses no accepted id that is still in the window and revives no stale one |
| `PacketWindow.MarkAddsOne` | crates/shadowsocks-service/src/net/packet_window.rs:72-78 | setting a bit adds exactly one id of the window |
| `PacketWindow.ValidateRefines` | crates/shadowsocks-service/src/net/packet_window.rs:47-79 | one call on the ring refines one step of a plain set of ids |
| `PacketWindow.RunMeansSet` | crates/shadowsocks-service/src/net/packet_window.rs:47-79 | every run from any represented state answers as the plain set does |
| `PacketWindow.WindowIsExact` | crates/shadowsocks-service/src/net/packet_window.rs:44-79 | call i of any run says yes iff its id is below the limit, at most 8128 behind the largest accepted id, and not accepted before |
| `PacketWindow.AcceptedAtMostOnce` | crates/shadowsocks-service/src/net/packet_window.rs:44-79 | no id is accepted twice in any run |
| `PacketWindow.ResetRepresents` | crates/shadowsocks-service/src/net/packet_window.rs:38-42 | a reset filter stands for the empty set whatever the other 127 words hold |
| `PacketWindow.SameSetSameAnswers` | crates/shadowsocks-service/src/net/packet_window.rs:47-79 | filters with different rings but the same set answer every later run alike |
| `PacketWindow.ResetBehavesAsNew` | crates/shadowsocks-service/src/net/packet_window.rs:38-42 | after any history and a reset, every run is answered as by a new filter |
| `UdpAssociation.UdpAssociationContext.constructor` | crates/shadowsocks-service/src/server/udprelay.rs:473-501 | a new association, with a fresh window if it belongs to a session |
| `UdpAssociation.UdpAssociationContext.DispatchReceivedPacket` | crates/shadowsocks-service/src/server/udprelay.rs:589-650 | new peer address, ACL, session creation, window check and user, as the step function says, with the window object updated in place |
| `UdpAssociation.UdpAssociationContext.SendReceivedRespondPacket` | crates/shadowsocks-service/src/server/udprelay.rs:729-818 | plain reply, numbered session reply, or none once the counter is used up |
| `UdpAssociation.UdpAssociationContext.KeepaliveTick` | crates/shadowsocks-service/src/server/udprelay.rs:552-568 | the key sent is that of the session, or else of the peer; the flag falls only if the channel took it |
| `UdpAssociation.PacketKeepsInv` | crates/shadowsocks-service/src/server/udprelay.rs:622-641 | the window keeps standing for exactly the dispatched ids |
| `UdpAssociation.LiveAllKeepsInv` | crates/shadowsocks-service/src/server/udprelay.rs:503-570 | the association's invariant holds after any interleaving of packets, replies and ticks |
| `UdpAssociation.NoIdDispatchedTwice` | crates/shadowsocks-service/src/server/udprelay.rs:622-641 | in every life of an association no client packet id is dispatched twice |
| `UdpAssociation.DispatchedIffAdmitted` | crates/shadowsocks-service/src/server/udprelay.rs:614-641 | after any history an unblocked packet is dispatched iff its id is fresh, in the window and not 2^64-1 |
| `UdpAssociation.RepliesCountFromOne` | crates/shadowsocks-service/src/server/udprelay.rs:764-793 | session replies are numbered 1, 2, 3, .. in every life, never wrapping |
| `UdpAssociation.ForwardedExactly` | crates/shadowsocks-service/src/server/udprelay.rs:614-660 | in every life of every association the packets handed on are exactly those not blocked and, if they carry an id, fresh and within the window of the ids handed on before |
| `UdpAssociation.SessionRepliesExactly` | crates/shadowsocks-service/src/server/udprelay.rs:552-793 | the whole list of replies of a session over any life: one per datagram that comes back, to the client's latest address, numbered from 1, for the user of the latest packet handed on; and its keys |
| `UdpAssociation.SessionFollowsItsClient` | crates/shadowsocks-service/src/server/udprelay.rs:552-604 | replies go to the latest peer address of the session; the keep-alive flag means an unreported reply |
| `UdpAssociation.RefusedPacketCanBeResent` | crates/shadowsocks-service/src/server/udprelay.rs:614-637 | a packet refused by the ACL is not dispatched and does not use up its id |
| `UdpAssociation.PlainAssociationServesOnePeer` | crates/shadowsocks-service/src/server/udprelay.rs:552-763 | without control data an association hands on exactly the packets that are not blocked, in order, sends its first peer one reply per datagram that comes back, and reports that peer's key once per tick that finds a reply unreported |
| `UdpAssociation.ReplyNamesLatestUser` | crates/shadowsocks-service/src/server/udprelay.rs:638-793 | the reply after a dispatched packet carries its user and the next number |
| `UdpServer.SendPacketOk` | crates/shadowsocks-service/src/server/udprelay.rs:312-373 | a packet is queued only at an association created for its own address or session |
| `UdpServer.PacketReachesItsAssociation` | crates/shadowsocks-service/src/server/udprelay.rs:312-420 | a packet is appended to its own association's inbox, created on demand with its life, unless that is full; a session server drops packets without control data; nothing else is touched |
| `UdpServer.TickOk` | crates/shadowsocks-service/src/server/udprelay.rs:552-568 | a key enters the bounded channel only as the key of its sender |
| `UdpServer.KeepAliveKeysFit` | crates/shadowsocks-service/src/server/udprelay.rs:63-75 | in every run each key in the channel fits the map and names its sender's own entry; no panic |
| `UdpServer.EveryAssociationKeepsItsPromises` | crates/shadowsocks-service/src/server/udprelay.rs:227-269 | in every run of the server, with evictions, every association ever created dispatches no id twice and numbers its replies from 1, also those that ended |
| `UdpServer.LivesOnItsPackets` | crates/shadowsocks-service/src/server/udprelay.rs:227-420 | from any state on an association lives the life of the steps taken for it and handles the packets queued for it first in, first out |
| `UdpServer.EveryLifeIsItsOwn` | crates/shadowsocks-service/src/server/udprelay.rs:312-420 | every association was created by one packet, the first in its inbox, and has lived on the packets queued for it since |
| `UdpServer.BeatsInOrder` | crates/shadowsocks-service/src/server/udprelay.rs:63-75 | keys leave the keep-alive channel in the order they were put in, none lost |
| `UdpServer.KeptSessionIsReplaySafe` | crates/shadowsocks-service/src/server/udprelay.rs:331-369 | in every run that never drops a session's entry, no packet id of the session is dispatched twice, over all associations |
| `UdpServer.DroppedSessionReplays` | crates/shadowsocks-service/src/server/udprelay.rs:346-369 | the run in which a packet sent again after its session's entry was dropped is dispatched again |
| `UdpServer.ReplaySafeIffKept` | crates/shadowsocks-service/src/server/udprelay.rs:97-107 | at most one dispatch per session and packet id in all runs iff the session's entry is never dropped |
| `UdpServer.StrayControlPanics` | crates/shadowsocks-service/src/server/udprelay.rs:63-75 | the run that reaches the mismatch branch when an address-keyed server is given control data |
| `UdpServer.NeverPanicsIffControlFits` | crates/shadowsocks-service/src/server/udprelay.rs:63-75 | the mismatch branch is unreachable iff control data reaches only session-keyed servers |
| `SubDomainsTree.Descend` | crates/shadowsocks-service/src/acl/sub_domains_tree.rs:35-48 | the walk down stops early exactly where an insertion changes nothing |
| `SubDomainsTree.Rebuild` | crates/shadowsocks-service/src/acl/sub_domains_tree.rs:49-53 | the last node becomes included and loses its children |
| `SubDomainsTree.DomainTree.Insert` | crates/shadowsocks-service/src/acl/sub_domains_tree.rs:35-54 | the tree becomes the one for the rules so far and the lowercased new rule |
| `SubDomainsTree.DomainTree.Contains` | crates/shadowsocks-service/src/acl/sub_domains_tree.rs:56-69 | true iff some inserted rule's labels are the last labels of the value |
| `SubDomainsTree.DomainTree.IsEmpty` | crates/shadowsocks-service/src/acl/sub_domains_tree.rs:71-73 | true iff nothing was inserted |
| `SubDomainsTree.InsertedCovers` | crates/shadowsocks-service/src/acl/sub_domains_tree.rs:35-54 | one insertion adds exactly the new rule and its sub-domains to what is covered |
| `SubDomainsTree.InsertAllPruned` | crates/shadowsocks-service/src/acl/sub_domains_tree.rs:42-53 | after any insertions included nodes have no children and childless nodes are included |
| `SubDomainsTree.CoversIffSomeRule` | crates/shadowsocks-service/src/acl/sub_domains_tree.rs:35-69 | after any insertions, early returns and pruning included, a path is covered iff some inserted rule is a prefix of it |
| `SubDomainsTree.IncludedIffMinimalRule` | crates/shadowsocks-service/src/acl/sub_domains_tree.rs:35-54 | the included nodes are exactly the minimal inserted rules |
| `Text.PiecesPrefixIffSuffix` | crates/shadowsocks-service/src/acl/sub_domains_tree.rs:38-58 | label-wise suffix matching is string equality or ending with a dot and the rule |
| `HostRules.RecogniseIffShown` | crates/shadowsocks-service/src/acl/mod.rs:193-200 | the recogniser accepts exactly the texts of the listed shapes, with the name it captures |
| `HostRules.OneCharacterRules` | crates/shadowsocks-service/src/acl/mod.rs:192-201 | which characters a recognised name may have |
| `HostRules.RewriteKeepsHostsIffExact` | crates/shadowsocks-service/src/acl/mod.rs:192-229 | the rewritten rule matches the same hosts as the regular expression iff the rule is anchored on both sides and has no trailing dot |
| `HostRules.UnanchoredRuleIsNarrowed` | crates/shadowsocks-service/src/acl/mod.rs:211-218 | the rule `^a\.b` is rewritten and no longer matches `a.bx` |
| `HostRules.AddedMatches` | crates/shadowsocks-service/src/acl/mod.rs:192-229 | adding a rule extends the matched hosts of any rule set by exactly the hosts of that rule |
| `HostRules.RewriteInvisibleIff` | crates/shadowsocks-service/src/acl/mod.rs:192-229 | no rule set and no host can tell that a rule was rewritten iff the rule is unrecognised or exact |
| `HostRules.ParsingRules.AddRegexRule` | crates/shadowsocks-service/src/acl/mod.rs:192-264 | the rule goes to the name set, the label tree or the list of expressions |
| `HostRules.ParsingRules.CheckHostMatched` | crates/shadowsocks-service/src/acl/mod.rs:143-146 | the three indexes together decide what the plain lists of rules decide |
| `AccessControl.MappedFormMatchesAlike` | crates/shadowsocks-service/src/acl/mod.rs:118-140 | an IPv4 address and its IPv4-mapped form match the same rules |
| `AccessControl.PrefixesNest` | crates/shadowsocks-service/src/acl/mod.rs:118-124 | networks hold what their prefixes say: one address, all addresses, and nested networks |
| `AccessControl.InPrefixIffSameBlock` | crates/shadowsocks-service/src/acl/mod.rs:118-140 | an address is in a network iff it lies in the same block of the network's size |
| `AccessControl.NetworkAdded` | crates/shadowsocks-service/src/acl/mod.rs:118-140 | one more network matches exactly its block, in IPv4 and in IPv4-mapped form |
| `AccessControl.CheckTargetBypassed` | crates/shadowsocks-service/src/acl/mod.rs:555-587 | the decision, shortcut for empty lists and loop with early return included |
| `AccessControl.CheckOutboundBlocked` | crates/shadowsocks-service/src/acl/mod.rs:607-646 | likewise for outbound addresses |
| `AccessControl.ProxyHostRule` | crates/shadowsocks-service/src/acl/mod.rs:494-587 | a matching host rule on the proxy list proxies the host, whatever else; another changes nothing |
| `AccessControl.BypassHostRule` | crates/shadowsocks-service/src/acl/mod.rs:494-587 | a matching host rule on the bypass list bypasses the host iff the proxy list does not match it; another changes nothing |
| `AccessControl.OutboundHostRules` | crates/shadowsocks-service/src/acl/mod.rs:607-659 | the same for outbound traffic, where the block list wins |
| `AccessControl.NetworkRules` | crates/shadowsocks-service/src/acl/mod.rs:519-553 | a network on the bypass list bypasses its addresses, one on the proxy list those not matched by the bypass list; other addresses keep their answer |
| `AccessControl.OutboundNetworkRules` | crates/shadowsocks-service/src/acl/mod.rs:607-659 | the same for outbound traffic |
| `AccessControl.ModeIsDefault` | crates/shadowsocks-service/src/acl/mod.rs:519-659 | without rules the mode decides, for addresses and domains |
| `AccessControl.AnyMatched` | crates/shadowsocks-service/src/acl/mod.rs:575-582 | the loop finds a matching resolved address iff there is one |
| `AccessControl.DecisionIgnoresOrder` | crates/shadowsocks-service/src/acl/mod.rs:575-586 | the decision for a domain depends only on the set of its addresses |
| `AccessControl.SingleAddressAgreesIff` | crates/shadowsocks-service/src/acl/mod.rs:519-587 | domain and single resolved address agree iff the mode is BlackList or the address is not in both lists |
| `AccessControl.SingleOutboundAgreesIff` | crates/shadowsocks-service/src/acl/mod.rs:607-659 | the same for outbound traffic |
| `AccessControl.TwiceListedDisagrees` | crates/shadowsocks-service/src/acl/mod.rs:519-659 | one address in both lists, unlisted traffic bypassed: the address is bypassed and its domain is not; the same for outbound traffic |
| `AccessControl.DomainAgainstAddresses` | crates/shadowsocks-service/src/acl/mod.rs:555-587 | a domain against any number of addresses: some bypassed, or all bypassed with its exact exception |
| `ReverseLookup.ServiceContext.CheckTargetBypassed` | crates/shadowsocks-service/src/local/context.rs:156-175 | with a list, the answer for an address is the opposite of its last verdict |
| `ReverseLookup.ServiceContext.AddToReverseLookupCache` | crates/shadowsocks-service/src/local/context.rs:179-202 | insert, overwrite or remove, so that only exceptions are kept |
| `ReverseLookup.ServiceContext.DropEntry` | crates/shadowsocks-service/src/local/context.rs:71-74 | the cache may lose any entry at any time |
| `ReverseLookup.CacheHoldsOnlyExceptions` | crates/shadowsocks-service/src/local/context.rs:179-202 | after any records and evictions every entry contradicts the list |
| `ReverseLookup.AnswerFollowsLastRecord` | crates/shadowsocks-service/src/local/context.rs:156-202 | the answer is the negated last record, or the list's own answer if there is none or it was evicted |
| `ReverseLookup.RecordHonouredIff` | crates/shadowsocks-service/src/local/context.rs:156-184 | a record is honoured iff there is a list or it says forward |
| `ReverseLookup.DomainAnswerIsTheLists` | crates/shadowsocks-service/src/local/context.rs:156-175 | for a domain the list decides whatever was recorded; without a list everything is forwarded |
| `ReverseLookup.UnlistedVerdictIsLost` | crates/shadowsocks-service/src/local/context.rs:156-202 | without a list a recorded refusal to forward does not show, with one it does |
| `ReverseLookup.OtherAddressesUntouched` | crates/shadowsocks-service/src/local/context.rs:156-202 | records for one address never change the answer for another address or for a domain |
| `PunchCodec.EncodeWith` | crates/shadowsocks-realm/src/punch.rs:76-98 | the packet for any padding, and that the decoder accepts it iff the padding is at most 1024 bytes |
| `PunchCodec.DecodePacket` | crates/shadowsocks-realm/src/punch.rs:116-141 | length, magic, type and nonce checks in order, on the body unmasked in place |
| `PunchCodec.XorInPlace` | crates/shadowsocks-realm/src/punch.rs:89-92 | the loop xors every byte with the repeating mask |
| `PunchCodec.DecodeEncode` | crates/shadowsocks-realm/src/punch.rs:76-141 | round trip for any mask, salt and admissible padding |
| `PunchCodec.DecodeIsImageOfEncode` | crates/shadowsocks-realm/src/punch.rs:112-141 | a packet is accepted with a type and padding length iff it is the encoding of that type under its own salt with such a padding |
| `PunchCodec.NoncesSeparate` | crates/shadowsocks-realm/src/punch.rs:137-139 | a packet of one session is refused with a nonce mismatch in every other session of the same key |
| `PunchCodec.WireFormat` | crates/shadowsocks-realm/src/punch.rs:72-98 | every byte on the wire, digit by digit, from literal magic and type bytes, nonce, padding and mask |
| `PunchCodec.RefusedPackets` | crates/shadowsocks-realm/src/punch.rs:112-141 | which error every packet gets: length, magic, type, nonce, in that order |
| `Bytes.XorMaskDigits` | crates/shadowsocks-realm/src/punch.rs:89-92 | masking acts on every byte with the mask byte at its place, digit by digit |
| `PunchProtocol.InvStep` | crates/shadowsocks-realm/src/punch.rs:176-214 | what every step of the two punch loops keeps |
| `PunchProtocol.UsableInOrder` | crates/shadowsocks-realm/src/punch.rs:162-170 | which candidates a socket uses, in which form and order |
| `PunchProtocol.UselessCandidates` | crates/shadowsocks-realm/src/punch.rs:171-174 | a side without a usable candidate times out at once and sends nothing |
| `PunchProtocol.FiveTrailingAcks` | crates/shadowsocks-realm/src/punch.rs:206-215 | in every run a side that returned has sent exactly five trailing Acks |
| `PunchProtocol.EveryAckTracesToHello` | crates/shadowsocks-realm/src/punch.rs:186-214 | in every run each Ack answers a Hello delivered to its sender from where the Ack goes, or follows an Ack from there that does so on its side, or that follows an Ack of the first sender that does |
| `PunchProtocol.EveryAckHasItsHello` | crates/shadowsocks-realm/src/punch.rs:186-214 | in every run the sender of an Ack was delivered a Hello, or holds an Ack from its destination that answers one delivered there |
| `PunchProtocol.ConfirmedMeansBothWays` | crates/shadowsocks-realm/src/punch.rs:176-215 | a returned address belongs to the other side, an Ack came from it, and a packet of ours was delivered there |
| `PunchProtocol.SelfTargetMisleads` | crates/shadowsocks-realm/src/punch.rs:166-215 | the run in which a peer with a candidate of its own confirms itself |
| `PunchProtocol.SoundIffNoSelfTarget` | crates/shadowsocks-realm/src/punch.rs:143-215 | with shared nonce and key, confirmation is sound in every run iff no usable candidate of a peer is its own |
| `PunchProtocol.OneGoodCandidateSuffices` | crates/shadowsocks-realm/src/punch.rs:143-149 | one working candidate on one side lets both sides confirm |
| `PunchProtocol.ReturnedSideCanBeConfirmed` | crates/shadowsocks-realm/src/punch.rs:206-215 | in every run, while one side has returned and the other still probes, a packet on the wire lets the other confirm an address of the first |
| `PunchProtocol.OtherCanStillConfirmIff` | crates/shadowsocks-realm/src/punch.rs:176-215 | in every run, after one side has returned the other can still confirm iff it has not timed out |
| `PunchProtocol.LostAcksStrand` | crates/shadowsocks-realm/src/punch.rs:176-215 | the run in which one side returns an address and the other times out |
| `PunchProtocol.CanConfirmIffSameNonce` | crates/shadowsocks-realm/src/punch.rs:137-215 | sides with one key, a working candidate and none of their own can confirm in some run iff their nonces are equal |
| `Rendezvous.InvStep` | testing/nat-sim/rendezvous.py:85-131 | what every handler step keeps |
| `Rendezvous.EventsHandedOutOnce` | testing/nat-sim/rendezvous.py:92-131 | in every run a connect's event is queued once, at one realm, hence handed out at most once |
| `Rendezvous.EventsHandedOutInOrder` | testing/nat-sim/rendezvous.py:125-131 | an event is handed out only after all events queued before it at the realm |
| `Rendezvous.LogOnlyGrows` | testing/nat-sim/rendezvous.py:92-128 | no step, deletion included, reorders or withdraws what was queued or handed out |
| `Rendezvous.ReplyCarriesPostedOrRegistered` | testing/nat-sim/rendezvous.py:95-112 | a reply carries the addresses of a post event that reached it and named its nonce, or those of the event that registered its realm |
| `Rendezvous.PostedAddressesWin` | testing/nat-sim/rendezvous.py:98-111 | once a post has reached a waiting connect, its reply carries posted addresses in every continuation |
| `Rendezvous.UnansweredGetsRegistered` | testing/nat-sim/rendezvous.py:95-101 | a connect that no post has reached when it reads its result replies the addresses of its realm's registration |
| `Rendezvous.RealmWasRegistered` | testing/nat-sim/rendezvous.py:70-79 | every realm was created by a registration of the run and has its addresses |
| `Rendezvous.ConnectWasEntered` | testing/nat-sim/rendezvous.py:85-91 | every connect was entered by an event of the run, at that realm and with that body |
| `Rendezvous.PostWasMade` | testing/nat-sim/rendezvous.py:103-112 | every post was made by an event of the run, with those addresses and that cause |
| `Rendezvous.NameKept` | testing/nat-sim/rendezvous.py:74-76 | a name stays with its realm until it is deleted; a second registration is refused |
| `Rendezvous.NameIsRegistered` | testing/nat-sim/rendezvous.py:74-79 | a name in use is that of a registration not deleted since |
| `Rendezvous.AgreeIfNonceFixesKey` | testing/nat-sim/rendezvous.py:85-112 | nonce and key agree for every answered connect in every run without reused nonces |
| `Rendezvous.ReusedNonceMisleads` | testing/nat-sim/rendezvous.py:89-111 | the run in which a reused nonce joins two different keys although no two connects in progress ever share a nonce |
| `Rendezvous.KeysAgreeIffNonceFixesKey` | testing/nat-sim/rendezvous.py:85-131 | agreement in all runs iff no nonce is used with two keys |
| `Rendezvous.DistinctLiveNoncesDoNotSuffice` | testing/nat-sim/rendezvous.py:85-131 | the same condition for the runs in which no two connects in progress share a nonce |
| `RealmSession.HexRoundTrip` | crates/shadowsocks-realm/src/lib.rs:72-85 | the text of a key decodes to the key |
| `RealmSession.HexDecodeIff` | crates/shadowsocks-realm/src/session.rs:276-281 | a text decodes to given bytes iff it is their encoding up to case |
| `RealmSession.ServerKeysIff` | crates/shadowsocks-realm/src/session.rs:161-163 | the server can read its keys iff both fields are hexadecimal text of 16 and 32 bytes, and they are those bytes |
| `RealmSession.DecodeNIff` | crates/shadowsocks-realm/src/session.rs:276-281 | bytes of the right length, wrong length and bad text are told apart |
| `RealmSession.ServerReadsClientKeys` | crates/shadowsocks-realm/src/session.rs:238-248 | the server recovers the client's nonce, key and addresses from the punch event |
| `RealmSession.BothSidesPunchAlike` | crates/shadowsocks-realm/src/session.rs:116-130 | in every rendezvous run without reused nonces both sides punch with identical bytes |
| `RealmSession.UsableAddrsInOrder` | crates/shadowsocks-realm/src/session.rs:269 | every text keeps its place among the parsed addresses, repetitions included |
| `RealmSession.ParseAddrs` | crates/shadowsocks-realm/src/session.rs:268-274 | an error iff no text parses; otherwise exactly the texts that parse are kept |
| `RealmSession.SessionPunchIsSound` | crates/shadowsocks-realm/src/session.rs:107-274 | after any rendezvous run without reused nonces, client (drawn keys, addresses of its reply) and server (decoded keys, addresses of the event) share their keys, and every run of their punch is sound iff neither was handed an address of its own |
| `RealmSession.EachSideTargetsTheOther` | crates/shadowsocks-realm/src/session.rs:107-274 | the client's candidates are the addresses in its reply, posted or registered; the server's those that the answered connect was entered with |
| `Sse.SseBuffer.TakeFirstSseEvent` | crates/shadowsocks-realm/src/rendezvous/events.rs:57-92 | the loop takes the first event and leaves the rest of the buffer; each turn shortens it |
| `Sse.ParseFrameLoop` | crates/shadowsocks-realm/src/rendezvous/events.rs:62-75 | the fields of a frame, line by line |
| `Sse.SseBuffer.PollEvent` | crates/shadowsocks-realm/src/rendezvous/client.rs:173-183 | the chunk loop returns what the joined text gives |
| `Sse.FindBlankFirst` | crates/shadowsocks-realm/src/rendezvous/events.rs:58 | the split is at the first blank line |
| `Sse.TakeThenMore` | crates/shadowsocks-realm/src/rendezvous/events.rs:52-92 | text that arrives later never changes what was decided |
| `Sse.PollIsTakeOfJoined` | crates/shadowsocks-realm/src/rendezvous/client.rs:173-183 | same event, error or lack of event as the joined text; buffer plus unread chunks are its remainder |
| `Sse.ChunkingIsInvisible` | crates/shadowsocks-realm/src/rendezvous/client.rs:173-183 | two chunkings of one text cannot be told apart |
| `Sse.CharacterCutsAreInvisible` | crates/shadowsocks-realm/src/rendezvous/client.rs:176-181 | cuts between characters are invisible on the byte stream |
| `Sse.FrameRoundTrip` | crates/shadowsocks-realm/src/rendezvous/events.rs:62-75 | a frame written as a name and any data lines is read back as that name and the joined lines, less empty ones in front |
| `Sse.WrittenFrameIsRead` | crates/shadowsocks-realm/src/rendezvous/events.rs:57-92 | a written frame in front of any text is answered as punch with its body, bad punch data, heartbeat or unknown event, and that text is kept |
| `Sse.NamelessFrameIsSkipped` | crates/shadowsocks-realm/src/rendezvous/events.rs:77-79 | a frame without an event line, such as a comment, is skipped |
| `Sse.WrittenFramePolls` | crates/shadowsocks-realm/src/rendezvous/client.rs:173-183 | the same for a poll, behind comments and cut into chunks in any way |
| `Sse.SpacedEventLine` | crates/shadowsocks-realm/src/rendezvous/events.rs:64-67 | white space around an event name does not count |
| `Sse.TightDataLine` | crates/shadowsocks-realm/src/rendezvous/events.rs:68-73 | one space after the field name is optional, carriage returns at the end do not count |
| `Utf8.PiecewiseIffComplete` | crates/shadowsocks-realm/src/rendezvous/client.rs:178 | decoding a chunk on its own gives the text of the joined bytes for all continuations iff the chunk ends between characters |
| `Utf8.CutDecodes` | crates/shadowsocks-realm/src/rendezvous/client.rs:178 | a cut character and any continuation: apart a replacement per continuation byte, together one non-ASCII character, the rest alike |
| `Utf8.TextRoundTrip` | crates/shadowsocks-realm/src/rendezvous/client.rs:178 | encoded text is valid, never cut, and decodes to itself |
| `SseCuts.ParseFrameIsFold` | crates/shadowsocks-realm/src/rendezvous/events.rs:62-75 | the frame's fields are a fold over all its lines; the empty last line that is dropped does not matter |
| `SseCuts.IdleCutIsHarmless` | crates/shadowsocks-realm/src/rendezvous/client.rs:176-181 | a cut between characters, after a decided event or in an ignored line changes no answer |
| `SseCuts.EventCutShows` | crates/shadowsocks-realm/src/rendezvous/client.rs:176-181 | every other cut in an event name has a continuation with another answer, whatever the parser |
| `SseCuts.DataCutShows` | crates/shadowsocks-realm/src/rendezvous/client.rs:176-181 | every other cut in data has a continuation with another answer |
| `SseCuts.HarmlessCutIff` | crates/shadowsocks-realm/src/rendezvous/client.rs:173-183 | after any earlier chunks, a cut changes no answer for any continuation and parser iff it is between characters, after a decided event, or in an ignored line |
| `SseCuts.CutInsideDataShows` | crates/shadowsocks-realm/src/rendezvous/client.rs:176-181 | a punch whose data is one two-byte character is read otherwise when cut between its bytes |
| `SseCuts.EncodedTextPolls` | crates/shadowsocks-realm/src/rendezvous/client.rs:173-183 | texts encoded chunk by chunk are answered as their concatenation |
| `SseCuts.WrittenFrameFromBytes` | crates/shadowsocks-realm/src/rendezvous/client.rs:173-183 | the same for encoded text cut between characters |
| `Stun.ParseBindingResponse` | crates/shadowsocks-realm/src/stun.rs:57-104 | on arbitrary bytes: header checks, then the decision over the attributes that fit |
| `Stun.WalkAttributes` | crates/shadowsocks-realm/src/stun.rs:75-103 | the loop terminates in bounds and decides as the attribute list does |
| `Stun.WrittenResponseDecides` | crates/shadowsocks-realm/src/stun.rs:53-104 | for any padded attribute list and trailing bytes: first decodable XOR-MAPPED-ADDRESS, else first decodable MAPPED-ADDRESS, else an error |
| `Stun.RefusedHeaders` | crates/shadowsocks-realm/src/stun.rs:57-74 | which error a message gets: length, type, cookie, transaction id, in that order |
| `Stun.CutShortReadsOn` | crates/shadowsocks-realm/src/stun.rs:72-75 | a message that announces more than it holds is read as far as it goes |
| `Stun.XorMappedDigits` | crates/shadowsocks-realm/src/stun.rs:106-134 | which values decode; port and address bytes are those of the value and of cookie and transaction id, added digit by digit |
| `Stun.XorMappedExample` | testing/nat-sim/hyrlm.py:79-91 | the bytes of 192.0.2.1:32853 |
| `Stun.XorMappedRoundTrip` | crates/shadowsocks-realm/src/stun.rs:106-134 | decoding inverts the XOR encoding, for both families |
| `Stun.MappedRoundTrip` | crates/shadowsocks-realm/src/stun.rs:136-154 | decoding inverts the plain encoding |
| `Stun.ResponseRoundTrip` | testing/nat-sim/hyrlm.py:79-91 | the reference response for an address is parsed to that address |
| `StunDiscovery.DiscoverAll` | crates/shadowsocks-realm/src/stun.rs:237-272 | the nested loops with their skips and early exit |
| `StunDiscovery.DiscoveredOnePerFamily` | crates/shadowsocks-realm/src/stun.rs:232-272 | at most one binding per family when servers answer in their own |
| `StunDiscovery.OnePerFamilyIffSameFamilyAnswers` | crates/shadowsocks-realm/src/stun.rs:257-268 | at most one per family for all names iff servers answer in their own family |
| `StunDiscovery.ExactlyOnePerAnsweringFamily` | crates/shadowsocks-realm/src/stun.rs:232-272 | every reachable family with an answering server gets exactly one binding, a real answer |
| `StunDiscovery.FirstAnswerIsKept` | crates/shadowsocks-realm/src/stun.rs:237-272 | the binding of a family is that of the first candidate that answers, over all servers in order |
| `StunDiscovery.PortSetNeverTwo` | crates/shadowsocks-realm/src/session.rs:69-84 | the port set of one family never has two elements |
| `Control.EncodeOfferBody` | crates/shadowsocks-realm/src/control.rs:73-83 | count, lengths, addresses and token, cut at 255 addresses |
| `Control.DecodeOfferBody` | crates/shadowsocks-realm/src/control.rs:93-121 | the loop decodes as the recursive grammar does, with the first error met |
| `Control.DecodeAddrAt` | crates/shadowsocks-realm/src/control.rs:101-113 | one address, bounds and UTF-8 checked |
| `Control.ReadWrite` | crates/shadowsocks-realm/src/control.rs:146-169 | a carried message is read back, with the rest of the stream untouched |
| `Control.AcceptedIsCarried` | crates/shadowsocks-realm/src/control.rs:158-169 | whatever is accepted has at most 255 addresses and fits a body |
| `Control.RoundTripIffCarried` | crates/shadowsocks-realm/src/control.rs:71-169 | a message survives iff it has at most 255 addresses and a body of at most 65536 bytes |
| `Control.StreamRoundTrip` | crates/shadowsocks-realm/src/control.rs:145-169 | any sequence of carried messages is read back as that sequence |
| `Control.ReencodingIsStable` | crates/shadowsocks-realm/src/control.rs:90-169 | re-encoding an accepted frame gives a frame for the same message |
| `Control.LongOfferIsCut` | crates/shadowsocks-realm/src/control.rs:75-76 | an offer of 256 addresses is read back as one of 255 |
| `Control.LongOfferReadsCut` | crates/shadowsocks-realm/src/control.rs:75-76 | any offer of more than 255 addresses is read back as its first 255 |
| `Control.AcceptedIff` | crates/shadowsocks-realm/src/control.rs:90-169 | a stream starts with a message iff it starts with a frame of at most 65536 bytes that stands for it, type by type |
| `Control.BrokenFrame` | crates/shadowsocks-realm/src/control.rs:158-168 | a frame that breaks off anywhere ends the stream early |
| `Control.LargeFrame` | crates/shadowsocks-realm/src/control.rs:163-165 | a longer body is refused by its announced length |
| `Control.MalformedBody` | crates/shadowsocks-realm/src/control.rs:93-141 | the errors for unknown types and bodies of the wrong size |
| `Control.MalformedOffer` | crates/shadowsocks-realm/src/control.rs:99-118 | the error of an offer that goes wrong after any good addresses |
| `Password.PasswordToKeys` | crates/shadowsocks/src/config.rs:495-578 | the parser's loop and reversal, and the first error in its order |
| `Password.ParsedFits` | crates/shadowsocks/src/config.rs:528-572 | accepted keys have the method's length and a user key without a colon |
| `Password.AcceptedIff` | crates/shadowsocks/src/config.rs:528-572 | with identity headers a password is accepted iff every piece encodes a key of the right length; last piece user key, others identity keys in order |
| `Password.LastFaultDecides` | crates/shadowsocks/src/config.rs:535-560 | a refused password is refused for its user key, or else for the last wrong identity key |
| `Password.PlainPasswords` | crates/shadowsocks/src/config.rs:495-578 | without identity headers the whole password is the user key, colons included |
| `Password.FittingKeysRoundTrip` | crates/shadowsocks/src/config.rs:655-664 | all fitting keys are read back from their export, in order |
| `Password.ExportRoundTrip` | crates/shadowsocks/src/config.rs:651-664 | for every method and accepted password the export parses to the same keys |
| `Password.ReadBackIffReadable` | crates/shadowsocks/src/config.rs:495-578 | an AEAD-2022 method reads keys back from their export iff the user key decodes to the stored bytes of its length and identity keys, if any, are supported and of that length |
| `Password.ReadBackByOtherIff` | crates/shadowsocks/src/config.rs:608-664 | keys of one AEAD-2022 method are read back under another iff the lengths are equal and identity keys, if any, are supported |
| `Password.ServerConfig.SetMethod` | crates/shadowsocks/src/config.rs:608-621 | success replaces method and keys; failure replaces the method only, happens only for AEAD-2022 methods, and leaves the export readable iff the stated condition on old and new method holds |
| `Password.RefusedSwitches` | crates/shadowsocks/src/config.rs:608-621 | refused switches to the ChaCha method: shorter key unreadable, equal length readable, identity key unreadable, and from an older method a Base64 password readable iff it encodes the derived key |

## Left out

- PacketWindow.PacketWindowFilter: a word of the ring is written as its 64 bits and `x >> 6`, `x & 127`, `x & 63` as division and remainder; ids are bounded to 64 bits.
- SubDomainsTree.DomainTree.Insert: the mutable cursor into nested maps is modelled as the list of levels passed on the way down, put back on the way up; the tree is a value without aliasing.
- Rendezvous: handlers act on values of a state, not on shared dictionaries; a step is a lock region, an access to `attempts`, or the read of an attempt's result; looking up a realm by name is no step of its own, since a handler may act on any registered realm at any later time; posts that do not answer a punch event, authentication, and heartbeats are not modelled.
- PunchProtocol: `punch` is modelled by its sends, receives and exits as separate steps; the resend timer and the deadline may fire at any time, and a failed send is a lost packet.
- PunchProtocol.CanConfirmIffSameNonce: says nothing of two sides with different obfuscation keys, because the hash is an arbitrary function here.
- UdpServer.DroppedSessionReplays: the age check of datagrams is not modelled; the decoder refuses those whose timestamp is more than 30 seconds off, so with an expiry of minutes the same datagram is dispatched again only if the entry was dropped for lack of space, or if its packet id comes in a newly stamped datagram.
- UdpServer: outbound sockets, the extra receive workers and the payloads are not modelled; an association dropped from the map may take further steps, as an aborted task may.
- StunDiscovery: each server's answer is a function of its address; the retry loop of `discover` is not modelled.
- Control.DecodeBody: errors of the byte stream other than its end are not modelled.
- AccessControl: merging of networks by the range library, reading of rule files line by line, and the client check are not modelled.
- HostRules: regular expressions other than the recognised shapes are opaque to the model; conversion of host names to ASCII is a parameter.
- Sse: the long-poll variant, a single JSON object, is not modelled.
- Password: Base64 itself (with the three laws above) and the derivation of older keys are parameters.
- QUIC, TLS, port mapping, HTTP requests, SIP002 URLs, configuration files, the TCP relay, the DNS relay, the manager and the command line are not part of this model.
