# gtp5g, SUCI and NAS COUNT in Dafny

A model of the parts of PacketRusher that keep state or undo each other, with proofs about every
input and every run.

**The rule store of the gtp5g kernel module** (`Rules`, with `Store`, `LastWriter`, `RuleData`,
`Buckets`, `Sdf`, `Bits`, `Ports`, `HashLinks` and `RateLoss`). `Gtp5gDev` has the module's hash tables, its reverse indexes of `pdr_node`s and the
pointers cached in each PDR, and one method for each step the C code takes. `Store` says what the
same netlink requests do to three finite maps, and `LastWriter` says, from the requests alone, which
rules are installed after any run and what they hold. The hash functions are parameters, so every result
holds for all of them, the ambiguous text key of `seid.c` (`Seid`) included. A PDR that is being
edited in place, while still linked under its old key, is the argument of `ValidBut`. Packet
detection is the rule lookup of section 5.2.1 of TS 29.244.

**Usage reporting** (`Usage`, `NoPeriod`, `Quota`, `UrrObject`, `QuotaLoss`). `Usage` has the values a URR holds and what
packets, queries and reconfigurations do to them; `Quota` says what overwriting and replaying FAR
actions comes to; `UrrObject` is the object with its loops, proved against both.

**The token-bucket policer** (`Policer`), one rate with an overflow bucket (the shape of section 3
of RFC 2697), in unbounded arithmetic and as the object with 64-bit arithmetic.

**Codecs**: the GTP-U header (`Gtpu`, `GtpuBytes`, sections 5.1 and 5.2.1 of TS 29.281), SUCI
concealment (`Suci`, `SuciBytes`, `SuciFormat`, `HexText`, Annex C of TS 33.501), SDF port lists
(`Ports`, `Text`).

**NAS COUNT** (`NasCount`, section 4.4.3 of TS 24.501): both ends of the uplink as objects, and
runs over a channel that loses messages and carries forged ones.

Integers are unbounded; `Types` names the machine ranges, and wrap-around is written out where the
code has it. Clocks, random keys, hash functions, cryptographic primitives and the outcome of socket
set-up are parameters.

## Where the code is not what one would expect

- Exhausting a quota when two PDRs share a FAR saves DROP over the FAR's action, and the reverse
  step cannot restore it (`Quota.RestoresIffDistinct`, `Quota.SharedFarExample`).
- The bit that stops measurement on exhaustion is not cleared by a new quota, only by new
  measurement information (`Usage.ResumesExactly`).
- With a measurement period, the report that a volume threshold asks for does not contain the volume
  that reached it: it carries the period before (`NoPeriod.ThresholdReportIff`).
- The GTP-U length field is four too large when there is a sequence number but no QFI
  (`Gtpu.LengthFieldIff`).
- A maximum bit rate of 2^32 kbit/s or more loses its top bits (`Policer.BitRateExactIff`).
- Rounding in the policer's carried time admits more than the configured rate, unless the byte rate
  divides 10^9 or is a multiple of it (`Policer.IdealIff`).
- After an accepted NAS message the count survives 254 losses in a row, not 255
  (`NasCount.LossLimitIff`).
- A repeated NAS message is accepted again while the receiver stands at its count, and a repeated
  new-context message always; that one sets the receiver back to zero, where the sender's own
  messages above count 255 no longer get through (`NasCount.RepetitionIff`,
  `NasCount.OldContextReopens`, `NasCount.AfterReopeningIff`).
- Deleting a QER takes the rate from every PDR that lists a QER in the same hash bucket
  (`Rules.Gtp5gDev.DelQer`, `RateLoss.InnocentLosesRate`).
- One URR can put two entries in a report list that has one slot per URR (`Usage.TwoReportsIff`,
  `Usage.TwoReportsReached`); `Usage.OverrunIff` says when the list is overrun.
- Exhausting a URR drops the traffic of any session that uses the same URR id in the same hash
  bucket (`UrrObject.ExhaustOnDevice`, `QuotaLoss.InnocentSessionDrops`).
- A destination port list that does not parse is dropped, and the rule then accepts every port
  (`RuleData.DestinationVerdict`); a source port list that does not parse is refused
  (`RuleData.SourceVerdict`).
- A PDR that moves from the UE-address table to the tunnel table is unlinked through a poisoned
  pointer when it is next replaced or deleted (`HashLinks.LifeIff`, `HashLinks.DeletionIff`).
- `CipherSuci` panics under profile A or B without a home network key, and on an empty number when
  the two network codes alone have 14 characters or more (`Suci.CipherSuciPanicsIff`). `ToSupi`
  panics on an empty ciphertext with a valid tag (`Suci.ToSupiPanicsIff`,
  `Suci.SealedNothingPanics`).

## Model

| member | source | states |
|---|---|---|
| `Rules.Run` | PacketRusher/lib/gtp5g/src/genl/genl_pdr.c:33-145 | Main result. From an empty device, any sequence of add, replace and delete requests for PDRs, FARs and QERs leaves valid tables holding exactly the rules that the same requests leave in three plain finite maps, and every request gets the same answer; for every hash function and number of buckets. |
| `LastWriter.InstalledFollow` | PacketRusher/lib/gtp5g/src/genl/genl_pdr.c:401-518 | Main result. After any run of requests, told from the requests alone: a FAR, PDR or QER is installed iff it has a history (accepted requests since its creation, which a refused replacement or a deletion ends); every field of an installed PDR and FAR is what the last accepted request that gave it said; a QER enforces a rate iff one of them gave it one. |
| `LastWriter.FarsHeld` | PacketRusher/lib/gtp5g/src/genl/genl_far.c:29-208 | On the maps, for every run and key: installed iff some accepted request made it and none took it away; the action, and description, TEID, peer, port, mark of the last request that gave them, and the last TOS given since the first header. |
| `LastWriter.PdrsHeld` | PacketRusher/lib/gtp5g/src/genl/genl_pdr.c:33-197 | The same for PDRs; a request counts only if its FAR is installed at that time. |
| `LastWriter.QersHeld` | PacketRusher/lib/gtp5g/src/genl/genl_qer.c:19-175 | The same for QERs and their rate. |
| `LastWriter.FarStep` | PacketRusher/lib/gtp5g/src/genl/genl_far.c:333-524 | One accepted request adds what it gives to what a FAR followed before, whatever that was. |
| `LastWriter.FillStep` | PacketRusher/lib/gtp5g/src/genl/genl_pdr.c:401-472 | The attributes of one accepted request, likewise for a PDR. |
| `LastWriter.PdiStep` | PacketRusher/lib/gtp5g/src/genl/genl_pdr.c:520-566 | Of the detection part: interface, UE address, tunnel endpoint and filter, each as last given. |
| `LastWriter.RuleStep` | PacketRusher/lib/gtp5g/src/genl/genl_pdr.c:661-752 | Of the flow description: action, direction, protocol, addresses and masks (all ones if missing) of the last one, ports of the last one that listed any. |
| `LastWriter.IdStep` | PacketRusher/lib/gtp5g/src/genl/genl_pdr.c:343-399 | The QER and URR ids are those named, each once, in the order in which they were named first. |
| `LastWriter.FarTakenIff` | PacketRusher/lib/gtp5g/src/genl/genl_far.c:333-524 | Exactly which FAR requests are refused: malformed or incomplete parts, a policy of 256 bytes or more, a mark of zero. |
| `LastWriter.PdrTakenIff` | PacketRusher/lib/gtp5g/src/genl/genl_pdr.c:520-752 | Exactly which PDR attributes are refused: malformed or incomplete detection parts. |
| `LastWriter.KeyIsLast` | PacketRusher/lib/gtp5g/src/genl/genl_pdr.c:64-79 | The session and id of a request are the last ones it gives. |
| `Rules.Gtp5gDev.Execute` | PacketRusher/lib/gtp5g/src/genl/genl_pdr.c:33-197 | One request keeps the whole invariant and refines one step of the plain maps, status included. |
| `Rules.Gtp5gDev.ExecuteAddPdr` | PacketRusher/lib/gtp5g/src/genl/genl_pdr.c:69-145 | Adding or replacing a PDR does to the installed rules what it does to the maps: a refused replacement removes the rule, a refused creation adds none. |
| `Rules.Gtp5gDev.ExecuteDelPdr` | PacketRusher/lib/gtp5g/src/genl/genl_pdr.c:147-197 | Deleting a PDR removes its key from the map, and nothing else. |
| `Rules.Gtp5gDev.ExecuteAddFar` | PacketRusher/lib/gtp5g/src/genl/genl_far.c:29-156 | Adding or replacing a FAR refines the map step, failed fills included. |
| `Rules.Gtp5gDev.ExecuteDelFar` | PacketRusher/lib/gtp5g/src/genl/genl_far.c:158-208 | Deleting a FAR removes its key from the map, and nothing else. |
| `Rules.Gtp5gDev.ExecuteAddQer` | PacketRusher/lib/gtp5g/src/genl/genl_qer.c:19-116 | Adding or replacing a QER refines the map step. |
| `Rules.Gtp5gDev.ExecuteDelQer` | PacketRusher/lib/gtp5g/src/genl/genl_qer.c:118-175 | Deleting a QER removes its key from the map, and nothing else. |
| `Rules.Gtp5gDev.CachedFarIsLookup` | PacketRusher/lib/gtp5g/src/pfcp/far.c:44-107 | In every valid state the FAR pointer of an installed PDR is the FAR-table lookup of its session and FAR id, null included. |
| `Rules.Gtp5gDev.CachedQerIsInstalled` | PacketRusher/lib/gtp5g/src/pfcp/qer.c:111-178 | The cached rate QER of an installed PDR is null, or an installed QER of its session that the PDR lists; never a deleted one. |
| `Rules.Gtp5gDev.UrrBucketComplete` | PacketRusher/lib/gtp5g/src/pfcp/urr.c:231-255 | Every installed PDR that refers to a URR hangs in that URR's reverse-index bucket. |
| `Rules.Gtp5gDev.IdTableIsMap` | PacketRusher/lib/gtp5g/src/pfcp/pdr.c:160-174 | The id table is a finite map: a PDR hangs in a bucket iff it is installed and the bucket is its key's, once, and no two installed PDRs share a key. |
| `Rules.Gtp5gDev.LinkedExactlyByKey` | PacketRusher/lib/gtp5g/src/pfcp/pdr.c:359-405 | A PDR is linked for detection iff installed, in the one table and bucket its key selects, at most once; every bucket is sorted by precedence. |
| `Rules.Gtp5gDev.DetectByGtp1u` | PacketRusher/lib/gtp5g/src/pfcp/pdr.c:257-321 | On the maps: a tunnel packet finds nothing iff no configured PDR matches it, and otherwise a matching one of least precedence value. |
| `Rules.Gtp5gDev.DetectByIpv4` | PacketRusher/lib/gtp5g/src/pfcp/pdr.c:323-347 | The same for detection by UE address, among the PDRs without an F-TEID. |
| `Rules.Gtp5gDev.FindByGtp1u` | PacketRusher/lib/gtp5g/src/pfcp/pdr.c:257-321 | The first hit in one bucket is the best among all installed PDRs: it wins by precedence and, among equals, by having been linked last. |
| `Rules.Gtp5gDev.FindByIpv4` | PacketRusher/lib/gtp5g/src/pfcp/pdr.c:323-347 | The same for the UE-address table. |
| `Rules.Gtp5gDev.UpdateHlist` | PacketRusher/lib/gtp5g/src/pfcp/pdr.c:359-405 | Whatever key and precedence the PDR had when it was linked, afterwards it is filed by its present ones, ahead of its equals, and every bucket stays sorted. |
| `Rules.Gtp5gDev.Place` | PacketRusher/lib/gtp5g/src/pfcp/pdr.c:369-403 | Inserting before the first entry that does not precede keeps a bucket ordered by precedence and recency. |
| `Rules.Gtp5gDev.AddPdr` | PacketRusher/lib/gtp5g/src/genl/genl_pdr.c:33-145 | The exact outcome of each kind of request: which PDR changes, its whole new configuration, its rank and rate QER, that a failed replacement uninstalls it, and that all others are untouched. |
| `Rules.Gtp5gDev.DelPdr` | PacketRusher/lib/gtp5g/src/genl/genl_pdr.c:147-197 | Exactly the named PDR leaves; all invariants hold although its stale nodes may stay in old buckets. |
| `Rules.Gtp5gDev.PdrFill` | PacketRusher/lib/gtp5g/src/genl/genl_pdr.c:401-518 | Editing a PDR in place keeps every other rule consistent whether or not it goes through, which it does iff no attribute is refused, the FAR exists and the socket can be set up. |
| `Rules.Gtp5gDev.PdrContextDelete` | PacketRusher/lib/gtp5g/src/pfcp/pdr.c:87-102 | Unlinking a half-edited PDR restores the full invariant. |
| `Rules.Gtp5gDev.AddFar` | PacketRusher/lib/gtp5g/src/genl/genl_far.c:29-156 | The outcome of each kind of request: status, end marker, removal after a failed replacement; all caches stay right and other FARs untouched. What is stored is in `LastWriter.FarStep` and `LastWriter.FarsHeld`. |
| `Rules.Gtp5gDev.DelFar` | PacketRusher/lib/gtp5g/src/genl/genl_far.c:158-208 | Exactly the named FAR leaves and every PDR that used it has its pointer cleared. |
| `Rules.Gtp5gDev.FarFill` | PacketRusher/lib/gtp5g/src/genl/genl_far.c:467-524 | The attributes are taken in order; only after all of them are PDRs pointed at the FAR, namely those whose node hangs in its bucket and whose key agrees. |
| `Rules.Gtp5gDev.FarContextDelete` | PacketRusher/lib/gtp5g/src/pfcp/far.c:44-69 | Deleting a FAR, installed or not, leaves table and caches consistent. |
| `Rules.Gtp5gDev.PointMatching` | PacketRusher/lib/gtp5g/src/pfcp/far.c:87-107 | Exactly the PDRs in the bucket whose own key agrees are repointed. |
| `Rules.Gtp5gDev.SelectQer` | PacketRusher/lib/gtp5g/src/genl/genl_pdr.c:495-509 | The chosen QER is the last listed one that is installed and carries a rate. |
| `Rules.Gtp5gDev.AddQer` | PacketRusher/lib/gtp5g/src/genl/genl_qer.c:19-116 | The exact outcome of adding or replacing a QER. |
| `Rules.Gtp5gDev.DelQer` | PacketRusher/lib/gtp5g/src/genl/genl_qer.c:118-175 | The QER leaves; an installed PDR loses its rate QER iff some listed QER of its session, not necessarily the deleted one, shares the deleted one's bucket. |
| `Rules.Gtp5gDev.QerBucketIff` | PacketRusher/lib/gtp5g/src/pfcp/qer.c:111-161 | An installed PDR hangs in a QER bucket iff one of its listed QERs files there: its nodes follow its list through every edit. |
| `RateLoss.InnocentLosesRate` | PacketRusher/lib/gtp5g/src/pfcp/qer.c:163-178 | A device with one bucket: a PDR that lists QER 1 alone and has its rate loses it when QER 2 is deleted, with QER 1 still installed and listed. |
| `Rules.Gtp5gDev.FindPdr` | PacketRusher/lib/gtp5g/src/pfcp/pdr.c:160-174 | The bucket scan answers as the set of installed PDRs does. |
| `Rules.Gtp5gDev.FindFar` | PacketRusher/lib/gtp5g/src/pfcp/far.c:71-85 | The bucket scan answers as the set of installed FARs does. |
| `Rules.Gtp5gDev.FindQer` | PacketRusher/lib/gtp5g/src/pfcp/qer.c:50-64 | The bucket scan answers as the set of installed QERs does. |
| `Rules.Gtp5gDev.ApplyAttributes` | PacketRusher/lib/gtp5g/src/genl/genl_pdr.c:404-472 | The in-place attribute loop computes the configuration that folding the attributes gives, up to the one refused. |
| `RuleData.FillKeepsKey` | PacketRusher/lib/gtp5g/src/genl/genl_pdr.c:401-518 | A fill that goes through leaves the PDR under the key it was looked up with, keeps or sets a FAR id, and only adds QERs and URRs. |
| `RuleData.FirstStepIff` | PacketRusher/lib/gtp5g/src/genl/genl_pdr.c:405-414 | Stepping over the generic netlink header as if it were an attribute reaches the first attribute iff the version is zero and the command one of the first four; adding a PDR is the first. |
| `RuleData.EndMarkerExactly` | PacketRusher/lib/gtp5g/src/genl/genl_far.c:333-403 | An end marker goes out iff a well-formed header with the flag replaces an existing one, to the tunnel being left. |
| `Buckets.OrderedInsert` | PacketRusher/lib/gtp5g/src/pfcp/pdr.c:369-403 | Insertion at the first entry that does not precede keeps the order. |
| `Buckets.WithoutOrdered` | PacketRusher/lib/gtp5g/src/pfcp/pdr.c:359-368 | Unlinking an entry keeps the order. |
| `HashLinks.LifeIff` | PacketRusher/lib/gtp5g/src/pfcp/pdr.c:359-405 | Filing a PDR again and again goes through a poisoned pointer iff it is filed once more after moving from the UE-address table to the tunnel table. |
| `HashLinks.DeletionIff` | PacketRusher/lib/gtp5g/src/pfcp/pdr.c:87-102 | Deleting it does iff that move was the last thing that happened to it. |
| `HashLinks.FillGrows` | PacketRusher/lib/gtp5g/src/genl/genl_pdr.c:520-596 | No fill takes an F-TEID or a UE address away, so that is the only move there is. |
| `Seid.KeysEqualIff` | PacketRusher/lib/gtp5g/src/pfcp/seid.c:9-18 | For all pairs: two rules have the same key iff the shown numbers, one after the other, are equally wide and make the same number. |
| `Seid.KeysMeetIff` | PacketRusher/lib/gtp5g/src/pfcp/seid.c:9-18 | The same seen from the wider session part: it has taken the leading digits of the other's identifier, and its own identifier is the rest, without a leading zero. |
| `Seid.KeysOfEqualWidth` | PacketRusher/lib/gtp5g/src/pfcp/seid.c:9-18 | With equally wide session parts the keys agree iff both numbers do, up to the last digit of a full-length number, which the buffer cuts off. |
| `Seid.KeyAmbiguous` | PacketRusher/lib/gtp5g/src/pfcp/seid.c:9-18 | Different rules can have the same key: by where the two numbers meet, and by the lost digit. |
| `Seid.SeidAndU32IdToHexStr` | PacketRusher/lib/gtp5g/src/pfcp/seid.c:9-18 | The buffer ends up holding the two cut texts as one C string. |
| `Sdf.SdfFilterMatch` | PacketRusher/lib/gtp5g/src/pfcp/pdr.c:195-255 | The early-exit checks accept a packet iff there is no filter or every condition of its rule holds; what the conditions mean is in `Sdf.SubnetRuleAccepts` and `Sdf.Ipv4MatchIff`. |
| `Sdf.SubnetRuleAccepts` | PacketRusher/lib/gtp5g/src/pfcp/pdr.c:195-255 | Main result. A rule between two subnets accepts exactly the packets in its direction and protocol that go from the one subnet to the other and, if it names ports, use named ones. |
| `Sdf.SubnetIff` | PacketRusher/lib/gtp5g/src/pfcp/pdr.c:176-179 | Under the mask of an n-bit prefix, for every n, an address matches iff its leading n bits are those of the rule. |
| `Sdf.Ipv4MatchIff` | PacketRusher/lib/gtp5g/src/pfcp/pdr.c:176-179 | Under any mask, an address matches iff it agrees with the rule in every bit the mask sets. |
| `Ports.CompiledPortsMatch` | PacketRusher/lib/gtp5g/src/pfcp/pdr.c:181-193 | A non-empty port list, packed, decoded and matched, accepts a port iff some entry's interval contains it, reversed entries included. |
| `Ports.FlowTextMeaning` | PacketRusher/internal/cmd/gogtp5g-tunnel/flowdesc.go:189-231 | From the text a user writes to the kernel's verdict on every port. |
| `RuleData.DestinationVerdict` | PacketRusher/internal/cmd/gogtp5g-tunnel/flowdesc.go:149-158 | The verdict on a destination port for every text: that of the list if it parses, otherwise that of the rule before, which in a new rule accepts every port. |
| `RuleData.SourceVerdict` | PacketRusher/internal/cmd/gogtp5g-tunnel/flowdesc.go:112-132 | Which source port texts are refused, and the verdict on a source port for the others. |
| `Ports.FillRulePorts` | PacketRusher/lib/gtp5g/src/genl/genl_pdr.c:791-805 | The dumping loop writes the packed words of the stored ranges, upper bound in the high half. |
| `Ports.PrintParseRoundTrip` | PacketRusher/internal/cmd/gogtp5g-tunnel/flowdesc.go:189-215 | Parsing the printed form of a non-empty port list gives the list back. |
| `Ports.ParseFlowDescPorts` | PacketRusher/internal/cmd/gogtp5g-tunnel/flowdesc.go:189-215 | The parser's loop fails on exactly the lists with a malformed entry, and otherwise reads every entry. |
| `Ports.EncodePorts` | PacketRusher/internal/cmd/gogtp5g-tunnel/flowdesc.go:217-231 | The bytes written at the moving offset are the packed words of the list. |
| `Ports.DecodePorts` | PacketRusher/lib/gtp5g/src/genl/genl_pdr.c:705-726 | The attribute bytes are read as ordered ranges, word by word. |
| `Ports.FillParseIdentity` | PacketRusher/lib/gtp5g/src/genl/genl_pdr.c:791-805 | Dumping a rule's port ranges and parsing them again is the identity on what parsing produces. |
| `Ports.ParsedRangesOrdered` | PacketRusher/lib/gtp5g/src/genl/genl_pdr.c:705-749 | Every parsed range has its lower bound first, so the identity applies to it. |
| `Ports.PortsMatch` | PacketRusher/lib/gtp5g/src/pfcp/pdr.c:181-193 | The scan accepts a port iff a range contains it. |
| `Usage.UsageConserved` | PacketRusher/lib/gtp5g/src/gtpu/encap.c:550-589 | Main result. Over any run, per direction: reported plus held plus discarded volume equals counted volume, up to whole 2^64 wraps. |
| `Usage.UsageConservedExactly` | PacketRusher/lib/gtp5g/src/gtpu/encap.c:550-589 | And exactly so while the counted volume stays below 2^64. |
| `Usage.TotalsAgree` | PacketRusher/lib/gtp5g/src/gtpu/encap.c:550-589 | In every counter and every report the total is uplink plus downlink. |
| `Usage.IncrementAndCheck` | PacketRusher/lib/gtp5g/src/gtpu/encap.c:550-589 | The stepwise update adds the volume to its direction and answers whether a flagged, non-zero limit is reached. |
| `Usage.PeriodReport` | PacketRusher/lib/gtp5g/src/pfcp/urr.c:257-290 | Main result. Over any run of packets and queries in order, with a report in every period passed, a final query reports exactly the volume measured in the period before its own if it is the first report of its period, and nothing otherwise. |
| `Usage.TwoReportsIff` | PacketRusher/lib/gtp5g/src/gtpu/encap.c:648-668 | One URR puts at most two entries in the report list, and two iff the packet reaches both its threshold and its quota. |
| `Usage.OverrunIff` | PacketRusher/lib/gtp5g/src/gtpu/encap.c:611-674 | The list of a PDR, with one slot per URR id, is overrun iff the URRs that give two entries are more than the ids that give none. |
| `Usage.TwoReportsReached` | PacketRusher/lib/gtp5g/src/gtpu/encap.c:648-668 | A fresh URR, configured with a threshold and a quota of one byte, gives two reports for its first byte. |
| `Usage.ReportsByPeriod` | PacketRusher/lib/gtp5g/src/pfcp/urr.c:257-290 | With time in order and a report in every period, the first report of a period carries exactly the volume of the period before, and later ones carry nothing. |
| `Usage.CountersByPeriod` | PacketRusher/lib/gtp5g/src/pfcp/urr.c:257-290 | At any time the current counter holds this period's volume and the previous one last period's until a report takes it. |
| `Usage.RunIsTicks` | PacketRusher/lib/gtp5g/src/genl/genl_report.c:426-445 | Any run of packets and queries moves and reports the counters as its ticks do, so the period results hold of it. |
| `Usage.AlwaysBelowQuota` | PacketRusher/lib/gtp5g/src/gtpu/encap.c:645-672 | In every reachable state an unexhausted URR is strictly below a flagged, non-zero total quota. |
| `Usage.OvershootBounded` | PacketRusher/lib/gtp5g/src/gtpu/encap.c:645-672 | The packet that exhausts the quota overshoots by less than its own volume. |
| `Usage.StoppedUntilNewInfo` | PacketRusher/lib/gtp5g/src/gtpu/encap.c:622-672 | Once measurement is off nothing is counted until new measurement information clears the bit; a new quota alone does not. |
| `Usage.ResumesExactly` | PacketRusher/lib/gtp5g/src/genl/genl_urr.c:345-361 | Exactly which reconfigurations turn measurement back on. |
| `Usage.FilledExactly` | PacketRusher/lib/gtp5g/src/genl/genl_urr.c:320-368 | Exactly which reconfigurations leave a URR exhausted, and which empty its counters or its consumed volume. |
| `Usage.GivenUpIff` | PacketRusher/lib/gtp5g/src/gtpu/encap.c:622-640 | A packet is given up iff the URR measures volume, is not stopped and has no trigger bit at all; a start or quota report leaves the URR exhausted. |
| `Usage.NewlyConfigured` | PacketRusher/lib/gtp5g/src/genl/genl_urr.c:320-368 | A new URR has exactly what the request that makes it gives, and zero or nothing for the rest. |
| `NoPeriod.ReportsSinceLast` | PacketRusher/lib/gtp5g/src/pfcp/urr.c:267-290 | Main result. Without a period, after any run of packets and queries, the first report of the next event carries per direction exactly the volume measured since the report before, modulo 2^64; further reports of the event carry nothing, and nothing is held after it. |
| `NoPeriod.ThresholdReportIff` | PacketRusher/lib/gtp5g/src/gtpu/encap.c:645-668 | The first report a packet causes by its threshold shows the limit reached iff there is no period, or the counter of the period before reaches it by itself. |
| `NoPeriod.ThresholdReportExample` | PacketRusher/lib/gtp5g/src/gtpu/encap.c:645-668 | A threshold of 1000 and a first packet of 1500: reported as 1500 without a period, as 0 with any. |
| `Quota.RestoresIffDistinct` | PacketRusher/lib/gtp5g/src/pfcp/urr.c:83-173 | Main result. Exhausting and reversing restores every assignment of FAR actions iff the matching PDRs have pairwise distinct FARs and pairwise distinct ids. |
| `Quota.SharedFarExample` | PacketRusher/lib/gtp5g/src/pfcp/urr.c:104-124 | Two PDRs sharing one forwarding FAR: it is left dropping. |
| `Quota.ReplayAllRestores` | PacketRusher/lib/gtp5g/src/pfcp/urr.c:137-173 | The nested replay loops give each FAR the action the closed form says. |
| `UrrObject.ExhaustThenReverse` | PacketRusher/lib/gtp5g/src/pfcp/urr.c:83-173 | Any positive number of exhaust calls and one reverse call on the objects leaves exactly the closed-form actions, the old ones when FARs and ids are distinct. |
| `UrrObject.ExhaustTimes` | PacketRusher/lib/gtp5g/src/pfcp/urr.c:83-135 | However often it is called, exhaustion makes every linked FAR drop and keeps the first remembered actions. |
| `UrrObject.QuotaExhaustAction` | PacketRusher/lib/gtp5g/src/pfcp/urr.c:83-135 | What is remembered for each visited node, including the drop found at a FAR visited before. |
| `UrrObject.ReverseQuotaExhaustAction` | PacketRusher/lib/gtp5g/src/pfcp/urr.c:137-173 | Each FAR's action after the replay; the URR counts as unexhausted. |
| `UrrObject.ExhaustOnDevice` | PacketRusher/lib/gtp5g/src/pfcp/urr.c:83-135 | On a valid device exactly the FARs drop that stand behind a PDR with a node in the URR's bucket and the id in its list, of any session; all others keep their action. Every installed PDR of the session that refers to the URR drops, and the device stays valid. |
| `QuotaLoss.InnocentSessionDrops` | PacketRusher/lib/gtp5g/src/pfcp/urr.c:104-117 | Two sessions, each with a PDR and a URR 7, in one bucket: exhausting the quota of the first makes the second drop. |
| `UrrObject.ProcessPacket` | PacketRusher/lib/gtp5g/src/gtpu/encap.c:591-718 | A packet moves the URR, produces the reports and changes FAR actions exactly as the step function says. |
| `UrrObject.ConvertToReport` | PacketRusher/lib/gtp5g/src/genl/genl_report.c:426-445 | The report takes the counter `get_usage_report_counter` gives for the previous period, which is then zero. |
| `UrrObject.GetUsageReportCounter` | PacketRusher/lib/gtp5g/src/pfcp/urr.c:267-290 | The nested tests choose the first counter without a period, and otherwise by the parity of the period. |
| `UrrObject.ParseLimit` | PacketRusher/lib/gtp5g/src/genl/genl_urr.c:370-424 | Of a threshold or quota exactly the parts given change. |
| `UrrObject.UrrFill` | PacketRusher/lib/gtp5g/src/genl/genl_urr.c:320-368 | A reconfiguration changes the URR as the fill function says and exhausts or restores the FARs accordingly. |
| `Policer.RateBound` | PacketRusher/lib/gtp5g/src/gtpu/trTCM.c:42-93 | Main result. In any run of k packets the admitted bytes A satisfy A*10^9 <= (tc+te)*10^9 + r*(elapsed + carry) + k*(r-1), at rate zero without the last term. |
| `Policer.IdealIff` | PacketRusher/lib/gtp5g/src/gtpu/trTCM.c:60-68 | Main result. The bound without the per-packet term holds of a new policer iff its byte rate divides 10^9 or is a multiple of it; then it holds from every state such a policer can be in. |
| `Policer.SteadyPasses` | PacketRusher/lib/gtp5g/src/gtpu/trTCM.c:42-93 | From full buckets, packets timed to find the same time to credit are admitted for ever. |
| `Policer.IdealBoundFails` | PacketRusher/lib/gtp5g/src/gtpu/trTCM.c:60-68 | At 4.8 Gbit/s, starting from what the constructor sets up, the ideal bound is exceeded. |
| `Policer.TokensConserved` | PacketRusher/lib/gtp5g/src/gtpu/trTCM.c:70-92 | Admitted bytes, tokens left and tokens spilled add up to the tokens at the start plus those refilled. |
| `Policer.TimeAccounted` | PacketRusher/lib/gtp5g/src/gtpu/trTCM.c:50-68 | Refilled and carried time equal elapsed time plus a rounding slack of less than the rate per packet. |
| `Policer.RefillExact` | PacketRusher/lib/gtp5g/src/gtpu/trTCM.c:60-68 | One refill: credited plus carried time is exact up to its slack, and the carry stays below one token and one rate unit. |
| `Policer.RateUnits` | PacketRusher/lib/gtp5g/src/gtpu/trTCM.c:12-40 | The rate is in bytes a second, and the burst is what it earns in eight milliseconds, at least 1500 bytes. |
| `Policer.TrafficPolicer.PolicePacket` | PacketRusher/lib/gtp5g/src/gtpu/trTCM.c:42-93 | The object follows the unbounded arithmetic step for step, keeping its invariant, whenever the gap times the rate leaves room in 64 bits; and the color always goes by the tokens held before the refill. |
| `Policer.TrafficPolicer.constructor` | PacketRusher/lib/gtp5g/src/gtpu/trTCM.c:12-40 | The new policer satisfies the invariant with full buckets. |
| `Policer.NoWrap` | PacketRusher/lib/gtp5g/src/gtpu/trTCM.c:50-68 | No 64-bit product, sum or difference of the refill wraps under that condition. |
| `Policer.BitRateExactIff` | PacketRusher/lib/gtp5g/src/genl/genl_qer.c:297-299 | The 40-bit rate survives the 32-bit shift iff its high part is below 2^24. |
| `Gtpu.Receive` | PacketRusher/lib/gtp5g/src/gtpu/encap.c:236-347 | Main result. On arbitrary bytes, a packet is delivered with a tunnel, type and header length iff its bytes spell a well-formed header with those; and exactly which packets go to the application or are echo requests. |
| `Gtpu.WalkExtensions` | PacketRusher/lib/gtp5g/src/gtpu/encap.c:286-337 | The walk ends on every input, reads inside the packet only, and finds an end iff the bytes from the start to it are a chain of extension headers. |
| `Gtpu.ChainStep` | PacketRusher/lib/gtp5g/src/gtpu/encap.c:291-324 | One step of the walk is one extension header of the chain, in both directions. |
| `Gtpu.PushHeader` | PacketRusher/lib/gtp5g/src/gtpu/pktinfo.c:278-355 | The packet becomes the bytes of a well-formed header followed by the untouched payload; `GtpuBytes.FlagBits` and `GtpuBytes.WrittenBytes` say what those bytes are. |
| `GtpuBytes.FlagBits` | PacketRusher/lib/gtp5g/src/gtpu/pktinfo.c:336-348 | The flag byte, bit by bit: version one, the E bit iff there is a QFI and so an extension header, the S bit iff sequence numbers are on, never the PN bit. |
| `GtpuBytes.WrittenBytes` | PacketRusher/lib/gtp5g/src/gtpu/pktinfo.c:278-355 | Every byte that is written, and how many: length, tunnel, sequence number, the type 0x85, and one unit with the direction and the QFI. |
| `GtpuBytes.HeaderReadsOnce` | PacketRusher/lib/gtp5g/src/gtpu/encap.c:236-347 | A well-formed header, extension headers included, is determined by its bytes, whatever follows them. |
| `GtpuBytes.WrittenIsRead` | PacketRusher/lib/gtp5g/src/gtpu/pktinfo.c:278-355 | Main result. Whoever reads a well-formed header off a written packet gets its tunnel, sequence number, and exactly one extension header with its direction and QFI if it has one; the payload follows. |
| `Gtpu.WrittenIsCarried` | PacketRusher/lib/gtp5g/src/gtpu/pktinfo.c:278-355 | What was written carries the tunnel, and the payload stands after its header, for every payload, QFI and sequence setting. |
| `Gtpu.PushThenReceive` | PacketRusher/lib/gtp5g/src/gtpu/encap.c:236-347 | Writing and then receiving recovers tunnel and payload. |
| `Gtpu.LengthFieldIff` | PacketRusher/lib/gtp5g/src/gtpu/pktinfo.c:325-350 | The length field is right iff there is a QFI or no sequence number, and the size fits 16 bits. |
| `Suci.ConcealedIsRevealed` | PacketRusher/internal/common/sidf/suci_deconcealing.go:311-361 | Main result. Whatever CipherSuci builds, ToSupi reveals as the given country and network codes and the number as packing leaves it, for every scheme and ephemeral key. |
| `Suci.RevealedIff` | PacketRusher/internal/common/sidf/suci_concealment.go:116-153 | The number comes back unchanged iff the scheme is null, or it has no capital letter and no final f at an even length; every digit string does. |
| `Suci.ConcealedIff` | PacketRusher/internal/common/sidf/suci_concealment.go:116-153 | A digit number is concealed iff every part has its format, the whole has at least 14 digits and the key agreement comes about. |
| `Suci.ToSupiPanicsIff` | PacketRusher/internal/common/sidf/suci_deconcealing.go:311-361 | ToSupi panics iff it reaches, under a configured key of the right scheme, a profile output that seals the empty text. |
| `Suci.ProfileAPanicsIff` | PacketRusher/internal/common/sidf/suci_deconcealing.go:245-272 | Profile A decryption panics iff the input is exactly a key and the tag of the empty text, and the agreement comes about. |
| `Suci.ProfileBPanicsIff` | PacketRusher/internal/common/sidf/suci_deconcealing.go:274-309 | Profile B likewise, with the key in either form. |
| `Suci.SealedNothingPanics` | PacketRusher/internal/common/sidf/suci_deconcealing.go:167-184 | Such inputs exist for every key pair that agrees: sealing the empty text gives one. |
| `Suci.CipherSuciPanicsIff` | PacketRusher/internal/common/sidf/suci_concealment.go:116-153 | CipherSuci panics iff the length test passes under profile A or B and there is no home network key, or the keys agree and the number is empty. |
| `Suci.ProfileARoundTrip` | PacketRusher/internal/common/sidf/suci_concealment.go:22-64 | Profile A decryption undoes encryption under the matching key pair. |
| `Suci.ProfileBRoundTrip` | PacketRusher/internal/common/sidf/suci_concealment.go:66-114 | Profile B likewise, the key going out compressed. |
| `Suci.FormsDecryptAlike` | PacketRusher/internal/common/sidf/suci_deconcealing.go:200-243 | An output reads the same whichever form its key was sent in. |
| `Suci.OpenSealed` | PacketRusher/internal/common/sidf/suci_deconcealing.go:167-184 | Cutting, checking and deciphering what was sealed gives the text back. |
| `Suci.OpenedIff` | PacketRusher/internal/common/sidf/suci_deconcealing.go:167-184 | A text opens to exactly what sealing it gives: nothing with another tag or another text opens. |
| `SuciBytes.SealedIs` | PacketRusher/internal/common/sidf/suci_deconcealing.go:132-184 | Main result. A sealed text, byte by byte: the key; each byte of the text exclusive-or the keystream under the first 16 bytes of the first hash, counting from its second 16; eight bytes of the code of that under the second hash; the hashes being those of secret, 00 00 00 01 (then 02), key. |
| `SuciBytes.KdfBlockIs` | PacketRusher/internal/common/sidf/suci_deconcealing.go:153-165 | For any number of rounds, block i of the key material is the hash of the secret, four bytes that spell i + 1 most significant first, and the key. |
| `SuciBytes.PackedDigits` | PacketRusher/internal/common/sidf/suci_deconcealing.go:363-380 | A digit number is packed two digits to a byte, the earlier one low, an odd length filled up with fifteen. |
| `SuciBytes.SentIs` | PacketRusher/internal/common/sidf/suci_concealment.go:116-153 | What CipherSuci sends: the number itself, or in hexadecimal the sealed packed number under the agreed secret. |
| `Suci.DerivedKeys` | PacketRusher/internal/common/sidf/suci_deconcealing.go:167-173 | The three keys are a partition of the 64 derived bytes into 16, 16 and 32. |
| `Suci.AnsiX963KDF` | PacketRusher/internal/common/sidf/suci_deconcealing.go:153-165 | The appending loop gives the blocks `SuciBytes.KdfBlockIs` describes. |
| `Suci.RoundsSuffice` | PacketRusher/internal/common/sidf/suci_deconcealing.go:156 | The number of rounds is the least that gives enough bytes. |
| `Suci.CtrTwice` | PacketRusher/internal/common/sidf/suci_deconcealing.go:142-151 | Ciphering twice under the same keys is the identity. |
| `Suci.ParseImsiIff` | PacketRusher/internal/common/sidf/suci_deconcealing.go:88-107 | Parsing and formatting a subscriber-number identity are inverse: each well-formed one parses as itself, and whatever parses is well-formed and formats back. |
| `SuciFormat.ParseNaiIff` | PacketRusher/internal/common/sidf/suci_deconcealing.go:88-107 | The same for the network-access kind, whose name may hold separators. |
| `SuciFormat.KeyIdIff` | PacketRusher/internal/common/sidf/suci_deconcealing.go:61-62 | A public key number is what the four alternatives of its pattern allow. |
| `SuciFormat.FormatsAre` | PacketRusher/internal/common/sidf/suci_deconcealing.go:37-64 | The other formats, character by character. |
| `SuciFormat.OtherIdentities` | PacketRusher/internal/common/sidf/suci_deconcealing.go:311-327 | What does not parse goes through unchanged iff it starts with imsi- or nai-, and a network-access identity is refused. |
| `Suci.ParsedAsGiven` | PacketRusher/internal/common/sidf/suci_concealment.go:142-152 | If the formatted text parses, its fields are the arguments: none held a separator. |
| `Suci.LawfulExists` | PacketRusher/internal/common/sidf/suci_deconcealing.go:186-243 | The equations assumed of the primitives can be met. |
| `HexText.Tbcd` | PacketRusher/internal/common/sidf/suci_deconcealing.go:363-380 | The in-place swap computes the padded, swapped and stripped text; the empty text panics. |
| `HexText.TbcdThroughHex` | PacketRusher/internal/common/sidf/suci_deconcealing.go:363-380 | Packing to bytes and back: what every accepted number becomes, with the odd-length padding coming back as f and going away. |
| `HexText.RecoveredIff` | PacketRusher/internal/common/sidf/suci_deconcealing.go:363-380 | Which numbers survive packing unchanged. |
| `HexText.EncodeOfDecode` | PacketRusher/internal/common/sidf/suci_deconcealing.go:245-272 | Decoding and encoding hexadecimal text lowers its letters and changes nothing else. |
| `NasCount.RunExactIff` | PacketRusher/test/aio5gc/msg/nas/codec/decoder.go:41-136 | Main result. For every run, with losses, new contexts, the wrap at 2^24 and any injected messages at all: every message that arrives is accepted as sent under the sender's count iff each arrives with the sender at most 255 ahead of where the receiver starts; and an injected message moves the receiver only to a count under which its code verifies. |
| `NasCount.RunExact` | PacketRusher/test/aio5gc/msg/nas/codec/decoder.go:52-134 | So it is in every run in which no message arrives after too long a loss, a lost new context, or an injected message (an old new-context message repeated, say) that has put the receiver out of reach, until a new context. |
| `NasCount.AcceptedIff` | PacketRusher/test/aio5gc/msg/nas/codec/decoder.go:76-136 | One message is accepted as sent iff the sender is at most 255 ahead of the receiver's count, or of zero for a new context. |
| `NasCount.RepetitionIff` | PacketRusher/test/aio5gc/msg/nas/codec/decoder.go:76-136 | A message repeated at any later time is accepted as sent again iff it opens a new context, the receiver still stands at its count, or has come round to at most 255 before it. |
| `NasCount.OldContextReopens` | PacketRusher/test/aio5gc/msg/nas/codec/decoder.go:83-90 | A new-context message is accepted at every receiver count, and sets the receiver to zero. |
| `NasCount.AfterReopeningIff` | PacketRusher/test/aio5gc/msg/nas/codec/decoder.go:83-134 | From zero the sender's ordinary messages are accepted as sent iff their count is at most 255. |
| `NasCount.RebuildIff` | PacketRusher/test/aio5gc/msg/nas/codec/decoder.go:95-98 | The 24-bit count is rebuilt from 8 bits iff the sender is at most 255 ahead, modulo 2^24. |
| `NasCount.LossLimitIff` | PacketRusher/test/aio5gc/msg/nas/codec/decoder.go:95-98 | After an accepted message exactly up to 254 losses are survived, 255 only before the first one. |
| `NasCount.RepetitionAccepted` | PacketRusher/test/aio5gc/msg/nas/codec/decoder.go:95-134 | The message accepted last, repeated, is accepted again under the same count and changes nothing. |
| `NasCount.OnlyVerifiedMoves` | PacketRusher/test/aio5gc/msg/nas/codec/decoder.go:101-134 | The receiver's count moves only to a count under which the message's code verifies. |
| `NasCount.AcceptProtected` | PacketRusher/test/aio5gc/msg/nas/codec/decoder.go:41-136 | A protected message is read back as itself under its count by a receiver at most 255 behind. |
| `NasCount.UeSecurity.NasEncode` | PacketRusher/internal/control_test_engine/ue/nas/message/nas_control/integrity-ciphering-nas.go:31-86 | The message built, and that the count moves by one for each message built and for nothing else but a new context. |
| `NasCount.SecurityContext.Decode` | PacketRusher/test/aio5gc/msg/nas/codec/decoder.go:41-136 | The stepwise decoder returns and commits exactly what `Accept` says, error paths included. |
| `NasCount.NullAlgorithmsLawful` | PacketRusher/internal/control_test_engine/ue/nas/message/nas_control/integrity-ciphering-nas.go:54-68 | The laws assumed of the algorithms hold of the null algorithms. |

## Left out

- Rules.Gtp5gDev.AddPdr: a new PDR without a FAR id, whose attributes are all taken, makes `pdr_fill` read through a null pointer; here the request is refused with a status of its own.
- Rules.Gtp5gDev.PdrFill: the unix socket of a PDR is one parameter that says whether it could be set up.
- Rules.Gtp5gDev.AddQer: of a QER only whether it has policers is kept; the gate and QFI that `pdr_fill` copies into a PDR are not modelled, and no coherence is claimed for them.
- Rules.Gtp5gDev.AddFar: the mark of a forwarding policy is taken from the request; the code reads it from a buffer that is copied into without a terminator, so a shorter policy keeps the tail of the one before.
- LastWriter.FarsHeld: so the mark is the number the last accepted policy spells by itself.
- Rules.Gtp5gDev.DelPdr: a node that outlives its PDR points to an inert object; the lifetime of freed memory is not modelled.
- Rules.Gtp5gDev.FindByGtp1u: the check of the outer GTP-U address, which the build leaves out, is not modelled.
- Rules.Gtp5gDev.UpdateHlist: `hlist_del_rcu` is taken to clear membership; the poisoned pointer it leaves, and exactly when that is used, are modelled for one PDR at a time in `HashLinks`.
- Sdf.SdfFilterMatch: TOS traffic class, security parameter index, flow label and filter id do not take part in the code's match and are not modelled.
- Sdf.SubnetRuleAccepts: addresses and masks are numbers, the first byte most significant; the flow text is modelled for its ports only.
- Suci.ParseImsiIff: the regular expression is modelled by the fields between separators; text is a sequence of characters, not UTF-8 bytes.
- Suci.ConcealedIsRevealed: the key pair belongs together and sits at the index the key id names; the primitives obey the equations of `Crypto.Lawful`.
- NasCount.RunExact: the integrity and ciphering algorithms do not fail on messages that are sent; a repeated new-context message is a run in which the count is set back, and the messages above count 255 that arrive after it are outside this statement (they are in `NasCount.RunExactIff`); encoding and decoding of the inner message are parameters; the mock AMF's own encoder and its `SetDLCount` are not in the run.
- NasCount.SecurityContext.Decode: deciphers a copy; that the caller's buffer is overwritten is not modelled.
- Usage.UsageConserved: deleting a URR is not an event; what a START trigger clears is counted as discarded.
- Usage.RunIsTicks: a run has no reconfiguration in it; report times and trigger values of a report are not modelled.
- UrrObject.ConvertToReport: the start and end times of a report are not modelled.
- UrrObject.ProcessPacket: the report list grows as needed, where the code allots one slot per URR; one URR of the packet's PDR; whether another URR gives the packet up is a parameter.
- Policer.TrafficPolicer.PolicePacket: outside the stated range only the configuration, the time stamp and the color are described.
- Policer.TrafficPolicer.constructor: takes a 32-bit rate, which is all that `qer_fill` can pass after its 32-bit shift.
- RCU, locks, allocation failure and memory reclamation: steps run one at a time and always allocate.
- Netlink framing: requests carry version zero, as the family does (`RuleData.FirstStepIff`); dump and get requests, sockets, routing, IP and UDP output, the proc interface: input and output.
- BARs, buffering and the forwarding path after detection: no further state to relate.
- Byte order: identifiers and addresses are numbers, and only the headers on the wire are bytes.
- The gNB and UE control planes, the scenario loop, configuration and the command line: goroutine plumbing or easier properties.
