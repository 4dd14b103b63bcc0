# safexip in Dafny

safexip is the authoritative DNS server of one zone. It answers address queries from the name itself
(`app-10-0-0-1.<zone>`), and it holds short-lived ACME challenge tokens that an authenticated HTTP API
adds and removes and that TXT queries for `_acme-challenge.<zone>` return. This project models those two
halves and proves what a client may rely on, up to theorems about any run of API calls and DNS requests.

How the pieces fit:

* `Store`, `History`, `Runs` and `Versions` describe the token store as atomic steps (one write lock is
  held for the whole of each operation) over any sequence of nondecreasing clock readings. `add` reads
  the clock twice, to prune and to stamp the token, so an add carries two readings. The class
  `AcmeRecords` performs the steps in place and is proved equal to them; its ghost log records the
  successful changes. The lazily pruned store is shown to be the eager history that the log defines.
* `Encoder` counts the octets of an encoded message: header, question, records, name compression
  (sections 4.1.1 to 4.1.4 of RFC 1035), an 11-octet OPT record (section 6.1.2 of RFC 6891), at most
  65535 octets, and a record that does not fit is dropped with the rest of its section and sets TC.
  `WireCapacity` is the admission test built on it, and the search for the largest token count.
  Monotonicity and independence of order are proved from the encoder, compression included.
* `Responder`, `Delivery` and `DnsHandler` are the reply decisions and the rule that a reply is sent
  whole or not at all. `Xip` is the address parser, `RateGate` the token bucket, `Configuration` and
  `Api` the validation at the edges, and `Service` composes everything: its runs are what the methods
  of `ApiState` and `DnsHandler` do, call by call, from the state that `Startup` sets up. `Lifecycle`
  follows one token from its presentation to its cleanup or expiry. `Spelling` and
  `SpellingRuns` settle what happens to a challenge query in an unusual letter case.

Two readings of the code shape the statements:

* Whether the DNS library matches names up to letter case when it compresses them cannot be seen in
  this repository, so it is a parameter (`Compression`). The capacity template spells the question as
  the answers are spelled, while a live reply echoes the question as it was asked. "Always served
  whole" is therefore proved for the folded spelling under either library, and for every spelling under
  a library that folds (`Compressible`). For the remaining spellings, under a library that compares exact
  spellings, `SpellingRuns.RefusedIff` gives the exact condition on the configuration: some run leads to
  SERVFAIL iff the token limit times 268 octets, with the overhead and the octets that the spelling costs,
  passes 65535. Up to a limit of 239, the default of 100 included, no run does
  (`SpellingRuns.SmallLimitNeverOverruns`); past the condition `SpellingRuns.OverrunIsReached` constructs a
  run of accepted presentations, with values of lower-case letters, that does, and
  `SpellingRuns.RefusedExample` is a concrete one. `Overhead` gives the overhead in lengths of the
  configured names. In every case the reply is whole or SERVFAIL (`Delivery.AllOrNothing`).
* The test named `serial_tracks_effective_rrset_changes_only` (src/state.rs:257) suggests that the
  serial only moves when the data does. The code also moves it when an add puts back the very value that
  its own pruning has just dropped (src/state.rs:59, 95-99). The model follows the code.
  `Versions.AdvanceOverSameSetIff` says exactly when the serial advances over the same set of names and
  values, and `Versions.AdvanceOverSameDataIff` when even the order of every list is the same; two runs
  from the empty store show both. The sound direction, that an unchanged serial means unchanged data, is
  `Versions.VersionConsistency`.

`dafny verify dfyconfig.toml` checks the whole project.

## Model

| member | source | states |
|---|---|---|
| Service.EndToEnd | src/dns.rs:20-75 | after any run of API calls and DNS requests, a challenge query over TCP gets NOERROR without TC, at most 65535 octets, whose answers are the values that the log says are live, in order, each as the one string of a TXT record with the configured TTL under the challenge name, and the SOA of that version |
| Service.EndToEndUdp | src/dns.rs:33-55 | over UDP the same query gets the TCP reply if it is within the client's limit, and otherwise the reply with TC set and no records; never SERVFAIL |
| Service.SerialIdentifiesAnswer | src/dns.rs:148-160 | replies to any two challenge queries that carry the same SOA hold the same records, if the zone has advanced fewer than 2^32 times between them |
| Service.TotalIsBounded | src/state.rs:73-93 | in every reachable state the number of stored tokens is within the token limit, and within what one reply can carry even for a limit that validation would refuse |
| Service.ValuesOfNameFit | src/state.rs:81-98 | the values of one name, in any state that respects the capacity, pass the capacity test by themselves |
| Spelling.SpelledSize | src/dns.rs:131-131 | a challenge reply to any spelling takes the octets of the capacity template moved back by the labels that are not spelled as in the answers; without values, those of the SOA right behind the question |
| Spelling.ServedIff | src/dns.rs:57-75 | a challenge query in any spelling, with any values or none, gets the whole reply iff the template with the octets of the spelling stays within 65535, and SERVFAIL otherwise |
| SpellingRuns.RefusedIff | src/dns.rs:33-75 | a run of API calls and DNS requests that leads to SERVFAIL for a challenge query exists, over TCP and equally over UDP, iff the query's spelling cannot be compressed against and the overhead of a message (counting the OPT record only if the query has one), the cost of the spelling and 268 octets for each token that the limit allows add up to more than 65535 |
| SpellingRuns.EverySpellingIsServed | src/dns.rs:20-75 | outside that condition, after every run, the query gets over TCP the full answer with exactly the live values, in any spelling and under either library, and over UDP the same or, if it is too large for the client, the emptied reply |
| Lifecycle.PresentedTokenIsServed | src/api.rs:151-169 | a token that was presented and admitted is a TXT string in the answer to every challenge query within its lifetime, in any spelling outside that condition, until it is cleaned up, whatever the service is asked to do in between |
| Lifecycle.CleanedUpTokenIsGone | src/api.rs:171-180 | after an admitted, acceptable cleanup the value is in no challenge reply, in any spelling, over TCP or UDP, until it is presented again |
| Lifecycle.ExpiredTokenIsGone | src/state.rs:152-160 | from the end of its lifetime on a presented token is in no challenge reply until it is presented again |
| SpellingRuns.OverrunIsReached | src/wire.rs:60-76 | under that condition, from every initial serial, there is a run of presentations with values of lower-case letters, all accepted, after which the query gets SERVFAIL |
| SpellingRuns.SmallLimitNeverOverruns | src/config.rs:92-98 | for every configuration with a token limit up to 239, the default 100 included, the condition fails for every spelling |
| SpellingRuns.LargeLimitOverruns | src/config.rs:118-123 | from a token limit of 245 on the condition holds for every spelling that cannot be compressed against |
| SpellingRuns.RefusedExample | src/dns.rs:57-75 | a concrete accepted configuration (zone `a`, nameservers `b.a` and `c.a`, limit 245), a concrete query (`_Acme-challenge.a`), and the run after which it gets SERVFAIL |
| Overhead.OverheadInOctets | src/wire.rs:60-76 | for every accepted configuration the overhead is the wire length of the challenge name, the labels of the nameserver in front of the zone, or of the challenge name if the nameserver is at or below it, and 69 octets |
| Overhead.OrdinaryOverhead | src/wire.rs:60-76 | for a nameserver one label below the zone the overhead is 88 octets more than the zone text and that label together |
| SpellingRuns.FillAll | src/state.rs:57-101 | distinct values that fit together and are within the token limit are all admitted one by one, and the store then holds exactly them in that order |
| Runs.RunKeepsInv | src/state.rs:57-160 | every run keeps agreement with the log, no duplicate and no empty list, the token limit and the wire capacity |
| Runs.ReachableInv | src/state.rs:40-160 | all of that holds in every state reachable from the empty store |
| Runs.HistoryRefinement | src/state.rs:124-137 | a read after any run returns v under n iff the last successful change of (n, v) is an add stamped less than a lifetime ago; each value once, in order of latest insertion |
| Runs.ReachableFits | src/state.rs:81-98 | in every reachable state any part of the stored values, in any order, passes the capacity test |
| Runs.AdmissionIsEager | src/state.rs:57-100 | an add is decided by what is live in the log alone, so expired tokens never cause a refusal, and a refusal changes no live value and no expiry |
| Runs.AddEffect | src/state.rs:57-101 | after an add everything else stored is exactly what else is live, and the added value is stored iff the add succeeds |
| Runs.RemoveEffect | src/state.rs:103-117 | after a removal exactly the other live values are stored |
| Runs.AddedValueIsServed | src/state.rs:57-137 | an added value that is not removed is in every read within its lifetime, whatever other operations run |
| Runs.ReadsAreUnobservable | src/state.rs:124-145 | erasing all reads from a timely run leaves a timely run with the same log, the same result of every add and the same values in every later read; only the serial can differ |
| History.LiveListIsUnique | src/state.rs:124-137 | the log determines the list that a read returns, order included |
| History.AliveKeeps | src/state.rs:152-160 | pruning a list drops no live value, keeps stamps and insertion order, and leaves only unexpired tokens |
| History.ListPush | src/state.rs:95-98 | pushing a value that is absent keeps the list in agreement with the log, as its latest insertion |
| History.ListRefresh | src/state.rs:61-66 | restamping a live value in place keeps agreement with the log and every position in the order |
| History.ListRemove | src/state.rs:106-113 | removing a value keeps agreement with the log that records the removal |
| Versions.StepAdvancesAtMostOnce | src/state.rs:57-150 | one operation advances the serial by 0 or 1, and by 0 only over unchanged values under every name |
| Versions.RunSerial | src/state.rs:148-150 | after a run the serial has moved by the number of advances |
| Versions.AdvanceByIsModular | src/state.rs:148-150 | n advances are addition of n modulo 2^32 |
| Versions.VersionConsistency | src/state.rs:57-150 | with fewer than 2^32 advances between two observations, equal serials mean identical lists for every name; after 1 to 2^31-1 advances the later serial is greater under section 3.2 of RFC 1982 |
| Versions.AdvanceOverSameDataIff | src/state.rs:57-101 | the serial advances over identical ordered lists iff an add puts back the only token that its own pruning dropped, last in its list |
| Versions.AdvanceOverSameSetIff | src/state.rs:57-101 | the serial advances over the same set of names and values iff an add puts back the one value that its own pruning dropped, wherever that was in its list |
| Versions.ReorderingAdvanceExample | src/state.rs:57-101 | a run from the empty store: of two values added, the first is added again when it expires, and the serial moves over the same set in another order |
| Versions.SpuriousAdvanceExample | src/state.rs:57-101 | a run from the empty store: a value added again when it expires moves the serial over the same data |
| AcmeRecordsClass.AcmeRecords.WithSerial | src/state.rs:40-55 | a new store is empty, with the given serial, and satisfies the invariant |
| AcmeRecordsClass.AcmeRecords.TokenCount | src/state.rs:73-73 | the sum over the map, in any walking order, is the number of distinct (name, value) pairs |
| AcmeRecordsClass.AcmeRecords.AllValues | src/state.rs:81-86 | the flattened values, in any walking order, are as a bag all stored values |
| AcmeRecordsClass.AcmeRecords.Prune | src/state.rs:152-160 | the walk over the map leaves exactly the unexpired tokens, and the comparison of counts says whether anything changed |
| Runs.PruneChangesCount | src/state.rs:154-159 | the number of tokens differs after pruning iff the records differ |
| AcmeRecordsClass.AcmeRecords.Add | src/state.rs:57-101 | result and new state are those of the specified step, the result is the eager decision of the log, a success is logged, and the invariant is kept |
| AcmeRecordsClass.AcmeRecords.AddAfterPrune | src/state.rs:61-100 | the in-place search, refresh, two refusals and push produce the specified records, serial and result |
| AcmeRecordsClass.AcmeRecords.Remove | src/state.rs:103-117 | new state is that of the specified step, the removal is logged, and the invariant is kept |
| AcmeRecordsClass.AcmeRecords.GetWithSerial | src/state.rs:124-137 | returns the live list of the log, with the serial of the version that holds it |
| AcmeRecordsClass.AcmeRecords.CurrentSerial | src/state.rs:139-145 | returns the serial after pruning, with the invariant kept and the log untouched |
| WireCapacity.Capacity.Response | src/wire.rs:60-76 | the message built step by step is the template with one TXT record per value |
| WireCapacity.FitsIff | src/wire.rs:27-30 | encoding and decoding the template succeeds without loss iff every value is at most 255 octets and the octets add up to at most 65535 |
| WireCapacity.FitsSubBag | src/wire.rs:27-30 | any part of an accepted list, in any order, is accepted |
| WireCapacity.FitsAnyOrder | src/wire.rs:27-30 | the order in which the map is walked does not matter |
| WireCapacity.FitsIsDownward | src/state.rs:81-93 | the test meets what the store relies on, and accepts the empty list |
| WireCapacity.TailIsMonotone | src/wire.rs:71-75 | longer answers never give a shorter message, even where the SOA can compress less |
| WireCapacity.SearchMaximum | src/wire.rs:32-53 | for any predicate: the result fits or is 0, the next count does not fit or the result is 65535, and at most 32 evaluations are made |
| WireCapacity.Capacity.MaximumTokenCount | src/wire.rs:32-53 | the same local maximality for the count test itself |
| WireCapacity.FitsCountIff | src/wire.rs:55-58 | n one-octet values fit iff overhead + 14 n is at most 65535 |
| WireCapacity.MaximumIsGlobal | src/wire.rs:32-53 | what the search returns is (65535 - overhead) / 14, and a count fits iff it is at most that |
| WireCapacity.AcceptedListIsShort | src/wire.rs:27-58 | any accepted list of non-empty values is no longer than the greatest count |
| WireCapacity.LiveSize | src/wire.rs:60-76 | a live reply takes the octets of the template with the same values, 11 fewer without EDNS, whatever the serial |
| WireCapacity.LiveFits | src/wire.rs:60-92 | a live reply with admitted values is written whole |
| Encoder.SectionIsWholeIff | src/wire.rs:83-92 | a section is written whole iff all its records can be encoded and end within the limit |
| Encoder.CompleteIff | src/wire.rs:83-92 | nothing is dropped and TC is clear iff every record can be encoded and the full size is within 65535; such a message decodes to itself |
| Encoder.EncodedWithinLimit | src/dns.rs:660-691 | an encoding never exceeds 65535 octets |
| Encoder.WriteFreshName | src/wire.rs:63-63 | a name met for the first time is written in full and makes all its suffixes reachable |
| Encoder.RecordKeepsBehind | src/wire.rs:64-71 | a record written later, with fewer reachable names, ends no earlier |
| Encoder.RecordCostIsConstant | src/wire.rs:64-71 | past offset 2^14 the cost of a record does not depend on where it is written |
| Encoder.RecordOctets | src/wire.rs:95-105 | behind a pointer to its owner an A record takes 16 octets, a TXT record 13 and its string, an NS record 14 with a pointer and 12 with its target in full, an SOA record 36 with two pointers |
| Encoder.PointerReach | src/wire.rs:63-71 | a name written for the first time can be pointed to iff it starts before octet 16384 |
| Configuration.Config.ValidateNames | src/config.rs:103-118 | accepts iff the nameservers differ and are in the zone and the derived names are legal; each error names a fault that is there |
| Configuration.Config.Validate | src/config.rs:102-125 | accepts iff moreover the token limit is a count that fits; a limit too high is answered with the greatest count that fits |
| Configuration.NormalIff | src/config.rs:136-143 | the results of parsing a name are exactly the lower-case legal names, and each is accepted again as itself |
| Configuration.OrdinaryConfigIsAccepted | src/config.rs:102-125 | two different labels in front of a zone that leaves room for them pass validation with any token limit up to 4604, so the wire bound never refuses an ordinary configuration |
| Configuration.ParsedNamesAreNormal | src/config.rs:136-143 | what parsing returns is lower case, legal and without trailing dots, and compares equal to itself |
| Configuration.ParsedIff | src/config.rs:136-143 | parsing a raw name gives a name iff that is a legal text and the raw name spells it in some letter case with only dots behind it |
| Names.LegalTextIff | src/config.rs:141-141 | a text is legal iff it has at most 253 octets, all of them dots or name characters, and 1 to 63 between any two dots |
| Names.NameCharCodes | src/config.rs:141-141 | the name characters by their codes: letters, digits, hyphen and underscore |
| Text.LowerCharCodes | src/dns.rs:127-127 | folding by codes: 65 to 90 move up by 32, everything else stays |
| Configuration.CapacityIsValid | src/wire.rs:18-25 | accepted names give a capacity whose names are all legal, so its construction cannot fail |
| Configuration.NameserversAreInZone | src/config.rs:106-113 | a nameserver that validation accepts is in the zone for the query check too |
| Responder.NXDomainIffMissing | src/dns.rs:162-274 | a zone reply is NXDOMAIN iff the name does not exist, then without answers, and NOERROR otherwise |
| Responder.ExistenceIsTypeIndependent | src/dns.rs:142-274 | for one in-zone name and any two query types and store states, both replies are NXDOMAIN or neither is, and an answer for one type excludes NXDOMAIN for another |
| Responder.NoCutBelowAnyName | src/dns.rs:189-274 | for every in-zone name, NXDOMAIN or not, an ordinary address query for the name with the label `1-2-3-4-a` in front is answered NOERROR with a record |
| Responder.AnsweredNameExists | src/dns.rs:229-274 | whatever `resolve_a` and `txt_records` answer, `name_exists` covers; with accepted names a name exists iff some query type and some store content give it an answer |
| Responder.AuthorityIffInZone | src/dns.rs:91-160 | AA is set iff the request is ordinary and inside the zone, then with the SOA, written out, as only authority; every other reply is an error without records |
| Responder.FirstFaultDecides | src/dns.rs:96-146 | BADVERS for another EDNS version, else NOTIMP for another opcode, else FORMERR for another number of questions than one, else NOTIMP for another class than IN or ANY |
| Responder.AnsweredIff | src/dns.rs:162-224 | exactly which questions in the zone have answers, and which have additional records, type by type |
| Responder.ApexSoaIsAnswered | src/dns.rs:163-165 | an SOA query for the apex is answered with the SOA written out: TTL 10, the first nameserver, `admin.<zone>`, the serial, 3600, 900, 86400 and 10 |
| Responder.EncodedAddressIsAnswered | src/dns.rs:189-287 | an A query for a name carrying a printed address, behind any prefix and in any case, is answered with its four octets in order, with the default TTL, under the name as asked |
| Responder.ApexNameserversHaveGlue | src/dns.rs:170-184 | the apex NS answer is the two NS records, and the additional section the two A records with the configured address, all written out |
| Responder.NameserverIsAnswered | src/dns.rs:229-235 | the apex and the configured nameserver names resolve to the configured address with the default TTL |
| Responder.AcmeNameHasNoAddress | src/dns.rs:229-240 | an A query for the challenge name is NODATA iff no nameserver was given that name, and never NXDOMAIN |
| Responder.CaseIndependentReply | src/dns.rs:121-227 | requests that differ in letter case get replies that differ only in the echoed question and the owner of an A record |
| Names.CanonicalFold | src/dns.rs:127-127 | the form names are compared in depends on the labels only up to letter case |
| Names.CanonicalOfText | src/dns.rs:127-127 | labels that spell a configured name in any letter case compare equal to it |
| Delivery.AllOrNothing | src/dns.rs:57-89 | every request gets the whole reply if it fits, and else SERVFAIL without records; never part of a reply |
| Delivery.UdpAllOrNothing | src/dns.rs:33-55 | over UDP also the reply emptied with TC; within the client's limit and 1232 octets; NOERROR without TC is always the whole reply |
| Delivery.RequestIsEchoed | src/dns.rs:77-131 | every message sent, over TCP or UDP, emptied and SERVFAIL ones included, carries the id, opcode and RD of the request, QR and no RA; unless it is SERVFAIL it has EDNS iff the request has, with version 0, the smaller of its size and 1232, and its DO bit, and echoes the question; SERVFAIL has the questions and nothing else |
| Delivery.UdpSizeInOctets | src/dns.rs:41-49 | a UDP reply has at most 512 octets without EDNS or with a size up to 512, at most the advertised size up to 1232, and at most 1232 beyond; a reply that fits is sent whole exactly within that number |
| Delivery.WholeReplyIsSent | src/dns.rs:33-75 | a reply that fits is sent whole over TCP, and over UDP iff it is within the limit of the client, else emptied with TC |
| Delivery.UdpServfailIff | src/dns.rs:33-89 | every request gets SERVFAIL over UDP iff it does over TCP |
| Delivery.OtherRepliesFit | src/dns.rs:91-227 | every reply other than the challenge TXT reply always fits |
| Delivery.LiveReplySize | src/wire.rs:60-76 | the reply that the handler builds takes the octets of the template, 11 fewer without EDNS |
| Delivery.AdmittedValuesFit | src/wire.rs:27-30 | values that passed admission make a reply that fits |
| DnsHandlerClass.DnsHandler.CheckRequest | src/dns.rs:91-146 | the step-by-step checks refuse exactly the requests outside the zone lookup, with the code of the first check that fails |
| DnsHandlerClass.DnsHandler.ReadZoneFor | src/dns.rs:148-156 | values and serial come from one version; the values are the live list of the log |
| DnsHandlerClass.DnsHandler.AnswerQuestion | src/dns.rs:157-226 | the sections filled in step by step are those of the specified reply |
| DnsHandlerClass.DnsHandler.BuildResponse | src/dns.rs:91-227 | the response is the specified reply for one reading of the store, and only in-zone requests touch the store |
| DnsHandlerClass.DnsHandler.Handle | src/dns.rs:20-31 | nothing for what is not a query, else the specified reply, whole or SERVFAIL, which echoes the request; the store makes the step of the service run; with the limits of the configuration a challenge query gets the full answer, record by record, with the live list of the log |
| DnsHandlerClass.DnsHandler.HandleUdp | src/dns.rs:33-55 | the same over UDP, within 512, the advertised size or 1232 octets, where a challenge query may get the emptied reply instead |
| RateGate.TokenBucket.constructor | src/api.rs:49-60 | the bucket starts full |
| RateGate.TokenBucket.CheckRate | src/api.rs:62-73 | decision and new state are those of one step of the specified bucket |
| RateGate.LevelIsLeastRoom | src/api.rs:62-73 | the refilled level is the least room left by any window that ends now, and the room of one of them |
| RateGate.AdmittedIff | src/api.rs:62-73 | a call is admitted iff in every window from this or an earlier call the admissions with this one are at most burst + rate times length |
| RateGate.GateIsSound | src/api.rs:62-73 | what the bucket admits stays within that bound in every window |
| RateGate.GateIsMostPermissive | src/api.rs:62-73 | no pattern of decisions within the bound has admitted more calls at any point of a run |
| RateGate.RefusedCallsAreUnobservable | src/api.rs:62-73 | erasing any refused calls changes no other decision and no later refilled level |
| RateGate.ConcurrentCycleIsAdmitted | src/api.rs:97-107 | one present and one cleanup for each of the allowed tokens are all admitted, however fast they come |
| RateGate.BurstInCalls | src/api.rs:26-98 | the burst is 100 calls for up to 50 tokens and two calls for each token beyond, at 20 calls a second |
| Api.ValidatedIff | src/api.rs:237-252 | validation accepts iff the name is `_acme-challenge.<zone>` spelled in some letter case with only dots behind it, and the value has 1 to 255 octets; the request then acts on the folded name; otherwise the first fault is reported |
| ApiStateClass.ApiState.AuthorizeAndAdmit | src/api.rs:184-199 | an unauthorized call does not touch the bucket; the others get the decision of the bucket, then of the concurrency limit |
| ApiStateClass.ApiState.Present | src/api.rs:151-169 | an acceptable request fails iff the value is not live and the live values are at the limit, or do not fit with it; the log gains the add iff it succeeds, the value is stored then, and everything else stored is what else is live; any other request changes nothing; store, log and clock make the step of the service run |
| ApiStateClass.ApiState.Cleanup | src/api.rs:171-180 | an acceptable request succeeds, the log gains the removal, the value is no longer stored and every other live value is; any other request changes nothing; store, log and clock make the step of the service run |
| Startup.Start | src/main.rs:41-73 | exactly the accepted configurations start; API and DNS handler then share one empty store with the limits that the theorems about the service assume, behind a full rate gate with the burst of the router |
| Xip.ParseOctets | src/xip.rs:30-40 | returns the four octets iff each part parses as one |
| Xip.ParseXipIp | src/xip.rs:12-28 | the loop from the right computes the address function that the other members speak about |
| Xip.LastAddressIsRightmost | src/xip.rs:18-27 | an address is found iff some four consecutive parts are octets, and it is then the rightmost such window |
| Xip.PrintThenParse | src/xip.rs:12-40 | `a-b-c-d.<zone>`, in any case, parses to a.b.c.d |
| Xip.PrintThenParseWithPrefix | src/xip.rs:12-40 | so does `p-a-b-c-d.<zone>` for every prefix p, hyphenated and numeric ones included |
| Xip.ParseThenPrintIff | src/xip.rs:33-33 | printing a parsed octet gives the text back iff the text has no plus sign and no leading zero but in `0` itself |
| Xip.AddressRoundTripIff | src/xip.rs:30-40 | printing a parsed address gives its four parts back iff each of them is such a text |
| Xip.AppendedPartIsIgnored | src/xip.rs:12-28 | a trailing hyphen-free part that is not an octet never changes the result |
| Xip.ParsedNameIsInZone | src/xip.rs:6-15 | every name that parses is inside the zone |
| Xip.AddressBelowIff | src/xip.rs:6-28 | for every name, `1-2-3-4-a.<name>` carries an address iff the name is in the zone, so no name in the zone, missing ones included, cuts off what is below it |
| Xip.CaseIndependent | src/xip.rs:6-28 | parsing and zone membership ignore letter case |
| Xip.ParseThenPrintIsNotARoundTrip | src/xip.rs:33-33 | the instances `+7` and `007`, which parse to 7 and print as `7` |
| Xip.NoCutBelowMissingName | src/xip.rs:15-26 | an instance: in every zone `b.<zone>` carries no address while `1-2-3-4-a.b.<zone>` does |
| Xip.MembershipByLabels | src/xip.rs:6-10 | for labels without dots, textual membership is that the zone's labels end the name's labels, up to case |
| Xip.TextMatchesLabelsIff | src/xip.rs:6-10 | for all labels of a name, dots in them included: membership of labels implies textual membership, and the two agree iff the text is rejected or none of the labels in the place of the zone's holds a dot |
| Xip.DottedLabelEscapesTheZoneCheck | src/xip.rs:6-10 | an instance: the one label `x.a` passes the check on text for the zone `a` |

## Left out

- Bits of the DNS format: messages are counted in octets, and decoding is taken to return what was encoded; requests arrive parsed, with names of legal length (`LegalRequest`). The DNS library is not part of this model, and only the behaviour that src/wire.rs:83-92 and src/dns.rs:693-735 rely on is.
- Presentation-text escapes: a label is printed as it is; configured names consist of letters, digits, hyphens, underscores and dots. `Xip.TextMatchesLabelsIff` says for which labels this matters.
- EDNS options and the library's own bounds on the payload size: the advertised size read for UDP is taken as at least 512, as section 6.2.3 of RFC 6891 asks.
- Unicode: a `char` stands for one octet, and lower-casing is the ASCII one.
- Clocks: store time is a natural number and bucket time a real; readings that go back are excluded for the store, as the monotonic clock of the program excludes them.
- RateGate.TokenBucket.CheckRate: exact reals replace floating point, so rounding is not modelled.
- Authentication and the concurrency semaphore: each is an arbitrary boolean; decoding credentials and counting permits are plumbing.
- Locks: an operation is one atomic step, since one write lock covers it whole; the order in which a map is walked is arbitrary.
- AcmeRecordsClass.AcmeRecords.Prune: filtering one token list is a function, and the list is replaced in the map; the in-place compaction inside a vector is not modelled.
- Spelling.ServedIff: speaks about questions with the labels of the challenge name up to case; a label that holds a dot is outside it.
- SpellingRuns.RefusedIff: a token lifetime of zero, which the command line refuses (src/config.rs:86-90), is excluded.
- Sockets, tasks, timeouts, TLS, HTTP routing, JSON, body limits, health endpoint, command line and environment parsing, API key length, the initial serial from the wall clock (a parameter here), logging, packaging and deployment: no protocol content.
