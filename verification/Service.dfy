/** The whole service: runs of API calls and DNS requests against one store, and what a client of
    the challenge name sees after any of them. */
module Service {
  import opened Wrappers
  import opened Text
  import opened Bags
  import opened Messages
  import opened Encoder
  import opened Configuration
  import opened Store
  import opened History
  import opened Runs
  import opened Versions
  import opened Responder
  import opened Delivery
  import opened Api
  import WireCapacity

  /** One event at the service. `admitted` stands for authentication, rate gate and concurrency. */
  datatype Call =
    | Present(fqdn: string, value: string, admitted: bool, prunedAt: nat, stampedAt: nat)
    | Cleanup(fqdn: string, value: string, admitted: bool, at: nat)
    | Dns(raw: Option<Message>, at: nat)

  /** What the event does to the store. */
  function StoreOps(config: Config, call: Call): seq<Op> {
    match call
    case Present(fqdn, value, admitted, prunedAt, stampedAt) =>
      if admitted && ValidateRequest(config, fqdn, value).Ok?
      then [Add(ValidateRequest(config, fqdn, value).value, value, prunedAt, stampedAt)] else []
    case Cleanup(fqdn, value, admitted, at) =>
      if admitted && ValidateRequest(config, fqdn, value).Ok?
      then [Remove(ValidateRequest(config, fqdn, value).value, value, at)] else []
    case Dns(raw, at) =>
      if raw.None? || raw.value.isResponse || !ForZone(config, raw.value) then []
      else if IsAcmeQuery(config, raw.value.questions[0]) then [Get(config.AcmeName(), at)]
      else [ReadSerial(at)]
  }

  function StoreRun(config: Config, calls: seq<Call>): seq<Op> {
    if calls == [] then [] else StoreOps(config, calls[0]) + StoreRun(config, calls[1..])
  }

  function ServiceLimits(config: Config, mode: Compression): Limits {
    Limits(config.tokenLifetime, config.maxTokens, (values: seq<string>) => config.Capacity(mode).Fits(values))
  }

  lemma {:induction false} ServiceLimitsAreValid(config: Config, mode: Compression)
    requires config.Parsed() && config.NamesAccepted()
    ensures ValidLimits(ServiceLimits(config, mode))
  {
    CapacityIsValid(config, mode);
    WireCapacity.FitsIsDownward(config.Capacity(mode), ServiceLimits(config, mode).fits);
  }

  /** A TXT request for the challenge name, in any spelling. */
  predicate AcmeRequest(config: Config, request: Message) {
    && !request.isResponse
    && OrdinaryQuery(request)
    && request.questions[0].qtype == TypeTxt
    && LegalRequest(request)
    && SpellsAcme(config, request.questions[0].name)
  }

  /** A TXT request for the challenge name, in a spelling that the answers compress against. */
  predicate ChallengeRequest(config: Config, mode: Compression, request: Message) {
    AcmeRequest(config, request) && Compressible(config, mode, request.questions[0].name)
  }

  lemma {:induction false} AcmeRequestReachesZone(config: Config, request: Message)
    requires config.Parsed() && AcmeRequest(config, request)
    ensures ForZone(config, request) && IsAcmeQuery(config, request.questions[0])
  {
    AcmeQuestionIsRecognised(config, request.questions[0]);
  }

  /** The values of one name, in any state that respects the capacity, pass the capacity test. */
  lemma {:induction false} ValuesOfNameFit(limits: Limits, records: Records, name: string)
    requires ValidLimits(limits) && WellFormed(records) && WithinCapacity(limits, records)
    ensures limits.fits(Values(TokensOf(records, name)))
  {
    var tokens := TokensOf(records, name);
    var own := PairsOf(name, tokens);
    assert own <= Pairs(records);
    BagOfSubset(own, Pairs(records));
    BagOfList(name, tokens);
    SubBagFits(limits.fits, BagOf(own), BagOf(Pairs(records)));
    AnyOrderFits(limits.fits, Values(tokens));
  }

  lemma {:induction false} BagOfList(name: string, tokens: seq<Token>)
    requires Distinct(tokens)
    ensures BagOf(PairsOf(name, tokens)) == multiset(Values(tokens))
    decreases |tokens|
  {
    if tokens == [] {
      assert PairsOf(name, tokens) == {};
      assert Values(tokens) == [];
    } else {
      var n := |tokens| - 1;
      var front := tokens[..n];
      BagOfList(name, front);
      OneMorePair(name, tokens, n);
      assert tokens[..n + 1] == tokens;
      BagWith(PairsOf(name, front), (name, tokens[n].value));
      assert Values(tokens) == Values(front) + [tokens[n].value];
    }
  }

  /** What a client receives for a challenge request at `now`, in the state `z`. */
  function Answer(config: Config, mode: Compression, z: Zone, request: Message, now: nat): Option<Wire> {
    var read := ReadZone(z, now);
    CompleteOrServfail(mode, request,
                       Reply(config, request, Values(TokensOf(read.records, config.AcmeName())), read.serial))
  }

  function UdpAnswer(config: Config, mode: Compression, z: Zone, request: Message, now: nat): Option<Wire> {
    var read := ReadZone(z, now);
    UdpReply(mode, request, Reply(config, request, Values(TokensOf(read.records, config.AcmeName())), read.serial))
  }

  /** A full answer: authoritative, nothing cut, one TXT record per value, in order and with the value
      as its only string, and the version of the zone. */
  ghost predicate FullAnswer(config: Config, request: Message, reply: Message, values: seq<string>, serial: nat) {
    && reply.rcode == NoError && reply.authoritative && !reply.truncated
    && reply.questions == request.questions
    && |reply.answers| == |values|
    && (forall i | 0 <= i < |values| ::
          reply.answers[i] == Record(Split("_acme-challenge." + config.domain, '.'), config.txtTtl, Txt([values[i]])))
    && (var zone, ns := Split(config.domain, '.'), Split(config.nsHostname, '.');
        reply.authorities == [Record(zone, 10, Soa(ns, ["admin"] + zone, serial, 3600, 900, 86400, 10))])
  }

  /** The challenge reply of the handler is a full answer. */
  lemma {:induction false} AcmeReplyIsFull(config: Config, request: Message, values: seq<string>, serial: nat)
    requires config.NamesAccepted() && LegalRequest(request) && ForZone(config, request)
    requires IsAcmeQuery(config, request.questions[0])
    ensures FullAnswer(config, request, Reply(config, request, values, serial), values, serial)
  {
    AcmeNameIs(config);
    SoaIs(config, serial);
    AcmeReplyShape(config, request, values, serial);
  }

  lemma {:induction false} AnswerInState(config: Config, mode: Compression, log: seq<Event>, z: Zone, clock: nat,
                                         request: Message, now: nat)
    requires config.Parsed() && config.NamesAccepted() && ChallengeRequest(config, mode, request)
    requires RecordsInv(log, ServiceLimits(config, mode), z.records, clock) && clock <= now
    ensures var read := ReadZone(z, now);
            var values := Values(TokensOf(read.records, config.AcmeName()));
            && IsLiveList(log, config.tokenLifetime, config.AcmeName(), now, values)
            && FitsWhole(mode, Reply(config, request, values, read.serial))
            && FullAnswer(config, request, Reply(config, request, values, read.serial), values, read.serial)
  {
    var limits, read := ServiceLimits(config, mode), ReadZone(z, now);
    var values := Values(TokensOf(read.records, config.AcmeName()));
    ServiceLimitsAreValid(config, mode);
    AcmeRequestReachesZone(config, request);
    PruneKeepsInv(log, limits, z.records, clock, now);
    ReadIsLiveList(log, limits, z.records, clock, config.AcmeName(), now);
    ValuesOfNameFit(limits, read.records, config.AcmeName());
    AdmittedValuesFit(config, mode, request, values, read.serial);
    AcmeReplyIsFull(config, request, values, read.serial);
  }

  /** What the handler sends for a challenge request in a state that respects the capacity. */
  lemma {:induction false} SentInState(config: Config, mode: Compression, log: seq<Event>, z: Zone, clock: nat,
                                       request: Message, now: nat)
    requires config.Parsed() && config.NamesAccepted() && ChallengeRequest(config, mode, request)
    requires RecordsInv(log, ServiceLimits(config, mode), z.records, clock) && clock <= now
    ensures var read := ReadZone(z, now);
            var values := Values(TokensOf(read.records, config.AcmeName()));
            var tcp, udp := Answer(config, mode, z, request, now), UdpAnswer(config, mode, z, request, now);
            && IsLiveList(log, config.tokenLifetime, config.AcmeName(), now, values)
            && tcp.Some? && tcp.value.size <= MAX_MESSAGE
            && FullAnswer(config, request, tcp.value.content, values, read.serial)
            && udp.Some? && udp.value.size <= UdpLimit(request)
            && udp.value.content
                 == if tcp.value.size <= UdpLimit(request) then tcp.value.content else Truncate(tcp.value.content)
  {
    var read := ReadZone(z, now);
    var values := Values(TokensOf(read.records, config.AcmeName()));
    AnswerInState(config, mode, log, z, clock, request, now);
    WholeReplyIsSent(config, mode, request, values, read.serial);
  }

  /** What the handler sends over UDP, without reference to TCP. */
  lemma {:induction false} UdpSentInState(config: Config, mode: Compression, log: seq<Event>, z: Zone, clock: nat,
                                          request: Message, now: nat)
    requires config.Parsed() && config.NamesAccepted() && ChallengeRequest(config, mode, request)
    requires RecordsInv(log, ServiceLimits(config, mode), z.records, clock) && clock <= now
    ensures var read, udp := ReadZone(z, now), UdpAnswer(config, mode, z, request, now);
            var values := Values(TokensOf(read.records, config.AcmeName()));
            && IsLiveList(log, config.tokenLifetime, config.AcmeName(), now, values)
            && udp.Some? && udp.value.size <= UdpLimit(request)
            && (FullAnswer(config, request, udp.value.content, values, read.serial)
                || udp.value.content == Truncate(Reply(config, request, values, read.serial)))
  {
    var read := ReadZone(z, now);
    var values := Values(TokensOf(read.records, config.AcmeName()));
    AnswerInState(config, mode, log, z, clock, request, now);
    WholeReplyIsSent(config, mode, request, values, read.serial);
  }

  /** After any run of API calls and DNS requests, a challenge request over TCP is answered within
      65535 octets by a complete, successful reply that holds exactly the live values. */
  lemma {:induction false} EndToEnd(config: Config, mode: Compression, serial: Serial, clock: nat, calls: seq<Call>,
                                    request: Message, now: nat)
    requires config.Parsed() && config.NamesAccepted() && ChallengeRequest(config, mode, request)
    requires Timely(ServiceLimits(config, mode), Empty(serial), StoreRun(config, calls), clock)
    requires Clock(ServiceLimits(config, mode), Empty(serial), StoreRun(config, calls), clock) <= now
    ensures var limits, ops := ServiceLimits(config, mode), StoreRun(config, calls);
            var z := Run(limits, Empty(serial), ops);
            var sent := Answer(config, mode, z, request, now);
            var values := Values(TokensOf(ReadZone(z, now).records, config.AcmeName()));
            && IsLiveList(Log(limits, Empty(serial), ops), config.tokenLifetime, config.AcmeName(), now, values)
            && sent.Some? && sent.value.size <= MAX_MESSAGE
            && FullAnswer(config, request, sent.value.content, values, ReadZone(z, now).serial)
  {
    var limits, ops := ServiceLimits(config, mode), StoreRun(config, calls);
    ServiceLimitsAreValid(config, mode);
    ReachableInv(limits, serial, clock, ops);
    SentInState(config, mode, Log(limits, Empty(serial), ops), Run(limits, Empty(serial), ops),
                Clock(limits, Empty(serial), ops, clock), request, now);
  }

  /** Over UDP the same request gets the same reply or, when that is too large for the requestor,
      a reply with TC set and no answers; never SERVFAIL. */
  lemma {:induction false} EndToEndUdp(config: Config, mode: Compression, serial: Serial, clock: nat,
                                       calls: seq<Call>, request: Message, now: nat)
    requires config.Parsed() && config.NamesAccepted() && ChallengeRequest(config, mode, request)
    requires Timely(ServiceLimits(config, mode), Empty(serial), StoreRun(config, calls), clock)
    requires Clock(ServiceLimits(config, mode), Empty(serial), StoreRun(config, calls), clock) <= now
    ensures var z := Run(ServiceLimits(config, mode), Empty(serial), StoreRun(config, calls));
            var tcp, udp := Answer(config, mode, z, request, now), UdpAnswer(config, mode, z, request, now);
            && tcp.Some? && udp.Some? && udp.value.size <= UdpLimit(request)
            && udp.value.content
                 == if tcp.value.size <= UdpLimit(request) then tcp.value.content else Truncate(tcp.value.content)
  {
    var limits, ops := ServiceLimits(config, mode), StoreRun(config, calls);
    ServiceLimitsAreValid(config, mode);
    ReachableInv(limits, serial, clock, ops);
    SentInState(config, mode, Log(limits, Empty(serial), ops), Run(limits, Empty(serial), ops),
                Clock(limits, Empty(serial), ops, clock), request, now);
  }

  // ---- One serial, one answer ------------------------------------------------------------

  lemma {:induction false} RunThenRead(limits: Limits, z: Zone, ops: seq<Op>, read: Op)
    ensures Run(limits, z, ops + [read]) == Step(limits, Run(limits, z, ops), read)
    decreases ops
  {
    if ops == [] {
      assert ops + [read] == [read];
      assert [read][1..] == [];
    } else {
      assert (ops + [read])[1..] == ops[1..] + [read];
      RunThenRead(limits, Step(limits, z, ops[0]), ops[1..], read);
    }
  }

  lemma {:induction false} SerialIdentifiesValues(limits: Limits, z: Zone, ops: seq<Op>, name: string, later: nat)
    requires Advances(limits, z, ops + [Get(name, later)]) < TWO_32
    ensures var second := ReadZone(Run(limits, z, ops), later);
            second.serial == z.serial ==> Values(TokensOf(second.records, name)) == Values(TokensOf(z.records, name))
  {
    RunThenRead(limits, z, ops, Get(name, later));
    VersionConsistency(limits, z, ops + [Get(name, later)]);
  }

  /** A request that is answered with challenge values. */
  predicate ReadsValues(config: Config, request: Message) {
    LegalRequest(request) && ForZone(config, request) && IsAcmeQuery(config, request.questions[0])
  }

  lemma {:induction false} RepliesWithOneSoa(config: Config, request1: Message, values1: seq<string>, serial1: nat,
                                             request2: Message, values2: seq<string>, serial2: nat)
    requires config.NamesAccepted() && ReadsValues(config, request1) && ReadsValues(config, request2)
    requires serial1 == serial2 ==> values1 == values2
    ensures var reply1, reply2 := Reply(config, request1, values1, serial1), Reply(config, request2, values2, serial2);
            reply1.authorities == reply2.authorities ==> reply1.answers == reply2.answers
  {
    AcmeReplyShape(config, request1, values1, serial1);
    AcmeReplyShape(config, request2, values2, serial2);
    SoaSerials(config, serial1, serial2);
  }

  /** Replies to any two challenge requests that advertise the same serial hold the same records, if
      the zone has advanced fewer than 2^32 times from the first to the second. */
  lemma {:induction false} SerialIdentifiesAnswer(config: Config, mode: Compression, z: Zone, now: nat, ops: seq<Op>,
                                                  later: nat, request1: Message, request2: Message)
    requires config.NamesAccepted() && ReadsValues(config, request1) && ReadsValues(config, request2)
    requires Advances(ServiceLimits(config, mode), ReadZone(z, now), ops + [Get(config.AcmeName(), later)]) < TWO_32
    ensures var name, first := config.AcmeName(), ReadZone(z, now);
            var second := ReadZone(Run(ServiceLimits(config, mode), first, ops), later);
            var reply1 := Reply(config, request1, Values(TokensOf(first.records, name)), first.serial);
            var reply2 := Reply(config, request2, Values(TokensOf(second.records, name)), second.serial);
            reply1.authorities == reply2.authorities ==> reply1.answers == reply2.answers
  {
    var limits, first := ServiceLimits(config, mode), ReadZone(z, now);
    var second := ReadZone(Run(limits, first, ops), later);
    SerialIdentifiesValues(limits, first, ops, config.AcmeName(), later);
    RepliesWithOneSoa(config, request1, Values(TokensOf(first.records, config.AcmeName())), first.serial,
                      request2, Values(TokensOf(second.records, config.AcmeName())), second.serial);
  }

  lemma {:induction false} SoaSerials(config: Config, s1: nat, s2: nat)
    ensures [SoaOf(config, s1)] == [SoaOf(config, s2)] ==> s1 == s2
  {
    if [SoaOf(config, s1)] == [SoaOf(config, s2)] {
      assert [SoaOf(config, s1)][0] == [SoaOf(config, s2)][0];
    }
  }

  // ---- Totals ----------------------------------------------------------------------------

  /** Only validated values are ever stored: under the challenge name, 1 to 255 octets long. */
  ghost predicate OnlyValidated(config: Config, records: Records) {
    forall p | p in Pairs(records) :: p.0 == config.AcmeName() && 1 <= |p.1| <= 255
  }

  /** The three ways an add leaves the pruned records. */
  lemma {:induction false} AddOutcome(limits: Limits, pruned: Records, serial: Serial, changed: bool, name: string,
                                      value: string, stampedAt: nat)
    ensures var after := AddPruned(limits, pruned, serial, changed, name, value, stampedAt).0;
            var present := IndexOf(TokensOf(pruned, name), value) < |TokensOf(pruned, name)|;
            || after.records == pruned
            || (present && after.records == Refresh(pruned, name, value, stampedAt + limits.lifetime))
            || (!present && after.records == Push(pruned, name, Token(value, stampedAt + limits.lifetime)))
  {
  }

  lemma {:induction false} OutcomeStores(pruned: Records, after: Records, name: string, value: string, expiresAt: nat)
    requires WellFormed(pruned)
    requires var present := IndexOf(TokensOf(pruned, name), value) < |TokensOf(pruned, name)|;
             || after == pruned
             || (present && after == Refresh(pruned, name, value, expiresAt))
             || (!present && after == Push(pruned, name, Token(value, expiresAt)))
    ensures WellFormed(after) && Pairs(after) <= Pairs(pruned) + {(name, value)}
  {
    if IndexOf(TokensOf(pruned, name), value) < |TokensOf(pruned, name)| {
      RefreshWellFormed(pruned, name, value, expiresAt);
    } else {
      ValueAbsent(TokensOf(pruned, name), value);
      PushWellFormed(pruned, name, Token(value, expiresAt));
    }
  }

  lemma {:induction false} StepStores(limits: Limits, z: Zone, op: Op)
    requires WellFormed(z.records)
    ensures WellFormed(Step(limits, z, op).records)
    ensures Pairs(Step(limits, z, op).records) <= Pairs(z.records) + (if op.Add? then {(op.name, op.value)} else {})
  {
    var pruned := PruneRecords(z.records, FirstReading(op));
    PruneWellFormed(z.records, FirstReading(op));
    match op
    case Add(name, value, prunedAt, stampedAt) =>
      AddOutcome(limits, pruned, z.serial, pruned != z.records, name, value, stampedAt);
      OutcomeStores(pruned, Step(limits, z, op).records, name, value, stampedAt + limits.lifetime);
    case Remove(name, value, at) => RemoveWellFormed(pruned, name, value);
    case Get(_, at) =>
    case ReadSerial(at) =>
  }

  ghost predicate ValidatedOps(config: Config, ops: seq<Op>) {
    forall op | op in ops && op.Add? :: op.name == config.AcmeName() && 1 <= |op.value| <= 255
  }

  lemma {:induction false} RunStores(config: Config, limits: Limits, z: Zone, ops: seq<Op>)
    requires WellFormed(z.records) && OnlyValidated(config, z.records) && ValidatedOps(config, ops)
    ensures OnlyValidated(config, Run(limits, z, ops).records)
    decreases ops
  {
    if ops != [] {
      assert ops[0] in ops && forall op | op in ops[1..] :: op in ops;
      StepStores(limits, z, ops[0]);
      RunStores(config, limits, Step(limits, z, ops[0]), ops[1..]);
    }
  }

  lemma {:induction false} CallsAreValidated(config: Config, calls: seq<Call>)
    ensures ValidatedOps(config, StoreRun(config, calls))
  {
    if calls != [] {
      CallsAreValidated(config, calls[1..]);
    }
  }

  lemma {:induction false} BagMembers(pairs: set<(string, string)>, v: string)
    ensures v in BagOf(pairs) ==> exists p :: p in pairs && p.1 == v
    ensures |BagOf(pairs)| == |pairs|
    decreases pairs
  {
    if pairs != {} {
      var p :| p in pairs;
      BagWithout(pairs, p);
      BagMembers(pairs - {p}, v);
      assert v in BagOf(pairs) ==> v in BagOf(pairs - {p}) || v == p.1;
    }
  }

  /** In every reachable state the number of stored tokens is within the token limit and within
      what one reply can carry, even for a token limit that validation would have refused. */
  lemma {:induction false} TotalIsBounded(config: Config, mode: Compression, serial: Serial, clock: nat,
                                          calls: seq<Call>)
    requires config.Parsed() && config.NamesAccepted()
    requires Timely(ServiceLimits(config, mode), Empty(serial), StoreRun(config, calls), clock)
    ensures var total := |Pairs(Run(ServiceLimits(config, mode), Empty(serial), StoreRun(config, calls)).records)|;
            && total <= config.maxTokens
            && config.Capacity(mode).FarOverhead() + 14 * total <= MAX_MESSAGE
  {
    var limits, ops := ServiceLimits(config, mode), StoreRun(config, calls);
    var records := Run(limits, Empty(serial), ops).records;
    CapacityIsValid(config, mode);
    ServiceLimitsAreValid(config, mode);
    ReachableInv(limits, serial, clock, ops);
    assert Pairs(map[]) == {};
    CallsAreValidated(config, calls);
    RunStores(config, limits, Empty(serial), ops);
    var values := SomeOrder(BagOf(Pairs(records)));
    BagMembers(Pairs(records), "");
    assert |values| == |multiset(values)|;
    assert limits.fits(values);
    forall v | v in values
      ensures v != ""
    {
      assert v in multiset(values);
      BagMembers(Pairs(records), v);
    }
    WireCapacity.AcceptedListIsShort(config.Capacity(mode), values);
  }
}
