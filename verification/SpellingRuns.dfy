/** Which configurations can leave a challenge query without its answer because of how it is spelled. */
module SpellingRuns {
  import opened Wrappers
  import opened Text
  import opened Names
  import opened Messages
  import opened Encoder
  import opened Bags
  import opened Configuration
  import opened Store
  import opened History
  import opened Runs
  import opened Versions
  import opened AcmeRecordsClass
  import opened Responder
  import opened Delivery
  import opened Service
  import opened Spelling
  import WireCapacity
  import Xip

  /** The most octets that one TXT answer takes. */
  const MAX_TXT_OCTETS: nat := 268

  /** A store full of the longest values would leave no room for what this spelling costs. */
  ghost predicate MayOverrun(config: Config, mode: Compression, request: Message)
    requires AcmeRequest(config, request)
  {
    var name := request.questions[0].name;
    && !Compressible(config, mode, name)
    && config.Capacity(mode).FarOverhead() + OptOctets(request) - OPT_OCTETS
         + SpellingCost(mode, name, Split(config.AcmeName(), '.')) + MAX_TXT_OCTETS * config.maxTokens > MAX_MESSAGE
  }

  // ---- Enough room: every spelling is served ---------------------------------------------

  lemma {:induction false} LoadAtMost(values: seq<string>)
    requires WireCapacity.Storable(values)
    ensures WireCapacity.Load(values) <= MAX_TXT_OCTETS * |values|
  {
    if values != [] {
      assert values[0] in values && forall v | v in values[1..] :: v in values;
      LoadAtMost(values[1..]);
    }
  }

  /** Values that fit at no cost still fit when there is room for the longest values at this cost. */
  lemma {:induction false} EnoughRoom(tail: nat -> nat, start: nat, values: seq<string>, count: nat, cost: nat,
                                      opt: nat, end: nat)
    requires WireCapacity.EventuallyLinear(tail) && WireCapacity.Room(tail, start, values) && |values| <= count
    requires opt <= OPT_OCTETS && end == WireCapacity.EndOf(start, values) + cost
    requires cost == 0
      || start + tail(POINTER_LIMIT) - POINTER_LIMIT + opt - OPT_OCTETS + cost + MAX_TXT_OCTETS * count <= MAX_MESSAGE
    ensures tail(end) + opt <= MAX_MESSAGE + OPT_OCTETS
  {
    LoadAtMost(values);
    assert end <= tail(end) <= end + 806;
    if cost > 0 && end >= POINTER_LIMIT {
      assert tail(end) == tail(POINTER_LIMIT) + (end - POINTER_LIMIT);
    }
  }

  lemma {:induction false} CompressibleIsFree(config: Config, mode: Compression, name: Name, owner: Name)
    requires Compressible(config, mode, name) && owner == Split(config.AcmeName(), '.')
    ensures SpellingCost(mode, name, owner) == 0
  {
  }

  lemma {:induction false} RoomForSpelling(config: Config, mode: Compression, request: Message, values: seq<string>,
                                           cost: nat, end: nat)
    requires config.Parsed() && config.NamesAccepted() && AcmeRequest(config, request)
    requires !MayOverrun(config, mode, request) && |values| <= config.maxTokens && config.Capacity(mode).Fits(values)
    requires cost == SpellingCost(mode, request.questions[0].name, Split(config.AcmeName(), '.'))
    requires end == WireCapacity.EndOf(config.Capacity(mode).AnswersStart(), values) + cost
    ensures WireCapacity.Storable(values)
    ensures config.Capacity(mode).Tail()(end) + OptOctets(request) <= MAX_MESSAGE + OPT_OCTETS
  {
    var c, name := config.Capacity(mode), request.questions[0].name;
    CapacityIsValid(config, mode);
    WireCapacity.FitsIff(c, values);
    WireCapacity.TailIsEventuallyLinear(c);
    if Compressible(config, mode, name) {
      CompressibleIsFree(config, mode, name, Split(config.AcmeName(), '.'));
    }
    EnoughRoom(c.Tail(), c.AnswersStart(), values, config.maxTokens, cost, OptOctets(request), end);
  }

  lemma {:induction false} ValuesBound(limits: Limits, records: Records, name: string)
    requires WellFormed(records) && WithinCapacity(limits, records)
    ensures |Values(TokensOf(records, name))| <= limits.maxTokens
  {
    var own := PairsOf(name, TokensOf(records, name));
    PairsOfCardinality(name, TokensOf(records, name));
    assert own <= Pairs(records);
    SubsetCardinality(own, Pairs(records));
  }

  /** The UDP reply is the TCP reply if the client takes that many octets, and else that reply emptied. */
  predicate SameOrTruncated(request: Message, tcp: Wire, udp: Option<Wire>) {
    && udp.Some? && udp.value.size <= UdpLimit(request)
    && udp.value.content == if tcp.size <= UdpLimit(request) then tcp.content else Truncate(tcp.content)
  }

  /** Values in a store that respects the capacity are served to every spelling there is room for. */
  lemma {:induction false} SpelledReply(config: Config, mode: Compression, request: Message, values: seq<string>,
                                        serial: nat)
    requires config.Parsed() && config.NamesAccepted() && AcmeRequest(config, request)
    requires !MayOverrun(config, mode, request) && |values| <= config.maxTokens && config.Capacity(mode).Fits(values)
    ensures var reply := Reply(config, request, values, serial);
            var tcp, udp := CompleteOrServfail(mode, request, reply), UdpReply(mode, request, reply);
            && tcp.Some? && tcp.value.size <= MAX_MESSAGE
            && FullAnswer(config, request, tcp.value.content, values, serial)
            && SameOrTruncated(request, tcp.value, udp)
  {
    var name := request.questions[0].name;
    var end := SpelledEnd(config, mode, name, values);
    AcmeRequestReachesZone(config, request);
    RoomForSpelling(config, mode, request, values, SpellingCost(mode, name, Split(config.AcmeName(), '.')), end);
    ServedIff(config, mode, request, values, serial, end);
    AllOrNothing(config, mode, request, values, serial);
    AcmeReplyIsFull(config, request, values, serial);
    WholeReplyIsSent(config, mode, request, values, serial);
  }

  lemma {:induction false} SpelledInState(config: Config, mode: Compression, log: seq<Event>, z: Zone, clock: nat,
                                          request: Message, now: nat)
    requires config.Parsed() && config.NamesAccepted() && AcmeRequest(config, request)
    requires !MayOverrun(config, mode, request)
    requires RecordsInv(log, ServiceLimits(config, mode), z.records, clock) && clock <= now
    ensures var sent, read := Answer(config, mode, z, request, now), ReadZone(z, now);
            var values := Values(TokensOf(read.records, config.AcmeName()));
            && IsLiveList(log, config.tokenLifetime, config.AcmeName(), now, values)
            && sent.Some? && sent.value.size <= MAX_MESSAGE
            && FullAnswer(config, request, sent.value.content, values, read.serial)
            && SameOrTruncated(request, sent.value, UdpAnswer(config, mode, z, request, now))
  {
    var limits, read := ServiceLimits(config, mode), ReadZone(z, now);
    ServiceLimitsAreValid(config, mode);
    PruneKeepsInv(log, limits, z.records, clock, now);
    ReadIsLiveList(log, limits, z.records, clock, config.AcmeName(), now);
    ValuesOfNameFit(limits, read.records, config.AcmeName());
    ValuesBound(limits, read.records, config.AcmeName());
    SpelledReply(config, mode, request, Values(TokensOf(read.records, config.AcmeName())), read.serial);
  }

  /** Unless the configuration may overrun for a spelling, every request with that spelling gets the
      full answer over TCP after any run, whatever the encoder does about letter case; and over UDP the
      same, or if it is too large for the client the reply with TC set and no records. */
  lemma {:induction false} EverySpellingIsServed(config: Config, mode: Compression, serial: Serial, clock: nat,
                                                 calls: seq<Call>, request: Message, now: nat)
    requires config.Parsed() && config.NamesAccepted() && AcmeRequest(config, request)
    requires !MayOverrun(config, mode, request)
    requires Timely(ServiceLimits(config, mode), Empty(serial), StoreRun(config, calls), clock)
    requires Clock(ServiceLimits(config, mode), Empty(serial), StoreRun(config, calls), clock) <= now
    ensures var limits, ops := ServiceLimits(config, mode), StoreRun(config, calls);
            var z := Run(limits, Empty(serial), ops);
            var sent := Answer(config, mode, z, request, now);
            var values := Values(TokensOf(ReadZone(z, now).records, config.AcmeName()));
            && IsLiveList(Log(limits, Empty(serial), ops), config.tokenLifetime, config.AcmeName(), now, values)
            && sent.Some? && sent.value.size <= MAX_MESSAGE
            && FullAnswer(config, request, sent.value.content, values, ReadZone(z, now).serial)
            && SameOrTruncated(request, sent.value, UdpAnswer(config, mode, z, request, now))
  {
    var limits, ops := ServiceLimits(config, mode), StoreRun(config, calls);
    ServiceLimitsAreValid(config, mode);
    ReachableInv(limits, serial, clock, ops);
    SpelledInState(config, mode, Log(limits, Empty(serial), ops), Run(limits, Empty(serial), ops),
                   Clock(limits, Empty(serial), ops, clock), request, now);
  }

  /** With a token limit of up to 239, and so with the default of 100, no spelling can be refused. */
  lemma {:induction false} SmallLimitNeverOverruns(config: Config, mode: Compression, request: Message)
    requires config.Parsed() && config.NamesAccepted() && AcmeRequest(config, request) && config.maxTokens <= 239
    ensures !MayOverrun(config, mode, request)
  {
    CapacityIsValid(config, mode);
    WireCapacity.OverheadBound(config.Capacity(mode));
    OwnerIsShort(config, mode, request.questions[0].name);
  }

  // ---- Too little room: a store that such a spelling cannot read -------------------------

  predicate IsPlainValue(value: string) {
    2 <= |value| <= 255 && forall i | 0 <= i < |value| :: 'a' <= value[i] <= 'p'
  }

  /** A value of `length` letters, told from the others by its first two. */
  function PlainValue(number: nat, length: nat): (value: string)
    requires number < 256 && 2 <= length <= 255
    ensures |value| == length && IsPlainValue(value)
  {
    [(number / 16 + 'a' as int) as char, (number % 16 + 'a' as int) as char] + seq(length - 2, _ => 'a')
  }

  function LongValues(count: nat): (values: seq<string>)
    requires count <= 256
    ensures |values| == count
  {
    seq(count, i requires 0 <= i < count => PlainValue(i, 255))
  }

  /** At most `count` values that take `room` octets, or as many as such values can take. */
  function FullValues(room: nat, count: nat): (values: seq<string>)
    requires 64458 <= room <= MAX_MESSAGE
  {
    if MAX_TXT_OCTETS * count <= room then LongValues(count)
    else
      var k, rest := (room - 269) / 268, (room - 269) % 268 + 269;
      var last := if rest >= 283 then 255 else 241;
      LongValues(k) + [PlainValue(k, last), PlainValue(k + 1, rest - last - 26)]
  }

  lemma {:induction false} LoadOfLong(values: seq<string>)
    requires forall i | 0 <= i < |values| :: |values[i]| == 255
    ensures WireCapacity.Load(values) == MAX_TXT_OCTETS * |values|
  {
    if values != [] {
      LoadOfLong(values[1..]);
    }
  }

  lemma {:induction false} LoadConcat(a: seq<string>, b: seq<string>)
    ensures WireCapacity.Load(a + b) == WireCapacity.Load(a) + WireCapacity.Load(b)
  {
    if a == [] {
      assert a + b == b;
    } else {
      assert (a + b)[1..] == a[1..] + b;
      LoadConcat(a[1..], b);
    }
  }

  lemma {:induction false} LoadOfTwo(a: string, b: string)
    ensures WireCapacity.Load([a, b]) == 26 + |a| + |b|
  {
    assert [a, b] == [a] + [b] && [a][1..] == [] && [b][1..] == [];
    assert WireCapacity.Load([a]) == 13 + |a|;
    assert WireCapacity.Load([b]) == 13 + |b|;
    LoadConcat([a], [b]);
  }

  lemma {:induction false} FullLoad(room: nat, count: nat)
    requires 64458 <= room <= MAX_MESSAGE
    ensures var values := FullValues(room, count);
            && WireCapacity.Load(values) == (if MAX_TXT_OCTETS * count <= room then MAX_TXT_OCTETS * count else room)
            && |values| <= count
  {
    if MAX_TXT_OCTETS * count <= room {
      LoadOfLong(LongValues(count));
    } else {
      var k, rest := (room - 269) / 268, (room - 269) % 268 + 269;
      var last := if rest >= 283 then 255 else 241;
      var a, b := PlainValue(k, last), PlainValue(k + 1, rest - last - 26);
      LoadOfLong(LongValues(k));
      LoadConcat(LongValues(k), [a, b]);
      LoadOfTwo(a, b);
    }
  }

  lemma {:induction false} FullValuesArePlain(room: nat, count: nat)
    requires 64458 <= room <= MAX_MESSAGE
    ensures forall i | 0 <= i < |FullValues(room, count)| :: IsPlainValue(FullValues(room, count)[i])
    ensures NoRepeats(FullValues(room, count))
  {
    var values := FullValues(room, count);
    forall i | 0 <= i < |values|
      ensures i < 256 && IsPlainValue(values[i])
      ensures values[i][0] as int == i / 16 + 'a' as int && values[i][1] as int == i % 16 + 'a' as int
    {
    }
  }

  // ---- Filling the store -----------------------------------------------------------------

  /** What the store holds after these values were added under one name at reading 0. */
  function Filled(name: string, values: seq<string>, lifetime: nat): Records {
    if values == [] then map[]
    else map[name := seq(|values|, i requires 0 <= i < |values| => Token(values[i], lifetime))]
  }

  ghost predicate NoRepeats(values: seq<string>) {
    forall i, j | 0 <= i < j < |values| :: values[i] != values[j]
  }

  lemma {:induction false} FilledIsAlive(name: string, values: seq<string>, lifetime: nat)
    requires lifetime > 0
    ensures PruneRecords(Filled(name, values, lifetime), 0) == Filled(name, values, lifetime)
  {
    if values != [] {
      AliveSameLength(Filled(name, values, lifetime)[name], 0);
    }
  }

  lemma {:induction false} FilledHolds(name: string, values: seq<string>, lifetime: nat)
    requires NoRepeats(values)
    ensures var filled := Filled(name, values, lifetime);
            && Values(TokensOf(filled, name)) == values
            && |Pairs(filled)| == |values| && BagOf(Pairs(filled)) == multiset(values)
  {
    var filled := Filled(name, values, lifetime);
    var tokens := TokensOf(filled, name);
    assert Values(tokens) == values;
    assert Pairs(filled) == PairsOf(name, tokens);
    PairsOfCardinality(name, tokens);
    BagOfList(name, tokens);
  }

  lemma {:induction false} PushOntoFilled(name: string, values: seq<string>, value: string, lifetime: nat)
    ensures Push(Filled(name, values, lifetime), name, Token(value, lifetime))
         == Filled(name, values + [value], lifetime)
  {
    assert TokensOf(Filled(name, values, lifetime), name) + [Token(value, lifetime)]
        == TokensOf(Filled(name, values + [value], lifetime), name);
  }

  lemma {:induction false} PushesOntoFilled(limits: Limits, name: string, values: seq<string>, value: string)
    requires ValidLimits(limits) && NoRepeats(values + [value])
    requires |values| < limits.maxTokens && limits.fits(values + [value])
    ensures Pushes(limits, Filled(name, values, limits.lifetime), name, value)
    ensures IndexOf(TokensOf(Filled(name, values, limits.lifetime), name), value) == |values|
  {
    var filled := Filled(name, values, limits.lifetime);
    assert (values + [value])[|values|] == value;
    assert forall i | 0 <= i < |values| :: (values + [value])[i] == values[i];
    FilledHolds(name, values, limits.lifetime);
    FoundIff(TokensOf(filled, name), value);
    AnyOrderFits(limits.fits, values + [value]);
    assert multiset(values + [value]) == multiset(values) + multiset{value};
  }

  lemma {:induction false} FillOne(limits: Limits, name: string, values: seq<string>, value: string, serial: Serial)
    requires ValidLimits(limits) && limits.lifetime > 0 && NoRepeats(values + [value])
    requires |values| < limits.maxTokens && limits.fits(values + [value])
    ensures var z := Zone(Filled(name, values, limits.lifetime), serial);
            var (after, result) := AddZone(limits, z, name, value, 0, 0);
            result.Ok? && after == Zone(Filled(name, values + [value], limits.lifetime), Advance(serial))
  {
    FilledIsAlive(name, values, limits.lifetime);
    PushesOntoFilled(limits, name, values, value);
    PushOntoFilled(name, values, value, limits.lifetime);
  }

  function AddAll(name: string, values: seq<string>): seq<Op> {
    if values == [] then [] else [Add(name, values[0], 0, 0)] + AddAll(name, values[1..])
  }

  lemma {:induction false} FillAll(limits: Limits, name: string, done: seq<string>, todo: seq<string>, serial: Serial)
    requires ValidLimits(limits) && limits.lifetime > 0 && NoRepeats(done + todo)
    requires |done + todo| <= limits.maxTokens && limits.fits(done + todo)
    ensures var z, ops := Zone(Filled(name, done, limits.lifetime), serial), AddAll(name, todo);
            && Timely(limits, z, ops, 0)
            && Clock(limits, z, ops, 0) == 0
            && Run(limits, z, ops).records == Filled(name, done + todo, limits.lifetime)
            && |Log(limits, z, ops)| == |todo|
    decreases |todo|
  {
    if todo == [] {
      assert done + todo == done;
    } else {
      var more := done + [todo[0]];
      assert more + todo[1..] == done + todo;
      assert forall i | 0 <= i < |more| :: more[i] == (done + todo)[i];
      assert multiset(done + todo) == multiset(more) + multiset(todo[1..]);
      FillOne(limits, name, done, todo[0], serial);
      FillAll(limits, name, more, todo[1..], Advance(serial));
      FirstOp(limits, Zone(Filled(name, done, limits.lifetime), serial), Add(name, todo[0], 0, 0),
              AddAll(name, todo[1..]), 0);
    }
  }

  /** Presenting the values, all at reading 0. */
  function PresentAll(config: Config, values: seq<string>): seq<Call> {
    if values == [] then [] else [Present(config.AcmeName(), values[0], true, 0, 0)] + PresentAll(config, values[1..])
  }

  lemma {:induction false} PresentedIsAdded(config: Config, values: seq<string>)
    requires config.Parsed() && forall v | v in values :: 1 <= |v| <= 255
    ensures StoreRun(config, PresentAll(config, values)) == AddAll(config.AcmeName(), values)
  {
    if values != [] {
      assert values[0] in values && forall v | v in values[1..] :: v in values;
      AcmeTextIsLower(config);
      assert TrimEnd(config.AcmeName(), '.') == config.AcmeName();
      PresentedIsAdded(config, values[1..]);
      assert PresentAll(config, values)[1..] == PresentAll(config, values[1..]);
    }
  }

  // ---- The exact condition ---------------------------------------------------------------

  /** The room for records in a reply that reaches past the pointer limit. */
  ghost function FarRoom(config: Config): (room: nat)
    requires config.Parsed() && config.NamesAccepted()
    ensures 64458 <= room <= MAX_MESSAGE
  {
    CapacityIsValid(config, ExactCase);
    WireCapacity.OverheadBound(config.Capacity(ExactCase));
    MAX_MESSAGE - config.Capacity(ExactCase).FarOverhead()
  }

  lemma {:induction false} CostOfOther(config: Config, name: Name)
    requires config.Parsed() && config.NamesAccepted() && SpellsAcme(config, name)
    requires !Compressible(config, ExactCase, name)
    ensures 16 <= SpellingCost(ExactCase, name, Split(config.AcmeName(), '.')) <= 255
  {
    CapacityIsValid(config, ExactCase);
    OwnerIsShort(config, ExactCase, name);
    DifferentSpellingCost(name, Split(config.AcmeName(), '.'));
  }

  /** The load of the longest values, or of values that leave no room. */
  ghost predicate FullLoaded(values: seq<string>, room: nat, count: nat) {
    && WireCapacity.Storable(values) && |values| <= count
    && WireCapacity.Load(values) == if MAX_TXT_OCTETS * count <= room then MAX_TXT_OCTETS * count else room
  }

  lemma {:induction false} FullValuesAreLoaded(room: nat, count: nat)
    requires 64458 <= room <= MAX_MESSAGE
    ensures FullLoaded(FullValues(room, count), room, count)
  {
    FullLoad(room, count);
    FullValuesArePlain(room, count);
  }

  /** Values with this load pass the test at no cost, and not at this one. */
  lemma {:induction false} TooLittleRoom(tail: nat -> nat, start: nat, values: seq<string>, count: nat, cost: nat,
                                         opt: nat)
    requires WireCapacity.EventuallyLinear(tail) && start <= 271 && 16 <= cost <= 255 && opt <= OPT_OCTETS
    requires var room := MAX_MESSAGE - (start + tail(POINTER_LIMIT) - POINTER_LIMIT);
             && 64458 <= room <= MAX_MESSAGE
             && opt - OPT_OCTETS + cost + MAX_TXT_OCTETS * count > room
             && FullLoaded(values, room, count)
    ensures tail(WireCapacity.EndOf(start, values)) <= MAX_MESSAGE
    ensures tail(WireCapacity.EndOf(start, values) + cost) + opt > MAX_MESSAGE + OPT_OCTETS
  {
    var end := WireCapacity.EndOf(start, values);
    assert end >= POINTER_LIMIT;
    assert tail(end) == tail(POINTER_LIMIT) + (end - POINTER_LIMIT);
    assert tail(end + cost) == tail(POINTER_LIMIT) + (end + cost - POINTER_LIMIT);
  }

  lemma {:induction false} OverrunValues(config: Config, request: Message, values: seq<string>, cost: nat, end: nat)
    requires config.Parsed() && config.NamesAccepted() && AcmeRequest(config, request)
    requires MayOverrun(config, ExactCase, request) && FullLoaded(values, FarRoom(config), config.maxTokens)
    requires cost == SpellingCost(ExactCase, request.questions[0].name, Split(config.AcmeName(), '.'))
    requires end == WireCapacity.EndOf(config.Capacity(ExactCase).AnswersStart(), values) + cost
    ensures config.Capacity(ExactCase).Fits(values)
    ensures config.Capacity(ExactCase).Tail()(end) + OptOctets(request) > MAX_MESSAGE + OPT_OCTETS
  {
    var c := config.Capacity(ExactCase);
    CapacityIsValid(config, ExactCase);
    CostOfOther(config, request.questions[0].name);
    OwnerIsShort(config, ExactCase, request.questions[0].name);
    WireCapacity.TailIsEventuallyLinear(c);
    TooLittleRoom(c.Tail(), c.AnswersStart(), values, config.maxTokens, cost, OptOctets(request));
    WireCapacity.FitsIff(c, values);
  }

  lemma {:induction false} OverrunReply(config: Config, request: Message, values: seq<string>, serial: nat)
    requires config.Parsed() && config.NamesAccepted() && AcmeRequest(config, request)
    requires MayOverrun(config, ExactCase, request) && FullLoaded(values, FarRoom(config), config.maxTokens)
    ensures var sent := CompleteOrServfail(ExactCase, request, Reply(config, request, values, serial));
            sent.Some? && sent.value.content == ServfailMessage(request)
  {
    var name := request.questions[0].name;
    var end := SpelledEnd(config, ExactCase, name, values);
    AcmeRequestReachesZone(config, request);
    OverrunValues(config, request, values, SpellingCost(ExactCase, name, Split(config.AcmeName(), '.')), end);
    ServedIff(config, ExactCase, request, values, serial, end);
  }

  lemma {:induction false} ReadFilled(config: Config, z: Zone, request: Message, values: seq<string>)
    requires z.records == Filled(config.AcmeName(), values, config.tokenLifetime)
    requires NoRepeats(values) && config.tokenLifetime > 0
    ensures Answer(config, ExactCase, z, request, 0)
         == CompleteOrServfail(ExactCase, request, Reply(config, request, values, z.serial))
  {
    FilledHolds(config.AcmeName(), values, config.tokenLifetime);
    FilledIsAlive(config.AcmeName(), values, config.tokenLifetime);
  }

  lemma {:induction false} FillByCalls(config: Config, serial: Serial, values: seq<string>)
    requires config.Parsed() && config.NamesAccepted() && config.tokenLifetime > 0 && |values| <= config.maxTokens
    requires NoRepeats(values) && config.Capacity(ExactCase).Fits(values) && forall v | v in values :: 1 <= |v| <= 255
    ensures var limits, ops := ServiceLimits(config, ExactCase), StoreRun(config, PresentAll(config, values));
            && Timely(limits, Empty(serial), ops, 0) && Clock(limits, Empty(serial), ops, 0) == 0
            && Run(limits, Empty(serial), ops).records == Filled(config.AcmeName(), values, config.tokenLifetime)
            && |Log(limits, Empty(serial), ops)| == |values|
  {
    ServiceLimitsAreValid(config, ExactCase);
    PresentedIsAdded(config, values);
    assert [] + values == values;
    FillAll(ServiceLimits(config, ExactCase), config.AcmeName(), [], values, serial);
  }

  /** Presentations of the challenge name, with values of 2 to 255 lower-case letters. */
  predicate PlainPresentations(config: Config, calls: seq<Call>) {
    forall i | 0 <= i < |calls| ::
      calls[i].Present? && calls[i].admitted && calls[i].fqdn == config.AcmeName() && IsPlainValue(calls[i].value)
  }

  lemma {:induction false} PresentAllIsPlain(config: Config, values: seq<string>)
    requires forall i | 0 <= i < |values| :: IsPlainValue(values[i])
    ensures PlainPresentations(config, PresentAll(config, values)) && |PresentAll(config, values)| == |values|
  {
    if values != [] {
      PresentAllIsPlain(config, values[1..]);
    }
  }

  predicate IsServfail(request: Message, sent: Option<Wire>) {
    sent.Some? && sent.value.content == ServfailMessage(request)
  }

  ghost predicate RefusedAfter(config: Config, mode: Compression, request: Message, serial: Serial, clock: nat,
                               calls: seq<Call>, now: nat)
  {
    var limits, ops := ServiceLimits(config, mode), StoreRun(config, calls);
    && Timely(limits, Empty(serial), ops, clock) && Clock(limits, Empty(serial), ops, clock) <= now
    && IsServfail(request, Answer(config, mode, Run(limits, Empty(serial), ops), request, now))
  }

  /** The same over UDP. */
  ghost predicate RefusedOverUdpAfter(config: Config, mode: Compression, request: Message, serial: Serial, clock: nat,
                                      calls: seq<Call>, now: nat)
  {
    var limits, ops := ServiceLimits(config, mode), StoreRun(config, calls);
    && Timely(limits, Empty(serial), ops, clock) && Clock(limits, Empty(serial), ops, clock) <= now
    && IsServfail(request, UdpAnswer(config, mode, Run(limits, Empty(serial), ops), request, now))
  }

  lemma {:induction false} RefusedAlike(config: Config, mode: Compression, request: Message, serial: Serial, clock: nat,
                                        calls: seq<Call>, now: nat)
    requires AcmeRequest(config, request)
    ensures RefusedOverUdpAfter(config, mode, request, serial, clock, calls, now)
       <==> RefusedAfter(config, mode, request, serial, clock, calls, now)
  {
    var read := ReadZone(Run(ServiceLimits(config, mode), Empty(serial), StoreRun(config, calls)), now);
    UdpServfailIff(config, mode, request, Values(TokensOf(read.records, config.AcmeName())), read.serial);
  }

  /** A spelling that may overrun is refused after a run of plain presentations, all accepted. */
  lemma {:induction false} OverrunIsReached(config: Config, serial: Serial, request: Message) returns (calls: seq<Call>)
    requires config.Parsed() && config.NamesAccepted() && config.tokenLifetime > 0
    requires AcmeRequest(config, request) && MayOverrun(config, ExactCase, request)
    ensures PlainPresentations(config, calls)
    ensures |Log(ServiceLimits(config, ExactCase), Empty(serial), StoreRun(config, calls))| == |calls|
    ensures RefusedAfter(config, ExactCase, request, serial, 0, calls, 0)
  {
    var room, name := FarRoom(config), request.questions[0].name;
    var values := FullValues(room, config.maxTokens);
    calls := PresentAll(config, values);
    FullValuesAreLoaded(room, config.maxTokens);
    FullValuesArePlain(room, config.maxTokens);
    PresentAllIsPlain(config, values);
    OverrunValues(config, request, values, SpellingCost(ExactCase, name, Split(config.AcmeName(), '.')),
                  SpelledEnd(config, ExactCase, name, values));
    FillByCalls(config, serial, values);
    var z := Run(ServiceLimits(config, ExactCase), Empty(serial), StoreRun(config, calls));
    ReadFilled(config, z, request, values);
    OverrunReply(config, request, values, z.serial);
  }

  /** Some run of API calls and DNS requests leads to SERVFAIL for a challenge request exactly when
      its spelling cannot be compressed against and the longest values, as many as the token limit
      allows, would leave no room for what the spelling costs; and likewise over UDP. */
  lemma {:induction false} RefusedIff(config: Config, mode: Compression, request: Message)
    requires config.Parsed() && config.NamesAccepted() && config.tokenLifetime > 0 && AcmeRequest(config, request)
    ensures (exists serial, clock, calls, now :: RefusedAfter(config, mode, request, serial, clock, calls, now))
       <==> MayOverrun(config, mode, request)
    ensures (exists serial, clock, calls, now :: RefusedOverUdpAfter(config, mode, request, serial, clock, calls, now))
       <==> MayOverrun(config, mode, request)
  {
    forall serial, clock, calls, now
      ensures RefusedOverUdpAfter(config, mode, request, serial, clock, calls, now)
         <==> RefusedAfter(config, mode, request, serial, clock, calls, now)
    {
      RefusedAlike(config, mode, request, serial, clock, calls, now);
    }
    if MayOverrun(config, mode, request) {
      var calls := OverrunIsReached(config, 0, request);
      assert RefusedAfter(config, mode, request, 0, 0, calls, 0);
    } else if serial, clock, calls, now :| RefusedAfter(config, mode, request, serial, clock, calls, now) {
      EverySpellingIsServed(config, mode, serial, clock, calls, request, now);
    }
  }

  // ---- Configurations that fail ----------------------------------------------------------

  /** From a token limit of 245 on, every spelling that cannot be compressed against may overrun. */
  lemma {:induction false} LargeLimitOverruns(config: Config, request: Message)
    requires config.Parsed() && config.NamesAccepted() && AcmeRequest(config, request) && config.maxTokens >= 245
    requires !Compressible(config, ExactCase, request.questions[0].name)
    ensures MayOverrun(config, ExactCase, request)
  {
    CapacityIsValid(config, ExactCase);
    WireCapacity.OverheadBound(config.Capacity(ExactCase));
    CostOfOther(config, request.questions[0].name);
  }

  const ShortConfig: Config := Config("a", "b.a", "c.a", Xip.Ipv4(127, 0, 0, 1), 60, 60, 600, 245)

  const CapitalName: Name := ["_Acme-challenge", "a"]

  const CapitalRequest: Message :=
    NewResponse(1, Query).(isResponse := false, questions := [Question(CapitalName, TypeTxt, ClassIn)])

  lemma {:induction false} ShortZone()
    ensures Split("a", '.') == ["a"] && NormalName("a") && WireLength(["a"]) == 3
    ensures PlainLabel("b") && PlainLabel("c") && "b" + "." + "a" == "b.a" && "c" + "." + "a" == "c.a"
  {
    SplitPlain("a", '.');
    assert ["a"][1..] == [];
  }

  lemma {:induction false} CapitalSpelling()
    ensures Lower("_Acme-challenge") == ACME_LABEL && "_Acme-challenge" != ACME_LABEL
    ensures |CapitalName[0]| == 15 && |CapitalName[1]| == 1 && Lower("a") == "a"
  {
    assert "_Acme-challenge"[1] != ACME_LABEL[1];
  }

  lemma {:induction false} ShortAcmeName()
    ensures Split(ShortConfig.AcmeName(), '.') == [ACME_LABEL, "a"]
  {
    ShortZone();
    DotFreeLabels();
    PrefixedName(ACME_LABEL, "a");
    assert [ACME_LABEL] + ["a"] == [ACME_LABEL, "a"];
  }

  lemma {:induction false} CapitalIsLegal()
    ensures LegalName(CapitalName)
  {
    CapitalSpelling();
    assert CapitalName[1..] == ["a"];
    assert ["a"][1..] == [];
    assert WireLength(["a"]) == 3;
  }

  lemma {:induction false} CapitalIsAcme()
    ensures SpellsAcme(ShortConfig, CapitalName) && !Compressible(ShortConfig, ExactCase, CapitalName)
  {
    ShortAcmeName();
    CapitalSpelling();
    assert FoldLabels(CapitalName) == [ACME_LABEL, "a"];
    assert CapitalName[0] != [ACME_LABEL, "a"][0];
  }

  lemma {:induction false} ShortConfigIsAccepted()
    ensures ShortConfig.Parsed() && ShortConfig.Accepted(ExactCase)
  {
    ShortZone();
    OrdinaryConfigIsAccepted(ShortConfig, ExactCase, "b", "c");
  }

  lemma {:induction false} CapitalIsRequest()
    ensures AcmeRequest(ShortConfig, CapitalRequest)
    ensures !Compressible(ShortConfig, ExactCase, CapitalRequest.questions[0].name)
  {
    CapitalIsLegal();
    CapitalIsAcme();
  }

  /** A configuration that validation accepts, and a request that may overrun it: so after some run
      of accepted presentations it gets SERVFAIL. */
  lemma {:induction false} RefusedExample() returns (calls: seq<Call>)
    ensures ShortConfig.Parsed() && ShortConfig.Accepted(ExactCase)
    ensures AcmeRequest(ShortConfig, CapitalRequest) && MayOverrun(ShortConfig, ExactCase, CapitalRequest)
    ensures RefusedAfter(ShortConfig, ExactCase, CapitalRequest, 0, 0, calls, 0)
  {
    ShortConfigIsAccepted();
    CapitalIsRequest();
    LargeLimitOverruns(ShortConfig, CapitalRequest);
    calls := OverrunIsReached(ShortConfig, 0, CapitalRequest);
  }
}
