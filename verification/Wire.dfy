/** How many challenge values fit one DNS message (src/wire.rs). */
module WireCapacity {
  import opened Wrappers
  import opened Names
  import opened Messages
  import opened Encoder
  import opened Bags

  const MAX_DNS_RECORDS: nat := 65535
  const SOA_TTL: nat := 10
  const ADMIN_LABEL := "admin"

  function TxtRecord(name: Name, ttl: nat, value: string): Record {
    Record(name, ttl, Txt([value]))
  }

  function TxtRecords(name: Name, ttl: nat, values: seq<string>): seq<Record> {
    seq(|values|, i requires 0 <= i < |values| => TxtRecord(name, ttl, values[i]))
  }

  function SoaRecord(zone: Name, nsHostname: Name, serial: nat): Record {
    Record(zone, SOA_TTL, Soa(nsHostname, [ADMIN_LABEL] + zone, serial, 3600, 900, 86400, 10))
  }

  /** A pointer to the owner, the ten fixed octets, and one character-string. */
  function TxtOctets(value: string): nat {
    13 + |value|
  }

  function Load(values: seq<string>): nat {
    if values == [] then 0 else TxtOctets(values[0]) + Load(values[1..])
  }

  /** Where answers with these values end, when they start at octet `start`. */
  function EndOf(start: nat, values: seq<string>): nat {
    start + Load(values)
  }

  predicate Storable(values: seq<string>) {
    forall v | v in values :: |v| <= 255
  }

  function Repeat(value: string, count: nat): seq<string> {
    seq(count, _ => value)
  }

  /** Every record was encoded, and the decoded message has the expected number of answers. */
  predicate IsComplete(mode: Compression, m: Message, expectedAnswers: nat) {
    var encoded := Encode(mode, m);
    encoded.Some? && !encoded.value.content.truncated && |encoded.value.content.answers| == expectedAnswers
  }

  /** The size after `last` is written behind answers that end at octet `end`, when the suffixes of
      `owner` can be reached. */
  ghost function SizeWith(mode: Compression, owner: Name, last: Record, end: nat): nat {
    WriteRecord(mode, last, Buffer(end, Suffixes(Key(mode, owner)))).size
  }

  datatype Capacity = Capacity(acmeName: Name, zone: Name, nsHostname: Name, txtTtl: nat, compression: Compression) {

    /** What configuration validation establishes about the names. */
    ghost predicate Valid() {
      && zone != []
      && acmeName != [] && acmeName[1..] == zone
      && LegalName(acmeName)
      && LegalName(nsHostname)
      && LegalName([ADMIN_LABEL] + zone)
    }

    /** The reply whose size decides admission: the question, one TXT record per value, the SOA
        and an OPT record. */
    function Template(values: seq<string>): Message {
      NewResponse(0, Query).(
        authoritative := true,
        questions := [Question(acmeName, TypeTxt, ClassIn)],
        answers := TxtRecords(acmeName, txtTtl, values),
        authorities := [SoaRecord(zone, nsHostname, 0)],
        edns := Some(Edns(0, 1232, false)))
    }

    method Response(values: seq<string>) returns (response: Message)
      ensures response == Template(values)
    {
      response := NewResponse(0, Query);
      response := response.(authoritative := true);
      response := response.(questions := response.questions + [Question(acmeName, TypeTxt, ClassIn)]);
      ghost var base := response;
      for i := 0 to |values|
        invariant response == base.(answers := TxtRecords(acmeName, txtTtl, values[..i]))
      {
        assert values[..i + 1] == values[..i] + [values[i]];
        response := response.(answers := response.answers + [TxtRecord(acmeName, txtTtl, values[i])]);
      }
      assert values[..|values|] == values;
      response := response.(authorities := response.authorities + [SoaRecord(zone, nsHostname, 0)]);
      response := response.(edns := Some(Edns(0, 1232, false)));
    }

    predicate Fits(values: seq<string>) {
      IsComplete(compression, Template(values), |values|)
    }

    predicate FitsCount(count: nat) {
      Fits(Repeat("x", count))
    }

    /** The octet at which the first answer starts. */
    function AnswersStart(): nat {
      StartAfter(acmeName)
    }

    /** The size of the whole template as a function of the octet at which its answers end. */
    ghost function Tail(): nat -> nat {
      end => SizeWith(compression, acmeName, SoaRecord(zone, nsHostname, 0), end) + OPT_OCTETS
    }

    /** Octets that are not answers, in a message whose answers end past the pointer limit. */
    ghost function FarOverhead(): int {
      AnswersStart() + Tail()(POINTER_LIMIT) - POINTER_LIMIT
    }

    method MaximumTokenCount() returns (n: nat)
      ensures n <= MAX_DNS_RECORDS
      ensures n == 0 || FitsCount(n)
      ensures n == MAX_DNS_RECORDS || !FitsCount(n + 1)
    {
      ghost var evaluations;
      n, evaluations := SearchMaximum((count: nat) => FitsCount(count));
    }
  }

  // ---- The search ------------------------------------------------------------------------

  ghost function Pow2(n: nat): nat {
    if n == 0 then 1 else 2 * Pow2(n - 1)
  }

  /** Doubling, then bisection. For any predicate at all, the answer is a local maximum and is
      reached after at most 32 evaluations. */
  method SearchMaximum(fits: nat -> bool) returns (n: nat, ghost evaluations: nat)
    ensures n <= MAX_DNS_RECORDS
    ensures n == 0 || fits(n)
    ensures n == MAX_DNS_RECORDS || !fits(n + 1)
    ensures evaluations <= 32
  {
    var low: nat, high: nat := 0, 1;
    evaluations := 0;
    while high < MAX_DNS_RECORDS && fits(high)
      invariant low < high <= MAX_DNS_RECORDS
      invariant low == 0 || fits(low)
      invariant evaluations <= 16
      invariant evaluations < 16 ==> high == Pow2(evaluations)
      invariant evaluations == 16 ==> high == MAX_DNS_RECORDS
      invariant high - low <= if evaluations == 0 then 1 else Pow2(evaluations - 1)
    {
      evaluations := evaluations + 1;
      PowerBound(evaluations);
      low := high;
      high := if high * 2 < MAX_DNS_RECORDS then high * 2 else MAX_DNS_RECORDS;
    }
    ghost var budget: nat := if evaluations == 0 then 0 else evaluations - 1;
    if high < MAX_DNS_RECORDS {
      evaluations := evaluations + 1;
    }
    while low + 1 < high
      invariant low < high <= MAX_DNS_RECORDS
      invariant low == 0 || fits(low)
      invariant high == MAX_DNS_RECORDS || !fits(high)
      invariant high - low <= Pow2(budget)
      invariant evaluations + budget <= 31
      decreases high - low
    {
      var middle := low + (high - low) / 2;
      evaluations := evaluations + 1;
      assert budget > 0;
      budget := budget - 1;
      if fits(middle) {
        low := middle;
      } else {
        high := middle;
      }
    }
    if high == MAX_DNS_RECORDS {
      evaluations := evaluations + 1;
    }
    if high == MAX_DNS_RECORDS && fits(high) {
      return high, evaluations;
    } else {
      return low, evaluations;
    }
  }

  lemma {:induction false} PowerBound(n: nat)
    ensures n < 16 ==> Pow2(n) <= 32768
    ensures n >= 16 ==> Pow2(n) >= 65536
  {
    if n > 16 {
      PowerBound(n - 1);
    } else {
      assert Pow2(4) == 16;
      assert Pow2(8) == 256;
      assert Pow2(12) == 4096;
      assert Pow2(16) == 65536;
      if n < 16 {
        PowerMonotone(n, 15);
      }
    }
  }

  lemma {:induction false} PowerMonotone(m: nat, n: nat)
    requires m <= n
    ensures Pow2(m) <= Pow2(n)
  {
    if m < n {
      PowerMonotone(m, n - 1);
    }
  }

  // ---- Size of a set of answers ----------------------------------------------------------

  lemma {:induction false} LoadWithout(values: seq<string>, i: nat)
    requires i < |values|
    ensures Load(values) == TxtOctets(values[i]) + Load(values[..i] + values[i + 1..])
  {
    var rest := values[..i] + values[i + 1..];
    if i > 0 {
      LoadWithout(values[1..], i - 1);
      assert values[1..][..i - 1] + values[1..][i..] == rest[1..];
    } else {
      assert rest == values[1..];
    }
  }

  /** More values never take fewer octets, whatever the order. */
  lemma {:induction false} LoadOfSubBag(some: seq<string>, all: seq<string>)
    requires multiset(some) <= multiset(all)
    ensures Load(some) <= Load(all)
  {
    if some != [] {
      assert some == [some[0]] + some[1..];
      assert some[0] in multiset(some);
      assert multiset(some[1..]) == multiset(some) - multiset{some[0]};
      var i :| 0 <= i < |all| && all[i] == some[0];
      LoadWithout(all, i);
      var rest := all[..i] + all[i + 1..];
      assert all == all[..i] + [all[i]] + all[i + 1..];
      assert multiset(all) == multiset(rest) + multiset{all[i]};
      LoadOfSubBag(some[1..], rest);
    }
  }

  lemma {:induction false} StorableSubBag(some: seq<string>, all: seq<string>)
    requires multiset(some) <= multiset(all) && Storable(all)
    ensures Storable(some)
  {
    forall v | v in some
      ensures |v| <= 255
    {
      assert v in multiset(some);
      assert v in multiset(all);
    }
  }

  lemma {:induction false} LoadBounds(values: seq<string>)
    requires forall v | v in values :: v != ""
    ensures Load(Repeat("x", |values|)) <= Load(values)
  {
    if values != [] {
      assert values[0] in values && forall v | v in values[1..] :: v in values;
      LoadBounds(values[1..]);
      assert Repeat("x", |values|)[1..] == Repeat("x", |values| - 1);
    }
  }

  lemma {:induction false} LoadOfRepeat(value: string, count: nat)
    ensures Load(Repeat(value, count)) == count * TxtOctets(value)
  {
    if count > 0 {
      LoadOfRepeat(value, count - 1);
      assert Repeat(value, count)[1..] == Repeat(value, count - 1);
    }
  }

  /** TXT records whose owner can be reached cost a fixed overhead each and make no name reachable. */
  lemma {:induction false} TxtAnswers(mode: Compression, owner: Name, ttl: nat, values: seq<string>, b: Buffer)
    requires owner != [] && Key(mode, owner) in b.names
    ensures WriteAll(mode, TxtRecords(owner, ttl, values), b) == Buffer(EndOf(b.size, values), b.names)
  {
    if values != [] {
      var rs := TxtRecords(owner, ttl, values);
      assert rs[1..] == TxtRecords(owner, ttl, values[1..]);
      assert StringsOctets([values[0]]) == 1 + |values[0]| by {
        assert [values[0]][1..] == [];
      }
      TxtAnswers(mode, owner, ttl, values[1..], WriteRecord(mode, rs[0], b));
    }
  }

  lemma {:induction false} TxtEncodable(owner: Name, ttl: nat, values: seq<string>)
    ensures AllEncodable(TxtRecords(owner, ttl, values)) <==> Storable(values)
  {
    var rs := TxtRecords(owner, ttl, values);
    if AllEncodable(rs) {
      forall v | v in values
        ensures |v| <= 255
      {
        var i :| 0 <= i < |values| && values[i] == v;
        assert rs[i] in rs && v in rs[i].data.strings;
      }
    }
  }

  /** A question for `name` leaves exactly the suffixes of `name` reachable. */
  lemma {:induction false} OneQuestion(mode: Compression, q: Question)
    requires LegalName(q.name)
    ensures WriteQuestions(mode, [q], Buffer(HEADER_OCTETS, {}))
         == Buffer(HEADER_OCTETS + WireLength(q.name) + 4, Suffixes(Key(mode, q.name)))
  {
    WriteFreshName(mode, q.name, Buffer(HEADER_OCTETS, {}));
    assert [q][1..] == [];
    assert {} + Suffixes(Key(mode, q.name)) == Suffixes(Key(mode, q.name));
  }

  lemma {:induction false} KeyIsReachable(mode: Compression, name: Name)
    requires name != []
    ensures Key(mode, name) in Suffixes(Key(mode, name))
  {
    KeyTail(mode, name);
  }

  lemma {:induction false} OneRecord(mode: Compression, r: Record, b: Buffer)
    ensures WriteAll(mode, [r], b) == WriteRecord(mode, r, b)
  {
    assert [r][1..] == [];
  }

  /** A reply that carries one TXT record per value, and nothing else but the SOA. */
  predicate TxtShape(m: Message, owner: Name, ttl: nat, values: seq<string>, soa: Record) {
    && |m.questions| == 1 && LegalName(m.questions[0].name)
    && m.answers == TxtRecords(owner, ttl, values)
    && m.authorities == [soa] && m.additionals == []
    && soa.data.Soa?
  }

  /** Where the answers start in a message with this one question. */
  function StartAfter(question: Name): nat {
    HEADER_OCTETS + WireLength(question) + 4
  }

  /** When the question can reach the owner of the answers, every answer costs its fixed overhead. */
  lemma {:induction false} TxtReplySize(mode: Compression, m: Message, owner: Name, ttl: nat, values: seq<string>,
                                        soa: Record, start: nat)
    requires owner != [] && TxtShape(m, owner, ttl, values, soa) && Key(mode, m.questions[0].name) == Key(mode, owner)
    requires start == StartAfter(m.questions[0].name)
    ensures WriteHeader(mode, m).size == start
    ensures FullSize(mode, m) == SizeWith(mode, owner, soa, EndOf(start, values)) + OptOctets(m)
  {
    var q := m.questions[0];
    assert m.questions == [q];
    OneQuestion(mode, q);
    KeyIsReachable(mode, owner);
    TxtAnswers(mode, owner, ttl, values, WriteHeader(mode, m));
    OneRecord(mode, soa, Buffer(EndOf(start, values), Suffixes(Key(mode, owner))));
  }

  lemma {:induction false} TxtReplyEncodable(m: Message, owner: Name, ttl: nat, values: seq<string>, soa: Record)
    requires TxtShape(m, owner, ttl, values, soa)
    ensures EncodableMessage(m) <==> Storable(values)
  {
    TxtEncodable(owner, ttl, values);
    assert forall r | r in [soa] :: r == soa;
  }

  lemma {:induction false} IsCompleteIff(mode: Compression, m: Message)
    requires !m.truncated && WriteHeader(mode, m).size <= MAX_MESSAGE
    ensures IsComplete(mode, m, |m.answers|) <==> EncodableMessage(m) && FullSize(mode, m) <= MAX_MESSAGE
  {
    CompleteIff(mode, m);
  }

  /** A message with the shape of the template. */
  predicate TemplateShape(c: Capacity, m: Message, values: seq<string>) {
    && TxtShape(m, c.acmeName, c.txtTtl, values, SoaRecord(c.zone, c.nsHostname, 0))
    && m.questions[0].name == c.acmeName && OptOctets(m) == OPT_OCTETS && !m.truncated
  }

  lemma {:induction false} TemplateHasShape(c: Capacity, values: seq<string>)
    requires c.Valid()
    ensures TemplateShape(c, c.Template(values), values)
  {
  }

  lemma {:induction false} SoaSizeIgnoresSerial(mode: Compression, zone: Name, nsHostname: Name, serial: nat, b: Buffer)
    ensures WriteRecord(mode, SoaRecord(zone, nsHostname, serial), b).size
         == WriteRecord(mode, SoaRecord(zone, nsHostname, 0), b).size
  {
  }

  /** A live reply to a question that can be compressed against takes the octets of the template. */
  lemma {:induction false} LiveSize(c: Capacity, m: Message, values: seq<string>, serial: nat)
    requires c.Valid() && TxtShape(m, c.acmeName, c.txtTtl, values, SoaRecord(c.zone, c.nsHostname, serial))
    requires Key(c.compression, m.questions[0].name) == Key(c.compression, c.acmeName)
    requires c.AnswersStart() == StartAfter(m.questions[0].name)
    ensures FullSize(c.compression, m) + OPT_OCTETS == c.Tail()(EndOf(c.AnswersStart(), values)) + OptOctets(m)
  {
    var soa, end := SoaRecord(c.zone, c.nsHostname, serial), EndOf(c.AnswersStart(), values);
    TxtReplySize(c.compression, m, c.acmeName, c.txtTtl, values, soa, c.AnswersStart());
    SoaSizeIgnoresSerial(c.compression, c.zone, c.nsHostname, serial,
                         Buffer(end, Suffixes(Key(c.compression, c.acmeName))));
  }

  // ---- Admission in arithmetic -----------------------------------------------------------

  /** Every value has an encoding, and the octets add up to at most 65535. */
  ghost predicate Room(tail: nat -> nat, start: nat, values: seq<string>) {
    Storable(values) && tail(EndOf(start, values)) <= MAX_MESSAGE
  }

  /** More answers never make a shorter message, even where fewer names can be compressed. */
  ghost predicate Monotone(tail: nat -> nat) {
    forall end: nat, later: nat | end <= later :: tail(end) <= tail(later)
  }

  /** Past the pointer limit every further octet counts once; before it the rest stays small. */
  ghost predicate EventuallyLinear(tail: nat -> nat) {
    && (forall end: nat | end >= POINTER_LIMIT :: tail(end) == tail(POINTER_LIMIT) + (end - POINTER_LIMIT))
    && (forall end: nat :: end <= tail(end) <= end + 806)
  }

  lemma {:induction false} RecordAtMost(mode: Compression, r: Record, b: Buffer)
    requires r.data.Soa?
    ensures WriteRecord(mode, r, b).size
         <= b.size + WireLength(r.owner) + WireLength(r.data.mname) + WireLength(r.data.rname) + 30
  {
    NameAtMost(mode, r.owner, b);
    var owned := WriteName(mode, r.owner, b);
    var fixed := owned.(size := owned.size + 10);
    NameAtMost(mode, r.data.mname, fixed);
    NameAtMost(mode, r.data.rname, WriteName(mode, r.data.mname, fixed));
  }

  lemma {:induction false} TailIsMonotone(c: Capacity)
    ensures Monotone(c.Tail())
  {
    var reachable, soa := Suffixes(Key(c.compression, c.acmeName)), SoaRecord(c.zone, c.nsHostname, 0);
    SuffixesClosed(Key(c.compression, c.acmeName));
    forall end: nat, later: nat | end <= later
      ensures c.Tail()(end) <= c.Tail()(later)
    {
      RecordKeepsBehind(c.compression, soa, Buffer(end, reachable), Buffer(later, reachable));
    }
  }

  lemma {:induction false} TailIsEventuallyLinear(c: Capacity)
    requires c.Valid()
    ensures EventuallyLinear(c.Tail())
  {
    var reachable, soa := Suffixes(Key(c.compression, c.acmeName)), SoaRecord(c.zone, c.nsHostname, 0);
    forall end: nat
      ensures end >= POINTER_LIMIT ==> c.Tail()(end) == c.Tail()(POINTER_LIMIT) + (end - POINTER_LIMIT)
      ensures end <= c.Tail()(end) <= end + 806
    {
      ZoneLength(c);
      RecordGrows(c.compression, soa, Buffer(end, reachable));
      RecordAtMost(c.compression, soa, Buffer(end, reachable));
      if end >= POINTER_LIMIT {
        RecordCostIsConstant(c.compression, soa, Buffer(POINTER_LIMIT, reachable), Buffer(end, reachable));
      }
    }
  }

  lemma {:induction false} ZoneLength(c: Capacity)
    requires c.Valid()
    ensures WireLength(c.zone) <= 255 && c.AnswersStart() <= 271
  {
    assert c.acmeName[1..] == c.zone;
  }

  lemma {:induction false} TxtShapeCompleteIff(mode: Compression, m: Message, owner: Name, ttl: nat,
                                               values: seq<string>, soa: Record, start: nat, opt: nat)
    requires owner != [] && TxtShape(m, owner, ttl, values, soa) && Key(mode, m.questions[0].name) == Key(mode, owner)
    requires !m.truncated && start == StartAfter(m.questions[0].name) && opt == OptOctets(m)
    ensures IsComplete(mode, m, |values|)
         == (Storable(values) && SizeWith(mode, owner, soa, EndOf(start, values)) + opt <= MAX_MESSAGE)
  {
    TxtReplySize(mode, m, owner, ttl, values, soa, start);
    TxtReplyEncodable(m, owner, ttl, values, soa);
    IsCompleteIff(mode, m);
  }

  lemma {:induction false} RoomInOctets(c: Capacity, values: seq<string>)
    ensures Room(c.Tail(), c.AnswersStart(), values)
         == (Storable(values)
             && SizeWith(c.compression, c.acmeName, SoaRecord(c.zone, c.nsHostname, 0), EndOf(c.AnswersStart(), values))
                + OPT_OCTETS <= MAX_MESSAGE)
  {
  }

  /** Running the encoder and inspecting the result decides exactly the arithmetic condition. */
  lemma {:induction false} FitsIff(c: Capacity, values: seq<string>)
    requires c.Valid()
    ensures c.Fits(values) == Room(c.Tail(), c.AnswersStart(), values)
  {
    TemplateHasShape(c, values);
    TxtShapeCompleteIff(c.compression, c.Template(values), c.acmeName, c.txtTtl, values,
                        SoaRecord(c.zone, c.nsHostname, 0), c.AnswersStart(), OPT_OCTETS);
    RoomInOctets(c, values);
  }

  /** So a live reply with admitted values is written whole. */
  lemma {:induction false} LiveFits(c: Capacity, m: Message, values: seq<string>, serial: nat)
    requires c.Valid() && TxtShape(m, c.acmeName, c.txtTtl, values, SoaRecord(c.zone, c.nsHostname, serial))
    requires Key(c.compression, m.questions[0].name) == Key(c.compression, c.acmeName)
    requires c.AnswersStart() == StartAfter(m.questions[0].name)
    requires Room(c.Tail(), c.AnswersStart(), values)
    ensures EncodableMessage(m) && FullSize(c.compression, m) <= MAX_MESSAGE
  {
    LiveSize(c, m, values, serial);
    TxtReplyEncodable(m, c.acmeName, c.txtTtl, values, SoaRecord(c.zone, c.nsHostname, serial));
  }

  lemma {:induction false} RoomForSubBag(tail: nat -> nat, start: nat, some: seq<string>, all: seq<string>)
    requires Monotone(tail) && Room(tail, start, all) && multiset(some) <= multiset(all)
    ensures Room(tail, start, some)
  {
    LoadOfSubBag(some, all);
    StorableSubBag(some, all);
    assert tail(EndOf(start, some)) <= tail(EndOf(start, all));
  }

  /** `Fits` is closed under taking part of the values, in any order. */
  lemma {:induction false} FitsSubBag(c: Capacity, some: seq<string>, all: seq<string>)
    requires c.Valid() && c.Fits(all) && multiset(some) <= multiset(all)
    ensures c.Fits(some)
  {
    TailIsMonotone(c);
    FitsIff(c, all);
    RoomForSubBag(c.Tail(), c.AnswersStart(), some, all);
    FitsIff(c, some);
  }

  /** `Fits` does not depend on the order in which the values are listed. */
  lemma {:induction false} FitsAnyOrder(c: Capacity, values: seq<string>, other: seq<string>)
    requires c.Valid() && multiset(values) == multiset(other)
    ensures c.Fits(values) <==> c.Fits(other)
  {
    if c.Fits(values) {
      FitsSubBag(c, other, values);
    }
    if c.Fits(other) {
      FitsSubBag(c, values, other);
    }
  }

  // ---- The largest number of one-octet values --------------------------------------------

  lemma {:induction false} StorableRepeat(count: nat)
    ensures Storable(Repeat("x", count))
  {
  }

  lemma {:induction false} RoomForCountIff(tail: nat -> nat, start: nat, count: nat)
    requires EventuallyLinear(tail) && start <= 271
    ensures Room(tail, start, Repeat("x", count))
       <==> start + tail(POINTER_LIMIT) - POINTER_LIMIT + 14 * count <= MAX_MESSAGE
  {
    StorableRepeat(count);
    LoadOfRepeat("x", count);
    var end := start + 14 * count;
    assert end <= tail(end) <= end + 806;
    assert POINTER_LIMIT <= tail(POINTER_LIMIT) <= POINTER_LIMIT + 806;
  }

  /** The count search in closed form, with the overhead of a message whose SOA lies past the
      pointer limit. */
  lemma {:induction false} FitsCountIff(c: Capacity, count: nat)
    requires c.Valid()
    ensures c.FitsCount(count) == (c.FarOverhead() + 14 * count <= MAX_MESSAGE)
  {
    TailIsEventuallyLinear(c);
    ZoneLength(c);
    FitsIff(c, Repeat("x", count));
    RoomForCountIff(c.Tail(), c.AnswersStart(), count);
  }

  lemma {:induction false} OverheadBound(c: Capacity)
    requires c.Valid()
    ensures 0 <= c.FarOverhead() <= 1077
  {
    TailIsEventuallyLinear(c);
    ZoneLength(c);
    assert POINTER_LIMIT <= c.Tail()(POINTER_LIMIT) <= POINTER_LIMIT + 806;
  }

  lemma {:induction false} GreatestQuotient(overhead: nat, n: nat)
    requires overhead <= 1077 && n <= MAX_DNS_RECORDS
    requires n == 0 || overhead + 14 * n <= MAX_MESSAGE
    requires n == MAX_DNS_RECORDS || overhead + 14 * (n + 1) > MAX_MESSAGE
    ensures n == (MAX_MESSAGE - overhead) / 14
    ensures forall count: nat :: (overhead + 14 * count <= MAX_MESSAGE) == (count <= n)
  {
  }

  lemma {:induction false} MaximumWithOverhead(c: Capacity, overhead: nat, n: nat)
    requires c.Valid() && overhead == c.FarOverhead() && overhead <= 1077
    requires n <= MAX_DNS_RECORDS && (n == 0 || c.FitsCount(n)) && (n == MAX_DNS_RECORDS || !c.FitsCount(n + 1))
    ensures n == (MAX_MESSAGE - overhead) / 14
    ensures forall count: nat :: (overhead + 14 * count <= MAX_MESSAGE) == (count <= n)
  {
    FitsCountIff(c, n);
    FitsCountIff(c, n + 1);
    GreatestQuotient(overhead, n);
  }

  /** What the search returns is the greatest count that fits: the octets that the overhead leaves,
      divided by the 14 octets of a one-octet value. */
  lemma {:induction false} MaximumIsGlobal(c: Capacity, n: nat)
    requires c.Valid()
    requires n <= MAX_DNS_RECORDS && (n == 0 || c.FitsCount(n)) && (n == MAX_DNS_RECORDS || !c.FitsCount(n + 1))
    ensures n == (MAX_MESSAGE - c.FarOverhead()) / 14
    ensures forall count: nat :: c.FitsCount(count) == (count <= n)
  {
    OverheadBound(c);
    var overhead := c.FarOverhead();
    MaximumWithOverhead(c, overhead, n);
    forall count: nat
      ensures c.FitsCount(count) == (count <= n)
    {
      FitsCountIff(c, count);
      assert (overhead + 14 * count <= MAX_MESSAGE) == (count <= n);
    }
  }

  lemma {:induction false} RoomForOnes(tail: nat -> nat, start: nat, values: seq<string>)
    requires Monotone(tail) && Room(tail, start, values) && forall v | v in values :: v != ""
    ensures Room(tail, start, Repeat("x", |values|))
  {
    LoadBounds(values);
    StorableRepeat(|values|);
    assert tail(EndOf(start, Repeat("x", |values|))) <= tail(EndOf(start, values));
  }

  /** Any accepted list of non-empty values is no longer than the greatest count. */
  lemma {:induction false} AcceptedListIsShort(c: Capacity, values: seq<string>)
    requires c.Valid() && c.Fits(values) && forall v | v in values :: v != ""
    ensures c.FitsCount(|values|)
    ensures c.FarOverhead() + 14 * |values| <= MAX_MESSAGE
  {
    FitsIff(c, values);
    TailIsMonotone(c);
    RoomForOnes(c.Tail(), c.AnswersStart(), values);
    FitsIff(c, Repeat("x", |values|));
    FitsCountIff(c, |values|);
  }

  /** The capacity test is one that a store can rely on, and it admits an empty store. */
  lemma {:induction false} FitsIsDownward(c: Capacity, fits: seq<string> -> bool)
    requires c.Valid() && forall values :: fits(values) == c.Fits(values)
    ensures Downward(fits) && fits([])
  {
    forall some, all | fits(all) && multiset(some) <= multiset(all)
      ensures fits(some)
    {
      FitsSubBag(c, some, all);
    }
    OverheadBound(c);
    FitsCountIff(c, 0);
    assert Repeat("x", 0) == [];
  }
}
