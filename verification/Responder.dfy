/** Answers to DNS requests (src/dns.rs), as functions of the request and of one reading of the store. */
module Responder {
  import opened Wrappers
  import opened Text
  import opened Names
  import opened Messages
  import opened Encoder
  import opened Configuration
  import WireCapacity
  import Xip

  const MAX_UDP_PAYLOAD: nat := 1232
  const MIN_UDP_PAYLOAD: nat := 512

  // ---- Lookups ---------------------------------------------------------------------------

  function ResolveA(config: Config, qname: string): Option<Xip.Ipv4> {
    if qname == config.nsHostname || qname == config.nsHostname2 || qname == config.domain then Some(config.nsIp)
    else Xip.XipAddress(qname, config.domain)
  }

  predicate NameExists(config: Config, qname: string) {
    || qname == config.domain
    || qname == config.nsHostname
    || qname == config.nsHostname2
    || qname == config.AcmeName()
    || Xip.XipAddress(qname, config.domain).Some?
  }

  function TxtAnswers(config: Config, qname: string, values: seq<string>): seq<Record> {
    if qname != config.AcmeName() then []
    else
      match FromAscii(qname)
      case None => []
      case Some(name) => WireCapacity.TxtRecords(name, config.txtTtl, values)
  }

  function ARecord(config: Config, name: Name, ip: Xip.Ipv4): Record {
    Record(name, config.defaultTtl, A(ip))
  }

  function NsRecord(config: Config, nameserver: string): Record {
    Record(config.Zone(), config.defaultTtl, Ns(Split(nameserver, '.')))
  }

  function NsGlue(config: Config): seq<Record> {
    [ARecord(config, Split(config.nsHostname, '.'), config.nsIp),
     ARecord(config, Split(config.nsHostname2, '.'), config.nsIp)]
  }

  function SoaOf(config: Config, serial: nat): Record {
    WireCapacity.SoaRecord(config.Zone(), Split(config.nsHostname, '.'), serial)
  }

  // ---- The reply -------------------------------------------------------------------------

  /** The name that all decisions are made on. */
  function QName(q: Question): string {
    Canonical(ToAscii(q.name))
  }

  predicate IsAcmeQuery(config: Config, q: Question) {
    q.qtype == TypeTxt && QName(q) == config.AcmeName()
  }

  /** Why a request is turned down without looking at the zone, if it is. */
  function Refusal(config: Config, request: Message): Option<ResponseCode> {
    if request.edns.Some? && request.edns.value.version != 0 then Some(BadVers)
    else if request.opCode != Query then Some(NotImp)
    else if |request.questions| != 1 then Some(FormErr)
    else if request.questions[0].qclass.OtherClass? then Some(NotImp)
    else if !Xip.IsOurDomain(QName(request.questions[0]), config.domain) then Some(Refused)
    else None
  }

  /** The question is echoed once it is known to be the only one. */
  predicate Echoes(request: Message) {
    (request.edns.Some? ==> request.edns.value.version == 0) && request.opCode == Query && |request.questions| == 1
  }

  function ReplyEdns(request: Message): Option<Edns> {
    match request.edns
    case None => None
    case Some(e) =>
      Some(Edns(0, if e.maxPayload < MAX_UDP_PAYLOAD then e.maxPayload else MAX_UDP_PAYLOAD, e.dnssecOk))
  }

  function Answers(config: Config, q: Question, values: seq<string>, serial: nat): seq<Record> {
    var qname := QName(q);
    match q.qtype
    case TypeSoa => if qname == config.domain then [SoaOf(config, serial)] else []
    case TypeNs =>
      if qname == config.domain then [NsRecord(config, config.nsHostname), NsRecord(config, config.nsHostname2)] else []
    case TypeA =>
      (match ResolveA(config, qname)
       case None => []
       case Some(ip) => [ARecord(config, q.name, ip)])
    case TypeTxt => TxtAnswers(config, qname, values)
    case OtherType(_) => []
  }

  function Additionals(config: Config, q: Question): seq<Record> {
    if q.qtype == TypeNs && QName(q) == config.domain then NsGlue(config) else []
  }

  function ZoneRcode(config: Config, q: Question, answers: seq<Record>): ResponseCode {
    if answers == [] && !NameExists(config, QName(q)) then NXDomain else NoError
  }

  function BaseReply(request: Message): Message {
    NewResponse(request.id, request.opCode).(
      recursionDesired := request.recursionDesired,
      questions := if Echoes(request) then request.questions else [],
      edns := ReplyEdns(request))
  }

  /** The reply to a request, from the values and the serial of one version of the zone. */
  function Reply(config: Config, request: Message, values: seq<string>, serial: nat): Message {
    match Refusal(config, request)
    case Some(rcode) => BaseReply(request).(rcode := rcode)
    case None =>
      var q := request.questions[0];
      var answers := Answers(config, q, values, serial);
      BaseReply(request).(
        authoritative := true,
        rcode := ZoneRcode(config, q, answers),
        answers := answers,
        authorities := [SoaOf(config, serial)],
        additionals := Additionals(config, q))
  }

  // ---- Encoding discipline ---------------------------------------------------------------

  function ServfailMessage(request: Message): Message {
    NewResponse(request.id, request.opCode).(
      rcode := ServFail,
      recursionDesired := request.recursionDesired,
      questions := request.questions)
  }

  /** The whole response, or SERVFAIL when its encoding fails or drops records. `None` is no reply. */
  function CompleteOrServfail(mode: Compression, request: Message, response: Message): Option<Wire> {
    var encoded := Encode(mode, response);
    if encoded.Some? && !encoded.value.content.truncated then encoded
    else Encode(mode, ServfailMessage(request))
  }

  /** What the requestor accepts over UDP, as the message reader reports it. */
  function AdvertisedPayload(request: Message): nat {
    match request.edns
    case None => MIN_UDP_PAYLOAD
    case Some(e) => if e.maxPayload < MIN_UDP_PAYLOAD then MIN_UDP_PAYLOAD else e.maxPayload
  }

  function UdpLimit(request: Message): nat {
    if AdvertisedPayload(request) < MAX_UDP_PAYLOAD then AdvertisedPayload(request) else MAX_UDP_PAYLOAD
  }

  function UdpReply(mode: Compression, request: Message, response: Message): Option<Wire> {
    var encoded := CompleteOrServfail(mode, request, response);
    if WireSize(encoded) <= UdpLimit(request) then encoded
    else
      var truncated := Encode(mode, Truncate(response));
      if truncated.Some? then truncated else Encode(mode, ServfailMessage(request))
  }

  function WireSize(encoded: Option<Wire>): nat {
    if encoded.Some? then encoded.value.size else 0
  }

  // ---- Existence -------------------------------------------------------------------------

  /** A request that reaches the zone lookup. */
  predicate ForZone(config: Config, request: Message) {
    Refusal(config, request).None?
  }

  /** Some query type and some content of the store give the name an answer. */
  ghost predicate HasAnswers(config: Config, q: Question, serial: nat) {
    exists qtype, values :: Answers(config, q.(qtype := qtype), values, serial) != []
  }

  /** A name that has an answer of some type, in some state of the store, exists. With accepted
      names these are all the names that exist. */
  lemma {:induction false} AnsweredNameExists(config: Config, q: Question, values: seq<string>, serial: nat)
    ensures Answers(config, q, values, serial) != [] ==> NameExists(config, QName(q))
    ensures config.NamesAccepted() ==>
              NameExists(config, QName(q)) == HasAnswers(config, q, serial)
  {
    if config.NamesAccepted() && NameExists(config, QName(q)) {
      if QName(q) == config.AcmeName() {
        assert Answers(config, q.(qtype := TypeTxt), [""], serial) != [];
      } else {
        assert Answers(config, q.(qtype := TypeA), [], serial) != [];
      }
    }
  }

  /** NXDOMAIN depends on the name alone, not on the query type or on the state of the store. */
  lemma {:induction false} NXDomainIffMissing(config: Config, request: Message, values: seq<string>, serial: nat)
    requires ForZone(config, request)
    ensures var reply := Reply(config, request, values, serial);
            && (reply.rcode == NXDomain <==> !NameExists(config, QName(request.questions[0])))
            && (reply.rcode == NXDomain ==> reply.answers == [])
            && (reply.rcode != NXDomain ==> reply.rcode == NoError)
  {
    var q := request.questions[0];
    AnsweredNameExists(config, q, values, serial);
  }

  /** For any two requests about one in-zone name, whatever their types and whatever changed in
      the store between them: both replies are NXDOMAIN without answers, or neither is. */
  lemma {:induction false} ExistenceIsTypeIndependent(config: Config, r1: Message, values1: seq<string>, serial1: nat,
                                                      r2: Message, values2: seq<string>, serial2: nat)
    requires ForZone(config, r1) && ForZone(config, r2) && QName(r1.questions[0]) == QName(r2.questions[0])
    ensures var a, b := Reply(config, r1, values1, serial1), Reply(config, r2, values2, serial2);
            && (a.rcode == NXDomain <==> b.rcode == NXDomain)
            && (a.answers != [] ==> b.rcode == NoError)
  {
    NXDomainIffMissing(config, r1, values1, serial1);
    NXDomainIffMissing(config, r2, values2, serial2);
  }

  // ---- What each kind of query gets ------------------------------------------------------

  /** A request that is only turned down when its name is outside the zone. */
  predicate OrdinaryQuery(request: Message) {
    && (request.edns.Some? ==> request.edns.value.version == 0)
    && request.opCode == Query
    && |request.questions| == 1
    && !request.questions[0].qclass.OtherClass?
  }

  /** The record that every reply about the zone has in its authority section. */
  lemma {:induction false} SoaIs(config: Config, serial: nat)
    ensures SoaOf(config, serial)
         == Record(Split(config.domain, '.'), 10,
                   Soa(Split(config.nsHostname, '.'), ["admin"] + Split(config.domain, '.'),
                       serial, 3600, 900, 86400, 10))
  {
  }

  /** Authority is claimed exactly for names inside the zone; every other reply is an error without
      any record. An ordinary query outside the zone is refused. */
  lemma {:induction false} AuthorityIffInZone(config: Config, request: Message, values: seq<string>, serial: nat)
    ensures var reply := Reply(config, request, values, serial);
            var zone, ns := Split(config.domain, '.'), Split(config.nsHostname, '.');
            && reply.authoritative
                 == (OrdinaryQuery(request) && Xip.IsOurDomain(QName(request.questions[0]), config.domain))
            && (reply.authoritative ==> reply.rcode in {NoError, NXDomain})
            && (reply.authoritative ==>
                  reply.authorities == [Record(zone, 10, Soa(ns, ["admin"] + zone, serial, 3600, 900, 86400, 10))])
            && (!reply.authoritative ==>
                  reply.answers == reply.authorities == reply.additionals == [] && reply.rcode !in {NoError, NXDomain})
            && (OrdinaryQuery(request) && !reply.authoritative ==> reply.rcode == Refused)
  {
    SoaIs(config, serial);
  }

  /** The code of a reply to a request that is not ordinary: the first fault decides. */
  lemma {:induction false} FirstFaultDecides(config: Config, request: Message, values: seq<string>, serial: nat)
    ensures var rcode := Reply(config, request, values, serial).rcode;
            var badVersion := request.edns.Some? && request.edns.value.version > 0;
            && (rcode == BadVers <==> badVersion)
            && (!badVersion && request.opCode != Query ==> rcode == NotImp)
            && (!badVersion && request.opCode == Query && |request.questions| != 1 ==> rcode == FormErr)
            && (!badVersion && request.opCode == Query && |request.questions| == 1 ==>
                  (request.questions[0].qclass !in {ClassIn, ClassAny} ==> rcode == NotImp))
            && (OrdinaryQuery(request) ==> rcode in {NoError, NXDomain, Refused})
  {
  }

  /** Which questions about a name in the zone have answers, and which have additional records. */
  lemma {:induction false} AnsweredIff(config: Config, request: Message, values: seq<string>, serial: nat)
    requires config.NamesAccepted() && ForZone(config, request)
    ensures var q, reply := request.questions[0], Reply(config, request, values, serial);
            && (q.qtype == TypeSoa ==> (reply.answers != [] <==> QName(q) == config.domain))
            && (q.qtype == TypeNs ==> (reply.answers != [] <==> QName(q) == config.domain))
            && (q.qtype == TypeA ==>
                  (reply.answers != [] <==> || QName(q) in {config.domain, config.nsHostname, config.nsHostname2}
                                            || Xip.XipAddress(QName(q), config.domain).Some?))
            && (q.qtype == TypeTxt ==>
                  (reply.answers != [] <==> QName(q) == "_acme-challenge." + config.domain && values != []))
            && (q.qtype.OtherType? ==> reply.answers == [])
            && (reply.additionals != [] <==> q.qtype == TypeNs && QName(q) == config.domain)
  {
    assert config.AcmeName() == "_acme-challenge." + config.domain;
  }

  /** An SOA query for the apex is answered with the record that the authority section has too. */
  lemma {:induction false} ApexSoaIsAnswered(config: Config, request: Message, values: seq<string>, serial: nat)
    requires ForZone(config, request) && request.questions[0].qtype == TypeSoa
    requires QName(request.questions[0]) == config.domain
    ensures var reply := Reply(config, request, values, serial);
            && reply.rcode == NoError
            && reply.answers == [Record(Split(config.domain, '.'), 10,
                                        Soa(Split(config.nsHostname, '.'), ["admin"] + Split(config.domain, '.'),
                                            serial, 3600, 900, 86400, 10))]
            && reply.answers == reply.authorities
  {
    SoaIs(config, serial);
  }

  /** A name that carries a printed address, bare or behind any prefix and in any letter case, is
      answered with that address, under the name as it was asked. */
  lemma {:induction false} EncodedAddressIsAnswered(config: Config, request: Message, prefix: string, ip: Xip.Ipv4,
                                                    values: seq<string>, serial: nat)
    requires OrdinaryQuery(request) && request.questions[0].qtype == TypeA
    requires var qname := QName(request.questions[0]);
             && (Lower(qname) == Lower(Xip.PrintIpv4(ip) + "." + config.domain)
                 || Lower(qname) == Lower(prefix + "-" + Xip.PrintIpv4(ip) + "." + config.domain))
             && qname != config.nsHostname && qname != config.nsHostname2
    ensures var reply := Reply(config, request, values, serial);
            && reply.rcode == NoError && reply.authoritative
            && reply.answers
                 == [Record(request.questions[0].name, config.defaultTtl, A(Xip.Ipv4(ip.a, ip.b, ip.c, ip.d)))]
  {
    var qname := QName(request.questions[0]);
    if Lower(qname) == Lower(Xip.PrintIpv4(ip) + "." + config.domain) {
      Xip.PrintThenParse(qname, ip, config.domain);
    } else {
      Xip.PrintThenParseWithPrefix(qname, prefix, ip, config.domain);
    }
    Xip.ParsedNameIsInZone(qname, config.domain);
    AddressIsLonger(qname, config.domain);
  }

  lemma {:induction false} AddressIsLonger(hostname: string, domain: string)
    requires Xip.XipAddress(hostname, domain).Some?
    ensures |hostname| > |domain|
  {
  }

  lemma {:induction false} NameBelow(first: string, name: Name)
    requires Canonical(ToAscii(name)) != ""
    ensures Canonical(ToAscii([first] + name)) == Lower(first + "." + TrimEnd(ToAscii(name), '.'))
  {
    assert name != [] ==> ([first] + name)[1..] == name;
    assert name != [] ==> ToAscii([first] + name) == first + "." + ToAscii(name);
    TrimEndBehind(first + ".", ToAscii(name), '.');
  }

  /** NXDOMAIN never speaks for the names below: under every in-zone name, missing ones included,
      there is a name that an address query finds. */
  lemma {:induction false} NoCutBelowAnyName(config: Config, r1: Message, values1: seq<string>, serial1: nat,
                                             r2: Message, values2: seq<string>, serial2: nat)
    requires config.Parsed() && ForZone(config, r1) && OrdinaryQuery(r2) && r2.questions[0].qtype == TypeA
    requires r2.questions[0].name == [Xip.BELOW] + r1.questions[0].name
    ensures var below := Reply(config, r2, values2, serial2);
            && below.rcode == NoError && below.authoritative && |below.answers| == 1
            && below.answers[0].owner == r2.questions[0].name && below.answers[0].data.A?
  {
    var name := r1.questions[0].name;
    var qname := Canonical(ToAscii(name));
    assert qname != "" by {
      NormalIsCanonical(config.domain);
    }
    NameBelow(Xip.BELOW, name);
    var trimmed := TrimEnd(ToAscii(name), '.');
    LowerTwice(trimmed);
    Xip.CaseIndependent(qname, trimmed, config.domain);
    Xip.AddressBelowIff(trimmed, config.domain);
    LowerTwice(Xip.BELOW + "." + trimmed);
    Xip.CaseIndependent(QName(r2.questions[0]), Xip.BELOW + "." + trimmed, config.domain);
    Xip.ParsedNameIsInZone(QName(r2.questions[0]), config.domain);
  }

  /** A nameserver query for the apex names both nameservers, with an address for each of them. */
  lemma {:induction false} ApexNameserversHaveGlue(config: Config, request: Message, values: seq<string>, serial: nat)
    requires ForZone(config, request) && request.questions[0].qtype == TypeNs
    requires QName(request.questions[0]) == config.domain
    ensures var reply := Reply(config, request, values, serial);
            var zone, ttl := Split(config.domain, '.'), config.defaultTtl;
            var ns1, ns2 := Split(config.nsHostname, '.'), Split(config.nsHostname2, '.');
            && reply.rcode == NoError
            && reply.answers == [Record(zone, ttl, Ns(ns1)), Record(zone, ttl, Ns(ns2))]
            && reply.additionals == [Record(ns1, ttl, A(config.nsIp)), Record(ns2, ttl, A(config.nsIp))]
  {
  }

  /** The apex and the configured nameserver names resolve to the configured address. */
  lemma {:induction false} NameserverIsAnswered(config: Config, request: Message, values: seq<string>, serial: nat)
    requires config.Parsed() && config.NamesAccepted() && OrdinaryQuery(request) && request.questions[0].qtype == TypeA
    requires QName(request.questions[0]) in {config.domain, config.nsHostname, config.nsHostname2}
    ensures var reply := Reply(config, request, values, serial);
            && reply.rcode == NoError && reply.authoritative
            && reply.answers == [Record(request.questions[0].name, config.defaultTtl, A(config.nsIp))]
  {
    if QName(request.questions[0]) != config.domain {
      NameserversAreInZone(config, QName(request.questions[0]));
    }
  }

  lemma {:induction false} TwoParts(front: string, back: string)
    requires '-' !in front && '-' !in back
    ensures |Split(front + "-" + back, '-')| == 2
  {
    SplitConcat(front, back, '-');
    SplitPlain(front, '-');
    SplitPlain(back, '-');
  }

  lemma {:induction false} AcmeLabelIsLower()
    ensures Lower(ACME_LABEL) == ACME_LABEL
  {
  }

  lemma {:induction false} AcmeLabelParts()
    ensures |Split(Lower(ACME_LABEL), '-')| < 4
  {
    TwoParts("_acme", "challenge");
    AcmeLabelIsLower();
    assert ACME_LABEL == "_acme" + "-" + "challenge";
  }

  lemma {:induction false} AcmeNameIsNoAddress(config: Config)
    ensures Xip.XipAddress(config.AcmeName(), config.domain) == None
  {
    Xip.AddressOfFront(config.AcmeName(), ACME_LABEL, config.domain);
    AcmeLabelParts();
  }

  lemma {:induction false} AcmeNameResolves(config: Config)
    ensures ResolveA(config, config.AcmeName()) == None
       <==> config.AcmeName() != config.nsHostname && config.AcmeName() != config.nsHostname2
  {
    AcmeNameIsNoAddress(config);
    assert |config.AcmeName()| > |config.domain|;
  }

  /** An address query for the challenge name is NODATA, unless a nameserver was given that name. */
  lemma {:induction false} AcmeNameHasNoAddress(config: Config, request: Message, values: seq<string>, serial: nat)
    requires ForZone(config, request)
    requires request.questions[0].qtype == TypeA && QName(request.questions[0]) == config.AcmeName()
    ensures var reply := Reply(config, request, values, serial);
            && reply.rcode == NoError
            && (reply.answers == [] <==> config.AcmeName() !in {config.nsHostname, config.nsHostname2})
  {
    AcmeNameResolves(config);
  }

  // ---- Letter case -----------------------------------------------------------------------

  /** The same request but for the letter case of the question name. */
  predicate SameButCase(r1: Message, r2: Message) {
    && |r1.questions| == 1 && |r2.questions| == 1
    && FoldLabels(r1.questions[0].name) == FoldLabels(r2.questions[0].name)
    && r2 == r1.(questions := [r1.questions[0].(name := r2.questions[0].name)])
  }

  /** A record without its owner, when the owner is the question name. */
  function Unowned(rs: seq<Record>): seq<(nat, RData)> {
    seq(|rs|, i requires 0 <= i < |rs| => (rs[i].ttl, rs[i].data))
  }

  lemma {:induction false} CaseIndependentAnswers(config: Config, q1: Question, q2: Question, values: seq<string>,
                                                  serial: nat)
    requires QName(q1) == QName(q2) && q1.qtype == q2.qtype
    ensures var a, b := Answers(config, q1, values, serial), Answers(config, q2, values, serial);
            && Unowned(a) == Unowned(b) && (a == [] <==> b == [])
            && (q1.qtype != TypeA ==> a == b)
            && (q1.qtype == TypeA ==> forall r | r in b :: r.owner == q2.name)
    ensures Additionals(config, q1) == Additionals(config, q2)
  {
  }

  /** Replies to requests that differ in letter case only differ in the echoed question, and in
      the owner of an address record. */
  lemma {:induction false} CaseIndependentReply(config: Config, r1: Message, r2: Message, values: seq<string>,
                                                serial: nat)
    requires SameButCase(r1, r2)
    ensures var a, b := Reply(config, r1, values, serial), Reply(config, r2, values, serial);
            && QName(r1.questions[0]) == QName(r2.questions[0])
            && b == a.(questions := b.questions, answers := b.answers)
            && Unowned(a.answers) == Unowned(b.answers)
            && (r1.questions[0].qtype != TypeA ==> a.answers == b.answers)
            && (forall r | r in b.answers && r1.questions[0].qtype == TypeA :: r.owner == r2.questions[0].name)
  {
    var q1, q2 := r1.questions[0], r2.questions[0];
    CanonicalFold(q1.name);
    CanonicalFold(q2.name);
    assert q2.qtype == q1.qtype && q2.qclass == q1.qclass;
    assert BaseReply(r2) == BaseReply(r1).(questions := if Echoes(r1) then r2.questions else []);
    if Refusal(config, r1).None? {
      CaseIndependentAnswers(config, q1, q2, values, serial);
    }
  }
}
