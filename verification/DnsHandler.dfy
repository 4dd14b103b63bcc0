/** The request handler over the shared records: one reading of the store per reply (src/dns.rs:20-227). */
module DnsHandlerClass {
  import opened Wrappers
  import opened Messages
  import opened Encoder
  import opened Configuration
  import opened Responder
  import opened Delivery
  import opened Store
  import opened History
  import opened Runs
  import opened Service
  import opened AcmeRecordsClass
  import Xip

  /** The values that the reply may use, from the records as they are after pruning. */
  function ValuesFor(config: Config, request: Message, records: Records): seq<string> {
    if ForZone(config, request) && IsAcmeQuery(config, request.questions[0])
    then Values(TokensOf(records, config.AcmeName())) else []
  }

  lemma {:induction false} ZoneReply(config: Config, request: Message, values: seq<string>, serial: nat)
    requires ForZone(config, request)
    ensures var q := request.questions[0];
            var answers := Answers(config, q, values, serial);
            Reply(config, request, values, serial)
              == BaseReply(request).(authoritative := true).(rcode := ZoneRcode(config, q, answers), answers := answers,
                                     authorities := [SoaOf(config, serial)], additionals := Additionals(config, q))
  {
  }

  lemma {:induction false} OneDnsOp(config: Config, limits: Limits, z: Zone, raw: Option<Message>, now: nat, clock: nat)
    requires raw.Some? && !raw.value.isResponse
    ensures var ops, read := StoreOps(config, Dns(raw, now)), ForZone(config, raw.value);
            && Run(limits, z, ops) == (if read then ReadZone(z, now) else z)
            && Clock(limits, z, ops, clock) == if read then now else clock
  {
    if ForZone(config, raw.value) {
      OneOp(limits, z, StoreOps(config, Dns(raw, now))[0], clock);
    }
  }

  lemma {:induction false} TcpEchoed(config: Config, mode: Compression, request: Message, values: seq<string>,
                                     serial: nat)
    requires LegalRequest(request)
    ensures var sent := CompleteOrServfail(mode, request, Reply(config, request, values, serial));
            sent.Some? && sent.value.size <= 65535 && Echoed(request, sent.value.content)
  {
    AllOrNothing(config, mode, request, values, serial);
    RequestIsEchoed(config, mode, request, values, serial);
  }

  lemma {:induction false} UdpEchoed(config: Config, mode: Compression, request: Message, values: seq<string>,
                                     serial: nat)
    requires LegalRequest(request)
    ensures var sent := UdpReply(mode, request, Reply(config, request, values, serial));
            && sent.Some? && Echoed(request, sent.value.content)
            && sent.value.size <= UdpLimit(request)
    ensures UdpLimit(request) <= 1232 && (request.edns.None? ==> UdpLimit(request) == 512)
    ensures request.edns.Some? ==>
              var size := request.edns.value.maxPayload;
              UdpLimit(request) <= if size <= 512 then 512 else size
  {
    UdpAllOrNothing(config, mode, request, values, serial);
    RequestIsEchoed(config, mode, request, values, serial);
    UdpLimitInOctets(request);
  }

  class DnsHandler {
    const config: Config
    const acme: AcmeRecords
    const compression: Compression

    constructor (config: Config, acme: AcmeRecords, compression: Compression)
      ensures this.config == config && this.acme == acme && this.compression == compression
    {
      this.config := config;
      this.acme := acme;
      this.compression := compression;
    }

    /** The checks that need no data. A refused request has its reply already; for any other the
        response is started, with the question echoed. */
    method CheckRequest(request: Message) returns (response: Message, refused: bool)
      ensures refused <==> !ForZone(config, request)
      ensures refused ==> response == BaseReply(request).(rcode := Refusal(config, request).value)
      ensures !refused ==> response == BaseReply(request).(authoritative := true)
    {
      refused := true;
      response := NewResponse(request.id, request.opCode);
      response := response.(authoritative := true);
      response := response.(recursionDesired := request.recursionDesired);
      response := response.(recursionAvailable := false);
      if request.edns.Some? {
        var requestEdns := request.edns.value;
        var payload := if requestEdns.maxPayload < MAX_UDP_PAYLOAD then requestEdns.maxPayload else MAX_UDP_PAYLOAD;
        response := response.(edns := Some(Edns(0, payload, requestEdns.dnssecOk)));
        if requestEdns.version != 0 {
          response := response.(authoritative := false, rcode := BadVers);
          return;
        }
      }
      if request.opCode != Query {
        response := response.(authoritative := false, rcode := NotImp);
        return;
      }
      if |request.questions| != 1 {
        response := response.(authoritative := false, rcode := FormErr);
        return;
      }
      var query := request.questions[0];
      response := response.(questions := response.questions + [query]);
      assert response.questions == request.questions;
      if query.qclass.OtherClass? {
        response := response.(authoritative := false, rcode := NotImp);
        return;
      }
      if !Xip.IsOurDomain(QName(query), config.domain) {
        response := response.(authoritative := false, rcode := Refused);
        return;
      }
      refused := false;
    }

    /** Values and serial come from one version of the zone, and only in-zone requests touch it. */
    method BuildResponse(request: Message, now: nat) returns (response: Message)
      requires config.Parsed() && config.NamesAccepted()
      requires acme.Valid() && acme.clock <= now
      modifies acme
      ensures acme.Valid() && acme.log == old(acme.log)
      ensures acme.clock == if ForZone(config, request) then now else old(acme.clock)
      ensures acme.State() == if ForZone(config, request) then ReadZone(old(acme.State()), now) else old(acme.State())
      ensures response == Reply(config, request, ValuesFor(config, request, acme.records), acme.serial)
      ensures ForZone(config, request) && IsAcmeQuery(config, request.questions[0]) ==>
                IsLiveList(acme.log, acme.limits.lifetime, config.AcmeName(), now,
                           ValuesFor(config, request, acme.records))
    {
      var refused;
      response, refused := CheckRequest(request);
      if refused {
        return;
      }
      var values, serial := ReadZoneFor(request.questions[0], now);
      ZoneReply(config, request, values, serial);
      response := AnswerQuestion(response, request.questions[0], values, serial);
    }

    /** Only a TXT query for the challenge name reads values; every other one reads the serial alone. */
    method ReadZoneFor(query: Question, now: nat) returns (values: seq<string>, serial: Serial)
      requires acme.Valid() && acme.clock <= now
      modifies acme
      ensures acme.Valid() && acme.log == old(acme.log) && acme.clock == now
      ensures acme.State() == ReadZone(old(acme.State()), now) && serial == acme.serial
      ensures values == if IsAcmeQuery(config, query) then Values(TokensOf(acme.records, config.AcmeName())) else []
      ensures IsAcmeQuery(config, query) ==>
                IsLiveList(acme.log, acme.limits.lifetime, config.AcmeName(), now, values)
    {
      var qname := QName(query);
      if query.qtype == TypeTxt && qname == config.AcmeName() {
        values, serial := acme.GetWithSerial(qname, now);
      } else {
        serial := acme.CurrentSerial(now);
        values := [];
      }
    }

    /** Fills in the sections for a question inside the zone. */
    method AnswerQuestion(base: Message, query: Question, values: seq<string>, serial: nat) returns (response: Message)
      requires base.answers == [] && base.authorities == [] && base.additionals == [] && base.rcode == NoError
      ensures var answers := Answers(config, query, values, serial);
              response == base.(rcode := ZoneRcode(config, query, answers), answers := answers,
                                authorities := [SoaOf(config, serial)], additionals := Additionals(config, query))
    {
      var qname := QName(query);
      var soa := SoaOf(config, serial);
      response := base.(authorities := base.authorities + [soa]);
      assert response.authorities == [soa];
      match query.qtype
      case TypeSoa =>
        if qname == config.domain {
          response := AddAnswers(response, [soa]);
        } else {
          response := DenyIfMissing(response, qname);
        }
      case TypeNs =>
        if qname == config.domain {
          response := AddNameservers(response);
        } else {
          response := DenyIfMissing(response, qname);
        }
      case TypeA =>
        var ip := ResolveA(config, qname);
        if ip.Some? {
          response := AddAnswers(response, [ARecord(config, query.name, ip.value)]);
        } else {
          response := DenyIfMissing(response, qname);
        }
      case TypeTxt =>
        var records := TxtAnswers(config, qname, values);
        if records == [] {
          response := DenyIfMissing(response, qname);
        } else {
          response := AddAnswers(response, records);
        }
      case OtherType(_) =>
        response := DenyIfMissing(response, qname);
    }

    /** Without an answer, only a name that does not exist is denied. */
    method DenyIfMissing(base: Message, qname: string) returns (response: Message)
      ensures response == if NameExists(config, qname) then base else base.(rcode := NXDomain)
    {
      response := base;
      if !NameExists(config, qname) {
        response := response.(rcode := NXDomain);
      }
    }

    method AddNameservers(base: Message) returns (response: Message)
      requires base.answers == [] && base.additionals == []
      ensures response == base.(answers := [NsRecord(config, config.nsHostname), NsRecord(config, config.nsHostname2)],
                                additionals := NsGlue(config))
    {
      response := AddAnswers(base, [NsRecord(config, config.nsHostname), NsRecord(config, config.nsHostname2)]);
      response := AddAdditionals(response, NsGlue(config));
    }

    method AddAnswers(base: Message, records: seq<Record>) returns (response: Message)
      requires base.answers == []
      ensures response == base.(answers := records)
    {
      response := base;
      for i := 0 to |records|
        invariant response == base.(answers := records[..i])
      {
        response := response.(answers := response.answers + [records[i]]);
      }
      assert records[..|records|] == records;
    }

    method AddAdditionals(base: Message, records: seq<Record>) returns (response: Message)
      requires base.additionals == []
      ensures response == base.(additionals := records)
    {
      response := base;
      for i := 0 to |records|
        invariant response == base.(additionals := records[..i])
      {
        response := response.(additionals := response.additionals + [records[i]]);
      }
      assert records[..|records|] == records;
    }

    /** One request over TCP. `None` stands for a request that cannot be read, and for no reply. */
    method Handle(raw: Option<Message>, now: nat) returns (sent: Option<Wire>)
      requires config.Parsed() && config.NamesAccepted()
      requires acme.Valid() && acme.clock <= now
      modifies acme
      ensures acme.Valid() && acme.log == old(acme.log)
      ensures var ops := StoreOps(config, Dns(raw, now));
              && acme.State() == Run(acme.limits, old(acme.State()), ops)
              && acme.clock == Clock(acme.limits, old(acme.State()), ops, old(acme.clock))
      ensures raw.None? || raw.value.isResponse ==> sent == None
      ensures raw.Some? && !raw.value.isResponse ==>
                sent == CompleteOrServfail(compression, raw.value,
                             Reply(config, raw.value, ValuesFor(config, raw.value, acme.records), acme.serial))
      ensures raw.Some? && !raw.value.isResponse && LegalRequest(raw.value) ==>
                sent.Some? && sent.value.size <= 65535 && Echoed(raw.value, sent.value.content)
      ensures raw.Some? && ChallengeRequest(config, compression, raw.value)
              && acme.limits == ServiceLimits(config, compression) ==>
                var values := Values(TokensOf(acme.records, config.AcmeName()));
                && IsLiveList(acme.log, config.tokenLifetime, config.AcmeName(), now, values)
                && sent.Some? && sent.value.size <= MAX_MESSAGE
                && FullAnswer(config, raw.value, sent.value.content, values, acme.serial)
    {
      if raw.None? {
        return None;
      }
      if raw.value.isResponse {
        return None;
      }
      ghost var limits := ServiceLimits(config, compression);
      OneDnsOp(config, acme.limits, acme.State(), raw, now, acme.clock);
      if ChallengeRequest(config, compression, raw.value) && acme.limits == limits {
        SentInState(config, compression, acme.log, acme.State(), acme.clock, raw.value, now);
        AcmeRequestReachesZone(config, raw.value);
      }
      var response := BuildResponse(raw.value, now);
      sent := CompleteOrServfail(compression, raw.value, response);
      if LegalRequest(raw.value) {
        TcpEchoed(config, compression, raw.value, ValuesFor(config, raw.value, acme.records), acme.serial);
      }
    }

    /** One request over UDP. */
    method HandleUdp(raw: Option<Message>, now: nat) returns (sent: Option<Wire>)
      requires config.Parsed() && config.NamesAccepted()
      requires acme.Valid() && acme.clock <= now
      modifies acme
      ensures acme.Valid() && acme.log == old(acme.log)
      ensures var ops := StoreOps(config, Dns(raw, now));
              && acme.State() == Run(acme.limits, old(acme.State()), ops)
              && acme.clock == Clock(acme.limits, old(acme.State()), ops, old(acme.clock))
      ensures raw.None? || raw.value.isResponse ==> sent == None
      ensures raw.Some? && !raw.value.isResponse ==>
                sent == UdpReply(compression, raw.value,
                             Reply(config, raw.value, ValuesFor(config, raw.value, acme.records), acme.serial))
      ensures raw.Some? && !raw.value.isResponse && LegalRequest(raw.value) ==>
                && sent.Some? && Echoed(raw.value, sent.value.content)
                && sent.value.size <= 1232
                && (raw.value.edns.None? ==> sent.value.size <= 512)
                && (raw.value.edns.Some? && raw.value.edns.value.maxPayload <= 512 ==> sent.value.size <= 512)
                && (raw.value.edns.Some? && raw.value.edns.value.maxPayload > 512 ==>
                      sent.value.size <= raw.value.edns.value.maxPayload)
      ensures raw.Some? && ChallengeRequest(config, compression, raw.value)
              && acme.limits == ServiceLimits(config, compression) ==>
                var values := Values(TokensOf(acme.records, config.AcmeName()));
                && IsLiveList(acme.log, config.tokenLifetime, config.AcmeName(), now, values)
                && sent.Some? && sent.value.size <= UdpLimit(raw.value)
                && (FullAnswer(config, raw.value, sent.value.content, values, acme.serial)
                    || sent.value.content == Truncate(Reply(config, raw.value, values, acme.serial)))
    {
      if raw.None? {
        return None;
      }
      if raw.value.isResponse {
        return None;
      }
      ghost var limits := ServiceLimits(config, compression);
      OneDnsOp(config, acme.limits, acme.State(), raw, now, acme.clock);
      if ChallengeRequest(config, compression, raw.value) && acme.limits == limits {
        UdpSentInState(config, compression, acme.log, acme.State(), acme.clock, raw.value, now);
        AcmeRequestReachesZone(config, raw.value);
      }
      var maxPayload := UdpLimit(raw.value);
      var response := BuildResponse(raw.value, now);
      if LegalRequest(raw.value) {
        UdpEchoed(config, compression, raw.value, ValuesFor(config, raw.value, acme.records), acme.serial);
      }
      var encoded := CompleteOrServfail(compression, raw.value, response);
      if WireSize(encoded) <= maxPayload {
        return encoded;
      }
      var truncated := Encode(compression, Truncate(response));
      if truncated.Some? {
        return truncated;
      }
      return Encode(compression, ServfailMessage(raw.value));
    }
  }
}
