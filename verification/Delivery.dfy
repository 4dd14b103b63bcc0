/** What reaches the client: complete replies, SERVFAIL, or over UDP a request to retry over TCP. */
module Delivery {
  import opened Wrappers
  import opened Text
  import opened Names
  import opened Messages
  import opened Encoder
  import opened Configuration
  import opened Responder
  import WireCapacity

  /** Question names have been read from a message, so they are legal. */
  predicate LegalRequest(request: Message) {
    forall q | q in request.questions :: LegalName(q.name)
  }

  // ---- Messages without records ----------------------------------------------------------

  predicate NoRecords(m: Message) {
    m.answers == [] && m.authorities == [] && m.additionals == []
  }

  lemma {:induction false} ShortHeader(mode: Compression, m: Message)
    requires |m.questions| <= 1 && LegalRequest(m)
    ensures WriteHeader(mode, m).size <= 271
  {
    if m.questions != [] {
      var q := m.questions[0];
      assert m.questions == [q] && q in m.questions;
      WireCapacity.OneQuestion(mode, q);
    }
  }

  lemma {:induction false} EncodeWithoutRecords(mode: Compression, m: Message)
    requires NoRecords(m) && |m.questions| <= 1 && LegalRequest(m)
    ensures Encode(mode, m) == Some(Wire(WriteHeader(mode, m).size + OptOctets(m), m))
    ensures WriteHeader(mode, m).size + OptOctets(m) <= 282
  {
    ShortHeader(mode, m);
  }

  // ---- All or nothing --------------------------------------------------------------------

  predicate FitsWhole(mode: Compression, m: Message) {
    EncodableMessage(m) && FullSize(mode, m) <= MAX_MESSAGE
  }

  lemma {:induction false} RefusalsFit(config: Config, mode: Compression, request: Message, values: seq<string>,
                                       serial: nat)
    requires LegalRequest(request) && !ForZone(config, request)
    ensures FitsWhole(mode, Reply(config, request, values, serial))
  {
    var reply := Reply(config, request, values, serial);
    assert NoRecords(reply);
    ShortHeader(mode, reply);
  }

  lemma {:induction false} ReplyHeader(config: Config, mode: Compression, request: Message, values: seq<string>,
                                       serial: nat)
    requires LegalRequest(request)
    ensures var reply := Reply(config, request, values, serial);
            && !reply.truncated && |reply.questions| <= 1 && LegalRequest(reply)
            && WriteHeader(mode, reply).size <= MAX_MESSAGE
  {
    ShortHeader(mode, Reply(config, request, values, serial));
  }

  /** Every request gets one of two things: the whole reply, when it fits, or SERVFAIL without
      answers. It never gets part of a reply. */
  lemma {:induction false} AllOrNothing(config: Config, mode: Compression, request: Message, values: seq<string>,
                                        serial: nat)
    requires LegalRequest(request)
    ensures var reply := Reply(config, request, values, serial);
            var sent := CompleteOrServfail(mode, request, reply);
            && sent.Some? && sent.value.size <= MAX_MESSAGE && !sent.value.content.truncated
            && (FitsWhole(mode, reply) ==> sent.value == Wire(FullSize(mode, reply), reply))
            && (!FitsWhole(mode, reply) ==> sent.value.content == ServfailMessage(request) && sent.value.size <= 282)
  {
    var reply := Reply(config, request, values, serial);
    ReplyHeader(config, mode, request, values, serial);
    CompleteIff(mode, reply);
    if !FitsWhole(mode, reply) {
      if !ForZone(config, request) {
        RefusalsFit(config, mode, request, values, serial);
      }
      EncodeWithoutRecords(mode, ServfailMessage(request));
    }
  }

  /** Over UDP there is a third possibility: a reply with TC set and no records. Whatever is sent
      respects the size limit, and only the whole reply looks like success. */
  lemma {:induction false} UdpAllOrNothing(config: Config, mode: Compression, request: Message, values: seq<string>,
                                           serial: nat)
    requires LegalRequest(request)
    ensures var reply := Reply(config, request, values, serial);
            var sent := UdpReply(mode, request, reply);
            && sent.Some? && sent.value.size <= UdpLimit(request) <= MAX_UDP_PAYLOAD
            && (sent.value.content == reply || sent.value.content == ServfailMessage(request)
                || sent.value.content
                     == reply.(truncated := true, answers := [], authorities := [], additionals := []))
            && (FitsWhole(mode, reply) && FullSize(mode, reply) <= UdpLimit(request) ==> sent.value.content == reply)
            && (sent.value.content.rcode == NoError && !sent.value.content.truncated ==> sent.value.content == reply)
  {
    var reply := Reply(config, request, values, serial);
    AllOrNothing(config, mode, request, values, serial);
    ReplyHeader(config, mode, request, values, serial);
    EncodeWithoutRecords(mode, Truncate(reply));
  }

  /** A reply that fits is sent whole over TCP, and over UDP too if the client takes that many
      octets; otherwise UDP asks for a retry over TCP. */
  lemma {:induction false} WholeReplyIsSent(config: Config, mode: Compression, request: Message, values: seq<string>,
                                            serial: nat)
    requires LegalRequest(request) && FitsWhole(mode, Reply(config, request, values, serial))
    ensures var reply := Reply(config, request, values, serial);
            var tcp, udp := CompleteOrServfail(mode, request, reply), UdpReply(mode, request, reply);
            && tcp == Some(Wire(FullSize(mode, reply), reply))
            && udp.Some? && udp.value.size <= UdpLimit(request)
            && udp.value.content == if FullSize(mode, reply) <= UdpLimit(request) then reply else Truncate(reply)
  {
    AllOrNothing(config, mode, request, values, serial);
    UdpAllOrNothing(config, mode, request, values, serial);
    ReplyHeader(config, mode, request, values, serial);
    EncodeWithoutRecords(mode, Truncate(Reply(config, request, values, serial)));
  }

  /** Every request gets SERVFAIL over UDP exactly when it does over TCP: size alone never causes it. */
  lemma {:induction false} UdpServfailIff(config: Config, mode: Compression, request: Message, values: seq<string>,
                                          serial: nat)
    requires LegalRequest(request)
    ensures var reply := Reply(config, request, values, serial);
            var tcp, udp := CompleteOrServfail(mode, request, reply), UdpReply(mode, request, reply);
            && tcp.Some? && udp.Some?
            && (udp.value.content == ServfailMessage(request) <==> tcp.value.content == ServfailMessage(request))
  {
    AllOrNothing(config, mode, request, values, serial);
    if FitsWhole(mode, Reply(config, request, values, serial)) {
      WholeReplyIsSent(config, mode, request, values, serial);
    }
  }

  // ---- What every message sent has in common ---------------------------------------------

  /** What every message carries back from the request. */
  predicate HeaderEchoed(request: Message, content: Message) {
    && content.isResponse && !content.recursionAvailable
    && content.id == request.id
    && content.opCode == request.opCode
    && content.recursionDesired == request.recursionDesired
  }

  /** What a message other than SERVFAIL carries besides. */
  predicate RestEchoed(request: Message, content: Message) {
    && (var readable := (request.edns.Some? ==> request.edns.value.version == 0)
                        && request.opCode == Query && |request.questions| == 1;
        content.questions == if readable then request.questions else [])
    && (content.edns.Some? <==> request.edns.Some?)
    && (request.edns.Some? ==>
          && content.edns.value.version == 0
          && content.edns.value.dnssecOk == request.edns.value.dnssecOk
          && (request.edns.value.maxPayload <= 1232 ==> content.edns.value.maxPayload == request.edns.value.maxPayload)
          && (request.edns.value.maxPayload >= 1232 ==> content.edns.value.maxPayload == 1232))
  }

  /** A SERVFAIL has the questions as they were asked, and nothing else. */
  predicate BareServfail(request: Message, content: Message) {
    && content.questions == request.questions
    && content.answers == content.authorities == content.additionals == [] && content.edns == None
    && !content.authoritative && !content.truncated
  }

  predicate Echoed(request: Message, content: Message) {
    && HeaderEchoed(request, content)
    && (content.rcode != ServFail ==> RestEchoed(request, content))
    && (content.rcode == ServFail ==> BareServfail(request, content))
  }

  lemma {:induction false} ReplyEchoes(config: Config, request: Message, values: seq<string>, serial: nat)
    ensures Echoed(request, Reply(config, request, values, serial))
    ensures Echoed(request, Truncate(Reply(config, request, values, serial)))
  {
  }

  lemma {:induction false} ServfailEchoes(request: Message)
    ensures Echoed(request, ServfailMessage(request))
  {
  }

  /** Over TCP and UDP alike, whatever is sent answers the request that was made. */
  lemma {:induction false} RequestIsEchoed(config: Config, mode: Compression, request: Message, values: seq<string>,
                                           serial: nat)
    requires LegalRequest(request)
    ensures var reply := Reply(config, request, values, serial);
            var tcp, udp := CompleteOrServfail(mode, request, reply), UdpReply(mode, request, reply);
            && tcp.Some? && Echoed(request, tcp.value.content)
            && udp.Some? && Echoed(request, udp.value.content)
  {
    AllOrNothing(config, mode, request, values, serial);
    UdpAllOrNothing(config, mode, request, values, serial);
    ReplyEchoes(config, request, values, serial);
    ServfailEchoes(request);
  }

  // ---- The UDP limit in octets -----------------------------------------------------------

  lemma {:induction false} UdpLimitInOctets(request: Message)
    ensures request.edns.None? ==> UdpLimit(request) == 512
    ensures request.edns.Some? ==>
              var size := request.edns.value.maxPayload;
              UdpLimit(request) == if size <= 512 then 512 else if size <= 1232 then size else 1232
  {
  }

  /** Sent over UDP: at most 512 octets to a client that does not say or says less, at most what it
      says up to 1232, and never more. A reply that fits is sent whole exactly within that number. */
  lemma {:induction false} UdpSizeInOctets(config: Config, mode: Compression, request: Message, values: seq<string>,
                                           serial: nat)
    requires LegalRequest(request)
    ensures var reply := Reply(config, request, values, serial);
            var sent := UdpReply(mode, request, reply);
            var limit := if request.edns.None? || request.edns.value.maxPayload <= 512 then 512
                         else if request.edns.value.maxPayload <= 1232 then request.edns.value.maxPayload
                         else 1232;
            && sent.Some? && sent.value.size <= limit
            && (FitsWhole(mode, reply) ==> (sent.value.content == reply <==> FullSize(mode, reply) <= limit))
  {
    UdpLimitInOctets(request);
    UdpAllOrNothing(config, mode, request, values, serial);
    if FitsWhole(mode, Reply(config, request, values, serial)) {
      WholeReplyIsSent(config, mode, request, values, serial);
    }
  }

  // ---- Small replies ---------------------------------------------------------------------

  predicate SmallRecord(r: Record) {
    && LegalName(r.owner)
    && match r.data
       case A(_) => true
       case Ns(target) => LegalName(target)
       case Soa(mname, rname, _, _, _, _, _) => LegalName(mname) && LegalName(rname)
       case Txt(_) => false
  }

  lemma {:induction false} SmallDataSize(mode: Compression, data: RData, b: Buffer)
    requires match data
             case A(_) => true
             case Ns(target) => LegalName(target)
             case Soa(_, _, _, _, _, _, _) => false
             case Txt(_) => false
    ensures WriteData(mode, data, b).size <= b.size + 255
  {
    if data.Ns? {
      NameAtMost(mode, data.target, b);
    }
  }

  lemma {:induction false} SmallRecordSize(mode: Compression, r: Record, b: Buffer)
    requires SmallRecord(r)
    ensures WriteRecord(mode, r, b).size <= b.size + 795
  {
    if r.data.Soa? {
      WireCapacity.RecordAtMost(mode, r, b);
    } else {
      NameAtMost(mode, r.owner, b);
      var owned := WriteName(mode, r.owner, b);
      SmallDataSize(mode, r.data, owned.(size := owned.size + 10));
    }
  }

  lemma {:induction false} SmallRecordsSize(mode: Compression, rs: seq<Record>, b: Buffer)
    requires forall r | r in rs :: SmallRecord(r)
    ensures WriteAll(mode, rs, b).size <= b.size + 795 * |rs| && AllEncodable(rs)
  {
    if rs != [] {
      assert rs[0] in rs && forall r | r in rs[1..] :: r in rs;
      SmallRecordSize(mode, rs[0], b);
      SmallRecordsSize(mode, rs[1..], WriteRecord(mode, rs[0], b));
    }
  }

  predicate SmallRecords(rs: seq<Record>) {
    |rs| <= 2 && forall r | r in rs :: SmallRecord(r)
  }

  lemma {:induction false} SmallReplyFits(mode: Compression, m: Message)
    requires SmallRecords(m.answers) && SmallRecords(m.authorities) && SmallRecords(m.additionals)
    requires WriteHeader(mode, m).size <= 271
    ensures FitsWhole(mode, m)
  {
    var b1 := WriteAll(mode, m.answers, WriteHeader(mode, m));
    var b2 := WriteAll(mode, m.authorities, b1);
    SmallRecordsSize(mode, m.answers, WriteHeader(mode, m));
    SmallRecordsSize(mode, m.authorities, b1);
    SmallRecordsSize(mode, m.additionals, b2);
  }

  lemma {:induction false} ConfiguredNames(config: Config, mode: Compression)
    requires config.Parsed() && config.NamesAccepted()
    ensures config.Capacity(mode).Valid() && config.Capacity(mode).acmeName == [ACME_LABEL] + config.Zone()
    ensures LegalNames(config)
  {
    CapacityIsValid(config, mode);
  }

  /** The names in the server's own records. */
  ghost predicate LegalNames(config: Config) {
    && LegalName(config.Zone())
    && LegalName([ADMIN_LABEL] + config.Zone())
    && LegalName(Split(config.nsHostname, '.'))
    && LegalName(Split(config.nsHostname2, '.'))
  }

  lemma {:induction false} SmallSoa(config: Config, serial: nat)
    requires LegalNames(config)
    ensures SmallRecord(SoaOf(config, serial))
  {
  }

  lemma {:induction false} SmallNs(config: Config, nameserver: string)
    requires LegalNames(config) && LegalName(Split(nameserver, '.'))
    ensures SmallRecord(NsRecord(config, nameserver))
  {
  }

  lemma {:induction false} SmallGlue(config: Config)
    requires LegalNames(config)
    ensures SmallRecords(NsGlue(config))
  {
  }

  lemma {:induction false} SmallList(rs: seq<Record>)
    requires |rs| <= 2 && forall i | 0 <= i < |rs| :: SmallRecord(rs[i])
    ensures SmallRecords(rs)
  {
  }

  lemma {:induction false} SmallAnswers(config: Config, q: Question, values: seq<string>, serial: nat)
    requires LegalNames(config) && LegalName(q.name) && !IsAcmeQuery(config, q)
    ensures SmallRecords(Answers(config, q, values, serial)) && SmallRecords(Additionals(config, q))
  {
    SmallGlue(config);
    match q.qtype
    case TypeSoa => SmallSoa(config, serial);
    case TypeNs =>
      SmallNs(config, config.nsHostname);
      SmallNs(config, config.nsHostname2);
      SmallList([NsRecord(config, config.nsHostname), NsRecord(config, config.nsHostname2)]);
    case TypeA =>
    case TypeTxt =>
    case OtherType(_) =>
  }

  lemma {:induction false} SmallZoneReply(config: Config, request: Message, values: seq<string>, serial: nat)
    requires LegalNames(config) && LegalRequest(request)
    requires ForZone(config, request) && !IsAcmeQuery(config, request.questions[0])
    ensures var reply := Reply(config, request, values, serial);
            SmallRecords(reply.answers) && SmallRecords(reply.authorities) && SmallRecords(reply.additionals)
  {
    var q := request.questions[0];
    assert q in request.questions;
    SmallAnswers(config, q, values, serial);
    SmallSoa(config, serial);
    SmallList([SoaOf(config, serial)]);
  }

  /** Only a TXT query for the challenge name can fail to fit: every other reply is served whole. */
  lemma {:induction false} OtherRepliesFit(config: Config, mode: Compression, request: Message, values: seq<string>,
                                           serial: nat)
    requires config.Parsed() && config.NamesAccepted() && LegalRequest(request)
    requires ForZone(config, request) ==> !IsAcmeQuery(config, request.questions[0])
    ensures FitsWhole(mode, Reply(config, request, values, serial))
  {
    if ForZone(config, request) {
      var reply := Reply(config, request, values, serial);
      ConfiguredNames(config, mode);
      SmallZoneReply(config, request, values, serial);
      ReplyHeader(config, mode, request, values, serial);
      ShortHeader(mode, reply);
      SmallReplyFits(mode, reply);
    } else {
      RefusalsFit(config, mode, request, values, serial);
    }
  }

  // ---- The challenge reply ---------------------------------------------------------------

  /** The question spells the challenge name, up to letter case. */
  predicate SpellsAcme(config: Config, name: Name) {
    FoldLabels(name) == Split(config.AcmeName(), '.')
  }

  /** The question can be compressed against: it is spelled as the answers are, or the encoder
      matches names up to letter case. */
  predicate Compressible(config: Config, mode: Compression, name: Name) {
    SpellsAcme(config, name) && (mode.FoldedCase? || name == Split(config.AcmeName(), '.'))
  }

  lemma {:induction false} AcmeTextIsLower(config: Config)
    requires config.Parsed()
    ensures Lower(config.AcmeName()) == config.AcmeName()
    ensures config.AcmeName()[|config.AcmeName()| - 1] != '.'
  {
    NormalIsCanonical(config.domain);
    AcmeLabelIsLower();
    FoldDotted(ACME_LABEL, config.domain);
  }

  lemma {:induction false} FoldDotted(a: string, b: string)
    ensures Lower(a + "." + b) == Lower(a) + "." + Lower(b)
  {
  }

  /** A folded text has folded labels. */
  lemma {:induction false} LabelsAreLower(text: string)
    requires Lower(text) == text
    ensures FoldLabels(Split(text, '.')) == Split(text, '.')
  {
    var labels := Split(text, '.');
    SplitParts(text, '.');
    FoldJoin(labels);
    Xip.FoldKeepsSeparatorFree(labels);
    SplitJoin(FoldLabels(labels), '.');
  }

  lemma {:induction false} AcmeLabelsAreLower(config: Config)
    requires config.Parsed()
    ensures FoldLabels(Split(config.AcmeName(), '.')) == Split(config.AcmeName(), '.')
  {
    AcmeTextIsLower(config);
    LabelsAreLower(config.AcmeName());
  }

  /** A question that spells the challenge name is recognised, and is inside the zone. */
  lemma {:induction false} AcmeQuestionIsRecognised(config: Config, q: Question)
    requires config.Parsed() && SpellsAcme(config, q.name)
    ensures QName(q) == config.AcmeName() && Xip.IsOurDomain(QName(q), config.domain)
  {
    AcmeTextIsLower(config);
    CanonicalOfText(q.name, config.AcmeName());
    Xip.StripZone(config.AcmeName(), ACME_LABEL, config.domain);
  }

  lemma {:induction false} AcmeAnswers(config: Config, q: Question, values: seq<string>, serial: nat)
    requires config.NamesAccepted() && IsAcmeQuery(config, q)
    ensures Answers(config, q, values, serial)
         == WireCapacity.TxtRecords(Split(config.AcmeName(), '.'), config.txtTtl, values)
    ensures Additionals(config, q) == []
  {
  }

  lemma {:induction false} AcmeKey(config: Config, mode: Compression, name: Name)
    requires config.Parsed() && Compressible(config, mode, name)
    ensures Key(mode, name) == Key(mode, Split(config.AcmeName(), '.'))
    ensures WireLength(name) == WireLength(Split(config.AcmeName(), '.'))
  {
    AcmeLabelsAreLower(config);
    WireLengthFold(name);
  }

  lemma {:induction false} AcmeReplyShape(config: Config, request: Message, values: seq<string>, serial: nat)
    requires config.NamesAccepted() && LegalRequest(request) && ForZone(config, request)
    requires IsAcmeQuery(config, request.questions[0])
    ensures var reply := Reply(config, request, values, serial);
            && WireCapacity.TxtShape(reply, Split(config.AcmeName(), '.'), config.txtTtl, values, SoaOf(config, serial))
            && reply.questions == request.questions && OptOctets(reply) == OptOctets(request)
            && reply.rcode == NoError && reply.authoritative && !reply.truncated
  {
    var q := request.questions[0];
    assert q in request.questions;
    AcmeAnswers(config, q, values, serial);
  }

  /** The live reply takes exactly the octets of the capacity template with the same values, or 11
      fewer without EDNS, whatever the serial. */
  lemma {:induction false} LiveReplySize(config: Config, mode: Compression, request: Message, values: seq<string>,
                                         serial: nat)
    requires config.Parsed() && config.NamesAccepted() && LegalRequest(request) && ForZone(config, request)
    requires IsAcmeQuery(config, request.questions[0]) && Compressible(config, mode, request.questions[0].name)
    ensures var c := config.Capacity(mode);
            FullSize(mode, Reply(config, request, values, serial)) + OPT_OCTETS
              == c.Tail()(WireCapacity.EndOf(c.AnswersStart(), values)) + OptOctets(request)
  {
    var c := config.Capacity(mode);
    ConfiguredNames(config, mode);
    AcmeReplyShape(config, request, values, serial);
    AcmeKey(config, mode, request.questions[0].name);
    WireCapacity.LiveSize(c, Reply(config, request, values, serial), values, serial);
  }

  /** What admission measured is enough for every reply: values that pass the capacity test are
      served whole. */
  lemma {:induction false} AdmittedValuesFit(config: Config, mode: Compression, request: Message,
                                             values: seq<string>, serial: nat)
    requires config.Parsed() && config.NamesAccepted() && LegalRequest(request) && ForZone(config, request)
    requires IsAcmeQuery(config, request.questions[0]) && Compressible(config, mode, request.questions[0].name)
    requires config.Capacity(mode).Fits(values)
    ensures FitsWhole(mode, Reply(config, request, values, serial))
  {
    ConfiguredNames(config, mode);
    WireCapacity.FitsIff(config.Capacity(mode), values);
    AcmeReplyShape(config, request, values, serial);
    AcmeKey(config, mode, request.questions[0].name);
    WireCapacity.LiveFits(config.Capacity(mode), Reply(config, request, values, serial), values, serial);
  }
}
