/** What an unusual spelling of the challenge name costs, when the encoder compresses names by
    their exact spelling. The question is echoed as it was asked while the answers are folded
    (src/dns.rs:131, 247), and the capacity template has the folded spelling in both places
    (src/wire.rs:63-69). */
module Spelling {
  import opened Text
  import opened Names
  import opened Messages
  import opened Encoder
  import opened Configuration
  import opened Responder
  import opened Delivery
  import WireCapacity

  /** The octets of the first owner name behind a question with the same labels up to case: two for
      the longest suffix that is spelled alike, and every label in front of it in full. */
  function OwnerOctets(question: Name, owner: Name): (octets: nat)
    requires |question| == |owner|
    ensures octets >= if owner == [] then 1 else 2
  {
    if owner == [] then 1
    else if question == owner then 2
    else 1 + |owner[0]| + OwnerOctets(question[1..], owner[1..])
  }

  /** The octets that a spelling costs beyond the folded one. */
  function SpellingCost(mode: Compression, question: Name, owner: Name): nat
    requires |question| == |owner|
  {
    if mode.FoldedCase? || owner == [] then 0 else OwnerOctets(question, owner) - 2
  }

  lemma {:induction false} OwnerWritten(question: Name, owner: Name, b: Buffer)
    requires |question| == |owner| && Suffixes(question) <= b.names
    requires forall k | k in b.names && |k| <= |question| :: k in Suffixes(question)
    requires b.size + WireLength(owner) <= POINTER_LIMIT
    ensures WriteName(ExactCase, owner, b) == Buffer(b.size + OwnerOctets(question, owner), b.names + Suffixes(owner))
  {
    if owner == [] {
      assert b.names + Suffixes(owner) == b.names;
    } else {
      SuffixesShorter(question[1..]);
      if owner == question {
        assert b.names + Suffixes(owner) == b.names;
      } else {
        WireLengthPositive(owner[1..]);
        var next := Buffer(b.size + 1 + |owner[0]|, b.names + {owner});
        OwnerWritten(question[1..], owner[1..], next);
        assert next.names + Suffixes(owner[1..]) == b.names + Suffixes(owner);
      }
    }
  }

  /** A spelling that differs anywhere costs at least the first label and its length octet. */
  lemma {:induction false} DifferentSpellingCost(question: Name, owner: Name)
    requires |question| == |owner| && |owner| >= 2 && question != owner
    ensures SpellingCost(ExactCase, question, owner) >= 1 + |owner[0]|
  {
  }

  lemma {:induction false} CostAtMost(question: Name, owner: Name)
    requires |question| == |owner|
    ensures OwnerOctets(question, owner) <= WireLength(owner) || question == owner
    ensures SpellingCost(ExactCase, question, owner) <= WireLength(owner)
  {
    if owner != [] && question != owner {
      CostAtMost(question[1..], owner[1..]);
      WireLengthPositive(owner[1..]);
      if question[1..] == owner[1..] && owner[1..] != [] {
        WireLengthPositive(owner[2..]);
      }
    }
  }

  // ---- Names that were spelled otherwise are out of reach --------------------------------

  ghost predicate AgreeOnFolded(a: set<Name>, b: set<Name>) {
    forall k | FoldLabels(k) == k :: k in a <==> k in b
  }

  ghost predicate SameReach(a: Buffer, b: Buffer) {
    a.size == b.size && AgreeOnFolded(a.names, b.names)
  }

  lemma {:induction false} FoldTail(name: Name)
    requires name != [] && FoldLabels(name) == name
    ensures FoldLabels(name[1..]) == name[1..]
  {
    assert FoldLabels(name)[1..] == FoldLabels(name[1..]);
  }

  lemma {:induction false} FoldedNameIsWrittenAlike(name: Name, a: Buffer, b: Buffer)
    requires FoldLabels(name) == name && SameReach(a, b)
    ensures SameReach(WriteName(ExactCase, name, a), WriteName(ExactCase, name, b))
  {
    if name != [] && name !in a.names {
      FoldTail(name);
      var a', b' := Buffer(a.size + 1 + |name[0]|, if a.size < POINTER_LIMIT then a.names + {name} else a.names),
                    Buffer(b.size + 1 + |name[0]|, if b.size < POINTER_LIMIT then b.names + {name} else b.names);
      FoldedNameIsWrittenAlike(name[1..], a', b');
    }
  }

  predicate FoldedSoa(r: Record) {
    && r.data.Soa? && FoldLabels(r.owner) == r.owner
    && FoldLabels(r.data.mname) == r.data.mname && FoldLabels(r.data.rname) == r.data.rname
  }

  lemma {:induction false} FoldedSoaIsWrittenAlike(soa: Record, a: Buffer, b: Buffer)
    requires FoldedSoa(soa) && SameReach(a, b)
    ensures WriteRecord(ExactCase, soa, a).size == WriteRecord(ExactCase, soa, b).size
  {
    FoldedNameIsWrittenAlike(soa.owner, a, b);
    var a1, b1 := WriteName(ExactCase, soa.owner, a), WriteName(ExactCase, soa.owner, b);
    var a2, b2 := a1.(size := a1.size + 10), b1.(size := b1.size + 10);
    FoldedNameIsWrittenAlike(soa.data.mname, a2, b2);
    FoldedNameIsWrittenAlike(soa.data.rname,
                             WriteName(ExactCase, soa.data.mname, a2), WriteName(ExactCase, soa.data.mname, b2));
  }

  lemma {:induction false} SuffixesFold(name: Name, k: Name)
    requires k in Suffixes(name)
    ensures FoldLabels(k) in Suffixes(FoldLabels(name))
  {
    if k != name {
      SuffixesFold(name[1..], k);
      assert FoldLabels(name)[1..] == FoldLabels(name[1..]);
    }
  }

  lemma {:induction false} SpelledReach(question: Name, owner: Name)
    requires FoldLabels(question) == owner
    ensures AgreeOnFolded(Suffixes(question) + Suffixes(owner), Suffixes(owner))
  {
    forall k | k in Suffixes(question) && FoldLabels(k) == k
      ensures k in Suffixes(owner)
    {
      SuffixesFold(question, k);
    }
  }

  // ---- The size of a reply to any spelling -----------------------------------------------

  lemma {:induction false} SpelledAnswers(question: Name, owner: Name, ttl: nat, values: seq<string>, b: Buffer)
    requires |question| == |owner| && owner != [] && values != [] && b.names == Suffixes(question)
    requires b.size + WireLength(owner) <= POINTER_LIMIT
    ensures WriteAll(ExactCase, WireCapacity.TxtRecords(owner, ttl, values), b)
         == Buffer(b.size + OwnerOctets(question, owner) - 2 + WireCapacity.Load(values),
                   Suffixes(question) + Suffixes(owner))
  {
    var rs := WireCapacity.TxtRecords(owner, ttl, values);
    OwnerWritten(question, owner, b);
    assert rs[1..] == WireCapacity.TxtRecords(owner, ttl, values[1..]);
    assert StringsOctets([values[0]]) == 1 + |values[0]| by {
      assert [values[0]][1..] == [];
    }
    WireCapacity.TxtAnswers(ExactCase, owner, ttl, values[1..], WriteRecord(ExactCase, rs[0], b));
  }

  lemma {:induction false} SpelledReplySize(m: Message, owner: Name, ttl: nat, values: seq<string>, soa: Record,
                                            end: nat)
    requires owner != [] && LegalName(owner) && values != [] && FoldedSoa(soa)
    requires WireCapacity.TxtShape(m, owner, ttl, values, soa) && FoldLabels(m.questions[0].name) == owner
    requires end
         == WireCapacity.EndOf(WireCapacity.StartAfter(owner), values) + OwnerOctets(m.questions[0].name, owner) - 2
    ensures FullSize(ExactCase, m) == WireCapacity.SizeWith(ExactCase, owner, soa, end) + OptOctets(m)
  {
    var q := m.questions[0];
    assert m.questions == [q];
    WireLengthFold(q.name);
    WireCapacity.OneQuestion(ExactCase, q);
    SpelledAnswers(q.name, owner, ttl, values, WriteHeader(ExactCase, m));
    SpelledReach(q.name, owner);
    WireCapacity.OneRecord(ExactCase, soa, Buffer(end, Suffixes(q.name) + Suffixes(owner)));
    FoldedSoaIsWrittenAlike(soa, Buffer(end, Suffixes(q.name) + Suffixes(owner)), Buffer(end, Suffixes(owner)));
  }

  lemma {:induction false} AdminIsFolded(zone: Name)
    requires FoldLabels(zone) == zone
    ensures FoldLabels([ADMIN_LABEL] + zone) == [ADMIN_LABEL] + zone
  {
    assert Lower(ADMIN_LABEL) == ADMIN_LABEL;
    assert forall i | 0 <= i < |zone| :: FoldLabels(zone)[i] == Lower(zone[i]);
  }

  lemma {:induction false} SoaIsFolded(config: Config, serial: nat)
    requires config.Parsed()
    ensures FoldedSoa(SoaOf(config, serial))
  {
    LabelsAreLower(config.domain);
    LabelsAreLower(config.nsHostname);
    AdminIsFolded(config.Zone());
  }

  /** Where the answers end when the question has this spelling. */
  function SpelledEnd(config: Config, mode: Compression, question: Name, values: seq<string>): nat
    requires SpellsAcme(config, question)
  {
    WireCapacity.EndOf(config.Capacity(mode).AnswersStart(), values)
      + SpellingCost(mode, question, Split(config.AcmeName(), '.'))
  }

  lemma {:induction false} ExactlySpelledSize(config: Config, request: Message, values: seq<string>, serial: nat,
                                              end: nat)
    requires config.Parsed() && config.NamesAccepted() && LegalRequest(request) && ForZone(config, request)
    requires IsAcmeQuery(config, request.questions[0]) && SpellsAcme(config, request.questions[0].name) && values != []
    requires end == SpelledEnd(config, ExactCase, request.questions[0].name, values)
    ensures FullSize(ExactCase, Reply(config, request, values, serial)) + OPT_OCTETS
         == config.Capacity(ExactCase).Tail()(end) + OptOctets(request)
  {
    var c := config.Capacity(ExactCase);
    ConfiguredNames(config, ExactCase);
    AcmeReplyShape(config, request, values, serial);
    SoaIsFolded(config, serial);
    SpelledReplySize(Reply(config, request, values, serial), c.acmeName, config.txtTtl, values,
                     SoaOf(config, serial), end);
    WireCapacity.SoaSizeIgnoresSerial(ExactCase, c.zone, c.nsHostname, serial, Buffer(end, Suffixes(c.acmeName)));
  }

  lemma {:induction false} FreelySpelledSize(config: Config, mode: Compression, request: Message,
                                             values: seq<string>, serial: nat, end: nat)
    requires config.Parsed() && config.NamesAccepted() && LegalRequest(request) && ForZone(config, request)
    requires IsAcmeQuery(config, request.questions[0]) && Compressible(config, mode, request.questions[0].name)
    requires end == WireCapacity.EndOf(config.Capacity(mode).AnswersStart(), values)
    ensures FullSize(mode, Reply(config, request, values, serial)) + OPT_OCTETS
         == config.Capacity(mode).Tail()(end) + OptOctets(request)
  {
    LiveReplySize(config, mode, request, values, serial);
  }

  lemma {:induction false} EmptyShapeSize(mode: Compression, m: Message, owner: Name, ttl: nat, soa: Record, start: nat)
    requires WireCapacity.TxtShape(m, owner, ttl, [], soa) && start == WireCapacity.StartAfter(m.questions[0].name)
    ensures FullSize(mode, m) == WireCapacity.SizeWith(mode, m.questions[0].name, soa, start) + OptOctets(m)
  {
    assert m.questions == [m.questions[0]];
    WireCapacity.OneQuestion(mode, m.questions[0]);
    WireCapacity.OneRecord(mode, soa, Buffer(start, Suffixes(Key(mode, m.questions[0].name))));
  }

  lemma {:induction false} EmptySize(config: Config, mode: Compression, request: Message, serial: nat, start: nat)
    requires config.NamesAccepted() && LegalRequest(request) && ForZone(config, request)
    requires IsAcmeQuery(config, request.questions[0])
    requires start == WireCapacity.StartAfter(request.questions[0].name)
    ensures FullSize(mode, Reply(config, request, [], serial))
         == WireCapacity.SizeWith(mode, request.questions[0].name, SoaOf(config, serial), start) + OptOctets(request)
  {
    AcmeReplyShape(config, request, [], serial);
    EmptyShapeSize(mode, Reply(config, request, [], serial), Split(config.AcmeName(), '.'), config.txtTtl,
                   SoaOf(config, serial), start);
  }

  /** A reply to any spelling takes the octets of the template with its answers moved back by what
      the spelling costs. Without values there is nothing to move: the SOA follows the question. */
  lemma {:induction false} SpelledSize(config: Config, mode: Compression, request: Message, values: seq<string>,
                                       serial: nat, end: nat)
    requires config.Parsed() && config.NamesAccepted() && LegalRequest(request) && ForZone(config, request)
    requires IsAcmeQuery(config, request.questions[0]) && SpellsAcme(config, request.questions[0].name)
    requires end == SpelledEnd(config, mode, request.questions[0].name, values)
    ensures values != [] ==>
              FullSize(mode, Reply(config, request, values, serial)) + OPT_OCTETS
                == config.Capacity(mode).Tail()(end) + OptOctets(request)
    ensures values == [] ==>
              var name := request.questions[0].name;
              FullSize(mode, Reply(config, request, values, serial))
                == WireCapacity.SizeWith(mode, name, SoaOf(config, serial), WireCapacity.StartAfter(name))
                   + OptOctets(request)
  {
    if values == [] {
      EmptySize(config, mode, request, serial, WireCapacity.StartAfter(request.questions[0].name));
    } else {
      match mode
      case ExactCase => ExactlySpelledSize(config, request, values, serial, end);
      case FoldedCase => FreelySpelledSize(config, mode, request, values, serial, end);
    }
  }

  // ---- Exactly when a spelling is served -------------------------------------------------

  lemma {:induction false} EmptyReplyFits(config: Config, mode: Compression, request: Message, serial: nat)
    requires config.Parsed() && config.NamesAccepted() && LegalRequest(request) && ForZone(config, request)
    requires IsAcmeQuery(config, request.questions[0])
    ensures FitsWhole(mode, Reply(config, request, [], serial))
  {
    var reply := Reply(config, request, [], serial);
    ConfiguredNames(config, mode);
    AcmeReplyShape(config, request, [], serial);
    SmallSoa(config, serial);
    SmallList([SoaOf(config, serial)]);
    SmallList([]);
    ShortHeader(mode, reply);
    SmallReplyFits(mode, reply);
  }

  lemma {:induction false} OwnerIsShort(config: Config, mode: Compression, question: Name)
    requires config.Parsed() && config.NamesAccepted() && SpellsAcme(config, question)
    ensures SpellingCost(mode, question, Split(config.AcmeName(), '.')) <= 255
    ensures config.Capacity(mode).AnswersStart() <= 271
  {
    CapacityIsValid(config, mode);
    WireCapacity.ZoneLength(config.Capacity(mode));
    CostAtMost(question, Split(config.AcmeName(), '.'));
  }

  lemma {:induction false} ShortTail(config: Config, mode: Compression, end: nat)
    requires config.Parsed() && config.NamesAccepted() && end <= POINTER_LIMIT
    ensures config.Capacity(mode).Tail()(end) <= MAX_MESSAGE
  {
    CapacityIsValid(config, mode);
    WireCapacity.TailIsEventuallyLinear(config.Capacity(mode));
  }

  lemma {:induction false} EmptyEnd(config: Config, mode: Compression, question: Name, end: nat)
    requires config.Parsed() && config.NamesAccepted() && SpellsAcme(config, question)
    requires end == SpelledEnd(config, mode, question, [])
    ensures config.Capacity(mode).Tail()(end) <= MAX_MESSAGE
  {
    OwnerIsShort(config, mode, question);
    ShortTail(config, mode, end);
  }

  /** Exactly when the reply to a spelling is served: the values have encodings, and the template
      would still fit with the octets that the spelling costs, less the OPT record if the request
      has none. Otherwise the client gets SERVFAIL. */
  lemma {:induction false} ServedIff(config: Config, mode: Compression, request: Message, values: seq<string>,
                                     serial: nat, end: nat)
    requires config.Parsed() && config.NamesAccepted() && LegalRequest(request) && ForZone(config, request)
    requires IsAcmeQuery(config, request.questions[0]) && SpellsAcme(config, request.questions[0].name)
    requires end == SpelledEnd(config, mode, request.questions[0].name, values)
    ensures var reply := Reply(config, request, values, serial);
            var sent := CompleteOrServfail(mode, request, reply);
            var served := WireCapacity.Storable(values)
                          && config.Capacity(mode).Tail()(end) + OptOctets(request) <= MAX_MESSAGE + OPT_OCTETS;
            sent.Some? && sent.value.content == if served then reply else ServfailMessage(request)
  {
    AllOrNothing(config, mode, request, values, serial);
    if values == [] {
      EmptyReplyFits(config, mode, request, serial);
      EmptyEnd(config, mode, request.questions[0].name, end);
    } else {
      SpelledSize(config, mode, request, values, serial, end);
      AcmeReplyShape(config, request, values, serial);
      WireCapacity.TxtReplyEncodable(Reply(config, request, values, serial), Split(config.AcmeName(), '.'),
                                     config.txtTtl, values, SoaOf(config, serial));
    }
  }
}
