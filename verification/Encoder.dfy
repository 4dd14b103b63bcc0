/** The message encoder, at the level of octet counts.

    Names are compressed as in section 4.1.4 of RFC 1035: a suffix that was written at an offset
    below 2^14 is replaced by a two-octet pointer. Records are written in order; one that would
    pass the size limit, and the rest of its section, is dropped and the TC bit is set. */
module Encoder {
  import opened Wrappers
  import opened Names
  import opened Messages

  const MAX_MESSAGE: nat := 65535
  const POINTER_LIMIT: nat := 0x4000
  const HEADER_OCTETS: nat := 12
  const OPT_OCTETS: nat := 11

  /** Whether names are matched for compression by their exact spelling or up to letter case. */
  datatype Compression = ExactCase | FoldedCase

  /** What has been written: a number of octets, and the names that a pointer can reach. */
  datatype Buffer = Buffer(size: nat, names: set<Name>)

  function Key(mode: Compression, name: Name): Name {
    match mode
    case ExactCase => name
    case FoldedCase => FoldLabels(name)
  }

  function WriteName(mode: Compression, name: Name, b: Buffer): Buffer {
    if name == [] then b.(size := b.size + 1)
    else if Key(mode, name) in b.names then b.(size := b.size + 2)
    else
      var names := if b.size < POINTER_LIMIT then b.names + {Key(mode, name)} else b.names;
      WriteName(mode, name[1..], Buffer(b.size + 1 + |name[0]|, names))
  }

  function StringsOctets(strings: seq<string>): nat {
    if strings == [] then 0 else 1 + |strings[0]| + StringsOctets(strings[1..])
  }

  function WriteData(mode: Compression, data: RData, b: Buffer): Buffer {
    match data
    case A(_) => b.(size := b.size + 4)
    case Ns(target) => WriteName(mode, target, b)
    case Soa(mname, rname, _, _, _, _, _) =>
      var named := WriteName(mode, rname, WriteName(mode, mname, b));
      named.(size := named.size + 20)
    case Txt(strings) => b.(size := b.size + StringsOctets(strings))
  }

  /** Owner, then type, class, TTL and data length (10 octets), then the data. */
  function WriteRecord(mode: Compression, r: Record, b: Buffer): Buffer {
    var owned := WriteName(mode, r.owner, b);
    WriteData(mode, r.data, owned.(size := owned.size + 10))
  }

  /** All the records, whatever the size. */
  function WriteAll(mode: Compression, rs: seq<Record>, b: Buffer): Buffer {
    if rs == [] then b else WriteAll(mode, rs[1..], WriteRecord(mode, rs[0], b))
  }

  function WriteQuestions(mode: Compression, qs: seq<Question>, b: Buffer): Buffer {
    if qs == [] then b
    else
      var named := WriteName(mode, qs[0].name, b);
      WriteQuestions(mode, qs[1..], named.(size := named.size + 4))
  }

  /** A character-string longer than 255 octets has no encoding. */
  predicate Encodable(r: Record) {
    r.data.Txt? ==> forall s | s in r.data.strings :: |s| <= 255
  }

  datatype Section = Failed | Written(buffer: Buffer, count: nat)

  /** A section under the size limit: what was written, and how many records that is. */
  function WriteSection(mode: Compression, rs: seq<Record>, b: Buffer): (s: Section)
    ensures s.Written? ==> s.count <= |rs|
  {
    if rs == [] then Written(b, 0)
    else if !Encodable(rs[0]) then Failed
    else
      var next := WriteRecord(mode, rs[0], b);
      if next.size > MAX_MESSAGE then Written(b, 0)
      else
        match WriteSection(mode, rs[1..], next)
        case Failed => Failed
        case Written(last, n) => Written(last, n + 1)
  }

  datatype Body = NoBody | Body(buffer: Buffer, answers: nat, authorities: nat, additionals: nat)

  /** The three record sections in order. A section that stops early does not stop the next one. */
  function WriteBody(mode: Compression, m: Message, b: Buffer): (body: Body)
    ensures body.Body? ==>
              && body.answers <= |m.answers|
              && body.authorities <= |m.authorities|
              && body.additionals <= |m.additionals|
  {
    match WriteSection(mode, m.answers, b)
    case Failed => NoBody
    case Written(b1, n1) =>
      match WriteSection(mode, m.authorities, b1)
      case Failed => NoBody
      case Written(b2, n2) =>
        match WriteSection(mode, m.additionals, b2)
        case Failed => NoBody
        case Written(b3, n3) => Body(b3, n1, n2, n3)
  }

  predicate WholeBody(m: Message, body: Body) {
    && body.Body?
    && body.answers == |m.answers|
    && body.authorities == |m.authorities|
    && body.additionals == |m.additionals|
  }

  /** An encoded message: its length, and the message that decoding it gives back. */
  datatype Wire = Wire(size: nat, content: Message)

  function WriteHeader(mode: Compression, m: Message): Buffer {
    WriteQuestions(mode, m.questions, Buffer(HEADER_OCTETS, {}))
  }

  /** Adds the OPT record if it fits, and sets TC if anything was left out. */
  function Finish(m: Message, body: Body): Wire
    requires body.Body? && body.answers <= |m.answers|
    requires body.authorities <= |m.authorities| && body.additionals <= |m.additionals|
  {
    var optFits := m.edns.Some? && body.buffer.size + OPT_OCTETS <= MAX_MESSAGE;
    var dropped := !WholeBody(m, body) || (m.edns.Some? && !optFits);
    Wire(
      if optFits then body.buffer.size + OPT_OCTETS else body.buffer.size,
      m.(truncated := m.truncated || dropped,
         answers := m.answers[..body.answers],
         authorities := m.authorities[..body.authorities],
         additionals := m.additionals[..body.additionals],
         edns := if optFits then m.edns else None))
  }

  function Encode(mode: Compression, m: Message): Option<Wire> {
    var asked := WriteHeader(mode, m);
    if asked.size > MAX_MESSAGE then None
    else
      var body := WriteBody(mode, m, asked);
      if body.NoBody? then None else Some(Finish(m, body))
  }

  // ---- Size without the limit ------------------------------------------------------------

  function OptOctets(m: Message): nat {
    if m.edns.Some? then OPT_OCTETS else 0
  }

  function WriteWhole(mode: Compression, m: Message): Buffer {
    WriteAll(mode, m.additionals, WriteAll(mode, m.authorities, WriteAll(mode, m.answers, WriteHeader(mode, m))))
  }

  /** The octets that the whole message takes, with nothing dropped. */
  function FullSize(mode: Compression, m: Message): nat {
    WriteWhole(mode, m).size + OptOctets(m)
  }

  predicate AllEncodable(rs: seq<Record>) {
    forall r | r in rs :: Encodable(r)
  }

  predicate EncodableMessage(m: Message) {
    AllEncodable(m.answers) && AllEncodable(m.authorities) && AllEncodable(m.additionals)
  }

  lemma {:induction false} NameGrows(mode: Compression, name: Name, b: Buffer)
    ensures b.size < WriteName(mode, name, b).size
  {
    if name != [] && Key(mode, name) !in b.names {
      var names := if b.size < POINTER_LIMIT then b.names + {Key(mode, name)} else b.names;
      NameGrows(mode, name[1..], Buffer(b.size + 1 + |name[0]|, names));
    }
  }

  lemma {:induction false} RecordGrows(mode: Compression, r: Record, b: Buffer)
    ensures b.size < WriteRecord(mode, r, b).size
  {
    NameGrows(mode, r.owner, b);
    var owned := WriteName(mode, r.owner, b);
    var fixed := owned.(size := owned.size + 10);
    match r.data
    case A(_) =>
    case Ns(target) => NameGrows(mode, target, fixed);
    case Soa(mname, rname, _, _, _, _, _) =>
      NameGrows(mode, mname, fixed);
      NameGrows(mode, rname, WriteName(mode, mname, fixed));
    case Txt(_) =>
  }

  lemma {:induction false} AllGrow(mode: Compression, rs: seq<Record>, b: Buffer)
    ensures b.size <= WriteAll(mode, rs, b).size
  {
    if rs != [] {
      RecordGrows(mode, rs[0], b);
      AllGrow(mode, rs[1..], WriteRecord(mode, rs[0], b));
    }
  }

  /** A section is written whole iff it can be encoded and ends within the limit. */
  lemma {:induction false} SectionIsWholeIff(mode: Compression, rs: seq<Record>, b: Buffer)
    requires b.size <= MAX_MESSAGE
    ensures var s := WriteSection(mode, rs, b);
            var whole := s.Written? && s.count == |rs|;
            && (whole <==> AllEncodable(rs) && WriteAll(mode, rs, b).size <= MAX_MESSAGE)
            && (whole ==> s.buffer == WriteAll(mode, rs, b))
            && (s.Written? ==> s.buffer.size <= MAX_MESSAGE)
            && (AllEncodable(rs) ==> s.Written?)
  {
    if rs != [] {
      assert rs[0] in rs;
      assert AllEncodable(rs) <==> Encodable(rs[0]) && AllEncodable(rs[1..]) by {
        assert forall r :: r in rs <==> r == rs[0] || r in rs[1..];
      }
      var next := WriteRecord(mode, rs[0], b);
      if next.size <= MAX_MESSAGE {
        SectionIsWholeIff(mode, rs[1..], next);
      } else {
        AllGrow(mode, rs[1..], next);
      }
    }
  }

  lemma {:induction false} BodyIsWholeIff(mode: Compression, m: Message)
    requires WriteHeader(mode, m).size <= MAX_MESSAGE
    ensures var body := WriteBody(mode, m, WriteHeader(mode, m));
            && (WholeBody(m, body) <==> EncodableMessage(m) && WriteWhole(mode, m).size <= MAX_MESSAGE)
            && (WholeBody(m, body) ==> body.buffer == WriteWhole(mode, m))
            && (body.Body? ==> body.buffer.size <= MAX_MESSAGE)
            && (EncodableMessage(m) ==> body.Body?)
  {
    var b0 := WriteHeader(mode, m);
    var b1 := WriteAll(mode, m.answers, b0);
    AllGrow(mode, m.authorities, b1);
    AllGrow(mode, m.additionals, WriteAll(mode, m.authorities, b1));
    SectionIsWholeIff(mode, m.answers, b0);
    var s1 := WriteSection(mode, m.answers, b0);
    if s1.Written? {
      SectionIsWholeIff(mode, m.authorities, s1.buffer);
      var s2 := WriteSection(mode, m.authorities, s1.buffer);
      if s2.Written? {
        SectionIsWholeIff(mode, m.additionals, s2.buffer);
      }
    }
  }

  lemma {:induction false} FinishedIff(m: Message, body: Body)
    requires body.Body? && body.answers <= |m.answers|
    requires body.authorities <= |m.authorities| && body.additionals <= |m.additionals|
    requires !m.truncated && body.buffer.size <= MAX_MESSAGE
    ensures var wire := Finish(m, body);
            && (!wire.content.truncated <==> WholeBody(m, body) && body.buffer.size + OptOctets(m) <= MAX_MESSAGE)
            && (!wire.content.truncated ==> wire == Wire(body.buffer.size + OptOctets(m), m))
            && wire.size <= MAX_MESSAGE
  {
    assert m.answers[..|m.answers|] == m.answers;
    assert m.authorities[..|m.authorities|] == m.authorities;
    assert m.additionals[..|m.additionals|] == m.additionals;
  }

  /** Nothing is dropped iff every record can be encoded and the whole message is within the
      limit; and a message from which nothing was dropped decodes to itself. */
  lemma {:induction false} CompleteIff(mode: Compression, m: Message)
    requires !m.truncated && WriteHeader(mode, m).size <= MAX_MESSAGE
    ensures var wire := Encode(mode, m);
            var complete := wire.Some? && !wire.value.content.truncated;
            && (complete <==> EncodableMessage(m) && FullSize(mode, m) <= MAX_MESSAGE)
            && (complete ==> wire.value == Wire(FullSize(mode, m), m))
            && (EncodableMessage(m) ==> wire.Some?)
  {
    BodyIsWholeIff(mode, m);
    var body := WriteBody(mode, m, WriteHeader(mode, m));
    if body.Body? {
      FinishedIff(m, body);
    }
  }

  /** The bytes on the wire never exceed the limit. */
  lemma {:induction false} EncodedWithinLimit(mode: Compression, m: Message)
    ensures var wire := Encode(mode, m); wire.Some? ==> wire.value.size <= MAX_MESSAGE
  {
    if WriteHeader(mode, m).size <= MAX_MESSAGE {
      BodyIsWholeIff(mode, m);
    }
  }

  // ---- Compression -----------------------------------------------------------------------

  /** The name and its shorter suffixes, down to the last label. */
  ghost function Suffixes(name: Name): set<Name> {
    if name == [] then {} else {name} + Suffixes(name[1..])
  }

  ghost predicate ClosedUpTo(names: set<Name>, length: nat) {
    forall k | k in names && |k| <= length :: Suffixes(k) <= names
  }

  /** With a name, every shorter suffix of it can be reached. */
  ghost predicate Closed(names: set<Name>) {
    forall k | k in names :: Suffixes(k) <= names
  }

  lemma {:induction false} KeyTail(mode: Compression, name: Name)
    requires name != []
    ensures |Key(mode, name)| == |name| && Key(mode, name)[1..] == Key(mode, name[1..])
  {
  }

  lemma {:induction false} SuffixesShorter(name: Name)
    ensures forall k | k in Suffixes(name) :: 0 < |k| <= |name|
  {
    if name != [] {
      SuffixesShorter(name[1..]);
    }
  }

  lemma {:induction false} NameAtMost(mode: Compression, name: Name, b: Buffer)
    ensures WriteName(mode, name, b).size <= b.size + WireLength(name)
  {
    if name != [] && Key(mode, name) !in b.names {
      var names := if b.size < POINTER_LIMIT then b.names + {Key(mode, name)} else b.names;
      NameAtMost(mode, name[1..], Buffer(b.size + 1 + |name[0]|, names));
    } else if name != [] {
      WireLengthPositive(name[1..]);
    }
  }

  lemma {:induction false} WireLengthPositive(name: Name)
    ensures WireLength(name) >= 1
  {
  }

  /** A name met for the first time is written out, and all its suffixes become reachable. */
  lemma {:induction false} WriteFreshName(mode: Compression, name: Name, b: Buffer)
    requires b.names !! Suffixes(Key(mode, name))
    requires b.size + WireLength(name) <= POINTER_LIMIT
    ensures WriteName(mode, name, b) == Buffer(b.size + WireLength(name), b.names + Suffixes(Key(mode, name)))
  {
    if name == [] {
      assert Suffixes(Key(mode, name)) == {};
    } else {
      var k := Key(mode, name);
      KeyTail(mode, name);
      SuffixesShorter(k[1..]);
      WireLengthPositive(name[1..]);
      var next := Buffer(b.size + 1 + |name[0]|, b.names + {k});
      WriteFreshName(mode, name[1..], next);
      assert next.names + Suffixes(k[1..]) == b.names + Suffixes(k);
    }
  }

  lemma {:induction false} PointerIsAhead(mode: Compression, name: Name, a: Buffer, b: Buffer)
    requires name != [] && Key(mode, name) in a.names && Key(mode, name) !in b.names
    requires a.size <= b.size && b.names <= a.names
    requires a.size < POINTER_LIMIT ==> ClosedUpTo(a.names, |name|)
    ensures var a', b' := WriteName(mode, name, a), WriteName(mode, name, b);
            a'.size <= b'.size && b'.names <= a'.names
  {
    var k := Key(mode, name);
    var next := Buffer(b.size + 1 + |name[0]|, if b.size < POINTER_LIMIT then b.names + {k} else b.names);
    KeyTail(mode, name);
    NameGrows(mode, name[1..], next);
    NamesAdded(mode, name, b);
    assert b.size < POINTER_LIMIT ==> Suffixes(k) <= a.names;
  }

  /** The buffer behind the first label of a name that cannot be pointed to. */
  function FirstLabel(mode: Compression, name: Name, b: Buffer): Buffer
    requires name != []
  {
    Buffer(b.size + 1 + |name[0]|, if b.size < POINTER_LIMIT then b.names + {Key(mode, name)} else b.names)
  }

  lemma {:induction false} FirstLabelAhead(mode: Compression, name: Name, a: Buffer, b: Buffer)
    requires name != [] && a.size <= b.size && b.names <= a.names
    requires a.size < POINTER_LIMIT ==> ClosedUpTo(a.names, |name|)
    ensures var a', b' := FirstLabel(mode, name, a), FirstLabel(mode, name, b);
            && a'.size <= b'.size && b'.names <= a'.names
            && (a'.size < POINTER_LIMIT ==> ClosedUpTo(a'.names, |name| - 1))
  {
    KeyTail(mode, name);
  }

  /** Writing the same name later, with fewer reachable names, takes it at least as far. */
  lemma {:induction false} NameAhead(mode: Compression, name: Name, a: Buffer, b: Buffer)
    requires a.size <= b.size && b.names <= a.names
    requires a.size < POINTER_LIMIT ==> ClosedUpTo(a.names, |name|)
    ensures var a', b' := WriteName(mode, name, a), WriteName(mode, name, b);
            a'.size <= b'.size && b'.names <= a'.names
  {
    if name != [] && Key(mode, name) !in b.names {
      if Key(mode, name) in a.names {
        PointerIsAhead(mode, name, a, b);
      } else {
        FirstLabelAhead(mode, name, a, b);
        NameAhead(mode, name[1..], FirstLabel(mode, name, a), FirstLabel(mode, name, b));
      }
    }
  }

  /** Only suffixes of the name become reachable, and none past the pointer limit. */
  lemma {:induction false} NamesAdded(mode: Compression, name: Name, b: Buffer)
    ensures b.names <= WriteName(mode, name, b).names <= b.names + Suffixes(Key(mode, name))
    ensures b.size >= POINTER_LIMIT ==> WriteName(mode, name, b).names == b.names
  {
    if name != [] && Key(mode, name) !in b.names {
      var k := Key(mode, name);
      KeyTail(mode, name);
      var next := Buffer(b.size + 1 + |name[0]|, if b.size < POINTER_LIMIT then b.names + {k} else b.names);
      NamesAdded(mode, name[1..], next);
      assert next.names + Suffixes(k[1..]) <= b.names + Suffixes(k);
    }
  }

  /** Adding a name whose suffixes are still to come. */
  lemma {:induction false} ClosedStep(names: set<Name>, k: Name)
    requires k != [] && Closed(names + Suffixes(k)) && ClosedUpTo(names, |k|)
    ensures Closed(names + {k} + Suffixes(k[1..])) && ClosedUpTo(names + {k}, |k| - 1)
  {
    assert names + {k} + Suffixes(k[1..]) == names + Suffixes(k);
  }

  lemma {:induction false} ClosedHit(names: set<Name>, k: Name)
    requires k in names && Closed(names + Suffixes(k)) && ClosedUpTo(names, |k|)
    ensures Closed(names)
  {
    assert names + Suffixes(k) == names;
  }

  lemma {:induction false} NameKeepsClosed(mode: Compression, name: Name, b: Buffer)
    requires Closed(b.names + Suffixes(Key(mode, name))) && ClosedUpTo(b.names, |name|)
    requires WriteName(mode, name, b).size <= POINTER_LIMIT
    ensures Closed(WriteName(mode, name, b).names)
  {
    var k := Key(mode, name);
    if name == [] {
      assert b.names + Suffixes(k) == b.names;
    } else {
      KeyTail(mode, name);
      if k in b.names {
        ClosedHit(b.names, k);
      } else {
        NameGrows(mode, name, b);
        ClosedStep(b.names, k);
        NameKeepsClosed(mode, name[1..], Buffer(b.size + 1 + |name[0]|, b.names + {k}));
      }
    }
  }

  lemma {:induction false} SuffixesClosed(name: Name)
    ensures Closed(Suffixes(name))
  {
    if name != [] {
      SuffixesClosed(name[1..]);
    }
  }

  lemma {:induction false} ClosedUnion(a: set<Name>, b: set<Name>)
    requires Closed(a) && Closed(b)
    ensures Closed(a + b)
  {
  }

  lemma {:induction false} WriteKeepsClosed(mode: Compression, name: Name, b: Buffer)
    requires b.size < POINTER_LIMIT ==> Closed(b.names)
    ensures var b' := WriteName(mode, name, b); b'.size < POINTER_LIMIT ==> Closed(b'.names)
  {
    NameGrows(mode, name, b);
    if WriteName(mode, name, b).size < POINTER_LIMIT {
      SuffixesClosed(Key(mode, name));
      ClosedUnion(b.names, Suffixes(Key(mode, name)));
      NameKeepsClosed(mode, name, b);
    }
  }

  /** `b` is at or past `a` and can reach no name that `a` cannot. */
  ghost predicate Behind(a: Buffer, b: Buffer) {
    && a.size <= b.size
    && b.names <= a.names
    && (a.size < POINTER_LIMIT ==> Closed(a.names))
  }

  lemma {:induction false} NameKeepsBehind(mode: Compression, name: Name, a: Buffer, b: Buffer)
    requires Behind(a, b)
    ensures Behind(WriteName(mode, name, a), WriteName(mode, name, b))
  {
    NameAhead(mode, name, a, b);
    WriteKeepsClosed(mode, name, a);
  }

  lemma {:induction false} RecordKeepsBehind(mode: Compression, r: Record, a: Buffer, b: Buffer)
    requires Behind(a, b)
    ensures Behind(WriteRecord(mode, r, a), WriteRecord(mode, r, b))
  {
    NameKeepsBehind(mode, r.owner, a, b);
    var a1, b1 := WriteName(mode, r.owner, a), WriteName(mode, r.owner, b);
    var a2, b2 := a1.(size := a1.size + 10), b1.(size := b1.size + 10);
    match r.data
    case A(_) =>
    case Ns(target) => NameKeepsBehind(mode, target, a2, b2);
    case Soa(mname, rname, _, _, _, _, _) =>
      NameKeepsBehind(mode, mname, a2, b2);
      NameKeepsBehind(mode, rname, WriteName(mode, mname, a2), WriteName(mode, mname, b2));
    case Txt(_) =>
  }

  /** Past the pointer limit the cost of a name no longer depends on where it is written. */
  lemma {:induction false} NameCostIsConstant(mode: Compression, name: Name, a: Buffer, b: Buffer)
    requires a.names == b.names && a.size >= POINTER_LIMIT && b.size >= POINTER_LIMIT
    ensures var a', b' := WriteName(mode, name, a), WriteName(mode, name, b);
            a'.names == b'.names == a.names && a'.size - a.size == b'.size - b.size
  {
    if name != [] && Key(mode, name) !in b.names {
      NameCostIsConstant(mode, name[1..], a.(size := a.size + 1 + |name[0]|), b.(size := b.size + 1 + |name[0]|));
    }
  }

  lemma {:induction false} RecordCostIsConstant(mode: Compression, r: Record, a: Buffer, b: Buffer)
    requires a.names == b.names && a.size >= POINTER_LIMIT && b.size >= POINTER_LIMIT
    ensures var a', b' := WriteRecord(mode, r, a), WriteRecord(mode, r, b);
            a'.names == b'.names == a.names && a'.size - a.size == b'.size - b.size
  {
    NameCostIsConstant(mode, r.owner, a, b);
    NameGrows(mode, r.owner, a);
    NameGrows(mode, r.owner, b);
    var a1, b1 := WriteName(mode, r.owner, a), WriteName(mode, r.owner, b);
    var a2, b2 := a1.(size := a1.size + 10), b1.(size := b1.size + 10);
    match r.data
    case A(_) =>
    case Ns(target) => NameCostIsConstant(mode, target, a2, b2);
    case Soa(mname, rname, _, _, _, _, _) =>
      NameCostIsConstant(mode, mname, a2, b2);
      NameGrows(mode, mname, a2);
      NameGrows(mode, mname, b2);
      NameCostIsConstant(mode, rname, WriteName(mode, mname, a2), WriteName(mode, mname, b2));
    case Txt(_) =>
  }

  // ---- Octets of a record ----------------------------------------------------------------

  /** What a record takes whose owner can be pointed to: 12 octets in front of its data. */
  lemma {:induction false} RecordOctets(mode: Compression, r: Record, b: Buffer)
    requires r.owner != [] && Key(mode, r.owner) in b.names
    ensures r.data.A? ==> WriteRecord(mode, r, b) == b.(size := b.size + 16)
    ensures r.data.Ns? && r.data.target != [] && Key(mode, r.data.target) in b.names ==>
              WriteRecord(mode, r, b) == b.(size := b.size + 14)
    ensures r.data.Ns? && b.names !! Suffixes(Key(mode, r.data.target))
            && b.size + 12 + WireLength(r.data.target) <= 16384 ==>
              WriteRecord(mode, r, b)
                == Buffer(b.size + 12 + WireLength(r.data.target), b.names + Suffixes(Key(mode, r.data.target)))
    ensures r.data.Soa? && r.data.mname != [] && r.data.rname != []
            && Key(mode, r.data.mname) in b.names && Key(mode, r.data.rname) in b.names ==>
              WriteRecord(mode, r, b) == b.(size := b.size + 36)
    ensures r.data.Txt? && |r.data.strings| == 1 ==>
              WriteRecord(mode, r, b) == b.(size := b.size + 13 + |r.data.strings[0]|)
  {
    if r.data.Ns? && b.names !! Suffixes(Key(mode, r.data.target))
       && b.size + 12 + WireLength(r.data.target) <= 16384 {
      WriteFreshName(mode, r.data.target, b.(size := b.size + 12));
    }
    if r.data.Txt? && |r.data.strings| == 1 {
      assert r.data.strings[1..] == [];
      assert StringsOctets(r.data.strings) == 1 + |r.data.strings[0]|;
    }
  }

  /** A pointer has 14 bits: a name that starts at octet 16384 or later cannot be pointed to. */
  lemma {:induction false} PointerReach(mode: Compression, name: Name, b: Buffer)
    requires name != [] && Key(mode, name) !in b.names
    ensures Key(mode, name) in WriteName(mode, name, b).names <==> b.size < 16384
  {
    KeyTail(mode, name);
    var next := Buffer(b.size + 1 + |name[0]|, if b.size < POINTER_LIMIT then b.names + {Key(mode, name)} else b.names);
    NamesAdded(mode, name[1..], next);
    SuffixesShorter(Key(mode, name[1..]));
  }
}
