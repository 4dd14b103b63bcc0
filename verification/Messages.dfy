/** The parts of a DNS message that the server reads and writes (section 4.1 of RFC 1035). */
module Messages {
  import opened Wrappers
  import opened Names
  import Xip

  datatype QueryType = TypeA | TypeNs | TypeSoa | TypeTxt | OtherType(code: nat)

  datatype QueryClass = ClassIn | ClassAny | OtherClass(code: nat)

  datatype OpCode = Query | OtherOpCode(code: nat)

  datatype ResponseCode = NoError | FormErr | ServFail | NXDomain | NotImp | Refused | BadVers | OtherCode(code: nat)

  datatype Question = Question(name: Name, qtype: QueryType, qclass: QueryClass)

  datatype RData =
    | A(ip: Xip.Ipv4)
    | Ns(target: Name)
    | Soa(mname: Name, rname: Name, serial: nat, refresh: nat, retry: nat, expire: nat, minimum: nat)
    | Txt(strings: seq<string>)

  /** A resource record; the server only produces class IN. */
  datatype Record = Record(owner: Name, ttl: nat, data: RData)

  /** The OPT pseudo-record, without options (section 6.1.2 of RFC 6891). */
  datatype Edns = Edns(version: nat, maxPayload: nat, dnssecOk: bool)

  datatype Message = Message(
    id: nat,
    isResponse: bool,
    opCode: OpCode,
    authoritative: bool,
    truncated: bool,
    recursionDesired: bool,
    recursionAvailable: bool,
    rcode: ResponseCode,
    questions: seq<Question>,
    answers: seq<Record>,
    authorities: seq<Record>,
    additionals: seq<Record>,
    edns: Option<Edns>)

  function NewResponse(id: nat, opCode: OpCode): Message {
    Message(id, true, opCode, false, false, false, false, NoError, [], [], [], [], None)
  }

  /** The reply that asks for a retry over TCP: question and OPT are kept, every record section is emptied. */
  function Truncate(m: Message): Message {
    m.(truncated := true, answers := [], authorities := [], additionals := [])
  }
}
