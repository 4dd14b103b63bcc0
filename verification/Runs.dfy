/** Runs of the store: any sequence of operations with clock readings that never go back. */
module Runs {
  import opened Wrappers
  import opened Bags
  import opened Store
  import opened History

  /** An operation with the clock readings it takes. `Add` reads the clock to prune and, when it
      succeeds, once more to stamp the token. */
  datatype Op =
    | Add(name: string, value: string, prunedAt: nat, stampedAt: nat)
    | Remove(name: string, value: string, at: nat)
    | Get(name: string, at: nat)
    | ReadSerial(at: nat)

  ghost function Step(limits: Limits, z: Zone, op: Op): Zone {
    match op
    case Add(name, value, prunedAt, stampedAt) => AddZone(limits, z, name, value, prunedAt, stampedAt).0
    case Remove(name, value, at) => RemoveZone(z, name, value, at)
    case Get(_, at) => ReadZone(z, at)
    case ReadSerial(at) => ReadZone(z, at)
  }

  ghost predicate Succeeds(limits: Limits, z: Zone, op: Op) {
    op.Add? ==> AddZone(limits, z, op.name, op.value, op.prunedAt, op.stampedAt).1.Ok?
  }

  /** What the operation adds to the log. */
  ghost function Logged(limits: Limits, z: Zone, op: Op): seq<Event> {
    match op
    case Add(name, value, prunedAt, stampedAt) =>
      if Succeeds(limits, z, op) then [Added(name, value, prunedAt, stampedAt)] else []
    case Remove(name, value, _) => [Removed(name, value)]
    case Get(_, _) => []
    case ReadSerial(_) => []
  }

  function FirstReading(op: Op): nat {
    if op.Add? then op.prunedAt else op.at
  }

  ghost function LastReading(limits: Limits, z: Zone, op: Op): nat {
    if !op.Add? then op.at else if Succeeds(limits, z, op) then op.stampedAt else op.prunedAt
  }

  ghost predicate TimelyOp(op: Op, clock: nat) {
    clock <= FirstReading(op) && (op.Add? ==> op.prunedAt <= op.stampedAt)
  }

  ghost predicate Timely(limits: Limits, z: Zone, ops: seq<Op>, clock: nat)
    decreases ops
  {
    ops != [] ==>
      && TimelyOp(ops[0], clock)
      && Timely(limits, Step(limits, z, ops[0]), ops[1..], LastReading(limits, z, ops[0]))
  }

  ghost function Run(limits: Limits, z: Zone, ops: seq<Op>): Zone
    decreases ops
  {
    if ops == [] then z else Run(limits, Step(limits, z, ops[0]), ops[1..])
  }

  ghost function Log(limits: Limits, z: Zone, ops: seq<Op>): seq<Event>
    decreases ops
  {
    if ops == [] then []
    else Logged(limits, z, ops[0]) + Log(limits, Step(limits, z, ops[0]), ops[1..])
  }

  ghost function Clock(limits: Limits, z: Zone, ops: seq<Op>, clock: nat): nat
    decreases ops
  {
    if ops == [] then clock
    else Clock(limits, Step(limits, z, ops[0]), ops[1..], LastReading(limits, z, ops[0]))
  }

  lemma {:induction false} FirstOp(limits: Limits, z: Zone, op: Op, rest: seq<Op>, clock: nat)
    ensures var next, later := Step(limits, z, op), LastReading(limits, z, op);
            && Run(limits, z, [op] + rest) == Run(limits, next, rest)
            && Log(limits, z, [op] + rest) == Logged(limits, z, op) + Log(limits, next, rest)
            && Clock(limits, z, [op] + rest, clock) == Clock(limits, next, rest, later)
            && (Timely(limits, z, [op] + rest, clock) <==> TimelyOp(op, clock) && Timely(limits, next, rest, later))
  {
    assert ([op] + rest)[1..] == rest;
  }

  lemma {:induction false} OneOp(limits: Limits, z: Zone, op: Op, clock: nat)
    ensures Run(limits, z, [op]) == Step(limits, z, op)
    ensures Log(limits, z, [op]) == Logged(limits, z, op)
    ensures Clock(limits, z, [op], clock) == LastReading(limits, z, op)
  {
    FirstOp(limits, z, op, [], clock);
    assert [op] + [] == [op];
  }

  lemma {:induction false} TwoOps(limits: Limits, z: Zone, first: Op, second: Op, next: Zone, clock: nat, later: nat)
    requires next == Step(limits, z, first) && later == LastReading(limits, z, first)
    ensures Run(limits, z, [first, second]) == Step(limits, next, second)
    ensures Clock(limits, z, [first, second], clock) == LastReading(limits, next, second)
    ensures Timely(limits, z, [first, second], clock) <==> TimelyOp(first, clock) && TimelyOp(second, later)
  {
    FirstOp(limits, z, first, [second], clock);
    FirstOp(limits, next, second, [], later);
    assert [first] + [second] == [first, second] && [second] + [] == [second];
  }

  /** A run in two parts. */
  lemma {:induction false} SplitRun(limits: Limits, z: Zone, a: seq<Op>, b: seq<Op>, clock: nat)
    ensures Run(limits, z, a + b) == Run(limits, Run(limits, z, a), b)
    ensures Log(limits, z, a + b) == Log(limits, z, a) + Log(limits, Run(limits, z, a), b)
    ensures Clock(limits, z, a + b, clock) == Clock(limits, Run(limits, z, a), b, Clock(limits, z, a, clock))
    ensures Timely(limits, z, a + b, clock)
       <==> Timely(limits, z, a, clock) && Timely(limits, Run(limits, z, a), b, Clock(limits, z, a, clock))
    decreases |a|
  {
    if a == [] {
      assert a + b == b;
    } else {
      assert a + b == [a[0]] + (a[1..] + b);
      FirstOp(limits, z, a[0], a[1..] + b, clock);
      SplitRun(limits, Step(limits, z, a[0]), a[1..], b, LastReading(limits, z, a[0]));
    }
  }

  // ---- The invariant of the store --------------------------------------------------------

  /** The test on lists of values is downward closed and accepts the empty list. */
  ghost predicate ValidLimits(limits: Limits) {
    Downward(limits.fits) && limits.fits([])
  }

  /** The number and the size of the stored values, expired or not. */
  ghost predicate WithinCapacity(limits: Limits, records: Records) {
    && |Pairs(records)| <= limits.maxTokens
    && BagFits(limits.fits, BagOf(Pairs(records)))
  }

  ghost predicate Agrees(log: seq<Event>, lifetime: nat, records: Records, clock: nat) {
    forall name {:trigger TokensOf(records, name)} ::
      ListInv(log, lifetime, name, TokensOf(records, name), clock)
  }

  ghost predicate RecordsInv(log: seq<Event>, limits: Limits, records: Records, clock: nat) {
    && WellFormed(records)
    && WithinCapacity(limits, records)
    && Agrees(log, limits.lifetime, records, clock)
  }

  lemma {:induction false} SubsetCardinality(some: set<(string, string)>, all: set<(string, string)>)
    requires some <= all
    ensures |some| <= |all|
  {
    assert all == some + (all - some);
  }

  lemma {:induction false} FewerStillFit(limits: Limits, fewer: Records, records: Records)
    requires ValidLimits(limits) && WithinCapacity(limits, records) && Pairs(fewer) <= Pairs(records)
    ensures WithinCapacity(limits, fewer)
  {
    SubsetCardinality(Pairs(fewer), Pairs(records));
    BagOfSubset(Pairs(fewer), Pairs(records));
    SubBagFits(limits.fits, BagOf(Pairs(fewer)), BagOf(Pairs(records)));
  }

  lemma {:induction false} EmptyInv(limits: Limits, clock: nat)
    requires ValidLimits(limits)
    ensures RecordsInv([], limits, map[], clock)
  {
    assert Pairs(map[]) == {};
    AnyOrderFits(limits.fits, []);
  }

  lemma {:induction false} PruneKeepsInv(log: seq<Event>, limits: Limits, records: Records, clock: nat, now: nat)
    requires ValidLimits(limits) && RecordsInv(log, limits, records, clock) && clock <= now
    ensures RecordsInv(log, limits, PruneRecords(records, now), now)
    ensures forall name :: AllAlive(TokensOf(PruneRecords(records, now), name), now)
  {
    PruneWellFormed(records, now);
    FewerStillFit(limits, PruneRecords(records, now), records);
    forall name
      ensures ListInv(log, limits.lifetime, name, TokensOf(PruneRecords(records, now), name), now)
      ensures AllAlive(TokensOf(PruneRecords(records, now), name), now)
    {
      PrunedTokens(records, now, name);
      AliveKeeps(log, limits.lifetime, name, TokensOf(records, name), clock, now);
    }
  }

  lemma {:induction false} ValueAbsent(tokens: seq<Token>, value: string)
    requires IndexOf(tokens, value) == |tokens|
    ensures value !in Values(tokens) && forall t | t in tokens :: t.value != value
  {
  }

  lemma {:induction false} RefreshedList(log: seq<Event>, lifetime: nat, records: Records, e: Event, name: string)
    requires e.Added? && e.prunedAt <= e.stampedAt && ListInv(log, lifetime, name, TokensOf(records, name), e.prunedAt)
    requires AllAlive(TokensOf(records, e.name), e.prunedAt)
    requires IndexOf(TokensOf(records, e.name), e.value) < |TokensOf(records, e.name)|
    ensures ListInv(log + [e], lifetime, name,
                    TokensOf(Refresh(records, e.name, e.value, e.stampedAt + lifetime), name), e.stampedAt)
  {
    if name == e.name {
      ListRefresh(log, lifetime, e, TokensOf(records, name));
    } else {
      OtherName(log, lifetime, e, name, TokensOf(records, name), e.prunedAt, e.stampedAt);
    }
  }

  lemma {:induction false} RefreshAgrees(log: seq<Event>, lifetime: nat, records: Records, e: Event)
    requires e.Added? && e.prunedAt <= e.stampedAt && Agrees(log, lifetime, records, e.prunedAt)
    requires AllAlive(TokensOf(records, e.name), e.prunedAt)
    requires IndexOf(TokensOf(records, e.name), e.value) < |TokensOf(records, e.name)|
    ensures Agrees(log + [e], lifetime, Refresh(records, e.name, e.value, e.stampedAt + lifetime), e.stampedAt)
  {
    var refreshed := Refresh(records, e.name, e.value, e.stampedAt + lifetime);
    forall name
      ensures ListInv(log + [e], lifetime, name, TokensOf(refreshed, name), e.stampedAt)
    {
      RefreshedList(log, lifetime, records, e, name);
    }
  }

  lemma {:induction false} RefreshStaysWithin(limits: Limits, records: Records, name: string, value: string,
                                              expiresAt: nat)
    requires WellFormed(records) && WithinCapacity(limits, records)
    requires IndexOf(TokensOf(records, name), value) < |TokensOf(records, name)|
    ensures WellFormed(Refresh(records, name, value, expiresAt))
    ensures WithinCapacity(limits, Refresh(records, name, value, expiresAt))
  {
    RefreshWellFormed(records, name, value, expiresAt);
  }

  lemma {:induction false} RefreshKeepsInv(log: seq<Event>, limits: Limits, records: Records, e: Event)
    requires e.Added? && e.prunedAt <= e.stampedAt
    requires RecordsInv(log, limits, records, e.prunedAt) && AllAlive(TokensOf(records, e.name), e.prunedAt)
    requires IndexOf(TokensOf(records, e.name), e.value) < |TokensOf(records, e.name)|
    ensures RecordsInv(log + [e], limits, Refresh(records, e.name, e.value, e.stampedAt + limits.lifetime), e.stampedAt)
  {
    RefreshStaysWithin(limits, records, e.name, e.value, e.stampedAt + limits.lifetime);
    RefreshAgrees(log, limits.lifetime, records, e);
  }

  lemma {:induction false} PushedList(log: seq<Event>, lifetime: nat, records: Records, e: Event, name: string)
    requires e.Added? && e.prunedAt <= e.stampedAt && ListInv(log, lifetime, name, TokensOf(records, name), e.prunedAt)
    requires e.value !in Values(TokensOf(records, e.name))
    ensures ListInv(log + [e], lifetime, name,
                    TokensOf(Push(records, e.name, Token(e.value, e.stampedAt + lifetime)), name), e.stampedAt)
  {
    if name == e.name {
      ListPush(log, lifetime, e, TokensOf(records, name));
    } else {
      OtherName(log, lifetime, e, name, TokensOf(records, name), e.prunedAt, e.stampedAt);
    }
  }

  lemma {:induction false} PushAgrees(log: seq<Event>, lifetime: nat, records: Records, e: Event)
    requires e.Added? && e.prunedAt <= e.stampedAt && Agrees(log, lifetime, records, e.prunedAt)
    requires e.value !in Values(TokensOf(records, e.name))
    ensures Agrees(log + [e], lifetime, Push(records, e.name, Token(e.value, e.stampedAt + lifetime)), e.stampedAt)
  {
    var pushed := Push(records, e.name, Token(e.value, e.stampedAt + lifetime));
    forall name
      ensures ListInv(log + [e], lifetime, name, TokensOf(pushed, name), e.stampedAt)
    {
      PushedList(log, lifetime, records, e, name);
    }
  }

  lemma {:induction false} PushStaysWithin(limits: Limits, records: Records, name: string, token: Token)
    requires WellFormed(records) && |Pairs(records)| < limits.maxTokens && FitsWith(limits, records, token.value)
    requires forall t | t in TokensOf(records, name) :: t.value != token.value
    ensures WellFormed(Push(records, name, token)) && WithinCapacity(limits, Push(records, name, token))
  {
    PushWellFormed(records, name, token);
    BagWith(Pairs(records), (name, token.value));
  }

  lemma {:induction false} PushKeepsInv(log: seq<Event>, limits: Limits, records: Records, e: Event)
    requires e.Added? && e.prunedAt <= e.stampedAt
    requires RecordsInv(log, limits, records, e.prunedAt)
    requires IndexOf(TokensOf(records, e.name), e.value) == |TokensOf(records, e.name)|
    requires |Pairs(records)| < limits.maxTokens && FitsWith(limits, records, e.value)
    ensures RecordsInv(log + [e], limits, Push(records, e.name, Token(e.value, e.stampedAt + limits.lifetime)),
                       e.stampedAt)
  {
    ValueAbsent(TokensOf(records, e.name), e.value);
    PushStaysWithin(limits, records, e.name, Token(e.value, e.stampedAt + limits.lifetime));
    PushAgrees(log, limits.lifetime, records, e);
  }

  lemma {:induction false} RemoveKeepsInv(log: seq<Event>, limits: Limits, records: Records, e: Event, clock: nat)
    requires ValidLimits(limits) && e.Removed? && RecordsInv(log, limits, records, clock)
    ensures RecordsInv(log + [e], limits, RemoveFrom(records, e.name, e.value), clock)
  {
    var rest := RemoveFrom(records, e.name, e.value);
    RemoveWellFormed(records, e.name, e.value);
    FewerStillFit(limits, rest, records);
    forall name
      ensures ListInv(log + [e], limits.lifetime, name, TokensOf(rest, name), clock)
    {
      RemovedTokens(records, e.name, e.value, name);
      if name == e.name {
        ListRemove(log, limits.lifetime, e, TokensOf(records, name), clock);
      } else {
        OtherName(log, limits.lifetime, e, name, TokensOf(records, name), clock, clock);
      }
    }
  }

  lemma {:induction false} AddOfFound(limits: Limits, pruned: Records, serial: Serial, changed: bool, e: Event)
    requires e.Added? && IndexOf(TokensOf(pruned, e.name), e.value) < |TokensOf(pruned, e.name)|
    ensures var (after, result) := AddPruned(limits, pruned, serial, changed, e.name, e.value, e.stampedAt);
            result.Ok? && after.records == Refresh(pruned, e.name, e.value, e.stampedAt + limits.lifetime)
  {
  }

  lemma {:induction false} AddOfMissing(limits: Limits, pruned: Records, serial: Serial, changed: bool, e: Event)
    requires e.Added? && IndexOf(TokensOf(pruned, e.name), e.value) == |TokensOf(pruned, e.name)|
    ensures var (after, result) := AddPruned(limits, pruned, serial, changed, e.name, e.value, e.stampedAt);
            && (result.Ok? <==> |Pairs(pruned)| < limits.maxTokens && FitsWith(limits, pruned, e.value))
            && (result.Ok? ==> after.records == Push(pruned, e.name, Token(e.value, e.stampedAt + limits.lifetime)))
            && (result.Err? ==> after.records == pruned)
  {
  }

  lemma {:induction false} AddToPrunedKeepsInv(log: seq<Event>, limits: Limits, pruned: Records, serial: Serial,
                                               changed: bool, e: Event)
    requires e.Added? && e.prunedAt <= e.stampedAt
    requires RecordsInv(log, limits, pruned, e.prunedAt) && AllAlive(TokensOf(pruned, e.name), e.prunedAt)
    ensures var (after, result) := AddPruned(limits, pruned, serial, changed, e.name, e.value, e.stampedAt);
            && (result.Ok? ==> RecordsInv(log + [e], limits, after.records, e.stampedAt))
            && (result.Err? ==> after.records == pruned)
  {
    if IndexOf(TokensOf(pruned, e.name), e.value) < |TokensOf(pruned, e.name)| {
      AddOfFound(limits, pruned, serial, changed, e);
      RefreshKeepsInv(log, limits, pruned, e);
    } else {
      AddOfMissing(limits, pruned, serial, changed, e);
      if |Pairs(pruned)| < limits.maxTokens && FitsWith(limits, pruned, e.value) {
        PushKeepsInv(log, limits, pruned, e);
      }
    }
  }

  lemma {:induction false} AddKeepsInv(log: seq<Event>, limits: Limits, z: Zone, clock: nat, e: Event)
    requires ValidLimits(limits) && RecordsInv(log, limits, z.records, clock)
    requires e.Added? && clock <= e.prunedAt <= e.stampedAt
    ensures var (after, result) := AddZone(limits, z, e.name, e.value, e.prunedAt, e.stampedAt);
            RecordsInv(if result.Ok? then log + [e] else log, limits, after.records,
                       if result.Ok? then e.stampedAt else e.prunedAt)
  {
    var pruned := PruneRecords(z.records, e.prunedAt);
    PruneKeepsInv(log, limits, z.records, clock, e.prunedAt);
    AddToPrunedKeepsInv(log, limits, pruned, z.serial, pruned != z.records, e);
  }

  lemma {:induction false} StepKeepsInv(limits: Limits, z: Zone, log: seq<Event>, clock: nat, op: Op)
    requires ValidLimits(limits) && RecordsInv(log, limits, z.records, clock) && TimelyOp(op, clock)
    ensures RecordsInv(log + Logged(limits, z, op), limits, Step(limits, z, op).records, LastReading(limits, z, op))
  {
    assert log + [] == log;
    match op
    case Add(name, value, prunedAt, stampedAt) =>
      AddKeepsInv(log, limits, z, clock, Added(name, value, prunedAt, stampedAt));
    case Remove(name, value, at) =>
      PruneKeepsInv(log, limits, z.records, clock, at);
      RemoveKeepsInv(log, limits, PruneRecords(z.records, at), Removed(name, value), at);
    case Get(_, at) => PruneKeepsInv(log, limits, z.records, clock, at);
    case ReadSerial(at) => PruneKeepsInv(log, limits, z.records, clock, at);
  }

  lemma {:induction false} LogOfRun(limits: Limits, z: Zone, log: seq<Event>, ops: seq<Op>)
    requires ops != []
    ensures log + Logged(limits, z, ops[0]) + Log(limits, Step(limits, z, ops[0]), ops[1..])
         == log + Log(limits, z, ops)
  {
  }

  /** Every run keeps the invariant: agreement with the log, token limit and wire capacity. */
  lemma {:induction false} RunKeepsInv(limits: Limits, z: Zone, log: seq<Event>, clock: nat, ops: seq<Op>)
    requires ValidLimits(limits) && RecordsInv(log, limits, z.records, clock) && Timely(limits, z, ops, clock)
    ensures RecordsInv(log + Log(limits, z, ops), limits, Run(limits, z, ops).records, Clock(limits, z, ops, clock))
    decreases ops
  {
    if ops == [] {
      assert log + [] == log;
    } else {
      var op := ops[0];
      StepKeepsInv(limits, z, log, clock, op);
      RunKeepsInv(limits, Step(limits, z, op), log + Logged(limits, z, op), LastReading(limits, z, op), ops[1..]);
      LogOfRun(limits, z, log, ops);
    }
  }

  ghost function Empty(serial: Serial): Zone {
    Zone(map[], serial)
  }

  lemma {:induction false} ReachableInv(limits: Limits, serial: Serial, clock: nat, ops: seq<Op>)
    requires ValidLimits(limits) && Timely(limits, Empty(serial), ops, clock)
    ensures RecordsInv(Log(limits, Empty(serial), ops), limits, Run(limits, Empty(serial), ops).records,
                       Clock(limits, Empty(serial), ops, clock))
  {
    EmptyInv(limits, clock);
    RunKeepsInv(limits, Empty(serial), [], clock, ops);
    assert [] + Log(limits, Empty(serial), ops) == Log(limits, Empty(serial), ops);
  }

  // ---- The lazy store is the eager history -----------------------------------------------

  lemma {:induction false} ReadIsLiveList(log: seq<Event>, limits: Limits, records: Records, clock: nat,
                                          name: string, now: nat)
    requires ValidLimits(limits) && RecordsInv(log, limits, records, clock) && clock <= now
    ensures IsLiveList(log, limits.lifetime, name, now, Values(TokensOf(PruneRecords(records, now), name)))
  {
    PruneKeepsInv(log, limits, records, clock, now);
    var tokens := TokensOf(PruneRecords(records, now), name);
    assert ListInv(log, limits.lifetime, name, tokens, now);
    forall v | v in Values(tokens)
      ensures LiveAt(log, limits.lifetime, name, v, now)
    {
      ValueMembers(tokens, v);
      var t :| t in tokens && t.value == v;
      assert Stamped(log, limits.lifetime, name, t);
    }
  }

  /** After any run, a read at `now` returns exactly the values whose last successful change is an
      add less than a lifetime ago, each once, in the order of their latest insertion. */
  lemma {:induction false} HistoryRefinement(limits: Limits, serial: Serial, clock: nat, ops: seq<Op>, name: string,
                                             now: nat)
    requires ValidLimits(limits) && Timely(limits, Empty(serial), ops, clock)
    requires Clock(limits, Empty(serial), ops, clock) <= now
    ensures var z := Step(limits, Run(limits, Empty(serial), ops), Get(name, now));
            IsLiveList(Log(limits, Empty(serial), ops), limits.lifetime, name, now, Values(TokensOf(z.records, name)))
  {
    ReachableInv(limits, serial, clock, ops);
    ReadIsLiveList(Log(limits, Empty(serial), ops), limits, Run(limits, Empty(serial), ops).records,
                   Clock(limits, Empty(serial), ops, clock), name, now);
  }

  /** In every reachable state the stored values, listed in any order, pass the capacity test. */
  lemma {:induction false} ReachableFits(limits: Limits, serial: Serial, clock: nat, ops: seq<Op>, values: seq<string>)
    requires ValidLimits(limits) && Timely(limits, Empty(serial), ops, clock)
    requires multiset(values) <= BagOf(Pairs(Run(limits, Empty(serial), ops).records))
    ensures limits.fits(values)
    ensures |Pairs(Run(limits, Empty(serial), ops).records)| <= limits.maxTokens
  {
    ReachableInv(limits, serial, clock, ops);
    var all := BagOf(Pairs(Run(limits, Empty(serial), ops).records));
    SubBagFits(limits.fits, multiset(values), all);
    AnyOrderFits(limits.fits, values);
  }

  // ---- Admission -------------------------------------------------------------------------

  /** What is left after pruning is the live set of the log. */
  lemma {:induction false} PrunedPairsAreLive(log: seq<Event>, limits: Limits, records: Records, clock: nat, now: nat)
    requires ValidLimits(limits) && RecordsInv(log, limits, records, clock) && clock <= now
    ensures Pairs(PruneRecords(records, now)) == LiveSet(log, limits.lifetime, now)
    ensures forall n, v :: (n, v) in Pairs(PruneRecords(records, now)) <==> LiveAt(log, limits.lifetime, n, v, now)
  {
    var pruned, live := PruneRecords(records, now), LiveSet(log, limits.lifetime, now);
    forall name, v
      ensures (name, v) in Pairs(pruned) <==> LiveAt(log, limits.lifetime, name, v, now)
    {
      ReadIsLiveList(log, limits, records, clock, name, now);
      StoredValue(pruned, name, v);
    }
    forall p | p in Pairs(pruned)
      ensures p in live
    {
      StampIsLogged(log, p.0, p.1);
    }
    forall p | p in live
      ensures p in Pairs(pruned)
    {
    }
  }

  lemma {:induction false} StoredValue(records: Records, name: string, v: string)
    ensures (name, v) in Pairs(records) <==> v in Values(TokensOf(records, name))
  {
    var tokens := TokensOf(records, name);
    if (name, v) in Pairs(records) {
      var i :| 0 <= i < |records[name]| && records[name][i].value == v;
      assert Values(tokens)[i] == v;
    }
    if v in Values(tokens) {
      var i :| 0 <= i < |tokens| && Values(tokens)[i] == v;
      assert records[name][i].value == v;
    }
  }

  /** The decision about an add to a store that holds these pairs. */
  ghost function AdmissionTo(limits: Limits, held: set<(string, string)>, name: string, value: string)
    : Result<(), AddError>
  {
    if (name, value) in held then Ok(())
    else if |held| >= limits.maxTokens then Err(TokenLimitReached)
    else if !BagFits(limits.fits, BagOf(held) + multiset{value}) then Err(DnsWireCapacityReached)
    else Ok(())
  }

  /** Eager admission: what the log alone says about an add at this reading. */
  ghost function EagerAdmission(log: seq<Event>, limits: Limits, name: string, value: string, now: nat)
    : Result<(), AddError>
  {
    AdmissionTo(limits, LiveSet(log, limits.lifetime, now), name, value)
  }

  /** An add is decided by what is live at its first reading, so expired tokens never cause a
      refusal; and a refusal changes no live value and no expiry. */
  lemma {:induction false} AdmissionIsEager(log: seq<Event>, limits: Limits, z: Zone, clock: nat, name: string,
                                            value: string, prunedAt: nat, stampedAt: nat)
    requires ValidLimits(limits) && RecordsInv(log, limits, z.records, clock) && clock <= prunedAt
    ensures var (after, result) := AddZone(limits, z, name, value, prunedAt, stampedAt);
            && result == EagerAdmission(log, limits, name, value, prunedAt)
            && (result.Err? ==> forall m :: TokensOf(after.records, m) == Alive(TokensOf(z.records, m), prunedAt))
  {
    var pruned := PruneRecords(z.records, prunedAt);
    PrunedPairsAreLive(log, limits, z.records, clock, prunedAt);
    AddResult(limits, pruned, z.serial, pruned != z.records, name, value, stampedAt);
    forall m
      ensures TokensOf(pruned, m) == Alive(TokensOf(z.records, m), prunedAt)
    {
      PrunedTokens(z.records, prunedAt, m);
    }
  }

  lemma {:induction false} AddResult(limits: Limits, pruned: Records, serial: Serial, changed: bool,
                                     name: string, value: string, stampedAt: nat)
    ensures var (after, result) := AddPruned(limits, pruned, serial, changed, name, value, stampedAt);
            && result == AdmissionTo(limits, Pairs(pruned), name, value)
            && (result.Err? ==> after.records == pruned)
  {
    var tokens := TokensOf(pruned, name);
    StoredValue(pruned, name, value);
    if IndexOf(tokens, value) < |tokens| {
      assert Values(tokens)[IndexOf(tokens, value)] == value;
    } else {
      ValueAbsent(tokens, value);
    }
  }

  /** What an add does to the log and to the clock, and on what grounds it decides. */
  lemma {:induction false} AddFollowsLog(log: seq<Event>, limits: Limits, z: Zone, clock: nat, e: Event)
    requires ValidLimits(limits) && RecordsInv(log, limits, z.records, clock)
    requires e.Added? && clock <= e.prunedAt <= e.stampedAt
    ensures var (after, result) := AddZone(limits, z, e.name, e.value, e.prunedAt, e.stampedAt);
            && result == EagerAdmission(log, limits, e.name, e.value, e.prunedAt)
            && RecordsInv(log + (if result.Ok? then [e] else []), limits, after.records,
                          if result.Ok? then e.stampedAt else e.prunedAt)
  {
    AddKeepsInv(log, limits, z, clock, e);
    AdmissionIsEager(log, limits, z, clock, e.name, e.value, e.prunedAt, e.stampedAt);
    assert log + [] == log;
  }

  // ---- Whether pruning drops anything ----------------------------------------------------

  lemma {:induction false} ExpiredIsDropped(records: Records, now: nat, name: string, k: nat)
    requires WellFormed(records) && name in records && k < |records[name]| && records[name][k].expiresAt <= now
    ensures (name, records[name][k].value) in Pairs(records)
    ensures (name, records[name][k].value) !in Pairs(PruneRecords(records, now))
  {
    var tokens, value := records[name], records[name][k].value;
    StoredValue(PruneRecords(records, now), name, value);
    PrunedTokens(records, now, name);
    ValueMembers(Alive(tokens, now), value);
    FilterMembers(tokens, (t: Token) => t.expiresAt > now);
    forall t | t in Alive(tokens, now)
      ensures t.value != value
    {
      var i :| 0 <= i < |tokens| && tokens[i] == t;
    }
  }

  lemma {:induction false} ProperSubsetIsSmaller(some: set<(string, string)>, all: set<(string, string)>,
                                                 p: (string, string))
    requires some <= all && p in all && p !in some
    ensures |some| < |all|
  {
    SubsetCardinality(some, all - {p});
  }

  /** Comparing the numbers of tokens tells whether pruning dropped anything. */
  lemma {:induction false} PruneChangesCount(records: Records, now: nat)
    requires WellFormed(records)
    ensures |Pairs(PruneRecords(records, now))| != |Pairs(records)| <==> PruneRecords(records, now) != records
  {
    var pruned := PruneRecords(records, now);
    PruneWellFormed(records, now);
    if name, k :| name in records && 0 <= k < |records[name]| && records[name][k].expiresAt <= now {
      ExpiredIsDropped(records, now, name, k);
      ProperSubsetIsSmaller(Pairs(pruned), Pairs(records), (name, records[name][k].value));
    } else {
      forall name | name in records
        ensures Alive(records[name], now) == records[name]
      {
        AliveSameLength(records[name], now);
        assert forall t | t in records[name] :: t.expiresAt > now;
      }
      assert pruned == records;
    }
  }

  // ---- A presented token is served -------------------------------------------------------

  ghost predicate NeverRemoves(ops: seq<Op>, name: string, value: string) {
    forall op | op in ops && op.Remove? :: op.name != name || op.value != value
  }

  ghost predicate StampedSince(log: seq<Event>, name: string, value: string, at: nat) {
    var stamp := Stamp(log, name, value);
    stamp.Some? && at <= stamp.value
  }

  lemma {:induction false} StampNeverDrops(limits: Limits, z: Zone, log: seq<Event>, clock: nat, ops: seq<Op>,
                                           name: string, value: string, at: nat, after: seq<Event>)
    requires Timely(limits, z, ops, clock) && NeverRemoves(ops, name, value) && at <= clock
    requires StampedSince(log, name, value, at) && after == log + Log(limits, z, ops)
    ensures StampedSince(after, name, value, at)
    decreases ops
  {
    if ops == [] {
      assert after == log;
    } else {
      var op := ops[0];
      assert op in ops && forall o | o in ops[1..] :: o in ops;
      StampKept(limits, z, log, op, name, value, at);
      LogOfRun(limits, z, log, ops);
      StampNeverDrops(limits, Step(limits, z, op), log + Logged(limits, z, op), LastReading(limits, z, op), ops[1..],
                      name, value, at, after);
    }
  }

  lemma {:induction false} StampKept(limits: Limits, z: Zone, log: seq<Event>, op: Op, name: string, value: string,
                                     at: nat)
    requires StampedSince(log, name, value, at) && TimelyOp(op, at)
    requires op.Remove? ==> op.name != name || op.value != value
    ensures StampedSince(log + Logged(limits, z, op), name, value, at)
  {
    if Logged(limits, z, op) == [] {
      assert log + Logged(limits, z, op) == log;
    } else {
      StampAfter(log, Logged(limits, z, op)[0], name, value);
    }
  }

  /** A value that was added successfully, and is not removed, is returned by every read within
      its lifetime, whatever else happens. */
  lemma {:induction false} AddedValueIsServed(limits: Limits, z: Zone, log: seq<Event>, clock: nat, op: Op,
                                              ops: seq<Op>, now: nat)
    requires ValidLimits(limits) && RecordsInv(log, limits, z.records, clock)
    requires op.Add? && Succeeds(limits, z, op) && Timely(limits, z, [op] + ops, clock)
    requires NeverRemoves(ops, op.name, op.value)
    requires Clock(limits, z, [op] + ops, clock) <= now < op.stampedAt + limits.lifetime
    ensures op.value in Values(TokensOf(ReadZone(Run(limits, z, [op] + ops), now).records, op.name))
  {
    assert ([op] + ops)[1..] == ops;
    var next, e := Step(limits, z, op), Added(op.name, op.value, op.prunedAt, op.stampedAt);
    StepKeepsInv(limits, z, log, clock, op);
    StampAfter(log, e, op.name, op.value);
    StampNeverDrops(limits, next, log + [e], op.stampedAt, ops, op.name, op.value, op.stampedAt,
                    log + [e] + Log(limits, next, ops));
    RunKeepsInv(limits, next, log + [e], op.stampedAt, ops);
    ReadIsLiveList(log + [e] + Log(limits, next, ops), limits, Run(limits, next, ops).records,
                   Clock(limits, next, ops, op.stampedAt), op.name, now);
    assert LiveAt(log + [e] + Log(limits, next, ops), limits.lifetime, op.name, op.value, now);
  }

  // ---- A value that is gone --------------------------------------------------------------

  ghost predicate NeverAdds(ops: seq<Op>, name: string, value: string) {
    forall op | op in ops && op.Add? :: op.name != name || op.value != value
  }

  /** Without another add, a value has at most the stamp that it had. */
  lemma {:induction false} StampNotRenewed(limits: Limits, z: Zone, log: seq<Event>, ops: seq<Op>, name: string,
                                           value: string)
    requires NeverAdds(ops, name, value)
    ensures Stamp(log + Log(limits, z, ops), name, value) in {None, Stamp(log, name, value)}
    decreases ops
  {
    if ops == [] {
      assert log + [] == log;
    } else {
      var op := ops[0];
      assert op in ops && forall o | o in ops[1..] :: o in ops;
      if Logged(limits, z, op) == [] {
        assert log + [] == log;
      } else {
        StampAfter(log, Logged(limits, z, op)[0], name, value);
      }
      StampNotRenewed(limits, Step(limits, z, op), log + Logged(limits, z, op), ops[1..], name, value);
      LogOfRun(limits, z, log, ops);
    }
  }

  // ---- What one change does to everything stored -----------------------------------------

  lemma {:induction false} RefreshedPairs(records: Records, name: string, value: string, expiresAt: nat)
    requires WellFormed(records) && IndexOf(TokensOf(records, name), value) < |TokensOf(records, name)|
    ensures (name, value) in Pairs(records) && Pairs(Refresh(records, name, value, expiresAt)) == Pairs(records)
  {
    RefreshWellFormed(records, name, value, expiresAt);
    StoredValue(records, name, value);
    assert Values(TokensOf(records, name))[IndexOf(TokensOf(records, name), value)] == value;
  }

  lemma {:induction false} PushedPairs(records: Records, name: string, token: Token)
    requires WellFormed(records) && IndexOf(TokensOf(records, name), token.value) == |TokensOf(records, name)|
    ensures (name, token.value) !in Pairs(records)
    ensures Pairs(Push(records, name, token)) == Pairs(records) + {(name, token.value)}
  {
    ValueAbsent(TokensOf(records, name), token.value);
    PushWellFormed(records, name, token);
  }

  lemma {:induction false} FoundPairs(limits: Limits, pruned: Records, serial: Serial, changed: bool, e: Event)
    requires e.Added? && WellFormed(pruned) && IndexOf(TokensOf(pruned, e.name), e.value) < |TokensOf(pruned, e.name)|
    ensures var (after, result) := AddPruned(limits, pruned, serial, changed, e.name, e.value, e.stampedAt);
            result.Ok? && Pairs(after.records) == Pairs(pruned) && (e.name, e.value) in Pairs(pruned)
  {
    AddOfFound(limits, pruned, serial, changed, e);
    RefreshedPairs(pruned, e.name, e.value, e.stampedAt + limits.lifetime);
  }

  lemma {:induction false} MissingPairs(limits: Limits, pruned: Records, serial: Serial, changed: bool, e: Event)
    requires e.Added? && WellFormed(pruned) && IndexOf(TokensOf(pruned, e.name), e.value) == |TokensOf(pruned, e.name)|
    ensures var (after, result) := AddPruned(limits, pruned, serial, changed, e.name, e.value, e.stampedAt);
            && (result.Ok? ==> Pairs(after.records) == Pairs(pruned) + {(e.name, e.value)})
            && (result.Err? ==> Pairs(after.records) == Pairs(pruned))
            && (e.name, e.value) !in Pairs(pruned)
  {
    AddOfMissing(limits, pruned, serial, changed, e);
    PushedPairs(pruned, e.name, Token(e.value, e.stampedAt + limits.lifetime));
  }

  lemma {:induction false} OthersKept(limits: Limits, pruned: Records, serial: Serial, changed: bool, e: Event)
    requires e.Added? && WellFormed(pruned)
    ensures var (after, result) := AddPruned(limits, pruned, serial, changed, e.name, e.value, e.stampedAt);
            && ((e.name, e.value) in Pairs(after.records) <==> result.Ok?)
            && forall p | p != (e.name, e.value) :: p in Pairs(after.records) <==> p in Pairs(pruned)
  {
    if IndexOf(TokensOf(pruned, e.name), e.value) < |TokensOf(pruned, e.name)| {
      FoundPairs(limits, pruned, serial, changed, e);
    } else {
      MissingPairs(limits, pruned, serial, changed, e);
    }
  }

  /** An add keeps every other live value, and drops every other value; the added value is stored
      iff the add succeeds. */
  lemma {:induction false} AddEffect(log: seq<Event>, limits: Limits, z: Zone, clock: nat, e: Event)
    requires ValidLimits(limits) && RecordsInv(log, limits, z.records, clock)
    requires e.Added? && clock <= e.prunedAt <= e.stampedAt
    ensures var (after, result) := AddZone(limits, z, e.name, e.value, e.prunedAt, e.stampedAt);
            && ((e.name, e.value) in Pairs(after.records) <==> result.Ok?)
            && forall n, v | (n, v) != (e.name, e.value) ::
                 (n, v) in Pairs(after.records) <==> LiveAt(log, limits.lifetime, n, v, e.prunedAt)
  {
    var pruned := PruneRecords(z.records, e.prunedAt);
    PruneWellFormed(z.records, e.prunedAt);
    PrunedPairsAreLive(log, limits, z.records, clock, e.prunedAt);
    OthersKept(limits, pruned, z.serial, pruned != z.records, e);
  }

  /** A removal keeps every other live value, and nothing else. */
  lemma {:induction false} RemoveEffect(log: seq<Event>, limits: Limits, z: Zone, clock: nat, name: string,
                                        value: string, now: nat)
    requires ValidLimits(limits) && RecordsInv(log, limits, z.records, clock) && clock <= now
    ensures forall n, v :: (n, v) in Pairs(RemoveZone(z, name, value, now).records)
                      <==> LiveAt(log, limits.lifetime, n, v, now) && (n, v) != (name, value)
  {
    var pruned := PruneRecords(z.records, now);
    var rest := RemoveFrom(pruned, name, value);
    PrunedPairsAreLive(log, limits, z.records, clock, now);
    forall n, v
      ensures (n, v) in Pairs(rest) <==> (n, v) in Pairs(pruned) && (n, v) != (name, value)
    {
      StoredValue(rest, n, v);
      StoredValue(pruned, n, v);
      RemovedTokens(pruned, name, value, n);
      WithoutValues(TokensOf(pruned, name), value, v);
    }
  }

  lemma {:induction false} WithoutValues(tokens: seq<Token>, value: string, v: string)
    ensures v in Values(Without(tokens, value)) <==> v in Values(tokens) && v != value
  {
    ValueMembers(Without(tokens, value), v);
    ValueMembers(tokens, v);
    FilterMembers(tokens, (t: Token) => t.value != value);
  }

  // ---- Reads are unobservable ------------------------------------------------------------

  predicate IsRead(op: Op) {
    op.Get? || op.ReadSerial?
  }

  /** The run without its reads. */
  function Writes(ops: seq<Op>): seq<Op> {
    if ops == [] then [] else (if IsRead(ops[0]) then [] else [ops[0]]) + Writes(ops[1..])
  }

  /** What the adds of a run return, in order. */
  ghost function Results(limits: Limits, z: Zone, ops: seq<Op>): seq<Result<(), AddError>>
    decreases ops
  {
    if ops == [] then []
    else AddResults(limits, z, ops[0]) + Results(limits, Step(limits, z, ops[0]), ops[1..])
  }

  ghost function AddResults(limits: Limits, z: Zone, op: Op): seq<Result<(), AddError>> {
    if op.Add? then [AddZone(limits, z, op.name, op.value, op.prunedAt, op.stampedAt).1] else []
  }

  /** Two states that agree with the same log decide a write alike. */
  lemma {:induction false} WriteDecidedAlike(limits: Limits, log: seq<Event>, full: Zone, fullClock: nat,
                                             sparse: Zone, sparseClock: nat, op: Op)
    requires ValidLimits(limits)
    requires RecordsInv(log, limits, full.records, fullClock) && RecordsInv(log, limits, sparse.records, sparseClock)
    requires TimelyOp(op, fullClock) && TimelyOp(op, sparseClock)
    ensures AddResults(limits, full, op) == AddResults(limits, sparse, op)
    ensures Logged(limits, full, op) == Logged(limits, sparse, op)
    ensures LastReading(limits, full, op) == LastReading(limits, sparse, op)
  {
    if op.Add? {
      AdmissionIsEager(log, limits, full, fullClock, op.name, op.value, op.prunedAt, op.stampedAt);
      AdmissionIsEager(log, limits, sparse, sparseClock, op.name, op.value, op.prunedAt, op.stampedAt);
    }
  }

  lemma {:induction false} ReadOnlyPrunes(limits: Limits, log: seq<Event>, z: Zone, clock: nat, op: Op)
    requires ValidLimits(limits) && RecordsInv(log, limits, z.records, clock) && TimelyOp(op, clock) && IsRead(op)
    ensures RecordsInv(log, limits, Step(limits, z, op).records, LastReading(limits, z, op))
    ensures Logged(limits, z, op) == [] && AddResults(limits, z, op) == [] && clock <= LastReading(limits, z, op)
  {
    StepKeepsInv(limits, z, log, clock, op);
    assert log + [] == log;
  }

  /** `sparse` is a state of the run without reads, `full` of the run with them. */
  lemma {:induction false} ErasedReads(limits: Limits, log: seq<Event>, full: Zone, fullClock: nat,
                                       sparse: Zone, sparseClock: nat, ops: seq<Op>, writes: seq<Op>)
    requires ValidLimits(limits) && sparseClock <= fullClock && writes == Writes(ops)
    requires RecordsInv(log, limits, full.records, fullClock) && RecordsInv(log, limits, sparse.records, sparseClock)
    requires Timely(limits, full, ops, fullClock)
    ensures Timely(limits, sparse, writes, sparseClock)
    ensures Log(limits, sparse, writes) == Log(limits, full, ops)
    ensures Results(limits, sparse, writes) == Results(limits, full, ops)
    ensures Clock(limits, sparse, writes, sparseClock) <= Clock(limits, full, ops, fullClock)
    decreases ops
  {
    if ops != [] {
      var op, rest := ops[0], ops[1..];
      if IsRead(op) {
        ReadOnlyPrunes(limits, log, full, fullClock, op);
        assert writes == Writes(rest);
        ErasedReads(limits, log, Step(limits, full, op), LastReading(limits, full, op), sparse, sparseClock,
                    rest, writes);
      } else {
        WriteDecidedAlike(limits, log, full, fullClock, sparse, sparseClock, op);
        StepKeepsInv(limits, full, log, fullClock, op);
        StepKeepsInv(limits, sparse, log, sparseClock, op);
        assert writes[0] == op && writes[1..] == Writes(rest);
        ErasedReads(limits, log + Logged(limits, full, op), Step(limits, full, op), LastReading(limits, full, op),
                    Step(limits, sparse, op), LastReading(limits, sparse, op), rest, Writes(rest));
      }
    }
  }

  /** Erasing all reads from a timely run leaves a timely run with the same log and the same result
      of every add, after which every read of a name returns the same values. Only the serial can
      differ. */
  lemma {:induction false} ReadsAreUnobservable(limits: Limits, serial: Serial, clock: nat, ops: seq<Op>,
                                                name: string, now: nat)
    requires ValidLimits(limits) && Timely(limits, Empty(serial), ops, clock)
    requires Clock(limits, Empty(serial), ops, clock) <= now
    ensures Timely(limits, Empty(serial), Writes(ops), clock)
    ensures Log(limits, Empty(serial), Writes(ops)) == Log(limits, Empty(serial), ops)
    ensures Results(limits, Empty(serial), Writes(ops)) == Results(limits, Empty(serial), ops)
    ensures var full, sparse := Run(limits, Empty(serial), ops), Run(limits, Empty(serial), Writes(ops));
            Values(TokensOf(ReadZone(sparse, now).records, name)) == Values(TokensOf(ReadZone(full, now).records, name))
  {
    EmptyInv(limits, clock);
    ErasedReads(limits, [], Empty(serial), clock, Empty(serial), clock, ops, Writes(ops));
    HistoryRefinement(limits, serial, clock, ops, name, now);
    HistoryRefinement(limits, serial, clock, Writes(ops), name, now);
    LiveListIsUnique(Log(limits, Empty(serial), ops), limits.lifetime, name, now,
                     Values(TokensOf(ReadZone(Run(limits, Empty(serial), Writes(ops)), now).records, name)),
                     Values(TokensOf(ReadZone(Run(limits, Empty(serial), ops), now).records, name)));
  }
}
