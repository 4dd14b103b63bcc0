/** The life of a presented token, as the clients of the challenge name see it. */
module Lifecycle {
  import opened Wrappers
  import opened Messages
  import opened Encoder
  import opened Configuration
  import opened Store
  import opened History
  import opened Runs
  import opened Responder
  import opened Delivery
  import opened Api
  import opened Service
  import opened SpellingRuns

  ghost predicate NeverCleansUp(config: Config, calls: seq<Call>, value: string) {
    forall call | call in calls && call.Cleanup? && call.admitted && call.value == value ::
      !Acceptable(config, call.fqdn, value)
  }

  ghost predicate NeverPresents(config: Config, calls: seq<Call>, value: string) {
    forall call | call in calls && call.Present? && call.admitted && call.value == value ::
      !Acceptable(config, call.fqdn, value)
  }

  lemma {:induction false} NoCleanupNoRemove(config: Config, calls: seq<Call>, value: string)
    requires config.Parsed() && NeverCleansUp(config, calls, value)
    ensures NeverRemoves(StoreRun(config, calls), config.AcmeName(), value)
  {
    if calls != [] {
      assert calls[0] in calls && forall c | c in calls[1..] :: c in calls;
      NoCleanupNoRemove(config, calls[1..], value);
      if calls[0].Cleanup? {
        ValidatedIff(config, calls[0].fqdn, calls[0].value);
      }
    }
  }

  lemma {:induction false} NoPresentNoAdd(config: Config, calls: seq<Call>, value: string)
    requires config.Parsed() && NeverPresents(config, calls, value)
    ensures NeverAdds(StoreRun(config, calls), config.AcmeName(), value)
  {
    if calls != [] {
      assert calls[0] in calls && forall c | c in calls[1..] :: c in calls;
      NoPresentNoAdd(config, calls[1..], value);
      if calls[0].Present? {
        ValidatedIff(config, calls[0].fqdn, calls[0].value);
      }
    }
  }

  lemma {:induction false} StoreRunConcat(config: Config, a: seq<Call>, b: seq<Call>)
    ensures StoreRun(config, a + b) == StoreRun(config, a) + StoreRun(config, b)
  {
    if a == [] {
      assert a + b == b;
    } else {
      assert (a + b)[1..] == a[1..] + b;
      StoreRunConcat(config, a[1..], b);
    }
  }

  /** The operations of a run around one call that is one operation. */
  lemma {:induction false} RunAround(config: Config, before: seq<Call>, call: Call, after: seq<Call>, op: Op)
    requires StoreOps(config, call) == [op]
    ensures StoreRun(config, before + [call] + after) == StoreRun(config, before) + ([op] + StoreRun(config, after))
  {
    assert before + [call] + after == before + ([call] + after);
    StoreRunConcat(config, before, [call] + after);
    assert ([call] + after)[1..] == after;
  }

  /** An admitted, acceptable presentation is an add under the challenge name. */
  lemma {:induction false} PresentIsAdd(config: Config, call: Call)
    requires config.Parsed() && call.Present? && call.admitted && Acceptable(config, call.fqdn, call.value)
    ensures StoreOps(config, call) == [Add(config.AcmeName(), call.value, call.prunedAt, call.stampedAt)]
  {
    AcmeNameIs(config);
    ValidatedIff(config, call.fqdn, call.value);
  }

  lemma {:induction false} CleanupIsRemove(config: Config, call: Call)
    requires config.Parsed() && call.Cleanup? && call.admitted && Acceptable(config, call.fqdn, call.value)
    ensures StoreOps(config, call) == [Remove(config.AcmeName(), call.value, call.at)]
  {
    AcmeNameIs(config);
    ValidatedIff(config, call.fqdn, call.value);
  }

  /** A run of the service whose clock readings never go back, none of them after `now`. */
  ghost predicate TimelyRun(config: Config, mode: Compression, serial: Serial, clock: nat, calls: seq<Call>, now: nat) {
    var limits, ops := ServiceLimits(config, mode), StoreRun(config, calls);
    Timely(limits, Empty(serial), ops, clock) && Clock(limits, Empty(serial), ops, clock) <= now
  }

  ghost function StateAfter(config: Config, mode: Compression, serial: Serial, calls: seq<Call>): Zone {
    Run(ServiceLimits(config, mode), Empty(serial), StoreRun(config, calls))
  }

  ghost function LogAfter(config: Config, mode: Compression, serial: Serial, calls: seq<Call>): seq<Event> {
    Log(ServiceLimits(config, mode), Empty(serial), StoreRun(config, calls))
  }

  predicate Holds(sent: Option<Wire>, value: string) {
    sent.Some? && exists r :: r in sent.value.content.answers && r.data == Txt([value])
  }

  // ---- Served ----------------------------------------------------------------------------

  lemma {:induction false} AddIsServed(limits: Limits, serial: Serial, clock: nat, before: seq<Op>, op: Op,
                                       after: seq<Op>, now: nat)
    requires ValidLimits(limits) && op.Add? && NeverRemoves(after, op.name, op.value)
    requires Timely(limits, Empty(serial), before + ([op] + after), clock)
    requires Clock(limits, Empty(serial), before + ([op] + after), clock) <= now < op.stampedAt + limits.lifetime
    requires EagerAdmission(Log(limits, Empty(serial), before), limits, op.name, op.value, op.prunedAt) == Ok(())
    ensures var z := Run(limits, Empty(serial), before + ([op] + after));
            op.value in Values(TokensOf(ReadZone(z, now).records, op.name))
  {
    var start, at := Run(limits, Empty(serial), before), Clock(limits, Empty(serial), before, clock);
    var log := Log(limits, Empty(serial), before);
    SplitRun(limits, Empty(serial), before, [op] + after, clock);
    FirstOp(limits, start, op, after, at);
    ReachableInv(limits, serial, clock, before);
    AdmissionIsEager(log, limits, start, at, op.name, op.value, op.prunedAt, op.stampedAt);
    AddedValueIsServed(limits, start, log, at, op, after, now);
  }

  lemma {:induction false} HeldIsSent(config: Config, request: Message, sent: Option<Wire>, values: seq<string>,
                                      serial: nat, value: string)
    requires sent.Some? && FullAnswer(config, request, sent.value.content, values, serial) && value in values
    ensures Holds(sent, value)
  {
    var i :| 0 <= i < |values| && values[i] == value;
    assert sent.value.content.answers[i] in sent.value.content.answers;
  }

  /** A token that was presented and admitted is in the answer to every challenge request within its
      lifetime, in any spelling that cannot overrun, until it is cleaned up, whatever else the service
      is asked to do meanwhile. */
  lemma {:induction false} PresentedTokenIsServed(config: Config, mode: Compression, serial: Serial, clock: nat,
                                                  before: seq<Call>, present: Call, after: seq<Call>,
                                                  request: Message, now: nat)
    requires config.Parsed() && config.NamesAccepted() && AcmeRequest(config, request)
    requires !MayOverrun(config, mode, request)
    requires present.Present? && present.admitted && Acceptable(config, present.fqdn, present.value)
    requires EagerAdmission(LogAfter(config, mode, serial, before), ServiceLimits(config, mode),
                            "_acme-challenge." + config.domain, present.value, present.prunedAt) == Ok(())
    requires NeverCleansUp(config, after, present.value)
    requires TimelyRun(config, mode, serial, clock, before + [present] + after, now)
    requires now < present.stampedAt + config.tokenLifetime
    ensures var sent := Answer(config, mode, StateAfter(config, mode, serial, before + [present] + after),
                               request, now);
            Holds(sent, present.value) && sent.value.content.rcode == NoError && !sent.value.content.truncated
  {
    var limits, calls := ServiceLimits(config, mode), before + [present] + after;
    var op := Add(config.AcmeName(), present.value, present.prunedAt, present.stampedAt);
    AcmeNameIs(config);
    PresentIsAdd(config, present);
    RunAround(config, before, present, after, op);
    NoCleanupNoRemove(config, after, present.value);
    ServiceLimitsAreValid(config, mode);
    AddIsServed(limits, serial, clock, StoreRun(config, before), op, StoreRun(config, after), now);
    EverySpellingIsServed(config, mode, serial, clock, calls, request, now);
    var z := StateAfter(config, mode, serial, calls);
    HeldIsSent(config, request, Answer(config, mode, z, request, now),
               Values(TokensOf(ReadZone(z, now).records, config.AcmeName())), ReadZone(z, now).serial, present.value);
  }

  // ---- Gone ------------------------------------------------------------------------------

  lemma {:induction false} AbsentIsNotSent(config: Config, mode: Compression, request: Message, values: seq<string>,
                                           serial: nat, value: string)
    requires config.Parsed() && config.NamesAccepted() && AcmeRequest(config, request) && value !in values
    ensures var reply := Reply(config, request, values, serial);
            !Holds(CompleteOrServfail(mode, request, reply), value) && !Holds(UdpReply(mode, request, reply), value)
  {
    var reply := Reply(config, request, values, serial);
    AcmeRequestReachesZone(config, request);
    AcmeReplyIsFull(config, request, values, serial);
    AllOrNothing(config, mode, request, values, serial);
    UdpAllOrNothing(config, mode, request, values, serial);
    forall r | r in reply.answers
      ensures r.data != Txt([value])
    {
      var i :| 0 <= i < |values| && reply.answers[i] == r;
      assert [values[i]][0] != value;
    }
  }

  /** A value that the log does not call live is in no reply, over TCP or UDP. */
  lemma {:induction false} DeadIsNotSent(config: Config, mode: Compression, serial: Serial, clock: nat,
                                         calls: seq<Call>, value: string, request: Message, now: nat)
    requires config.Parsed() && config.NamesAccepted() && AcmeRequest(config, request)
    requires TimelyRun(config, mode, serial, clock, calls, now)
    requires !LiveAt(LogAfter(config, mode, serial, calls), config.tokenLifetime, config.AcmeName(), value, now)
    ensures var z := StateAfter(config, mode, serial, calls);
            && !Holds(Answer(config, mode, z, request, now), value)
            && !Holds(UdpAnswer(config, mode, z, request, now), value)
  {
    var limits, ops := ServiceLimits(config, mode), StoreRun(config, calls);
    var z := StateAfter(config, mode, serial, calls);
    ServiceLimitsAreValid(config, mode);
    HistoryRefinement(limits, serial, clock, ops, config.AcmeName(), now);
    var read := ReadZone(z, now);
    AbsentIsNotSent(config, mode, request, Values(TokensOf(read.records, config.AcmeName())), read.serial, value);
  }

  lemma {:induction false} Regroup(a: seq<Event>, b: seq<Event>, c: seq<Event>)
    ensures a + (b + c) == a + b + c
  {
  }

  lemma {:induction false} LogAround(limits: Limits, z: Zone, before: seq<Op>, op: Op, after: seq<Op>, start: Zone,
                                     next: Zone)
    requires start == Run(limits, z, before) && next == Step(limits, start, op)
    ensures Log(limits, z, before + ([op] + after))
         == Log(limits, z, before) + Logged(limits, start, op) + Log(limits, next, after)
  {
    SplitRun(limits, z, before, [op] + after, 0);
    FirstOp(limits, start, op, after, 0);
    Regroup(Log(limits, z, before), Logged(limits, start, op), Log(limits, next, after));
  }

  /** Without another add, a value that one operation left dead by `now` is still dead. */
  lemma {:induction false} StaysDead(limits: Limits, serial: Serial, before: seq<Op>, op: Op, after: seq<Op>,
                                     name: string, value: string, now: nat)
    requires NeverAdds(after, name, value)
    requires var start := Run(limits, Empty(serial), before);
             !LiveAt(Log(limits, Empty(serial), before) + Logged(limits, start, op), limits.lifetime, name, value, now)
    ensures !LiveAt(Log(limits, Empty(serial), before + ([op] + after)), limits.lifetime, name, value, now)
  {
    var start := Run(limits, Empty(serial), before);
    var log := Log(limits, Empty(serial), before) + Logged(limits, start, op);
    LogAround(limits, Empty(serial), before, op, after, start, Step(limits, start, op));
    StampNotRenewed(limits, Step(limits, start, op), log, after, name, value);
  }

  /** After an admitted, acceptable cleanup the value is in no challenge reply, until it is presented
      again. */
  lemma {:induction false} CleanedUpTokenIsGone(config: Config, mode: Compression, serial: Serial, clock: nat,
                                                before: seq<Call>, cleanup: Call, after: seq<Call>,
                                                request: Message, now: nat)
    requires config.Parsed() && config.NamesAccepted() && AcmeRequest(config, request)
    requires cleanup.Cleanup? && cleanup.admitted && Acceptable(config, cleanup.fqdn, cleanup.value)
    requires NeverPresents(config, after, cleanup.value)
    requires TimelyRun(config, mode, serial, clock, before + [cleanup] + after, now)
    ensures var z := StateAfter(config, mode, serial, before + [cleanup] + after);
            && !Holds(Answer(config, mode, z, request, now), cleanup.value)
            && !Holds(UdpAnswer(config, mode, z, request, now), cleanup.value)
  {
    var limits, name, value := ServiceLimits(config, mode), config.AcmeName(), cleanup.value;
    var op := Remove(name, value, cleanup.at);
    CleanupIsRemove(config, cleanup);
    RunAround(config, before, cleanup, after, op);
    NoPresentNoAdd(config, after, value);
    StampAfter(LogAfter(config, mode, serial, before), Removed(name, value), name, value);
    StaysDead(limits, serial, StoreRun(config, before), op, StoreRun(config, after), name, value, now);
    DeadIsNotSent(config, mode, serial, clock, before + [cleanup] + after, value, request, now);
  }

  lemma {:induction false} AddExpires(limits: Limits, serial: Serial, clock: nat, before: seq<Op>, op: Op, now: nat)
    requires ValidLimits(limits) && op.Add?
    requires Timely(limits, Empty(serial), before, clock)
    requires TimelyOp(op, Clock(limits, Empty(serial), before, clock)) && op.stampedAt + limits.lifetime <= now
    ensures var start := Run(limits, Empty(serial), before);
            !LiveAt(Log(limits, Empty(serial), before) + Logged(limits, start, op), limits.lifetime,
                    op.name, op.value, now)
  {
    var start, log := Run(limits, Empty(serial), before), Log(limits, Empty(serial), before);
    var at := Clock(limits, Empty(serial), before, clock);
    ReachableInv(limits, serial, clock, before);
    if Succeeds(limits, start, op) {
      StampAfter(log, Added(op.name, op.value, op.prunedAt, op.stampedAt), op.name, op.value);
    } else {
      assert log + [] == log;
      AdmissionIsEager(log, limits, start, at, op.name, op.value, op.prunedAt, op.stampedAt);
      PrunedPairsAreLive(log, limits, start.records, at, op.prunedAt);
    }
  }

  /** From the end of its lifetime on, a token is in no challenge reply, until it is presented again. */
  lemma {:induction false} ExpiredTokenIsGone(config: Config, mode: Compression, serial: Serial, clock: nat,
                                              before: seq<Call>, present: Call, after: seq<Call>,
                                              request: Message, now: nat)
    requires config.Parsed() && config.NamesAccepted() && AcmeRequest(config, request)
    requires present.Present? && present.admitted && Acceptable(config, present.fqdn, present.value)
    requires NeverPresents(config, after, present.value)
    requires TimelyRun(config, mode, serial, clock, before + [present] + after, now)
    requires present.stampedAt + config.tokenLifetime <= now
    ensures var z := StateAfter(config, mode, serial, before + [present] + after);
            && !Holds(Answer(config, mode, z, request, now), present.value)
            && !Holds(UdpAnswer(config, mode, z, request, now), present.value)
  {
    var limits, name, value := ServiceLimits(config, mode), config.AcmeName(), present.value;
    var op := Add(name, value, present.prunedAt, present.stampedAt);
    var start := Run(limits, Empty(serial), StoreRun(config, before));
    ServiceLimitsAreValid(config, mode);
    PresentIsAdd(config, present);
    RunAround(config, before, present, after, op);
    NoPresentNoAdd(config, after, value);
    SplitRun(limits, Empty(serial), StoreRun(config, before), [op] + StoreRun(config, after), clock);
    FirstOp(limits, start, op, StoreRun(config, after), Clock(limits, Empty(serial), StoreRun(config, before), clock));
    AddExpires(limits, serial, clock, StoreRun(config, before), op, now);
    StaysDead(limits, serial, StoreRun(config, before), op, StoreRun(config, after), name, value, now);
    DeadIsNotSent(config, mode, serial, clock, before + [present] + after, value, request, now);
  }
}
