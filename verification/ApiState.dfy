/** The mutation API: admission, and the two changes it makes to the store (src/api.rs). */
module ApiStateClass {
  import opened Wrappers
  import opened Configuration
  import opened Bags
  import opened Store
  import opened History
  import opened Runs
  import opened RateGate
  import opened AcmeRecordsClass
  import opened Api
  import opened Service

  class ApiState {
    const config: Config
    const acme: AcmeRecords
    const gate: TokenBucket

    constructor (config: Config, acme: AcmeRecords, now: real)
      ensures this.config == config && this.acme == acme && fresh(gate)
      ensures gate.Limits() == Gate(REQUEST_RATE_PER_SECOND, RouterBurst(config.maxTokens) as real)
      ensures gate.State() == Bucket(RouterBurst(config.maxTokens) as real, now)
    {
      this.config := config;
      this.acme := acme;
      this.gate := new TokenBucket(REQUEST_RATE_PER_SECOND, RouterBurst(config.maxTokens), now);
    }

    /** Unauthorized requests do not touch the gate; `permit` is the outcome of the concurrency limit. */
    method AuthorizeAndAdmit(authorized: bool, permit: bool, now: real) returns (r: Result<(), ApiError>)
      modifies gate
      ensures !authorized ==> r == Err(Unauthorized) && gate.State() == old(gate.State())
      ensures authorized ==>
                var admitted := Admits(gate.Limits(), old(gate.State()), now);
                && gate.State() == Decide(gate.Limits(), old(gate.State()), now, admitted)
                && r == (if !admitted then Err(RateLimited) else if permit then Ok(()) else Err(Busy))
    {
      if !authorized {
        return Err(Unauthorized);
      }
      var admitted := gate.CheckRate(now);
      if !admitted {
        return Err(RateLimited);
      }
      if !permit {
        return Err(Busy);
      }
      return Ok(());
    }

    /** An acceptable request is added, under the challenge name and as it was given. What is live is
        decided by the log alone, and every other live value is kept. */
    method Present(fqdn: string, value: string, now: nat, stampedAt: nat) returns (r: Result<(), ApiError>)
      requires config.Parsed() && acme.Valid() && acme.clock <= now <= stampedAt
      modifies acme
      ensures acme.Valid()
      ensures r == Err(NotAcmeName) <==> !SpellsChallenge(config, fqdn)
      ensures r == Err(EmptyToken) <==> SpellsChallenge(config, fqdn) && |value| == 0
      ensures r == Err(TokenTooLong) <==> SpellsChallenge(config, fqdn) && |value| > 255
      ensures !Acceptable(config, fqdn, value) ==> acme.State() == old(acme.State()) && acme.log == old(acme.log)
      ensures Acceptable(config, fqdn, value) ==>
                var name, live := "_acme-challenge." + config.domain, LiveSet(old(acme.log), acme.limits.lifetime, now);
                && (r == Err(TokensExhausted) <==> (name, value) !in live && |live| >= acme.limits.maxTokens)
                && (r == Err(WireExhausted) <==>
                      && (name, value) !in live && |live| < acme.limits.maxTokens
                      && !BagFits(acme.limits.fits, BagOf(live) + multiset{value}))
                && (r.Ok? || r == Err(TokensExhausted) || r == Err(WireExhausted))
                && acme.log == old(acme.log) + (if r.Ok? then [Added(name, value, now, stampedAt)] else [])
                && ((name, value) in Pairs(acme.records) <==> r.Ok?)
                && forall n, v | (n, v) != (name, value) ::
                     (n, v) in Pairs(acme.records) <==> LiveAt(old(acme.log), acme.limits.lifetime, n, v, now)
      ensures var ops := StoreOps(config, Call.Present(fqdn, value, true, now, stampedAt));
              && acme.State() == Run(acme.limits, old(acme.State()), ops)
              && acme.log == old(acme.log) + Log(acme.limits, old(acme.State()), ops)
              && acme.clock == Clock(acme.limits, old(acme.State()), ops, old(acme.clock))
    {
      ValidatedIff(config, fqdn, value);
      var valid := ValidateRequest(config, fqdn, value);
      if valid.Err? {
        return Err(valid.error);
      }
      OneOp(acme.limits, acme.State(), Add(valid.value, value, now, stampedAt), acme.clock);
      AddEffect(acme.log, acme.limits, acme.State(), acme.clock, Added(valid.value, value, now, stampedAt));
      var added := acme.Add(valid.value, value, now, stampedAt);
      match added
      case Ok(_) => r := Ok(());
      case Err(TokenLimitReached) => r := Err(TokensExhausted);
      case Err(DnsWireCapacityReached) => r := Err(WireExhausted);
    }

    /** An acceptable request always succeeds, and removes the value and no other live one. */
    method Cleanup(fqdn: string, value: string, now: nat) returns (r: Result<(), ApiError>)
      requires config.Parsed() && acme.Valid() && acme.clock <= now
      modifies acme
      ensures acme.Valid()
      ensures r == Err(NotAcmeName) <==> !SpellsChallenge(config, fqdn)
      ensures r == Err(EmptyToken) <==> SpellsChallenge(config, fqdn) && |value| == 0
      ensures r == Err(TokenTooLong) <==> SpellsChallenge(config, fqdn) && |value| > 255
      ensures !Acceptable(config, fqdn, value) ==> acme.State() == old(acme.State()) && acme.log == old(acme.log)
      ensures Acceptable(config, fqdn, value) ==>
                var name := "_acme-challenge." + config.domain;
                && r == Ok(())
                && acme.log == old(acme.log) + [Removed(name, value)]
                && (name, value) !in Pairs(acme.records)
                && forall n, v | (n, v) != (name, value) ::
                     (n, v) in Pairs(acme.records) <==> LiveAt(old(acme.log), acme.limits.lifetime, n, v, now)
      ensures var ops := StoreOps(config, Call.Cleanup(fqdn, value, true, now));
              && acme.State() == Run(acme.limits, old(acme.State()), ops)
              && acme.log == old(acme.log) + Log(acme.limits, old(acme.State()), ops)
              && acme.clock == Clock(acme.limits, old(acme.State()), ops, old(acme.clock))
    {
      ValidatedIff(config, fqdn, value);
      var valid := ValidateRequest(config, fqdn, value);
      if valid.Err? {
        return Err(valid.error);
      }
      OneOp(acme.limits, acme.State(), Runs.Remove(valid.value, value, now), acme.clock);
      RemoveEffect(acme.log, acme.limits, acme.State(), acme.clock, valid.value, value, now);
      acme.Remove(valid.value, value, now);
      return Ok(());
    }
  }
}
