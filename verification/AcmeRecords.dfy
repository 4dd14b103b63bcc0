/** The shared challenge records, updated in place under one lock (src/state.rs). */
module AcmeRecordsClass {
  import opened Wrappers
  import opened Bags
  import opened Store
  import opened History
  import opened Runs

  class AcmeRecords {
    var records: Records
    var serial: Serial
    const limits: Limits

    /** The successful changes so far, and the latest clock reading. */
    ghost var log: seq<Event>
    ghost var clock: nat

    ghost predicate Valid()
      reads this
    {
      ValidLimits(limits) && RecordsInv(log, limits, records, clock)
    }

    ghost function State(): Zone
      reads this
    {
      Zone(records, serial)
    }

    constructor WithSerial(limits: Limits, serial: Serial)
      requires ValidLimits(limits)
      ensures Valid() && this.limits == limits && State() == Empty(serial) && log == [] && clock == 0
    {
      this.limits := limits;
      this.records := map[];
      this.serial := serial;
      this.log := [];
      this.clock := 0;
      EmptyInv(limits, 0);
    }

    /** The number of stored tokens, whatever the order in which the map is walked. */
    method TokenCount() returns (count: nat)
      requires WellFormed(records)
      ensures count == |Pairs(records)|
    {
      var names := records.Keys;
      count := 0;
      assert records - names == map[] && Pairs(map[]) == {};
      while names != {}
        invariant names <= records.Keys
        invariant count == |Pairs(records - names)|
        decreases names
      {
        var name :| name in names;
        OneMoreName(records, names, name);
        PairsOfCardinality(name, records[name]);
        count := count + |records[name]|;
        names := names - {name};
      }
      assert records - {} == records;
    }

    /** Every stored value, in the order in which the map happens to be walked. */
    method AllValues() returns (values: seq<string>)
      requires WellFormed(records)
      ensures multiset(values) == BagOf(Pairs(records))
    {
      var names := records.Keys;
      values := [];
      assert records - names == map[] && Pairs(map[]) == {};
      while names != {}
        invariant names <= records.Keys
        invariant multiset(values) == BagOf(Pairs(records - names))
        decreases names
      {
        var name :| name in names;
        var tokens := records[name];
        OneMoreName(records, names, name);
        values := AppendValues(values, tokens, name, Pairs(records - names));
        names := names - {name};
      }
      assert records - {} == records;
    }

    /** Drops expired tokens and empty names; reports whether anything was dropped. */
    method Prune(now: nat) returns (changed: bool)
      requires WellFormed(records)
      modifies this`records
      ensures records == PruneRecords(old(records), now)
      ensures changed == (records != old(records))
    {
      ghost var before := records;
      var oldCount := TokenCount();
      var names := records.Keys;
      PartlyPrunedEnds(before, now);
      while names != {}
        invariant names <= before.Keys
        invariant records == PartlyPruned(before, now, names)
        decreases names
      {
        var name :| name in names;
        var kept := Alive(records[name], now);
        PruneOneName(before, now, names, name);
        records := if kept == [] then records - {name} else records[name := kept];
        names := names - {name};
      }
      PruneWellFormed(before, now);
      PruneChangesCount(before, now);
      var newCount := TokenCount();
      changed := newCount != oldCount;
    }

    /** Adds or refreshes a value. `now` is read to prune, `stampedAt` to stamp the token. */
    method Add(name: string, value: string, now: nat, stampedAt: nat) returns (r: Result<(), AddError>)
      requires Valid() && clock <= now <= stampedAt
      modifies this
      ensures Valid()
      ensures (State(), r) == AddZone(limits, old(State()), name, value, now, stampedAt)
      ensures r == EagerAdmission(old(log), limits, name, value, now)
      ensures log == old(log) + (if r.Ok? then [Added(name, value, now, stampedAt)] else [])
      ensures clock == if r.Ok? then stampedAt else now
    {
      AddFollowsLog(log, limits, State(), clock, Added(name, value, now, stampedAt));
      r := AddToRecords(name, value, now, stampedAt);
      log := log + if r.Ok? then [Added(name, value, now, stampedAt)] else [];
      clock := if r.Ok? then stampedAt else now;
    }

    method AddToRecords(name: string, value: string, now: nat, stampedAt: nat) returns (r: Result<(), AddError>)
      requires ValidLimits(limits) && WellFormed(records)
      modifies this`records, this`serial
      ensures (State(), r) == AddZone(limits, old(State()), name, value, now, stampedAt)
    {
      PruneWellFormed(records, now);
      var changed := Prune(now);
      r := AddAfterPrune(name, value, changed, stampedAt);
    }

    method AddAfterPrune(name: string, value: string, changed: bool, stampedAt: nat) returns (r: Result<(), AddError>)
      requires ValidLimits(limits) && WellFormed(records)
      modifies this`records, this`serial
      ensures (State(), r) == AddPruned(limits, old(records), old(serial), changed, name, value, stampedAt)
    {
      var tokens := if name in records then records[name] else [];
      var at := 0;
      while at < |tokens| && tokens[at].value != value
        invariant at <= |tokens|
        invariant forall k | 0 <= k < at :: tokens[k].value != value
      {
        at := at + 1;
      }
      assert at == IndexOf(tokens, value);
      if at < |tokens| {
        records := records[name := tokens[at := Token(value, stampedAt + limits.lifetime)]];
        if changed {
          serial := Advance(serial);
        }
        return Ok(());
      }
      var tokenCount := TokenCount();
      if tokenCount >= limits.maxTokens {
        if changed {
          serial := Advance(serial);
        }
        return Err(TokenLimitReached);
      }
      var prospective := AllValues();
      prospective := prospective + [value];
      AnyOrderFits(limits.fits, prospective);
      if !limits.fits(prospective) {
        if changed {
          serial := Advance(serial);
        }
        return Err(DnsWireCapacityReached);
      }
      records := records[name := tokens + [Token(value, stampedAt + limits.lifetime)]];
      serial := Advance(serial);
      return Ok(());
    }

    method Remove(name: string, value: string, now: nat)
      requires Valid() && clock <= now
      modifies this
      ensures Valid()
      ensures State() == RemoveZone(old(State()), name, value, now)
      ensures log == old(log) + [Removed(name, value)] && clock == now
    {
      PruneKeepsInv(log, limits, records, clock, now);
      RemoveKeepsInv(log, limits, PruneRecords(records, now), Removed(name, value), now);
      RemoveFromZone(name, value, now);
      log := log + [Removed(name, value)];
      clock := now;
    }

    method RemoveFromZone(name: string, value: string, now: nat)
      requires WellFormed(records)
      modifies this`records, this`serial
      ensures State() == RemoveZone(old(State()), name, value, now)
    {
      PruneWellFormed(records, now);
      var changed := Prune(now);
      if name in records {
        var oldLen := |records[name]|;
        var rest := Without(records[name], value);
        WithoutSameLength(records[name], value);
        changed := changed || |rest| != oldLen;
        records := if rest == [] then records - {name} else records[name := rest];
      }
      if changed {
        serial := Advance(serial);
      }
    }

    /** The live values of a name, and the serial of the version of the zone that holds them. */
    method GetWithSerial(name: string, now: nat) returns (values: seq<string>, version: Serial)
      requires Valid() && clock <= now
      modifies this
      ensures Valid()
      ensures State() == ReadZone(old(State()), now) && log == old(log) && clock == now
      ensures values == Values(TokensOf(records, name)) && version == serial
      ensures IsLiveList(log, limits.lifetime, name, now, values)
    {
      PruneKeepsInv(log, limits, records, clock, now);
      ReadIsLiveList(log, limits, records, clock, name, now);
      var changed := Prune(now);
      if changed {
        serial := Advance(serial);
      }
      clock := now;
      values := Values(TokensOf(records, name));
      version := serial;
    }

    method CurrentSerial(now: nat) returns (version: Serial)
      requires Valid() && clock <= now
      modifies this
      ensures Valid()
      ensures State() == ReadZone(old(State()), now) && log == old(log) && clock == now
      ensures version == serial
    {
      PruneKeepsInv(log, limits, records, clock, now);
      var changed := Prune(now);
      if changed {
        serial := Advance(serial);
      }
      clock := now;
      version := serial;
    }
  }

  method AppendValues(values: seq<string>, tokens: seq<Token>, ghost name: string, ghost done: set<(string, string)>)
    returns (all: seq<string>)
    requires Distinct(tokens) && multiset(values) == BagOf(done) && done !! PairsOf(name, tokens)
    ensures multiset(all) == BagOf(done + PairsOf(name, tokens))
  {
    all := values;
    assert done + PairsOf(name, []) == done;
    for i := 0 to |tokens|
      invariant multiset(all) == BagOf(done + PairsOf(name, tokens[..i]))
    {
      BagWithNextToken(name, tokens, i, done);
      all := all + [tokens[i].value];
    }
    assert tokens[..|tokens|] == tokens;
  }

  // ---- Walking the map -------------------------------------------------------------------

  lemma {:induction false} OneMoreName(records: Records, names: set<string>, name: string)
    requires name in names && names <= records.Keys
    ensures Pairs(records - (names - {name})) == Pairs(records - names) + PairsOf(name, records[name])
    ensures Pairs(records - names) !! PairsOf(name, records[name])
    ensures |Pairs(records - (names - {name}))| == |Pairs(records - names)| + |PairsOf(name, records[name])|
  {
    var less, more := records - names, records - (names - {name});
    forall p | p in Pairs(more)
      ensures p in Pairs(less) || p in PairsOf(name, records[name])
    {
      var m, i :| m in more && 0 <= i < |more[m]| && p == (m, more[m][i].value);
      if m != name {
        assert m in less && less[m][i].value == p.1;
      } else {
        assert records[name][i].value == p.1;
      }
    }
    forall p | p in Pairs(less) || p in PairsOf(name, records[name])
      ensures p in Pairs(more)
    {
      if p in Pairs(less) {
        var m, i :| m in less && 0 <= i < |less[m]| && p == (m, less[m][i].value);
        assert m in more && more[m][i].value == p.1;
      } else {
        var i :| 0 <= i < |records[name]| && p == (name, records[name][i].value);
        assert more[name][i].value == p.1;
      }
    }
  }

  lemma {:induction false} PairsOfCardinality(name: string, tokens: seq<Token>)
    requires Distinct(tokens)
    ensures |PairsOf(name, tokens)| == |tokens|
    decreases |tokens|
  {
    if tokens != [] {
      var n := |tokens| - 1;
      OneMorePair(name, tokens, n);
      assert tokens[..n + 1] == tokens;
      PairsOfCardinality(name, tokens[..n]);
    } else {
      assert PairsOf(name, tokens) == {};
    }
  }

  /** The records while some names are still to be pruned. */
  ghost function PartlyPruned(records: Records, now: nat, todo: set<string>): Records {
    map name | name in records && (name in todo || Alive(records[name], now) != []) ::
      if name in todo then records[name] else Alive(records[name], now)
  }

  lemma {:induction false} PartlyPrunedEnds(records: Records, now: nat)
    ensures PartlyPruned(records, now, records.Keys) == records
    ensures PartlyPruned(records, now, {}) == PruneRecords(records, now)
  {
  }

  lemma {:induction false} PruneOneName(records: Records, now: nat, todo: set<string>, name: string)
    requires name in todo && todo <= records.Keys
    ensures var partly, kept := PartlyPruned(records, now, todo), Alive(records[name], now);
            PartlyPruned(records, now, todo - {name}) == if kept == [] then partly - {name} else partly[name := kept]
  {
  }

  lemma {:induction false} BagWithNextToken(name: string, tokens: seq<Token>, i: nat, done: set<(string, string)>)
    requires i < |tokens| && Distinct(tokens) && done !! PairsOf(name, tokens)
    ensures BagOf(done + PairsOf(name, tokens[..i + 1]))
         == BagOf(done + PairsOf(name, tokens[..i])) + multiset{tokens[i].value}
  {
    OneMorePair(name, tokens, i);
    var p := (name, tokens[i].value);
    assert p in PairsOf(name, tokens);
    assert done + PairsOf(name, tokens[..i + 1]) == done + PairsOf(name, tokens[..i]) + {p};
    BagWith(done + PairsOf(name, tokens[..i]), p);
  }
}
