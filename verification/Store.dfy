/** The challenge store on values: what each locked operation does to records and serial
    (src/state.rs). The class in AcmeRecords.dfy runs these steps in place. */
module Store {
  import opened Wrappers
  import opened Bags

  const TWO_32: nat := 0x1_0000_0000

  type Serial = n: nat | n < TWO_32

  datatype Token = Token(value: string, expiresAt: nat)

  type Records = map<string, seq<Token>>

  datatype Zone = Zone(records: Records, serial: Serial)

  datatype AddError = TokenLimitReached | DnsWireCapacityReached

  /** Lifetime of a token, most tokens, and the test that decides whether a list of values fits a reply. */
  datatype Limits = Limits(lifetime: nat, maxTokens: nat, fits: seq<string> -> bool)

  /** The next serial, modulo 2^32. */
  function Advance(serial: Serial): Serial {
    if serial == TWO_32 - 1 then 0 else serial + 1
  }

  function AdvanceIf(serial: Serial, changed: bool): Serial {
    if changed then Advance(serial) else serial
  }

  // ---- Lists of tokens -------------------------------------------------------------------

  function Filter(tokens: seq<Token>, keep: Token -> bool): seq<Token> {
    if tokens == [] then []
    else (if keep(tokens[0]) then [tokens[0]] else []) + Filter(tokens[1..], keep)
  }

  function Alive(tokens: seq<Token>, now: nat): seq<Token> {
    Filter(tokens, (t: Token) => t.expiresAt > now)
  }

  function Without(tokens: seq<Token>, value: string): seq<Token> {
    Filter(tokens, (t: Token) => t.value != value)
  }

  function Values(tokens: seq<Token>): seq<string> {
    seq(|tokens|, i requires 0 <= i < |tokens| => tokens[i].value)
  }

  /** The position of the first token with this value, or the length of the list. */
  function IndexOf(tokens: seq<Token>, value: string): (i: nat)
    ensures i <= |tokens|
    ensures i < |tokens| ==> tokens[i].value == value
    ensures forall k | 0 <= k < i :: tokens[k].value != value
  {
    if tokens == [] then 0
    else if tokens[0].value == value then 0
    else 1 + IndexOf(tokens[1..], value)
  }

  predicate Distinct(tokens: seq<Token>) {
    forall i, j | 0 <= i < j < |tokens| :: tokens[i].value != tokens[j].value
  }

  // ---- Records ---------------------------------------------------------------------------

  function TokensOf(records: Records, name: string): seq<Token> {
    if name in records then records[name] else []
  }

  /** Drops expired tokens, and names that are left without any. */
  function PruneRecords(records: Records, now: nat): Records {
    map name | name in records && Alive(records[name], now) != [] :: Alive(records[name], now)
  }

  function RemoveFrom(records: Records, name: string, value: string): Records {
    if name !in records then records
    else
      var rest := Without(records[name], value);
      if rest == [] then records - {name} else records[name := rest]
  }

  function Push(records: Records, name: string, token: Token): Records {
    records[name := TokensOf(records, name) + [token]]
  }

  function Refresh(records: Records, name: string, value: string, expiresAt: nat): Records
    requires IndexOf(TokensOf(records, name), value) < |TokensOf(records, name)|
  {
    var tokens := TokensOf(records, name);
    records[name := tokens[IndexOf(tokens, value) := Token(value, expiresAt)]]
  }

  /** No name without tokens, no value twice under one name. */
  ghost predicate WellFormed(records: Records) {
    forall name | name in records :: records[name] != [] && Distinct(records[name])
  }

  ghost function PairsOf(name: string, tokens: seq<Token>): set<(string, string)> {
    set i | 0 <= i < |tokens| :: (name, tokens[i].value)
  }

  /** Everything stored, as pairs of name and value. */
  ghost function Pairs(records: Records): set<(string, string)> {
    set name, i | name in records && 0 <= i < |records[name]| :: (name, records[name][i].value)
  }

  // ---- Operations ------------------------------------------------------------------------

  /** `fits` is asked about all stored values together with the new one. */
  ghost predicate FitsWith(limits: Limits, records: Records, value: string) {
    BagFits(limits.fits, BagOf(Pairs(records)) + multiset{value})
  }

  /** An add to pruned records; `changed` says whether pruning dropped anything. */
  ghost function AddPruned(limits: Limits, pruned: Records, serial: Serial, changed: bool,
                           name: string, value: string, stampedAt: nat)
    : (Zone, Result<(), AddError>)
  {
    var tokens := TokensOf(pruned, name);
    if IndexOf(tokens, value) < |tokens| then
      (Zone(Refresh(pruned, name, value, stampedAt + limits.lifetime), AdvanceIf(serial, changed)), Ok(()))
    else if |Pairs(pruned)| >= limits.maxTokens then
      (Zone(pruned, AdvanceIf(serial, changed)), Err(TokenLimitReached))
    else if !FitsWith(limits, pruned, value) then
      (Zone(pruned, AdvanceIf(serial, changed)), Err(DnsWireCapacityReached))
    else
      (Zone(Push(pruned, name, Token(value, stampedAt + limits.lifetime)), Advance(serial)), Ok(()))
  }

  ghost function AddZone(limits: Limits, z: Zone, name: string, value: string, prunedAt: nat, stampedAt: nat)
    : (Zone, Result<(), AddError>)
  {
    var pruned := PruneRecords(z.records, prunedAt);
    AddPruned(limits, pruned, z.serial, pruned != z.records, name, value, stampedAt)
  }

  function RemovePruned(pruned: Records, serial: Serial, changed: bool, name: string, value: string): Zone {
    var rest := RemoveFrom(pruned, name, value);
    Zone(rest, AdvanceIf(serial, changed || rest != pruned))
  }

  function RemoveZone(z: Zone, name: string, value: string, now: nat): Zone {
    var pruned := PruneRecords(z.records, now);
    RemovePruned(pruned, z.serial, pruned != z.records, name, value)
  }

  function ReadZone(z: Zone, now: nat): Zone {
    var pruned := PruneRecords(z.records, now);
    Zone(pruned, AdvanceIf(z.serial, pruned != z.records))
  }

  // ---- Filtering -------------------------------------------------------------------------

  ghost predicate KeptAt(tokens: seq<Token>, kept: seq<Token>, at: seq<nat>) {
    && |at| == |kept|
    && (forall i | 0 <= i < |at| :: at[i] < |tokens| && kept[i] == tokens[at[i]])
    && (forall i, j | 0 <= i < j < |at| :: at[i] < at[j])
  }

  lemma {:induction false} KeptAtNext(t: Token, tokens: seq<Token>, kept: seq<Token>, at: seq<nat>)
    returns (dropped: seq<nat>, taken: seq<nat>)
    requires KeptAt(tokens, kept, at)
    ensures KeptAt([t] + tokens, kept, dropped)
    ensures KeptAt([t] + tokens, [t] + kept, taken)
  {
    dropped := seq(|at|, i requires 0 <= i < |at| => at[i] + 1);
    taken := [0] + dropped;
  }

  /** Where the kept tokens were: an increasing list of positions. */
  lemma {:induction false} FilterPositions(tokens: seq<Token>, keep: Token -> bool) returns (at: seq<nat>)
    ensures KeptAt(tokens, Filter(tokens, keep), at)
    ensures |Filter(tokens, keep)| <= |tokens|
  {
    at := [];
    if tokens != [] {
      var rest := FilterPositions(tokens[1..], keep);
      var dropped, taken := KeptAtNext(tokens[0], tokens[1..], Filter(tokens[1..], keep), rest);
      assert [tokens[0]] + tokens[1..] == tokens;
      at := if keep(tokens[0]) then taken else dropped;
    }
  }

  lemma {:induction false} FilterMembers(tokens: seq<Token>, keep: Token -> bool)
    ensures forall t :: t in Filter(tokens, keep) <==> t in tokens && keep(t)
  {
    if tokens != [] {
      FilterMembers(tokens[1..], keep);
      assert forall t :: t in tokens <==> t == tokens[0] || t in tokens[1..];
    }
  }

  lemma {:induction false} FilterAll(tokens: seq<Token>, keep: Token -> bool)
    ensures |Filter(tokens, keep)| == |tokens| ==> forall i | 0 <= i < |tokens| :: keep(tokens[i])
    ensures (forall i | 0 <= i < |tokens| :: keep(tokens[i])) ==> Filter(tokens, keep) == tokens
    ensures |Filter(tokens, keep)| <= |tokens|
  {
    if tokens != [] {
      FilterAll(tokens[1..], keep);
      var rest := tokens[1..];
      assert forall i | 0 <= i < |rest| :: rest[i] == tokens[i + 1];
      if |Filter(tokens, keep)| == |tokens| {
        forall i | 0 <= i < |tokens|
          ensures keep(tokens[i])
        {
          if i > 0 {
            assert keep(rest[i - 1]);
          }
        }
      }
      if forall i | 0 <= i < |tokens| :: keep(tokens[i]) {
        assert [tokens[0]] + rest == tokens;
      }
    }
  }

  lemma {:induction false} FilterDistinct(tokens: seq<Token>, keep: Token -> bool)
    requires Distinct(tokens)
    ensures Distinct(Filter(tokens, keep))
  {
    var at := FilterPositions(tokens, keep);
  }

  lemma {:induction false} PruneWellFormed(records: Records, now: nat)
    requires WellFormed(records)
    ensures WellFormed(PruneRecords(records, now))
    ensures Pairs(PruneRecords(records, now)) <= Pairs(records)
  {
    forall name | name in PruneRecords(records, now)
      ensures Distinct(Alive(records[name], now))
    {
      FilterDistinct(records[name], (t: Token) => t.expiresAt > now);
    }
    forall p | p in Pairs(PruneRecords(records, now))
      ensures p in Pairs(records)
    {
      var name, i :| name in PruneRecords(records, now) && 0 <= i < |PruneRecords(records, now)[name]|
                     && p == (name, PruneRecords(records, now)[name][i].value);
      var at := FilterPositions(records[name], (t: Token) => t.expiresAt > now);
      assert records[name][at[i]].value == p.1;
    }
  }

  lemma {:induction false} PrunedTokens(records: Records, now: nat, name: string)
    ensures TokensOf(PruneRecords(records, now), name) == Alive(TokensOf(records, name), now)
  {
  }

  lemma {:induction false} RemovedTokens(records: Records, name: string, value: string, other: string)
    ensures TokensOf(RemoveFrom(records, name, value), other)
         == if other == name then Without(TokensOf(records, name), value) else TokensOf(records, other)
  {
  }

  lemma {:induction false} RemoveWellFormed(records: Records, name: string, value: string)
    requires WellFormed(records)
    ensures WellFormed(RemoveFrom(records, name, value))
    ensures Pairs(RemoveFrom(records, name, value)) <= Pairs(records)
  {
    if name in records {
      FilterDistinct(records[name], (t: Token) => t.value != value);
      var rest := RemoveFrom(records, name, value);
      var at := FilterPositions(records[name], (t: Token) => t.value != value);
      forall p | p in Pairs(rest)
        ensures p in Pairs(records)
      {
        var m, i :| m in rest && 0 <= i < |rest[m]| && p == (m, rest[m][i].value);
        if m == name {
          assert records[name][at[i]].value == p.1;
        } else {
          assert records[m][i].value == p.1;
        }
      }
    }
  }

  lemma {:induction false} PushWellFormed(records: Records, name: string, token: Token)
    requires WellFormed(records)
    requires forall t | t in TokensOf(records, name) :: t.value != token.value
    ensures WellFormed(Push(records, name, token))
    ensures (name, token.value) !in Pairs(records)
    ensures Pairs(Push(records, name, token)) == Pairs(records) + {(name, token.value)}
  {
    var tokens, pushed := TokensOf(records, name), Push(records, name, token);
    assert forall i | 0 <= i < |tokens| :: tokens[i] in tokens;
    forall p | p in Pairs(records)
      ensures p in Pairs(pushed)
    {
      var m, i :| m in records && 0 <= i < |records[m]| && p == (m, records[m][i].value);
      assert m in pushed && pushed[m][i] == records[m][i];
    }
    assert pushed[name][|tokens|] == token;
    forall p | p in Pairs(pushed)
      ensures p in Pairs(records) + {(name, token.value)}
    {
      var m, i :| m in pushed && 0 <= i < |pushed[m]| && p == (m, pushed[m][i].value);
      if m != name || i < |tokens| {
        assert m in records && records[m][i] == pushed[m][i];
      }
    }
  }

  lemma {:induction false} RefreshWellFormed(records: Records, name: string, value: string, expiresAt: nat)
    requires WellFormed(records) && IndexOf(TokensOf(records, name), value) < |TokensOf(records, name)|
    ensures WellFormed(Refresh(records, name, value, expiresAt))
    ensures Pairs(Refresh(records, name, value, expiresAt)) == Pairs(records)
    ensures forall m :: Values(TokensOf(Refresh(records, name, value, expiresAt), m)) == Values(TokensOf(records, m))
  {
    var refreshed := Refresh(records, name, value, expiresAt);
    forall m | m in records
      ensures Values(refreshed[m]) == Values(records[m])
      ensures forall i | 0 <= i < |records[m]| :: refreshed[m][i].value == records[m][i].value
    {
    }
    forall p | p in Pairs(records) + Pairs(refreshed)
      ensures p in Pairs(records) && p in Pairs(refreshed)
    {
      var m, i :| m in records && 0 <= i < |records[m]| && p == (m, records[m][i].value);
      assert refreshed[m][i].value == p.1;
    }
  }

  lemma {:induction false} AliveSameLength(tokens: seq<Token>, now: nat)
    ensures |Alive(tokens, now)| <= |tokens|
    ensures |Alive(tokens, now)| == |tokens| ==>
              Alive(tokens, now) == tokens && forall t | t in tokens :: t.expiresAt > now
    ensures (forall t | t in tokens :: t.expiresAt > now) ==> Alive(tokens, now) == tokens
  {
    FilterAll(tokens, (t: Token) => t.expiresAt > now);
  }

  lemma {:induction false} WithoutSameLength(tokens: seq<Token>, value: string)
    ensures |Without(tokens, value)| <= |tokens|
    ensures |Without(tokens, value)| == |tokens| ==> Without(tokens, value) == tokens
  {
    FilterAll(tokens, (t: Token) => t.value != value);
  }

  lemma {:induction false} FilterAppend(a: seq<Token>, b: seq<Token>, keep: Token -> bool)
    ensures Filter(a + b, keep) == Filter(a, keep) + Filter(b, keep)
  {
    if a == [] {
      assert a + b == b;
    } else {
      var both := a + b;
      assert both[1..] == a[1..] + b && both[0] == a[0];
      FilterAppend(a[1..], b, keep);
      var head := if keep(a[0]) then [a[0]] else [];
      assert Filter(both, keep) == head + (Filter(a[1..], keep) + Filter(b, keep));
      assert Filter(a, keep) == head + Filter(a[1..], keep);
    }
  }

  lemma {:induction false} OneMorePair(name: string, tokens: seq<Token>, i: nat)
    requires i < |tokens| && Distinct(tokens)
    ensures PairsOf(name, tokens[..i + 1]) == PairsOf(name, tokens[..i]) + {(name, tokens[i].value)}
    ensures (name, tokens[i].value) !in PairsOf(name, tokens[..i])
  {
    var less, more := tokens[..i], tokens[..i + 1];
    assert more[i] == tokens[i];
    forall p | p in PairsOf(name, less)
      ensures p in PairsOf(name, more)
    {
      var k :| 0 <= k < |less| && p == (name, less[k].value);
      assert more[k] == less[k];
    }
    forall p | p in PairsOf(name, more)
      ensures p in PairsOf(name, less) || p == (name, tokens[i].value)
    {
      var k :| 0 <= k < |more| && p == (name, more[k].value);
      if k < i {
        assert less[k] == more[k];
      }
    }
  }
}
