/** The zone serial as a version of the stored data (src/state.rs:57-150). */
module Versions {
  import opened Bags
  import opened Store
  import opened History
  import opened Runs

  const HALF: nat := 0x8000_0000

  /** The same values, in the same order, under every name. Expiry times may differ. */
  ghost predicate SameContents(a: Records, b: Records) {
    forall name :: Values(TokensOf(a, name)) == Values(TokensOf(b, name))
  }

  /** Serial number comparison, section 3.2 of RFC 1982. */
  predicate SerialLess(s1: Serial, s2: Serial) {
    (s1 < s2 && s2 - s1 < HALF) || (s1 > s2 && s1 - s2 > HALF)
  }

  ghost function Advances(limits: Limits, z: Zone, ops: seq<Op>): nat
    decreases ops
  {
    if ops == [] then 0
    else
      var next := Step(limits, z, ops[0]);
      (if next.serial != z.serial then 1 else 0) + Advances(limits, next, ops[1..])
  }

  lemma {:induction false} RefreshKeepsContents(records: Records, name: string, value: string, expiresAt: nat)
    requires IndexOf(TokensOf(records, name), value) < |TokensOf(records, name)|
    ensures SameContents(records, Refresh(records, name, value, expiresAt))
  {
  }

  /** The serial moves by at most one, and moves if anything was pruned or the contents differ. */
  ghost predicate AdvancedFrom(pruned: Records, serial: Serial, changed: bool, after: Zone) {
    && (after.serial == serial || after.serial == Advance(serial))
    && (after.serial == serial ==> !changed && SameContents(pruned, after.records))
  }

  lemma {:induction false} AddAdvances(limits: Limits, pruned: Records, serial: Serial, changed: bool, name: string,
                                       value: string, stampedAt: nat)
    ensures AdvancedFrom(pruned, serial, changed, AddPruned(limits, pruned, serial, changed, name, value, stampedAt).0)
  {
    if IndexOf(TokensOf(pruned, name), value) < |TokensOf(pruned, name)| {
      RefreshKeepsContents(pruned, name, value, stampedAt + limits.lifetime);
    }
  }

  lemma {:induction false} RemoveAdvances(pruned: Records, serial: Serial, changed: bool, name: string, value: string)
    ensures AdvancedFrom(pruned, serial, changed, RemovePruned(pruned, serial, changed, name, value))
  {
  }

  /** One operation advances the serial by nothing or by one, and a serial that did not advance
      vouches for unchanged data. */
  lemma {:induction false} StepAdvancesAtMostOnce(limits: Limits, z: Zone, op: Op)
    ensures AdvancedFrom(z.records, z.serial, false, Step(limits, z, op))
  {
    var pruned := PruneRecords(z.records, FirstReading(op));
    match op
    case Add(name, value, prunedAt, stampedAt) =>
      AddAdvances(limits, pruned, z.serial, pruned != z.records, name, value, stampedAt);
    case Remove(name, value, at) =>
      RemoveAdvances(pruned, z.serial, pruned != z.records, name, value);
    case Get(_, at) =>
    case ReadSerial(at) =>
  }

  lemma {:induction false} SameContentsTransitive(a: Records, b: Records, c: Records)
    requires SameContents(a, b) && SameContents(b, c)
    ensures SameContents(a, c)
  {
    forall name
      ensures Values(TokensOf(a, name)) == Values(TokensOf(c, name))
    {
      assert Values(TokensOf(a, name)) == Values(TokensOf(b, name));
    }
  }

  lemma {:induction false} RunUnchanged(limits: Limits, z: Zone, ops: seq<Op>)
    requires Advances(limits, z, ops) == 0
    ensures SameContents(z.records, Run(limits, z, ops).records)
    decreases ops
  {
    if ops != [] {
      var next := Step(limits, z, ops[0]);
      StepAdvancesAtMostOnce(limits, z, ops[0]);
      RunUnchanged(limits, next, ops[1..]);
      SameContentsTransitive(z.records, next.records, Run(limits, next, ops[1..]).records);
    }
  }

  function AdvanceBy(s: Serial, n: nat): Serial
    decreases n
  {
    if n == 0 then s else AdvanceBy(Advance(s), n - 1)
  }

  lemma {:induction false} AdvanceByIsModular(s: Serial, n: nat)
    ensures AdvanceBy(s, n) == (s + n) % TWO_32
    decreases n
  {
    if n > 0 {
      AdvanceByIsModular(Advance(s), n - 1);
      if s == TWO_32 - 1 {
        assert (n - 1 + TWO_32) % TWO_32 == (n - 1) % TWO_32;
      }
    }
  }

  lemma {:induction false} StepSerial(limits: Limits, z: Zone, op: Op)
    ensures Step(limits, z, op).serial in {z.serial, Advance(z.serial)}
  {
    StepAdvancesAtMostOnce(limits, z, op);
  }

  lemma {:induction false} OneMoreAdvance(s: Serial, next: Serial, later: nat, advances: nat)
    requires next in {s, Advance(s)} && advances == (if next != s then 1 else 0) + later
    ensures AdvanceBy(next, later) == AdvanceBy(s, advances)
  {
  }

  /** After a run the serial has moved by the number of advances, modulo 2^32. */
  lemma {:induction false} RunSerial(limits: Limits, z: Zone, ops: seq<Op>, advances: nat)
    requires advances == Advances(limits, z, ops)
    ensures Run(limits, z, ops).serial == AdvanceBy(z.serial, advances)
    decreases ops
  {
    if ops != [] {
      var next := Step(limits, z, ops[0]);
      StepSerial(limits, z, ops[0]);
      RunSerial(limits, next, ops[1..], Advances(limits, next, ops[1..]));
      OneMoreAdvance(z.serial, next.serial, Advances(limits, next, ops[1..]), advances);
    }
  }

  lemma {:induction false} SerialArithmetic(s: Serial, n: nat)
    requires n < TWO_32
    ensures AdvanceBy(s, n) == s ==> n == 0
    ensures 1 <= n < HALF ==> SerialLess(s, AdvanceBy(s, n))
  {
    AdvanceByIsModular(s, n);
    assert (s + n) % TWO_32 == if s + n < TWO_32 then s + n else s + n - TWO_32;
  }

  /** Two observations with fewer than 2^32 advances between them: equal serials mean equal data
      for every name, and after 1 to 2^31 - 1 advances the later serial is the greater one. */
  lemma {:induction false} VersionConsistency(limits: Limits, z: Zone, ops: seq<Op>)
    requires Advances(limits, z, ops) < TWO_32
    ensures Run(limits, z, ops).serial == z.serial ==> SameContents(z.records, Run(limits, z, ops).records)
    ensures 1 <= Advances(limits, z, ops) < HALF ==> SerialLess(z.serial, Run(limits, z, ops).serial)
  {
    RunSerial(limits, z, ops, Advances(limits, z, ops));
    SerialArithmetic(z.serial, Advances(limits, z, ops));
    if Advances(limits, z, ops) == 0 {
      RunUnchanged(limits, z, ops);
    }
  }

  // ---- When the serial advances over unchanged data --------------------------------------

  /** The last token of the list has this value and has expired, and no other has. */
  ghost predicate LastExpired(tokens: seq<Token>, value: string, now: nat) {
    && tokens != []
    && tokens[|tokens| - 1].value == value
    && tokens[|tokens| - 1].expiresAt <= now
    && forall i | 0 <= i < |tokens| - 1 :: tokens[i].expiresAt > now
  }

  ghost predicate OthersUnexpired(records: Records, name: string, now: nat) {
    forall m | m != name :: AllAlive(TokensOf(records, m), now)
  }

  /** The last token under the name has this value and has expired, and nothing else has. */
  ghost predicate LastIsOnlyExpired(records: Records, name: string, value: string, now: nat) {
    LastExpired(TokensOf(records, name), value, now) && OthersUnexpired(records, name, now)
  }

  /** Pruning a list drops exactly its last token iff that one has expired and the others have not. */
  lemma {:induction false} AliveButLast(tokens: seq<Token>, now: nat)
    requires tokens != [] && tokens[|tokens| - 1].expiresAt <= now
    ensures var n := |tokens| - 1;
            && |Alive(tokens, now)| <= n
            && (|Alive(tokens, now)| == n <==> forall i | 0 <= i < n :: tokens[i].expiresAt > now)
            && (|Alive(tokens, now)| == n ==> Alive(tokens, now) == tokens[..n])
  {
    var n, keep := |tokens| - 1, (t: Token) => t.expiresAt > now;
    var front, last := tokens[..n], [tokens[n]];
    assert tokens == front + last;
    FilterAppend(front, last, keep);
    assert Filter(last, keep) == [] by {
      assert last[1..] == [];
    }
    FilterAll(front, keep);
  }

  /** Records without empty lists are determined by the list of every name. */
  lemma {:induction false} SameListsSameRecords(a: Records, b: Records)
    requires WellFormed(a) && WellFormed(b) && forall name :: TokensOf(a, name) == TokensOf(b, name)
    ensures a == b
  {
    forall name
      ensures name in a <==> name in b
    {
      assert TokensOf(a, name) == TokensOf(b, name);
    }
    forall name | name in a
      ensures a[name] == b[name]
    {
      assert TokensOf(a, name) == TokensOf(b, name);
    }
  }

  lemma {:induction false} PruneSameContents(records: Records, now: nat)
    requires WellFormed(records) && SameContents(records, PruneRecords(records, now))
    ensures PruneRecords(records, now) == records
  {
    var pruned := PruneRecords(records, now);
    forall name
      ensures TokensOf(pruned, name) == TokensOf(records, name)
    {
      assert |Values(TokensOf(pruned, name))| == |Values(TokensOf(records, name))|;
      PrunedTokens(records, now, name);
      AliveSameLength(TokensOf(records, name), now);
    }
    PruneWellFormed(records, now);
    SameListsSameRecords(pruned, records);
  }

  lemma {:induction false} RemoveSameContents(records: Records, now: nat, name: string, value: string)
    requires WellFormed(records) && SameContents(records, RemoveFrom(PruneRecords(records, now), name, value))
    ensures PruneRecords(records, now) == records == RemoveFrom(PruneRecords(records, now), name, value)
  {
    var pruned := PruneRecords(records, now);
    var rest := RemoveFrom(pruned, name, value);
    forall m
      ensures TokensOf(rest, m) == TokensOf(pruned, m) == TokensOf(records, m)
    {
      assert |Values(TokensOf(rest, m))| == |Values(TokensOf(records, m))|;
      PrunedTokens(records, now, m);
      RemovedTokens(pruned, name, value, m);
      AliveSameLength(TokensOf(records, m), now);
      WithoutSameLength(TokensOf(pruned, m), value);
    }
    PruneWellFormed(records, now);
    RemoveWellFormed(pruned, name, value);
    SameListsSameRecords(pruned, records);
    SameListsSameRecords(rest, records);
  }

  lemma {:induction false} UnexpiredIff(tokens: seq<Token>, now: nat)
    ensures Values(Alive(tokens, now)) == Values(tokens) <==> AllAlive(tokens, now)
  {
    AliveSameLength(tokens, now);
    if Values(Alive(tokens, now)) == Values(tokens) {
      assert |Values(Alive(tokens, now))| == |Values(tokens)|;
    }
  }

  ghost predicate SameElsewhere(a: Records, b: Records, name: string) {
    forall m | m != name :: Values(TokensOf(a, m)) == Values(TokensOf(b, m))
  }

  lemma {:induction false} SameElsewhereIff(records: Records, now: nat, name: string, token: Token)
    ensures SameElsewhere(records, Push(PruneRecords(records, now), name, token), name)
       <==> OthersUnexpired(records, name, now)
  {
    var pushed := Push(PruneRecords(records, now), name, token);
    forall m | m != name
      ensures Values(TokensOf(records, m)) == Values(TokensOf(pushed, m)) <==> AllAlive(TokensOf(records, m), now)
    {
      PrunedTokens(records, now, m);
      assert TokensOf(pushed, m) == Alive(TokensOf(records, m), now);
      UnexpiredIff(TokensOf(records, m), now);
    }
  }

  /** Pushing back what pruning dropped gives the same data iff the dropped token was the last one
      under that name and the only one to expire. */
  lemma {:induction false} PushSameContentsIff(records: Records, now: nat, name: string, token: Token)
    requires WellFormed(records) && token.value !in Values(TokensOf(PruneRecords(records, now), name))
    ensures SameContents(records, Push(PruneRecords(records, now), name, token))
       <==> LastIsOnlyExpired(records, name, token.value, now)
  {
    var tokens, pushed := TokensOf(records, name), Push(PruneRecords(records, now), name, token);
    PrunedTokens(records, now, name);
    assert TokensOf(pushed, name) == Alive(tokens, now) + [token];
    OneListPushedIff(tokens, now, token);
    SameElsewhereIff(records, now, name, token);
    SameHereAndElsewhere(records, pushed, name);
  }

  lemma {:induction false} SameHereAndElsewhere(a: Records, b: Records, name: string)
    ensures SameContents(a, b)
       <==> Values(TokensOf(a, name)) == Values(TokensOf(b, name)) && SameElsewhere(a, b, name)
  {
  }

  lemma {:induction false} AliveValueIsKept(tokens: seq<Token>, now: nat, n: nat)
    requires n < |tokens|
    ensures tokens[n].expiresAt > now ==> tokens[n].value in Values(Alive(tokens, now))
  {
    if tokens[n].expiresAt > now {
      FilterMembers(tokens, (t: Token) => t.expiresAt > now);
      assert tokens[n] in tokens;
      var alive := Alive(tokens, now);
      var i :| 0 <= i < |alive| && alive[i] == tokens[n];
      assert Values(alive)[i] == tokens[n].value;
    }
  }

  lemma {:induction false} OneListPushedIff(tokens: seq<Token>, now: nat, token: Token)
    requires Distinct(tokens) && token.value !in Values(Alive(tokens, now))
    ensures Values(Alive(tokens, now) + [token]) == Values(tokens) <==> LastExpired(tokens, token.value, now)
  {
    var alive := Alive(tokens, now);
    if tokens == [] {
      assert |Values(alive + [token])| == 1;
    } else {
      var n := |tokens| - 1;
      if tokens[n].expiresAt <= now {
        AliveButLast(tokens, now);
      }
      AliveValueIsKept(tokens, now, n);
      assert Values(tokens)[n] == tokens[n].value;
      if Values(alive + [token]) == Values(tokens) {
        assert |Values(alive + [token])| == |Values(tokens)|;
        assert Values(alive + [token])[n] == token.value;
      }
    }
  }

  lemma {:induction false} PairsWithoutLast(records: Records, pruned: Records, name: string)
    requires WellFormed(records) && name in records
    requires var n := |records[name]| - 1;
             && TokensOf(pruned, name) == records[name][..n]
             && forall m | m != name :: TokensOf(pruned, m) == TokensOf(records, m)
    ensures var last := records[name][|records[name]| - 1].value;
            Pairs(pruned) == Pairs(records) - {(name, last)} && (name, last) in Pairs(records)
  {
    var n := |records[name]| - 1;
    var last := records[name][n].value;
    forall m, v
      ensures (m, v) in Pairs(pruned) <==> (m, v) in Pairs(records) && (m, v) != (name, last)
    {
      StoredValue(pruned, m, v);
      StoredValue(records, m, v);
      if m == name {
        assert records[name] == records[name][..n] + [records[name][n]];
        assert Values(records[name]) == Values(records[name][..n]) + [last];
        assert last !in Values(records[name][..n]);
      } else {
        assert TokensOf(pruned, m) == TokensOf(records, m);
      }
    }
    StoredValue(records, name, last);
    assert Values(records[name])[n] == last;
  }

  lemma {:induction false} PrunedWithoutLast(records: Records, name: string, value: string, now: nat)
    requires LastIsOnlyExpired(records, name, value, now)
    ensures var pruned := PruneRecords(records, now);
            && TokensOf(pruned, name) == records[name][..|records[name]| - 1]
            && forall m | m != name :: TokensOf(pruned, m) == TokensOf(records, m)
  {
    AliveButLast(records[name], now);
    PrunedTokens(records, now, name);
    forall m | m != name
      ensures TokensOf(PruneRecords(records, now), m) == TokensOf(records, m)
    {
      PrunedTokens(records, now, m);
      AliveSameLength(TokensOf(records, m), now);
    }
  }

  /** The value that was dropped last is always admitted again, since it was stored before. */
  lemma {:induction false} ReAddIsAdmitted(limits: Limits, records: Records, pruned: Records, name: string,
                                           value: string)
    requires WellFormed(records) && WithinCapacity(limits, records) && name in records
    requires records[name][|records[name]| - 1].value == value
    requires TokensOf(pruned, name) == records[name][..|records[name]| - 1]
    requires forall m | m != name :: TokensOf(pruned, m) == TokensOf(records, m)
    ensures value !in Values(TokensOf(pruned, name))
    ensures |Pairs(pruned)| < limits.maxTokens && FitsWith(limits, pruned, value)
  {
    PairsWithoutLast(records, pruned, name);
    BagWithout(Pairs(records), (name, value));
  }

  lemma {:induction false} SameAfter(records: Records, pruned: Records, after: Records, now: nat)
    requires WellFormed(records) && pruned == PruneRecords(records, now) && SameContents(pruned, after)
    ensures SameContents(records, after) ==> pruned == records
  {
    if SameContents(records, after) {
      forall name
        ensures Values(TokensOf(records, name)) == Values(TokensOf(pruned, name))
      {
        assert Values(TokensOf(pruned, name)) == Values(TokensOf(after, name));
      }
      PruneSameContents(records, now);
    }
  }

  /** When only pruning can have changed the data, the serial advances iff the data changed. */
  lemma {:induction false} OnlyPruned(records: Records, pruned: Records, now: nat, serial: Serial, after: Zone)
    requires WellFormed(records) && pruned == PruneRecords(records, now) && SameContents(pruned, after.records)
    requires after.serial == AdvanceIf(serial, pruned != records)
    ensures !(after.serial != serial && SameContents(records, after.records))
  {
    SameAfter(records, pruned, after.records, now);
  }

  /** The add is admitted as a new token. */
  ghost predicate Pushes(limits: Limits, pruned: Records, name: string, value: string) {
    && value !in Values(TokensOf(pruned, name))
    && |Pairs(pruned)| < limits.maxTokens
    && FitsWith(limits, pruned, value)
  }

  lemma {:induction false} FoundIff(tokens: seq<Token>, value: string)
    ensures IndexOf(tokens, value) < |tokens| <==> value in Values(tokens)
  {
    if IndexOf(tokens, value) < |tokens| {
      assert Values(tokens)[IndexOf(tokens, value)] == value;
    } else {
      ValueAbsent(tokens, value);
    }
  }

  lemma {:induction false} AddByPush(limits: Limits, pruned: Records, serial: Serial, changed: bool,
                                     name: string, value: string, stampedAt: nat)
    requires Pushes(limits, pruned, name, value)
    ensures AddPruned(limits, pruned, serial, changed, name, value, stampedAt).0
         == Zone(Push(pruned, name, Token(value, stampedAt + limits.lifetime)), Advance(serial))
  {
    FoundIff(TokensOf(pruned, name), value);
  }

  lemma {:induction false} AddWithoutPush(limits: Limits, pruned: Records, serial: Serial, changed: bool,
                                          name: string, value: string, stampedAt: nat)
    requires !Pushes(limits, pruned, name, value)
    ensures var next := AddPruned(limits, pruned, serial, changed, name, value, stampedAt).0;
            SameContents(pruned, next.records) && next.serial == AdvanceIf(serial, changed)
  {
    FoundIff(TokensOf(pruned, name), value);
    if IndexOf(TokensOf(pruned, name), value) < |TokensOf(pruned, name)| {
      RefreshKeepsContents(pruned, name, value, stampedAt + limits.lifetime);
    }
  }

  lemma {:induction false} AddOverSameDataIff(limits: Limits, records: Records, pruned: Records, serial: Serial,
                                              name: string, value: string, prunedAt: nat, stampedAt: nat)
    requires WellFormed(records) && WithinCapacity(limits, records) && pruned == PruneRecords(records, prunedAt)
    ensures var next := AddPruned(limits, pruned, serial, pruned != records, name, value, stampedAt).0;
            (next.serial != serial && SameContents(records, next.records))
              <==> LastIsOnlyExpired(records, name, value, prunedAt)
  {
    if LastIsOnlyExpired(records, name, value, prunedAt) {
      PrunedWithoutLast(records, name, value, prunedAt);
      ReAddIsAdmitted(limits, records, pruned, name, value);
    }
    if Pushes(limits, pruned, name, value) {
      AddByPush(limits, pruned, serial, pruned != records, name, value, stampedAt);
      PushSameContentsIff(records, prunedAt, name, Token(value, stampedAt + limits.lifetime));
    } else {
      AddWithoutPush(limits, pruned, serial, pruned != records, name, value, stampedAt);
      OnlyPruned(records, pruned, prunedAt, serial,
                 AddPruned(limits, pruned, serial, pruned != records, name, value, stampedAt).0);
    }
  }

  /** The serial advances although the data is the same exactly when an add puts back the only
      token that its own pruning dropped, at the end of the list it was in. */
  lemma {:induction false} AdvanceOverSameDataIff(limits: Limits, z: Zone, op: Op)
    requires WellFormed(z.records) && WithinCapacity(limits, z.records)
    ensures var next := Step(limits, z, op);
            (next.serial != z.serial && SameContents(z.records, next.records))
              <==> (op.Add? && LastIsOnlyExpired(z.records, op.name, op.value, op.prunedAt))
  {
    var pruned := PruneRecords(z.records, FirstReading(op));
    match op
    case Add(name, value, prunedAt, stampedAt) =>
      AddOverSameDataIff(limits, z.records, pruned, z.serial, name, value, prunedAt, stampedAt);
    case Remove(name, value, at) =>
      if SameContents(z.records, RemoveFrom(pruned, name, value)) {
        RemoveSameContents(z.records, at, name, value);
      }
    case Get(_, at) => SameAfter(z.records, pruned, pruned, at);
    case ReadSerial(at) => SameAfter(z.records, pruned, pruned, at);
  }

  // ---- The same as a set -----------------------------------------------------------------

  /** The value is stored under the name and has expired, and nothing else has. */
  ghost predicate IsOnlyExpired(records: Records, name: string, value: string, now: nat) {
    && (exists t :: t in TokensOf(records, name) && t.value == value && t.expiresAt <= now)
    && forall m, t | t in TokensOf(records, m) && t.expiresAt <= now :: m == name && t.value == value
  }

  lemma {:induction false} PrunedPair(records: Records, now: nat, m: string, v: string)
    ensures (m, v) in Pairs(PruneRecords(records, now))
       <==> exists t :: t in TokensOf(records, m) && t.value == v && t.expiresAt > now
  {
    StoredValue(PruneRecords(records, now), m, v);
    PrunedTokens(records, now, m);
    ValueMembers(Alive(TokensOf(records, m), now), v);
    FilterMembers(TokensOf(records, m), (t: Token) => t.expiresAt > now);
  }

  lemma {:induction false} StoredPair(records: Records, m: string, v: string)
    ensures (m, v) in Pairs(records) <==> exists t :: t in TokensOf(records, m) && t.value == v
  {
    StoredValue(records, m, v);
    ValueMembers(TokensOf(records, m), v);
  }

  lemma {:induction false} OneTokenPerValue(tokens: seq<Token>, t: Token, u: Token)
    requires Distinct(tokens) && t in tokens && u in tokens && t.value == u.value
    ensures t == u
  {
  }

  lemma {:induction false} KeptIffAlive(records: Records, now: nat, m: string, t: Token)
    requires WellFormed(records) && t in TokensOf(records, m)
    ensures (m, t.value) in Pairs(records)
    ensures (m, t.value) in Pairs(PruneRecords(records, now)) <==> t.expiresAt > now
  {
    StoredPair(records, m, t.value);
    PrunedPair(records, now, m, t.value);
    if (m, t.value) in Pairs(PruneRecords(records, now)) {
      var u :| u in TokensOf(records, m) && u.value == t.value && u.expiresAt > now;
      OneTokenPerValue(records[m], t, u);
    }
  }

  /** Pruning drops exactly one pair iff that pair is the only expired one. */
  lemma {:induction false} OnlyOnePrunedIff(records: Records, name: string, value: string, now: nat)
    requires WellFormed(records)
    ensures IsOnlyExpired(records, name, value, now)
       <==> (name, value) in Pairs(records) && Pairs(PruneRecords(records, now)) == Pairs(records) - {(name, value)}
  {
    var pruned, p := PruneRecords(records, now), (name, value);
    PruneWellFormed(records, now);
    forall m, t | t in TokensOf(records, m)
      ensures (m, t.value) in Pairs(records)
      ensures (m, t.value) in Pairs(pruned) <==> t.expiresAt > now
    {
      KeptIffAlive(records, now, m, t);
    }
    forall q | q in Pairs(records)
      ensures exists t :: t in TokensOf(records, q.0) && t.value == q.1
    {
      StoredPair(records, q.0, q.1);
    }
  }

  lemma {:induction false} OnlyExpiredIsPushed(limits: Limits, records: Records, pruned: Records, name: string,
                                               value: string)
    requires WithinCapacity(limits, records) && (name, value) in Pairs(records)
    requires Pairs(pruned) == Pairs(records) - {(name, value)}
    ensures Pushes(limits, pruned, name, value)
  {
    StoredValue(pruned, name, value);
    BagWithout(Pairs(records), (name, value));
    assert |Pairs(pruned)| == |Pairs(records)| - 1;
  }

  lemma {:induction false} PushOverSameSetIff(records: Records, pruned: Records, name: string, token: Token, now: nat)
    requires WellFormed(records) && pruned == PruneRecords(records, now)
    requires token.value !in Values(TokensOf(pruned, name))
    ensures Pairs(Push(pruned, name, token)) == Pairs(records) <==> IsOnlyExpired(records, name, token.value, now)
  {
    PruneWellFormed(records, now);
    OnlyOnePrunedIff(records, name, token.value, now);
    FoundIff(TokensOf(pruned, name), token.value);
    PushedPairs(pruned, name, token);
  }

  /** When only pruning can have changed the pairs, the serial advances iff they changed. */
  lemma {:induction false} OnlyPrunedSet(records: Records, pruned: Records, now: nat, serial: Serial, after: Zone)
    requires WellFormed(records) && pruned == PruneRecords(records, now) && SameContents(pruned, after.records)
    requires after.serial == AdvanceIf(serial, pruned != records)
    ensures !(after.serial != serial && Pairs(after.records) == Pairs(records))
  {
    PruneChangesCount(records, now);
    SameContentsSamePairs(pruned, after.records);
  }

  lemma {:induction false} AddOverSameSetIff(limits: Limits, records: Records, pruned: Records, serial: Serial,
                                             name: string, value: string, now: nat, stampedAt: nat)
    requires WellFormed(records) && WithinCapacity(limits, records) && pruned == PruneRecords(records, now)
    ensures var next := AddPruned(limits, pruned, serial, pruned != records, name, value, stampedAt).0;
            (next.serial != serial && Pairs(next.records) == Pairs(records))
              <==> IsOnlyExpired(records, name, value, now)
  {
    if Pushes(limits, pruned, name, value) {
      AddByPush(limits, pruned, serial, pruned != records, name, value, stampedAt);
      PushOverSameSetIff(records, pruned, name, Token(value, stampedAt + limits.lifetime), now);
    } else {
      if IsOnlyExpired(records, name, value, now) {
        OnlyOnePrunedIff(records, name, value, now);
        OnlyExpiredIsPushed(limits, records, pruned, name, value);
      }
      AddWithoutPush(limits, pruned, serial, pruned != records, name, value, stampedAt);
      OnlyPrunedSet(records, pruned, now, serial,
                    AddPruned(limits, pruned, serial, pruned != records, name, value, stampedAt).0);
    }
  }

  lemma {:induction false} SameContentsSamePairs(a: Records, b: Records)
    requires SameContents(a, b)
    ensures Pairs(a) == Pairs(b)
  {
    forall m, v
      ensures (m, v) in Pairs(a) <==> (m, v) in Pairs(b)
    {
      StoredValue(a, m, v);
      StoredValue(b, m, v);
      assert Values(TokensOf(a, m)) == Values(TokensOf(b, m));
    }
  }

  lemma {:induction false} RemoveOverSameSet(records: Records, pruned: Records, serial: Serial, now: nat,
                                             name: string, value: string)
    requires WellFormed(records) && pruned == PruneRecords(records, now)
    ensures var next := RemovePruned(pruned, serial, pruned != records, name, value);
            Pairs(next.records) == Pairs(records) ==> next.serial == serial
  {
    var rest := RemoveFrom(pruned, name, value);
    PruneWellFormed(records, now);
    RemoveWellFormed(pruned, name, value);
    if Pairs(rest) == Pairs(records) {
      assert Pairs(pruned) == Pairs(records);
      PruneChangesCount(records, now);
      StoredValue(rest, name, value);
      StoredValue(pruned, name, value);
      RemovedTokens(pruned, name, value, name);
      RemovedIsAbsent(TokensOf(pruned, name), value);
    }
  }

  lemma {:induction false} RemovedIsAbsent(tokens: seq<Token>, value: string)
    ensures value !in Values(Without(tokens, value))
    ensures value !in Values(tokens) ==> Without(tokens, value) == tokens
  {
    ValueMembers(Without(tokens, value), value);
    ValueMembers(tokens, value);
    FilterMembers(tokens, (t: Token) => t.value != value);
    FilterAll(tokens, (t: Token) => t.value != value);
  }

  /** As a set of names and values, the data is the same although the serial advances exactly when
      an add puts back the one value that its own pruning dropped, wherever it was in its list. */
  lemma {:induction false} AdvanceOverSameSetIff(limits: Limits, z: Zone, op: Op)
    requires WellFormed(z.records) && WithinCapacity(limits, z.records)
    ensures var next := Step(limits, z, op);
            (next.serial != z.serial && Pairs(next.records) == Pairs(z.records))
              <==> (op.Add? && IsOnlyExpired(z.records, op.name, op.value, op.prunedAt))
  {
    var pruned := PruneRecords(z.records, FirstReading(op));
    PruneChangesCount(z.records, FirstReading(op));
    match op
    case Add(name, value, prunedAt, stampedAt) =>
      AddOverSameSetIff(limits, z.records, pruned, z.serial, name, value, prunedAt, stampedAt);
    case Remove(name, value, at) =>
      RemoveOverSameSet(z.records, pruned, z.serial, at, name, value);
    case Get(_, at) =>
    case ReadSerial(at) =>
  }

  // ---- Such advances do happen -----------------------------------------------------------

  /** A store that holds this list under "n", or nothing. */
  function Only(tokens: seq<Token>): Records {
    if tokens == [] then map[] else map["n" := tokens]
  }

  lemma {:induction false} AliveOnly(tokens: seq<Token>, now: nat)
    requires AllAlive(tokens, now)
    ensures PruneRecords(Only(tokens), now) == Only(tokens)
  {
    AliveSameLength(tokens, now);
  }

  lemma {:induction false} AddToOnly(limits: Limits, tokens: seq<Token>, serial: Serial, value: string, at: nat,
                                     more: seq<Token>)
    requires AllAlive(tokens, at) && Pushes(limits, Only(tokens), "n", value)
    requires more == tokens + [Token(value, at + limits.lifetime)]
    ensures var z, op := Zone(Only(tokens), serial), Add("n", value, at, at);
            && Step(limits, z, op) == Zone(Only(more), Advance(serial))
            && LastReading(limits, z, op) == at
  {
    AliveOnly(tokens, at);
    AddByPush(limits, Only(tokens), serial, false, "n", value, at);
    FoundIff(TokensOf(Only(tokens), "n"), value);
  }

  lemma {:induction false} OneFits(limits: Limits, first: string, second: string)
    requires ValidLimits(limits) && limits.fits([first, second])
    ensures BagFits(limits.fits, multiset{first}) && BagFits(limits.fits, multiset{first} + multiset{second})
  {
    AnyOrderFits(limits.fits, [first, second]);
    assert multiset([first, second]) == multiset{first} + multiset{second};
    SubBagFits(limits.fits, multiset{first}, multiset([first, second]));
  }

  lemma {:induction false} FirstIsPushed(limits: Limits, value: string)
    requires limits.maxTokens >= 1 && BagFits(limits.fits, multiset{value})
    ensures Pushes(limits, Only([]), "n", value)
  {
    assert Pairs(Only([])) == {};
    assert BagOf({}) + multiset{value} == multiset{value};
  }

  lemma {:induction false} SecondIsPushed(limits: Limits, token: Token, value: string)
    requires limits.maxTokens >= 2 && BagFits(limits.fits, multiset{token.value} + multiset{value})
    requires token.value != value
    ensures Pushes(limits, Only([token]), "n", value)
  {
    var p := ("n", token.value);
    assert Pairs(Only([token])) == {p} by {
      assert Only([token])["n"][0] == token;
    }
    BagWithout({p}, p);
    assert {p} - {p} == {};
  }

  /** One value is added and, at the reading at which it expires, added again. The serial moves over
      the same data. */
  lemma {:induction false} SpuriousAdvanceExample(limits: Limits, serial: Serial)
    requires ValidLimits(limits) && limits.maxTokens >= 1 && limits.fits(["v"])
    ensures var ops, op := [Add("n", "v", 0, 0)], Add("n", "v", limits.lifetime, limits.lifetime);
            var z := Run(limits, Empty(serial), ops);
            && Timely(limits, Empty(serial), ops, 0) && TimelyOp(op, Clock(limits, Empty(serial), ops, 0))
            && Step(limits, z, op).serial == Advance(z.serial) && SameContents(z.records, Step(limits, z, op).records)
  {
    var ops, again := [Add("n", "v", 0, 0)], Add("n", "v", limits.lifetime, limits.lifetime);
    OneAdded(limits, serial);
    ReachableInv(limits, serial, 0, ops);
    var z := Run(limits, Empty(serial), ops);
    assert LastIsOnlyExpired(z.records, "n", "v", limits.lifetime);
    AdvanceOverSameDataIff(limits, z, again);
    StepAdvancesAtMostOnce(limits, z, again);
  }

  lemma {:induction false} OneAdded(limits: Limits, serial: Serial)
    requires ValidLimits(limits) && limits.maxTokens >= 1 && limits.fits(["v"])
    ensures var ops := [Add("n", "v", 0, 0)];
            && Timely(limits, Empty(serial), ops, 0) && Clock(limits, Empty(serial), ops, 0) == 0
            && Run(limits, Empty(serial), ops).records == Only([Token("v", limits.lifetime)])
  {
    var v := Add("n", "v", 0, 0);
    AnyOrderFits(limits.fits, ["v"]);
    assert multiset(["v"]) == multiset{"v"};
    FirstIsPushed(limits, "v");
    AddToOnly(limits, [], serial, "v", 0, [Token("v", limits.lifetime)]);
    FirstOp(limits, Empty(serial), v, [], 0);
    assert [v] + [] == [v];
  }

  /** Two values are added, and the first one again at the reading at which it expires. The serial
      moves over the same set, in another order. */
  lemma {:induction false} ReorderingAdvanceExample(limits: Limits, serial: Serial)
    requires ValidLimits(limits) && limits.lifetime >= 2 && limits.maxTokens >= 2 && limits.fits(["a", "b"])
    ensures var ops, op := [Add("n", "a", 0, 0), Add("n", "b", 1, 1)], Add("n", "a", limits.lifetime, limits.lifetime);
            var z := Run(limits, Empty(serial), ops);
            var next := Step(limits, z, op);
            && Timely(limits, Empty(serial), ops, 0) && TimelyOp(op, Clock(limits, Empty(serial), ops, 0))
            && next.serial == Advance(z.serial)
            && Pairs(next.records) == Pairs(z.records) && !SameContents(z.records, next.records)
  {
    TwoAdded(limits, serial);
    var ops := [Add("n", "a", 0, 0), Add("n", "b", 1, 1)];
    var again := Add("n", "a", limits.lifetime, limits.lifetime);
    var z := Run(limits, Empty(serial), ops);
    ReachableInv(limits, serial, 0, ops);
    assert TokensOf(z.records, "n")[0] == Token("a", limits.lifetime);
    assert TokensOf(z.records, "n")[1] == Token("b", limits.lifetime + 1);
    assert IsOnlyExpired(z.records, "n", "a", limits.lifetime);
    AdvanceOverSameSetIff(limits, z, again);
    AdvanceOverSameDataIff(limits, z, again);
    StepAdvancesAtMostOnce(limits, z, again);
  }

  lemma {:induction false} TwoAdded(limits: Limits, serial: Serial)
    requires ValidLimits(limits) && limits.lifetime >= 2 && limits.maxTokens >= 2 && limits.fits(["a", "b"])
    ensures var ops := [Add("n", "a", 0, 0), Add("n", "b", 1, 1)];
            && Timely(limits, Empty(serial), ops, 0) && Clock(limits, Empty(serial), ops, 0) == 1
            && Run(limits, Empty(serial), ops).records
                 == Only([Token("a", limits.lifetime), Token("b", limits.lifetime + 1)])
  {
    var a, b := Token("a", limits.lifetime), Token("b", limits.lifetime + 1);
    OneFits(limits, "a", "b");
    FirstIsPushed(limits, "a");
    AddToOnly(limits, [], serial, "a", 0, [a]);
    SecondIsPushed(limits, a, "b");
    AddToOnly(limits, [a], Advance(serial), "b", 1, [a, b]);
    TwoOps(limits, Empty(serial), Add("n", "a", 0, 0), Add("n", "b", 1, 1), Zone(Only([a]), Advance(serial)), 0, 0);
  }
}
