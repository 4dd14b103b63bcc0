/** What the store should hold, said in terms of the log of successful changes alone. */
module History {
  import opened Wrappers
  import opened Store

  /** A successful add, with the two clock readings it took, or a removal. */
  datatype Event =
    | Added(name: string, value: string, prunedAt: nat, stampedAt: nat)
    | Removed(name: string, value: string)

  predicate About(e: Event, name: string, value: string) {
    e.name == name && e.value == value
  }

  /** When the value was last added, unless it was removed since. */
  ghost function Stamp(log: seq<Event>, name: string, value: string): Option<nat> {
    if log == [] then None
    else
      var last := log[|log| - 1];
      if About(last, name, value) then (if last.Added? then Some(last.stampedAt) else None)
      else Stamp(log[..|log| - 1], name, value)
  }

  /** The last change to the value was an add, less than a lifetime ago. */
  ghost predicate LiveAt(log: seq<Event>, lifetime: nat, name: string, value: string, now: nat) {
    var stamp := Stamp(log, name, value);
    stamp.Some? && now < stamp.value + lifetime
  }

  /** The index of the latest add that did not find the value live, or -1. */
  ghost function Inserted(log: seq<Event>, lifetime: nat, name: string, value: string): int {
    if log == [] then -1
    else
      var last, before := log[|log| - 1], log[..|log| - 1];
      if About(last, name, value) && last.Added? && !LiveAt(before, lifetime, name, value, last.prunedAt)
      then |before|
      else Inserted(before, lifetime, name, value)
  }

  ghost predicate InsertionOrder(log: seq<Event>, lifetime: nat, name: string, values: seq<string>) {
    forall i, j | 0 <= i < j < |values| ::
      Inserted(log, lifetime, name, values[i]) < Inserted(log, lifetime, name, values[j])
  }

  /** Exactly the live values, each once, in the order of their latest insertion. */
  ghost predicate IsLiveList(log: seq<Event>, lifetime: nat, name: string, now: nat, values: seq<string>) {
    && (forall v :: v in values <==> LiveAt(log, lifetime, name, v, now))
    && (forall i, j | 0 <= i < j < |values| :: values[i] != values[j])
    && InsertionOrder(log, lifetime, name, values)
  }

  /** Everything live, as pairs of name and value. */
  ghost function LiveSet(log: seq<Event>, lifetime: nat, now: nat): set<(string, string)> {
    set e | e in log && LiveAt(log, lifetime, e.name, e.value, now) :: (e.name, e.value)
  }

  lemma {:induction false} StrictOrderIsUnique(key: string -> int, a: seq<string>, b: seq<string>)
    requires forall i, j | 0 <= i < j < |a| :: key(a[i]) < key(a[j])
    requires forall i, j | 0 <= i < j < |b| :: key(b[i]) < key(b[j])
    requires forall v :: v in a <==> v in b
    ensures a == b
  {
    if a == [] {
      assert forall i | 0 <= i < |b| :: b[i] in b;
    } else {
      assert a[0] in b && b != [];
      assert b[0] in a;
      assert a[0] == b[0];
      forall v
        ensures v in a[1..] <==> v in b[1..]
      {
        if v in a[1..] {
          var i :| 1 <= i < |a| && a[i] == v;
          assert v in b && v != b[0];
        }
        if v in b[1..] {
          var i :| 1 <= i < |b| && b[i] == v;
          assert v in a && v != a[0];
        }
      }
      StrictOrderIsUnique(key, a[1..], b[1..]);
      assert a == [a[0]] + a[1..] && b == [b[0]] + b[1..];
    }
  }

  /** The log determines the list. */
  lemma {:induction false} LiveListIsUnique(log: seq<Event>, lifetime: nat, name: string, now: nat, a: seq<string>,
                                            b: seq<string>)
    requires IsLiveList(log, lifetime, name, now, a) && IsLiveList(log, lifetime, name, now, b)
    ensures a == b
  {
    StrictOrderIsUnique(v => Inserted(log, lifetime, name, v), a, b);
  }

  // ---- One more event --------------------------------------------------------------------

  lemma {:induction false} StampAfter(log: seq<Event>, e: Event, name: string, value: string)
    ensures Stamp(log + [e], name, value)
         == if !About(e, name, value) then Stamp(log, name, value)
            else if e.Added? then Some(e.stampedAt) else None
  {
    assert (log + [e])[..|log|] == log;
  }

  lemma {:induction false} InsertedAfter(log: seq<Event>, lifetime: nat, e: Event, name: string, value: string)
    ensures Inserted(log + [e], lifetime, name, value)
         == if About(e, name, value) && e.Added? && !LiveAt(log, lifetime, name, value, e.prunedAt) then |log|
            else Inserted(log, lifetime, name, value)
  {
    assert (log + [e])[..|log|] == log;
  }

  lemma {:induction false} InsertedBound(log: seq<Event>, lifetime: nat, name: string, value: string)
    ensures -1 <= Inserted(log, lifetime, name, value) < |log|
    decreases log
  {
    if log != [] {
      InsertedBound(log[..|log| - 1], lifetime, name, value);
    }
  }

  lemma {:induction false} StampIsLogged(log: seq<Event>, name: string, value: string)
    requires Stamp(log, name, value).Some?
    ensures exists e :: e in log && About(e, name, value)
    decreases log
  {
    var last := log[|log| - 1];
    if About(last, name, value) {
      assert last in log;
    } else {
      StampIsLogged(log[..|log| - 1], name, value);
    }
  }

  // ---- The invariant of one list ---------------------------------------------------------

  ghost predicate Stamped(log: seq<Event>, lifetime: nat, name: string, t: Token) {
    var stamp := Stamp(log, name, t.value);
    stamp.Some? && t.expiresAt == stamp.value + lifetime
  }

  /** The list of a name agrees with the log: stamps are right, and nothing that is live at the
      last clock reading is missing. */
  ghost predicate ListInv(log: seq<Event>, lifetime: nat, name: string, tokens: seq<Token>, clock: nat) {
    && Distinct(tokens)
    && (forall t | t in tokens :: Stamped(log, lifetime, name, t))
    && (forall v :: LiveAt(log, lifetime, name, v, clock) ==> v in Values(tokens))
    && InsertionOrder(log, lifetime, name, Values(tokens))
  }

  ghost predicate AllAlive(tokens: seq<Token>, now: nat) {
    forall t | t in tokens :: t.expiresAt > now
  }

  lemma {:induction false} ValueMembers(tokens: seq<Token>, v: string)
    ensures v in Values(tokens) <==> exists t :: t in tokens && t.value == v
  {
    if v in Values(tokens) {
      var i :| 0 <= i < |tokens| && Values(tokens)[i] == v;
      assert tokens[i] in tokens;
    }
    if t :| t in tokens && t.value == v {
      var i :| 0 <= i < |tokens| && tokens[i] == t;
      assert Values(tokens)[i] == v;
    }
  }

  lemma {:induction false} FilterKeepsOrder(log: seq<Event>, lifetime: nat, name: string, tokens: seq<Token>,
                                            keep: Token -> bool)
    requires InsertionOrder(log, lifetime, name, Values(tokens))
    ensures InsertionOrder(log, lifetime, name, Values(Filter(tokens, keep)))
  {
    var at := FilterPositions(tokens, keep);
    var kept := Filter(tokens, keep);
    assert forall i | 0 <= i < |kept| :: Values(kept)[i] == Values(tokens)[at[i]];
  }

  lemma {:induction false} AliveKeeps(log: seq<Event>, lifetime: nat, name: string, tokens: seq<Token>, clock: nat,
                                      now: nat)
    requires ListInv(log, lifetime, name, tokens, clock) && clock <= now
    ensures ListInv(log, lifetime, name, Alive(tokens, now), now) && AllAlive(Alive(tokens, now), now)
  {
    var keep := (t: Token) => t.expiresAt > now;
    FilterMembers(tokens, keep);
    FilterDistinct(tokens, keep);
    FilterKeepsOrder(log, lifetime, name, tokens, keep);
    forall v | LiveAt(log, lifetime, name, v, now)
      ensures v in Values(Alive(tokens, now))
    {
      assert LiveAt(log, lifetime, name, v, clock);
      ValueMembers(tokens, v);
      var t :| t in tokens && t.value == v;
      assert Stamped(log, lifetime, name, t);
      ValueMembers(Alive(tokens, now), v);
    }
  }

  /** An event about another value leaves what the log says about this one. */
  lemma {:induction false} Unrelated(log: seq<Event>, lifetime: nat, e: Event, name: string, value: string)
    requires !About(e, name, value)
    ensures Stamp(log + [e], name, value) == Stamp(log, name, value)
    ensures Inserted(log + [e], lifetime, name, value) == Inserted(log, lifetime, name, value)
    ensures forall now :: LiveAt(log + [e], lifetime, name, value, now) == LiveAt(log, lifetime, name, value, now)
  {
    StampAfter(log, e, name, value);
    InsertedAfter(log, lifetime, e, name, value);
  }

  lemma {:induction false} OtherName(log: seq<Event>, lifetime: nat, e: Event, name: string, tokens: seq<Token>,
                                     clock: nat, later: nat)
    requires ListInv(log, lifetime, name, tokens, clock) && e.name != name && clock <= later
    ensures ListInv(log + [e], lifetime, name, tokens, later)
  {
    forall v
      ensures Stamp(log + [e], name, v) == Stamp(log, name, v)
      ensures Inserted(log + [e], lifetime, name, v) == Inserted(log, lifetime, name, v)
      ensures LiveAt(log + [e], lifetime, name, v, later) ==> LiveAt(log, lifetime, name, v, clock)
    {
      Unrelated(log, lifetime, e, name, v);
    }
  }

  lemma {:induction false} ListPush(log: seq<Event>, lifetime: nat, e: Event, tokens: seq<Token>)
    requires e.Added? && e.prunedAt <= e.stampedAt && e.value !in Values(tokens)
    requires ListInv(log, lifetime, e.name, tokens, e.prunedAt)
    ensures ListInv(log + [e], lifetime, e.name, tokens + [Token(e.value, e.stampedAt + lifetime)], e.stampedAt)
  {
    var pushed := tokens + [Token(e.value, e.stampedAt + lifetime)];
    StampAfter(log, e, e.name, e.value);
    InsertedAfter(log, lifetime, e, e.name, e.value);
    assert Values(pushed) == Values(tokens) + [e.value];
    forall v | v != e.value
      ensures Stamp(log + [e], e.name, v) == Stamp(log, e.name, v)
      ensures Inserted(log + [e], lifetime, e.name, v) == Inserted(log, lifetime, e.name, v) < |log|
      ensures LiveAt(log + [e], lifetime, e.name, v, e.stampedAt) ==> LiveAt(log, lifetime, e.name, v, e.prunedAt)
    {
      Unrelated(log, lifetime, e, e.name, v);
      InsertedBound(log, lifetime, e.name, v);
    }
    forall t | t in pushed
      ensures Stamped(log + [e], lifetime, e.name, t)
    {
      if t in tokens {
        ValueMembers(tokens, t.value);
      }
    }
    forall i, j | 0 <= i < j < |pushed|
      ensures pushed[i].value != pushed[j].value
      ensures Inserted(log + [e], lifetime, e.name, Values(pushed)[i])
            < Inserted(log + [e], lifetime, e.name, Values(pushed)[j])
    {
      assert Values(pushed)[i] == Values(tokens)[i];
      if j < |tokens| {
        assert Values(pushed)[j] == Values(tokens)[j];
      }
    }
  }

  lemma {:induction false} ListRefresh(log: seq<Event>, lifetime: nat, e: Event, tokens: seq<Token>)
    requires e.Added? && e.prunedAt <= e.stampedAt && IndexOf(tokens, e.value) < |tokens|
    requires ListInv(log, lifetime, e.name, tokens, e.prunedAt) && AllAlive(tokens, e.prunedAt)
    ensures ListInv(log + [e], lifetime, e.name,
                    tokens[IndexOf(tokens, e.value) := Token(e.value, e.stampedAt + lifetime)], e.stampedAt)
  {
    var at := IndexOf(tokens, e.value);
    var refreshed := tokens[at := Token(e.value, e.stampedAt + lifetime)];
    assert tokens[at] in tokens && Stamped(log, lifetime, e.name, tokens[at]);
    StampAfter(log, e, e.name, e.value);
    InsertedAfter(log, lifetime, e, e.name, e.value);
    assert Values(refreshed) == Values(tokens);
    forall v | v != e.value
      ensures Stamp(log + [e], e.name, v) == Stamp(log, e.name, v)
      ensures Inserted(log + [e], lifetime, e.name, v) == Inserted(log, lifetime, e.name, v)
      ensures LiveAt(log + [e], lifetime, e.name, v, e.stampedAt) ==> LiveAt(log, lifetime, e.name, v, e.prunedAt)
    {
      Unrelated(log, lifetime, e, e.name, v);
    }
    assert Values(tokens)[at] == e.value;
    forall t | t in refreshed
      ensures Stamped(log + [e], lifetime, e.name, t)
    {
      var i :| 0 <= i < |refreshed| && refreshed[i] == t;
      if i != at {
        assert tokens[i] in tokens && tokens[i].value != tokens[at].value;
      }
    }
    assert InsertionOrder(log + [e], lifetime, e.name, Values(tokens));
  }

  lemma {:induction false} ListRemove(log: seq<Event>, lifetime: nat, e: Event, tokens: seq<Token>, clock: nat)
    requires e.Removed? && ListInv(log, lifetime, e.name, tokens, clock)
    ensures ListInv(log + [e], lifetime, e.name, Without(tokens, e.value), clock)
  {
    var keep := (t: Token) => t.value != e.value;
    var rest := Without(tokens, e.value);
    FilterMembers(tokens, keep);
    FilterDistinct(tokens, keep);
    FilterKeepsOrder(log, lifetime, e.name, tokens, keep);
    StampAfter(log, e, e.name, e.value);
    forall v | v != e.value
      ensures Stamp(log + [e], e.name, v) == Stamp(log, e.name, v)
      ensures Inserted(log + [e], lifetime, e.name, v) == Inserted(log, lifetime, e.name, v)
    {
      Unrelated(log, lifetime, e, e.name, v);
    }
    forall v | LiveAt(log + [e], lifetime, e.name, v, clock)
      ensures v in Values(rest)
    {
      assert LiveAt(log, lifetime, e.name, v, clock);
      ValueMembers(tokens, v);
      ValueMembers(rest, v);
    }
    forall i | 0 <= i < |rest|
      ensures Values(rest)[i] != e.value
    {
      assert rest[i] in rest;
    }
  }
}
