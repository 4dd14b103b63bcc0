/** The token bucket in front of the mutation API (src/api.rs), over exact reals. */
module RateGate {

  const REQUEST_RATE_PER_SECOND: real := 20.0
  const REQUEST_RATE_BURST: nat := 100
  const USIZE_MAX: nat := 0xFFFF_FFFF_FFFF_FFFF

  /** The burst that the router chooses: at least 100, and twice the token limit, saturating. */
  function RouterBurst(maxTokens: nat): nat {
    var doubled := if 2 * maxTokens > USIZE_MAX then USIZE_MAX else 2 * maxTokens;
    if doubled > REQUEST_RATE_BURST then doubled else REQUEST_RATE_BURST
  }

  function Min(a: real, b: real): real {
    if a <= b then a else b
  }

  /** Seconds since the last refill; a clock that went back counts as no time at all. */
  function Elapsed(last: real, now: real): real {
    if now > last then now - last else 0.0
  }

  datatype Gate = Gate(rate: real, burst: real)

  datatype Bucket = Bucket(tokens: real, lastRefill: real)

  function Refilled(g: Gate, b: Bucket, now: real): real {
    Min(b.tokens + Elapsed(b.lastRefill, now) * g.rate, g.burst)
  }

  /** The bucket after a call at `now` that was decided as `admit`. */
  function Decide(g: Gate, b: Bucket, now: real, admit: bool): Bucket {
    Bucket(Refilled(g, b, now) - (if admit then 1.0 else 0.0), now)
  }

  /** The decision of the bucket itself. */
  predicate Admits(g: Gate, b: Bucket, now: real) {
    Refilled(g, b, now) >= 1.0
  }

  class TokenBucket {
    var tokens: real
    var lastRefill: real
    const ratePerSecond: real
    const burst: real

    ghost function State(): Bucket
      reads this
    {
      Bucket(tokens, lastRefill)
    }

    ghost function Limits(): Gate {
      Gate(ratePerSecond, burst)
    }

    constructor (ratePerSecond: real, burst: nat, now: real)
      ensures State() == Bucket(burst as real, now) && Limits() == Gate(ratePerSecond, burst as real)
    {
      this.tokens := burst as real;
      this.lastRefill := now;
      this.ratePerSecond := ratePerSecond;
      this.burst := burst as real;
    }

    method CheckRate(now: real) returns (admitted: bool)
      modifies this
      ensures admitted == Admits(Limits(), old(State()), now)
      ensures State() == Decide(Limits(), old(State()), now, admitted)
    {
      var elapsed := if now > lastRefill then now - lastRefill else 0.0;
      tokens := if tokens + elapsed * ratePerSecond <= burst then tokens + elapsed * ratePerSecond else burst;
      lastRefill := now;
      if tokens < 1.0 {
        return false;
      }
      tokens := tokens - 1.0;
      return true;
    }
  }

  // ---- Runs ------------------------------------------------------------------------------

  /** What the bucket decides for calls at the given times. */
  function Decisions(g: Gate, b: Bucket, times: seq<real>): (ds: seq<bool>)
    ensures |ds| == |times|
    decreases times
  {
    if times == [] then []
    else
      var admit := Admits(g, b, times[0]);
      [admit] + Decisions(g, Decide(g, b, times[0], admit), times[1..])
  }

  function Final(g: Gate, b: Bucket, times: seq<real>): Bucket
    decreases times
  {
    if times == [] then b
    else Final(g, Decide(g, b, times[0], Admits(g, b, times[0])), times[1..])
  }

  /** The refilled level that call `i` finds when the earlier calls were decided by `ds`. */
  function Level(g: Gate, b: Bucket, times: seq<real>, ds: seq<bool>, i: nat): real
    requires |ds| == |times| && i < |times|
    decreases i
  {
    if i == 0 then Refilled(g, b, times[0])
    else Level(g, Decide(g, b, times[0], ds[0]), times[1..], ds[1..], i - 1)
  }

  ghost predicate Sorted(times: seq<real>) {
    forall i, j | 0 <= i <= j < |times| :: times[i] <= times[j]
  }

  /** Clock readings never go back, and none precedes the last refill. */
  ghost predicate Timely(b: Bucket, times: seq<real>) {
    Sorted(times) && (times != [] ==> b.lastRefill <= times[0])
  }

  function Count(ds: seq<bool>): nat {
    if ds == [] then 0 else (if ds[0] then 1 else 0) + Count(ds[1..])
  }

  /** What a window from call `j` to call `i` may still admit, after the admissions inside it. */
  function WindowRoom(g: Gate, times: seq<real>, ds: seq<bool>, j: nat, i: nat): real
    requires |ds| == |times| && j <= i < |times|
  {
    g.burst + g.rate * (times[i] - times[j]) - Count(ds[j..i]) as real
  }

  /** The calls admitted from call `j` on, together with call `i`, are at most the burst plus the
      rate times the length of the window. */
  ghost predicate WindowAllows(g: Gate, times: seq<real>, ds: seq<bool>, j: nat, i: nat)
    requires |ds| == |times| && j <= i < |times|
  {
    Count(ds[j..i]) as real + 1.0 <= g.burst + g.rate * (times[i] - times[j])
  }

  ghost predicate EveryWindowAllows(g: Gate, times: seq<real>, ds: seq<bool>, i: nat)
    requires |ds| == |times| && i < |times|
  {
    forall j: nat | j <= i :: WindowAllows(g, times, ds, j, i)
  }

  /** Every window that ends with an admitted call stays within burst and rate. */
  ghost predicate WithinBound(g: Gate, times: seq<real>, ds: seq<bool>)
    requires |ds| == |times|
  {
    forall i: nat | i < |times| && ds[i] :: EveryWindowAllows(g, times, ds, i)
  }

  lemma {:induction false} AllowsIffRoom(g: Gate, times: seq<real>, ds: seq<bool>, j: nat, i: nat)
    requires |ds| == |times| && j <= i < |times|
    ensures WindowAllows(g, times, ds, j, i) <==> WindowRoom(g, times, ds, j, i) >= 1.0
  {
  }

  lemma {:induction false} SliceOfTail(ds: seq<bool>, j: nat, i: nat)
    requires 1 <= j <= i <= |ds|
    ensures ds[1..][j - 1..i - 1] == ds[j..i]
  {
    var tail := ds[1..];
    assert |tail[j - 1..i - 1]| == |ds[j..i]|;
    assert forall k | 0 <= k < i - j :: tail[j - 1..i - 1][k] == ds[j..i][k];
  }

  lemma {:induction false} WindowShift(g: Gate, times: seq<real>, ds: seq<bool>, j: nat, i: nat)
    requires |ds| == |times| && 1 <= j <= i < |times|
    ensures WindowRoom(g, times, ds, j, i) == WindowRoom(g, times[1..], ds[1..], j - 1, i - 1)
  {
    SliceOfTail(ds, j, i);
  }

  lemma {:induction false} TimelyTail(g: Gate, b: Bucket, times: seq<real>, admit: bool)
    requires Timely(b, times) && times != []
    ensures Timely(Decide(g, b, times[0], admit), times[1..])
  {
  }

  lemma {:induction false} Distribute(r: real, x: real, y: real)
    ensures r * (x + y) == r * x + r * y
  {
  }

  /** Room left by the initial level. */
  function StartRoom(g: Gate, b: Bucket, times: seq<real>, ds: seq<bool>, i: nat): real
    requires |ds| == |times| && i < |times|
  {
    b.tokens + g.rate * (times[i] - b.lastRefill) - Count(ds[..i]) as real
  }

  lemma {:induction false} StartRoomStep(g: Gate, b: Bucket, times: seq<real>, ds: seq<bool>, i: nat)
    requires |ds| == |times| && 0 < i < |times| && Timely(b, times)
    ensures StartRoom(g, Decide(g, b, times[0], ds[0]), times[1..], ds[1..], i - 1)
         == Min(StartRoom(g, b, times, ds, i), WindowRoom(g, times, ds, 0, i))
  {
    assert ds[..i] == ds[0..i] == [ds[0]] + ds[1..][..i - 1];
    Distribute(g.rate, times[i] - times[0], times[0] - b.lastRefill);
    assert (times[i] - times[0]) + (times[0] - b.lastRefill) == times[i] - b.lastRefill;
  }

  lemma {:induction false} FirstLevel(g: Gate, b: Bucket, times: seq<real>, ds: seq<bool>)
    requires |ds| == |times| && times != [] && Timely(b, times)
    ensures Level(g, b, times, ds, 0) == Min(StartRoom(g, b, times, ds, 0), WindowRoom(g, times, ds, 0, 0))
  {
    var elapsed := times[0] - b.lastRefill;
    assert ds[0..0] == [] && ds[..0] == [];
    assert times[0] - times[0] == 0.0;
    assert g.rate * 0.0 == 0.0;
    assert Elapsed(b.lastRefill, times[0]) == elapsed;
    assert elapsed * g.rate == g.rate * elapsed;
  }

  /** The level is a lower bound of the room in every window, and is the room of one of them. */
  lemma {:induction false} LevelIsLeastRoom(g: Gate, b: Bucket, times: seq<real>, ds: seq<bool>, i: nat)
    returns (least: int)
    requires |ds| == |times| && i < |times| && Timely(b, times)
    ensures forall j | 0 <= j <= i :: Level(g, b, times, ds, i) <= WindowRoom(g, times, ds, j, i)
    ensures Level(g, b, times, ds, i) <= StartRoom(g, b, times, ds, i)
    ensures -1 <= least <= i
    ensures Level(g, b, times, ds, i)
         == if least == -1 then StartRoom(g, b, times, ds, i) else WindowRoom(g, times, ds, least, i)
    decreases i
  {
    if i == 0 {
      FirstLevel(g, b, times, ds);
      least := if Level(g, b, times, ds, 0) == WindowRoom(g, times, ds, 0, 0) then 0 else -1;
    } else {
      var b', times', ds' := Decide(g, b, times[0], ds[0]), times[1..], ds[1..];
      TimelyTail(g, b, times, ds[0]);
      var least' := LevelIsLeastRoom(g, b', times', ds', i - 1);
      forall j | 1 <= j <= i
        ensures WindowRoom(g, times, ds, j, i) == WindowRoom(g, times', ds', j - 1, i - 1)
      {
        WindowShift(g, times, ds, j, i);
      }
      StartRoomStep(g, b, times, ds, i);
      var start := StartRoom(g, b, times, ds, i);
      least := if least' >= 0 then least' + 1 else if start <= WindowRoom(g, times, ds, 0, i) then -1 else 0;
    }
  }

  lemma {:induction false} DecidedByLevel(g: Gate, b: Bucket, times: seq<real>, i: nat)
    requires i < |times|
    ensures Decisions(g, b, times)[i] <==> Level(g, b, times, Decisions(g, b, times), i) >= 1.0
    decreases i
  {
    if i > 0 {
      var admit := Admits(g, b, times[0]);
      DecidedByLevel(g, Decide(g, b, times[0], admit), times[1..], i - 1);
      assert Decisions(g, b, times)[1..] == Decisions(g, Decide(g, b, times[0], admit), times[1..]);
    }
  }

  /** A level of at least one means that every window allows the call, when the bucket started full. */
  lemma {:induction false} LevelIffWindows(g: Gate, created: real, times: seq<real>, ds: seq<bool>, i: nat)
    requires g.rate >= 0.0 && |ds| == |times| && i < |times| && Timely(Bucket(g.burst, created), times)
    ensures Level(g, Bucket(g.burst, created), times, ds, i) >= 1.0 <==> EveryWindowAllows(g, times, ds, i)
  {
    var least := LevelIsLeastRoom(g, Bucket(g.burst, created), times, ds, i);
    StartIsNoTighter(g, created, times, ds, i);
    AllowsIffRoom(g, times, ds, if least == -1 then 0 else least, i);
    forall j: nat | j <= i
      ensures WindowAllows(g, times, ds, j, i) <==> WindowRoom(g, times, ds, j, i) >= 1.0
    {
      AllowsIffRoom(g, times, ds, j, i);
    }
  }

  /** A full bucket admits a call iff every window from this or an earlier call up to this one,
      this call included, stays within burst plus rate times its length. */
  lemma {:induction false} AdmittedIff(g: Gate, created: real, times: seq<real>, i: nat)
    requires g.rate >= 0.0 && i < |times| && Timely(Bucket(g.burst, created), times)
    ensures var ds := Decisions(g, Bucket(g.burst, created), times);
            ds[i] <==> EveryWindowAllows(g, times, ds, i)
  {
    var b := Bucket(g.burst, created);
    DecidedByLevel(g, b, times, i);
    LevelIffWindows(g, created, times, Decisions(g, b, times), i);
  }

  lemma {:induction false} StartIsNoTighter(g: Gate, created: real, times: seq<real>, ds: seq<bool>, i: nat)
    requires g.rate >= 0.0 && |ds| == |times| && i < |times| && Timely(Bucket(g.burst, created), times)
    ensures WindowRoom(g, times, ds, 0, i) <= StartRoom(g, Bucket(g.burst, created), times, ds, i)
  {
    assert ds[0..i] == ds[..i];
    Distribute(g.rate, times[i] - times[0], times[0] - created);
    assert (times[i] - times[0]) + (times[0] - created) == times[i] - created;
    assert g.rate * (times[0] - created) >= 0.0;
  }

  /** What the bucket admits is within the bound. */
  lemma {:induction false} GateIsSound(g: Gate, created: real, times: seq<real>)
    requires g.rate >= 0.0 && Timely(Bucket(g.burst, created), times)
    ensures WithinBound(g, times, Decisions(g, Bucket(g.burst, created), times))
  {
    var ds := Decisions(g, Bucket(g.burst, created), times);
    forall i: nat | i < |times| && ds[i]
      ensures EveryWindowAllows(g, times, ds, i)
    {
      AdmittedIff(g, created, times, i);
    }
  }

  /** The greedy bucket's lead, in tokens and admissions together, survives one call. */
  lemma {:induction false} LeadStep(g: Gate, lead: Bucket, other: Bucket, t: real, admitOther: bool, gained: nat)
    requires lead.lastRefill == other.lastRefill && gained as real + lead.tokens >= other.tokens
    requires admitOther ==> Admits(g, other, t)
    ensures var admit := Admits(g, lead, t);
            var gained' := gained + (if admit then 1 else 0) - (if admitOther then 1 else 0);
            && gained' >= 0
            && gained' as real + Decide(g, lead, t, admit).tokens >= Decide(g, other, t, admitOther).tokens
  {
    var earned := Elapsed(lead.lastRefill, t) * g.rate;
    assert Refilled(g, lead, t) == Min(lead.tokens + earned, g.burst);
    assert Refilled(g, other, t) == Min(other.tokens + earned, g.burst);
    LeadArithmetic(lead.tokens + earned, other.tokens + earned, g.burst, gained);
  }

  lemma {:induction false} LeadArithmetic(lead: real, other: real, burst: real, gained: nat)
    requires gained as real + lead >= other
    ensures gained as real + Min(lead, burst) >= Min(other, burst)
    ensures Min(other, burst) >= 1.0 && Min(lead, burst) < 1.0 ==> gained > 0
  {
  }

  lemma {:induction false} LaterLevels(g: Gate, b: Bucket, times: seq<real>, ds: seq<bool>)
    requires |ds| == |times| && times != []
    requires forall i | 0 <= i < |times| && ds[i] :: Level(g, b, times, ds, i) >= 1.0
    ensures ds[0] ==> Admits(g, b, times[0])
    ensures forall i | 0 <= i < |times| - 1 && ds[1..][i] ::
              Level(g, Decide(g, b, times[0], ds[0]), times[1..], ds[1..], i) >= 1.0
  {
    assert ds[0] ==> Level(g, b, times, ds, 0) >= 1.0;
    forall i | 0 <= i < |times| - 1 && ds[1..][i]
      ensures Level(g, Decide(g, b, times[0], ds[0]), times[1..], ds[1..], i) >= 1.0
    {
      assert ds[i + 1];
      assert Level(g, b, times, ds, i + 1) >= 1.0;
    }
  }

  lemma {:induction false} CountCons(ds: seq<bool>, k: nat)
    requires 0 < k <= |ds|
    ensures Count(ds[..k]) == (if ds[0] then 1 else 0) + Count(ds[1..][..k - 1])
  {
    assert ds[..k][1..] == ds[1..][..k - 1];
  }

  lemma {:induction false} GreedyLeads(g: Gate, lead: Bucket, other: Bucket, times: seq<real>, ds: seq<bool>,
                                       gained: nat, k: nat)
    requires |ds| == |times| && k <= |times|
    requires lead.lastRefill == other.lastRefill && gained as real + lead.tokens >= other.tokens
    requires forall i | 0 <= i < |times| && ds[i] :: Level(g, other, times, ds, i) >= 1.0
    ensures Count(ds[..k]) <= gained + Count(Decisions(g, lead, times)[..k])
    decreases k
  {
    if k > 0 {
      var t, admit := times[0], Admits(g, lead, times[0]);
      LaterLevels(g, other, times, ds);
      LeadStep(g, lead, other, t, ds[0], gained);
      var gained' := gained + (if admit then 1 else 0) - (if ds[0] then 1 else 0);
      GreedyLeads(g, Decide(g, lead, t, admit), Decide(g, other, t, ds[0]), times[1..], ds[1..], gained', k - 1);
      CountCons(ds, k);
      CountCons(Decisions(g, lead, times), k);
    }
  }

  /** No pattern of decisions within the bound has admitted more calls at any point of the run. */
  lemma {:induction false} GateIsMostPermissive(g: Gate, created: real, times: seq<real>, ds: seq<bool>, k: nat)
    requires g.rate >= 0.0 && |ds| == |times| && k <= |times| && Timely(Bucket(g.burst, created), times)
    requires WithinBound(g, times, ds)
    ensures Count(ds[..k]) <= Count(Decisions(g, Bucket(g.burst, created), times)[..k])
  {
    var b := Bucket(g.burst, created);
    forall i | 0 <= i < |times| && ds[i]
      ensures Level(g, b, times, ds, i) >= 1.0
    {
      assert EveryWindowAllows(g, times, ds, i);
      LevelIffWindows(g, created, times, ds, i);
    }
    GreedyLeads(g, b, b, times, ds, 0, k);
  }

  // ---- Refused calls ---------------------------------------------------------------------

  function Kept<T>(s: seq<T>, keep: seq<bool>): seq<T>
    requires |s| == |keep|
  {
    if s == [] then [] else (if keep[0] then [s[0]] else []) + Kept(s[1..], keep[1..])
  }

  /** `full` is what `sparse` becomes when it is only refilled up to the time of `full`. */
  ghost predicate Refills(g: Gate, sparse: Bucket, full: Bucket) {
    sparse.lastRefill <= full.lastRefill && full.tokens == Refilled(g, sparse, full.lastRefill)
  }

  lemma {:induction false} RefillTwice(g: Gate, sparse: Bucket, full: Bucket, now: real)
    requires g.rate >= 0.0 && Refills(g, sparse, full) && full.lastRefill <= now
    ensures Refilled(g, full, now) == Refilled(g, sparse, now)
  {
    var x, y := full.lastRefill - sparse.lastRefill, now - full.lastRefill;
    Distribute(g.rate, x, y);
    assert x + y == now - sparse.lastRefill;
    assert g.rate * y >= 0.0;
    assert Elapsed(sparse.lastRefill, full.lastRefill) * g.rate == g.rate * x;
    assert Elapsed(full.lastRefill, now) * g.rate == g.rate * y;
    assert Elapsed(sparse.lastRefill, now) * g.rate == g.rate * (x + y);
  }

  lemma {:induction false} RunCons(g: Gate, b: Bucket, t: real, rest: seq<real>)
    ensures var next := Decide(g, b, t, Admits(g, b, t));
            && Decisions(g, b, [t] + rest) == [Admits(g, b, t)] + Decisions(g, next, rest)
            && Final(g, b, [t] + rest) == Final(g, next, rest)
  {
    assert ([t] + rest)[1..] == rest;
  }

  /** A refused call only refills, so dropping it keeps the relation. */
  lemma {:induction false} RefusedStep(g: Gate, sparse: Bucket, full: Bucket, t: real)
    requires g.rate >= 0.0 && Refills(g, sparse, full) && full.lastRefill <= t
    ensures Refills(g, sparse, Decide(g, full, t, false))
  {
    RefillTwice(g, sparse, full, t);
  }

  /** A call that is kept is decided alike, and afterwards the buckets are equal. */
  lemma {:induction false} KeptStep(g: Gate, sparse: Bucket, full: Bucket, t: real)
    requires g.rate >= 0.0 && Refills(g, sparse, full) && full.lastRefill <= t
    ensures var admit := Admits(g, full, t);
            && Admits(g, sparse, t) == admit
            && Decide(g, sparse, t, admit) == Decide(g, full, t, admit)
            && Refills(g, Decide(g, sparse, t, admit), Decide(g, full, t, admit))
  {
    RefillTwice(g, sparse, full, t);
    AfterDecision(g, Decide(g, sparse, t, Admits(g, full, t)), Decide(g, full, t, Admits(g, full, t)));
  }

  ghost predicate RefusedWhereDropped(g: Gate, b: Bucket, times: seq<real>, keep: seq<bool>)
    requires |keep| == |times|
  {
    forall i | 0 <= i < |times| && !keep[i] :: !Decisions(g, b, times)[i]
  }

  lemma {:induction false} ErasedRun(g: Gate, sparse: Bucket, full: Bucket, times: seq<real>, keep: seq<bool>,
                                     kept: seq<real>, end: real)
    requires g.rate >= 0.0 && Refills(g, sparse, full) && Timely(full, times) && |keep| == |times|
    requires full.lastRefill <= end && forall i | 0 <= i < |times| :: times[i] <= end
    requires RefusedWhereDropped(g, full, times, keep) && kept == Kept(times, keep)
    ensures Decisions(g, sparse, kept) == Kept(Decisions(g, full, times), keep)
    ensures Refilled(g, Final(g, sparse, kept), end) == Refilled(g, Final(g, full, times), end)
    decreases times
  {
    if times == [] {
      RefillTwice(g, sparse, full, end);
    } else {
      var t, admit := times[0], Admits(g, full, times[0]);
      var full', rest := Decide(g, full, t, admit), Kept(times[1..], keep[1..]);
      TimelyTail(g, full, times, admit);
      LaterRefusals(g, full, times, keep);
      KeptDecisions(g, full, times, keep);
      if keep[0] {
        KeptStep(g, sparse, full, t);
        ErasedRun(g, full', full', times[1..], keep[1..], rest, end);
        RunCons(g, sparse, t, rest);
      } else {
        assert kept == rest;
        RefusedStep(g, sparse, full, t);
        ErasedRun(g, sparse, full', times[1..], keep[1..], rest, end);
      }
    }
  }

  lemma {:induction false} KeptDecisions(g: Gate, b: Bucket, times: seq<real>, keep: seq<bool>)
    requires times != [] && |keep| == |times|
    ensures var admit := Admits(g, b, times[0]);
            Kept(Decisions(g, b, times), keep)
              == (if keep[0] then [admit] else [])
                 + Kept(Decisions(g, Decide(g, b, times[0], admit), times[1..]), keep[1..])
  {
    assert Decisions(g, b, times)[1..] == Decisions(g, Decide(g, b, times[0], Admits(g, b, times[0])), times[1..]);
  }

  lemma {:induction false} LaterRefusals(g: Gate, b: Bucket, times: seq<real>, keep: seq<bool>)
    requires times != [] && |keep| == |times| && RefusedWhereDropped(g, b, times, keep)
    ensures !keep[0] ==> !Admits(g, b, times[0])
    ensures RefusedWhereDropped(g, Decide(g, b, times[0], Admits(g, b, times[0])), times[1..], keep[1..])
  {
    var ds := Decisions(g, b, times);
    assert ds[0] == Admits(g, b, times[0]);
    forall i | 0 <= i < |times| - 1 && !keep[1..][i]
      ensures !Decisions(g, Decide(g, b, times[0], Admits(g, b, times[0])), times[1..])[i]
    {
      assert !ds[i + 1];
    }
  }

  lemma {:induction false} AfterDecision(g: Gate, sparse: Bucket, full: Bucket)
    requires sparse == full && sparse.tokens <= g.burst
    ensures Refills(g, sparse, full)
  {
  }

  /** Erasing any refused calls changes no other decision and no later level. */
  lemma {:induction false} RefusedCallsAreUnobservable(g: Gate, b: Bucket, times: seq<real>, keep: seq<bool>, end: real)
    requires g.rate >= 0.0 && b.tokens <= g.burst && Timely(b, times) && |keep| == |times|
    requires b.lastRefill <= end && forall i | 0 <= i < |times| :: times[i] <= end
    requires RefusedWhereDropped(g, b, times, keep)
    ensures Decisions(g, b, Kept(times, keep)) == Kept(Decisions(g, b, times), keep)
    ensures Refilled(g, Final(g, b, Kept(times, keep)), end) == Refilled(g, Final(g, b, times), end)
  {
    AfterDecision(g, b, b);
    ErasedRun(g, b, b, times, keep, Kept(times, keep), end);
  }

  // ---- The burst of the router -----------------------------------------------------------

  lemma {:induction false} CountAtMostLength(ds: seq<bool>)
    ensures Count(ds) <= |ds|
  {
    if ds != [] {
      CountAtMostLength(ds[1..]);
    }
  }

  /** The burst in numbers: 100 up to 50 tokens, and two for each token from there on. */
  lemma {:induction false} BurstInCalls(maxTokens: nat)
    ensures maxTokens <= 50 ==> RouterBurst(maxTokens) == 100
    ensures 50 <= maxTokens && 2 * maxTokens < 0x1_0000_0000_0000_0000 ==> RouterBurst(maxTokens) == 2 * maxTokens
    ensures REQUEST_RATE_PER_SECOND == 20.0
  {
  }

  /** One present and one cleanup for each of `maxTokens` tokens are all admitted, however fast. */
  lemma {:induction false} ConcurrentCycleIsAdmitted(maxTokens: nat, created: real, times: seq<real>, i: nat)
    requires 2 * maxTokens <= USIZE_MAX && |times| <= 2 * maxTokens && i < |times|
    requires Timely(Bucket(RouterBurst(maxTokens) as real, created), times)
    ensures Decisions(Gate(REQUEST_RATE_PER_SECOND, RouterBurst(maxTokens) as real),
                      Bucket(RouterBurst(maxTokens) as real, created), times)[i]
  {
    var g := Gate(REQUEST_RATE_PER_SECOND, RouterBurst(maxTokens) as real);
    var ds := Decisions(g, Bucket(g.burst, created), times);
    AdmittedIff(g, created, times, i);
    forall j: nat | j <= i
      ensures WindowAllows(g, times, ds, j, i)
    {
      CountAtMostLength(ds[j..i]);
      assert times[i] - times[j] >= 0.0;
    }
  }
}
