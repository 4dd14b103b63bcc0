/** Bags of values, and tests on lists of values that only depend on the bag. */
module Bags {

  /** The values of a bag in some order. */
  ghost function SomeOrder(bag: multiset<string>): (values: seq<string>)
    ensures multiset(values) == bag
  {
    if bag == multiset{} then []
    else
      var v :| v in bag;
      [v] + SomeOrder(bag - multiset{v})
  }

  /** A test that accepts, with a list, every part of it in every order. */
  ghost predicate Downward(fits: seq<string> -> bool) {
    forall some, all | fits(all) && multiset(some) <= multiset(all) :: fits(some)
  }

  /** Whether the values of a bag pass the test, in whatever order they are listed. */
  ghost predicate BagFits(fits: seq<string> -> bool, bag: multiset<string>) {
    forall values | multiset(values) == bag :: fits(values)
  }

  lemma {:induction false} AnyOrderFits(fits: seq<string> -> bool, values: seq<string>)
    requires Downward(fits)
    ensures fits(values) <==> BagFits(fits, multiset(values))
  {
  }

  lemma {:induction false} SubBagFits(fits: seq<string> -> bool, some: multiset<string>, all: multiset<string>)
    requires Downward(fits) && some <= all && BagFits(fits, all)
    ensures BagFits(fits, some)
  {
    assert multiset(SomeOrder(all)) == all;
    assert fits(SomeOrder(all));
  }

  /** The values of a set of named values, as a bag: one copy for each name that has the value. */
  ghost function BagOf(pairs: set<(string, string)>): multiset<string> {
    if pairs == {} then multiset{}
    else
      var p :| p in pairs;
      BagOf(pairs - {p}) + multiset{p.1}
  }

  lemma {:induction false} BagWithout(pairs: set<(string, string)>, p: (string, string))
    requires p in pairs
    ensures BagOf(pairs) == BagOf(pairs - {p}) + multiset{p.1}
    decreases pairs
  {
    var q :| q in pairs && BagOf(pairs) == BagOf(pairs - {q}) + multiset{q.1};
    if q != p {
      BagWithout(pairs - {q}, p);
      BagWithout(pairs - {p}, q);
      assert pairs - {q} - {p} == pairs - {p} - {q};
    }
  }

  lemma {:induction false} BagWith(pairs: set<(string, string)>, p: (string, string))
    requires p !in pairs
    ensures BagOf(pairs + {p}) == BagOf(pairs) + multiset{p.1}
  {
    BagWithout(pairs + {p}, p);
    assert pairs + {p} - {p} == pairs;
  }

  lemma {:induction false} BagOfSubset(some: set<(string, string)>, all: set<(string, string)>)
    requires some <= all
    ensures BagOf(some) <= BagOf(all)
    decreases all
  {
    if !(all <= some) {
      var p :| p in all && p !in some;
      BagOfSubset(some, all - {p});
      BagWithout(all, p);
    } else {
      assert some == all;
    }
  }
}
