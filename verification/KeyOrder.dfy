/** Iteration order of the ordered maps and sets: ascending, or descending for the bids. */
module KeyOrder {

  /** True if key p comes strictly before key q; `descending` is `std::greater`. */
  predicate Before(descending: bool, p: int, q: int) {
    if descending then p > q else p < q
  }

  lemma EmptyOrNot(keys: set<int>)
    ensures keys == {} || exists x :: x in keys
  {
    if !(exists x :: x in keys) {
      assert keys == {};
    }
  }

  ghost predicate IsFirst(descending: bool, keys: set<int>, p: int) {
    p in keys && forall q | q in keys && q != p :: Before(descending, p, q)
  }

  lemma {:induction false} FirstExists(descending: bool, keys: set<int>)
    requires keys != {}
    ensures exists p :: IsFirst(descending, keys, p)
    decreases |keys|
  {
    EmptyOrNot(keys);
    var x :| x in keys;
    var others := keys - {x};
    assert forall q :: q in keys <==> q == x || q in others;
    if others == {} {
      assert IsFirst(descending, keys, x);
    } else {
      FirstExists(descending, others);
      var p :| IsFirst(descending, others, p);
      assert IsFirst(descending, keys, if Before(descending, x, p) then x else p);
    }
  }

  /** `*begin()` of a non-empty ordered container. */
  function First(descending: bool, keys: set<int>): (p: int)
    requires keys != {}
    ensures p in keys
    ensures forall q | q in keys && q != p :: Before(descending, p, q)
  {
    FirstExists(descending, keys);
    assert exists p :: IsFirst(descending, keys, p) && p in keys;
    var p :| p in keys && forall q | q in keys && q != p :: Before(descending, p, q);
    p
  }

  /** The keys of an ordered container in iteration order. */
  function InOrder(descending: bool, keys: set<int>): (ks: seq<int>)
    ensures forall k :: k in ks <==> k in keys
  {
    if keys == {} then [] else
      var k := First(descending, keys);
      [k] + InOrder(descending, keys - {k})
  }

  ghost predicate Ordered(descending: bool, ks: seq<int>) {
    forall i, j | 0 <= i < j < |ks| :: Before(descending, ks[i], ks[j])
  }

  lemma PrependOrdered(descending: bool, k: int, rest: seq<int>)
    requires Ordered(descending, rest) && forall i | 0 <= i < |rest| :: Before(descending, k, rest[i])
    ensures Ordered(descending, [k] + rest)
  {
  }

  lemma OrderedIsDistinct(descending: bool, ks: seq<int>, i: nat)
    requires Ordered(descending, ks) && i < |ks|
    ensures ks[i] !in ks[..i]
  {
    forall j | 0 <= j < i ensures ks[..i][j] != ks[i] {
      assert Before(descending, ks[j], ks[i]);
    }
  }

  lemma {:induction false} InOrderIsOrdered(descending: bool, keys: set<int>)
    ensures Ordered(descending, InOrder(descending, keys))
    decreases |keys|
  {
    if keys != {} {
      var k := First(descending, keys);
      var rest := InOrder(descending, keys - {k});
      InOrderIsOrdered(descending, keys - {k});
      forall i | 0 <= i < |rest| ensures Before(descending, k, rest[i]) {
        assert rest[i] in keys - {k};
      }
      PrependOrdered(descending, k, rest);
    }
  }

  lemma InOrderIsSorted(descending: bool, keys: set<int>)
    ensures var ks := InOrder(descending, keys);
      Ordered(descending, ks) && forall i | 0 <= i < |ks| :: ks[i] !in ks[..i]
  {
    InOrderIsOrdered(descending, keys);
    var ks := InOrder(descending, keys);
    forall i | 0 <= i < |ks| ensures ks[i] !in ks[..i] {
      OrderedIsDistinct(descending, ks, i);
    }
  }
}
