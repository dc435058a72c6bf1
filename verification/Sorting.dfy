/** Sorting by a real key, as `sorted` and `argsort` do; elements with equal keys may come in any order. */
module Sorting {

  function Insert<T>(x: T, s: seq<T>, key: T -> real): seq<T> {
    if s == [] || key(x) <= key(s[0]) then [x] + s else [s[0]] + Insert(x, s[1..], key)
  }

  function Sort<T>(s: seq<T>, key: T -> real): seq<T> {
    if s == [] then [] else Insert(s[0], Sort(s[1..], key), key)
  }

  ghost predicate Sorted<T>(s: seq<T>, key: T -> real) {
    forall i, j | 0 <= i <= j < |s| :: key(s[i]) <= key(s[j])
  }

  lemma {:induction false} InsertAdds<T>(x: T, s: seq<T>, key: T -> real)
    ensures multiset(Insert(x, s, key)) == multiset(s) + multiset{x}
  {
    if s == [] || key(x) <= key(s[0]) {
      assert multiset([x] + s) == multiset{x} + multiset(s);
    } else {
      InsertAdds(x, s[1..], key);
      assert s == [s[0]] + s[1..];
    }
  }

  lemma InsertMembers<T>(x: T, s: seq<T>, key: T -> real, y: T)
    requires y in Insert(x, s, key)
    ensures y == x || y in s
  {
    InsertAdds(x, s, key);
    assert y in multiset(Insert(x, s, key));
  }

  lemma {:induction false} InsertIsSorted<T>(x: T, s: seq<T>, key: T -> real)
    requires Sorted(s, key)
    ensures Sorted(Insert(x, s, key), key)
  {
    if s != [] && key(x) > key(s[0]) {
      var rest := Insert(x, s[1..], key);
      InsertIsSorted(x, s[1..], key);
      forall i | 0 <= i < |rest| ensures key(s[0]) <= key(rest[i]) {
        InsertMembers(x, s[1..], key, rest[i]);
      }
    }
  }

  lemma InsertShape<T>(x: T, s: seq<T>, key: T -> real)
    requires Sorted(s, key)
    ensures Sorted(Insert(x, s, key), key) && multiset(Insert(x, s, key)) == multiset(s) + multiset{x}
  {
    InsertIsSorted(x, s, key);
    InsertAdds(x, s, key);
  }

  lemma {:induction false} SortShape<T>(s: seq<T>, key: T -> real)
    ensures Sorted(Sort(s, key), key) && multiset(Sort(s, key)) == multiset(s) && |Sort(s, key)| == |s|
  {
    if s != [] {
      assert s == [s[0]] + s[1..];
      SortShape(s[1..], key);
      InsertShape(s[0], Sort(s[1..], key), key);
    }
    assert |multiset(Sort(s, key))| == |multiset(s)|;
  }

  // ---------- counting ----------

  function Count<T>(s: seq<T>, which: T -> bool): (n: nat)
    ensures n <= |s|
  {
    if s == [] then 0 else (if which(s[0]) then 1 else 0) + Count(s[1..], which)
  }

  lemma {:induction false} CountOfInsert<T>(x: T, s: seq<T>, key: T -> real, which: T -> bool)
    ensures Count(Insert(x, s, key), which) == (if which(x) then 1 else 0) + Count(s, which)
  {
    if s == [] || key(x) <= key(s[0]) {
      assert ([x] + s)[1..] == s;
    } else {
      CountOfInsert(x, s[1..], key, which);
      assert ([s[0]] + Insert(x, s[1..], key))[1..] == Insert(x, s[1..], key);
    }
  }

  /** Sorting changes no count. */
  lemma {:induction false} CountOfSort<T>(s: seq<T>, key: T -> real, which: T -> bool)
    ensures Count(Sort(s, key), which) == Count(s, which)
  {
    if s != [] {
      CountOfSort(s[1..], key, which);
      CountOfInsert(s[0], Sort(s[1..], key), key, which);
    }
  }

  lemma {:induction false} CountOfConcat<T>(a: seq<T>, b: seq<T>, which: T -> bool)
    ensures Count(a + b, which) == Count(a, which) + Count(b, which)
  {
    if a == [] {
      assert a + b == b;
    } else {
      CountOfConcat(a[1..], b, which);
      assert (a + b)[1..] == a[1..] + b;
    }
  }

  lemma {:induction false} CountAll<T>(s: seq<T>, which: T -> bool)
    ensures (forall x | x in s :: which(x)) ==> Count(s, which) == |s|
    ensures (forall x | x in s :: !which(x)) ==> Count(s, which) == 0
  {
    if s != [] {
      CountAll(s[1..], which);
    }
  }

  /** If the property holds of the first n elements it holds at least n times, and if it fails for all behind
      them at most n times. */
  lemma CountOfPrefix<T>(s: seq<T>, n: nat, which: T -> bool)
    requires n <= |s|
    ensures (forall i | 0 <= i < n :: which(s[i])) ==> Count(s, which) >= n
    ensures (forall i | n <= i < |s| :: !which(s[i])) ==> Count(s, which) <= n
    ensures (forall i | n <= i < |s| :: which(s[i])) ==> Count(s, which) >= |s| - n
    ensures (forall i | 0 <= i < n :: !which(s[i])) ==> Count(s, which) <= |s| - n
  {
    assert s == s[..n] + s[n..];
    CountOfConcat(s[..n], s[n..], which);
    CountAll(s[..n], which);
    CountAll(s[n..], which);
  }

  lemma SortMembers<T>(s: seq<T>, key: T -> real, x: T)
    ensures x in Sort(s, key) <==> x in s
  {
    SortShape(s, key);
    assert x in Sort(s, key) <==> x in multiset(Sort(s, key));
  }
}
