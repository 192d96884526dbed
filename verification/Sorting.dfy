/** Strings in code-point order, as `sorted(d.keys())` lists them. */
module Sorting {

  predicate LexLeq(a: string, b: string) {
    a == "" || (b != "" && (a[0] < b[0] || (a[0] == b[0] && LexLeq(a[1..], b[1..]))))
  }

  predicate LexLess(a: string, b: string) {
    a != b && LexLeq(a, b)
  }

  lemma {:induction false} LexTotal(a: string, b: string)
    ensures LexLeq(a, b) || LexLeq(b, a)
    ensures LexLeq(a, b) && LexLeq(b, a) ==> a == b
  {
    if a != "" && b != "" && a[0] == b[0] {
      LexTotal(a[1..], b[1..]);
      assert a == [a[0]] + a[1..] && b == [b[0]] + b[1..];
    }
  }

  lemma {:induction false} LexTransitive(a: string, b: string, c: string)
    requires LexLeq(a, b) && LexLeq(b, c)
    ensures LexLeq(a, c)
  {
    if a != "" && a[0] == b[0] && b[0] == c[0] {
      LexTransitive(a[1..], b[1..], c[1..]);
    }
  }

  ghost predicate Increasing(names: seq<string>) {
    forall i, j :: 0 <= i < j < |names| ==> LexLess(names[i], names[j])
  }

  /** `names` lists exactly the keys, each once, in increasing order. */
  ghost predicate IsSortedListing(names: seq<string>, keys: set<string>) {
    && Increasing(names)
    && (forall k :: k in names <==> k in keys)
  }

  function Insert(names: seq<string>, k: string): seq<string> {
    if names == [] then [k]
    else if LexLeq(k, names[0]) then [k] + names
    else [names[0]] + Insert(names[1..], k)
  }

  lemma {:induction false} InsertMembers(names: seq<string>, k: string, x: string)
    ensures x in Insert(names, k) <==> x == k || x in names
  {
    if names != [] {
      InsertMembers(names[1..], k, x);
      assert names == [names[0]] + names[1..];
    }
  }

  lemma {:induction false} InsertIncreasing(names: seq<string>, k: string)
    requires Increasing(names) && k !in names
    ensures Increasing(Insert(names, k))
  {
    if names != [] {
      var first := names[0];
      LexTotal(k, first);
      if LexLeq(k, first) {
        forall x | x in names
          ensures LexLess(k, x)
        {
          if x != first {
            LexTransitive(k, first, x);
          }
        }
      } else {
        InsertIncreasing(names[1..], k);
        forall x | x in Insert(names[1..], k)
          ensures LexLess(first, x)
        {
          InsertMembers(names[1..], k, x);
        }
      }
    }
  }

  lemma InsertListing(names: seq<string>, keys: set<string>, k: string)
    requires IsSortedListing(names, keys) && k !in keys
    ensures IsSortedListing(Insert(names, k), keys + {k})
  {
    InsertIncreasing(names, k);
    forall x
      ensures x in Insert(names, k) <==> x in keys + {k}
    {
      InsertMembers(names, k, x);
    }
  }

  ghost function SortedNames(keys: set<string>): (names: seq<string>)
    ensures IsSortedListing(names, keys)
  {
    if keys == {} then []
    else
      var k :| k in keys;
      InsertListing(SortedNames(keys - {k}), keys - {k}, k);
      assert keys == keys - {k} + {k};
      Insert(SortedNames(keys - {k}), k)
  }

  /** A set of strings has one sorted listing only. */
  lemma {:induction false} ListingUnique(a: seq<string>, b: seq<string>, keys: set<string>)
    requires IsSortedListing(a, keys) && IsSortedListing(b, keys)
    ensures a == b
    decreases |a|
  {
    assert b != [] ==> b[0] in b;
    if a != [] {
      assert a[0] in a;
      assert b != [];
      LexTotal(a[0], b[0]);
      assert a[0] == b[0];
      TailListing(a, keys);
      TailListing(b, keys);
      ListingUnique(a[1..], b[1..], keys - {a[0]});
      assert a == [a[0]] + a[1..] && b == [b[0]] + b[1..];
    }
  }

  lemma TailListing(a: seq<string>, keys: set<string>)
    requires IsSortedListing(a, keys) && a != []
    ensures IsSortedListing(a[1..], keys - {a[0]})
  {
    assert a == [a[0]] + a[1..];
  }

  method SortNames(keys: set<string>) returns (names: seq<string>)
    ensures names == SortedNames(keys)
  {
    names := [];
    var todo := keys;
    ghost var done: set<string> := {};
    while todo != {}
      invariant done + todo == keys && done !! todo
      invariant IsSortedListing(names, done)
      decreases todo
    {
      var k :| k in todo;
      InsertListing(names, done, k);
      names := Insert(names, k);
      todo := todo - {k};
      done := done + {k};
    }
    ListingUnique(names, SortedNames(keys), keys);
  }
}
