/**
 * `URLSearchParams` as the list of decoded name/value pairs it is defined to hold
 * (percent-encoding and query parsing are outside the model), with the operations the
 * state store uses: `get`, `has`, `set`, `delete` and the stable `sort` by name.
 */
module SearchParams {
  import opened Wrappers
  import Js

  type Params = seq<(string, string)>

  /** The list read as a map: each name to the value of its first pair. */
  function AsMap(p: Params): (m: map<string, string>)
    ensures p != [] ==> p[0].0 in m && m[p[0].0] == p[0].1
  {
    if p == [] then map[] else AsMap(p[1..])[p[0].0 := p[0].1]
  }

  /** Every name of the list is a key of its map view. */
  lemma {:induction false} AtMapped(p: Params, i: int)
    requires 0 <= i < |p|
    ensures p[i].0 in AsMap(p)
  {
    if i > 0 {
      AtMapped(p[1..], i - 1);
    }
  }

  /** Every key of the map view is the name of a pair, the first with that name. */
  lemma {:induction false} MappedAt(p: Params, k: string) returns (i: nat)
    requires k in AsMap(p)
    ensures i < |p| && p[i].0 == k && AsMap(p)[k] == p[i].1
    ensures forall j :: 0 <= j < i ==> p[j].0 != k
  {
    if p[0].0 == k {
      i := 0;
    } else {
      var t := MappedAt(p[1..], k);
      i := t + 1;
    }
  }

  /** A name that is not a key of the map view is the name of no pair. */
  lemma NamesMapped(p: Params, k: string)
    requires k !in AsMap(p)
    ensures forall x :: x in p ==> x.0 != k
  {
    forall x | x in p ensures x.0 != k {
      var i :| 0 <= i < |p| && p[i] == x;
      AtMapped(p, i);
    }
  }

  /** Only the empty list has the empty map view. */
  lemma MapEmptyIff(p: Params)
    ensures AsMap(p) == map[] <==> p == []
  {
    if p != [] {
      assert p[0].0 in AsMap(p);
    }
  }

  /** `params.get(name)`: the value of the first pair with that name, or null. */
  function Get(p: Params, name: string): (r: Option<string>)
    ensures r == if name in AsMap(p) then Some(AsMap(p)[name]) else None
  {
    if p == [] then None
    else if p[0].0 == name then Some(p[0].1)
    else Get(p[1..], name)
  }

  /** `params.has(name)`. */
  function Has(p: Params, name: string): (b: bool)
    ensures b <==> name in AsMap(p)
  {
    if p == [] then false else p[0].0 == name || Has(p[1..], name)
  }

  /** No name occurs twice. */
  predicate UniqueNames(p: Params) {
    forall i, j :: 0 <= i < j < |p| ==> p[i].0 != p[j].0
  }

  /** Names strictly ascending in code-unit order, hence also unique. */
  predicate SortedUnique(p: Params) {
    forall i, j :: 0 <= i < j < |p| ==> Js.Before(p[i].0, p[j].0)
  }

  lemma SortedUniqueIsUnique(p: Params)
    ensures SortedUnique(p) ==> UniqueNames(p)
  {
    if SortedUnique(p) {
      forall i, j | 0 <= i < j < |p| ensures p[i].0 != p[j].0 {
        Js.BeforeIsStrictTotalOrder(p[i].0, p[j].0, p[j].0);
      }
    }
  }

  /** A pair whose name sorts before every name of a sorted list can head it. */
  lemma SortedCons(x: (string, string), t: Params)
    ensures SortedUnique([x] + t) <==> SortedUnique(t) && forall y :: y in t ==> Js.Before(x.0, y.0)
  {
    var p := [x] + t;
    assert p[1..] == t;
    if SortedUnique(t) && forall y :: y in t ==> Js.Before(x.0, y.0) {
      forall i, j | 0 <= i < j < |p| ensures Js.Before(p[i].0, p[j].0) {
        assert p[j] == t[j - 1];
        if i > 0 { assert p[i] == t[i - 1]; }
      }
    }
    if SortedUnique(p) {
      forall y | y in t ensures Js.Before(x.0, y.0) {
        var j :| 0 <= j < |t| && t[j] == y;
        assert p[0] == x && p[j + 1] == y;
      }
    }
  }

  /** A pair whose name is not in a list of unique names can head it. */
  lemma UniqueCons(x: (string, string), t: Params)
    ensures UniqueNames([x] + t) <==> UniqueNames(t) && forall y :: y in t ==> y.0 != x.0
  {
    var p := [x] + t;
    assert p[1..] == t;
    if UniqueNames(t) && forall y :: y in t ==> y.0 != x.0 {
      forall i, j | 0 <= i < j < |p| ensures p[i].0 != p[j].0 {
        assert p[j] == t[j - 1];
        if i > 0 { assert p[i] == t[i - 1]; }
      }
    }
    if UniqueNames(p) {
      forall y | y in t ensures y.0 != x.0 {
        var j :| 0 <= j < |t| && t[j] == y;
        assert p[0] == x && p[j + 1] == y;
      }
    }
  }

  /** A name no pair carries is not a key of the map view. */
  lemma {:induction false} Unmapped(p: Params, k: string)
    requires forall i :: 0 <= i < |p| ==> p[i].0 != k
    ensures k !in AsMap(p)
  {
    if p != [] {
      Unmapped(p[1..], k);
    }
  }

  /** In a list of unique names the head's name is not among the rest. */
  lemma HeadFresh(p: Params)
    requires UniqueNames(p) && p != []
    ensures UniqueNames(p[1..])
    ensures p[0].0 !in AsMap(p[1..])
    ensures AsMap(p[1..]) == AsMap(p) - {p[0].0}
  {
    forall i | 0 <= i < |p[1..]| ensures p[1..][i].0 != p[0].0 {
      assert p[1..][i] == p[i + 1];
    }
    Unmapped(p[1..], p[0].0);
  }

  /** With unique names, a pair is in the list exactly when the map view holds it. */
  lemma {:induction false} MemberIffMapped(p: Params, x: (string, string))
    requires UniqueNames(p)
    ensures x in p <==> x.0 in AsMap(p) && AsMap(p)[x.0] == x.1
  {
    if p != [] {
      HeadFresh(p);
      MemberIffMapped(p[1..], x);
      assert p == [p[0]] + p[1..];
    }
  }

  /** `params.delete(name)`: drop every pair with that name. */
  function Delete(p: Params, name: string): (r: Params)
    ensures AsMap(r) == AsMap(p) - {name}
    ensures forall x :: x in r <==> x in p && x.0 != name
  {
    if p == [] then []
    else
      var t := Delete(p[1..], name);
      assert forall x :: x in p <==> x == p[0] || x in p[1..];
      assert AsMap(p) - {name} ==
        if p[0].0 == name then AsMap(p[1..]) - {name}
        else (AsMap(p[1..]) - {name})[p[0].0 := p[0].1];
      if p[0].0 == name then t else [p[0]] + t
  }

  /** Deleting keeps a list sorted by unique names. */
  lemma {:induction false} DeleteKeepsSorted(p: Params, name: string)
    ensures SortedUnique(p) ==> SortedUnique(Delete(p, name))
  {
    if p != [] && SortedUnique(p) {
      assert p == [p[0]] + p[1..];
      SortedCons(p[0], p[1..]);
      DeleteKeepsSorted(p[1..], name);
      if p[0].0 != name {
        SortedCons(p[0], Delete(p[1..], name));
      }
    }
  }

  /** Deleting keeps names unique. */
  lemma {:induction false} DeleteKeepsUnique(p: Params, name: string)
    requires UniqueNames(p)
    ensures UniqueNames(Delete(p, name))
  {
    if p != [] {
      assert p == [p[0]] + p[1..];
      UniqueCons(p[0], p[1..]);
      DeleteKeepsUnique(p[1..], name);
      if p[0].0 != name {
        UniqueCons(p[0], Delete(p[1..], name));
      }
    }
  }

  /**
   * `params.set(name, value)`: give the first pair with that name the value and drop the
   * other pairs with that name, or append the pair when there is none.
   */
  function Set(p: Params, name: string, value: string): (r: Params)
    ensures AsMap(r) == AsMap(p)[name := value]
    ensures forall x :: x in r <==> x == (name, value) || (x in p && x.0 != name)
  {
    if p == [] then [(name, value)]
    else
      assert forall x :: x in p <==> x == p[0] || x in p[1..];
      assert AsMap(p)[name := value] ==
        if p[0].0 == name then (AsMap(p[1..]) - {name})[name := value]
        else AsMap(p[1..])[name := value][p[0].0 := p[0].1];
      if p[0].0 == name then [(name, value)] + Delete(p[1..], name)
      else [p[0]] + Set(p[1..], name, value)
  }

  /** Setting keeps names unique. */
  lemma {:induction false} SetKeepsUnique(p: Params, name: string, value: string)
    requires UniqueNames(p)
    ensures UniqueNames(Set(p, name, value))
  {
    if p != [] {
      assert p == [p[0]] + p[1..];
      UniqueCons(p[0], p[1..]);
      var r := Set(p, name, value);
      if p[0].0 == name {
        DeleteKeepsUnique(p[1..], name);
        UniqueCons(r[0], Delete(p[1..], name));
      } else {
        SetKeepsUnique(p[1..], name, value);
        UniqueCons(r[0], Set(p[1..], name, value));
      }
    }
  }

  /** Place `x` before the first pair whose name does not sort before it (stable). */
  function Insert(x: (string, string), s: Params): (r: Params)
    ensures multiset(r) == multiset(s) + multiset{x}
  {
    if s == [] || !Js.Before(s[0].0, x.0) then [x] + s
    else
      var r := [s[0]] + Insert(x, s[1..]);
      assert s == [s[0]] + s[1..];
      r
  }

  lemma {:induction false} InsertSorted(x: (string, string), s: Params)
    requires SortedUnique(s)
    requires forall y :: y in s ==> y.0 != x.0
    ensures SortedUnique(Insert(x, s))
  {
    if s == [] {
      SortedCons(x, s);
    } else if !Js.Before(s[0].0, x.0) {
      forall y | y in s ensures Js.Before(x.0, y.0) {
        Js.BeforeIsStrictTotalOrder(x.0, s[0].0, y.0);
        if y != s[0] {
          var j :| 0 <= j < |s| && s[j] == y;
          assert Js.Before(s[0].0, s[j].0);
        }
      }
      SortedCons(x, s);
    } else {
      var t := Insert(x, s[1..]);
      assert s == [s[0]] + s[1..];
      SortedCons(s[0], s[1..]);
      InsertSorted(x, s[1..]);
      forall y | y in t ensures Js.Before(s[0].0, y.0) {
        assert y in multiset(t);
        if y != x {
          assert y in multiset(s[1..]);
          var j :| 0 <= j < |s[1..]| && s[1..][j] == y;
          assert s[j + 1] == y;
        }
      }
      SortedCons(s[0], t);
    }
  }

  /** Two lists holding the same pairs hold the same map when their names are unique. */
  lemma SameMap(a: Params, b: Params)
    requires UniqueNames(a) && UniqueNames(b)
    requires forall x :: x in a <==> x in b
    ensures AsMap(a) == AsMap(b)
  {
    forall n | n in AsMap(a) ensures n in AsMap(b) && AsMap(b)[n] == AsMap(a)[n] {
      MemberIffMapped(a, (n, AsMap(a)[n]));
      MemberIffMapped(b, (n, AsMap(a)[n]));
    }
    forall n | n in AsMap(b) ensures n in AsMap(a) {
      MemberIffMapped(b, (n, AsMap(b)[n]));
      MemberIffMapped(a, (n, AsMap(b)[n]));
    }
  }

  /** `params.sort()`: the stable sort of the pairs by name in code-unit order. */
  function Sort(p: Params): (r: Params)
    ensures multiset(r) == multiset(p)
    ensures UniqueNames(p) ==> SortedUnique(r) && AsMap(r) == AsMap(p)
  {
    if p == [] then []
    else
      var s := Sort(p[1..]);
      var r := Insert(p[0], s);
      SortStep(p, s, r);
      r
  }

  /** Sorting keeps exactly the pairs it was given. */
  lemma SortMembers(p: Params)
    ensures forall x :: x in Sort(p) <==> x in p
  {
    forall x ensures x in Sort(p) <==> x in p {
      assert x in Sort(p) <==> x in multiset(Sort(p));
      assert x in p <==> x in multiset(p);
    }
  }

  lemma SortStep(p: Params, s: Params, r: Params)
    requires p != [] && multiset(s) == multiset(p[1..])
    requires UniqueNames(p[1..]) ==> SortedUnique(s)
    requires r == Insert(p[0], s)
    ensures multiset(r) == multiset(p)
    ensures UniqueNames(p) ==> SortedUnique(r) && AsMap(r) == AsMap(p)
  {
    assert p == [p[0]] + p[1..];
    if UniqueNames(p) {
      UniqueCons(p[0], p[1..]);
      forall y | y in s ensures y.0 != p[0].0 {
        assert y in multiset(s);
        assert y in multiset(p[1..]);
      }
      InsertSorted(p[0], s);
      SortedUniqueIsUnique(r);
      forall x ensures x in r <==> x in p {
        assert x in r <==> x in multiset(r);
        assert x in p <==> x in multiset(p);
      }
      SameMap(r, p);
    }
  }

  /** The head of a sorted list carries its least name. */
  lemma SortedHead(a: Params, k: string)
    requires SortedUnique(a) && k in AsMap(a)
    ensures a != [] && (k == a[0].0 || Js.Before(a[0].0, k))
  {
    var i := MappedAt(a, k);
  }

  /** A sorted list with unique names is determined by its map view. */
  lemma {:induction false} SortedUniqueExtensional(a: Params, b: Params)
    requires SortedUnique(a) && SortedUnique(b)
    requires AsMap(a) == AsMap(b)
    ensures a == b
  {
    MapEmptyIff(a);
    MapEmptyIff(b);
    if a != [] && b != [] {
      var x, y := a[0], b[0];
      assert x.0 in AsMap(a) && y.0 in AsMap(b);
      SortedHead(a, y.0);
      SortedHead(b, x.0);
      Js.BeforeIsStrictTotalOrder(x.0, y.0, x.0);
      SortedUniqueIsUnique(a);
      SortedUniqueIsUnique(b);
      HeadFresh(a);
      HeadFresh(b);
      assert x == y;
      assert SortedUnique(a[1..]) && SortedUnique(b[1..]);
      SortedUniqueExtensional(a[1..], b[1..]);
      assert a == [x] + a[1..] && b == [y] + b[1..];
    }
  }

  /** `set` followed by `sort` on a list of unique names leaves it sorted by unique names. */
  lemma SetThenSort(p: Params, name: string, value: string)
    ensures UniqueNames(p) ==> SortedUnique(Sort(Set(p, name, value)))
    ensures UniqueNames(p) ==> AsMap(Sort(Set(p, name, value))) == AsMap(p)[name := value]
  {
    if UniqueNames(p) {
      SetKeepsUnique(p, name, value);
    }
  }

  /** The pairs carrying the name `n`, in list order. */
  function OfName(p: Params, n: string): (r: Params)
    ensures forall x :: x in r <==> x in p && x.0 == n
  {
    if p == [] then [] else (if p[0].0 == n then [p[0]] else []) + OfName(p[1..], n)
  }

  /** Inserting a pair puts it first among the pairs of its name, and leaves the others. */
  lemma {:induction false} OfNameInsert(x: (string, string), s: Params, n: string)
    ensures OfName(Insert(x, s), n) == if x.0 == n then [x] + OfName(s, n) else OfName(s, n)
  {
    var r := Insert(x, s);
    if s == [] || !Js.Before(s[0].0, x.0) {
      assert r[0] == x && r[1..] == s;
    } else {
      OfNameInsert(x, s[1..], n);
      assert r[0] == s[0] && r[1..] == Insert(x, s[1..]);
      assert s[0].0 != x.0;
    }
  }

  /** The sort is stable: the pairs of each name keep their relative order, repeated names included. */
  lemma {:induction false} SortStable(p: Params, n: string)
    ensures OfName(Sort(p), n) == OfName(p, n)
  {
    if p != [] {
      SortStable(p[1..], n);
      OfNameInsert(p[0], Sort(p[1..]), n);
    }
  }

  /** Sorting a list that is already sorted by unique names returns it unchanged. */
  lemma SortSorted(p: Params)
    requires SortedUnique(p)
    ensures Sort(p) == p
  {
    SortedUniqueIsUnique(p);
    SortedUniqueExtensional(Sort(p), p);
  }
}
