/**
 Listings of the catalogue: the DTOs of a set of stored books, each once,
 in ascending id order. Both listing operations of the service sort their
 result this way; this module says what such a listing is, builds one by
 insertion, and shows there is only one.
 */
module Listing {

  import opened Domain
  import opened Dto
  import opened Repository

  /** The ids of a listing, in listing order. */
  function Ids(xs: seq<LivroDto>): (ids: seq<Int64>)
    ensures |ids| == |xs|
    ensures forall i :: 0 <= i < |xs| ==> ids[i] == xs[i].id
  {
    seq(|xs|, i requires 0 <= i < |xs| => xs[i].id)
  }

  predicate StrictlyIncreasing(s: seq<Int64>)
  {
    forall i, j :: 0 <= i < j < |s| ==> s[i] < s[j]
  }

  /** Ids strictly ascend along the listing, so none appears twice. */
  predicate Ascending(xs: seq<LivroDto>)
  {
    forall i, j :: 0 <= i < j < |xs| ==> xs[i].id < xs[j].id
  }

  /** `xs` lists every record of `store` exactly once, as its DTO, by ascending id. */
  ghost predicate SortedListing(xs: seq<LivroDto>, store: Store)
  {
    && Ascending(xs)
    && (forall i :: 0 <= i < |xs| ==> xs[i].id in store && xs[i] == FromLivro(store[xs[i].id]))
    && (forall k :: k in store ==> k in Ids(xs))
  }

  /** Inserts `d` into an ascending listing at the place its id belongs. */
  function InsertById(xs: seq<LivroDto>, d: LivroDto): (r: seq<LivroDto>)
    requires Ascending(xs)
    requires d.id !in Ids(xs)
    ensures Ascending(r)
    ensures |r| == |xs| + 1
    ensures forall y :: y in r <==> y in xs || y == d
  {
    if xs == [] then [d]
    else if d.id < xs[0].id then [d] + xs
    else
      assert xs[0].id != d.id;
      assert d.id !in Ids(xs[1..]) by {
        forall i | 0 <= i < |xs[1..]| ensures Ids(xs[1..])[i] != d.id {
          assert Ids(xs[1..])[i] == Ids(xs)[i + 1];
        }
      }
      var rest := InsertById(xs[1..], d);
      assert forall y :: y in rest ==> xs[0].id < y.id;
      [xs[0]] + rest
  }

  /** Inserting adds exactly the inserted record's id to the listing's ids. */
  lemma InsertIds(xs: seq<LivroDto>, d: LivroDto)
    requires Ascending(xs)
    requires d.id !in Ids(xs)
    ensures forall j :: j in Ids(InsertById(xs, d)) <==> j in Ids(xs) || j == d.id
  {
    var r := InsertById(xs, d);
    forall j ensures j in Ids(r) <==> j in Ids(xs) || j == d.id {
      if j in Ids(xs) {
        var i :| 0 <= i < |xs| && Ids(xs)[i] == j;
        assert xs[i] in r;
        var i' :| 0 <= i' < |r| && r[i'] == xs[i];
        assert Ids(r)[i'] == j;
      }
      if j == d.id {
        assert d in r;
        var i' :| 0 <= i' < |r| && r[i'] == d;
        assert Ids(r)[i'] == j;
      }
      if j in Ids(r) {
        var i' :| 0 <= i' < |r| && Ids(r)[i'] == j;
        assert r[i'] in r;
        if r[i'] != d {
          var i :| 0 <= i < |xs| && xs[i] == r[i'];
          assert Ids(xs)[i] == j;
        }
      }
    }
  }

  /**
   Sorting from a map, as the service does: every record of `store`, converted
   to its DTO and put in ascending id order.
   */
  method SortById(store: Store) returns (r: seq<LivroDto>)
    ensures SortedListing(r, store)
    ensures |r| == |store|
  {
    r := [];
    var rest := store.Keys;
    while rest != {}
      invariant rest <= store.Keys
      invariant Ascending(r)
      invariant forall i :: 0 <= i < |r| ==> r[i].id in store && r[i] == FromLivro(store[r[i].id])
      invariant forall k :: k in store ==> (k in Ids(r) <==> k !in rest)
      invariant |r| + |rest| == |store|
      decreases rest
    {
      var k :| k in rest;
      var d := FromLivro(store[k]);
      var r' := InsertById(r, d);
      InsertIds(r, d);
      forall i | 0 <= i < |r'| ensures r'[i].id in store && r'[i] == FromLivro(store[r'[i].id]) {
        assert r'[i] in r';
      }
      r := r';
      rest := rest - {k};
    }
  }

  /** Two strictly increasing id sequences with the same members are equal. */
  lemma {:induction false} IncreasingDeterminedByMembers(a: seq<Int64>, b: seq<Int64>)
    requires StrictlyIncreasing(a) && StrictlyIncreasing(b)
    requires forall k :: k in a <==> k in b
    ensures a == b
    decreases |a|
  {
    if a != [] { assert a[0] in b; }
    if b != [] { assert b[0] in a; }
    if a != [] {
      assert a[0] == b[0];
      forall k ensures k in a[1..] <==> k in b[1..] {
        if k in a[1..] {
          var i :| 0 <= i < |a[1..]| && a[1..][i] == k;
          assert k in b && k != b[0];
        }
        if k in b[1..] {
          var i :| 0 <= i < |b[1..]| && b[1..][i] == k;
          assert k in a && k != a[0];
        }
      }
      IncreasingDeterminedByMembers(a[1..], b[1..]);
    }
  }

  /** A store has exactly one sorted listing: the listing operations are deterministic. */
  lemma ListingUnique(a: seq<LivroDto>, b: seq<LivroDto>, store: Store)
    requires SortedListing(a, store) && SortedListing(b, store)
    ensures a == b
  {
    forall k ensures k in Ids(a) <==> k in Ids(b) {
      if k in Ids(a) {
        var i :| 0 <= i < |a| && Ids(a)[i] == k;
        assert a[i].id in store;
      }
      if k in Ids(b) {
        var i :| 0 <= i < |b| && Ids(b)[i] == k;
        assert b[i].id in store;
      }
    }
    IncreasingDeterminedByMembers(Ids(a), Ids(b));
    assert |a| == |b|;
    forall i | 0 <= i < |a| ensures a[i] == b[i] {
      assert Ids(a)[i] == Ids(b)[i];
    }
  }
}
