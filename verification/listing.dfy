/**
  `Redirect.all`: the bound records of the store, newest `created_at` first.
  The order among records created at the same instant is left to the
  datastore and not modelled.
 */
module Listing {
  import opened Redirects

  /** One row of the listing: a short id and its record. */
  datatype Entry = Entry(id: string, redirect: Redirect)

  /** `e` is a bound record of `s`, under its own key. */
  predicate IsListed(s: Store, e: Entry) {
    e.id in s && !s[e.id].reserved && s[e.id] == e.redirect
  }

  /** Newest first: `created_at` never increases along the list. */
  predicate NewestFirst(xs: seq<Entry>) {
    forall i, j :: 0 <= i < j < |xs| ==> xs[i].redirect.createdAt >= xs[j].redirect.createdAt
  }

  /** No key is listed twice. */
  predicate DistinctIds(xs: seq<Entry>) {
    forall i, j :: 0 <= i < j < |xs| ==> xs[i].id != xs[j].id
  }

  /** Putting in front an entry at least as new as every other keeps the
      order. */
  lemma PrependKeepsOrder(a: Entry, xs: seq<Entry>)
    requires NewestFirst(xs)
    requires forall x :: x in xs ==> x.redirect.createdAt <= a.redirect.createdAt
    ensures NewestFirst([a] + xs)
  {
    var ys := [a] + xs;
    forall i, j | 0 <= i < j < |ys|
      ensures ys[i].redirect.createdAt >= ys[j].redirect.createdAt
    {
      assert ys[j] == xs[j - 1];
      if i > 0 {
        assert ys[i] == xs[i - 1];
      }
    }
  }

  /** Places `e` before the first entry that is not newer than it. */
  function Insert(e: Entry, xs: seq<Entry>): (r: seq<Entry>)
    requires NewestFirst(xs)
    ensures NewestFirst(r)
    ensures multiset(r) == multiset(xs) + multiset{e}
    decreases |xs|
  {
    if |xs| == 0 then
      [e]
    else if e.redirect.createdAt >= xs[0].redirect.createdAt then
      PrependKeepsOrder(e, xs);
      [e] + xs
    else
      var rest := Insert(e, xs[1..]);
      assert xs == [xs[0]] + xs[1..];
      InsertedBelowHead(e, xs, rest);
      PrependKeepsOrder(xs[0], rest);
      [xs[0]] + rest
  }

  /** Every entry of the tail and `e` itself are older than the head, so
      whatever rearrangement of them `rest` is stays below the head. */
  lemma InsertedBelowHead(e: Entry, xs: seq<Entry>, rest: seq<Entry>)
    requires NewestFirst(xs) && |xs| > 0
    requires e.redirect.createdAt < xs[0].redirect.createdAt
    requires multiset(rest) == multiset(xs[1..]) + multiset{e}
    ensures forall x :: x in rest ==> x.redirect.createdAt <= xs[0].redirect.createdAt
  {
    forall x | x in rest
      ensures x.redirect.createdAt <= xs[0].redirect.createdAt
    {
      assert x in multiset(rest);
      if x != e {
        assert x in multiset(xs[1..]);
        var j :| 0 <= j < |xs[1..]| && xs[1..][j] == x;
        assert xs[j + 1] == x;
      }
    }
  }

  /** Membership after an insertion: the old entries and `e`. */
  lemma InsertMembers(e: Entry, xs: seq<Entry>, r: seq<Entry>)
    requires multiset(r) == multiset(xs) + multiset{e}
    ensures forall x :: x in r <==> x in xs || x == e
  {
    forall x
      ensures x in r <==> x in xs || x == e
    {
      assert x in r <==> x in multiset(r);
      assert x in xs <==> x in multiset(xs);
    }
  }

  /** In a list with distinct keys no entry occurs twice. */
  lemma {:induction false} DistinctOccursOnce(xs: seq<Entry>, x: Entry)
    requires DistinctIds(xs)
    ensures multiset(xs)[x] <= 1
    decreases |xs|
  {
    if |xs| > 0 {
      assert xs == [xs[0]] + xs[1..];
      assert DistinctIds(xs[1..]) by {
        forall i, j | 0 <= i < j < |xs[1..]|
          ensures xs[1..][i].id != xs[1..][j].id
        {
          assert xs[1..][i] == xs[i + 1] && xs[1..][j] == xs[j + 1];
        }
      }
      DistinctOccursOnce(xs[1..], x);
      if x == xs[0] {
        assert x !in xs[1..] by {
          forall k | 0 <= k < |xs[1..]|
            ensures xs[1..][k] != x
          {
            assert xs[1..][k] == xs[k + 1];
          }
        }
      }
    }
  }

  /** An insertion of an entry whose key is not yet listed keeps keys
      distinct. */
  lemma InsertKeepsDistinct(e: Entry, xs: seq<Entry>, r: seq<Entry>)
    requires DistinctIds(xs)
    requires forall x :: x in xs ==> x.id != e.id
    requires multiset(r) == multiset(xs) + multiset{e}
    ensures DistinctIds(r)
  {
    forall i, j | 0 <= i < j < |r|
      ensures r[i].id != r[j].id
    {
      if r[i].id == r[j].id {
        InsertMembers(e, xs, r);
        assert r[i] in xs || r[i] == e;
        assert r[j] in xs || r[j] == e;
        if r[i] == r[j] {
          assert multiset(r)[r[i]] >= 2 by {
            assert r == r[..i] + [r[i]] + r[i+1..j] + [r[j]] + r[j+1..];
          }
          DistinctOccursOnce(xs, r[i]);
          assert false;
        } else {
          assert false;
        }
      }
    }
  }

  /** What `All` promises about its result `r` for the store `s`: exactly
      the bound records, each key once, newest first. */
  ghost predicate IsListingOf(s: Store, r: seq<Entry>) {
    && NewestFirst(r)
    && DistinctIds(r)
    && (forall e :: e in r <==> IsListed(s, e))
  }

  /** `Redirect.all`: exactly the bound records, each key once, newest first. */
  method All(s: Store) returns (r: seq<Entry>)
    ensures IsListingOf(s, r)
  {
    r := [];
    var todo := s.Keys;
    while todo != {}
      invariant todo <= s.Keys
      invariant NewestFirst(r)
      invariant DistinctIds(r)
      invariant forall e :: e in r <==> IsListed(s, e) && e.id !in todo
      decreases todo
    {
      var k :| k in todo;
      if !s[k].reserved {
        var e := Entry(k, s[k]);
        var r' := Insert(e, r);
        InsertMembers(e, r, r');
        InsertKeepsDistinct(e, r, r');
        r := r';
      }
      todo := todo - {k};
    }
  }

  /** No two bound records of `s` were created at the same instant. */
  predicate DistinctCreationTimes(s: Store) {
    forall k, k' :: k in s && k' in s && k != k' && !s[k].reserved && !s[k'].reserved ==>
      s[k].createdAt != s[k'].createdAt
  }

  /** No two entries of the list carry the same creation time. */
  predicate DistinctTimes(xs: seq<Entry>) {
    forall i, j :: 0 <= i < j < |xs| ==> xs[i].redirect.createdAt != xs[j].redirect.createdAt
  }

  /** Two newest-first lists of the same entries, all created at different
      instants, are the same list. */
  lemma {:induction false} NewestFirstIsUnique(a: seq<Entry>, b: seq<Entry>)
    requires NewestFirst(a) && NewestFirst(b)
    requires DistinctTimes(a) && DistinctTimes(b)
    requires forall x :: x in a <==> x in b
    ensures a == b
    decreases |a|
  {
    if |a| == 0 {
      if |b| > 0 {
        HeadIsMember(b);
        assert false;
      }
    } else {
      SameHead(a, b);
      SameTailMembers(a, b);
      NewestFirstIsUnique(a[1..], b[1..]);
      assert a == [a[0]] + a[1..];
      assert b == [b[0]] + b[1..];
    }
  }

  lemma HeadIsMember(xs: seq<Entry>)
    requires |xs| > 0
    ensures xs[0] in xs
  {
  }

  /** The newest entry heads both lists. */
  lemma SameHead(a: seq<Entry>, b: seq<Entry>)
    requires NewestFirst(a) && NewestFirst(b)
    requires DistinctTimes(a)
    requires forall x :: x in a <==> x in b
    requires |a| > 0
    ensures |b| > 0 && a[0] == b[0]
  {
    assert a[0] in b;
    assert b[0] in a;
    var i :| 0 <= i < |a| && a[i] == b[0];
    var j :| 0 <= j < |b| && b[j] == a[0];
    assert a[0].redirect.createdAt >= a[i].redirect.createdAt;
    assert b[0].redirect.createdAt >= b[j].redirect.createdAt;
  }

  /** With equal heads and no repeated creation time, the tails hold the
      same entries. */
  lemma SameTailMembers(a: seq<Entry>, b: seq<Entry>)
    requires DistinctTimes(a) && DistinctTimes(b)
    requires forall x :: x in a <==> x in b
    requires |a| > 0 && |b| > 0 && a[0] == b[0]
    ensures forall x :: x in a[1..] <==> x in b[1..]
  {
    forall x | x in a[1..]
      ensures x in b[1..]
    {
      TailMember(a, b, x);
    }
    forall x | x in b[1..]
      ensures x in a[1..]
    {
      TailMember(b, a, x);
    }
  }

  lemma TailMember(a: seq<Entry>, b: seq<Entry>, x: Entry)
    requires DistinctTimes(a)
    requires forall y :: y in a ==> y in b
    requires |a| > 0 && |b| > 0 && a[0] == b[0]
    requires x in a[1..]
    ensures x in b[1..]
  {
    var k :| 0 <= k < |a[1..]| && a[1..][k] == x;
    assert a[k + 1] == x;
    assert x != a[0];
    assert x in b;
    var m :| 0 <= m < |b| && b[m] == x;
    assert m != 0;
    assert b[1..][m - 1] == x;
  }

  /** When no two bound records share a creation time, `All` has exactly
      one possible result: the listing order is fully determined. */
  lemma ListingIsDetermined(s: Store, a: seq<Entry>, b: seq<Entry>)
    requires DistinctCreationTimes(s)
    requires IsListingOf(s, a) && IsListingOf(s, b)
    ensures a == b
  {
    ListedTimesDistinct(s, a);
    ListedTimesDistinct(s, b);
    NewestFirstIsUnique(a, b);
  }

  lemma ListedTimesDistinct(s: Store, xs: seq<Entry>)
    requires DistinctCreationTimes(s)
    requires IsListingOf(s, xs)
    ensures DistinctTimes(xs)
  {
    forall i, j | 0 <= i < j < |xs|
      ensures xs[i].redirect.createdAt != xs[j].redirect.createdAt
    {
      assert xs[i] in xs && xs[j] in xs;
      assert IsListed(s, xs[i]) && IsListed(s, xs[j]);
    }
  }
}
