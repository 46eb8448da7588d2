/** Sequence facts the genre pipeline relies on: duplicate-free listings,
    order-preserving filters and subsequences. */
module Seqs {

  predicate NoDup<T(==)>(s: seq<T>)
  {
    forall i, j :: 0 <= i < j < |s| ==> s[i] != s[j]
  }

  /** `listing` is a possible value of `list(set(items))`: every element of
      `items` exactly once, in some order. */
  ghost predicate IsListing<T(!new)>(items: seq<T>, listing: seq<T>)
  {
    NoDup(listing) && forall x :: x in listing <==> x in items
  }

  /** An iteration order of Python's `set`: for every input, some listing
      of its distinct elements. Which one depends on hashing, so the model
      takes the order as a parameter and promises only this. */
  ghost predicate SetOrder<T(!new)>(order: seq<T> -> seq<T>)
  {
    forall items :: IsListing(items, order(items))
  }

  /** Entry i of a listing is one of the items. */
  lemma ListingAt<T(!new)>(items: seq<T>, listing: seq<T>, i: int)
    ensures IsListing(items, listing) && 0 <= i < |listing| ==> listing[i] in items
  {
    if IsListing(items, listing) && 0 <= i < |listing| {
      assert listing[i] in listing;
    }
  }

  /** A listing of one element is that element alone. */
  lemma ListingSingle<T(!new)>(x: T, listing: seq<T>)
    requires IsListing([x], listing)
    ensures listing == [x]
  {
    assert x in listing;
    ListingAt([x], listing, 0);
    ListingAt([x], listing, 1);
  }

  /** A listing of two different elements is one of their two orders. */
  lemma ListingPair<T(!new)>(a: T, b: T, listing: seq<T>)
    requires a != b && IsListing([a, b], listing)
    ensures listing == [a, b] || listing == [b, a]
  {
    assert a in listing && b in listing;
    ListingAt([a, b], listing, 0);
    ListingAt([a, b], listing, 1);
    ListingAt([a, b], listing, 2);
  }

  /** One duplicate-free listing of the elements of `s`: first occurrences,
      in order. It is one possible value of `list(set(s))`. */
  function Dedup<T(==)>(s: seq<T>): (r: seq<T>)
    ensures NoDup(r)
    ensures forall i :: 0 <= i < |r| ==> r[i] in s
    ensures forall i :: 0 <= i < |s| ==> s[i] in r
    decreases |s|
  {
    if |s| == 0 then []
    else
      var d := Dedup(s[..|s| - 1]);
      if s[|s| - 1] in d then d else d + [s[|s| - 1]]
  }

  /** First-occurrence order is one iteration order of `set`, so the
      orders the model ranges over exist. */
  lemma DedupSetOrder<T(!new)>()
    ensures SetOrder((s: seq<T>) => Dedup(s))
  {
    forall items: seq<T> ensures IsListing(items, Dedup(items)) {
      var d := Dedup(items);
      forall x ensures x in d <==> x in items {
        if x in d {
          var i :| 0 <= i < |d| && d[i] == x;
        }
        if x in items {
          var i :| 0 <= i < |items| && items[i] == x;
        }
      }
    }
  }

  /** `a` is `b` with some elements left out, the rest in their order. */
  predicate IsSubseq<T(==)>(a: seq<T>, b: seq<T>)
    decreases |b|
  {
    if |a| == 0 then true
    else if |b| == 0 then false
    else if a[0] == b[0] then IsSubseq(a[1..], b[1..])
    else IsSubseq(a, b[1..])
  }

  lemma {:induction false} SubseqCons<T>(a: seq<T>, b: seq<T>, y: T)
    requires IsSubseq(a, b)
    ensures IsSubseq(a, [y] + b)
    decreases |b|, 1
  {
    assert ([y] + b)[1..] == b;
    if |a| > 0 && a[0] == y {
      SubseqTail(a, b);
    }
  }

  lemma {:induction false} SubseqTail<T>(a: seq<T>, b: seq<T>)
    requires |a| > 0 && IsSubseq(a, b)
    ensures IsSubseq(a[1..], b)
    decreases |b|, 0
  {
    if a[0] == b[0] {
      SubseqCons(a[1..], b[1..], b[0]);
      assert [b[0]] + b[1..] == b;
    } else {
      SubseqTail(a, b[1..]);
      SubseqCons(a[1..], b[1..], b[0]);
      assert [b[0]] + b[1..] == b;
    }
  }

  /** Every element of a subsequence is an element of the whole. */
  lemma {:induction false} SubseqMembers<T>(a: seq<T>, b: seq<T>)
    requires IsSubseq(a, b)
    ensures forall x :: x in a ==> x in b
    decreases |b|
  {
    if |a| > 0 {
      if a[0] == b[0] {
        SubseqMembers(a[1..], b[1..]);
        assert a == [a[0]] + a[1..];
      } else {
        SubseqMembers(a, b[1..]);
      }
    }
  }

  /** A subsequence of a duplicate-free sequence is duplicate-free. */
  lemma {:induction false} SubseqNoDup<T>(a: seq<T>, b: seq<T>)
    requires IsSubseq(a, b) && NoDup(b)
    ensures NoDup(a)
    decreases |b|
  {
    if |a| > 0 {
      assert NoDup(b[1..]);
      if a[0] == b[0] {
        SubseqNoDup(a[1..], b[1..]);
        SubseqMembers(a[1..], b[1..]);
        assert b[0] !in b[1..];
        assert a[0] !in a[1..];
        forall i, j | 0 <= i < j < |a| ensures a[i] != a[j] {
          if i > 0 {
            assert a[i] == a[1..][i - 1] && a[j] == a[1..][j - 1];
          } else {
            assert a[j] in a[1..];
          }
        }
      } else {
        SubseqNoDup(a, b[1..]);
      }
    }
  }

  /** Keep, in order, the elements that satisfy `keep`. */
  function Filter<T>(keep: T -> bool, s: seq<T>): seq<T>
    decreases |s|
  {
    if |s| == 0 then []
    else (if keep(s[0]) then [s[0]] else []) + Filter(keep, s[1..])
  }

  lemma {:induction false} FilterAppend<T>(keep: T -> bool, a: seq<T>, b: seq<T>)
    ensures Filter(keep, a + b) == Filter(keep, a) + Filter(keep, b)
    decreases |a|
  {
    if |a| > 0 {
      assert (a + b)[1..] == a[1..] + b;
      FilterAppend(keep, a[1..], b);
    } else {
      assert a + b == b;
    }
  }

  /** The filter keeps exactly the elements that pass. */
  lemma {:induction false} FilterMembers<T>(keep: T -> bool, s: seq<T>)
    ensures forall x :: x in Filter(keep, s) <==> x in s && keep(x)
    decreases |s|
  {
    if |s| > 0 {
      FilterMembers(keep, s[1..]);
      assert s == [s[0]] + s[1..];
    }
  }

  /** Each passing element is kept as often as it occurs: duplicates are
      retained, failing elements all dropped. */
  lemma {:induction false} FilterCounts<T>(keep: T -> bool, s: seq<T>, x: T)
    ensures multiset(Filter(keep, s))[x] == if keep(x) then multiset(s)[x] else 0
    decreases |s|
  {
    if |s| > 0 {
      FilterCounts(keep, s[1..], x);
      assert s == [s[0]] + s[1..];
    }
  }

  /** The filter neither adds nor reorders. */
  lemma {:induction false} FilterSubseq<T>(keep: T -> bool, s: seq<T>)
    ensures IsSubseq(Filter(keep, s), s)
    decreases |s|
  {
    if |s| > 0 {
      var rest := Filter(keep, s[1..]);
      FilterSubseq(keep, s[1..]);
      if keep(s[0]) {
        assert Filter(keep, s) == [s[0]] + rest;
        assert ([s[0]] + rest)[1..] == rest;
      } else {
        assert Filter(keep, s) == rest;
        SubseqCons(rest, s[1..], s[0]);
        assert [s[0]] + s[1..] == s;
      }
    }
  }
}
