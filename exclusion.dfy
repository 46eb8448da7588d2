/** The exclusion filter of the genre lookups, as the source runs it: a
    `for` loop over the list that calls `remove` on that same list. Python's
    list iterator walks by index, so once an entry is removed the one after
    it moves into the current slot and is stepped over without being
    inspected. */
module Exclusion {
  import opened Seqs
  import Text

  /** Excluded characters of title genres: digits, parentheses, hyphen. */
  const TITLE_EXCLUDED: string := "0123456789()-"

  /** Excluded characters of author genres: digits, parentheses, ampersand. */
  const AUTHOR_EXCLUDED: string := "0123456789()&"

  /** `1 in [ch in genre for ch in excluded]`: some excluded character
      occurs in the entry. */
  predicate HasExcluded(genre: string, excluded: string)
  {
    exists k :: 0 <= k < |excluded| && excluded[k] in genre
  }

  /** What the loop leaves of `s`: an entry with an excluded character is
      removed and the entry after it is kept without being inspected. */
  function Survivors(s: seq<string>, excluded: string): seq<string>
    decreases |s|
  {
    if |s| == 0 then []
    else if !HasExcluded(s[0], excluded) then [s[0]] + Survivors(s[1..], excluded)
    else if |s| == 1 then []
    else [s[1]] + Survivors(s[2..], excluded)
  }

  /** The position of the first occurrence of `x`. */
  function FirstIndex(s: seq<string>, x: string): (i: nat)
    requires x in s
    ensures i < |s| && s[i] == x && x !in s[..i]
  {
    if s[0] == x then 0
    else
      var j := FirstIndex(s[1..], x);
      assert s[..j + 1] == [s[0]] + s[1..][..j];
      j + 1
  }

  /** `list.remove(x)`: the first occurrence of `x` is taken out. */
  function RemoveFirst(s: seq<string>, x: string): (r: seq<string>)
    requires x in s
    ensures |r| == |s| - 1
  {
    var i := FirstIndex(s, x);
    s[..i] + s[i + 1..]
  }

  /** In a duplicate-free list, removing an entry by value removes it at its
      position, and the list stays duplicate-free. */
  lemma RemoveAt(s: seq<string>, i: nat)
    requires NoDup(s) && i < |s|
    ensures RemoveFirst(s, s[i]) == s[..i] + s[i + 1..]
    ensures NoDup(s[..i] + s[i + 1..])
  {
    assert FirstIndex(s, s[i]) == i;
    var r := s[..i] + s[i + 1..];
    forall p, q | 0 <= p < q < |r| ensures r[p] != r[q] {
      var p', q' := if p < i then p else p + 1, if q < i then q else q + 1;
      assert r[p] == s[p'] && r[q] == s[q'];
    }
  }

  /** A clean entry at position k survives, and the walk goes on with the next. */
  lemma SurvivorsKeepStep(s: seq<string>, excluded: string, k: nat)
    requires k < |s| && !HasExcluded(s[k], excluded)
    ensures Survivors(s[k..], excluded) == [s[k]] + Survivors(s[k + 1..], excluded)
  {
    assert s[k..][1..] == s[k + 1..];
  }

  /** An excluded entry at position k is removed; the entry after it is not
      inspected, and the walk goes on two further. */
  lemma SurvivorsDropStep(s: seq<string>, excluded: string, k: nat)
    requires k < |s| && HasExcluded(s[k], excluded)
    ensures k + 1 == |s| ==> Survivors(s[k..], excluded) == []
    ensures k + 1 < |s| ==> Survivors(s[k..], excluded) == [s[k + 1]] + Survivors(s[k + 2..], excluded)
  {
    assert s[k..][1..] == s[k + 1..];
    if k + 1 < |s| {
      assert s[k..][2..] == s[k + 2..];
    }
  }

  /** The walk of the loop from index i over the list r as it shrinks: an
      excluded entry is removed by value and the index still advances. */
  function Walk(r: seq<string>, excluded: string, i: nat): seq<string>
    decreases |r| - i
  {
    if i >= |r| then r
    else if HasExcluded(r[i], excluded) then Walk(RemoveFirst(r, r[i]), excluded, i + 1)
    else Walk(r, excluded, i + 1)
  }

  /** An excluded entry is removed, and the walk goes on at the next index. */
  lemma WalkDropStep(r: seq<string>, excluded: string, i: nat)
    requires NoDup(r) && i < |r| && HasExcluded(r[i], excluded)
    ensures NoDup(r[..i] + r[i + 1..])
    ensures Walk(r, excluded, i) == Walk(r[..i] + r[i + 1..], excluded, i + 1)
  {
    RemoveAt(r, i);
  }

  /** The list with entry i cut out, seen around index i + 1. */
  lemma CutFacts(r: seq<string>, i: nat)
    requires i + 1 < |r|
    ensures (r[..i] + r[i + 1..])[..i + 1] == r[..i] + [r[i + 1]]
    ensures (r[..i] + r[i + 1..])[i + 1..] == r[i + 2..]
  {
  }

  /** On a duplicate-free list, the walk from index i keeps the first i
      entries and computes the survivors of the rest. */
  lemma {:induction false} WalkSurvivors(r: seq<string>, excluded: string, i: nat)
    requires NoDup(r) && i <= |r|
    ensures Walk(r, excluded, i) == r[..i] + Survivors(r[i..], excluded)
    decreases |r| - i
  {
    if i == |r| {
      assert r[..i] == r && r[i..] == [];
    } else if HasExcluded(r[i], excluded) {
      WalkDropStep(r, excluded, i);
      var r' := r[..i] + r[i + 1..];
      SurvivorsDropStep(r, excluded, i);
      if i + 1 < |r| {
        WalkSurvivors(r', excluded, i + 1);
        CutFacts(r, i);
      } else {
        assert r' == r[..i] && r[i..][1..] == [];
      }
    } else {
      WalkSurvivors(r, excluded, i + 1);
      SurvivorsKeepStep(r, excluded, i);
      assert r[..i + 1] == r[..i] + [r[i]];
    }
  }

  /** `for genre in genres: if 1 in [...]: genres.remove(genre)`, walking the
      list by index while it shrinks. The source's list comes from a set, so
      it has no duplicates. */
  method RemoveExcluded(genres: seq<string>, excluded: string) returns (r: seq<string>)
    requires NoDup(genres)
    ensures r == Survivors(genres, excluded)
  {
    r := genres;
    var i := 0;
    while i < |r|
      invariant NoDup(r)
      invariant Walk(r, excluded, i) == Walk(genres, excluded, 0)
      decreases |r| - i
    {
      var genre := r[i];
      if HasExcluded(genre, excluded) {
        RemoveAt(r, i);
        r := RemoveFirst(r, genre);
      }
      i := i + 1;
    }
    WalkSurvivors(genres, excluded, 0);
    assert genres[0..] == genres;
  }

  lemma {:induction false} SurvivorsSubseq(s: seq<string>, excluded: string)
    ensures IsSubseq(Survivors(s, excluded), s)
    decreases |s|
  {
    if |s| > 0 {
      if !HasExcluded(s[0], excluded) {
        SurvivorsSubseq(s[1..], excluded);
        assert ([s[0]] + Survivors(s[1..], excluded))[1..] == Survivors(s[1..], excluded);
      } else if |s| > 1 {
        var rest := Survivors(s[2..], excluded);
        SurvivorsSubseq(s[2..], excluded);
        assert ([s[1]] + rest)[1..] == rest;
        assert s[1..][1..] == s[2..];
        assert IsSubseq([s[1]] + rest, s[1..]);
        SubseqCons([s[1]] + rest, s[1..], s[0]);
        assert [s[0]] + s[1..] == s;
      }
    }
  }

  /** The filter never adds or reorders entries, and its result keeps the
      input's freedom from duplicates. */
  lemma SurvivorsOrder(s: seq<string>, excluded: string)
    ensures IsSubseq(Survivors(s, excluded), s)
    ensures forall x :: x in Survivors(s, excluded) ==> x in s
    ensures NoDup(s) ==> NoDup(Survivors(s, excluded))
  {
    SurvivorsSubseq(s, excluded);
    SubseqMembers(Survivors(s, excluded), s);
    if NoDup(s) {
      SubseqNoDup(Survivors(s, excluded), s);
    }
  }

  /** Only entries with an excluded character are ever removed. */
  lemma {:induction false} SurvivorsKeepClean(s: seq<string>, excluded: string)
    ensures forall i :: 0 <= i < |s| && !HasExcluded(s[i], excluded) ==>
      s[i] in Survivors(s, excluded)
    decreases |s|
  {
    if |s| > 0 {
      if !HasExcluded(s[0], excluded) {
        SurvivorsKeepClean(s[1..], excluded);
        forall i | 1 <= i < |s| && !HasExcluded(s[i], excluded)
          ensures s[i] in Survivors(s, excluded)
        {
          assert s[i] == s[1..][i - 1];
        }
      } else if |s| > 1 {
        SurvivorsKeepClean(s[2..], excluded);
        forall i | 2 <= i < |s| && !HasExcluded(s[i], excluded)
          ensures s[i] in Survivors(s, excluded)
        {
          assert s[i] == s[2..][i - 2];
        }
      }
    }
  }

  /** The entry right after a removed one is never inspected, so it always
      survives, whatever it contains. */
  lemma {:induction false} SurvivorsKeepNextOfRemoved(s: seq<string>, excluded: string, j: nat)
    requires 0 < j < |s|
    requires s[j - 1] !in Survivors(s, excluded)
    ensures s[j] in Survivors(s, excluded)
    decreases |s|
  {
    if !HasExcluded(s[0], excluded) {
      if j > 1 {
        assert s[1..][j - 2] == s[j - 1] && s[1..][j - 1] == s[j];
        SurvivorsKeepNextOfRemoved(s[1..], excluded, j - 1);
      }
    } else if j > 2 {
      assert s[2..][j - 3] == s[j - 1] && s[2..][j - 2] == s[j];
      SurvivorsKeepNextOfRemoved(s[2..], excluded, j - 2);
    }
  }

  /** An entry with an excluded character survives only as the successor of
      a removed entry. */
  lemma {:induction false} SurvivorsExcludedFollowRemoved(s: seq<string>, excluded: string)
    requires NoDup(s)
    ensures forall x :: x in Survivors(s, excluded) && HasExcluded(x, excluded) ==>
      exists j :: 0 < j < |s| && s[j] == x && s[j - 1] !in Survivors(s, excluded)
    decreases |s|
  {
    if |s| > 0 {
      var r := Survivors(s, excluded);
      if !HasExcluded(s[0], excluded) {
        var rest := Survivors(s[1..], excluded);
        assert NoDup(s[1..]);
        SurvivorsExcludedFollowRemoved(s[1..], excluded);
        forall x | x in r && HasExcluded(x, excluded)
          ensures exists j :: 0 < j < |s| && s[j] == x && s[j - 1] !in r
        {
          assert x in rest;
          var j' :| 0 < j' < |s[1..]| && s[1..][j'] == x && s[1..][j' - 1] !in rest;
          assert s[j' + 1] == x && s[j'] == s[1..][j' - 1];
          assert s[j'] != s[0];
        }
      } else if |s| > 1 {
        var rest := Survivors(s[2..], excluded);
        assert NoDup(s[2..]);
        SurvivorsExcludedFollowRemoved(s[2..], excluded);
        SurvivorsOrder(s[2..], excluded);
        assert s[0] !in s[2..];
        assert s[0] !in r;
        forall x | x in r && HasExcluded(x, excluded)
          ensures exists j :: 0 < j < |s| && s[j] == x && s[j - 1] !in r
        {
          if x == s[1] {
            assert s[1] == x && s[0] !in r;
          } else {
            assert x in rest;
            var j' :| 0 < j' < |s[2..]| && s[2..][j'] == x && s[2..][j' - 1] !in rest;
            assert s[j' + 2] == x && s[j' + 1] == s[2..][j' - 1];
            assert s[j' + 1] != s[1];
          }
        }
      }
    }
  }

  /** No two neighbouring entries both carry an excluded character. */
  predicate NoAdjacentExcluded(s: seq<string>, excluded: string)
  {
    forall i :: 0 < i < |s| ==> !(HasExcluded(s[i - 1], excluded) && HasExcluded(s[i], excluded))
  }

  /** When no two excluded entries are neighbours, the loop does what a
      filter into a new list would do: it keeps exactly the entries without
      an excluded character, in order. */
  lemma {:induction false} SurvivorsWithoutNeighbours(s: seq<string>, excluded: string)
    requires NoAdjacentExcluded(s, excluded)
    ensures Survivors(s, excluded) == Filter(x => !HasExcluded(x, excluded), s)
    ensures forall x :: x in Survivors(s, excluded) ==> !HasExcluded(x, excluded)
    decreases |s|
  {
    var keep := x => !HasExcluded(x, excluded);
    if |s| > 0 {
      if !HasExcluded(s[0], excluded) {
        assert NoAdjacentExcluded(s[1..], excluded) by {
          forall i | 0 < i < |s[1..]| ensures !(HasExcluded(s[1..][i - 1], excluded) && HasExcluded(s[1..][i], excluded)) {
            assert s[1..][i - 1] == s[i] && s[1..][i] == s[i + 1];
          }
        }
        SurvivorsWithoutNeighbours(s[1..], excluded);
      } else if |s| > 1 {
        assert !HasExcluded(s[1], excluded);
        assert NoAdjacentExcluded(s[2..], excluded) by {
          forall i | 0 < i < |s[2..]| ensures !(HasExcluded(s[2..][i - 1], excluded) && HasExcluded(s[2..][i], excluded)) {
            assert s[2..][i - 1] == s[i + 1] && s[2..][i] == s[i + 2];
          }
        }
        SurvivorsWithoutNeighbours(s[2..], excluded);
        assert s[1..][1..] == s[2..];
        assert Filter(keep, s) == Filter(keep, s[1..]);
        assert Filter(keep, s[1..]) == [s[1]] + Filter(keep, s[2..]);
      }
    }
    FilterMembers(keep, s);
  }

  /** Of two excluded entries, the second is stepped over and survives. */
  lemma SurvivorsPairExcluded(a: string, b: string, excluded: string)
    requires HasExcluded(a, excluded) && HasExcluded(b, excluded)
    ensures Survivors([a, b], excluded) == [b]
  {
    assert [a, b][2..] == [];
  }

  /** Two neighbouring excluded entries: the second survives the loop. */
  lemma SurvivorsCounterexample()
    ensures Survivors(["1", "2"], TITLE_EXCLUDED) == ["2"]
    ensures HasExcluded("2", TITLE_EXCLUDED)
  {
    assert TITLE_EXCLUDED[1] == '1' && TITLE_EXCLUDED[2] == '2';
    assert HasExcluded("1", TITLE_EXCLUDED);
    assert ["1", "2"][2..] == [];
  }

  /** The text is made of ASCII letters only (checked one position at a
      time, so that it can be evaluated on a literal). */
  predicate Letters(s: string)
    decreases |s|
  {
    |s| == 0 || (Text.IsLetter(s[0]) && Letters(s[1..]))
  }

  /** A word made of letters only passes either exclusion test. */
  lemma {:induction false} LettersNotExcluded(genre: string)
    requires Letters(genre)
    ensures !HasExcluded(genre, TITLE_EXCLUDED) && !HasExcluded(genre, AUTHOR_EXCLUDED)
    decreases |genre|
  {
    if |genre| > 0 {
      LettersNotExcluded(genre[1..]);
      assert genre == [genre[0]] + genre[1..];
      forall k | 0 <= k < |TITLE_EXCLUDED| ensures TITLE_EXCLUDED[k] !in genre {
        assert TITLE_EXCLUDED[k] !in genre[1..];
      }
      forall k | 0 <= k < |AUTHOR_EXCLUDED| ensures AUTHOR_EXCLUDED[k] !in genre {
        assert AUTHOR_EXCLUDED[k] !in genre[1..];
      }
    }
  }

  /** Which entries survive depends on the order of the listing, not only on
      its elements: "1", "a", "2" keep only "a", while "1", "2", "a" also
      keep the excluded "2". */
  lemma SurvivorsDependOnOrder()
    ensures Survivors(["1", "a", "2"], TITLE_EXCLUDED) == ["a"]
    ensures Survivors(["1", "2", "a"], TITLE_EXCLUDED) == ["2", "a"]
  {
    DigitsExcluded();
    LettersNotExcluded("a");
    assert ["1", "a", "2"][2..] == ["2"] && ["2"][1..] == [];
    assert ["1", "2", "a"][2..] == ["a"] && ["a"][1..] == [];
  }

  lemma DigitsExcluded()
    ensures HasExcluded("1", TITLE_EXCLUDED) && HasExcluded("2", TITLE_EXCLUDED)
  {
    assert TITLE_EXCLUDED[1] == '1' && TITLE_EXCLUDED[2] == '2';
  }
}
