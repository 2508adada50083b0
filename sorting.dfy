/** The list operations the win check relies on: sorting a list of cells
    (the standard library's sort on the derived order of pairs) and counting
    the pairs on which two lists agree (zip, keep equal pairs, count). */
module Sorting {
  import opened Geometry

  predicate NotAfter(a: Pos, b: Pos)
  {
    a == b || Before(a, b)
  }

  predicate Sorted(s: seq<Pos>)
  {
    forall i, j :: 0 <= i < j < |s| ==> NotAfter(s[i], s[j])
  }

  /** Putting in front of a sorted list a cell that comes after none of its
      elements keeps it sorted; strictly so when it comes before all of them. */
  lemma SortedCons(h: Pos, t: seq<Pos>)
    requires Sorted(t) && forall k :: 0 <= k < |t| ==> NotAfter(h, t[k])
    ensures Sorted([h] + t)
  {
    var r := [h] + t;
    forall i, j | 0 <= i < j < |r| ensures NotAfter(r[i], r[j]) {
      if i > 0 {
        assert r[i] == t[i - 1] && r[j] == t[j - 1];
      } else {
        assert r[j] == t[j - 1];
      }
    }
  }

  lemma StrictlySortedCons(h: Pos, t: seq<Pos>)
    requires StrictlySorted(t) && forall k :: 0 <= k < |t| ==> Before(h, t[k])
    ensures StrictlySorted([h] + t)
  {
    var r := [h] + t;
    forall i, j | 0 <= i < j < |r| ensures Before(r[i], r[j]) {
      if i > 0 {
        assert r[i] == t[i - 1] && r[j] == t[j - 1];
      } else {
        assert r[j] == t[j - 1];
      }
    }
  }

  /** Insert x into a list, before the first element it does not come after. */
  function Insert(x: Pos, s: seq<Pos>): (r: seq<Pos>)
    ensures multiset(r) == multiset(s) + multiset{x}
  {
    if s == [] then [x]
    else if NotAfter(x, s[0]) then [x] + s
    else
      assert s == [s[0]] + s[1..];
      [s[0]] + Insert(x, s[1..])
  }

  /** Every element of the insertion is x or an element of s. */
  lemma InsertFrom(x: Pos, s: seq<Pos>)
    ensures forall k :: 0 <= k < |Insert(x, s)| ==> Insert(x, s)[k] == x || Insert(x, s)[k] in s
  {
    var r := Insert(x, s);
    forall k | 0 <= k < |r| ensures r[k] == x || r[k] in s {
      assert r[k] in multiset(r);
    }
  }

  /** Inserting into a sorted list keeps it sorted. */
  lemma {:induction false} InsertSorted(x: Pos, s: seq<Pos>)
    requires Sorted(s)
    ensures Sorted(Insert(x, s))
  {
    if s == [] {
    } else if NotAfter(x, s[0]) {
      forall k | 0 <= k < |s| ensures NotAfter(x, s[k]) {
        assert k == 0 || NotAfter(s[0], s[k]);
      }
      SortedCons(x, s);
    } else {
      var t := Insert(x, s[1..]);
      InsertSorted(x, s[1..]);
      InsertFrom(x, s[1..]);
      forall k | 0 <= k < |t| ensures NotAfter(s[0], t[k]) {
        if t[k] != x {
          var j :| 0 <= j < |s[1..]| && s[1..][j] == t[k];
          assert s[j + 1] == t[k];
        }
      }
      SortedCons(s[0], t);
    }
  }

  /** Inserting a new element into a strictly sorted list keeps it
      strictly sorted. */
  lemma {:induction false} InsertStrictlySorted(x: Pos, s: seq<Pos>)
    requires StrictlySorted(s) && x !in s
    ensures StrictlySorted(Insert(x, s))
  {
    if s == [] {
    } else if NotAfter(x, s[0]) {
      forall k | 0 <= k < |s| ensures Before(x, s[k]) {
        assert k == 0 || Before(s[0], s[k]);
      }
      StrictlySortedCons(x, s);
    } else {
      var t := Insert(x, s[1..]);
      assert forall j :: 0 <= j < |s[1..]| ==> s[1..][j] == s[j + 1];
      InsertStrictlySorted(x, s[1..]);
      InsertFrom(x, s[1..]);
      forall k | 0 <= k < |t| ensures Before(s[0], t[k]) {
        if t[k] != x {
          var j :| 0 <= j < |s[1..]| && s[1..][j] == t[k];
          assert s[j + 1] == t[k];
        }
      }
      StrictlySortedCons(s[0], t);
    }
  }

  /** The list sorted: the same elements, each as often, in order. */
  function Sort(s: seq<Pos>): (r: seq<Pos>)
    ensures multiset(r) == multiset(s)
    ensures Sorted(r)
  {
    if s == [] then []
    else
      var rest := Sort(s[1..]);
      assert s == [s[0]] + s[1..];
      InsertSorted(s[0], rest);
      Insert(s[0], rest)
  }

  /** Sorting a list without repetitions gives a strictly sorted list. */
  lemma {:induction false} SortStrictlySorted(s: seq<Pos>)
    requires Distinct(s)
    ensures StrictlySorted(Sort(s))
  {
    if s != [] {
      assert s == [s[0]] + s[1..];
      SortStrictlySorted(s[1..]);
      assert s[0] !in multiset(Sort(s[1..]));
      InsertStrictlySorted(s[0], Sort(s[1..]));
    }
  }

  /** A sorted list has the same elements as the list it sorts. */
  lemma SortElements(s: seq<Pos>)
    ensures Elements(Sort(s)) == Elements(s)
  {
    var r := Sort(s);
    forall x ensures x in r <==> x in s {
      assert x in r <==> x in multiset(r);
      assert x in s <==> x in multiset(s);
    }
  }

  /** The number of positions at which a and b hold the same cell, counted
      over the length of the shorter one. It equals the length of b exactly
      when b is a prefix of a. */
  function CountMatches(a: seq<Pos>, b: seq<Pos>): (n: nat)
    ensures n <= |a| && n <= |b|
    ensures n == |b| <==> |b| <= |a| && a[..|b|] == b
  {
    if a == [] || b == [] then 0
    else
      var rest := CountMatches(a[1..], b[1..]);
      assert |b| <= |a| && a[..|b|] == b <==>
             a[0] == b[0] && |b| - 1 <= |a| - 1 && a[1..][..|b| - 1] == b[1..] by {
        if |b| <= |a| && a[..|b|] == b {
          assert a[1..][..|b| - 1] == a[..|b|][1..];
        }
        if a[0] == b[0] && |b| - 1 <= |a| - 1 && a[1..][..|b| - 1] == b[1..] {
          assert a[..|b|] == [a[0]] + a[1..][..|b| - 1];
          assert b == [b[0]] + b[1..];
        }
      }
      (if a[0] == b[0] then 1 else 0) + rest
  }

  /** The tail of a non-empty strictly sorted list is strictly sorted and
      holds every element but the head. */
  lemma SortedTail(a: seq<Pos>)
    requires StrictlySorted(a) && a != []
    ensures StrictlySorted(a[1..])
    ensures Elements(a[1..]) == Elements(a) - {a[0]}
  {
    assert a == [a[0]] + a[1..];
    assert forall k :: 0 <= k < |a[1..]| ==> Before(a[0], a[1..][k]);
  }

  /** Two non-empty strictly sorted lists with the same elements start with
      the same cell, their least. */
  lemma SortedHeads(a: seq<Pos>, b: seq<Pos>)
    requires StrictlySorted(a) && StrictlySorted(b) && a != [] && b != []
    requires Elements(a) == Elements(b)
    ensures a[0] == b[0]
  {
    assert a[0] in Elements(a);
    assert b[0] in Elements(b);
    var i :| 0 <= i < |a| && a[i] == b[0];
    var j :| 0 <= j < |b| && b[j] == a[0];
    assert forall t :: 0 <= t < |a| ==> NotAfter(a[0], a[t]);
    assert forall t :: 0 <= t < |b| ==> NotAfter(b[0], b[t]);
  }

  /** Two strictly sorted lists with the same elements are the same list. */
  lemma {:induction false} SortedUnique(a: seq<Pos>, b: seq<Pos>)
    requires StrictlySorted(a) && StrictlySorted(b)
    requires Elements(a) == Elements(b)
    ensures a == b
  {
    SortedIsDistinct(a);
    SortedIsDistinct(b);
    DistinctCard(a);
    DistinctCard(b);
    if a != [] {
      SortedHeads(a, b);
      SortedTail(a);
      SortedTail(b);
      SortedUnique(a[1..], b[1..]);
      assert a == [a[0]] + a[1..] && b == [b[0]] + b[1..];
    }
  }

  /** With every element of the sorted list ms also in the sorted list cs, ms
      is a prefix of cs exactly when every element of cs that is not in ms
      comes after every element of ms. */
  lemma PrefixMeaning(cs: seq<Pos>, ms: seq<Pos>)
    requires StrictlySorted(cs) && StrictlySorted(ms)
    requires Elements(ms) <= Elements(cs)
    ensures (|ms| <= |cs| && cs[..|ms|] == ms) <==>
            (forall c, m :: c in cs && c !in ms && m in ms ==> Before(m, c))
  {
    var k := |ms|;
    if |ms| <= |cs| && cs[..k] == ms {
      forall c, m | c in cs && c !in ms && m in ms ensures Before(m, c) {
        var j :| 0 <= j < |cs| && cs[j] == c;
        var i :| 0 <= i < k && ms[i] == m;
        assert cs[i] == m;
        assert forall t :: 0 <= t < k ==> cs[t] == ms[t];
      }
    }
    if forall c, m :: c in cs && c !in ms && m in ms ==> Before(m, c) {
      SortedIsDistinct(cs);
      SortedIsDistinct(ms);
      DistinctCard(cs);
      DistinctCard(ms);
      SubsetCard(Elements(ms), Elements(cs));
      assert k <= |cs|;
      forall i | 0 <= i < k ensures cs[i] in ms {
        if cs[i] !in ms {
          assert Elements(ms) <= Elements(cs[..i]) by {
            forall m | m in ms ensures m in cs[..i] {
              assert Before(m, cs[i]);
              assert m in Elements(ms);
              var j :| 0 <= j < |cs| && cs[j] == m;
              assert forall t :: i <= t < |cs| ==> NotAfter(cs[i], cs[t]);
              assert cs[..i][j] == m;
            }
          }
          SubsetCard(Elements(ms), Elements(cs[..i]));
          ElementsCard(cs[..i]);
          assert false;
        }
      }
      var front := cs[..k];
      assert Elements(front) <= Elements(ms);
      assert Distinct(front);
      DistinctCard(front);
      SubsetCardEqual(Elements(front), Elements(ms));
      SortedUnique(front, ms);
    }
  }
}
