/**
  `malicious_hashes.sort(key=lambda x: x[1], reverse=True)`: a stable sort
  of the result list by detection rate, highest first, where rates are
  compared as strings.
*/
module RateSort {
  import opened Text
  import opened Batch

  /** Highest rate first: no record's rate is below a later record's. */
  ghost predicate NonIncreasing(rs: seq<Record>)
  {
    forall i, j :: 0 <= i < j < |rs| ==> !Below(rs[i].avRate, rs[j].avRate)
  }

  /** Puts `x` after every record of `s` whose rate is not below its own,
      that is, before the first one with a lower rate. */
  function Insert(x: Record, s: seq<Record>): seq<Record>
  {
    if s == [] then [x]
    else if Below(s[0].avRate, x.avRate) then [x] + s
    else [s[0]] + Insert(x, s[1..])
  }

  /** The list once sorted: the records inserted one by one in list order. */
  function SortByRate(rs: seq<Record>): seq<Record>
  {
    if rs == [] then [] else Insert(rs[|rs| - 1], SortByRate(rs[..|rs| - 1]))
  }

  /** The records with the given rate, in list order. */
  function WithRate(rate: string, rs: seq<Record>): seq<Record>
  {
    if rs == [] then []
    else (if rs[0].avRate == rate then [rs[0]] else []) + WithRate(rate, rs[1..])
  }

  lemma {:induction false} InsertPermutes(x: Record, s: seq<Record>)
    ensures multiset(Insert(x, s)) == multiset(s) + multiset{x}
  {
    if s != [] && !Below(s[0].avRate, x.avRate) {
      InsertPermutes(x, s[1..]);
      assert s == [s[0]] + s[1..];
    }
  }

  lemma TailNonIncreasing(s: seq<Record>)
    requires NonIncreasing(s) && s != []
    ensures NonIncreasing(s[1..])
  {
    forall i, j | 0 <= i < j < |s| - 1 ensures !Below(s[1..][i].avRate, s[1..][j].avRate) {
      assert s[1..][i] == s[i + 1] && s[1..][j] == s[j + 1];
    }
  }

  /** A record placed before a non-increasing list with a lower head rate
      keeps the list non-increasing. */
  lemma ConsAboveSorted(x: Record, s: seq<Record>)
    requires NonIncreasing(s) && s != [] && Below(s[0].avRate, x.avRate)
    ensures NonIncreasing([x] + s)
  {
    var r := [x] + s;
    BelowAsymmetric(s[0].avRate, x.avRate);
    forall i, j | 0 <= i < j < |r| ensures !Below(r[i].avRate, r[j].avRate) {
      if i == 0 {
        if j > 1 {
          NotBelowTransitive(x.avRate, s[0].avRate, s[j - 1].avRate);
        }
      } else {
        assert r[i] == s[i - 1] && r[j] == s[j - 1];
      }
    }
  }

  /** A record whose rate is not below any rate of a non-increasing list
      can be placed before it. */
  lemma ConsNotBelowSorted(y: Record, t: seq<Record>)
    requires NonIncreasing(t)
    requires forall k :: 0 <= k < |t| ==> !Below(y.avRate, t[k].avRate)
    ensures NonIncreasing([y] + t)
  {
    var r := [y] + t;
    forall i, j | 0 <= i < j < |r| ensures !Below(r[i].avRate, r[j].avRate) {
      if i == 0 {
        assert r[j] == t[j - 1];
      } else {
        assert r[i] == t[i - 1] && r[j] == t[j - 1];
      }
    }
  }

  lemma {:induction false} InsertSorted(x: Record, s: seq<Record>)
    requires NonIncreasing(s)
    ensures NonIncreasing(Insert(x, s))
  {
    if s == [] {
    } else if Below(s[0].avRate, x.avRate) {
      ConsAboveSorted(x, s);
    } else {
      var tail := Insert(x, s[1..]);
      TailNonIncreasing(s);
      InsertSorted(x, s[1..]);
      InsertPermutes(x, s[1..]);
      forall k | 0 <= k < |tail| ensures !Below(s[0].avRate, tail[k].avRate) {
        var y := tail[k];
        assert y in multiset(tail);
        if y != x {
          assert y in multiset(s[1..]);
          var m :| 0 <= m < |s[1..]| && s[1..][m] == y;
          assert s[m + 1] == y;
        }
      }
      ConsNotBelowSorted(s[0], tail);
    }
  }

  /** In a non-increasing list, nothing after a record with a lower rate
      than `rate` has rate `rate`. */
  lemma {:induction false} WithRateBelowHead(rate: string, s: seq<Record>)
    requires NonIncreasing(s) && s != [] && Below(s[0].avRate, rate)
    ensures WithRate(rate, s) == []
  {
    BelowIrreflexive(rate);
    if |s| > 1 {
      TailNonIncreasing(s);
      assert !Below(s[0].avRate, s[1].avRate);
      BelowTotal(s[0].avRate, s[1].avRate);
      if s[0].avRate != s[1].avRate {
        BelowTransitive(s[1].avRate, s[0].avRate, rate);
      }
      WithRateBelowHead(rate, s[1..]);
    }
  }

  lemma WithRateCons(rate: string, y: Record, t: seq<Record>)
    ensures WithRate(rate, [y] + t) == (if y.avRate == rate then [y] else []) + WithRate(rate, t)
  {
    assert ([y] + t)[0] == y && ([y] + t)[1..] == t;
  }

  lemma {:induction false} WithRateInsert(rate: string, x: Record, s: seq<Record>)
    requires NonIncreasing(s)
    ensures WithRate(rate, Insert(x, s)) == WithRate(rate, s) + (if x.avRate == rate then [x] else [])
  {
    if s == [] {
      WithRateCons(rate, x, []);
    } else if Below(s[0].avRate, x.avRate) {
      assert Insert(x, s) == [x] + s;
      WithRateCons(rate, x, s);
      if x.avRate == rate {
        WithRateBelowHead(rate, s);
      }
    } else {
      var tail := Insert(x, s[1..]);
      assert Insert(x, s) == [s[0]] + tail;
      TailNonIncreasing(s);
      WithRateInsert(rate, x, s[1..]);
      WithRateCons(rate, s[0], tail);
      WithRateCons(rate, s[0], s[1..]);
      assert [s[0]] + s[1..] == s;
    }
  }

  lemma {:induction false} WithRateAppend(rate: string, s: seq<Record>, x: Record)
    ensures WithRate(rate, s + [x]) == WithRate(rate, s) + (if x.avRate == rate then [x] else [])
  {
    if s == [] {
      assert [] + [x] == [x] + [];
      WithRateCons(rate, x, []);
    } else {
      assert s + [x] == [s[0]] + (s[1..] + [x]);
      assert s == [s[0]] + s[1..];
      WithRateCons(rate, s[0], s[1..] + [x]);
      WithRateCons(rate, s[0], s[1..]);
      WithRateAppend(rate, s[1..], x);
    }
  }

  /** The sorted list holds exactly the records of the input. */
  lemma {:induction false} SortByRatePermutes(rs: seq<Record>)
    ensures multiset(SortByRate(rs)) == multiset(rs)
  {
    if rs != [] {
      var init := rs[..|rs| - 1];
      SortByRatePermutes(init);
      InsertPermutes(rs[|rs| - 1], SortByRate(init));
      assert rs == init + [rs[|rs| - 1]];
    }
  }

  /** The sorted list is non-increasing in rate. */
  lemma {:induction false} SortByRateSorted(rs: seq<Record>)
    ensures NonIncreasing(SortByRate(rs))
  {
    if rs != [] {
      SortByRateSorted(rs[..|rs| - 1]);
      InsertSorted(rs[|rs| - 1], SortByRate(rs[..|rs| - 1]));
    }
  }

  /** The sort is stable: the records sharing a rate keep their order. */
  lemma {:induction false} SortByRateStable(rate: string, rs: seq<Record>)
    ensures WithRate(rate, SortByRate(rs)) == WithRate(rate, rs)
  {
    if rs != [] {
      var init, last := rs[..|rs| - 1], rs[|rs| - 1];
      SortByRateStable(rate, init);
      SortByRateSorted(init);
      WithRateInsert(rate, last, SortByRate(init));
      WithRateAppend(rate, init, last);
      assert rs == init + [last];
    }
  }

  lemma WithRateOfHead(p: seq<Record>)
    requires p != []
    ensures WithRate(p[0].avRate, p) == [p[0]] + WithRate(p[0].avRate, p[1..])
  {
  }

  /** Rates compare as strings: "90" goes before "9", and "9" before "80". */
  lemma SampleOrder(a: Record, b: Record, c: Record)
    requires a.avRate == "9" && b.avRate == "90" && c.avRate == "80"
    ensures SortByRate([a, b]) == [b, a]
    ensures SortByRate([c, a]) == [a, c]
  {
    StringOrderOfRates();
    SortPair(a, b);
    SortPair(c, a);
  }

  lemma SortPair(x: Record, y: Record)
    ensures SortByRate([x, y]) == if Below(x.avRate, y.avRate) then [y, x] else [x, y]
  {
    assert [x, y][..1] == [x] && [x][..0] == [];
    assert SortByRate([x]) == [x];
    assert [x][1..] == [];
    assert Insert(y, [x]) == if Below(x.avRate, y.avRate) then [y, x] else [x, y];
  }

  /** Two non-increasing lists that agree, rate by rate, on the records
      with that rate and their order are the same list. */
  lemma {:induction false} NonIncreasingDeterminedByRates(p: seq<Record>, q: seq<Record>)
    requires NonIncreasing(p) && NonIncreasing(q)
    requires forall rate :: WithRate(rate, p) == WithRate(rate, q)
    ensures p == q
    decreases |p|
  {
    if p != [] { WithRateOfHead(p); }
    if q != [] { WithRateOfHead(q); }
    if p != [] && q != [] {
      var r0, r1 := p[0].avRate, q[0].avRate;
      assert WithRate(r0, p) == [p[0]] + WithRate(r0, p[1..]);
      assert WithRate(r1, q) == [q[0]] + WithRate(r1, q[1..]);
      BelowTotal(r0, r1);
      if Below(r1, r0) {
        WithRateBelowHead(r0, q);
        assert false;
      } else if Below(r0, r1) {
        WithRateBelowHead(r1, p);
        assert false;
      }
      assert WithRate(r0, p) == WithRate(r0, q);
      assert p[0] == WithRate(r0, p)[0] == q[0];
      forall rate ensures WithRate(rate, p[1..]) == WithRate(rate, q[1..]) {
        assert WithRate(rate, p) == WithRate(rate, q);
        if rate == r0 {
          assert WithRate(rate, p) == [p[0]] + WithRate(rate, p[1..]);
          assert WithRate(rate, q) == [q[0]] + WithRate(rate, q[1..]);
          assert WithRate(rate, p[1..]) == WithRate(rate, p)[1..];
          assert WithRate(rate, q[1..]) == WithRate(rate, q)[1..];
        } else {
          assert WithRate(rate, p) == [] + WithRate(rate, p[1..]);
          assert WithRate(rate, q) == [] + WithRate(rate, q[1..]);
          assert [] + WithRate(rate, p[1..]) == WithRate(rate, p[1..]);
          assert [] + WithRate(rate, q[1..]) == WithRate(rate, q[1..]);
        }
      }
      TailNonIncreasing(p);
      TailNonIncreasing(q);
      NonIncreasingDeterminedByRates(p[1..], q[1..]);
      assert p == [p[0]] + p[1..] && q == [q[0]] + q[1..];
    }
  }

  /** Any stable sort of the list by rate, highest first, is `SortByRate`:
      a result that is non-increasing and keeps the order of the records of
      each rate is this one. */
  lemma StableSortIsSortByRate(rs: seq<Record>, sorted: seq<Record>)
    requires NonIncreasing(sorted)
    requires forall rate :: WithRate(rate, sorted) == WithRate(rate, rs)
    ensures sorted == SortByRate(rs)
  {
    SortByRateSorted(rs);
    forall rate ensures WithRate(rate, sorted) == WithRate(rate, SortByRate(rs)) {
      SortByRateStable(rate, rs);
    }
    NonIncreasingDeterminedByRates(sorted, SortByRate(rs));
  }

  /** Where `Insert` puts `x`: after the records whose rate is not below
      its own and before those whose rate is. */
  lemma {:induction false} InsertAt(x: Record, s: seq<Record>, j: nat)
    requires j <= |s|
    requires forall m :: 0 <= m < j ==> !Below(s[m].avRate, x.avRate)
    requires forall m :: j <= m < |s| ==> Below(s[m].avRate, x.avRate)
    ensures Insert(x, s) == s[..j] + [x] + s[j..]
  {
    if j > 0 {
      var t := s[1..];
      assert forall m :: 0 <= m < j - 1 ==> t[m] == s[m + 1];
      assert forall m :: j - 1 <= m < |t| ==> t[m] == s[m + 1];
      InsertAt(x, t, j - 1);
      assert s[..j] == [s[0]] + t[..j - 1];
      assert s[j..] == t[j - 1..];
    }
  }

  /** In a non-increasing list, every record before one whose rate is not
      below `x`'s has a rate not below `x`'s either. */
  lemma PrefixNotBelow(x: Record, s: seq<Record>, j: nat)
    requires NonIncreasing(s) && 0 < j <= |s|
    requires !Below(s[j - 1].avRate, x.avRate)
    ensures forall m :: 0 <= m < j ==> !Below(s[m].avRate, x.avRate)
  {
    forall m | 0 <= m < j - 1 ensures !Below(s[m].avRate, x.avRate) {
      NotBelowTransitive(s[m].avRate, s[j - 1].avRate, x.avRate);
    }
  }

  /** One step of insertion sort: moves `a[i]` left past the records just
      before it whose rate is below its own, and returns where it lands. */
  method InsertInPlace(a: array<Record>, i: nat) returns (j: nat)
    requires i < a.Length
    modifies a
    ensures j <= i
    ensures a[..i + 1] == old(a[..i])[..j] + [old(a[i])] + old(a[..i])[j..]
    ensures a[i + 1..] == old(a[i + 1..])
    ensures forall m :: j <= m < i ==> Below(old(a[..i])[m].avRate, old(a[i]).avRate)
    ensures j > 0 ==> !Below(old(a[..i])[j - 1].avRate, old(a[i]).avRate)
  {
    var x := a[i];
    ghost var s := a[..i];
    j := i;
    while j > 0 && Below(a[j - 1].avRate, x.avRate)
      invariant 0 <= j <= i
      invariant forall m :: 0 <= m < j ==> a[m] == s[m]
      invariant forall m :: j < m <= i ==> a[m] == s[m - 1]
      invariant forall m :: i < m < a.Length ==> a[m] == old(a[m])
      invariant forall m :: j <= m < i ==> Below(s[m].avRate, x.avRate)
    {
      a[j] := a[j - 1];
      j := j - 1;
    }
    a[j] := x;
    assert a[..i + 1] == s[..j] + [x] + s[j..];
  }

  /** Inserting the next record into the sorted prefix at the place the
      in-place step found gives the sorted longer prefix. */
  lemma InsertStep(prefix: seq<Record>, x: Record, j: nat)
    requires j <= |SortByRate(prefix)|
    requires forall m :: j <= m < |SortByRate(prefix)| ==> Below(SortByRate(prefix)[m].avRate, x.avRate)
    requires j > 0 ==> !Below(SortByRate(prefix)[j - 1].avRate, x.avRate)
    ensures SortByRate(prefix + [x]) == SortByRate(prefix)[..j] + [x] + SortByRate(prefix)[j..]
  {
    var s := SortByRate(prefix);
    SortByRateSorted(prefix);
    if j > 0 {
      PrefixNotBelow(x, s, j);
    }
    InsertAt(x, s, j);
    assert (prefix + [x])[..|prefix|] == prefix;
  }

  /** Sorts the list in place. Insertion sort stands in for the library's
      sort: by `StableSortIsSortByRate` every stable sort on this key gives
      the same list. */
  method SortInPlace(a: array<Record>)
    modifies a
    ensures a[..] == SortByRate(old(a[..]))
  {
    ghost var input := a[..];
    for i := 0 to a.Length
      invariant a[..i] == SortByRate(input[..i])
      invariant a[i..] == input[i..]
    {
      ghost var x := a[i];
      assert x == input[i];
      var j := InsertInPlace(a, i);
      InsertStep(input[..i], x, j);
      assert input[..i + 1] == input[..i] + [x];
    }
    assert input[..a.Length] == input;
  }
}
