/**
  `check_hashes`: every candidate is validated, only valid ones are looked
  up, and a record is kept for each lookup that produced both values.
*/
module Batch {
  import opened Wrappers
  import opened Text
  import opened Validate
  import opened Reputation

  /** One row of the result list, `(hash, av_rate, timestamp)`. */
  datatype Record = Record(hash: string, avRate: string, timestamp: string)

  /** Python truthiness of a returned value: neither None nor "". */
  predicate Truthy(o: Option<string>)
  {
    o.Some? && o.value != ""
  }

  /** What one iteration of the loop appends for one candidate. */
  function Step(hash: string, resolve: string -> Resolution): seq<Record>
  {
    if !ValidateHash(hash) then []
    else match Query(hash, resolve)
      case Some(a) =>
        if a.timestamp != "" && a.avRate != "" then [Record(hash, a.avRate, a.timestamp)] else []
      case None => []
  }

  /** The list `check_hashes` returns, built in input order. */
  function Scan(hashes: seq<string>, resolve: string -> Resolution): seq<Record>
  {
    if hashes == [] then []
    else Scan(hashes[..|hashes| - 1], resolve) + Step(hashes[|hashes| - 1], resolve)
  }

  /** The candidates handed to the lookup, in input order. */
  function Queried(hashes: seq<string>): seq<string>
  {
    if hashes == [] then []
    else
      var last := hashes[|hashes| - 1];
      Queried(hashes[..|hashes| - 1]) + (if ValidateHash(last) then [last] else [])
  }

  /** A candidate the scan keeps: valid, and its lookup yields an answer. */
  predicate Kept(hash: string, resolve: string -> Resolution)
  {
    ValidateHash(hash) && Query(hash, resolve).Some?
  }

  /** `check_hashes`. The ghost `queried` logs every hash given to the lookup. */
  method CheckHashes(hashes: seq<string>, resolve: string -> Resolution)
    returns (malicious: seq<Record>, ghost queried: seq<string>)
    ensures malicious == Scan(hashes, resolve)
    ensures queried == Queried(hashes)
    ensures forall k :: 0 <= k < |queried| ==> ValidateHash(queried[k])
  {
    malicious, queried := [], [];
    for i := 0 to |hashes|
      invariant malicious == Scan(hashes[..i], resolve)
      invariant queried == Queried(hashes[..i])
      invariant forall k :: 0 <= k < |queried| ==> ValidateHash(queried[k])
    {
      var hash := hashes[i];
      assert hashes[..i + 1][..i] == hashes[..i];
      if ValidateHash(hash) {
        var timestamp, avRate := QueryMhr(hash, resolve);
        queried := queried + [hash];
        if Truthy(timestamp) && Truthy(avRate) {
          malicious := malicious + [Record(hash, avRate.value, timestamp.value)];
        }
      }
    }
    assert hashes[..|hashes|] == hashes;
  }

  /** The "both values present" test only ever filters out a missing answer:
      split tokens are never empty. */
  lemma StepKeepsEveryAnswer(hash: string, resolve: string -> Resolution)
    ensures Step(hash, resolve) ==
              if Kept(hash, resolve)
              then [Record(hash, Query(hash, resolve).value.avRate, Query(hash, resolve).value.timestamp)]
              else []
  {
    if Kept(hash, resolve) {
      QueryIsWords(hash, resolve);
    }
  }

  /** A valid hash whose lookup answers with the single record
      `"1700000000 75"` yields the row (hash, "75", "1700000000"). */
  lemma SampleAnswer(hash: string, resolve: string -> Resolution)
    requires ValidateHash(hash)
    requires resolve(LookupDomain(hash)) == Answer(["\"1700000000 75\""])
    ensures Step(hash, resolve) == [Record(hash, "75", "1700000000")]
  {
    var text := "\"1700000000 75\"";
    var answer := TxtAnswer("1700000000", "75");
    SamplePayload();
    assert FirstAnswer([text]) == Some(answer);
    assert Query(hash, resolve) == Some(answer);
    assert answer.timestamp != "" && answer.avRate != "";
  }

  /** Both values of an answer are words: a lookup never yields "". */
  lemma QueryIsWords(hash: string, resolve: string -> Resolution)
    requires Query(hash, resolve).Some?
    ensures IsWord(Query(hash, resolve).value.timestamp)
    ensures IsWord(Query(hash, resolve).value.avRate)
  {
    FirstAnswerWords(resolve(LookupDomain(hash)).records);
  }

  /** The hashes of a list of records. */
  function Hashes(rs: seq<Record>): (hs: seq<string>)
    ensures |hs| == |rs|
  {
    if rs == [] then [] else Hashes(rs[..|rs| - 1]) + [rs[|rs| - 1].hash]
  }

  lemma {:induction false} HashesAppend(rs: seq<Record>, more: seq<Record>)
    ensures Hashes(rs + more) == Hashes(rs) + Hashes(more)
    decreases |more|
  {
    if more != [] {
      assert (rs + more)[..|rs + more| - 1] == rs + more[..|more| - 1];
      HashesAppend(rs, more[..|more| - 1]);
    } else {
      assert rs + more == rs;
    }
  }

  /** `xs` is `ys` with some elements left out, order kept. */
  ghost predicate IsSubsequence<T>(xs: seq<T>, ys: seq<T>)
    decreases |ys|
  {
    if ys == [] then xs == []
    else
      || IsSubsequence(xs, ys[..|ys| - 1])
      || (xs != [] && xs[|xs| - 1] == ys[|ys| - 1] && IsSubsequence(xs[..|xs| - 1], ys[..|ys| - 1]))
  }

  /** Every kept record names a valid hash and carries that hash's answer,
      with the two values in swapped order. */
  lemma {:induction false} ScanRecordsAreAnswers(hashes: seq<string>, resolve: string -> Resolution)
    ensures forall k :: 0 <= k < |Scan(hashes, resolve)| ==>
              var r := Scan(hashes, resolve)[k];
              ValidateHash(r.hash) && Query(r.hash, resolve) == Some(TxtAnswer(r.timestamp, r.avRate))
  {
    if hashes != [] {
      var init := hashes[..|hashes| - 1];
      ScanRecordsAreAnswers(init, resolve);
    }
  }

  /** The kept hashes are the input with some entries left out, in order. */
  lemma {:induction false} ScanIsSubsequence(hashes: seq<string>, resolve: string -> Resolution)
    ensures IsSubsequence(Hashes(Scan(hashes, resolve)), hashes)
  {
    if hashes != [] {
      var init, last := hashes[..|hashes| - 1], hashes[|hashes| - 1];
      var prev := Scan(init, resolve);
      ScanIsSubsequence(init, resolve);
      HashesAppend(prev, Step(last, resolve));
      if Step(last, resolve) != [] {
        var hs := Hashes(prev) + [last];
        assert Hashes(Step(last, resolve)) == [last];
        assert hs[..|hs| - 1] == Hashes(prev);
      } else {
        assert Hashes(prev) + [] == Hashes(prev);
      }
    }
  }

  /** The result is never longer than the input. */
  lemma {:induction false} ScanLength(hashes: seq<string>, resolve: string -> Resolution)
    ensures |Scan(hashes, resolve)| <= |hashes|
  {
    if hashes != [] {
      ScanLength(hashes[..|hashes| - 1], resolve);
    }
  }

  /** Each hash occurs in the result as often as in the input when it is
      kept, and not at all otherwise: duplicates are kept, nothing is
      dropped that has an answer. */
  lemma {:induction false} ScanCounts(hashes: seq<string>, resolve: string -> Resolution, h: string)
    ensures multiset(Hashes(Scan(hashes, resolve)))[h] ==
              if Kept(h, resolve) then multiset(hashes)[h] else 0
  {
    if hashes != [] {
      var init, last := hashes[..|hashes| - 1], hashes[|hashes| - 1];
      ScanCounts(init, resolve, h);
      HashesAppend(Scan(init, resolve), Step(last, resolve));
      StepKeepsEveryAnswer(last, resolve);
      assert hashes == init + [last];
    }
  }

  /** Only valid candidates reach the lookup, each occurrence once. */
  lemma {:induction false} QueriedCounts(hashes: seq<string>, h: string)
    ensures multiset(Queried(hashes))[h] == if ValidateHash(h) then multiset(hashes)[h] else 0
  {
    if hashes != [] {
      var init := hashes[..|hashes| - 1];
      QueriedCounts(init, h);
      assert hashes == init + [hashes[|hashes| - 1]];
    }
  }
}
