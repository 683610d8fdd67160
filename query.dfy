/**
  `query_mhr`: the lookup of one hash at the reputation service. The DNS
  resolver is an oracle, a function from the queried name to its outcome.
*/
module Reputation {
  import opened Wrappers
  import opened Text

  /** The reputation service's zone. */
  const ServiceName: string := "hash.cymru.com"

  /** What the resolver does with a TXT query: the two failures the script
      names (no TXT records, name does not exist), any other exception, or
      the answer's records, each as its `to_text()` form. The oracle is keyed
      on the exact query string; that DNS treats names differing only in
      letter case as one name is not imposed on it. */
  datatype Resolution =
    | NoAnswer
    | NxDomain
    | ResolverError
    | Answer(records: seq<string>)

  /** A usable reply: the two tokens of a TXT record, in record order. */
  datatype TxtAnswer = TxtAnswer(timestamp: string, avRate: string)

  /** The name queried for a hash. A SHA-256 hash (64 characters) is too long
      for one DNS label and is split into two labels of 32 characters. */
  function LookupDomain(hash: string): (domain: string)
    ensures |domain| == |hash| + (if |hash| == 64 then 1 else 0) + 1 + |ServiceName|
    ensures domain[|domain| - |ServiceName| - 1..] == "." + ServiceName
  {
    if |hash| == 64 then hash[..32] + "." + hash[32..] + "." + ServiceName
    else hash + "." + ServiceName
  }

  /** Recovers the hash from a lookup name: drops the service suffix and,
      for a 65-character prefix with a dot in the middle, that dot. */
  function HashOfDomain(domain: string): Option<string>
  {
    var suffix := "." + ServiceName;
    if |domain| < |suffix| || domain[|domain| - |suffix|..] != suffix then None
    else
      var prefix := domain[..|domain| - |suffix|];
      if |prefix| == 65 && prefix[32] == '.' then Some(prefix[..32] + prefix[33..])
      else Some(prefix)
  }

  /** Removing the inserted dot and the suffix gives back any hash that has
      no dot of its own (every valid hash). */
  lemma DomainRoundTrip(hash: string)
    requires forall k :: 0 <= k < |hash| ==> hash[k] != '.'
    ensures HashOfDomain(LookupDomain(hash)) == Some(hash)
  {
    var domain := LookupDomain(hash);
    var suffix := "." + ServiceName;
    if |hash| == 64 {
      var prefix := hash[..32] + "." + hash[32..];
      assert domain == prefix + suffix;
      assert domain[..|domain| - |suffix|] == prefix;
      assert prefix[..32] + prefix[33..] == hash;
    } else {
      assert domain == hash + suffix;
      assert domain[..|domain| - |suffix|] == hash;
      assert |hash| == 65 ==> hash[32] != '.';
    }
  }

  /** Different valid hashes never give the same query string. (DNS itself
      compares names without regard to letter case; see `Resolution`.) */
  lemma LookupDomainInjective(h1: string, h2: string)
    requires forall k :: 0 <= k < |h1| ==> h1[k] != '.'
    requires forall k :: 0 <= k < |h2| ==> h2[k] != '.'
    requires LookupDomain(h1) == LookupDomain(h2)
    ensures h1 == h2
  {
    DomainRoundTrip(h1);
    DomainRoundTrip(h2);
  }

  /** The two labels of a SHA-256 lookup are the two halves of the hash. */
  lemma SplitLabels(hash: string)
    requires |hash| == 64
    ensures LookupDomain(hash)[..32] == hash[..32]
    ensures LookupDomain(hash)[32] == '.'
    ensures LookupDomain(hash)[33..65] == hash[32..]
  {
  }

  /** The SHA-256 hash of 64 'a's is looked up under two labels of 32 'a's. */
  lemma SampleSha256Domain()
    ensures LookupDomain(seq(64, _ => 'a')) == seq(32, _ => 'a') + "." + seq(32, _ => 'a') + ".hash.cymru.com"
  {
    var h := seq(64, _ => 'a');
    assert h[..32] == seq(32, _ => 'a') && h[32..] == seq(32, _ => 'a');
  }

  /** The characters `strip('"')` removes. */
  const Quote: set<char> := {'"'}

  /** One TXT record: quotes stripped from both ends, split on whitespace;
      usable only when exactly two tokens result. */
  function ParseRecord(text: string): Option<TxtAnswer>
  {
    var parts := Split(Strip(text, Quote));
    if |parts| == 2 then Some(TxtAnswer(parts[0], parts[1])) else None
  }

  /** Stripping quotes from a quoted text gives the text back when the
      text itself neither starts nor ends with a quote. */
  lemma StripQuoted(body: string)
    requires body != [] && body[0] != '"' && body[|body| - 1] != '"'
    ensures Strip("\"" + body + "\"", Quote) == body
  {
    var text := "\"" + body + "\"";
    var tail := body + "\"";
    assert text[1..] == tail;
    assert StripLeft(tail, Quote) == tail;
    assert StripLeft(text, Quote) == tail;
    assert tail[..|tail| - 1] == body;
    assert StripRight(body, Quote) == body;
  }

  /** The documented payload `"<epoch> <rate>"` parses to its two fields. */
  lemma ParseWellFormedPayload(timestamp: string, avRate: string)
    requires IsWord(timestamp) && IsWord(avRate)
    requires timestamp[0] != '"' && avRate[|avRate| - 1] != '"'
    ensures ParseRecord("\"" + timestamp + " " + avRate + "\"") == Some(TxtAnswer(timestamp, avRate))
  {
    var body := timestamp + " " + avRate;
    var text := "\"" + timestamp + " " + avRate + "\"";
    assert text == "\"" + body + "\"";
    assert body[0] == timestamp[0] && body[|body| - 1] == avRate[|avRate| - 1];
    StripQuoted(body);
    SplitTwoWords(timestamp, avRate);
    assert Split(Strip(text, Quote)) == [timestamp, avRate];
  }

  /** Any non-empty run of whitespace, tabs included, may separate the two
      fields of a payload. */
  lemma ParseSpacedPayload(timestamp: string, sep: string, avRate: string)
    requires IsWord(timestamp) && IsWord(avRate) && IsBlank(sep) && sep != []
    requires timestamp[0] != '"' && avRate[|avRate| - 1] != '"'
    ensures ParseRecord("\"" + (timestamp + (sep + avRate)) + "\"") == Some(TxtAnswer(timestamp, avRate))
  {
    var body := timestamp + (sep + avRate);
    assert body[0] == timestamp[0] && body[|body| - 1] == avRate[|avRate| - 1];
    StripQuoted(body);
    SplitSeparatedWords("", timestamp, sep, avRate, "");
    assert "" + (timestamp + (sep + (avRate + ""))) == body;
  }

  /** The sample payload `"1700000000 75"` parses to its two fields. */
  lemma SamplePayload()
    ensures ParseRecord("\"1700000000 75\"") == Some(TxtAnswer("1700000000", "75"))
  {
    assert IsWord("1700000000") && IsWord("75");
    ParseWellFormedPayload("1700000000", "75");
    assert "\"" + "1700000000" + " " + "75" + "\"" == "\"1700000000 75\"";
  }

  /** The first record that parses, in answer order. */
  function FirstAnswer(records: seq<string>): Option<TxtAnswer>
  {
    if records == [] then None
    else if ParseRecord(records[0]).Some? then ParseRecord(records[0])
    else FirstAnswer(records[1..])
  }

  /** Both values of a parsed record are words, hence never empty. */
  lemma ParseRecordWords(text: string)
    requires ParseRecord(text).Some?
    ensures IsWord(ParseRecord(text).value.timestamp) && IsWord(ParseRecord(text).value.avRate)
  {
    var parts := Split(Strip(text, Quote));
    SplitYieldsWords(Strip(text, Quote));
    assert IsWord(parts[0]) && IsWord(parts[1]);
  }

  lemma {:induction false} FirstAnswerWords(records: seq<string>)
    requires FirstAnswer(records).Some?
    ensures IsWord(FirstAnswer(records).value.timestamp) && IsWord(FirstAnswer(records).value.avRate)
  {
    if ParseRecord(records[0]).Some? {
      ParseRecordWords(records[0]);
    } else {
      FirstAnswerWords(records[1..]);
    }
  }

  /** `query_mhr` as a value: the answer's first usable record, and nothing
      for every kind of failure. */
  function Query(hash: string, resolve: string -> Resolution): Option<TxtAnswer>
  {
    match resolve(LookupDomain(hash))
    case Answer(records) => FirstAnswer(records)
    case _ => None
  }

  /** There is no result exactly when no record parses. */
  lemma {:induction false} FirstAnswerNone(records: seq<string>)
    ensures FirstAnswer(records).None? <==>
              forall k :: 0 <= k < |records| ==> ParseRecord(records[k]).None?
  {
    if records != [] && ParseRecord(records[0]).None? {
      var rest := records[1..];
      FirstAnswerNone(rest);
      assert forall k :: 1 <= k < |records| ==> records[k] == rest[k - 1];
    }
  }

  /** A result is the record at the first index that parses. */
  lemma {:induction false} FirstAnswerIsFirstParsed(records: seq<string>)
    requires FirstAnswer(records).Some?
    ensures exists k :: && 0 <= k < |records|
                        && ParseRecord(records[k]) == FirstAnswer(records)
                        && forall j :: 0 <= j < k ==> ParseRecord(records[j]).None?
  {
    if ParseRecord(records[0]).None? {
      var rest := records[1..];
      FirstAnswerIsFirstParsed(rest);
      var k :| && 0 <= k < |rest|
               && ParseRecord(rest[k]) == FirstAnswer(rest)
               && forall j :: 0 <= j < k ==> ParseRecord(rest[j]).None?;
      assert records[k + 1] == rest[k];
      forall j | 0 <= j < k + 1 ensures ParseRecord(records[j]).None? {
        if j > 0 { assert records[j] == rest[j - 1]; }
      }
    } else {
      assert ParseRecord(records[0]) == FirstAnswer(records);
    }
  }

  /** Once a record has parsed, the records after it are never looked at. */
  lemma {:induction false} FirstAnswerIgnoresLater(records: seq<string>, later: seq<string>)
    requires FirstAnswer(records).Some?
    ensures FirstAnswer(records + later) == FirstAnswer(records)
  {
    assert (records + later)[0] == records[0];
    if ParseRecord(records[0]).None? {
      assert (records + later)[1..] == records[1..] + later;
      FirstAnswerIgnoresLater(records[1..], later);
    }
  }

  /** `query_mhr`: builds the name, asks the resolver once, and returns the
      two tokens of the first two-token record, or (None, None). */
  method QueryMhr(hash: string, resolve: string -> Resolution)
    returns (timestamp: Option<string>, avRate: Option<string>)
    ensures !resolve(LookupDomain(hash)).Answer? ==> timestamp.None? && avRate.None?
    ensures Query(hash, resolve).None? ==> timestamp.None? && avRate.None?
    ensures Query(hash, resolve).Some? ==>
              && timestamp == Some(Query(hash, resolve).value.timestamp)
              && avRate == Some(Query(hash, resolve).value.avRate)
  {
    var domain := LookupDomain(hash);
    var result := resolve(domain);
    match result {
      case Answer(records) =>
        var i := 0;
        while i < |records|
          invariant 0 <= i <= |records|
          invariant FirstAnswer(records[i..]) == FirstAnswer(records)
        {
          var response := Strip(records[i], Quote);
          var parts := Split(response);
          assert records[i..][0] == records[i];
          if |parts| == 2 {
            assert ParseRecord(records[i]) == Some(TxtAnswer(parts[0], parts[1]));
            return Some(parts[0]), Some(parts[1]);
          }
          assert records[i..][1..] == records[i + 1..];
          i := i + 1;
        }
      case _ =>  // NoAnswer, NXDOMAIN and any other exception
    }
    return None, None;
  }
}
