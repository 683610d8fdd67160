/**
  `main`: clean the input lines, scan them, stop when nothing was found,
  and otherwise sort the findings by detection rate for the report.
  Reading `hashes.txt` and writing `malicious_hashes.csv` are outside the
  model: the lines come in as a parameter and the sorted list goes out.
*/
module Pipeline {
  import opened Wrappers
  import opened Text
  import opened Validate
  import opened Reputation
  import opened Batch
  import opened RateSort

  /** The characters `line.strip(',\n')` removes. */
  const LineJunk: set<char> := {',', '\n'}

  /** `line.strip(',\n')`: the result is the slice of the line left once
      the runs of commas and newlines at both ends are cut; spaces are not
      cut. */
  function CleanLine(line: string): (r: string)
    ensures |r| <= |line|
    ensures r != [] ==> r[0] != ',' && r[0] != '\n'
    ensures r != [] ==> r[|r| - 1] != ',' && r[|r| - 1] != '\n'
    ensures exists i, j ::
              && 0 <= i <= j <= |line| && r == line[i..j]
              && (forall k :: 0 <= k < i ==> line[k] in LineJunk)
              && (forall k :: j <= k < |line| ==> line[k] in LineJunk)
  {
    StripEnds(line, LineJunk);
    StripIsTrim(line, LineJunk);
    Strip(line, LineJunk)
  }

  /** The list comprehension over the file's lines. */
  function CleanLines(lines: seq<string>): (hashes: seq<string>)
    ensures |hashes| == |lines|
    ensures forall k :: 0 <= k < |lines| ==> hashes[k] == CleanLine(lines[k])
  {
    seq(|lines|, k requires 0 <= k < |lines| => CleanLine(lines[k]))
  }

  /** A cleaned line never ends in a newline, so Python's `$`-before-newline
      case never arises and validation is the plain length-and-digits test. */
  lemma CleanLineValidation(line: string)
    ensures ValidateHash(CleanLine(line)) <==>
              IsHashLength(|CleanLine(line)|) && IsHexRun(CleanLine(line))
  {
    ValidateHashIff(CleanLine(line));
  }

  /** Cleaning is idempotent, and a line without a comma or newline at
      either end, spaces included, is left as it is. */
  lemma CleanLineFixedPoints(line: string)
    ensures CleanLine(CleanLine(line)) == CleanLine(line)
    ensures line != [] && line[0] !in LineJunk && line[|line| - 1] !in LineJunk ==>
              CleanLine(line) == line
  {
    StripIdempotent(line, LineJunk);
  }

  /** Commas and newlines after a value are removed and nothing else is:
      the value itself, inner commas and spaces included, is kept. */
  lemma CleanTrailingJunk(value: string, junk: string)
    requires value != [] && value[0] !in LineJunk && value[|value| - 1] !in LineJunk
    requires forall k :: 0 <= k < |junk| ==> junk[k] in LineJunk
    ensures CleanLine(value + junk) == value
  {
    assert (value + junk)[0] == value[0];
    StripRightTrailing(value, junk, LineJunk);
  }

  /** A sample MD5 line: cleaning drops the newline, and the hash validates. */
  lemma SampleHashLine()
    ensures CleanLine("d41d8cd98f00b204e9800998ecf8427e\n") == "d41d8cd98f00b204e9800998ecf8427e"
    ensures ValidateHash("d41d8cd98f00b204e9800998ecf8427e")
  {
    var md5 := "d41d8cd98f00b204e9800998ecf8427e";
    CleanTrailingJunk(md5, "\n");
    assert md5 + "\n" == "d41d8cd98f00b204e9800998ecf8427e\n";
    SampleMd5IsHash();
  }

  lemma SampleMd5IsHash()
    ensures ValidateHash("d41d8cd98f00b204e9800998ecf8427e")
  {
    assert MatchesHexPattern("d41d8cd98f00b204e9800998ecf8427e", 32);
  }

  /** A sample junk line: cleaning drops the comma and newline, and what is
      left is rejected before any lookup. */
  lemma SampleJunkLine()
    ensures CleanLine("invalidhash,\n") == "invalidhash"
    ensures !ValidateHash("invalidhash")
  {
    CleanTrailingJunk("invalidhash", ",\n");
    assert "invalidhash" + ",\n" == "invalidhash,\n";
  }

  /** The outcome of a run: None when no malicious hash was found (nothing
      is written), otherwise the rows of the report in order. */
  function Detect(lines: seq<string>, resolve: string -> Resolution): Option<seq<Record>>
  {
    var found := Scan(CleanLines(lines), resolve);
    if found == [] then None else Some(SortByRate(found))
  }

  /** `main`, from the cleaned lines to the sorted list the report prints. */
  method RunDetection(lines: seq<string>, resolve: string -> Resolution)
    returns (report: Option<seq<Record>>)
    ensures report == Detect(lines, resolve)
    ensures report.None? <==> forall k :: 0 <= k < |lines| ==> !Kept(CleanLine(lines[k]), resolve)
  {
    var hashes := CleanLines(lines);
    var found, _ := CheckHashes(hashes, resolve);
    NoneFoundIffNoneKept(hashes, resolve);
    if |found| == 0 {
      return None;
    }
    var rows := new Record[|found|](k requires 0 <= k < |found| => found[k]);
    assert rows[..] == found;
    SortInPlace(rows);
    return Some(rows[..]);
  }

  /** A kept candidate always produces a record. */
  lemma KeptIsFound(hashes: seq<string>, resolve: string -> Resolution, k: nat)
    requires k < |hashes| && Kept(hashes[k], resolve)
    ensures Scan(hashes, resolve) != []
  {
    ScanCounts(hashes, resolve, hashes[k]);
    assert hashes[k] in multiset(hashes);
  }

  /** A record always comes from a kept candidate. */
  lemma FoundIsKept(hashes: seq<string>, resolve: string -> Resolution)
    requires Scan(hashes, resolve) != []
    ensures exists k :: 0 <= k < |hashes| && Kept(hashes[k], resolve)
  {
    var found := Scan(hashes, resolve);
    var h := Hashes(found)[0];
    assert h in multiset(Hashes(found));
    ScanCounts(hashes, resolve, h);
    assert h in multiset(hashes);
    var k :| 0 <= k < |hashes| && hashes[k] == h;
  }

  /** The scan finds nothing exactly when no candidate is kept. */
  lemma NoneFoundIffNoneKept(hashes: seq<string>, resolve: string -> Resolution)
    ensures Scan(hashes, resolve) == [] <==> forall k :: 0 <= k < |hashes| ==> !Kept(hashes[k], resolve)
  {
    if Scan(hashes, resolve) != [] {
      FoundIsKept(hashes, resolve);
    }
    forall k | 0 <= k < |hashes| && Kept(hashes[k], resolve) ensures Scan(hashes, resolve) != [] {
      KeptIsFound(hashes, resolve, k);
    }
  }

  /** A report lists every record the scan found, highest rate first, and
      records with the same rate in scan order. */
  lemma ReportIsStableDescending(lines: seq<string>, resolve: string -> Resolution)
    requires Detect(lines, resolve).Some?
    ensures multiset(Detect(lines, resolve).value) == multiset(Scan(CleanLines(lines), resolve))
    ensures NonIncreasing(Detect(lines, resolve).value)
    ensures forall rate :: WithRate(rate, Detect(lines, resolve).value) == WithRate(rate, Scan(CleanLines(lines), resolve))
  {
    var found := Scan(CleanLines(lines), resolve);
    SortByRatePermutes(found);
    SortByRateSorted(found);
    forall rate ensures WithRate(rate, SortByRate(found)) == WithRate(rate, found) {
      SortByRateStable(rate, found);
    }
  }
}
