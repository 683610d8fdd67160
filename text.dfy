/**
  The three pieces of Python's `str` behaviour the script relies on:
  `str.strip(chars)`, the argument-less `str.split()` and the ordering of
  strings by `<`. Strings are sequences of Unicode code points (`char`).
*/
module Text {

  // ---------------------------------------------------------------------
  // str.strip(chars)
  // ---------------------------------------------------------------------

  /** How many leading characters of `s` are in `cs`. */
  function LeadingCount(s: string, cs: set<char>): (n: nat)
    ensures n <= |s|
  {
    if s != [] && s[0] in cs then 1 + LeadingCount(s[1..], cs) else 0
  }

  /** How many trailing characters of `s` are in `cs`. */
  function TrailingCount(s: string, cs: set<char>): (n: nat)
    ensures n <= |s|
  {
    if s != [] && s[|s| - 1] in cs then 1 + TrailingCount(s[..|s| - 1], cs) else 0
  }

  /** Python's `s.lstrip(cs)`. */
  function StripLeft(s: string, cs: set<char>): string
  {
    s[LeadingCount(s, cs)..]
  }

  /** Python's `s.rstrip(cs)`. */
  function StripRight(s: string, cs: set<char>): string
  {
    s[..|s| - TrailingCount(s, cs)]
  }

  /** Python's `s.strip(cs)`: leading characters first, then trailing ones. */
  function Strip(s: string, cs: set<char>): string
  {
    StripRight(StripLeft(s, cs), cs)
  }

  /** The counted prefix is a maximal run of characters of `cs`. */
  lemma {:induction false} LeadingCountIsRun(s: string, cs: set<char>)
    ensures forall k :: 0 <= k < LeadingCount(s, cs) ==> s[k] in cs
    ensures LeadingCount(s, cs) < |s| ==> s[LeadingCount(s, cs)] !in cs
  {
    if s != [] && s[0] in cs {
      LeadingCountIsRun(s[1..], cs);
      assert forall k :: 1 <= k < |s| ==> s[k] == s[1..][k - 1];
    }
  }

  /** The counted suffix is a maximal run of characters of `cs`. */
  lemma {:induction false} TrailingCountIsRun(s: string, cs: set<char>)
    ensures forall k :: |s| - TrailingCount(s, cs) <= k < |s| ==> s[k] in cs
    ensures TrailingCount(s, cs) < |s| ==> s[|s| - 1 - TrailingCount(s, cs)] !in cs
  {
    if s != [] && s[|s| - 1] in cs {
      TrailingCountIsRun(s[..|s| - 1], cs);
    }
  }

  /** A stripped string neither starts nor ends with a character of `cs`. */
  lemma StripEnds(s: string, cs: set<char>)
    ensures Strip(s, cs) != [] ==> Strip(s, cs)[0] !in cs
    ensures Strip(s, cs) != [] ==> Strip(s, cs)[|Strip(s, cs)| - 1] !in cs
  {
    var l := StripLeft(s, cs);
    var r := Strip(s, cs);
    LeadingCountIsRun(s, cs);
    TrailingCountIsRun(l, cs);
    if r != [] {
      assert r[0] == l[0] == s[LeadingCount(s, cs)];
      assert r[|r| - 1] == l[|l| - 1 - TrailingCount(l, cs)];
    }
  }

  /** The stripped string is the contiguous piece of `s` left once a run of
      characters of `cs` is cut from each end, and both cut runs are maximal. */
  lemma StripIsTrim(s: string, cs: set<char>)
    ensures exists i, j ::
              && 0 <= i <= j <= |s| && Strip(s, cs) == s[i..j]
              && (forall k :: 0 <= k < i ==> s[k] in cs)
              && (forall k :: j <= k < |s| ==> s[k] in cs)
              && (i < j ==> s[i] !in cs && s[j - 1] !in cs)
  {
    var i := LeadingCount(s, cs);
    var l := s[i..];
    var j := i + |l| - TrailingCount(l, cs);
    LeadingCountIsRun(s, cs);
    TrailingCountIsRun(l, cs);
    StripEnds(s, cs);
    assert Strip(s, cs) == s[i..j];
    forall k | j <= k < |s| ensures s[k] in cs {
      assert s[k] == l[k - i];
    }
  }

  /** Stripping twice is stripping once. */
  lemma StripIdempotent(s: string, cs: set<char>)
    ensures Strip(Strip(s, cs), cs) == Strip(s, cs)
  {
    var r := Strip(s, cs);
    StripEnds(s, cs);
    assert LeadingCount(r, cs) == 0;
    assert StripLeft(r, cs) == r;
    assert TrailingCount(r, cs) == 0;
  }

  /** Characters of `cs` appended to a string that does not end in one are
      exactly what `StripRight` removes. */
  lemma {:induction false} StripRightTrailing(s: string, tail: string, cs: set<char>)
    requires forall k :: 0 <= k < |tail| ==> tail[k] in cs
    requires s == [] || s[|s| - 1] !in cs
    ensures StripRight(s + tail, cs) == s
    decreases |tail|
  {
    TrailingCountAppended(s, tail, cs);
    assert (s + tail)[..|s|] == s;
  }

  lemma {:induction false} TrailingCountAppended(s: string, tail: string, cs: set<char>)
    requires forall k :: 0 <= k < |tail| ==> tail[k] in cs
    requires s == [] || s[|s| - 1] !in cs
    ensures TrailingCount(s + tail, cs) == |tail|
    decreases |tail|
  {
    if tail == [] {
      assert s + tail == s;
    } else {
      var shorter := tail[..|tail| - 1];
      assert (s + tail)[..|s + tail| - 1] == s + shorter;
      TrailingCountAppended(s, shorter, cs);
    }
  }

  // ---------------------------------------------------------------------
  // str.split() without arguments
  // ---------------------------------------------------------------------

  /** The characters for which Python's `str.isspace()` holds; these are the
      separators of the argument-less `str.split()`. */
  predicate IsSpace(c: char)
  {
    var n := c as int;
    (9 <= n <= 13) || (28 <= n <= 32) || n == 0x85 || n == 0xA0 || n == 0x1680
    || (0x2000 <= n <= 0x200A) || n == 0x2028 || n == 0x2029 || n == 0x202F
    || n == 0x205F || n == 0x3000
  }

  /** A token that `str.split()` can produce: non-empty, no whitespace. */
  predicate IsWord(w: string)
  {
    w != [] && forall k :: 0 <= k < |w| ==> !IsSpace(w[k])
  }

  /** Length of the leading non-whitespace run. */
  function WordLength(s: string): (n: nat)
    ensures n <= |s|
  {
    if s == [] || IsSpace(s[0]) then 0 else 1 + WordLength(s[1..])
  }

  /** Python's `s.split()`: the maximal whitespace-free runs of `s`, in order. */
  function Split(s: string): seq<string>
    decreases |s|
  {
    if s == [] then []
    else if IsSpace(s[0]) then Split(s[1..])
    else
      var n := WordLength(s);
      [s[..n]] + Split(s[n..])
  }

  /** The leading run is whitespace-free and ends at whitespace or the end. */
  lemma {:induction false} WordLengthIsRun(s: string)
    ensures forall k :: 0 <= k < WordLength(s) ==> !IsSpace(s[k])
    ensures WordLength(s) < |s| ==> IsSpace(s[WordLength(s)])
  {
    if s != [] && !IsSpace(s[0]) {
      WordLengthIsRun(s[1..]);
      assert forall k :: 1 <= k < WordLength(s) ==> s[k] == s[1..][k - 1];
    }
  }

  /** Every token of a split is a word: non-empty and free of whitespace. */
  lemma {:induction false} SplitYieldsWords(s: string)
    ensures forall i :: 0 <= i < |Split(s)| ==> IsWord(Split(s)[i])
    decreases |s|
  {
    if s != [] {
      if IsSpace(s[0]) {
        SplitYieldsWords(s[1..]);
      } else {
        var n := WordLength(s);
        WordLengthIsRun(s);
        SplitYieldsWords(s[n..]);
        assert IsWord(s[..n]);
      }
    }
  }

  /** Words joined by single spaces, the form a well-formed payload takes. */
  function JoinWords(ws: seq<string>): string
  {
    if ws == [] then ""
    else if |ws| == 1 then ws[0]
    else ws[0] + " " + JoinWords(ws[1..])
  }

  lemma {:induction false} WordLengthOfWord(w: string, rest: string)
    requires IsWord(w)
    requires rest == [] || IsSpace(rest[0])
    ensures WordLength(w + rest) == |w|
    decreases |w|
  {
    if |w| > 1 {
      assert (w + rest)[1..] == w[1..] + rest;
      WordLengthOfWord(w[1..], rest);
    } else {
      assert (w + rest)[1..] == rest;
    }
  }

  /** A word followed by nothing or by whitespace splits off as one token. */
  lemma SplitWordThen(w: string, rest: string)
    requires IsWord(w)
    requires rest == [] || IsSpace(rest[0])
    ensures Split(w + rest) == [w] + Split(rest)
  {
    var s := w + rest;
    WordLengthOfWord(w, rest);
    assert s[0] == w[0];
    assert s[..|w|] == w && s[|w|..] == rest;
  }

  /** Leading whitespace does not change the split. */
  lemma SplitLeadingSpace(rest: string)
    ensures Split(" " + rest) == Split(rest)
  {
    assert (" " + rest)[0] == ' ' && IsSpace(' ');
    assert (" " + rest)[1..] == rest;
  }

  /** Splitting words joined by spaces gives the words back. */
  lemma {:induction false} SplitJoinWords(ws: seq<string>)
    requires forall i :: 0 <= i < |ws| ==> IsWord(ws[i])
    ensures Split(JoinWords(ws)) == ws
    decreases |ws|
  {
    if ws == [] {
    } else if |ws| == 1 {
      SplitOneWord(ws[0]);
    } else {
      var rest := JoinWords(ws[1..]);
      assert JoinWords(ws) == ws[0] + (" " + rest);
      SplitWordThen(ws[0], " " + rest);
      SplitLeadingSpace(rest);
      SplitJoinWords(ws[1..]);
    }
  }

  /** A single word splits into itself. */
  lemma SplitOneWord(w: string)
    requires IsWord(w)
    ensures Split(w) == [w]
  {
    WordLengthOfWord(w, "");
    assert w + "" == w;
    assert w[..|w|] == w && w[|w|..] == [];
  }

  /** Two words joined by one space split into exactly those two words. */
  lemma SplitTwoWords(first: string, second: string)
    requires IsWord(first) && IsWord(second)
    ensures Split(first + " " + second) == [first, second]
  {
    var rest := " " + second;
    assert first + " " + second == first + rest;
    SplitWordThen(first, rest);
    SplitLeadingSpace(second);
    SplitOneWord(second);
  }

  /** A run of whitespace only (possibly empty). */
  predicate IsBlank(s: string)
  {
    forall k :: 0 <= k < |s| ==> IsSpace(s[k])
  }

  /** Whitespace alone yields no token. */
  lemma {:induction false} SplitBlank(s: string)
    requires IsBlank(s)
    ensures Split(s) == []
    decreases |s|
  {
    if s != [] {
      assert IsBlank(s[1..]) by {
        forall k | 0 <= k < |s| - 1 ensures IsSpace(s[1..][k]) {
          assert s[1..][k] == s[k + 1];
        }
      }
      SplitBlank(s[1..]);
    }
  }

  /** When the leading run stops inside `a`, appending leaves it unchanged. */
  lemma {:induction false} WordLengthAppend(a: string, b: string)
    requires WordLength(a) < |a|
    ensures WordLength(a + b) == WordLength(a)
    decreases |a|
  {
    assert (a + b)[0] == a[0];
    if !IsSpace(a[0]) {
      assert (a + b)[1..] == a[1..] + b;
      WordLengthAppend(a[1..], b);
    }
  }

  /** A string made only of non-whitespace is a word (or empty). */
  lemma WholeRunIsWord(a: string)
    requires a != [] && WordLength(a) == |a|
    ensures IsWord(a)
  {
    WordLengthIsRun(a);
  }

  /** A leading whitespace character is skipped on both sides of the
      concatenation law. */
  lemma SplitAppendSpaceStep(a: string, b: string)
    requires a != [] && IsSpace(a[0])
    requires Split(a[1..] + b) == Split(a[1..]) + Split(b)
    ensures Split(a + b) == Split(a) + Split(b)
  {
    var s := a + b;
    assert s[0] == a[0];
    assert s[1..] == a[1..] + b;
  }

  /** A leading word that stops inside `a` is split off the same way
      whatever follows `a`. */
  lemma SplitAppendWordStep(a: string, b: string)
    requires a != [] && !IsSpace(a[0]) && WordLength(a) < |a|
    requires Split(a[WordLength(a)..] + b) == Split(a[WordLength(a)..]) + Split(b)
    ensures Split(a + b) == Split(a) + Split(b)
  {
    var s := a + b;
    var n := WordLength(a);
    WordLengthAppend(a, b);
    assert s[0] == a[0];
    assert s[..n] == a[..n];
    assert s[n..] == a[n..] + b;
  }

  /** A word followed by whitespace (or nothing) is the last token of the
      left part. */
  lemma SplitAppendWholeWord(a: string, b: string)
    requires a != [] && WordLength(a) == |a|
    requires b == [] || IsSpace(b[0])
    ensures Split(a + b) == Split(a) + Split(b)
  {
    WholeRunIsWord(a);
    SplitWordThen(a, b);
    SplitOneWord(a);
  }

  /** Splitting distributes over a concatenation whose seam falls on
      whitespace: tokens are exactly the maximal whitespace-free runs, and
      whitespace is all that is dropped. */
  lemma {:induction false} SplitAppend(a: string, b: string)
    requires a == [] || b == [] || IsSpace(a[|a| - 1]) || IsSpace(b[0])
    ensures Split(a + b) == Split(a) + Split(b)
    decreases |a|
  {
    if a == [] {
      assert a + b == b;
    } else if b == [] {
      assert a + b == a;
    } else if IsSpace(a[0]) {
      SplitAppend(a[1..], b);
      SplitAppendSpaceStep(a, b);
    } else if WordLength(a) < |a| {
      var n := WordLength(a);
      assert a[n..][|a[n..]| - 1] == a[|a| - 1];
      SplitAppend(a[n..], b);
      SplitAppendWordStep(a, b);
    } else {
      WordLengthIsRun(a);
      SplitAppendWholeWord(a, b);
    }
  }

  /** A word followed by whitespace only splits into itself. */
  lemma SplitWordBlank(w: string, blank: string)
    requires IsWord(w) && IsBlank(blank)
    ensures Split(w + blank) == [w]
  {
    SplitBlank(blank);
    SplitOneWord(w);
    SplitAppend(w, blank);
  }

  /** Leading whitespace does not change the split. */
  lemma SplitBlankThen(blank: string, rest: string)
    requires IsBlank(blank)
    ensures Split(blank + rest) == Split(rest)
  {
    SplitBlank(blank);
    SplitAppend(blank, rest);
  }

  /** A word, then whitespace, then a string of one word and whitespace. */
  lemma SplitWordSeparated(first: string, sep: string, rest: string, second: string)
    requires IsWord(first) && IsBlank(sep) && sep != []
    requires Split(rest) == [second]
    ensures Split(first + (sep + rest)) == [first, second]
  {
    SplitBlankThen(sep, rest);
    SplitWordThen(first, sep + rest);
  }

  /** Two words with any non-empty whitespace between them, and any
      whitespace around them, split into exactly those two words. */
  lemma SplitSeparatedWords(lead: string, first: string, sep: string, second: string, trail: string)
    requires IsBlank(lead) && IsBlank(sep) && IsBlank(trail) && sep != []
    requires IsWord(first) && IsWord(second)
    ensures Split(lead + (first + (sep + (second + trail)))) == [first, second]
  {
    SplitWordBlank(second, trail);
    SplitWordSeparated(first, sep, second + trail, second);
    SplitBlankThen(lead, first + (sep + (second + trail)));
  }

  // ---------------------------------------------------------------------
  // str < str
  // ---------------------------------------------------------------------

  /** Python's `a < b` on strings: code point by code point, and a proper
      prefix is smaller than the longer string. */
  predicate Below(a: string, b: string)
    decreases |a|
  {
    if a == [] then b != []
    else if b == [] then false
    else if a[0] != b[0] then a[0] < b[0]
    else Below(a[1..], b[1..])
  }

  lemma {:induction false} BelowIrreflexive(a: string)
    ensures !Below(a, a)
    decreases |a|
  {
    if a != [] { BelowIrreflexive(a[1..]); }
  }

  lemma {:induction false} BelowTransitive(a: string, b: string, c: string)
    requires Below(a, b) && Below(b, c)
    ensures Below(a, c)
    decreases |a|
  {
    if a != [] && a[0] == b[0] && b[0] == c[0] {
      BelowTransitive(a[1..], b[1..], c[1..]);
    }
  }

  lemma {:induction false} BelowTotal(a: string, b: string)
    ensures a == b || Below(a, b) || Below(b, a)
    decreases |a|
  {
    if a != [] && b != [] && a[0] == b[0] {
      BelowTotal(a[1..], b[1..]);
      if a[1..] == b[1..] {
        assert a == [a[0]] + a[1..] && b == [b[0]] + b[1..];
      }
    }
  }

  lemma BelowAsymmetric(a: string, b: string)
    requires Below(a, b)
    ensures !Below(b, a)
  {
    if Below(b, a) {
      BelowTransitive(a, b, a);
      BelowIrreflexive(a);
    }
  }

  /** "Not below" is transitive too; this is what a non-increasing run needs. */
  lemma NotBelowTransitive(a: string, b: string, c: string)
    requires !Below(a, b) && !Below(b, c)
    ensures !Below(a, c)
  {
    BelowTotal(a, b);
    BelowTotal(b, c);
    if Below(a, c) {
      if a == b {
      } else if b == c {
      } else {
        BelowTransitive(c, b, a);
        BelowAsymmetric(c, a);
      }
    }
  }

  /** String order is not numeric order: "9" sorts above "80" and "100",
      and below "90", of which it is a prefix. */
  lemma StringOrderOfRates()
    ensures Below("80", "9") && Below("100", "9") && Below("9", "90")
  {
  }
}
