/**
  `validate_hash`: a candidate is a hash when it is exactly 32 (MD5),
  40 (SHA-1) or 64 (SHA-256) hexadecimal digits of either case.
*/
module Validate {

  predicate IsHexDigit(c: char)
  {
    '0' <= c <= '9' || 'a' <= c <= 'f' || 'A' <= c <= 'F'
  }

  predicate IsHexRun(s: string)
  {
    forall k :: 0 <= k < |s| ==> IsHexDigit(s[k])
  }

  /** Whether `re.match(r'^[a-fA-F0-9]{n}$', s)` succeeds. Python's `$`
      matches at the end of the string and also just before a single final
      newline, so `n` digits followed by one '\n' match too. */
  predicate MatchesHexPattern(s: string, n: nat)
  {
    || (|s| == n && IsHexRun(s))
    || (|s| == n + 1 && s[n] == '\n' && IsHexRun(s[..n]))
  }

  /** `validate_hash`: one of the MD5, SHA-1 or SHA-256 patterns matches. */
  predicate ValidateHash(s: string)
  {
    MatchesHexPattern(s, 32) || MatchesHexPattern(s, 40) || MatchesHexPattern(s, 64)
  }

  predicate IsHashLength(n: nat)
  {
    n == 32 || n == 40 || n == 64
  }

  /** For a string that does not end in a newline, acceptance is exactly
      "a hash length, and hex digits only". */
  lemma ValidateHashIff(s: string)
    requires s == [] || s[|s| - 1] != '\n'
    ensures ValidateHash(s) <==> IsHashLength(|s|) && IsHexRun(s)
  {
  }

  /** The `$` edge case: a hash followed by one newline is accepted as well. */
  lemma ValidateHashWithNewline(h: string)
    ensures ValidateHash(h + "\n") <==> IsHashLength(|h|) && IsHexRun(h)
  {
    var s := h + "\n";
    assert s[..|h|] == h;
    if IsHashLength(|h|) && IsHexRun(h) {
      assert MatchesHexPattern(s, |h|);
    }
    if ValidateHash(s) {
      assert !IsHexDigit(s[|h|]);
      assert !IsHexRun(s);
    }
  }

  /** The match is anchored: a string holding any non-hex character other
      than one final newline is rejected, however long a hex run it holds. */
  lemma NonHexRejected(s: string, k: nat)
    requires k < |s| && !IsHexDigit(s[k])
    requires !(k == |s| - 1 && s[k] == '\n')
    ensures !ValidateHash(s)
  {
    assert !IsHexRun(s);
    if |s| > 0 && s[|s| - 1] == '\n' {
      assert k < |s| - 1 && s[..|s| - 1][k] == s[k];
    }
  }
}
