/**
 Trailing-newline trimming, the `trim_end_matches('\n')` that the approval
 engine applies to both the approved baseline and the rendered document
 before comparing them.
 */
module Trim {

  /** A run of `k` newline characters. */
  function Newlines(k: nat): string
  {
    seq(k, _ => '\n')
  }

  predicate AllNewlines(s: string)
  {
    forall i :: 0 <= i < |s| ==> s[i] == '\n'
  }

  predicate EndsWithNewline(s: string)
  {
    |s| > 0 && s[|s| - 1] == '\n'
  }

  /** Removes every trailing '\n' and nothing else. */
  function TrimEndNewlines(s: string): (r: string)
    ensures r <= s
    ensures !EndsWithNewline(r)
    ensures AllNewlines(s[|r|..])
    decreases |s|
  {
    if EndsWithNewline(s) then TrimEndNewlines(s[..|s| - 1]) else s
  }

  /** The three properties in the contract of `TrimEndNewlines` pin its
      result down: any prefix that has them is the trimmed string. */
  lemma TrimEndNewlinesUnique(s: string, p: string)
    requires p <= s
    requires !EndsWithNewline(p)
    requires AllNewlines(s[|p|..])
    ensures p == TrimEndNewlines(s)
  {
  }

  /** Leading and interior characters survive: every character that is not
      '\n' lies inside the trimmed string. */
  lemma TrimKeepsNonNewlines(s: string, i: nat)
    requires i < |s| && s[i] != '\n'
    ensures i < |TrimEndNewlines(s)| && TrimEndNewlines(s)[i] == s[i]
  {
  }

  /** Trimming twice is trimming once. */
  lemma TrimIdempotent(s: string)
    ensures TrimEndNewlines(TrimEndNewlines(s)) == TrimEndNewlines(s)
  {
  }

  /** Appending newlines never changes the trimmed string. */
  lemma TrimIgnoresTrailingNewlines(s: string, k: nat)
    ensures TrimEndNewlines(s + Newlines(k)) == TrimEndNewlines(s)
  {
    var r := TrimEndNewlines(s);
    var t := s + Newlines(k);
    assert r <= t by {
      assert forall i :: 0 <= i < |r| ==> t[i] == s[i];
    }
    assert AllNewlines(t[|r|..]) by {
      forall i | 0 <= i < |t| - |r|
        ensures t[|r|..][i] == '\n'
      {
        if |r| + i < |s| {
          assert t[|r| + i] == s[|r|..][i];
        }
      }
    }
    TrimEndNewlinesUnique(t, r);
  }

  /** Every string is its trimmed form followed by newlines only. */
  lemma TrimDecomposes(s: string)
    ensures s == TrimEndNewlines(s) + Newlines(|s| - |TrimEndNewlines(s)|)
  {
  }

  /** Two strings that are equal up to their runs of trailing newlines. */
  ghost predicate SameUpToTrailingNewlines(a: string, b: string)
  {
    exists c: string, i: nat, j: nat :: a == c + Newlines(i) && b == c + Newlines(j)
  }

  /** Comparing trimmed strings is exactly comparing up to trailing newlines:
      leading and interior characters, newlines included, still count. */
  lemma SameTrimIff(a: string, b: string)
    ensures TrimEndNewlines(a) == TrimEndNewlines(b) <==> SameUpToTrailingNewlines(a, b)
  {
    if TrimEndNewlines(a) == TrimEndNewlines(b) {
      var c := TrimEndNewlines(a);
      TrimDecomposes(a);
      TrimDecomposes(b);
      assert a == c + Newlines(|a| - |c|) && b == c + Newlines(|b| - |c|);
    }
    if SameUpToTrailingNewlines(a, b) {
      var c: string, i: nat, j: nat :| a == c + Newlines(i) && b == c + Newlines(j);
      TrimIgnoresTrailingNewlines(c, i);
      TrimIgnoresTrailingNewlines(c, j);
    }
  }
}
