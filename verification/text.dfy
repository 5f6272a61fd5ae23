/**
  Case-insensitive literal substring matching over strings.

  The rule keys of the name normaliser are compiled as regular expressions
  with the IGNORECASE flag; every key is a run of plain ASCII letters, so a
  match is a literal substring comparison under ASCII case folding (the only
  folding the regular-expression engine applies without its UNICODE flag).
*/
module Text {

  /** ASCII lower-casing: 'A'..'Z' become 'a'..'z', every other character is kept. */
  function Lower(c: char): char
  {
    if 'A' <= c <= 'Z' then (c as int + 32) as char else c
  }

  /** `p` occurs in `s` at position `i`, ignoring ASCII case. */
  predicate MatchesAt(s: string, i: nat, p: string)
  {
    i + |p| <= |s| && forall j | 0 <= j < |p| :: Lower(s[i + j]) == Lower(p[j])
  }

  /** `p` occurs somewhere in `s`, ignoring ASCII case (a regular-expression search). */
  predicate Occurs(s: string, p: string)
  {
    exists i | 0 <= i <= |s| - |p| :: MatchesAt(s, i, p)
  }

  /** No character of `p` is a space. */
  predicate SpaceFree(p: string)
  {
    forall j | 0 <= j < |p| :: p[j] != ' '
  }

  /** Every occurrence in `s` at or after `k` has a leftmost one at or after `k`. */
  lemma {:induction false} Leftmost(s: string, p: string, k: nat, i: nat) returns (m: nat)
    requires k <= i && MatchesAt(s, i, p)
    ensures k <= m <= i && MatchesAt(s, m, p)
    ensures forall j | k <= j < m :: !MatchesAt(s, j, p)
    decreases i
  {
    if j :| k <= j < i && MatchesAt(s, j, p) {
      m := Leftmost(s, p, k, j);
    } else {
      m := i;
    }
  }

  /** A lone space contains no occurrence of a non-empty space-free pattern. */
  lemma SpaceHasNoOccurrence(p: string)
    requires |p| > 0 && SpaceFree(p)
    ensures !Occurs(" ", p)
  {
    assert Lower(p[0]) != Lower(" "[0]);
  }

  /** Inside the left part of a concatenation, matches are those of the left part. */
  lemma MatchInLeft(x: string, y: string, p: string, i: nat)
    requires i + |p| <= |x|
    ensures MatchesAt(x + y, i, p) == MatchesAt(x, i, p)
  {
  }

  /** Inside the right part of a concatenation, matches are those of the right part, shifted. */
  lemma MatchInRight(x: string, y: string, p: string, i: nat)
    requires i >= |x|
    ensures MatchesAt(x + y, i, p) == MatchesAt(y, i - |x|, p)
  {
  }

  /** Matches inside a slice are the matches of the whole string, shifted. */
  lemma MatchInSlice(s: string, k: nat, n: nat, p: string, j: nat)
    requires k <= n <= |s| && j + |p| <= n - k
    ensures MatchesAt(s[k..n], j, p) == MatchesAt(s, k + j, p)
  {
  }

  /** Matches in a suffix are the matches of the whole string, shifted. */
  lemma MatchInSuffix(s: string, k: nat, p: string, j: nat)
    requires k <= |s|
    ensures MatchesAt(s[k..], j, p) == MatchesAt(s, k + j, p)
  {
  }

  /**
    Joining two strings free of a space-free pattern, with a space on one side
    of the seam, creates no occurrence: no match can straddle the space.
  */
  lemma {:induction false} NoOccurrenceAcrossSpace(x: string, y: string, p: string)
    requires |p| > 0 && SpaceFree(p)
    requires !Occurs(x, p) && !Occurs(y, p)
    requires (|x| > 0 && x[|x| - 1] == ' ') || (|y| > 0 && y[0] == ' ')
    ensures !Occurs(x + y, p)
  {
    var xy := x + y;
    forall i | 0 <= i <= |xy| - |p|
      ensures !MatchesAt(xy, i, p)
    {
      if i + |p| <= |x| {
        MatchInLeft(x, y, p, i);
      } else if i >= |x| {
        MatchInRight(x, y, p, i);
      } else {
        // A match here would cover positions |x| - 1 and |x|; one of them is a space.
        var j := if |x| > 0 && x[|x| - 1] == ' ' then |x| - 1 - i else |x| - i;
        assert 0 <= j < |p| && xy[i + j] == ' ';
        assert Lower(xy[i + j]) != Lower(p[j]);
      }
    }
  }
}
