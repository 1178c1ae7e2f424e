/** The regular expressions of the classifier are all fixed-width sequences of
    literal characters and the class [0-9]. This module matches such a pattern
    at a position and scans for its leftmost occurrence, which is what Ruby's
    `=~` and `match` report for them; String#include? is the special case of
    a pattern made of literals only. */
module Patterns {
  import opened Wrappers
  import opened RubyStrings

  /** One position of a pattern: a literal character or a decimal digit. */
  datatype Atom = Lit(c: char) | Digit

  type Pattern = seq<Atom>

  predicate AtomMatches(a: Atom, c: char)
  {
    match a
    case Lit(x) => c == x
    case Digit => IsDigit(c)
  }

  /** The pattern p matches s starting at index i. */
  predicate MatchesAt(s: string, i: nat, p: Pattern)
  {
    i + |p| <= |s| && forall k :: 0 <= k < |p| ==> AtomMatches(p[k], s[i + k])
  }

  /** Scans from index `from` to the right; the first match found is the leftmost one from there. */
  function FindFrom(s: string, p: Pattern, from: nat): (r: Option<nat>)
    ensures r.Some? ==> from <= r.value && MatchesAt(s, r.value, p)
    ensures r.Some? ==> forall j :: from <= j < r.value ==> !MatchesAt(s, j, p)
    ensures r.None? ==> forall j: nat :: from <= j ==> !MatchesAt(s, j, p)
    decreases |s| - from
  {
    if |s| < from + |p| then None
    else if MatchesAt(s, from, p) then Some(from)
    else FindFrom(s, p, from + 1)
  }

  /** `p =~ s`: the start of the leftmost match, or None (Ruby's nil) when there is none. */
  function Find(s: string, p: Pattern): (r: Option<nat>)
    ensures r.Some? ==> MatchesAt(s, r.value, p)
    ensures r.Some? ==> forall j :: 0 <= j < r.value ==> !MatchesAt(s, j, p)
    ensures r.None? ==> forall j: nat :: !MatchesAt(s, j, p)
  {
    FindFrom(s, p, 0)
  }

  /** The pattern that matches exactly the characters of t. */
  function Literal(t: string): Pattern
  {
    seq(|t|, k requires 0 <= k < |t| => Lit(t[k]))
  }

  /** String#include?. */
  predicate Contains(s: string, t: string)
  {
    Find(s, Literal(t)).Some?
  }

  /** t occurs in s at index i. */
  ghost predicate OccursAt(s: string, t: string, i: nat)
  {
    i + |t| <= |s| && s[i..i + |t|] == t
  }

  ghost predicate Occurs(s: string, t: string)
  {
    exists i: nat :: OccursAt(s, t, i)
  }

  lemma LiteralMatchesAt(s: string, t: string, i: nat)
    ensures MatchesAt(s, i, Literal(t)) <==> OccursAt(s, t, i)
  {
    if MatchesAt(s, i, Literal(t)) {
      forall k | 0 <= k < |t| ensures s[i..i + |t|][k] == t[k] {
        assert AtomMatches(Literal(t)[k], s[i + k]);
      }
    }
    if OccursAt(s, t, i) {
      forall k | 0 <= k < |t| ensures AtomMatches(Literal(t)[k], s[i + k]) {
        assert s[i..i + |t|][k] == s[i + k];
      }
    }
  }

  /** The scanner-based include? holds exactly when t is a substring of s. */
  lemma ContainsIffOccurs(s: string, t: string)
    ensures Contains(s, t) <==> Occurs(s, t)
  {
    var r := Find(s, Literal(t));
    if r.Some? {
      LiteralMatchesAt(s, t, r.value);
    }
    if Occurs(s, t) {
      var i: nat :| OccursAt(s, t, i);
      LiteralMatchesAt(s, t, i);
    }
  }
}
