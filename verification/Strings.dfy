/** Joining strings around a mark that neither left part contains. */
module Strings {

  /** A class of characters, as in a pattern. */
  type Class = char -> bool

  function Between(low: char, high: char): Class {
    c => low <= c <= high
  }

  function OneOf(some: string): Class {
    c => c in some
  }

  function Either(a: Class, b: Class): Class {
    c => a(c) || b(c)
  }

  /** One character of class `first` and up to `more` of class `rest`: the pattern `[first][rest]{0,more}`. */
  predicate HasPattern(s: string, first: Class, rest: Class, more: nat) {
    && s != [] && first(s[0])
    && |s| - 1 <= more && forall i | 1 <= i < |s| :: rest(s[i])
  }

  lemma FirstMarkSplits(a: string, b: string, mark: char, restA: string, restB: string)
    requires mark !in a && mark !in b
    requires a + [mark] + restA == b + [mark] + restB
    ensures a == b && restA == restB
  {
    var s, t := a + [mark] + restA, b + [mark] + restB;
    assert s[|a|] == mark && t[|b|] == mark;
    assert forall i | 0 <= i < |a| :: s[i] == a[i];
    assert forall i | 0 <= i < |b| :: t[i] == b[i];
    assert a == s[..|a|] && b == t[..|b|];
    assert restA == s[|a| + 1..] && restB == t[|b| + 1..];
  }
}
