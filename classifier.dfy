/**
 The bracket/identifier classifier of the completion engine
 (`is_identifier`, `brackets` and `brackets_counter`).
 */
module Classifier {
  import opened PyStr

  /** `is_identifier`: alphanumeric (ASCII, as Python 2 `str.isalnum`) or underscore. */
  predicate IsIdentifier(c: char) {
    ('a' <= c <= 'z') || ('A' <= c <= 'Z') || ('0' <= c <= '9') || c == '_'
  }

  /** What one character adds to `brackets_counter`: +1 for an opening bracket of one of
      the pairs `{}`, `()`, `[]`, -1 for a closing one, 0 for anything else. */
  function CharCounter(c: char): int {
    if c == '{' || c == '(' || c == '[' then 1
    else if c == '}' || c == ')' || c == ']' then -1
    else 0
  }

  /** `brackets_counter`, character by character (`BracketsCounterIsCountSum` shows it is the
      source's sum of `count(open) - count(close)` over the three pairs). */
  function BracketsCounter(s: string): int {
    if s == [] then 0 else CharCounter(s[0]) + BracketsCounter(s[1..])
  }

  /** The source's definition: for each pair, opens minus closes, summed. */
  lemma {:induction false} BracketsCounterIsCountSum(s: string)
    ensures BracketsCounter(s) ==
      (Count(s, '{') - Count(s, '}')) + (Count(s, '(') - Count(s, ')')) + (Count(s, '[') - Count(s, ']'))
  {
    if s != [] { BracketsCounterIsCountSum(s[1..]); }
  }

  /** The counter is additive over concatenation. */
  lemma {:induction false} BracketsCounterAppend(a: string, b: string)
    ensures BracketsCounter(a + b) == BracketsCounter(a) + BracketsCounter(b)
  {
    if a == [] {
      assert a + b == b;
    } else {
      assert (a + b)[1..] == a[1..] + b;
      BracketsCounterAppend(a[1..], b);
    }
  }

  /** On one character: +1 for an opening bracket, -1 for a closing one, 0 otherwise. */
  lemma BracketsCounterChar(c: char)
    ensures BracketsCounter([c]) == CharCounter(c)
    ensures -1 <= BracketsCounter([c]) <= 1
    ensures IsIdentifier(c) ==> BracketsCounter([c]) == 0
  {
    assert [c][1..] == [];
  }

  /** Extending a string by one character adds that character's counter. */
  lemma BracketsCounterSnoc(s: string, c: char)
    ensures BracketsCounter(s + [c]) == BracketsCounter(s) + BracketsCounter([c])
  {
    BracketsCounterAppend(s, [c]);
  }

  /** A string of identifier characters has counter 0. */
  lemma {:induction false} BracketsCounterIdentifiers(s: string)
    requires forall i :: 0 <= i < |s| ==> IsIdentifier(s[i])
    ensures BracketsCounter(s) == 0
  {
    if s != [] {
      var t := s[..|s| - 1];
      assert s == t + [s[|s| - 1]];
      BracketsCounterIdentifiers(t);
      BracketsCounterSnoc(t, s[|s| - 1]);
      BracketsCounterChar(s[|s| - 1]);
    }
  }

  /** The counter of a slice grows by the next character's counter. */
  lemma BracketsCounterSlice(s: string, i: nat, j: nat)
    requires i <= j < |s|
    ensures BracketsCounter(s[i..j + 1]) == BracketsCounter(s[i..j]) + BracketsCounter([s[j]])
  {
    assert s[i..j + 1] == s[i..j] + [s[j]];
    BracketsCounterSnoc(s[i..j], s[j]);
  }
}
