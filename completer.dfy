/**
 `completer_flora` in its `debug=True` form: extract the symbols under the cursor,
 print the help listing as a side effect, and return the completions found in the
 joined listing.  The listing is given (the refresh through the logic engine or a file
 is not part of this model) and the host's own Python completer is not consulted.
 */
module Completer {
  import opened Wrappers
  import opened PyStr
  import opened Classifier
  import opened Symbols
  import opened TermEnd
  import opened Corpus
  import opened Help

  /** One completion event on the line `line` with the token `trigger` under the cursor.
      `printed` is what the help listing prints; `result` the completions (`None` where
      `_parseEnd_` would raise). */
  method CompleterFlora(listing: seq<string>, line: string, trigger: string)
    returns (printed: seq<string>, result: Option<seq<string>>)
    ensures printed == HelpOutput(line, GetSymbols(line, trigger), listing)
    ensures result == Completions(GetSymbols(line, trigger), KnownContent(listing))
  {
    var symbols := ExtractSymbols(line, trigger);
    printed := PrintHelp(line, symbols, listing);
    var known := KnownContent(listing);
    result := Complete(symbols, known);
  }

  /** The first docstring example: an empty line prints nothing and completes to `[]`,
      whatever the listing. */
  lemma CompleterEmptyLine(listing: seq<string>)
    ensures GetSymbols("", "") == []
    ensures HelpOutput("", GetSymbols("", ""), listing) == []
    ensures Completions(GetSymbols("", ""), KnownContent(listing)) == Some([])
  {
    assert OccursAt("", "", 0);
    assert Cut("", "") == "";
  }

  lemma KnownOneLine(l: string)
    requires l == "abc(de(f),?A) :- gh(?A)."
    ensures KnownContent([l]) == l
  {
    StripUnchanged(l);
  }

  lemma StartsOfD(l: string)
    requires l == "abc(de(f),?A) :- gh(?A)."
    ensures MatchStarts(l, "d", 0) == [4]
  {
    assert OccursAt(l, "d", 4);
    forall i | 0 <= i < 4
      ensures !OccursAt(l, "d", i)
    {
      assert l[i..i + 1][0] == l[i];
    }
    assert Find(l, "d", 0) == 4;
    forall i | 5 <= i
      ensures !OccursAt(l, "d", i)
    {
      if i + 1 <= |l| { assert l[i..i + 1][0] == l[i]; }
    }
    assert Find(l, "d", 5) == -1;
  }

  lemma StartsOfAbc(l: string)
    requires l == "abc(de(f),?A) :- gh(?A)."
    ensures MatchStarts(l, "abc(d", 0) == [0]
  {
    assert OccursAt(l, "abc(d", 0);
    assert Find(l, "abc(d", 0) == 0;
    forall i | 1 <= i
      ensures !OccursAt(l, "abc(d", i)
    {
      if i + 5 <= |l| { assert l[i..i + 5][0] == l[i]; }
    }
    assert Find(l, "abc(d", 1) == -1;
  }

  /** The matches for two symbols: those of the first, then those of the second. */
  lemma MatchesTwo(s1: string, s2: string, known: string)
    ensures Matches([s1, s2], known) ==
              MatchesAt(known, MatchStarts(known, s1, 0)) + MatchesAt(known, MatchStarts(known, s2, 0))
  {
    assert [s1, s2][..1] == [s1];
    assert [s1][..0] == [];
    assert Matches([s1], known) == [] + MatchesAt(known, MatchStarts(known, s1, 0));
    assert [] + MatchesAt(known, MatchStarts(known, s1, 0)) == MatchesAt(known, MatchStarts(known, s1, 0));
  }

  /** Two matches that both parse give both terms, in order. */
  lemma ParseTwo(a: string, b: string, x: string, y: string)
    requires FirstTerm(a) == Some(x) && FirstTerm(b) == Some(y)
    ensures ParseAll([a, b]) == Some([x, y])
  {
    assert [a, b][..1] == [a];
    assert [a][..0] == [];
    assert ParseAll([a]) == Concat(ParseAll([]), Some([x]));
    assert [] + [x] == [x];
    assert ParseAll([a, b]) == Concat(ParseAll([a]), Some([y]));
    assert [x] + [y] == [x, y];
  }

  lemma SuffixAtD(l: string)
    requires l == "abc(de(f),?A) :- gh(?A)."
    ensures l[4..] == "de(f),?A) :- gh(?A)."
  {
  }

  lemma MatchesExample(l: string)
    requires l == "abc(de(f),?A) :- gh(?A)."
    ensures Matches(["d", "abc(d"], l) == [l[4..], l]
  {
    MatchesTwo("d", "abc(d", l);
    MatchesOfD(l);
    MatchesOfAbc(l);
  }

  lemma MatchesOfD(l: string)
    requires l == "abc(de(f),?A) :- gh(?A)."
    ensures MatchesAt(l, MatchStarts(l, "d", 0)) == [l[4..]]
  {
    StartsOfD(l);
    SuffixAtD(l);
    StripUnchanged(l[4..]);
  }

  lemma MatchesOfAbc(l: string)
    requires l == "abc(de(f),?A) :- gh(?A)."
    ensures MatchesAt(l, MatchStarts(l, "abc(d", 0)) == [l]
  {
    StartsOfAbc(l);
    assert l[0..] == l;
    StripUnchanged(l);
  }

  /** The second docstring example: on `'abc(d'` with the cursor on `d`, against the
      listing `['abc(de(f),?A) :- gh(?A).']`, the completions are `['de(f)', 'abc(de(f),?A)']`. */
  lemma CompleterExample(l: string)
    requires l == "abc(de(f),?A) :- gh(?A)."
    ensures Completions(GetSymbols("abc(d", "d"), KnownContent([l])) == Some(["de(f)", "abc(de(f),?A)"])
  {
    GetSymbolsExample1();
    KnownOneLine(l);
    MatchesExample(l);
    SuffixAtD(l);
    TermOfDeF(l, []);
    TermOfAbcDeF(l, []);
    assert l[4..] + [] == l[4..] && l + [] == l;
    ParseTwo(l[4..], l, "de(f)", "abc(de(f),?A)");
  }

  /** The listing `[l1, l2]` is joined into `l1 + " " + l2` when neither line has
      surrounding whitespace. */
  lemma {:induction false} KnownTwoLines(l1: string, l2: string)
    requires l1 != [] && !IsSpace(l1[0]) && !IsSpace(l1[|l1| - 1])
    requires l2 != [] && !IsSpace(l2[0]) && !IsSpace(l2[|l2| - 1])
    ensures KnownContent([l1, l2]) == l1 + " " + l2
  {
    StripUnchanged(l1);
    StripUnchanged(l2);
    assert StripAll([l1, l2]) == [l1, l2];
    assert [l1, l2][1..] == [l2];
  }

  lemma {:induction false} StartsOfDSecond(l: string)
    requires l == "abc(de(?A)) :- (de(g), abc(?A))."
    ensures MatchStarts(l, "d", 0) == [4, 16]
  {
    FindDSecond(l);
    BeforeDSecond(l);
    MatchStartsTwo(l, "d", 4, 16);
  }

  lemma BeforeDSecond(l: string)
    requires l == "abc(de(?A)) :- (de(g), abc(?A))."
    ensures !IsIdentifier(l[3]) && !IsIdentifier(l[15])
  {
    assert l[3] == '(' && l[15] == '(';
  }

  /** The scanner visits two accepted occurrences, and nothing else. */
  lemma {:induction false} MatchStartsTwo(s: string, sym: string, a: nat, b: nat)
    requires Find(s, sym, 0) == a && Find(s, sym, a + 1) == b && Find(s, sym, b + 1) == -1
    requires (a == 0 || !IsIdentifier(s[a - 1])) && (b == 0 || !IsIdentifier(s[b - 1]))
    ensures MatchStarts(s, sym, 0) == [a, b]
  {
    MatchStartsPast(s, sym, b + 1);
    MatchStartsAt(s, sym, a + 1, b);
    MatchStartsAt(s, sym, 0, a);
    assert [a] + ([b] + []) == [a, b];
  }

  lemma {:induction false} FindDSecond(l: string)
    requires l == "abc(de(?A)) :- (de(g), abc(?A))."
    ensures Find(l, "d", 0) == 4 && Find(l, "d", 5) == 16 && Find(l, "d", 17) == -1
  {
    forall i | 0 <= i < 4 || 5 <= i < 16 || 17 <= i
      ensures !OccursAt(l, "d", i)
    {
      OccursAtChar(l, 'd', i);
    }
    OccursAtChar(l, 'd', 4);
    OccursAtChar(l, 'd', 16);
    FindIs(l, "d", 0, 4);
    FindIs(l, "d", 5, 16);
  }

  lemma {:induction false} StartsOfAbcSecond(l: string)
    requires l == "abc(de(?A)) :- (de(g), abc(?A))."
    ensures MatchStarts(l, "abc(d", 0) == [0]
  {
    assert OccursAt(l, "abc(d", 0);
    assert Find(l, "abc(d", 0) == 0;
    forall i | 1 <= i
      ensures !OccursAt(l, "abc(d", i)
    {
      if i + 5 <= |l| {
        assert l[i..i + 5][0] == l[i] && l[i..i + 5][4] == l[i + 4];
      }
    }
    assert Find(l, "abc(d", 1) == -1;
  }

  /** The argument texts of the example knowledge base without brackets are balanced. */
  lemma ExampleArgument(a: string)
    requires a == "f" || a == "g" || a == "?A" || a == ",?A"
    ensures Balanced(a)
  {
    assert forall i :: 0 <= i < |a| ==> CharCounter(a[i]) == 0;
    NeutralBalanced(a);
  }

  /** The argument texts with a term inside, balanced as the terms in them are. */
  lemma NestedArgumentDeF(a: string)
    requires a == "de(f),?A"
    ensures Balanced(a)
  {
    ExampleArgument("f");
    ExampleCall("de", "f", "de(f)");
    ExampleArgument(",?A");
    BalancedConcat("de(f)", ",?A");
    assert a == "de(f)" + ",?A";
  }

  lemma NestedArgumentDeA(a: string)
    requires a == "de(?A)"
    ensures Balanced(a)
  {
    ExampleArgument("?A");
    ExampleCall("de", "?A", a);
  }

  /** The compound terms of the example knowledge base: a name applied to a balanced
      argument text is cut out whole. */
  lemma ExampleCall(f: string, a: string, t: string)
    requires f == "de" || f == "gh" || f == "abc"
    requires Balanced(a) && t == f + "(" + a + ")"
    ensures FirstTerm(t) == Some(t) && t != [] && !IsIdentifier(t[IdentEnd(t)]) && Balanced(t)
  {
    assert forall i :: 0 <= i < |f| ==> IsIdentifier(f[i]);
    CallTerm(f, a);
  }

  /** A term followed by anything parses as that term. */
  lemma {:induction false} TermThen(t: string, rest: string)
    requires FirstTerm(t) == Some(t) && t != [] && !IsIdentifier(t[IdentEnd(t)])
    ensures FirstTerm(t + rest) == Some(t)
  {
    FirstTermExtend(t, rest);
  }

  /** Where the terms of the second line start. */
  lemma SecondLineSplitDeA(l: string)
    requires l == "abc(de(?A)) :- (de(g), abc(?A))."
    ensures l == "abc(" + ("de(?A)" + ") :- (de(g), abc(?A)).")
  {
  }

  lemma SecondLineSplitDeG(l: string)
    requires l == "abc(de(?A)) :- (de(g), abc(?A))."
    ensures l == "abc(de(?A)) :- (" + ("de(g)" + ", abc(?A)).")
  {
  }

  lemma SecondLineSplitAbc(l: string)
    requires l == "abc(de(?A)) :- (de(g), abc(?A))."
    ensures l == "abc(de(?A))" + " :- (de(g), abc(?A))."
  {
  }

  lemma FirstLineSplit(l: string)
    requires l == "abc(de(f),?A) :- gh(?A)."
    ensures l == "abc(de(f),?A) :- " + ("gh(?A)" + ".")
  {
  }

  /** Dropping a known prefix. */
  lemma DropPrefix(a: string, r: string)
    ensures (a + r)[|a|..] == r
  {
  }

  /** A match that starts with a whole term, whatever follows, parses as that term. */
  lemma {:induction false} TermAt(s: string, pre: string, t: string, r: string, z: string)
    requires s == pre + (t + r)
    requires FirstTerm(t) == Some(t) && t != [] && !IsIdentifier(t[IdentEnd(t)])
    ensures FirstTerm(s[|pre|..] + z) == Some(t)
  {
    assert s[|pre|..] + z == t + (r + z);
    FirstTermExtend(t, r + z);
  }

  lemma FirstLineSplitDeF(l: string)
    requires l == "abc(de(f),?A) :- gh(?A)."
    ensures l == "abc(" + ("de(f)" + ",?A) :- gh(?A).")
  {
  }

  lemma FirstLineSplitAbc(l: string)
    requires l == "abc(de(f),?A) :- gh(?A)."
    ensures l == [] + ("abc(de(f),?A)" + " :- gh(?A).")
  {
  }

  /** The ends of the two lines of the listing, and the characters where matches start. */
  lemma FirstLineEnds(l: string)
    requires l == "abc(de(f),?A) :- gh(?A)."
    ensures |l| == 24 && !IsSpace(l[0]) && !IsSpace(l[4]) && !IsSpace(l[17]) && !IsSpace(l[23])
    ensures !IsIdentifier(l[16])
  {
    assert l[0] == 'a' && l[4] == 'd' && l[16] == ' ' && l[17] == 'g' && l[23] == '.';
  }

  lemma SecondLineEnds(l: string)
    requires l == "abc(de(?A)) :- (de(g), abc(?A))."
    ensures |l| == 32 && !IsSpace(l[0]) && !IsSpace(l[4]) && !IsSpace(l[16]) && !IsSpace(l[31])
  {
    assert l[0] == 'a' && l[4] == 'd' && l[16] == 'd' && l[31] == '.';
  }

  /** The occurrences of `d` in the joined listing, and their matches. */
  lemma {:induction false} JoinedMatchesD(x: string, y: string)
    requires |x| > 4 && !IsSpace(x[4]) && |y| > 16 && !IsSpace(y[4]) && !IsSpace(y[16]) && !IsSpace(y[|y| - 1])
    requires MatchStarts(x, "d", 0) == [4] && MatchStarts(y, "d", 0) == [4, 16]
    ensures MatchesAt(x + " " + y, MatchStarts(x + " " + y, "d", 0)) == [x[4..] + (" " + y), y[4..], y[16..]]
  {
    var k := x + " " + y;
    JoinedStartsD(x, y);
    MatchAtJoinLeft(x, y, 4);
    MatchAtJoinRight(x, y, 4);
    StripUnchanged(y[4..]);
    MatchAtJoinRight(x, y, 16);
    StripUnchanged(y[16..]);
    MatchesAtThree(k, 4, |x| + 5, |x| + 17, x[4..] + (" " + y), y[4..], y[16..]);
  }

  lemma {:induction false} JoinedStartsD(x: string, y: string)
    requires MatchStarts(x, "d", 0) == [4] && MatchStarts(y, "d", 0) == [4, 16]
    ensures MatchStarts(x + " " + y, "d", 0) == [4, |x| + 5, |x| + 17]
  {
    MatchStartsJoin(x, y, "d");
    ShiftTwo(4, 4, 16, |x| + 1);
  }

  lemma {:induction false} ShiftOne(c: nat, a: nat, d: nat)
    ensures [c] + Shift([a], d) == [c, a + d]
  {
    var s := Shift([a], d);
    assert |s| == 1 && s[0] == a + d;
  }

  lemma {:induction false} ShiftTwo(c: nat, a: nat, b: nat, d: nat)
    ensures [c] + Shift([a, b], d) == [c, a + d, b + d]
  {
    var s := Shift([a, b], d);
    assert |s| == 2 && s[0] == a + d && s[1] == b + d;
  }

  lemma {:induction false} MatchesAtThree(k: string, p0: nat, p1: nat, p2: nat, m0: string, m1: string, m2: string)
    requires p0 <= |k| && p1 <= |k| && p2 <= |k|
    requires MatchAt(k, p0) == m0 && MatchAt(k, p1) == m1 && MatchAt(k, p2) == m2
    ensures MatchesAt(k, [p0, p1, p2]) == [m0, m1, m2]
  {
    var ms := MatchesAt(k, [p0, p1, p2]);
    assert |ms| == 3 && ms[0] == m0 && ms[1] == m1 && ms[2] == m2;
  }

  /** The occurrences of `abc(d` in the joined listing, and their matches. */
  lemma {:induction false} JoinedMatchesAbc(x: string, y: string)
    requires x != [] && !IsSpace(x[0]) && y != [] && !IsSpace(y[0]) && !IsSpace(y[|y| - 1])
    requires MatchStarts(x, "abc(d", 0) == [0] && MatchStarts(y, "abc(d", 0) == [0]
    ensures MatchesAt(x + " " + y, MatchStarts(x + " " + y, "abc(d", 0)) == [x + (" " + y), y]
  {
    var k := x + " " + y;
    MatchStartsJoin(x, y, "abc(d");
    ShiftOne(0, 0, |x| + 1);
    MatchAtJoinLeft(x, y, 0);
    MatchAtJoinRight(x, y, 0);
    assert x[0..] == x && y[0..] == y;
    StripUnchanged(y);
    var ms := MatchesAt(k, [0, |x| + 1]);
    assert |ms| == 2 && ms[0] == x + (" " + y) && ms[1] == y;
  }

  /** The matches for the symbols of `'abc(d'` in the two-line listing. */
  lemma MatchesTwoLines(l1: string, l2: string)
    requires l1 == "abc(de(f),?A) :- gh(?A)."
    requires l2 == "abc(de(?A)) :- (de(g), abc(?A))."
    ensures Matches(["d", "abc(d"], l1 + " " + l2) ==
              [l1[4..] + (" " + l2), l2[4..], l2[16..], l1 + (" " + l2), l2]
  {
    FirstLineEnds(l1);
    SecondLineEnds(l2);
    StartsOfD(l1);
    StartsOfDSecond(l2);
    StartsOfAbc(l1);
    StartsOfAbcSecond(l2);
    JoinedMatchesD(l1, l2);
    JoinedMatchesAbc(l1, l2);
    MatchesTwo("d", "abc(d", l1 + " " + l2);
  }

  /** Each of those matches parses as the term it starts with. */
  lemma TermOfDeF(l1: string, z: string)
    requires l1 == "abc(de(f),?A) :- gh(?A)."
    ensures FirstTerm(l1[4..] + z) == Some("de(f)")
  {
    FirstLineSplitDeF(l1);
    ExampleArgument("f");
    ExampleCall("de", "f", "de(f)");
    TermAt(l1, "abc(", "de(f)", ",?A) :- gh(?A).", z);
  }

  lemma TermOfAbcDeF(l1: string, z: string)
    requires l1 == "abc(de(f),?A) :- gh(?A)."
    ensures FirstTerm(l1 + z) == Some("abc(de(f),?A)")
  {
    FirstLineSplitAbc(l1);
    NestedArgumentDeF("de(f),?A");
    ExampleCall("abc", "de(f),?A", "abc(de(f),?A)");
    TermAt(l1, [], "abc(de(f),?A)", " :- gh(?A).", z);
    assert l1[0..] == l1;
  }

  lemma TermOfDeASecond(l2: string)
    requires l2 == "abc(de(?A)) :- (de(g), abc(?A))."
    ensures FirstTerm(l2[4..]) == Some("de(?A)")
  {
    SecondLineSplitDeA(l2);
    ExampleArgument("?A");
    ExampleCall("de", "?A", "de(?A)");
    TermAt(l2, "abc(", "de(?A)", ") :- (de(g), abc(?A)).", []);
    assert l2[4..] + [] == l2[4..];
  }

  lemma TermOfDeGSecond(l2: string)
    requires l2 == "abc(de(?A)) :- (de(g), abc(?A))."
    ensures FirstTerm(l2[16..]) == Some("de(g)")
  {
    SecondLineSplitDeG(l2);
    ExampleArgument("g");
    ExampleCall("de", "g", "de(g)");
    TermAt(l2, "abc(de(?A)) :- (", "de(g)", ", abc(?A)).", []);
    assert l2[16..] + [] == l2[16..];
  }

  lemma TermOfAbcSecond(l2: string)
    requires l2 == "abc(de(?A)) :- (de(g), abc(?A))."
    ensures FirstTerm(l2) == Some("abc(de(?A))")
  {
    var t := "abc(de(?A))";
    SecondLineSplitAbc(l2);
    assert FirstTerm(t) == Some(t) && t != [] && !IsIdentifier(t[IdentEnd(t)]) by {
      NestedArgumentDeA("de(?A)");
      ExampleCall("abc", "de(?A)", t);
    }
    TermAt(l2, [], t, " :- (de(g), abc(?A)).", []);
    assert l2[0..] + [] == l2;
  }

  /** Five matches that parse as five terms. */
  lemma {:induction false} ParseFive(m0: string, m1: string, m2: string, m3: string, m4: string,
                                     t0: string, t1: string, t2: string, t3: string, t4: string)
    requires FirstTerm(m0) == Some(t0) && FirstTerm(m1) == Some(t1) && FirstTerm(m2) == Some(t2)
    requires FirstTerm(m3) == Some(t3) && FirstTerm(m4) == Some(t4)
    ensures ParseAll([m0, m1, m2, m3, m4]) == Some([t0, t1, t2, t3, t4])
  {
    ParseAllOf([m0, m1, m2, m3, m4], [t0, t1, t2, t3, t4]);
  }

  /** The third docstring example: once the listing holds both clauses, `'abc(d'` with
      the cursor on `d` completes to the `d`-terms of both lines, then their
      `abc(d`-terms. */
  lemma CompleterExampleTwoLines(l1: string, l2: string)
    requires l1 == "abc(de(f),?A) :- gh(?A)."
    requires l2 == "abc(de(?A)) :- (de(g), abc(?A))."
    ensures Completions(GetSymbols("abc(d", "d"), KnownContent([l1, l2])) ==
              Some(["de(f)", "de(?A)", "de(g)", "abc(de(f),?A)", "abc(de(?A))"])
  {
    GetSymbolsExample1();
    FirstLineEnds(l1);
    SecondLineEnds(l2);
    KnownTwoLines(l1, l2);
    MatchesTwoLines(l1, l2);
    TermOfDeF(l1, " " + l2);
    TermOfDeASecond(l2);
    TermOfDeGSecond(l2);
    TermOfAbcDeF(l1, " " + l2);
    TermOfAbcSecond(l2);
    ParseFive(l1[4..] + (" " + l2), l2[4..], l2[16..], l1 + (" " + l2), l2,
              "de(f)", "de(?A)", "de(g)", "abc(de(f),?A)", "abc(de(?A))");
  }

  lemma FindGhFirst(l: string)
    requires l == "abc(de(f),?A) :- gh(?A)."
    ensures Find(l, "gh", 0) == 17 && Find(l, "gh", 18) == -1
  {
    forall i | 0 <= i < 17 || 18 <= i
      ensures !OccursAt(l, "gh", i)
    {
      if i + 2 <= |l| {
        assert l[i..i + 2][0] == l[i];
      }
    }
    assert OccursAt(l, "gh", 17);
    FindIs(l, "gh", 0, 17);
  }

  /** The scanner visits one accepted occurrence, and nothing else. */
  lemma {:induction false} MatchStartsOne(s: string, sym: string, a: nat)
    requires Find(s, sym, 0) == a && Find(s, sym, a + 1) == -1
    requires a == 0 || !IsIdentifier(s[a - 1])
    ensures MatchStarts(s, sym, 0) == [a]
  {
    MatchStartsPast(s, sym, a + 1);
    MatchStartsAt(s, sym, 0, a);
    assert [a] + [] == [a];
  }

  lemma StartsOfGh(l: string)
    requires l == "abc(de(f),?A) :- gh(?A)."
    ensures MatchStarts(l, "gh", 0) == [17] && MatchStarts(l, "z(gh", 0) == []
  {
    FindGhFirst(l);
    FirstLineEnds(l);
    MatchStartsOne(l, "gh", 17);
    assert 'z' !in l;
    FindAbsent(l, "z(gh", 0, 0);
    MatchStartsPast(l, "z(gh", 0);
  }

  lemma StartsOfGhSecond(l: string)
    requires l == "abc(de(?A)) :- (de(g), abc(?A))."
    ensures MatchStarts(l, "gh", 0) == [] && MatchStarts(l, "z(gh", 0) == []
  {
    GhSecondLine(l);
    MatchStartsPast(l, "gh", 0);
    MatchStartsPast(l, "z(gh", 0);
  }

  /** The matches for `gh` and `z(gh` in the joined listing. */
  lemma {:induction false} JoinedMatchesGh(x: string, y: string)
    requires |x| > 17 && !IsSpace(x[17]) && y != [] && !IsSpace(y[|y| - 1])
    requires MatchStarts(x, "gh", 0) == [17] && MatchStarts(y, "gh", 0) == []
    requires MatchStarts(x, "z(gh", 0) == [] && MatchStarts(y, "z(gh", 0) == []
    ensures Matches(["gh", "z(gh"], x + " " + y) == [x[17..] + (" " + y)]
  {
    var k := x + " " + y;
    MatchStartsJoin(x, y, "gh");
    MatchStartsJoin(x, y, "z(gh");
    assert Shift([], |x| + 1) == [];
    MatchesTwo("gh", "z(gh", k);
    MatchAtJoinLeft(x, y, 17);
    var ms := MatchesAt(k, [17]);
    assert |ms| == 1 && ms[0] == x[17..] + (" " + y);
    assert MatchesAt(k, []) == [];
    assert ms + [] == ms;
  }

  lemma FirstLineSplitGh(l: string)
    requires l == "abc(de(f),?A) :- gh(?A)."
    ensures l == "abc(de(f),?A) :- " + ("gh(?A)" + ".")
  {
  }

  lemma TermOfGhJoined(l1: string, l2: string)
    requires l1 == "abc(de(f),?A) :- gh(?A)."
    ensures FirstTerm(l1[17..] + (" " + l2)) == Some("gh(?A)")
  {
    FirstLineSplitGh(l1);
    ExampleArgument("?A");
    ExampleCall("gh", "?A", "gh(?A)");
    TermAt(l1, "abc(de(f),?A) :- ", "gh(?A)", ".", " " + l2);
  }

  /** The help docstring example: on `'z(gh??'` with the cursor on `gh`, against the
      two-line listing, the symbols are `['gh', 'z(gh']`, the help prints only the first
      line, numbered after a blank line, and the completions are `['gh(?A)']`. */
  lemma CompleterExampleGh(l1: string, l2: string)
    requires l1 == "abc(de(f),?A) :- gh(?A)."
    requires l2 == "abc(de(?A)) :- (de(g), abc(?A))."
    ensures GetSymbols("z(gh??", "gh") == ["gh", "z(gh"]
    ensures HelpOutput("z(gh??", GetSymbols("z(gh??", "gh"), [l1, l2]) == ["\n1:   " + l1]
    ensures Completions(GetSymbols("z(gh??", "gh"), KnownContent([l1, l2])) == Some(["gh(?A)"])
  {
    GetSymbolsExampleHelp();
    HelpOutputExampleGh(l1, l2);
    CompletionsGh(l1, l2);
  }

  lemma CompletionsGh(l1: string, l2: string)
    requires l1 == "abc(de(f),?A) :- gh(?A)."
    requires l2 == "abc(de(?A)) :- (de(g), abc(?A))."
    ensures Completions(["gh", "z(gh"], KnownContent([l1, l2])) == Some(["gh(?A)"])
  {
    FirstLineEnds(l1);
    SecondLineEnds(l2);
    KnownTwoLines(l1, l2);
    StartsOfGh(l1);
    StartsOfGhSecond(l2);
    JoinedMatchesGh(l1, l2);
    TermOfGhJoined(l1, l2);
    ParseAllOf([l1[17..] + (" " + l2)], ["gh(?A)"]);
  }
}
