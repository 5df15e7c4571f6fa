/**
 The backward symbol extractor `_getsymbols_`: from the edited line and the
 token under the cursor, the enclosing compound-term prefixes, innermost first.
 */
module Symbols {
  import opened PyStr
  import opened Classifier

  /** `event_line[:event_line.rfind(event_symbol) + len(event_symbol)]`.
      When the trigger is absent `rfind` gives -1 and the cut falls at `len(trigger) - 1`. */
  function Cut(line: string, trigger: string): (r: string)
    ensures StartsWith(line, r)
    ensures RFind(line, trigger) != -1 ==>
              EndsWith(r, trigger) && forall i :: |r| - |trigger| < i ==> !OccursAt(line, trigger, i)
    ensures (forall i :: !OccursAt(line, trigger, i)) ==>
              |r| == (if |trigger| - 1 < |line| then |trigger| - 1 else |line|)
  {
    assert |trigger| == 0 ==> OccursAt(line, trigger, 0);
    var k := RFind(line, trigger) + |trigger|;
    if k <= |line| then line[..k] else line
  }

  /** `while inputstr.endswith('?'): inputstr = inputstr[:-1]` */
  function StripTrailingQ(s: string): (r: string)
    ensures StartsWith(s, r)
    ensures !EndsWith(r, "?")
    ensures forall i :: |r| <= i < |s| ==> s[i] == '?'
  {
    if EndsWith(s, "?") then StripTrailingQ(s[..|s| - 1]) else s
  }

  /** The text the backward walk runs over. */
  function Stripped(line: string, trigger: string): string {
    Strip(StripTrailingQ(Cut(line, trigger)))
  }

  /** State of the walk: `open_brackets` and the symbols emitted so far. */
  datatype Walk = Walk(depth: int, found: seq<string>)

  /** The walk after the buffer `symbol` has grown to `t[j..]`, visiting `t` right to left. */
  function WalkFrom(t: string, j: nat): Walk
    requires j < |t|
    decreases |t| - j
  {
    if j == |t| - 1 then Walk(BracketsCounter([t[j]]), [])
    else
      var w := WalkFrom(t, j + 1);
      if w.depth == 0 && !IsIdentifier(t[j]) then
        Walk(w.depth - 1 + BracketsCounter([t[j]]), w.found + [t[j + 1..]])
      else
        Walk(w.depth + BracketsCounter([t[j]]), w.found)
  }

  /** The symbols of a stripped text: those emitted by the walk, then the whole text if depth is 0. */
  function SymbolsOf(t: string): seq<string> {
    if t == [] then []
    else
      var w := WalkFrom(t, 0);
      if w.depth == 0 then w.found + [t] else w.found
  }

  /** `_getsymbols_(event_line, event_symbol)` */
  function GetSymbols(line: string, trigger: string): seq<string> {
    SymbolsOf(Stripped(line, trigger))
  }

  /** What the walk keeps true: the depth is the bracket count of the buffer minus the
      number of emitted symbols. */
  lemma {:induction false} WalkDepth(t: string, j: nat)
    requires j < |t|
    ensures WalkFrom(t, j).depth == BracketsCounter(t[j..]) - |WalkFrom(t, j).found|
    decreases |t| - j
  {
    if j < |t| - 1 {
      WalkDepth(t, j + 1);
      assert t[j..] == [t[j]] + t[j + 1..];
      BracketsCounterAppend([t[j]], t[j + 1..]);
    } else {
      assert t[j..] == [t[j]];
    }
  }

  /** Each emitted symbol is a proper suffix of the buffer, preceded by a non-identifier,
      and each is longer than the one before (the bracket counts are `WalkCounts`). */
  lemma {:induction false} WalkInvariant(t: string, j: nat)
    requires j < |t|
    ensures FoundShape(t, |t| - j, WalkFrom(t, j).found)
    decreases |t| - j
  {
    if j < |t| - 1 {
      WalkInvariant(t, j + 1);
      var w := WalkFrom(t, j + 1);
      if w.depth == 0 && !IsIdentifier(t[j]) {
        var f := w.found + [t[j + 1..]];
        assert WalkFrom(t, j).found == f;
        forall i | 0 <= i < |f|
          ensures 0 < |f[i]| < |t| - j && EndsWith(t, f[i])
          ensures !IsIdentifier(t[|t| - |f[i]| - 1])
        {
          if i == |w.found| {
            assert f[i] == t[j + 1..];
          }
        }
      }
    }
  }

  /** The symbol emitted at index `i` has exactly `i` unclosed brackets. */
  lemma {:induction false} WalkCounts(t: string, j: nat)
    requires j < |t|
    ensures forall i :: 0 <= i < |WalkFrom(t, j).found| ==> BracketsCounter(WalkFrom(t, j).found[i]) == i
    decreases |t| - j
  {
    if j < |t| - 1 {
      WalkCounts(t, j + 1);
      var w := WalkFrom(t, j + 1);
      if w.depth == 0 && !IsIdentifier(t[j]) {
        WalkDepth(t, j + 1);
        var f := w.found + [t[j + 1..]];
        assert WalkFrom(t, j).found == f;
        assert BracketsCounter(f[|w.found|]) == |w.found|;
        assert forall i :: 0 <= i < |w.found| ==> f[i] == w.found[i];
      }
    }
  }

  /** `found` are suffixes of `t` shorter than `n`, each longer than the one before, each
      preceded by a non-identifier. */
  ghost predicate FoundShape(t: string, n: nat, found: seq<string>)
    requires n <= |t|
  {
    && (forall i :: 0 <= i < |found| ==>
          0 < |found[i]| < n && EndsWith(t, found[i])
          && !IsIdentifier(t[|t| - |found[i]| - 1]))
    && (forall i :: 0 <= i < |found| - 1 ==> |found[i]| < |found[i + 1]|)
  }

  /** The shape of the result of `_getsymbols_` on its stripped text `t`: every symbol is a
      non-empty suffix of `t`, each strictly longer than the one before; symbol `i` has exactly
      `i` unclosed brackets, and every symbol shorter than `t` is preceded by a non-identifier. */
  lemma SymbolsShape(t: string)
    ensures t == [] ==> SymbolsOf(t) == []
    ensures var r := SymbolsOf(t);
      && (forall i :: 0 <= i < |r| ==> 0 < |r[i]| && EndsWith(t, r[i]) && BracketsCounter(r[i]) == i)
      && (forall i :: 0 <= i < |r| - 1 ==> |r[i]| < |r[i + 1]|)
      && (forall i :: 0 <= i < |r| && |r[i]| < |t| ==> !IsIdentifier(t[|t| - |r[i]| - 1]))
  {
    if t != [] {
      var w := WalkFrom(t, 0);
      WalkInvariant(t, 0);
      WalkCounts(t, 0);
      var r := SymbolsOf(t);
      if w.depth == 0 {
        WalkDepth(t, 0);
        assert t[0..] == t;
        assert r == w.found + [t];
        forall i | 0 <= i < |r|
          ensures 0 < |r[i]| && EndsWith(t, r[i]) && BracketsCounter(r[i]) == i
          ensures |r[i]| < |t| ==> !IsIdentifier(t[|t| - |r[i]| - 1])
        {
          if i < |w.found| {
            assert r[i] == w.found[i];
          } else {
            assert r[i] == t;
          }
        }
        forall i | 0 <= i < |r| - 1
          ensures |r[i]| < |r[i + 1]|
        {
          assert r[i] == w.found[i];
          if i + 1 < |w.found| {
            assert r[i + 1] == w.found[i + 1];
          }
        }
      }
    }
  }

  /** The same facts for `_getsymbols_` itself, about the cut, `?`-stripped, whitespace-stripped line. */
  lemma GetSymbolsShape(line: string, trigger: string)
    ensures Stripped(line, trigger) == [] ==> GetSymbols(line, trigger) == []
    ensures var t, r := Stripped(line, trigger), GetSymbols(line, trigger);
      && (forall i :: 0 <= i < |r| ==> 0 < |r[i]| && EndsWith(t, r[i]) && BracketsCounter(r[i]) == i)
      && (forall i :: 0 <= i < |r| - 1 ==> |r[i]| < |r[i + 1]|)
      && (forall i :: 0 <= i < |r| && |r[i]| < |t| ==> !IsIdentifier(t[|t| - |r[i]| - 1]))
  {
    SymbolsShape(Stripped(line, trigger));
  }

  /** The walk over `t[j..]` depends only on that suffix. */
  lemma {:induction false} WalkSuffix(t: string, k: nat, j: nat)
    requires k <= j < |t|
    ensures WalkFrom(t[k..], j - k) == WalkFrom(t, j)
    decreases |t| - j
  {
    if j < |t| - 1 {
      WalkSuffix(t, k, j + 1);
      assert t[k..][j + 1 - k..] == t[j + 1..];
    }
  }

  /** Symbols emitted before the buffer reached `t[j..]` are emitted again later, in place. */
  lemma {:induction false} WalkFoundGrows(t: string, j: nat, j': nat)
    requires j' <= j < |t|
    ensures WalkFrom(t, j).found <= WalkFrom(t, j').found
    decreases j - j'
  {
    if j' < j { WalkFoundGrows(t, j, j' + 1); }
  }

  /** The innermost symbol, extracted again on its own, is the only symbol of itself. */
  lemma InnermostIdempotent(t: string)
    requires SymbolsOf(t) != []
    ensures SymbolsOf(SymbolsOf(t)[0]) == [SymbolsOf(t)[0]]
  {
    var s := SymbolsOf(t)[0];
    SymbolsShape(t);
    WalkInvariant(t, 0);
    var w0 := WalkFrom(t, 0);
    if w0.found == [] {
      assert s == t;
    } else {
      // the innermost symbol is t[a..], emitted when the walk stood at a - 1
      var a := |t| - |s|;
      assert 0 < a;
      WalkFoundGrows(t, a, 0);
      WalkInvariant(t, a);
      var wa := WalkFrom(t, a);
      if wa.found != [] {
        assert false;
      }
      WalkFoundGrows(t, a - 1, 0);
      WalkInvariant(t, a - 1);
      var wb := WalkFrom(t, a - 1);
      if wb.found == [] {
        assert |w0.found| > 0;
        LaterSymbolsLonger(t, a - 1);
        assert false;
      }
      assert wb.found == [t[a..]];
      assert wa.depth == 0;
      WalkSuffix(t, a, a);
      assert t[a..] == s;
    }
  }

  /** If nothing was emitted while the buffer grew to `t[j..]`, the first symbol emitted
      is at least as long as `t[j..]`. */
  lemma {:induction false} LaterSymbolsLonger(t: string, j: nat)
    requires j < |t|
    requires WalkFrom(t, j).found == []
    ensures WalkFrom(t, 0).found == [] || |WalkFrom(t, 0).found[0]| >= |t| - j
    decreases j
  {
    if j > 0 {
      var w := WalkFrom(t, j - 1);
      if w.found == [] {
        LaterSymbolsLonger(t, j - 1);
      } else {
        assert w.found == [t[j..]];
        WalkFoundGrows(t, j - 1, 0);
      }
    }
  }

  /** `_getsymbols_` as the source writes it: a loop over the reversed characters that
      updates `symbol` and `open_brackets` and appends to `symbols`. */
  method ExtractSymbols(line: string, trigger: string) returns (symbols: seq<string>)
    ensures symbols == GetSymbols(line, trigger)
  {
    var inputstr := Cut(line, trigger);
    while EndsWith(inputstr, "?")
      invariant StripTrailingQ(inputstr) == StripTrailingQ(Cut(line, trigger))
      decreases |inputstr|
    {
      inputstr := inputstr[..|inputstr| - 1];
    }
    symbols := WalkBack(Strip(inputstr));
  }

  /** The `for char in reverselist[1:]` loop and the final append, on the stripped text. */
  method WalkBack(t: string) returns (symbols: seq<string>)
    ensures symbols == SymbolsOf(t)
  {
    symbols := [];
    if |t| > 0 {
      var symbol := [t[|t| - 1]];
      var openBrackets := BracketsCounter(symbol);
      var j := |t| - 1;
      while j > 0
        invariant 0 <= j < |t|
        invariant symbol == t[j..]
        invariant Walk(openBrackets, symbols) == WalkFrom(t, j)
        decreases j
      {
        var c := t[j - 1];
        assert t[j - 1..] == [c] + t[j..];
        if openBrackets == 0 && !IsIdentifier(c) {
          symbols := symbols + [symbol];
          openBrackets := openBrackets - 1;  // now get symbol of next hierarchy
        }
        openBrackets := openBrackets + BracketsCounter([c]);
        symbol := [c] + symbol;
        j := j - 1;
      }
      if openBrackets == 0 {
        symbols := symbols + [symbol];
      }
    }
  }

  // The examples in the docstring of `_getsymbols_`.

  /** One step of the walk, with the character's counter spelled out. */
  lemma WalkStep(t: string, j: nat)
    requires j < |t|
    ensures j == |t| - 1 ==> WalkFrom(t, j) == Walk(CharCounter(t[j]), [])
    ensures j < |t| - 1 ==> (WalkFrom(t, j) ==
      var w := WalkFrom(t, j + 1);
      if w.depth == 0 && !IsIdentifier(t[j]) then Walk(w.depth - 1 + CharCounter(t[j]), w.found + [t[j + 1..]])
      else Walk(w.depth + CharCounter(t[j]), w.found))
  {
    BracketsCounterChar(t[j]);
  }

  /** A step taken inside brackets, or on an identifier character: nothing is emitted. */
  lemma WalkStepQuiet(t: string, j: nat)
    requires j + 1 < |t|
    requires WalkFrom(t, j + 1).depth != 0 || IsIdentifier(t[j])
    ensures WalkFrom(t, j) == Walk(WalkFrom(t, j + 1).depth + CharCounter(t[j]), WalkFrom(t, j + 1).found)
  {
    WalkStep(t, j);
  }

  lemma SymbolsOfExample1(t: string)
    requires t == "abc(d"
    ensures SymbolsOf(t) == ["d", "abc(d"]
  {
    assert WalkFrom(t, 4) == Walk(0, []) by { WalkStep(t, 4); }
    assert WalkFrom(t, 3) == Walk(0, ["d"]) by { WalkStep(t, 3); assert t[4..] == "d"; }
    assert WalkFrom(t, 2) == Walk(0, ["d"]) by { WalkStep(t, 2); }
    assert WalkFrom(t, 1) == Walk(0, ["d"]) by { WalkStep(t, 1); }
    assert WalkFrom(t, 0) == Walk(0, ["d"]) by { WalkStep(t, 0); }
  }

  /** Where the last occurrence of the trigger is known, the cut ends right after it. */
  lemma CutAtLast(line: string, trigger: string, p: nat)
    requires OccursAt(line, trigger, p)
    requires forall i :: p < i ==> !OccursAt(line, trigger, i)
    ensures Cut(line, trigger) == line[..p + |trigger|]
  {
    assert RFind(line, trigger) == p;
  }

  /** A text with no surrounding whitespace and no trailing `?` is walked as it is. */
  lemma StrippedUnchanged(s: string)
    requires s != [] && s[|s| - 1] != '?'
    requires !IsSpace(s[0]) && !IsSpace(s[|s| - 1])
    ensures Strip(StripTrailingQ(s)) == s
  {
    assert StripTrailingQ(s) == s;
    assert RStrip(s) == s;
    assert LStrip(s) == s;
  }

  lemma StrippedExample1(line: string)
    requires line == "abc(d"
    ensures Stripped(line, "d") == line
  {
    assert OccursAt(line, "d", 4);
    CutAtLast(line, "d", 4);
    assert line[..5] == line;
    StrippedUnchanged(line);
  }

  lemma GetSymbolsExample1()
    ensures GetSymbols("abc(d", "d") == ["d", "abc(d"]
  {
    StrippedExample1("abc(d");
    SymbolsOfExample1("abc(d");
  }

  lemma SymbolsOfExampleHelp(t: string)
    requires t == "z(gh"
    ensures SymbolsOf(t) == ["gh", "z(gh"]
  {
    assert WalkFrom(t, 3) == Walk(0, []) by { WalkStep(t, 3); }
    assert WalkFrom(t, 2) == Walk(0, []) by { WalkStep(t, 2); }
    assert WalkFrom(t, 1) == Walk(0, ["gh"]) by { WalkStep(t, 1); assert t[2..] == "gh"; }
    assert WalkFrom(t, 0) == Walk(0, ["gh"]) by { WalkStep(t, 0); }
  }

  lemma StrippedExampleHelp(line: string)
    requires line == "z(gh??"
    ensures Stripped(line, "gh") == "z(gh"
  {
    assert OccursAt(line, "gh", 2);
    forall i | 2 < i
      ensures !OccursAt(line, "gh", i)
    {
      if i + 2 <= |line| { assert line[i..i + 2][0] == line[i]; }
    }
    CutAtLast(line, "gh", 2);
    assert line[..4] == "z(gh";
    StrippedUnchanged("z(gh");
  }

  /** The help example of `completer_flora`: `_getsymbols_('z(gh??', 'gh')` is
      `['gh', 'z(gh']`. */
  lemma GetSymbolsExampleHelp()
    ensures GetSymbols("z(gh??", "gh") == ["gh", "z(gh"]
  {
    StrippedExampleHelp("z(gh??");
    SymbolsOfExampleHelp("z(gh");
  }

  lemma WalkExample2Tail(t: string)
    requires t == "abc(d), ef(g"
    ensures WalkFrom(t, 9) == Walk(0, ["g"])
  {
    assert WalkFrom(t, 11) == Walk(0, []) by { WalkStep(t, 11); }
    assert WalkFrom(t, 10) == Walk(0, ["g"]) by { WalkStep(t, 10); assert t[11..] == "g"; }
    WalkStep(t, 9);
  }

  lemma WalkExample2(t: string)
    requires t == "abc(d), ef(g"
    ensures WalkFrom(t, 6) == Walk(-1, ["g", "ef(g"])
  {
    WalkExample2Tail(t);
    assert WalkFrom(t, 8) == Walk(0, ["g"]) by { WalkStep(t, 8); }
    assert WalkFrom(t, 7) == Walk(-1, ["g", "ef(g"]) by { WalkStep(t, 7); assert t[8..] == "ef(g"; }
    WalkStep(t, 6);
  }

  lemma WalkExample2Middle(t: string)
    requires t == "abc(d), ef(g"
    ensures WalkFrom(t, 3) == Walk(-1, ["g", "ef(g"])
  {
    WalkExample2(t);
    assert WalkFrom(t, 5) == Walk(-2, ["g", "ef(g"]) by { WalkStep(t, 5); }
    assert WalkFrom(t, 4) == Walk(-2, ["g", "ef(g"]) by { WalkStepQuiet(t, 4); }
    WalkStepQuiet(t, 3);
  }

  lemma SymbolsOfExample2(t: string)
    requires t == "abc(d), ef(g"
    ensures SymbolsOf(t) == ["g", "ef(g"]
  {
    WalkExample2Middle(t);
    assert WalkFrom(t, 2) == Walk(-1, ["g", "ef(g"]) by { WalkStepQuiet(t, 2); }
    assert WalkFrom(t, 1) == Walk(-1, ["g", "ef(g"]) by { WalkStepQuiet(t, 1); }
    assert WalkFrom(t, 0) == Walk(-1, ["g", "ef(g"]) by { WalkStepQuiet(t, 0); }
  }

  lemma StrippedExample2(line: string)
    requires line == "abc(d), ef(g"
    ensures Stripped(line, "g") == line
  {
    assert OccursAt(line, "g", 11);
    CutAtLast(line, "g", 11);
    assert line[..12] == line;
    StrippedUnchanged(line);
  }

  lemma GetSymbolsExample2()
    ensures GetSymbols("abc(d), ef(g", "g") == ["g", "ef(g"]
  {
    StrippedExample2("abc(d), ef(g");
    SymbolsOfExample2("abc(d), ef(g");
  }

  lemma WalkExample3Tail(t: string)
    requires t == "abc(d), ef"
    ensures WalkFrom(t, 7) == Walk(-1, ["ef"])
  {
    assert WalkFrom(t, 9) == Walk(0, []) by { WalkStep(t, 9); }
    assert WalkFrom(t, 8) == Walk(0, []) by { WalkStep(t, 8); }
    assert t[8..] == "ef";
    WalkStep(t, 7);
  }

  lemma WalkExample3(t: string)
    requires t == "abc(d), ef"
    ensures WalkFrom(t, 4) == Walk(-2, ["ef"])
  {
    WalkExample3Tail(t);
    assert WalkFrom(t, 6) == Walk(-1, ["ef"]) by { WalkStep(t, 6); }
    assert WalkFrom(t, 5) == Walk(-2, ["ef"]) by { WalkStepQuiet(t, 5); }
    WalkStepQuiet(t, 4);
  }

  lemma SymbolsOfExample3(t: string)
    requires t == "abc(d), ef"
    ensures SymbolsOf(t) == ["ef"]
  {
    WalkExample3Head(t);
    assert WalkFrom(t, 1) == Walk(-1, ["ef"]) by { WalkStepQuiet(t, 1); }
    assert WalkFrom(t, 0) == Walk(-1, ["ef"]) by { WalkStepQuiet(t, 0); }
  }

  lemma WalkExample3Head(t: string)
    requires t == "abc(d), ef"
    ensures WalkFrom(t, 2) == Walk(-1, ["ef"])
  {
    WalkExample3(t);
    assert WalkFrom(t, 3) == Walk(-1, ["ef"]) by { WalkStepQuiet(t, 3); }
    WalkStepQuiet(t, 2);
  }

  lemma StrippedExample3(line: string)
    requires line == "abc(d), ef(g"
    ensures Stripped(line, "ef") == "abc(d), ef"
  {
    assert OccursAt(line, "ef", 8);
    forall i | 8 < i
      ensures !OccursAt(line, "ef", i)
    {
      if i + 2 <= |line| { assert line[i..i + 2][0] == line[i]; }
    }
    CutAtLast(line, "ef", 8);
    assert line[..10] == "abc(d), ef";
    StrippedUnchanged("abc(d), ef");
  }

  lemma GetSymbolsExample3()
    ensures GetSymbols("abc(d), ef(g", "ef") == ["ef"]
  {
    StrippedExample3("abc(d), ef(g");
    SymbolsOfExample3("abc(d), ef");
  }

  lemma StrippedExample4(line: string)
    requires line == "abc(d), ef(g"
    ensures Stripped(line, "d") == "abc(d"
  {
    assert OccursAt(line, "d", 4);
    forall i | 4 < i
      ensures !OccursAt(line, "d", i)
    {
      if i + 1 <= |line| { assert line[i..i + 1][0] == line[i]; }
    }
    CutAtLast(line, "d", 4);
    assert line[..5] == "abc(d";
    StrippedUnchanged("abc(d");
  }

  lemma GetSymbolsExample4()
    ensures GetSymbols("abc(d), ef(g", "d") == ["d", "abc(d"]
  {
    StrippedExample4("abc(d), ef(g");
    SymbolsOfExample1("abc(d");
  }
}
