/**
 `_printhelp_`: when the event line ends with `?` (definitions) or `??`
 (occurrences), the listing is walked line by line and the matching lines are
 printed, each with its line number and, for the first line of a match, the
 not yet terminated lines before it.  The output is the sequence of strings passed
 to `print` (each `print` adds one element; the newline `print` appends is not part
 of the element).

 The `else` branch of the per-symbol test belongs to the `if`, not to the `for`,
 so the preamble `begin_of_cmd` is updated once for every symbol that does not
 match before the first one that does (`UnmatchedSymbols` states what that does).
 */
module Help {
  import opened PyStr

  /** `line.replace('\n', '')` */
  function CleanLine(raw: string): string {
    RemoveChar(raw, '\n')
  }

  /** The code part of a line: `line` cut at its first `//`, then at its first slash-star
      comment opener, then stripped. */
  function PureLine(line: string): string {
    Strip(BeforeFirst(BeforeFirst(line, "//"), "/*"))
  }

  /** `(str(linenr) + ':').ljust(5) + line` */
  function LineOut(n: nat, line: string): (r: string)
    ensures EndsWith(r, line)
  {
    var r := LJust(NatToString(n) + ":", 5) + line;
    assert r[|r| - |line|..] == line;
    r
  }

  /** The printer's variables: `continue_incomplete_line`, `begin_of_cmd`, and what has
      been printed so far. */
  datatype HelpState = HelpState(cont: bool, begin: string, printed: seq<string>)

  /** The condition that makes `symbol` select the line. */
  predicate Selects(st: HelpState, deep: bool, line: string, pure: string, symbol: string) {
    (deep && Find(line, symbol, 0) != -1) || (StartsWith(pure, symbol) && st.begin == []) || st.cont
  }

  /** A non-blank line whose code does not end a clause. */
  predicate Unfinished(line: string, pure: string) {
    Strip(line) != [] && !EndsWith(pure, ".")
  }

  /** The preamble after a symbol fails to select the line. */
  function Unselected(st: HelpState, line: string, pure: string, out: string): HelpState {
    HelpState(st.cont, if Unfinished(line, pure) then st.begin + out + "\n" else [], st.printed)
  }

  /** The inner `for symbol in symbols` loop on one line. */
  function SymbolLoop(st: HelpState, deep: bool, line: string, pure: string, out: string,
                      symbols: seq<string>): HelpState
    decreases |symbols|
  {
    if symbols == [] then st
    else if Selects(st, deep, line, pure, symbols[0]) then
      HelpState(!EndsWith(pure, "."), st.begin,
                st.printed + [if st.cont then out else "\n" + st.begin + out])
    else
      SymbolLoop(Unselected(st, line, pure, out), deep, line, pure, out, symbols[1..])
  }

  /** One turn of the outer loop, on the `n`-th line of the listing. */
  function LineStep(st: HelpState, deep: bool, symbols: seq<string>, n: nat, raw: string): HelpState {
    var line := CleanLine(raw);
    SymbolLoop(st, deep, line, PureLine(line), LineOut(n, line), symbols)
  }

  /** The state after the first `k` lines of the listing; the printer never prints more
      than one element per listing line. */
  function HelpAfter(deep: bool, symbols: seq<string>, listing: seq<string>, k: nat): (r: HelpState)
    requires k <= |listing|
    ensures |r.printed| <= k
  {
    if k == 0 then HelpState(false, [], [])
    else
      var prev := HelpAfter(deep, symbols, listing, k - 1);
      LineStepAtMostOne(prev, deep, symbols, k, listing[k - 1]);
      LineStep(prev, deep, symbols, k, listing[k - 1])
  }

  /** What `_printhelp_(event_line, symbols)` prints over `listing`. */
  function HelpOutput(eventLine: string, symbols: seq<string>, listing: seq<string>): seq<string> {
    if EndsWith(eventLine, "?") then HelpAfter(EndsWith(eventLine, "??"), symbols, listing, |listing|).printed
    else []
  }

  /** On one line the printer prints at most once (the `break`); what it prints ends with
      the numbered line, and is the numbered line alone when it continues a clause.
      If it prints, `continue_incomplete_line` becomes "the code does not end with `.`";
      otherwise the flag is unchanged. */
  lemma {:induction false} SymbolLoopPrints(st: HelpState, deep: bool, line: string, pure: string,
                                            out: string, symbols: seq<string>)
    ensures var st' := SymbolLoop(st, deep, line, pure, out, symbols);
            (st'.printed == st.printed && st'.cont == st.cont)
            || (|st'.printed| == |st.printed| + 1 && st'.printed[..|st.printed|] == st.printed
                && EndsWith(st'.printed[|st.printed|], out)
                && (st.cont ==> st'.printed[|st.printed|] == out)
                && st'.cont == !EndsWith(pure, "."))
    decreases |symbols|
  {
    if symbols != [] && !Selects(st, deep, line, pure, symbols[0]) {
      SymbolLoopPrints(Unselected(st, line, pure, out), deep, line, pure, out, symbols[1..]);
    } else if symbols != [] {
      var x := if st.cont then out else "\n" + st.begin + out;
      assert x[|x| - |out|..] == out;
      assert (st.printed + [x])[..|st.printed|] == st.printed;
    }
  }

  /** One listing line adds at most one printed element. */
  lemma LineStepAtMostOne(st: HelpState, deep: bool, symbols: seq<string>, n: nat, raw: string)
    ensures |LineStep(st, deep, symbols, n, raw).printed| <= |st.printed| + 1
  {
    var line := CleanLine(raw);
    SymbolLoopPrints(st, deep, line, PureLine(line), LineOut(n, line), symbols);
  }

  /** Nothing is printed unless the event line ends with `?`, and at most one element per
      listing line. */
  lemma HelpOutputBound(eventLine: string, symbols: seq<string>, listing: seq<string>)
    ensures !EndsWith(eventLine, "?") ==> HelpOutput(eventLine, symbols, listing) == []
    ensures |HelpOutput(eventLine, symbols, listing)| <= |listing|
  {
  }

  /** With no symbols nothing is ever printed, and the printer's variables keep their
      initial values. */
  lemma {:induction false} HelpAfterNoSymbols(deep: bool, listing: seq<string>, k: nat)
    requires k <= |listing|
    ensures HelpAfter(deep, [], listing, k) == HelpState(false, [], [])
  {
    if k > 0 {
      HelpAfterNoSymbols(deep, listing, k - 1);
    }
  }

  lemma HelpOutputNoSymbols(eventLine: string, listing: seq<string>)
    ensures HelpOutput(eventLine, [], listing) == []
  {
    HelpAfterNoSymbols(EndsWith(eventLine, "??"), listing, |listing|);
  }

  /** Occurrences mode: a line containing any of the symbols is printed. */
  lemma {:induction false} OccurrencePrinted(st: HelpState, line: string, pure: string, out: string,
                                             symbols: seq<string>, j: nat)
    requires j < |symbols| && Find(line, symbols[j], 0) != -1
    ensures var st' := SymbolLoop(st, true, line, pure, out, symbols);
            |st'.printed| == |st.printed| + 1 && st'.printed[..|st.printed|] == st.printed
            && EndsWith(st'.printed[|st.printed|], out)
    decreases |symbols|
  {
    if Selects(st, true, line, pure, symbols[0]) {
      SymbolLoopPrints(st, true, line, pure, out, symbols);
    } else {
      assert j > 0;
      assert symbols[1..][j - 1] == symbols[j];
      OccurrencePrinted(Unselected(st, line, pure, out), line, pure, out, symbols[1..], j - 1);
    }
  }

  /** ... as a property of the whole listing: in `??` mode, the `n`-th listing line, if it
      contains a symbol, adds one printed element ending with `(str(n)+':').ljust(5)+line`. */
  lemma {:induction false} OccurrenceListed(symbols: seq<string>, listing: seq<string>, n: nat, j: nat)
    requires 1 <= n <= |listing| && j < |symbols|
    requires Find(CleanLine(listing[n - 1]), symbols[j], 0) != -1
    ensures var before := HelpAfter(true, symbols, listing, n - 1).printed;
            var after := HelpAfter(true, symbols, listing, n).printed;
            |after| == |before| + 1 && after[..|before|] == before
            && EndsWith(after[|before|], LineOut(n, CleanLine(listing[n - 1])))
  {
    var line := CleanLine(listing[n - 1]);
    OccurrencePrinted(HelpAfter(true, symbols, listing, n - 1), line, PureLine(line), LineOut(n, line), symbols, j);
  }

  /** Definitions mode: a printed line is a continuation, or its code starts with one
      of the symbols. */
  lemma {:induction false} DefinitionPrinted(st: HelpState, line: string, pure: string, out: string,
                                             symbols: seq<string>)
    requires |SymbolLoop(st, false, line, pure, out, symbols).printed| > |st.printed|
    ensures st.cont || exists j :: 0 <= j < |symbols| && StartsWith(pure, symbols[j])
    decreases |symbols|
  {
    if !Selects(st, false, line, pure, symbols[0]) {
      DefinitionPrinted(Unselected(st, line, pure, out), line, pure, out, symbols[1..]);
      if !st.cont {
        var j :| 0 <= j < |symbols[1..]| && StartsWith(pure, symbols[1..][j]);
        assert symbols[j + 1] == symbols[1..][j];
      }
    }
  }

  /** The `k`-th listing line printed an element. */
  predicate LinePrinted(deep: bool, symbols: seq<string>, listing: seq<string>, k: nat)
    requires 1 <= k <= |listing|
  {
    |HelpAfter(deep, symbols, listing, k).printed| == |HelpAfter(deep, symbols, listing, k - 1).printed| + 1
  }

  /** The code of a listing line starts with one of the symbols. */
  predicate LedBySymbol(raw: string, symbols: seq<string>) {
    exists j :: 0 <= j < |symbols| && StartsWith(PureLine(CleanLine(raw)), symbols[j])
  }

  /** `continue_incomplete_line` is set after the `k`-th listing line only when that line
      printed and its code does not end with `.`. */
  lemma {:induction false} ContinuationSource(deep: bool, symbols: seq<string>, listing: seq<string>, k: nat)
    requires 1 <= k <= |listing|
    ensures HelpAfter(deep, symbols, listing, k).cont ==>
              LinePrinted(deep, symbols, listing, k) && !EndsWith(PureLine(CleanLine(listing[k - 1])), ".")
  {
    var prev := HelpAfter(deep, symbols, listing, k - 1);
    var line := CleanLine(listing[k - 1]);
    SymbolLoopPrints(prev, deep, line, PureLine(line), LineOut(k, line), symbols);
    if symbols == [] {
      HelpAfterNoSymbols(deep, listing, k);
    } else if prev.cont {
      assert Selects(prev, deep, line, PureLine(line), symbols[0]);
    }
  }

  /** Definitions mode over the whole listing: a line that prints either has code that
      starts with one of the symbols, or directly follows a printed line whose code does
      not end with `.`, and then is printed as its numbered line alone. */
  lemma {:induction false} DefinitionListed(symbols: seq<string>, listing: seq<string>, n: nat)
    requires 1 <= n <= |listing| && LinePrinted(false, symbols, listing, n)
    ensures LedBySymbol(listing[n - 1], symbols)
            || (2 <= n && LinePrinted(false, symbols, listing, n - 1)
                && !EndsWith(PureLine(CleanLine(listing[n - 2])), ".")
                && HelpAfter(false, symbols, listing, n).printed[|HelpAfter(false, symbols, listing, n - 1).printed|]
                   == LineOut(n, CleanLine(listing[n - 1])))
  {
    var printed := n >= 2 && LinePrinted(false, symbols, listing, n - 1);
    var unfinished := n >= 2 && !EndsWith(PureLine(CleanLine(listing[n - 2])), ".");
    ContinuationBefore(false, symbols, listing, n);
    HelpAfterStep(false, symbols, listing, n);
    DefinitionCombine(HelpAfter(false, symbols, listing, n - 1), HelpAfter(false, symbols, listing, n),
                      symbols, listing[n - 1], n, printed, unfinished);
  }

  /** `ContinuationSource` for the line before the `n`-th. */
  lemma {:induction false} ContinuationBefore(deep: bool, symbols: seq<string>, listing: seq<string>, n: nat)
    requires 1 <= n <= |listing|
    ensures HelpAfter(deep, symbols, listing, n - 1).cont ==>
              n >= 2 && LinePrinted(deep, symbols, listing, n - 1)
              && !EndsWith(PureLine(CleanLine(listing[n - 2])), ".")
  {
    if n >= 2 {
      ContinuationSource(deep, symbols, listing, n - 1);
    } else {
      assert HelpAfter(deep, symbols, listing, 0) == HelpState(false, [], []);
    }
  }

  /** `HelpAfter` one line further is one more `LineStep`. */
  lemma {:induction false} HelpAfterStep(deep: bool, symbols: seq<string>, listing: seq<string>, k: nat)
    requires 1 <= k <= |listing|
    ensures HelpAfter(deep, symbols, listing, k) == LineStep(HelpAfter(deep, symbols, listing, k - 1), deep, symbols, k, listing[k - 1])
  {
  }

  /** `DefinitionStep` on the `n`-th listing line, with what is known of the line before. */
  lemma DefinitionCombine(prev: HelpState, after: HelpState, symbols: seq<string>, raw: string, n: nat,
                          prevPrinted: bool, prevUnfinished: bool)
    requires after == LineStep(prev, false, symbols, n, raw)
    requires |after.printed| == |prev.printed| + 1
    requires prev.cont ==> prevPrinted && prevUnfinished
    ensures LedBySymbol(raw, symbols)
            || (prevPrinted && prevUnfinished && after.printed[|prev.printed|] == LineOut(n, CleanLine(raw)))
  {
    var line := CleanLine(raw);
    DefinitionStep(prev, line, PureLine(line), LineOut(n, line), symbols);
  }

  /** One line in definitions mode: what prints is led by a symbol, or continues a clause
      and is the numbered line alone. */
  lemma DefinitionStep(st: HelpState, line: string, pure: string, out: string, symbols: seq<string>)
    requires |SymbolLoop(st, false, line, pure, out, symbols).printed| > |st.printed|
    ensures (exists j :: 0 <= j < |symbols| && StartsWith(pure, symbols[j]))
            || (st.cont && SymbolLoop(st, false, line, pure, out, symbols).printed[|st.printed|] == out)
  {
    if st.cont {
      SymbolLoopPrints(st, false, line, pure, out, symbols);
    } else {
      DefinitionPrinted(st, line, pure, out, symbols);
    }
  }

  /** In definitions mode the preamble is empty while a clause is being continued, and
      a print leaves it empty; after a line whose code ends with `.` no clause is open
      and the preamble is empty. */
  lemma {:induction false} DefinitionPreamble(st: HelpState, line: string, pure: string, out: string,
                                              symbols: seq<string>)
    requires st.cont ==> st.begin == []
    ensures var st' := SymbolLoop(st, false, line, pure, out, symbols);
            (st'.cont ==> st'.begin == [])
            && (|st'.printed| > |st.printed| ==> st'.begin == [])
            && (symbols != [] && EndsWith(pure, ".") ==> !st'.cont && st'.begin == [])
    decreases |symbols|
  {
    if symbols != [] && !Selects(st, false, line, pure, symbols[0]) {
      var st1 := Unselected(st, line, pure, out);
      DefinitionPreamble(st1, line, pure, out, symbols[1..]);
      if symbols[1..] == [] {
        assert SymbolLoop(st1, false, line, pure, out, symbols[1..]) == st1;
      }
    }
  }

  /** A clause being continued has no preamble. */
  predicate NoPreamble(st: HelpState) {
    st.cont ==> st.begin == []
  }

  /** ... over the listing: in definitions mode an open clause never has a preamble. */
  lemma {:induction false} DefinitionState(symbols: seq<string>, listing: seq<string>, k: nat)
    requires k <= |listing|
    ensures NoPreamble(HelpAfter(false, symbols, listing, k))
  {
    if k > 0 {
      DefinitionState(symbols, listing, k - 1);
      PreambleCarried(symbols, listing, k);
    }
  }

  /** `DefinitionPreamble` on the `k`-th listing line. */
  lemma {:induction false} PreambleCarried(symbols: seq<string>, listing: seq<string>, k: nat)
    requires 1 <= k <= |listing|
    requires NoPreamble(HelpAfter(false, symbols, listing, k - 1))
    ensures NoPreamble(HelpAfter(false, symbols, listing, k))
  {
    var line := CleanLine(listing[k - 1]);
    HelpAfterStep(false, symbols, listing, k);
    DefinitionPreamble(HelpAfter(false, symbols, listing, k - 1), line, PureLine(line), LineOut(k, line), symbols);
  }

  /** Definitions mode, where "all rules with symbol as start of head" holds: with no open
      clause and an empty preamble, a line whose code starts with the `j`-th symbol and with
      no earlier one is printed after a blank line, when that is the first symbol or the
      line is not an unfinished head (`UnfinishedHeadMissed` shows the other case). */
  lemma {:induction false} DefinitionFound(st: HelpState, line: string, pure: string, out: string,
                                           symbols: seq<string>, j: nat)
    requires !st.cont && st.begin == []
    requires j < |symbols| && StartsWith(pure, symbols[j])
    requires forall i :: 0 <= i < j ==> !StartsWith(pure, symbols[i])
    requires j == 0 || !Unfinished(line, pure)
    ensures SymbolLoop(st, false, line, pure, out, symbols) ==
              HelpState(!EndsWith(pure, "."), [], st.printed + ["\n" + out])
    decreases j
  {
    if j == 0 {
      assert Selects(st, false, line, pure, symbols[0]);
      assert "\n" + st.begin + out == "\n" + out;
    } else {
      assert !Selects(st, false, line, pure, symbols[0]);
      assert Unselected(st, line, pure, out) == st;
      var rest := symbols[1..];
      assert rest[j - 1] == symbols[j];
      forall i | 0 <= i < j - 1
        ensures !StartsWith(pure, rest[i])
      {
        assert rest[i] == symbols[i + 1];
      }
      DefinitionFound(st, line, pure, out, rest, j - 1);
    }
  }

  /** ... over the listing: the `n`-th line, following the first line or a line whose code
      ends with `.`, is printed after a blank line as its numbered line when its code starts
      with the `j`-th symbol and with no earlier one, and `j` is 0 or the line is not an
      unfinished head. */
  lemma {:induction false} DefinitionComplete(symbols: seq<string>, listing: seq<string>, n: nat, j: nat)
    requires 1 <= n <= |listing| && j < |symbols|
    requires n == 1 || EndsWith(PureLine(CleanLine(listing[n - 2])), ".")
    requires StartsWith(PureLine(CleanLine(listing[n - 1])), symbols[j])
    requires forall i :: 0 <= i < j ==> !StartsWith(PureLine(CleanLine(listing[n - 1])), symbols[i])
    requires j == 0 || !Unfinished(CleanLine(listing[n - 1]), PureLine(CleanLine(listing[n - 1])))
    ensures HelpAfter(false, symbols, listing, n).printed ==
              HelpAfter(false, symbols, listing, n - 1).printed + ["\n" + LineOut(n, CleanLine(listing[n - 1]))]
  {
    if n >= 2 {
      DefinitionState(symbols, listing, n - 2);
      var before := CleanLine(listing[n - 2]);
      DefinitionPreamble(HelpAfter(false, symbols, listing, n - 2), before, PureLine(before),
                         LineOut(n - 1, before), symbols);
    }
    var line := CleanLine(listing[n - 1]);
    DefinitionFound(HelpAfter(false, symbols, listing, n - 1), line, PureLine(line), LineOut(n, line), symbols, j);
  }

  /** `s` repeated `n` times. */
  function Repeat(s: string, n: nat): (r: string)
    ensures |r| == n * |s|
  {
    if n == 0 then [] else s + Repeat(s, n - 1)
  }

  /** When no symbol selects a non-blank line whose code does not end with `.`, its
      numbered line is appended to the preamble once per symbol; when the line is blank
      or ends a clause the preamble is cleared.  (Reproduces the `else` placement.) */
  lemma {:induction false} UnmatchedSymbols(st: HelpState, deep: bool, line: string, pure: string,
                                            out: string, symbols: seq<string>)
    requires !st.cont && NoneMatches(deep, line, pure, symbols)
    ensures var st' := SymbolLoop(st, deep, line, pure, out, symbols);
            st'.printed == st.printed && !st'.cont
            && st'.begin == if symbols == [] then st.begin
                            else if Unfinished(line, pure)
                            then st.begin + Repeat(out + "\n", |symbols|)
                            else []
    decreases |symbols|
  {
    if symbols != [] {
      var st1 := Unselected(st, line, pure, out);
      var rest := symbols[1..];
      assert !Selects(st, deep, line, pure, symbols[0]) && NoneMatches(deep, line, pure, rest);
      assert SymbolLoop(st, deep, line, pure, out, symbols) == SymbolLoop(st1, deep, line, pure, out, rest);
      var r := SymbolLoop(st1, deep, line, pure, out, rest);
      UnmatchedSymbols(st1, deep, line, pure, out, rest);
      PreambleGrows(st.begin, st1.begin, out + "\n", |symbols|, Unfinished(line, pure), r.begin);
    }
  }

  /** No symbol occurs in the line (in `??` mode) or starts its code. */
  predicate NoneMatches(deep: bool, line: string, pure: string, symbols: seq<string>)
    decreases |symbols|
  {
    symbols == []
    || (!(deep && Find(line, symbols[0], 0) != -1) && !StartsWith(pure, symbols[0])
        && NoneMatches(deep, line, pure, symbols[1..]))
  }

  lemma {:induction false} NoneMatchesSpec(deep: bool, line: string, pure: string, symbols: seq<string>)
    ensures NoneMatches(deep, line, pure, symbols) <==>
              forall j :: 0 <= j < |symbols| ==>
                !(deep && Find(line, symbols[j], 0) != -1) && !StartsWith(pure, symbols[j])
    decreases |symbols|
  {
    if symbols != [] {
      NoneMatchesSpec(deep, line, pure, symbols[1..]);
      assert forall j :: 0 < j < |symbols| ==> symbols[j] == symbols[1..][j - 1];
    }
  }

  /** The preamble after `n` unmatched symbols, from the preamble `b1` after the first. */
  lemma PreambleGrows(b0: string, b1: string, unit: string, n: nat, grows: bool, r: string)
    requires n >= 1
    requires b1 == if grows then b0 + unit else []
    requires r == if n == 1 then b1 else if grows then b1 + Repeat(unit, n - 1) else []
    ensures r == if grows then b0 + Repeat(unit, n) else []
  {
    if grows {
      assert Repeat(unit, n) == unit + Repeat(unit, n - 1);
      if n > 1 {
        AppendAssoc(b0, unit, Repeat(unit, n - 1));
      } else {
        assert Repeat(unit, 0) == [];
        assert unit + [] == unit;
      }
    }
  }

  /** One turn of the inner loop, on the `j`-th symbol. */
  lemma SymbolLoopAt(st: HelpState, deep: bool, line: string, pure: string, out: string,
                     symbols: seq<string>, j: nat)
    requires j < |symbols|
    ensures SymbolLoop(st, deep, line, pure, out, symbols[j..]) ==
              if Selects(st, deep, line, pure, symbols[j]) then
                HelpState(!EndsWith(pure, "."), st.begin,
                          st.printed + [if st.cont then out else "\n" + st.begin + out])
              else SymbolLoop(Unselected(st, line, pure, out), deep, line, pure, out, symbols[j + 1..])
  {
    assert symbols[j..][0] == symbols[j];
    assert symbols[j..][1..] == symbols[j + 1..];
  }

  /** `_printhelp_` as the Python loops compute it. */
  method PrintHelp(eventLine: string, symbols: seq<string>, listing: seq<string>) returns (printed: seq<string>)
    ensures printed == HelpOutput(eventLine, symbols, listing)
  {
    printed := [];
    if EndsWith(eventLine, "?") {
      var deep := EndsWith(eventLine, "??");
      var cont := false;
      var begin := "";
      var linenr := 0;
      for li := 0 to |listing|
        invariant linenr == li
        invariant HelpState(cont, begin, printed) == HelpAfter(deep, symbols, listing, li)
      {
        linenr := linenr + 1;
        var line := RemoveChar(listing[li], '\n');
        var pure := Strip(BeforeFirst(BeforeFirst(line, "//"), "/*"));
        var lineOut := LJust(NatToString(linenr) + ":", 5) + line;
        assert lineOut == LineOut(linenr, line);
        cont, begin, printed := MatchLine(cont, begin, printed, deep, line, pure, lineOut, symbols);
      }
    }
  }

  /** The inner loop of `_printhelp_`, over the symbols, on one listing line. */
  method MatchLine(cont0: bool, begin0: string, printed0: seq<string>, deep: bool,
                   line: string, pure: string, lineOut: string, symbols: seq<string>)
    returns (cont: bool, begin: string, printed: seq<string>)
    ensures HelpState(cont, begin, printed) ==
            SymbolLoop(HelpState(cont0, begin0, printed0), deep, line, pure, lineOut, symbols)
  {
    cont, begin, printed := cont0, begin0, printed0;
    ghost var target := SymbolLoop(HelpState(cont, begin, printed), deep, line, pure, lineOut, symbols);
    for j := 0 to |symbols|
      invariant SymbolLoop(HelpState(cont, begin, printed), deep, line, pure, lineOut, symbols[j..]) == target
    {
      var symbol := symbols[j];
      SymbolLoopAt(HelpState(cont, begin, printed), deep, line, pure, lineOut, symbols, j);
      if (deep && Find(line, symbol, 0) != -1) || (StartsWith(pure, symbol) && begin == "") || cont {
        if !cont {
          printed := printed + ["\n" + begin + lineOut];
        } else {
          printed := printed + [lineOut];
        }
        cont := !EndsWith(pure, ".");
        return;
      } else {
        if Strip(line) != "" && !EndsWith(pure, ".") {
          begin := begin + lineOut + "\n";
        } else {
          begin := "";
        }
      }
    }
  }

  /** One line of the docstring example: a line containing `d`, with no comment, ending
      with `.`, printed with a blank line before it and its number. */
  lemma ExampleLine(st: HelpState, symbols: seq<string>, n: nat, l: string)
    requires !st.cont && st.begin == []
    requires |symbols| > 0 && symbols[0] == "d"
    requires 5 <= |l| && l[4] == 'd' && l[0] == 'a' && l[|l| - 1] == '.'
    requires '\n' !in l && '/' !in l
    ensures LineStep(st, true, symbols, n, l) ==
            HelpState(false, [], st.printed + ["\n" + LineOut(n, l)])
  {
    RemoveCharAbsent(l, '\n');
    BeforeFirstAbsent(l, "//");
    BeforeFirstAbsent(l, "/*");
    StripUnchanged(l);
    assert OccursAt(l, "d", 4);
    assert EndsWith(l, ".");
    assert "\n" + [] + LineOut(n, l) == "\n" + LineOut(n, l);
  }

  /** In occurrences mode, a complete clause line holding the first symbol is printed after
      a blank line, whatever the other symbols. */
  lemma {:induction false} FoundLine(st: HelpState, symbols: seq<string>, n: nat, l: string)
    requires !st.cont && st.begin == []
    requires |symbols| > 0 && Find(l, symbols[0], 0) != -1
    requires l != [] && !IsSpace(l[0]) && l[|l| - 1] == '.'
    requires '\n' !in l && '/' !in l
    ensures LineStep(st, true, symbols, n, l) ==
            HelpState(false, [], st.printed + ["\n" + LineOut(n, l)])
  {
    CompleteLine(l);
    FoundStep(st, l, l, LineOut(n, l), symbols);
  }

  lemma {:induction false} FoundStep(st: HelpState, line: string, pure: string, out: string, symbols: seq<string>)
    requires !st.cont && st.begin == []
    requires |symbols| > 0 && Find(line, symbols[0], 0) != -1 && EndsWith(pure, ".")
    ensures SymbolLoop(st, true, line, pure, out, symbols) == HelpState(false, [], st.printed + ["\n" + out])
  {
    assert Selects(st, true, line, pure, symbols[0]);
    assert "\n" + st.begin + out == "\n" + out;
  }

  /** In occurrences mode, a complete clause line holding neither of two symbols and
      starting with neither leaves the printer as it was. */
  lemma {:induction false} MissedLine(st: HelpState, s1: string, s2: string, n: nat, l: string)
    requires !st.cont && st.begin == []
    requires Find(l, s1, 0) == -1 && Find(l, s2, 0) == -1
    requires !StartsWith(l, s1) && !StartsWith(l, s2)
    requires l != [] && !IsSpace(l[0]) && l[|l| - 1] == '.'
    requires '\n' !in l && '/' !in l
    ensures LineStep(st, true, [s1, s2], n, l) == st
  {
    CompleteLine(l);
    MissedStep(st, l, l, LineOut(n, l), s1, s2);
  }

  lemma {:induction false} MissedStep(st: HelpState, line: string, pure: string, out: string, s1: string, s2: string)
    requires !st.cont && st.begin == []
    requires Find(line, s1, 0) == -1 && Find(line, s2, 0) == -1
    requires !StartsWith(pure, s1) && !StartsWith(pure, s2) && EndsWith(pure, ".")
    ensures SymbolLoop(st, true, line, pure, out, [s1, s2]) == st
  {
    assert !Selects(st, true, line, pure, s1) && !Selects(st, true, line, pure, s2);
    assert !Unfinished(line, pure);
    assert Unselected(st, line, pure, out) == st;
    assert [s1, s2][1..] == [s2] && [s2][1..] == [];
    assert SymbolLoop(st, true, line, pure, out, [s2]) == SymbolLoop(st, true, line, pure, out, []);
  }

  /** A line without line breaks or slashes, stripped and ending a clause, is its own code. */
  lemma {:induction false} CompleteLine(l: string)
    requires l != [] && !IsSpace(l[0]) && l[|l| - 1] == '.'
    requires '\n' !in l && '/' !in l
    ensures CleanLine(l) == l && PureLine(l) == l && EndsWith(l, ".") && Strip(l) == l
  {
    RemoveCharAbsent(l, '\n');
    BeforeFirstAbsent(l, "//");
    BeforeFirstAbsent(l, "/*");
    StripUnchanged(l);
  }

  /** The first two numbered lines, after their blank line. */
  lemma LineOutFirstTwo(l: string)
    ensures "\n" + LineOut(1, l) == "\n1:   " + l
    ensures "\n" + LineOut(2, l) == "\n2:   " + l
  {
    assert NatToString(1) == "1" && NatToString(2) == "2";
    assert LJust("1:", 5) == "1:   " && LJust("2:", 5) == "2:   ";
  }

  /** The two lines of the docstring example are of the kind `ExampleLine` describes. */
  lemma ExampleLineFacts(l: string)
    requires l == "abc(de(f),?A) :- gh(?A)." || l == "abc(de(?A)) :- (de(g), abc(?A))."
    ensures 5 <= |l| && l[4] == 'd' && l[0] == 'a' && l[|l| - 1] == '.'
    ensures '\n' !in l && '/' !in l
  {
    if l == "abc(de(f),?A) :- gh(?A)." {
      FirstLineFacts(l);
    } else {
      SecondLineFacts(l);
    }
  }

  lemma FirstLineFacts(l: string)
    requires l == "abc(de(f),?A) :- gh(?A)."
    ensures 5 <= |l| && l[4] == 'd' && l[0] == 'a' && l[|l| - 1] == '.'
    ensures '\n' !in l && '/' !in l
  {
  }

  lemma SecondLineFacts(l: string)
    requires l == "abc(de(?A)) :- (de(g), abc(?A))."
    ensures 5 <= |l| && l[4] == 'd' && l[0] == 'a' && l[|l| - 1] == '.'
    ensures '\n' !in l && '/' !in l
  {
  }

  /** A two-line listing whose lines are both of the kind `ExampleLine` describes, in
      occurrences mode: both lines are printed, each after a blank line and numbered. */
  lemma TwoExampleLines(eventLine: string, symbols: seq<string>, l1: string, l2: string)
    requires EndsWith(eventLine, "?") && EndsWith(eventLine, "??")
    requires |symbols| > 0 && symbols[0] == "d"
    requires 5 <= |l1| && l1[4] == 'd' && l1[0] == 'a' && l1[|l1| - 1] == '.'
    requires '\n' !in l1 && '/' !in l1
    requires 5 <= |l2| && l2[4] == 'd' && l2[0] == 'a' && l2[|l2| - 1] == '.'
    requires '\n' !in l2 && '/' !in l2
    ensures HelpOutput(eventLine, symbols, [l1, l2]) == ["\n" + LineOut(1, l1), "\n" + LineOut(2, l2)]
  {
    var listing := [l1, l2];
    var o1 := "\n" + LineOut(1, l1);
    assert HelpAfter(true, symbols, listing, 1) == HelpState(false, [], [o1]) by {
      ExampleLine(HelpState(false, [], []), symbols, 1, l1);
    }
    ExampleLine(HelpState(false, [], [o1]), symbols, 2, l2);
  }

  /** A two-line listing in occurrences mode whose first line holds the first of two
      symbols and whose second line holds and starts with neither: only the first line is
      printed. */
  lemma {:induction false} FoundThenMissed(eventLine: string, s1: string, s2: string, l1: string, l2: string)
    requires EndsWith(eventLine, "?") && EndsWith(eventLine, "??")
    requires Find(l1, s1, 0) != -1
    requires l1 != [] && !IsSpace(l1[0]) && l1[|l1| - 1] == '.' && '\n' !in l1 && '/' !in l1
    requires Find(l2, s1, 0) == -1 && Find(l2, s2, 0) == -1
    requires !StartsWith(l2, s1) && !StartsWith(l2, s2)
    requires l2 != [] && !IsSpace(l2[0]) && l2[|l2| - 1] == '.' && '\n' !in l2 && '/' !in l2
    ensures HelpOutput(eventLine, [s1, s2], [l1, l2]) == ["\n" + LineOut(1, l1)]
  {
    var o1 := "\n" + LineOut(1, l1);
    assert HelpAfter(true, [s1, s2], [l1, l2], 1) == HelpState(false, [], [o1]) by {
      FoundLine(HelpState(false, [], []), [s1, s2], 1, l1);
    }
    MissedLine(HelpState(false, [], [o1]), s1, s2, 2, l2);
  }

  lemma {:induction false} GhFirstLine(l: string)
    requires l == "abc(de(f),?A) :- gh(?A)."
    ensures Find(l, "gh", 0) != -1
  {
    assert OccursAt(l, "gh", 17);
  }

  lemma {:induction false} GhSecondLine(l: string)
    requires l == "abc(de(?A)) :- (de(g), abc(?A))."
    ensures Find(l, "gh", 0) == -1 && Find(l, "z(gh", 0) == -1
    ensures !StartsWith(l, "gh") && !StartsWith(l, "z(gh")
  {
    assert 'h' !in l && 'z' !in l;
    FindAbsent(l, "gh", 1, 0);
    FindAbsent(l, "z(gh", 0, 0);
    assert l[0] == 'a';
  }

  /** The help example of `completer_flora`: with the two-line listing, `'z(gh??'` and
      the symbols `['gh', 'z(gh']`, only the first line is printed. */
  lemma {:induction false} HelpOutputExampleGh(l1: string, l2: string)
    requires l1 == "abc(de(f),?A) :- gh(?A)."
    requires l2 == "abc(de(?A)) :- (de(g), abc(?A))."
    ensures HelpOutput("z(gh??", ["gh", "z(gh"], [l1, l2]) == ["\n1:   " + l1]
  {
    var e := "z(gh??";
    assert e[|e| - 2..] == "??";
    FirstLineFacts(l1);
    SecondLineFacts(l2);
    GhFirstLine(l1);
    GhSecondLine(l2);
    FoundThenMissed(e, "gh", "z(gh", l1, l2);
    LineOutFirstTwo(l1);
  }

  lemma ExampleEventLine(e: string)
    requires e == "?- d??"
    ensures EndsWith(e, "?") && EndsWith(e, "??")
  {
    assert e[|e| - 2..] == "??";
  }

  /** The docstring example: with the two-line listing, `'?- d??'` and the symbols
      `['d', 'abc(d']`, both lines are printed, each after a blank line and numbered. */
  lemma HelpOutputExample(l1: string, l2: string)
    requires l1 == "abc(de(f),?A) :- gh(?A)."
    requires l2 == "abc(de(?A)) :- (de(g), abc(?A))."
    ensures HelpOutput("?- d??", ["d", "abc(d"], [l1, l2]) == ["\n1:   " + l1, "\n2:   " + l2]
  {
    ExampleLineFacts(l1);
    ExampleLineFacts(l2);
    ExampleEventLine("?- d??");
    TwoExampleLines("?- d??", ["d", "abc(d"], l1, l2);
    LineOutFirstTwo(l1);
    LineOutFirstTwo(l2);
  }

  /** A line without line breaks or slashes that starts and ends with a non-space is its
      own code. */
  lemma {:induction false} PlainLine(l: string)
    requires l != [] && !IsSpace(l[0]) && !IsSpace(l[|l| - 1])
    requires '\n' !in l && '/' !in l
    ensures CleanLine(l) == l && PureLine(l) == l && Strip(l) == l
  {
    RemoveCharAbsent(l, '\n');
    BeforeFirstAbsent(l, "//");
    BeforeFirstAbsent(l, "/*");
    StripUnchanged(l);
  }

  /** The first three numbered lines. */
  lemma LineOutNumbers(l: string)
    ensures LineOut(1, l) == "1:   " + l && LineOut(2, l) == "2:   " + l && LineOut(3, l) == "3:   " + l
  {
    assert NatToString(1) == "1" && NatToString(2) == "2" && NatToString(3) == "3";
    assert LJust("1:", 5) == "1:   " && LJust("2:", 5) == "2:   " && LJust("3:", 5) == "3:   ";
  }

  /** A clause that is being continued takes the next line, printed as its numbered line
      alone. */
  lemma ContinuedLine(st: HelpState, deep: bool, line: string, pure: string, out: string, symbols: seq<string>)
    requires st.cont && symbols != []
    ensures SymbolLoop(st, deep, line, pure, out, symbols) ==
              HelpState(!EndsWith(pure, "."), st.begin, st.printed + [out])
  {
    assert Selects(st, deep, line, pure, symbols[0]);
  }

  // The inner loop as written has two defects; `IntendedLoop` below is the loop as
  // evidently intended.

  /** As written, definitions mode misses a rule head spread over lines when a symbol
      before the one the head starts with fails first: that symbol's `else` puts the head
      into the preamble, and the non-empty preamble then blocks the next symbol. */
  lemma {:induction false} UnfinishedHeadMissed(st: HelpState, line: string, pure: string, out: string,
                                                s1: string, s2: string)
    requires !st.cont && st.begin == []
    requires Unfinished(line, pure) && !StartsWith(pure, s1) && StartsWith(pure, s2)
    ensures SymbolLoop(st, false, line, pure, out, [s1, s2]) ==
              HelpState(false, out + "\n" + out + "\n", st.printed)
  {
    var st1 := Unselected(st, line, pure, out);
    assert st1.begin == out + "\n";
    assert !Selects(st1, false, line, pure, s2);
    assert [s1, s2][1..] == [s2] && [s2][1..] == [];
    assert SymbolLoop(st1, false, line, pure, out, [s2]) ==
           SymbolLoop(Unselected(st1, line, pure, out), false, line, pure, out, []);
  }

  /** In definitions mode, a line whose code ends with `.` and starts with neither of two
      symbols prints nothing and clears the preamble. */
  lemma {:induction false} ClauseEndSkipped(st: HelpState, line: string, pure: string, out: string,
                                            s1: string, s2: string)
    requires !st.cont && !StartsWith(pure, s1) && !StartsWith(pure, s2) && EndsWith(pure, ".")
    ensures SymbolLoop(st, false, line, pure, out, [s1, s2]) == HelpState(false, [], st.printed)
  {
    assert !Unfinished(line, pure);
    var st1 := Unselected(st, line, pure, out);
    assert st1 == HelpState(false, [], st.printed);
    assert [s1, s2][1..] == [s2] && [s2][1..] == [];
    assert SymbolLoop(st1, false, line, pure, out, [s2]) == SymbolLoop(st1, false, line, pure, out, []);
  }

  lemma {:induction false} SplitHeadFirst(l: string)
    requires l == "abc(de(f),?A) :-"
    ensures CleanLine(l) == l && PureLine(l) == l && Unfinished(l, l)
    ensures StartsWith(l, "abc(d") && !StartsWith(l, "d")
  {
    PlainLine(l);
    assert l[..5] == "abc(d" && l[0] == 'a';
  }

  lemma {:induction false} SplitHeadSecond(l: string)
    requires l == "gh(?A)."
    ensures CleanLine(l) == l && PureLine(l) == l && EndsWith(l, ".")
    ensures !StartsWith(l, "d") && !StartsWith(l, "abc(d")
  {
    PlainLine(l);
    assert l[0] == 'g';
  }

  /** The state after the `k`-th line, a line that is its own code, from the state before it. */
  lemma {:induction false} HelpAfterNext(deep: bool, symbols: seq<string>, listing: seq<string>, k: nat,
                                         st: HelpState, l: string, st': HelpState)
    requires 1 <= k <= |listing| && HelpAfter(deep, symbols, listing, k - 1) == st && listing[k - 1] == l
    requires CleanLine(l) == l && PureLine(l) == l
    requires SymbolLoop(st, deep, l, l, LineOut(k, l), symbols) == st'
    ensures HelpAfter(deep, symbols, listing, k) == st'
  {
  }

  /** A rule head line that starts with the second of two symbols and not the first,
      followed by a line that ends the clause and starts with neither: with both symbols
      definitions mode prints nothing. */
  lemma {:induction false} SplitHeadMissed(s1: string, s2: string, l1: string, l2: string)
    requires CleanLine(l1) == l1 && PureLine(l1) == l1 && Unfinished(l1, l1)
    requires !StartsWith(l1, s1) && StartsWith(l1, s2)
    requires CleanLine(l2) == l2 && PureLine(l2) == l2 && EndsWith(l2, ".")
    requires !StartsWith(l2, s1) && !StartsWith(l2, s2)
    ensures HelpAfter(false, [s1, s2], [l1, l2], 2).printed == []
  {
    var listing, symbols := [l1, l2], [s1, s2];
    var init := HelpState(false, [], []);
    var o1 := LineOut(1, l1);
    var held := HelpState(false, o1 + "\n" + o1 + "\n", []);
    UnfinishedHeadMissed(init, l1, l1, o1, s1, s2);
    HelpAfterNext(false, symbols, listing, 1, init, l1, held);
    ClauseEndSkipped(held, l2, l2, LineOut(2, l2), s1, s2);
    HelpAfterNext(false, symbols, listing, 2, held, l2, HelpState(false, [], []));
  }

  /** ... and with the second symbol alone it prints the rule. */
  lemma {:induction false} SplitHeadPrinted(s: string, l1: string, l2: string)
    requires CleanLine(l1) == l1 && PureLine(l1) == l1 && !EndsWith(l1, ".") && StartsWith(l1, s)
    requires CleanLine(l2) == l2 && PureLine(l2) == l2
    ensures HelpAfter(false, [s], [l1, l2], 2).printed == ["\n" + LineOut(1, l1), LineOut(2, l2)]
  {
    var listing := [l1, l2];
    var init := HelpState(false, [], []);
    var o1 := LineOut(1, l1);
    var open := HelpState(true, [], ["\n" + o1]);
    DefinitionFound(init, l1, l1, o1, [s], 0);
    HelpAfterNext(false, [s], listing, 1, init, l1, open);
    ContinuedLine(open, false, l2, l2, LineOut(2, l2), [s]);
    HelpAfterNext(false, [s], listing, 2, open, l2, HelpState(!EndsWith(l2, "."), [], open.printed + [LineOut(2, l2)]));
    PrintedPair(open.printed, "\n" + o1, LineOut(2, l2));
  }

  lemma {:induction false} DefinitionsEvent(e: string)
    requires e == "abc(d?"
    ensures EndsWith(e, "?") && !EndsWith(e, "??")
  {
    assert e[|e| - 1..] == "?" && e[|e| - 2..] == "d?";
  }

  /** The rule `abc(de(f),?A) :-` / `gh(?A).` starts with `abc(d`.  With the symbols
      `['d', 'abc(d']` that `_getsymbols_` gives for `abc(d`, `?` prints nothing; with
      `['abc(d']` alone it prints the rule. */
  lemma {:induction false} SplitHeadExample(l1: string, l2: string)
    requires l1 == "abc(de(f),?A) :-"
    requires l2 == "gh(?A)."
    ensures LedBySymbol(l1, ["d", "abc(d"])
    ensures HelpOutput("abc(d?", ["d", "abc(d"], [l1, l2]) == []
    ensures HelpOutput("abc(d?", ["abc(d"], [l1, l2]) == ["\n1:   " + l1, "2:   " + l2]
  {
    SplitHeadFirst(l1);
    SplitHeadSecond(l2);
    DefinitionsEvent("abc(d?");
    assert StartsWith(PureLine(CleanLine(l1)), ["d", "abc(d"][1]);
    SplitHeadMissed("d", "abc(d", l1, l2);
    SplitHeadPrinted("abc(d", l1, l2);
    LineOutFirstTwo(l1);
    LineOutNumbers(l2);
  }

  /** As written, a print does not empty the preamble: in occurrences mode the preamble is
      printed again before the next line that holds a symbol. */
  lemma {:induction false} PreambleKept(st: HelpState, line: string, pure: string, out: string, symbols: seq<string>)
    requires !st.cont && symbols != [] && Find(line, symbols[0], 0) != -1
    ensures SymbolLoop(st, true, line, pure, out, symbols) ==
              HelpState(!EndsWith(pure, "."), st.begin, st.printed + ["\n" + st.begin + out])
  {
    assert Selects(st, true, line, pure, symbols[0]);
  }

  /** In occurrences mode, an unfinished line that neither holds nor starts with the one
      symbol becomes the preamble. */
  lemma {:induction false} OpenLineHeld(st: HelpState, line: string, pure: string, out: string, s: string)
    requires !st.cont && st.begin == [] && Find(line, s, 0) == -1 && !StartsWith(pure, s) && Unfinished(line, pure)
    ensures SymbolLoop(st, true, line, pure, out, [s]) == HelpState(false, out + "\n", st.printed)
  {
    assert !Selects(st, true, line, pure, s);
    assert [s][1..] == [];
    assert st.begin + out + "\n" == out + "\n";
  }

  lemma {:induction false} PreambleOpenLine(l: string)
    requires l == "x :-"
    ensures HeldLine("q", l)
  {
    PlainLine(l);
    FindAbsent(l, "q", 0, 0);
  }

  lemma {:induction false} PreambleFoundLine(l: string)
    requires l == "y(q)."
    ensures FoundClause("q", l)
  {
    PlainLine(l);
    OccursAtChar(l, 'q', 2);
    assert l[|l| - 1..] == ".";
  }

  /** An unfinished line, its own code, that neither holds nor starts with the symbol. */
  predicate HeldLine(s: string, l: string) {
    CleanLine(l) == l && PureLine(l) == l && Unfinished(l, l) && Find(l, s, 0) == -1 && !StartsWith(l, s)
  }

  /** A complete clause line, its own code, that holds the symbol. */
  predicate FoundClause(s: string, l: string) {
    CleanLine(l) == l && PureLine(l) == l && EndsWith(l, ".") && Find(l, s, 0) != -1
  }

  /** The first three lines in occurrences mode, one at a time: a `HeldLine` becomes the
      preamble, and each `FoundClause` after it is printed after that preamble. */
  lemma {:induction false} PreambleFirstLine(s: string, l1: string, l2: string, l3: string)
    requires HeldLine(s, l1)
    ensures HelpAfter(true, [s], [l1, l2, l3], 1) == HelpState(false, LineOut(1, l1) + "\n", [])
  {
    var init := HelpState(false, [], []);
    OpenLineHeld(init, l1, l1, LineOut(1, l1), s);
  }

  lemma {:induction false} PreambleSecondLine(s: string, l1: string, l2: string, l3: string)
    requires HeldLine(s, l1) && FoundClause(s, l2)
    ensures var b := LineOut(1, l1) + "\n";
            HelpAfter(true, [s], [l1, l2, l3], 2) == HelpState(false, b, ["\n" + b + LineOut(2, l2)])
  {
    var b := LineOut(1, l1) + "\n";
    PreambleFirstLine(s, l1, l2, l3);
    PreambleKept(HelpState(false, b, []), l2, l2, LineOut(2, l2), [s]);
    PrintedOne([], "\n" + b + LineOut(2, l2));
  }

  lemma {:induction false} PreambleRepeatedLines(s: string, l1: string, l2: string, l3: string)
    requires HeldLine(s, l1) && FoundClause(s, l2) && FoundClause(s, l3)
    ensures var b := LineOut(1, l1) + "\n";
            HelpAfter(true, [s], [l1, l2, l3], 3).printed == ["\n" + b + LineOut(2, l2), "\n" + b + LineOut(3, l3)]
  {
    var b := LineOut(1, l1) + "\n";
    var x := "\n" + b + LineOut(2, l2);
    PreambleSecondLine(s, l1, l2, l3);
    PreambleKept(HelpState(false, b, [x]), l3, l3, LineOut(3, l3), [s]);
    PrintedPair([x], x, "\n" + b + LineOut(3, l3));
  }

  /** One element printed after none. */
  lemma PrintedOne(a: seq<string>, x: string)
    requires a == []
    ensures a + [x] == [x]
  {
  }

  /** One more element printed after one. */
  lemma PrintedPair(a: seq<string>, x: string, y: string)
    requires a == [x]
    ensures a + [y] == [x, y]
  {
  }

  lemma {:induction false} OccurrencesEvent(e: string)
    requires e == "q??"
    ensures EndsWith(e, "?") && EndsWith(e, "??")
  {
    assert e[|e| - 1..] == "?" && e[|e| - 2..] == "??";
  }

  /** In occurrences mode over `['x :-', 'y(q).', 'y(q).']` with the symbol `q`, the line
      `x :-` is printed before line 2, which continues it, and again before line 3, which
      does not. */
  lemma {:induction false} PreambleRepeatedExample(l1: string, l2: string, l3: string)
    requires l1 == "x :-" && l2 == "y(q)." && l3 == "y(q)."
    ensures HelpOutput("q??", ["q"], [l1, l2, l3]) ==
              ["\n1:   " + l1 + "\n2:   " + l2, "\n1:   " + l1 + "\n3:   " + l3]
  {
    PreambleOpenLine(l1);
    PreambleFoundLine(l2);
    PreambleFoundLine(l3);
    OccurrencesEvent("q??");
    PreambleRepeatedLines("q", l1, l2, l3);
    LineOutNumbers(l1);
    LineOutNumbers(l2);
    LineOutNumbers(l3);
    NumberedPrefixes();
    PreambleText("1:   ", "2:   ", l1, l2);
    PreambleText("1:   ", "3:   ", l1, l3);
  }

  /** A preamble line and a numbered line, printed after a blank line. */
  lemma PreambleText(p: string, q: string, x: string, y: string)
    ensures "\n" + (p + x + "\n") + (q + y) == ("\n" + p) + x + ("\n" + q) + y
  {
    var a := "\n" + (p + x + "\n") + (q + y);
    var b := ("\n" + p) + x + ("\n" + q) + y;
    assert |a| == |b|;
    forall i | 0 <= i < |a|
      ensures a[i] == b[i]
    {
    }
  }

  lemma NumberedPrefixes()
    ensures "\n" + "1:   " == "\n1:   " && "\n" + "2:   " == "\n2:   " && "\n" + "3:   " == "\n3:   "
  {
  }


  /** Some symbol selects the line. */
  predicate AnySelects(st: HelpState, deep: bool, line: string, pure: string, symbols: seq<string>) {
    exists i :: 0 <= i < |symbols| && Selects(st, deep, line, pure, symbols[i])
  }

  /** The inner loop as evidently intended: the `else` belongs to the `for`, so the
      preamble is updated once, when no symbol selects the line; and a print empties the
      preamble. */
  function IntendedLoop(st: HelpState, deep: bool, line: string, pure: string, out: string,
                        symbols: seq<string>): HelpState
  {
    if AnySelects(st, deep, line, pure, symbols) then
      HelpState(!EndsWith(pure, "."), [], st.printed + [if st.cont then out else "\n" + st.begin + out])
    else Unselected(st, line, pure, out)
  }

  /** Corrected, definitions mode: with no open clause and an empty preamble, every line
      whose code starts with one of the symbols is printed after a blank line. */
  lemma IntendedDefinitionFound(st: HelpState, line: string, pure: string, out: string,
                                symbols: seq<string>, j: nat)
    requires !st.cont && st.begin == [] && j < |symbols| && StartsWith(pure, symbols[j])
    ensures IntendedLoop(st, false, line, pure, out, symbols) ==
              HelpState(!EndsWith(pure, "."), [], st.printed + ["\n" + out])
  {
    assert Selects(st, false, line, pure, symbols[j]);
    assert "\n" + st.begin + out == "\n" + out;
  }

  /** Corrected, definitions mode: what prints continues a clause or has code that starts
      with one of the symbols. */
  lemma IntendedDefinitionSound(st: HelpState, line: string, pure: string, out: string, symbols: seq<string>)
    requires |IntendedLoop(st, false, line, pure, out, symbols).printed| > |st.printed|
    ensures st.cont || exists j :: 0 <= j < |symbols| && StartsWith(pure, symbols[j])
  {
    var j :| 0 <= j < |symbols| && Selects(st, false, line, pure, symbols[j]);
  }

  /** Corrected, occurrences mode: a line holding any of the symbols is printed. */
  lemma IntendedOccurrencePrinted(st: HelpState, line: string, pure: string, out: string,
                                  symbols: seq<string>, j: nat)
    requires j < |symbols| && Find(line, symbols[j], 0) != -1
    ensures |IntendedLoop(st, true, line, pure, out, symbols).printed| == |st.printed| + 1
  {
    assert Selects(st, true, line, pure, symbols[j]);
  }

  /** Corrected: the preamble of a print holds only lines after the previous print, since
      a print empties it; a line that no symbol selects adds its numbered line to it once,
      or clears it. */
  lemma IntendedPreambleReset(st: HelpState, deep: bool, line: string, pure: string, out: string,
                              symbols: seq<string>)
    ensures var r := IntendedLoop(st, deep, line, pure, out, symbols);
            (|r.printed| > |st.printed| ==> r.begin == [] && EndsWith(r.printed[|st.printed|], out))
            && (|r.printed| == |st.printed| ==>
                  r.begin == if Unfinished(line, pure) then st.begin + out + "\n" else [])
  {
    var x := if st.cont then out else "\n" + st.begin + out;
    assert x[|x| - |out|..] == out;
  }

  /** With one symbol in definitions mode the two loops agree whenever an open clause has
      no preamble, which `DefinitionState` shows always holds there: both defects need two
      symbols or occurrences mode. */
  lemma IntendedAgrees(st: HelpState, line: string, pure: string, out: string, s: string)
    requires st.cont ==> st.begin == []
    ensures IntendedLoop(st, false, line, pure, out, [s]) == SymbolLoop(st, false, line, pure, out, [s])
  {
    assert [s][0] == s && [s][1..] == [];
    if Selects(st, false, line, pure, s) {
      assert AnySelects(st, false, line, pure, [s]);
    }
  }
}
