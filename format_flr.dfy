/**
 The reading loop of `format_flr`: the clauses of a knowledge-base file, one per
 entry, without blank lines and comment lines, with a rule whose head line ends in
 ` :-` joined to the line after it.  The file is given as what `readline` returns in
 turn; past the end it returns `''`, which ends the loop.
 */
module FlrFormat {
  import opened PyStr

  /** `fd.readline()` when `i` lines have been read. */
  function ReadLine(lines: seq<string>, i: nat): string {
    if i < |lines| then lines[i] else ""
  }

  /** The clauses read from line `i` on. */
  function ClausesFrom(lines: seq<string>, i: nat): seq<string>
    decreases |lines| + 1 - i
  {
    var line := ReadLine(lines, i);
    if line == "" then []
    else
      var l := Strip(line);
      if |l| != 0 && l[0] != '/' then
        if EndsWith(l, " :-") then [l + " " + Strip(ReadLine(lines, i + 1))] + ClausesFrom(lines, i + 2)
        else [l] + ClausesFrom(lines, i + 1)
      else ClausesFrom(lines, i + 1)
  }

  /** `content` after the reading loop. */
  function Clauses(lines: seq<string>): seq<string> {
    ClausesFrom(lines, 0)
  }

  /** A kept line: not blank, not a comment. */
  predicate Kept(l: string) {
    |l| != 0 && l[0] != '/'
  }

  /** The clause `c` is read at line `j`: the line is kept and is not a rule head, and
      `c` is that line stripped; or it is a rule head line, and `c` is it joined with the
      stripped line after it (a head line never stands alone). */
  predicate ReadAt(lines: seq<string>, j: nat, c: string) {
    j < |lines| && Kept(Strip(lines[j]))
    && ((c == Strip(lines[j]) && !EndsWith(Strip(lines[j]), " :-"))
        || (EndsWith(Strip(lines[j]), " :-") && c == Strip(lines[j]) + " " + Strip(ReadLine(lines, j + 1))))
  }

  /** Each clause is read at some line, and starts with neither whitespace nor `/`. */
  lemma {:induction false} ClausesShape(lines: seq<string>, i: nat)
    ensures forall c :: c in ClausesFrom(lines, i) ==>
              c != [] && !IsSpace(c[0]) && c[0] != '/' && exists j :: i <= j && ReadAt(lines, j, c)
    decreases |lines| + 1 - i
  {
    var line := ReadLine(lines, i);
    if line != "" {
      var l := Strip(line);
      StripEnds(line);
      var next := if Kept(l) && EndsWith(l, " :-") then i + 2 else i + 1;
      ClausesShape(lines, next);
      if Kept(l) {
        var c0 := if EndsWith(l, " :-") then l + " " + Strip(ReadLine(lines, i + 1)) else l;
        assert ClausesFrom(lines, i) == [c0] + ClausesFrom(lines, next);
        assert ReadAt(lines, i, c0) && c0[0] == l[0];
      }
    }
  }

  /** There are at most as many clauses as lines. */
  lemma {:induction false} ClausesCount(lines: seq<string>, i: nat)
    requires i <= |lines|
    ensures |ClausesFrom(lines, i)| <= |lines| - i
    decreases |lines| - i
  {
    if i < |lines| && lines[i] != "" {
      var l := Strip(lines[i]);
      if Kept(l) && EndsWith(l, " :-") && i + 2 <= |lines| {
        ClausesCount(lines, i + 2);
      } else if !(Kept(l) && EndsWith(l, " :-")) {
        ClausesCount(lines, i + 1);
      } else {
        assert ClausesFrom(lines, i + 2) == [];
      }
    }
  }

  /** Without rule head lines, the clauses are the kept lines, stripped, in order. */
  lemma {:induction false} FactsOnly(lines: seq<string>, i: nat)
    requires forall j :: 0 <= j < |lines| ==> lines[j] != "" && !EndsWith(Strip(lines[j]), " :-")
    ensures ClausesFrom(lines, i) == KeptFrom(lines, i)
    decreases |lines| + 1 - i
  {
    if i < |lines| {
      FactsOnly(lines, i + 1);
    }
  }

  /** The kept lines from `i` on, stripped. */
  function KeptFrom(lines: seq<string>, i: nat): seq<string>
    decreases |lines| - i
  {
    if i >= |lines| then []
    else if Kept(Strip(lines[i])) then [Strip(lines[i])] + KeptFrom(lines, i + 1)
    else KeptFrom(lines, i + 1)
  }

  /** One turn of the reading loop on the line read `k`-th: the clauses read so far
      grow by what that line contributes, and reading resumes at `next`. */
  lemma ReadStep(lines: seq<string>, k: nat, c0: seq<string>, c1: seq<string>, next: nat)
    requires ReadLine(lines, k) != ""
    requires c0 + ClausesFrom(lines, k) == Clauses(lines)
    requires var l := Strip(ReadLine(lines, k));
             (c1, next) ==
               if Kept(l) && EndsWith(l, " :-") then (c0 + [l + " " + Strip(ReadLine(lines, k + 1))], k + 2)
               else if Kept(l) then (c0 + [l], k + 1)
               else (c0, k + 1)
    ensures c1 + ClausesFrom(lines, next) == Clauses(lines)
  {
    var l := Strip(ReadLine(lines, k));
    if Kept(l) && EndsWith(l, " :-") {
      AppendAssoc(c0, [l + " " + Strip(ReadLine(lines, k + 1))], ClausesFrom(lines, k + 2));
    } else if Kept(l) {
      AppendAssoc(c0, [l], ClausesFrom(lines, k + 1));
    }
  }

  /** The reading loop as the code runs it; `pos` counts the lines read before `line`. */
  method ReadClauses(lines: seq<string>) returns (content: seq<string>)
    ensures content == Clauses(lines)
  {
    content := [];
    var pos := 0;
    var line := ReadLine(lines, pos);
    assert [] + ClausesFrom(lines, 0) == Clauses(lines);
    while line != ""
      invariant pos <= |lines| + 1 && line == ReadLine(lines, pos)
      invariant content + ClausesFrom(lines, pos) == Clauses(lines)
      decreases |lines| + 1 - pos
    {
      ghost var k := pos;
      ghost var c0 := content;
      line := Strip(line);
      if |line| != 0 && line[0] != '/' {
        content := content + [line];
        if EndsWith(line, " :-") {
          content := content[..|content| - 1] + [content[|content| - 1] + " " + Strip(ReadLine(lines, pos + 1))];
          assert (c0 + [line])[..|c0|] == c0;
          pos := pos + 1;
        }
      }
      pos := pos + 1;
      ReadStep(lines, k, c0, content, pos);
      line := ReadLine(lines, pos);
    }
    assert content + [] == content;
  }
}
