/**
 The occurrence scanner of `completer_flora` (its `debug=True` path): the listing
 lines are stripped and joined with single spaces, and at every occurrence of each
 symbol that is not preceded by an identifier character the term starting there is
 cut out with `_parseEnd_`.  If `_parseEnd_` raises at any occurrence, the whole
 completion raises; the model gives `None`.
 */
module Corpus {
  import opened Wrappers
  import opened PyStr
  import opened Classifier
  import opened TermEnd

  /** `[l.strip() for l in listing]` */
  function StripAll(listing: seq<string>): (r: seq<string>)
    ensures |r| == |listing|
    ensures forall i :: 0 <= i < |r| ==> r[i] == Strip(listing[i])
  {
    if listing == [] then [] else [Strip(listing[0])] + StripAll(listing[1..])
  }

  /** `known_content = ' '.join([l.strip() for l in listing])` */
  function KnownContent(listing: seq<string>): string {
    JoinSpace(StripAll(listing))
  }

  /** An occurrence of `sym` at `p` that the scanner accepts: not inside a longer identifier. */
  predicate Accepted(known: string, sym: string, p: nat) {
    OccursAt(known, sym, p) && (p == 0 || !IsIdentifier(known[p - 1]))
  }

  /** The positions the `while True` loop visits from `from` on and does not skip. */
  function MatchStarts(known: string, sym: string, from: nat): (r: seq<nat>)
    ensures forall i :: 0 <= i < |r| ==> from <= r[i] && r[i] + |sym| <= |known|
    decreases |known| + 1 - from
  {
    var idx := Find(known, sym, from);
    if idx == -1 then []
    else if idx != 0 && IsIdentifier(known[idx - 1]) then MatchStarts(known, sym, idx + 1)
    else [idx] + MatchStarts(known, sym, idx + 1)
  }

  /** The scanner visits exactly the accepted occurrences. */
  lemma {:induction false} MatchStartsComplete(known: string, sym: string, from: nat, p: nat)
    ensures p in MatchStarts(known, sym, from) <==> from <= p && Accepted(known, sym, p)
    decreases |known| + 1 - from
  {
    var idx := Find(known, sym, from);
    MatchStartsStep(known, sym, from);
    if idx != -1 {
      MatchStartsComplete(known, sym, idx + 1, p);
      AcceptedStep(known, sym, from, p, idx, MatchStarts(known, sym, from), MatchStarts(known, sym, idx + 1));
    }
  }

  /** The step of `MatchStartsComplete` at a found occurrence `idx`, the first from `from` on. */
  lemma AcceptedStep(known: string, sym: string, from: nat, p: nat, idx: nat, r: seq<nat>, rest: seq<nat>)
    requires from <= idx && OccursAt(known, sym, idx)
    requires forall i :: from <= i < idx ==> !OccursAt(known, sym, i)
    requires r == if idx != 0 && IsIdentifier(known[idx - 1]) then rest else [idx] + rest
    requires p in rest <==> idx + 1 <= p && Accepted(known, sym, p)
    ensures p in r <==> from <= p && Accepted(known, sym, p)
  {
    if p < idx {
      assert p !in rest;
    } else if p == idx {
      assert p !in rest;
    }
  }

  predicate Increasing(r: seq<nat>) {
    forall i, j :: 0 <= i < j < |r| ==> r[i] < r[j]
  }

  /** ... in increasing order, each once. */
  lemma {:induction false} MatchStartsIncreasing(known: string, sym: string, from: nat)
    ensures Increasing(MatchStarts(known, sym, from))
    decreases |known| + 1 - from
  {
    var idx := Find(known, sym, from);
    if idx != -1 {
      MatchStartsIncreasing(known, sym, idx + 1);
      var rest := MatchStarts(known, sym, idx + 1);
      if !(idx != 0 && IsIdentifier(known[idx - 1])) {
        var r := [idx] + rest;
        assert MatchStarts(known, sym, from) == r;
        forall i, j | 0 <= i < j < |r|
          ensures r[i] < r[j]
        {
          if i > 0 { assert r[i] == rest[i - 1] && r[j] == rest[j - 1]; }
        }
      } else {
        assert MatchStarts(known, sym, from) == rest;
      }
    }
  }

  /** The positions `ps`, each moved `d` to the right. */
  function Shift(ps: seq<nat>, d: nat): (r: seq<nat>)
    ensures |r| == |ps| && forall i :: 0 <= i < |ps| ==> r[i] == ps[i] + d
  {
    if ps == [] then [] else [ps[0] + d] + Shift(ps[1..], d)
  }

  /** In two lines joined by a space, a symbol without spaces occurs, not inside a longer
      identifier, exactly where it does so in one of the lines. */
  lemma {:induction false} AcceptedJoin(x: string, y: string, sym: string, p: nat)
    requires sym != [] && ' ' !in sym
    ensures Accepted(x + " " + y, sym, p) <==>
              Accepted(x, sym, p) || (p >= |x| + 1 && Accepted(y, sym, p - |x| - 1))
  {
    var k := x + " " + y;
    if p + |sym| <= |x| {
      assert k[p..p + |sym|] == x[p..p + |sym|];
      if p > 0 {
        assert k[p - 1] == x[p - 1];
      }
    } else if p >= |x| + 1 {
      var q := p - |x| - 1;
      if p + |sym| <= |k| {
        assert k[p..p + |sym|] == y[q..q + |sym|];
        if q > 0 {
          assert k[p - 1] == y[q - 1];
        }
      }
    } else if p + |sym| <= |k| {
      assert k[p..p + |sym|][|x| - p] == k[|x|] == ' ';
    }
  }

  lemma NoMembers(b: seq<nat>)
    ensures (forall p :: p !in b) ==> b == []
  {
    if b != [] {
      assert b[0] in b;
    }
  }

  /** Two increasing sequences with the same elements are equal. */
  lemma {:induction false} IncreasingUnique(a: seq<nat>, b: seq<nat>)
    requires Increasing(a) && Increasing(b)
    requires forall p :: p in a <==> p in b
    ensures a == b
    decreases |a|
  {
    if a == [] {
      NoMembers(b);
    } else {
      assert a[0] in b;
      assert b != [] && b[0] in a;
      assert a[0] == b[0];
      forall p
        ensures p in a[1..] <==> p in b[1..]
      {
        if p in a[1..] {
          var i :| 1 <= i < |a| && a[i] == p;
          assert p in b;
          var j :| 0 <= j < |b| && b[j] == p;
          assert j != 0;
          assert b[j] == b[1..][j - 1];
        }
        if p in b[1..] {
          var j :| 1 <= j < |b| && b[j] == p;
          assert p in a;
          var i :| 0 <= i < |a| && a[i] == p;
          assert i != 0;
          assert a[i] == a[1..][i - 1];
        }
      }
      IncreasingUnique(a[1..], b[1..]);
      assert a == [a[0]] + a[1..] && b == [b[0]] + b[1..];
    }
  }

  /** Positions of the first line, then positions of the second moved past them, stay
      increasing. */
  lemma {:induction false} IncreasingJoin(a: seq<nat>, b: seq<nat>, d: nat)
    requires Increasing(a) && Increasing(b) && forall i :: 0 <= i < |a| ==> a[i] < d
    ensures Increasing(a + Shift(b, d))
  {
    var s := Shift(b, d);
    var r := a + s;
    forall i, j | 0 <= i < j < |r|
      ensures r[i] < r[j]
    {
      if j < |a| {
        assert r[i] == a[i] && r[j] == a[j];
      } else if i >= |a| {
        assert r[i] == s[i - |a|] && r[j] == s[j - |a|];
      } else {
        assert r[i] == a[i] && r[j] == s[j - |a|];
      }
    }
  }

  /** An accepted occurrence in the joined lines is one listed for either line. */
  lemma {:induction false} MatchStartsJoinHas(x: string, y: string, sym: string, p: nat)
    requires sym != [] && ' ' !in sym
    ensures p in MatchStarts(x + " " + y, sym, 0) <==>
              p in MatchStarts(x, sym, 0) + Shift(MatchStarts(y, sym, 0), |x| + 1)
  {
    var d := |x| + 1;
    StartsHas(x, sym, p);
    StartsHasShifted(y, sym, d, p);
    StartsHasJoin(x, y, sym, d, p);
    JoinHas(MatchStarts(x + " " + y, sym, 0), MatchStarts(x, sym, 0), MatchStarts(y, sym, 0), d, p,
            Accepted(x, sym, p), p >= d && Accepted(y, sym, p - d));
  }

  lemma {:induction false} StartsHas(x: string, sym: string, p: nat)
    ensures p in MatchStarts(x, sym, 0) <==> Accepted(x, sym, p)
  {
    MatchStartsComplete(x, sym, 0, p);
  }

  lemma {:induction false} StartsHasShifted(y: string, sym: string, d: nat, p: nat)
    ensures (p >= d && Accepted(y, sym, p - d)) <==> p >= d && p - d in MatchStarts(y, sym, 0)
  {
    if p >= d {
      MatchStartsComplete(y, sym, 0, p - d);
    }
  }

  lemma {:induction false} StartsHasJoin(x: string, y: string, sym: string, d: nat, p: nat)
    requires sym != [] && ' ' !in sym && d == |x| + 1
    ensures p in MatchStarts(x + " " + y, sym, 0) <==> Accepted(x, sym, p) || (p >= d && Accepted(y, sym, p - d))
  {
    MatchStartsComplete(x + " " + y, sym, 0, p);
    AcceptedJoin(x, y, sym, p);
  }

  /** `MatchStartsJoinHas` on the positions alone. */
  lemma {:induction false} JoinHas(k: seq<nat>, a: seq<nat>, b: seq<nat>, d: nat, p: nat, inA: bool, inB: bool)
    requires p in a <==> inA
    requires inB <==> p >= d && p - d in b
    requires p in k <==> inA || inB
    ensures p in k <==> p in a + Shift(b, d)
  {
    ShiftHas(b, d, p);
  }

  /** The occurrences the scanner visits in two lines joined by a space: those of the
      first line, then those of the second, moved past the first line and the space. */
  lemma {:induction false} MatchStartsJoin(x: string, y: string, sym: string)
    requires sym != [] && ' ' !in sym
    ensures MatchStarts(x + " " + y, sym, 0) ==
              MatchStarts(x, sym, 0) + Shift(MatchStarts(y, sym, 0), |x| + 1)
  {
    var k, r := MatchStarts(x + " " + y, sym, 0), MatchStarts(x, sym, 0) + Shift(MatchStarts(y, sym, 0), |x| + 1);
    MatchStartsIncreasing(x + " " + y, sym, 0);
    MatchStartsIncreasing(x, sym, 0);
    MatchStartsIncreasing(y, sym, 0);
    IncreasingJoin(MatchStarts(x, sym, 0), MatchStarts(y, sym, 0), |x| + 1);
    forall p
      ensures p in k <==> p in r
    {
      MatchStartsJoinHas(x, y, sym, p);
    }
    IncreasingUnique(k, r);
  }

  lemma {:induction false} ShiftHas(ps: seq<nat>, d: nat, p: nat)
    ensures p in Shift(ps, d) <==> p >= d && p - d in ps
  {
    var r := Shift(ps, d);
    if p in r {
      var i :| 0 <= i < |r| && r[i] == p;
      assert ps[i] == p - d;
    }
    if p >= d && p - d in ps {
      var i :| 0 <= i < |ps| && ps[i] == p - d;
      assert r[i] == p;
    }
  }

  /** A match taken in the second of two joined lines is the match in that line. */
  lemma {:induction false} MatchAtJoinRight(x: string, y: string, q: nat)
    requires q <= |y|
    ensures MatchAt(x + " " + y, |x| + 1 + q) == MatchAt(y, q)
  {
    assert (x + " " + y)[|x| + 1 + q..] == y[q..];
  }

  /** A match taken in the first of two joined lines runs on into the second; when both
      lines end without whitespace and the match starts with none, it is not shortened. */
  lemma {:induction false} MatchAtJoinLeft(x: string, y: string, p: nat)
    requires p < |x| && !IsSpace(x[p]) && y != [] && !IsSpace(y[|y| - 1])
    ensures MatchAt(x + " " + y, p) == x[p..] + (" " + y)
  {
    var m := (x + " " + y)[p..];
    assert m == x[p..] + (" " + y);
    StripUnchanged(m);
  }

  /** The matches at occurrences in the second of two joined lines. */
  lemma {:induction false} MatchesAtJoinRight(x: string, y: string, ps: seq<nat>)
    requires forall i :: 0 <= i < |ps| ==> ps[i] <= |y|
    ensures MatchesAt(x + " " + y, Shift(ps, |x| + 1)) == MatchesAt(y, ps)
  {
    var l, r := MatchesAt(x + " " + y, Shift(ps, |x| + 1)), MatchesAt(y, ps);
    forall i | 0 <= i < |l|
      ensures l[i] == r[i]
    {
      MatchAtJoinRight(x, y, ps[i]);
    }
  }

  /** Matches that all parse give their terms, in order. */
  lemma {:induction false} ParseAllOf(ms: seq<string>, ts: seq<string>)
    requires |ms| == |ts| && forall i :: 0 <= i < |ms| ==> FirstTerm(ms[i]) == Some(ts[i])
    ensures ParseAll(ms) == Some(ts)
  {
    ParseAllSpec(ms);
    var r := ParseAll(ms).value;
    forall i | 0 <= i < |ms|
      ensures r[i] == ts[i]
    {
      assert Some(r[i]) == FirstTerm(ms[i]);
    }
    assert r == ts;
  }

  /** `match = known_content[idx:].strip()` */
  function MatchAt(known: string, p: nat): string
    requires p <= |known|
  {
    Strip(known[p..])
  }

  /** The matches at the positions `ps`, in order. */
  function MatchesAt(known: string, ps: seq<nat>): (r: seq<string>)
    requires forall i :: 0 <= i < |ps| ==> ps[i] <= |known|
    ensures |r| == |ps|
    ensures forall i :: 0 <= i < |ps| ==> r[i] == MatchAt(known, ps[i])
  {
    if ps == [] then [] else [MatchAt(known, ps[0])] + MatchesAt(known, ps[1..])
  }

  /** Every match the scanner hands to `_parseEnd_`: symbol by symbol, occurrence by occurrence. */
  function Matches(symbols: seq<string>, known: string): seq<string> {
    if symbols == [] then []
    else Matches(symbols[..|symbols| - 1], known) + MatchesAt(known, MatchStarts(known, symbols[|symbols| - 1], 0))
  }

  /** Both sides succeed, and their results are concatenated. */
  function Concat(a: Option<seq<string>>, b: Option<seq<string>>): (r: Option<seq<string>>)
    ensures r.Some? <==> a.Some? && b.Some?
    ensures r.Some? ==> r.value == a.value + b.value
  {
    if a.Some? && b.Some? then Some(a.value + b.value) else None
  }

  /** `result += [_parseEnd_(match)]` over the matches; `None` once one of them raises. */
  function ParseAll(ms: seq<string>): Option<seq<string>> {
    if ms == [] then Some([])
    else
      var t := FirstTerm(ms[|ms| - 1]);
      Concat(ParseAll(ms[..|ms| - 1]), if t.Some? then Some([t.value]) else None)
  }

  /** The debug-mode completion result. */
  function Completions(symbols: seq<string>, known: string): Option<seq<string>> {
    ParseAll(Matches(symbols, known))
  }

  /** Every match is taken at an accepted occurrence of one of the symbols. */
  lemma {:induction false} MatchesSound(symbols: seq<string>, known: string)
    ensures forall m :: m in Matches(symbols, known) ==>
              exists j, p: nat :: 0 <= j < |symbols| && p <= |known| && Accepted(known, symbols[j], p)
                                  && m == MatchAt(known, p)
    decreases |symbols|
  {
    if symbols != [] {
      var init := symbols[..|symbols| - 1];
      var last := symbols[|symbols| - 1];
      MatchesSound(init, known);
      var ps := MatchStarts(known, last, 0);
      var here := MatchesAt(known, ps);
      assert Matches(symbols, known) == Matches(init, known) + here;
      forall m | m in Matches(symbols, known)
        ensures exists j, p: nat :: 0 <= j < |symbols| && p <= |known| && Accepted(known, symbols[j], p)
                                    && m == MatchAt(known, p)
      {
        if m in Matches(init, known) {
          var j, p: nat :| 0 <= j < |init| && p <= |known| && Accepted(known, init[j], p)
                           && m == MatchAt(known, p);
          assert symbols[j] == init[j];
        } else {
          var i :| 0 <= i < |here| && here[i] == m;
          MatchStartsComplete(known, last, 0, ps[i]);
          assert Accepted(known, symbols[|symbols| - 1], ps[i]);
        }
      }
    }
  }

  lemma MatchesAtHas(known: string, ps: seq<nat>, p: nat)
    requires forall i :: 0 <= i < |ps| ==> ps[i] <= |known|
    requires p in ps
    ensures MatchAt(known, p) in MatchesAt(known, ps)
  {
    var i :| 0 <= i < |ps| && ps[i] == p;
    assert MatchesAt(known, ps)[i] == MatchAt(known, p);
  }

  /** Every accepted occurrence of every symbol gives a match. */
  lemma {:induction false} MatchesComplete(symbols: seq<string>, known: string, j: nat, p: nat)
    requires j < |symbols| && p <= |known| && Accepted(known, symbols[j], p)
    ensures MatchAt(known, p) in Matches(symbols, known)
    decreases |symbols|
  {
    if j < |symbols| - 1 {
      assert symbols[..|symbols| - 1][j] == symbols[j];
      MatchesComplete(symbols[..|symbols| - 1], known, j, p);
      MatchesGrow(symbols, known);
    } else {
      MatchesCompleteLast(symbols, known, p);
    }
  }

  lemma MatchesCompleteLast(symbols: seq<string>, known: string, p: nat)
    requires symbols != [] && p <= |known| && Accepted(known, symbols[|symbols| - 1], p)
    ensures MatchAt(known, p) in Matches(symbols, known)
  {
    var ps := MatchStarts(known, symbols[|symbols| - 1], 0);
    MatchesGrow(symbols, known);
    MatchStartsComplete(known, symbols[|symbols| - 1], 0, p);
    MatchesAtHas(known, ps, p);
  }

  lemma MatchesGrow(symbols: seq<string>, known: string)
    requires symbols != []
    ensures Matches(symbols, known) ==
            Matches(symbols[..|symbols| - 1], known) + MatchesAt(known, MatchStarts(known, symbols[|symbols| - 1], 0))
  {
  }

  /** `ParseAll` succeeds iff `_parseEnd_` succeeds on every match, and then holds one
      term per match, in order. */
  lemma {:induction false} ParseAllSpec(ms: seq<string>)
    ensures ParseAll(ms).Some? <==> forall i :: 0 <= i < |ms| ==> FirstTerm(ms[i]).Some?
    ensures ParseAll(ms).Some? ==>
              |ParseAll(ms).value| == |ms|
              && forall i :: 0 <= i < |ms| ==> Some(ParseAll(ms).value[i]) == FirstTerm(ms[i])
  {
    if ms != [] {
      var init := ms[..|ms| - 1];
      ParseAllSpec(init);
      assert forall i :: 0 <= i < |init| ==> init[i] == ms[i];
    }
  }

  /** Once one match raises, the rest of the scan does not matter. */
  lemma {:induction false} ParseAllFailed(ms: seq<string>, more: seq<string>)
    requires ParseAll(ms).None?
    ensures ParseAll(ms + more).None?
    decreases |more|
  {
    if more != [] {
      var init := more[..|more| - 1];
      ParseAllFailed(ms, init);
      assert (ms + more)[..|ms + more| - 1] == ms + init;
    } else {
      assert ms + more == ms;
    }
  }

  /** Every completion is `_parseEnd_` of the stripped corpus text at an accepted
      occurrence of one of the symbols, and is a prefix of it whose brackets balance. */
  lemma CompletionsSound(symbols: seq<string>, known: string)
    requires Completions(symbols, known).Some?
    ensures forall t :: t in Completions(symbols, known).value ==>
              BracketsCounter(t) == 0
              && exists j, p: nat :: 0 <= j < |symbols| && p <= |known| && Accepted(known, symbols[j], p)
                                     && FirstTerm(MatchAt(known, p)) == Some(t)
                                     && StartsWith(MatchAt(known, p), t)
  {
    var ms := Matches(symbols, known);
    MatchesSound(symbols, known);
    ParseAllSpec(ms);
    var r := Completions(symbols, known).value;
    forall t | t in r
      ensures BracketsCounter(t) == 0
              && exists j, p: nat :: 0 <= j < |symbols| && p <= |known| && Accepted(known, symbols[j], p)
                                     && FirstTerm(MatchAt(known, p)) == Some(t)
                                     && StartsWith(MatchAt(known, p), t)
    {
      var i :| 0 <= i < |r| && r[i] == t;
      assert ms[i] in ms;
      var j, p: nat :| 0 <= j < |symbols| && p <= |known| && Accepted(known, symbols[j], p)
                       && ms[i] == MatchAt(known, p);
      FirstTermBalanced(ms[i]);
    }
  }

  /** The completion raises exactly when `_parseEnd_` raises at some accepted occurrence
      of some symbol. */
  lemma CompletionsFail(symbols: seq<string>, known: string)
    ensures Completions(symbols, known).None? <==>
              exists j, p: nat :: 0 <= j < |symbols| && p <= |known| && Accepted(known, symbols[j], p)
                                  && FirstTerm(MatchAt(known, p)).None?
  {
    var ms := Matches(symbols, known);
    MatchesSound(symbols, known);
    ParseAllSpec(ms);
    if Completions(symbols, known).None? {
      var i :| 0 <= i < |ms| && FirstTerm(ms[i]).None?;
      assert ms[i] in ms;
    } else {
      forall j, p: nat | 0 <= j < |symbols| && p <= |known| && Accepted(known, symbols[j], p)
        ensures FirstTerm(MatchAt(known, p)).Some?
      {
        MatchesComplete(symbols, known, j, p);
        var i :| 0 <= i < |ms| && ms[i] == MatchAt(known, p);
      }
    }
  }

  /** One turn of the `while True` loop: skip, accept or stop. */
  lemma MatchStartsStep(known: string, sym: string, from: nat)
    ensures var idx := Find(known, sym, from);
            MatchStarts(known, sym, from) ==
              if idx == -1 then []
              else if idx != 0 && IsIdentifier(known[idx - 1]) then MatchStarts(known, sym, idx + 1)
              else [idx] + MatchStarts(known, sym, idx + 1)
  {
  }

  /** An accepted first occurrence from `from` on is the first position visited. */
  lemma {:induction false} MatchStartsAt(known: string, sym: string, from: nat, idx: nat)
    requires Find(known, sym, from) == idx && (idx == 0 || !IsIdentifier(known[idx - 1]))
    ensures MatchStarts(known, sym, from) == [idx] + MatchStarts(known, sym, idx + 1)
  {
    MatchStartsStep(known, sym, from);
  }

  /** Past the last occurrence nothing is visited. */
  lemma {:induction false} MatchStartsPast(known: string, sym: string, from: nat)
    requires Find(known, sym, from) == -1
    ensures MatchStarts(known, sym, from) == []
  {
    MatchStartsStep(known, sym, from);
  }

  lemma MatchesAtCons(known: string, p: nat, ps: seq<nat>)
    requires p <= |known| && forall i :: 0 <= i < |ps| ==> ps[i] <= |known|
    ensures MatchesAt(known, [p] + ps) == [MatchAt(known, p)] + MatchesAt(known, ps)
  {
    assert ([p] + ps)[1..] == ps;
  }

  lemma ParseAllSnoc(ms: seq<string>, m: string)
    ensures ParseAll(ms + [m]) ==
            Concat(ParseAll(ms), if FirstTerm(m).Some? then Some([FirstTerm(m).value]) else None)
  {
    assert (ms + [m])[..|ms|] == ms;
  }

  /** The matches of a prefix of the symbols come first. */
  lemma {:induction false} MatchesPrefix(symbols: seq<string>, known: string, k: nat)
    requires k <= |symbols|
    ensures Matches(symbols[..k], known) <= Matches(symbols, known)
    decreases |symbols|
  {
    if k < |symbols| {
      var init := symbols[..|symbols| - 1];
      assert init[..k] == symbols[..k];
      MatchesPrefix(init, known, k);
      MatchesGrow(symbols, known);
    } else {
      assert symbols[..k] == symbols;
    }
  }

  /** Parsing distributes over concatenated match lists. */
  lemma {:induction false} ParseAllAppend(a: seq<string>, b: seq<string>)
    ensures ParseAll(a + b) == Concat(ParseAll(a), ParseAll(b))
    decreases |b|
  {
    if b == [] {
      assert a + b == a;
      if ParseAll(a).Some? {
        assert ParseAll(a).value + [] == ParseAll(a).value;
      }
    } else {
      var init := b[..|b| - 1];
      var m := b[|b| - 1];
      assert a + b == (a + init) + [m];
      assert b == init + [m];
      ParseAllAppend(a, init);
      ParseAllSnoc(a + init, m);
      ParseAllSnoc(init, m);
      var t := FirstTerm(m);
      ConcatAssoc(ParseAll(a), ParseAll(init), if t.Some? then Some([t.value]) else None);
    }
  }

  lemma ConcatAssoc(x: Option<seq<string>>, y: Option<seq<string>>, z: Option<seq<string>>)
    ensures Concat(Concat(x, y), z) == Concat(x, Concat(y, z))
  {
    if x.Some? && y.Some? && z.Some? {
      AppendAssoc(x.value, y.value, z.value);
    }
  }

  /** What one `str.find` tells about the remaining matches from `from` on: none, the
      same ones (a skipped occurrence), or the match at `idx` followed by the rest. */
  lemma ScanAdvance(known: string, symbol: string, from: nat, idx: int)
    requires idx == Find(known, symbol, from)
    ensures idx == -1 ==> MatchesAt(known, MatchStarts(known, symbol, from)) == []
    ensures idx != -1 && idx != 0 && IsIdentifier(known[idx - 1]) ==>
              MatchStarts(known, symbol, idx + 1) == MatchStarts(known, symbol, from)
    ensures idx != -1 && !(idx != 0 && IsIdentifier(known[idx - 1])) ==>
              MatchesAt(known, MatchStarts(known, symbol, from))
                == [MatchAt(known, idx)] + MatchesAt(known, MatchStarts(known, symbol, idx + 1))
  {
    MatchStartsStep(known, symbol, from);
    if idx != -1 {
      MatchesAtCons(known, idx, MatchStarts(known, symbol, idx + 1));
    }
  }

  /** Parsing the next match `x`: either the whole list fails, or the parsed prefix grows by one. */
  lemma ScanTake(seen: seq<string>, result: seq<string>, x: string, rest: seq<string>, whole: seq<string>)
    requires seen + ([x] + rest) == whole
    requires ParseAll(seen) == Some(result)
    ensures FirstTerm(x).None? ==> ParseAll(whole).None?
    ensures FirstTerm(x).Some? ==> ParseAll(seen + [x]) == Some(result + [FirstTerm(x).value])
    ensures (seen + [x]) + rest == whole
  {
    AppendAssoc(seen, [x], rest);
    ParseAllSnoc(seen, x);
    if FirstTerm(x).None? {
      ParseAllFailed(seen + [x], rest);
    }
  }

  /** The `while True` loop of `completer_flora` for one symbol. */
  method ScanSymbol(known: string, symbol: string) returns (r: Option<seq<string>>)
    ensures r == ParseAll(MatchesAt(known, MatchStarts(known, symbol, 0)))
  {
    var result: seq<string> := [];
    ghost var seen: seq<string> := [];
    ghost var whole := MatchesAt(known, MatchStarts(known, symbol, 0));
    var idx := -1;
    while true
      invariant -1 <= idx <= |known|
      invariant seen + MatchesAt(known, MatchStarts(known, symbol, idx + 1)) == whole
      invariant ParseAll(seen) == Some(result)
      decreases |known| - idx
    {
      ghost var from := idx + 1;
      idx := Find(known, symbol, idx + 1);
      ScanAdvance(known, symbol, from, idx);
      if idx == -1 {
        break;
      }
      if idx != 0 && IsIdentifier(known[idx - 1]) {
        continue;
      }
      var m := ParseEnd(Strip(known[idx..]));
      ghost var x := MatchAt(known, idx);
      ScanTake(seen, result, x, MatchesAt(known, MatchStarts(known, symbol, idx + 1)), whole);
      if m.None? {
        return None;
      }
      seen := seen + [x];
      result := result + [m.value];
    }
    assert seen + [] == seen;
    return Some(result);
  }

  /** The `for symbol in symbols` loop of `completer_flora` (debug mode) over the joined
      listing `known`. */
  /** One more symbol adds its own matches' results to those of the symbols before it. */
  lemma {:induction false} CompleteStep(symbols: seq<string>, known: string, s: nat)
    requires s < |symbols|
    ensures ParseAll(Matches(symbols[..s + 1], known)) ==
              Concat(ParseAll(Matches(symbols[..s], known)), ParseAll(MatchesAt(known, MatchStarts(known, symbols[s], 0))))
  {
    assert symbols[..s + 1][..s] == symbols[..s];
    MatchesGrow(symbols[..s + 1], known);
    ParseAllAppend(Matches(symbols[..s], known), MatchesAt(known, MatchStarts(known, symbols[s], 0)));
  }

  method Complete(symbols: seq<string>, known: string) returns (r: Option<seq<string>>)
    ensures r == Completions(symbols, known)
  {
    var result: seq<string> := [];
    for s := 0 to |symbols|
      invariant ParseAll(Matches(symbols[..s], known)) == Some(result)
    {
      var terms := ScanSymbol(known, symbols[s]);
      CompleteStep(symbols, known, s);
      if terms.None? {
        CompletionsPrefixFailed(symbols, known, s + 1);
        return None;
      }
      result := result + terms.value;
    }
    assert symbols[..|symbols|] == symbols;
    return Some(result);
  }

  /** Once the matches of the first `k` symbols make `_parseEnd_` raise, the completion raises. */
  lemma CompletionsPrefixFailed(symbols: seq<string>, known: string, k: nat)
    requires k <= |symbols|
    requires ParseAll(Matches(symbols[..k], known)).None?
    ensures Completions(symbols, known).None?
  {
    var upTo := Matches(symbols[..k], known);
    var all := Matches(symbols, known);
    assert all == upTo + all[|upTo|..] by {
      MatchesPrefix(symbols, known, k);
    }
    ParseAllFailed(upTo, all[|upTo|..]);
    assert ParseAll(all).None?;
  }
}
