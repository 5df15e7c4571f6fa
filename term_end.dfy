/**
 `_parseEnd_`: the first compound term at the start of a match in the knowledge
 base -- the leading identifier, then characters up to the point where the brackets
 opened after it are all closed.  Where the Python code raises (an empty match
 leaves the loop variable unbound; unbalanced brackets run off the end of the
 string) the model gives `None`.
 */
module TermEnd {
  import opened Wrappers
  import opened PyStr
  import opened Classifier

  /** Where the `for idx in range(len(match))` loop leaves `idx`: the first
      non-identifier character, or the last index when there is none. */
  function IdentEnd(m: string): (k: nat)
    requires m != []
    ensures k < |m|
    ensures forall i :: 0 <= i < k ==> IsIdentifier(m[i])
    ensures !IsIdentifier(m[k]) || k == |m| - 1
  {
    IdentEndFrom(m, 0)
  }

  function IdentEndFrom(m: string, i: nat): (k: nat)
    requires i < |m|
    requires forall j :: 0 <= j < i ==> IsIdentifier(m[j])
    ensures i <= k < |m|
    ensures forall j :: 0 <= j < k ==> IsIdentifier(m[j])
    ensures !IsIdentifier(m[k]) || k == |m| - 1
    decreases |m| - i
  {
    if !IsIdentifier(m[i]) || i == |m| - 1 then i else IdentEndFrom(m, i + 1)
  }

  /** Where the `while open_brackets != 0` loop leaves `idx`, started at `idx` with
      counter `open`; `None` when it runs past the end of the string. */
  function CloseFrom(m: string, idx: nat, open: int): (r: Option<nat>)
    requires idx <= |m|
    ensures r.Some? ==> idx <= r.value <= |m|
    decreases |m| - idx
  {
    if open == 0 then Some(idx)
    else if idx == |m| then None
    else CloseFrom(m, idx + 1, open + BracketsCounter([m[idx]]))
  }

  /** `_parseEnd_(match)` */
  function FirstTerm(m: string): Option<string> {
    if m == [] then None
    else
      var k := IdentEnd(m);
      match CloseFrom(m, k + 1, BracketsCounter([m[k]]))
      case None => None
      case Some(e) =>
        var result := m[..e];
        if !IsIdentifier(result[|result| - 1]) && BracketsCounter([result[|result| - 1]]) == 0
        then Some(result[..|result| - 1])
        else Some(result)
  }

  /** The bracket loop stops at the first point where the counter reaches zero, and
      fails exactly when there is none. */
  lemma {:induction false} CloseFromSpec(m: string, idx: nat, open: int)
    requires idx <= |m|
    ensures CloseFrom(m, idx, open).Some? ==>
              var e := CloseFrom(m, idx, open).value;
              idx <= e <= |m| && open + BracketsCounter(m[idx..e]) == 0
              && forall e' :: idx <= e' < e ==> open + BracketsCounter(m[idx..e']) != 0
    ensures CloseFrom(m, idx, open).None? <==>
              forall e :: idx <= e <= |m| ==> open + BracketsCounter(m[idx..e]) != 0
    decreases |m| - idx
  {
    assert m[idx..idx] == [];
    if open != 0 && idx < |m| {
      var open' := open + BracketsCounter([m[idx]]);
      CloseFromSpec(m, idx + 1, open');
      forall e | idx + 1 <= e <= |m|
        ensures open + BracketsCounter(m[idx..e]) == open' + BracketsCounter(m[idx + 1..e])
      {
        assert m[idx..e] == [m[idx]] + m[idx + 1..e];
        BracketsCounterAppend([m[idx]], m[idx + 1..e]);
      }
    }
  }

  /** The counter of `m[k..e]` is that of `m[k]` plus that of the rest. */
  lemma SliceCounter(m: string, k: nat, e: nat)
    requires k < e <= |m|
    ensures BracketsCounter(m[k..e]) == BracketsCounter([m[k]]) + BracketsCounter(m[k + 1..e])
  {
    assert m[k..e] == [m[k]] + m[k + 1..e];
    BracketsCounterAppend([m[k]], m[k + 1..e]);
  }

  /** `CloseFrom` as called from `FirstTerm`, in terms of the slice starting at the
      identifier's end. */
  lemma CloseAfterIdent(m: string, k: nat)
    requires k < |m|
    ensures CloseFrom(m, k + 1, BracketsCounter([m[k]])).Some? ==>
              var e := CloseFrom(m, k + 1, BracketsCounter([m[k]])).value;
              k < e <= |m| && BracketsCounter(m[k..e]) == 0
              && forall e' :: k < e' < e ==> BracketsCounter(m[k..e']) != 0
    ensures CloseFrom(m, k + 1, BracketsCounter([m[k]])).None? <==>
              forall e :: k < e <= |m| ==> BracketsCounter(m[k..e]) != 0
  {
    CloseFromSpec(m, k + 1, BracketsCounter([m[k]]));
    forall e | k < e <= |m|
      ensures BracketsCounter(m[k..e]) == BracketsCounter([m[k]]) + BracketsCounter(m[k + 1..e])
    {
      SliceCounter(m, k, e);
    }
  }

  /** `_parseEnd_` returns (instead of raising) exactly when the match is non-empty and
      the brackets from the end of its identifier on balance somewhere. */
  lemma FirstTermDefined(m: string)
    ensures FirstTerm(m).Some? <==>
              m != [] && exists e :: IdentEnd(m) < e <= |m| && BracketsCounter(m[IdentEnd(m)..e]) == 0
  {
    if m != [] {
      CloseAfterIdent(m, IdentEnd(m));
    }
  }

  /** Where it returns, the result is a prefix of the match whose brackets balance. */
  lemma FirstTermBalanced(m: string)
    requires FirstTerm(m).Some?
    ensures StartsWith(m, FirstTerm(m).value)
    ensures BracketsCounter(FirstTerm(m).value) == 0
  {
    var k := IdentEnd(m);
    var e := CloseFrom(m, k + 1, BracketsCounter([m[k]])).value;
    assert k < e && BracketsCounter(m[k..e]) == 0 by {
      CloseAfterIdent(m, k);
    }
    assert BracketsCounter(m[..e]) == 0 by {
      assert m[..e] == m[..k] + m[k..e];
      BracketsCounterAppend(m[..k], m[k..e]);
      BracketsCounterIdentifiers(m[..k]);
    }
    DropNeutralLast(m[..e]);
  }

  /** Dropping a last character that counts no bracket keeps the balance. */
  lemma DropNeutralLast(s: string)
    requires s != [] && BracketsCounter(s) == 0
    ensures BracketsCounter([s[|s| - 1]]) == 0 ==> BracketsCounter(s[..|s| - 1]) == 0
  {
    assert s == s[..|s| - 1] + [s[|s| - 1]];
    BracketsCounterAppend(s[..|s| - 1], [s[|s| - 1]]);
  }

  /** The result ends at the first balance point after the identifier; only a single
      neutral separator right after the identifier is dropped again. */
  lemma FirstTermEnd(m: string)
    requires FirstTerm(m).Some?
    ensures var k := IdentEnd(m);
            exists e :: k < e <= |m| && BracketsCounter(m[k..e]) == 0
              && (forall e' :: k < e' < e ==> BracketsCounter(m[k..e']) != 0)
              && FirstTerm(m).value ==
                   if !IsIdentifier(m[e - 1]) && CharCounter(m[e - 1]) == 0 then m[..e - 1] else m[..e]
  {
    var k := IdentEnd(m);
    CloseAfterIdent(m, k);
    var e := CloseFrom(m, k + 1, BracketsCounter([m[k]])).value;
    BracketsCounterChar(m[e - 1]);
    assert m[..e][e - 1] == m[e - 1];
    assert m[..e][..e - 1] == m[..e - 1];
  }

  /** An identifier followed by a neutral character (a space, a comma, an operator)
      gives exactly the identifier. */
  lemma FirstTermIdentifier(m: string, k: nat)
    requires k < |m|
    requires forall i :: 0 <= i < k ==> IsIdentifier(m[i])
    requires !IsIdentifier(m[k]) && CharCounter(m[k]) == 0
    ensures FirstTerm(m) == Some(m[..k])
  {
    assert IdentEnd(m) == k;
    BracketsCounterChar(m[k]);
    assert m[..k + 1][k] == m[k];
    assert m[..k + 1][..k] == m[..k];
  }

  /** A match made only of identifier characters is returned whole. */
  lemma FirstTermAllIdentifiers(m: string)
    requires m != []
    requires forall i :: 0 <= i < |m| ==> IsIdentifier(m[i])
    ensures FirstTerm(m) == Some(m)
  {
    var k := IdentEnd(m);
    assert k == |m| - 1;
    BracketsCounterChar(m[k]);
    assert m[..|m|] == m;
  }

  /** The identifier loop stops at the same place when more text follows, once it has
      stopped at a non-identifier character. */
  lemma {:induction false} IdentEndFromExtend(p: string, q: string, i: nat)
    requires i < |p| && forall j :: 0 <= j < i ==> IsIdentifier(p[j])
    requires !IsIdentifier(p[IdentEndFrom(p, i)])
    ensures IdentEndFrom(p + q, i) == IdentEndFrom(p, i)
    decreases |p| - i
  {
    assert (p + q)[i] == p[i];
    if IsIdentifier(p[i]) {
      IdentEndFromExtend(p, q, i + 1);
    }
  }

  /** Once the bracket loop stops inside `p`, what follows `p` does not matter. */
  lemma {:induction false} CloseFromExtend(p: string, q: string, idx: nat, open: int)
    requires idx <= |p| && CloseFrom(p, idx, open).Some?
    ensures CloseFrom(p + q, idx, open) == CloseFrom(p, idx, open)
    decreases |p| - idx
  {
    if open != 0 {
      assert (p + q)[idx] == p[idx];
      CloseFromExtend(p, q, idx + 1, open + BracketsCounter([p[idx]]));
    }
  }

  /** `_parseEnd_` reads no further than the term it cuts out, when the identifier is
      followed by a non-identifier character: text appended to the match changes nothing. */
  lemma FirstTermExtend(p: string, q: string)
    requires p != [] && !IsIdentifier(p[IdentEnd(p)]) && FirstTerm(p).Some?
    ensures FirstTerm(p + q) == FirstTerm(p)
  {
    var k := IdentEnd(p);
    IdentEndFromExtend(p, q, 0);
    assert (p + q)[k] == p[k];
    CloseFromExtend(p, q, k + 1, BracketsCounter([p[k]]));
    var e := CloseFrom(p, k + 1, BracketsCounter([p[k]])).value;
    assert (p + q)[..e] == p[..e];
  }

  /** Brackets that close in order: no prefix closes more than it has opened, and the
      whole string closes all it opens. */
  predicate Balanced(a: string) {
    BracketsCounter(a) == 0 && forall i :: 0 <= i <= |a| ==> BracketsCounter(a[..i]) >= 0
  }

  /** A string with no bracket character has counter 0. */
  lemma {:induction false} NeutralCounter(s: string)
    requires forall i :: 0 <= i < |s| ==> CharCounter(s[i]) == 0
    ensures BracketsCounter(s) == 0
  {
    if s != [] {
      NeutralCounter(s[1..]);
    }
  }

  /** ... and is balanced. */
  lemma NeutralBalanced(a: string)
    requires forall i :: 0 <= i < |a| ==> CharCounter(a[i]) == 0
    ensures Balanced(a)
  {
    NeutralCounter(a);
    forall i | 0 <= i <= |a|
      ensures BracketsCounter(a[..i]) == 0
    {
      NeutralCounter(a[..i]);
    }
  }

  /** Two balanced strings one after the other are balanced. */
  lemma BalancedConcat(x: string, y: string)
    requires Balanced(x) && Balanced(y)
    ensures Balanced(x + y)
  {
    BracketsCounterAppend(x, y);
    forall i | 0 <= i <= |x + y|
      ensures BracketsCounter((x + y)[..i]) >= 0
    {
      if i <= |x| {
        assert (x + y)[..i] == x[..i];
      } else {
        assert (x + y)[..i] == x + y[..i - |x|];
        BracketsCounterAppend(x, y[..i - |x|]);
      }
    }
  }

  /** The counter of a bracketed argument list `(` a `)` and of its proper prefixes. */
  lemma CallCounter(f: string, a: string, t: string, e: nat)
    requires forall i :: 0 <= i < |f| ==> IsIdentifier(f[i])
    requires Balanced(a) && t == f + "(" + a + ")" && |f| < e <= |t|
    ensures BracketsCounter(t[|f|..e]) == if e == |t| then 0 else 1 + BracketsCounter(a[..e - |f| - 1])
  {
    BracketsCounterChar('(');
    BracketsCounterChar(')');
    if e == |t| {
      assert t[|f|..e] == "(" + a + ")";
      BracketsCounterAppend("(" + a, ")");
      BracketsCounterAppend("(", a);
    } else {
      assert t[|f|..e] == "(" + a[..e - |f| - 1];
      BracketsCounterAppend("(", a[..e - |f| - 1]);
    }
  }

  /** A compound term `f(a)`, with `f` an identifier and `a` balanced, is cut out whole, it
      is balanced itself, and its identifier is followed by the bracket (so anything may
      follow the term, as `FirstTermExtend` shows). */
  lemma CallTerm(f: string, a: string)
    requires f != [] && forall i :: 0 <= i < |f| ==> IsIdentifier(f[i])
    requires Balanced(a)
    ensures var t := f + "(" + a + ")";
            FirstTerm(t) == Some(t) && !IsIdentifier(t[IdentEnd(t)]) && Balanced(t)
  {
    var t := f + "(" + a + ")";
    var k := |f|;
    BracketsCounterChar('(');
    BracketsCounterChar(')');
    assert t[k] == '(' && t[|t| - 1] == ')';
    forall j | 0 <= j < k
      ensures t[j] == f[j]
    {
    }
    assert IdentEnd(t) == k;
    CloseAfterIdent(t, k);
    forall e | k < e <= |t|
      ensures (BracketsCounter(t[k..e]) == 0) == (e == |t|)
    {
      CallCounter(f, a, t, e);
    }
    assert BracketsCounter(t[k..|t|]) == 0;
    assert CloseFrom(t, k + 1, BracketsCounter([t[k]])) == Some(|t|);
    assert t[..|t|] == t;
    assert !IsIdentifier(')') && BracketsCounter([t[|t| - 1]]) != 0;
    assert Balanced(t) by {
      BracketsCounterIdentifiers(f);
      forall i | 0 <= i <= |t|
        ensures BracketsCounter(t[..i]) >= 0
      {
        if i <= k {
          BracketsCounterIdentifiers(t[..i]);
        } else {
          assert t[..i] == t[..k] + t[k..i];
          BracketsCounterAppend(t[..k], t[k..i]);
          BracketsCounterIdentifiers(t[..k]);
          CallCounter(f, a, t, i);
        }
      }
      assert t[..|t|] == f + t[k..|t|];
      BracketsCounterAppend(f, t[k..|t|]);
      CallCounter(f, a, t, |t|);
    }
  }

  /** `_parseEnd_` as the Python loops compute it. */
  method ParseEnd(m: string) returns (r: Option<string>)
    ensures r == FirstTerm(m)
  {
    if |m| == 0 {
      return None;
    }
    var idx := 0;
    var i := 0;
    while i < |m|
      invariant 0 <= i <= |m| && idx <= i && idx < |m|
      invariant forall j :: 0 <= j < i ==> IsIdentifier(m[j])
      invariant i == 0 || idx == i - 1
    {
      idx := i;
      if !IsIdentifier(m[i]) {
        break;
      }
      i := i + 1;
    }
    ghost var k := idx;
    assert k == IdentEnd(m);
    var open := BracketsCounter([m[idx]]);
    idx := idx + 1;
    while open != 0
      invariant k < idx <= |m|
      invariant CloseFrom(m, idx, open) == CloseFrom(m, k + 1, BracketsCounter([m[k]]))
      decreases |m| - idx
    {
      if idx == |m| {
        return None;
      }
      open := open + BracketsCounter([m[idx]]);
      idx := idx + 1;
    }
    var result := m[..idx];
    if !IsIdentifier(result[|result| - 1]) && BracketsCounter([result[|result| - 1]]) == 0 {
      return Some(result[..|result| - 1]);
    }
    return Some(result);
  }

  lemma FirstTermExampleClose(m: string)
    requires m == "a(b,c(?X)) :- d(?X)"
    ensures CloseFrom(m, 2, 1) == Some(10)
  {
    assert CloseFrom(m, 10, 0) == Some(10);
    assert CloseFrom(m, 9, 1) == Some(10) by { BracketsCounterChar(m[9]); }
    assert CloseFrom(m, 8, 2) == Some(10) by { BracketsCounterChar(m[8]); }
    assert CloseFrom(m, 7, 2) == Some(10) by { BracketsCounterChar(m[7]); }
    assert CloseFrom(m, 6, 2) == Some(10) by { BracketsCounterChar(m[6]); }
    assert CloseFrom(m, 5, 1) == Some(10) by { BracketsCounterChar(m[5]); }
    assert CloseFrom(m, 4, 1) == Some(10) by { BracketsCounterChar(m[4]); }
    assert CloseFrom(m, 3, 1) == Some(10) by { BracketsCounterChar(m[3]); }
    assert CloseFrom(m, 2, 1) == Some(10) by { BracketsCounterChar(m[2]); }
  }

  /** The docstring example: `_parseEnd_('a(b,c(?X)) :- d(?X)') == 'a(b,c(?X))'`. */
  lemma FirstTermExample(m: string)
    requires m == "a(b,c(?X)) :- d(?X)"
    ensures FirstTerm(m) == Some("a(b,c(?X))")
  {
    assert IsIdentifier(m[0]) && !IsIdentifier(m[1]);
    assert IdentEnd(m) == 1;
    BracketsCounterChar(m[1]);
    FirstTermExampleClose(m);
    BracketsCounterChar(m[9]);
    assert m[..10] == "a(b,c(?X))";
  }
}
