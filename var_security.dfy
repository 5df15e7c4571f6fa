/**
 `testVarSecurity`: the allow-list check a value must pass before it is embedded
 in a query.  Strings must consist of letters, digits and `_?()[] "`; lists and
 dictionaries are checked item by item, a dictionary after its key `'self'` has been
 popped.  The function's result, or the exception it raises, is an `Outcome`; the
 dictionaries it pops from are returned as the value after the call.
 */
module VarSecurity {
  import opened PyStr

  /** The Python values the function tells apart. */
  datatype Value =
    | Str(s: string)           // `str`, the type of `''`
    | Unicode(u: string)       // `unicode`, which is not `type('')`
    | Bool(b: bool)
    | List(items: seq<Value>)
    | Dict(entries: seq<Entry>) // in the dictionary's iteration order
    | Other(typeName: string)  // int, float, tuple, None, ...

  datatype Entry = Entry(key: Value, value: Value)

  /** `return True`/`return False`, `raise InsecureVariable(var)`, or the failed
      `assert False, 'Unknown type of input: ...'`. */
  datatype Outcome = Returned(secure: bool) | Raised(culprit: string) | AssertionFailed

  /** The last `elif` as written (`elif type(True):`, always taken) or as intended
      (`elif type(var) == type(True):`). */
  datatype Reading = AsWritten | Intended

  /** The character class `[a-zA-Z0-9_?()[\] "]` */
  predicate AllowedChar(c: char) {
    ('a' <= c <= 'z') || ('A' <= c <= 'Z') || ('0' <= c <= '9')
    || c == '_' || c == '?' || c == '(' || c == ')' || c == '[' || c == ']' || c == ' ' || c == '"'
  }

  predicate AllAllowed(s: string) {
    forall i :: 0 <= i < |s| ==> AllowedChar(s[i])
  }

  /** `re.match('^[...]*$', s) != None`: `$` also matches before a final newline. */
  predicate AllowListMatch(s: string) {
    AllAllowed(s) || (s != [] && s[|s| - 1] == '\n' && AllAllowed(s[..|s| - 1]))
  }

  /** `var.has_key('self')`: a byte or unicode string `self` is the same key. */
  predicate IsSelf(k: Value) {
    k == Str("self") || k == Unicode("self")
  }

  /** The entries left after `var.pop('self')`. */
  function WithoutSelf(entries: seq<Entry>): (r: seq<Entry>)
    ensures forall e :: e in r <==> e in entries && !IsSelf(e.key)
  {
    if entries == [] then []
    else (if IsSelf(entries[0].key) then [] else [entries[0]]) + WithoutSelf(entries[1..])
  }

  /** The branch for a value that is no string, list or dictionary. */
  function OtherType(v: Value, reading: Reading): Outcome {
    if reading == AsWritten || v.Bool? then Returned(true) else AssertionFailed
  }

  /** `testVarSecurity(var, raiseE)`: its outcome and `var` afterwards. */
  function Check(v: Value, raiseE: bool, reading: Reading): (Outcome, Value)
    decreases v
  {
    match v
    case Str(s) =>
      if AllowListMatch(s) then (Returned(true), v)
      else if raiseE then (Raised(s), v)
      else (Returned(false), v)
    case List(items) =>
      var (o, items') := CheckItems(items, raiseE, reading);
      (o, List(items'))
    case Dict(entries) =>
      var (o, entries') := CheckEntries(entries, raiseE, reading);
      (o, Dict(WithoutSelf(entries')))
    case _ => (OtherType(v, reading), v)
  }

  /** `for item in var: if not testVarSecurity(item, raiseE): return False`, then `True`. */
  function CheckItems(items: seq<Value>, raiseE: bool, reading: Reading): (r: (Outcome, seq<Value>))
    ensures |r.1| == |items|
    decreases items
  {
    if items == [] then (Returned(true), [])
    else
      var (o, first) := Check(items[0], raiseE, reading);
      if o == Returned(true) then
        var (o', rest) := CheckItems(items[1..], raiseE, reading);
        (o', [first] + rest)
      else (o, [first] + items[1..])
  }

  /** The same loop over `var.values()`, skipping the popped `'self'` entry. */
  function CheckEntries(entries: seq<Entry>, raiseE: bool, reading: Reading): (r: (Outcome, seq<Entry>))
    ensures |r.1| == |entries|
    ensures forall i :: 0 <= i < |entries| ==> r.1[i].key == entries[i].key
    decreases entries
  {
    if entries == [] then (Returned(true), [])
    else if IsSelf(entries[0].key) then
      var (o, rest) := CheckEntries(entries[1..], raiseE, reading);
      (o, [entries[0]] + rest)
    else
      assert entries[0].value < entries[0];
      var (o, first) := Check(entries[0].value, raiseE, reading);
      var e := Entry(entries[0].key, first);
      if o == Returned(true) then
        var (o', rest) := CheckEntries(entries[1..], raiseE, reading);
        (o', [e] + rest)
      else (o, [e] + entries[1..])
  }

  /** Every string the check looks at matches the allow list and, as intended, every
      other leaf is a boolean. */
  predicate Secure(v: Value, reading: Reading)
    decreases v
  {
    match v
    case Str(s) => AllowListMatch(s)
    case List(items) => forall i :: 0 <= i < |items| ==> Secure(items[i], reading)
    case Dict(entries) =>
      forall i :: 0 <= i < |entries| && !IsSelf(entries[i].key) ==> Secure(entries[i].value, reading)
    case Bool(_) => true
    case _ => reading == AsWritten
  }

  /** `s` is a string the check looks at and the allow list refuses. */
  ghost predicate Insecure(v: Value, s: string)
    decreases v
  {
    match v
    case Str(t) => t == s && !AllowListMatch(s)
    case List(items) => exists i :: 0 <= i < |items| && Insecure(items[i], s)
    case Dict(entries) =>
      exists i :: 0 <= i < |entries| && !IsSelf(entries[i].key) && Insecure(entries[i].value, s)
    case _ => false
  }

  /** The check looks at a value of a type it does not know. */
  predicate Unknown(v: Value)
    decreases v
  {
    match v
    case Str(_) => false
    case Bool(_) => false
    case List(items) => exists i :: 0 <= i < |items| && Unknown(items[i])
    case Dict(entries) =>
      exists i :: 0 <= i < |entries| && !IsSelf(entries[i].key) && Unknown(entries[i].value)
    case _ => true
  }

  /** What an outcome says about the value it was computed for. */
  ghost predicate Explains(o: Outcome, v: Value, raiseE: bool, reading: Reading) {
    (o == Returned(true) <==> Secure(v, reading))
    && (o == Returned(false) ==> !raiseE && exists s :: Insecure(v, s))
    && (o.Raised? ==> raiseE && Insecure(v, o.culprit))
    && (o == AssertionFailed ==> reading == Intended && Unknown(v))
  }

  /** The outcome of the check is explained by the value: `True` exactly for a secure
      value, `False` (or, with `raiseE`, the exception naming the string) only when a
      string is refused, the assertion only for an unknown type as intended. */
  lemma {:induction false} CheckExplains(v: Value, raiseE: bool, reading: Reading)
    ensures Explains(Check(v, raiseE, reading).0, v, raiseE, reading)
    decreases v
  {
    match v
    case Str(s) =>
      assert !AllowListMatch(s) ==> Insecure(v, s);
    case List(items) =>
      CheckItemsExplains(items, raiseE, reading);
      if Check(v, raiseE, reading).0 == Returned(false) {
        var i, s :| 0 <= i < |items| && Insecure(items[i], s);
        assert Insecure(v, s);
      }
    case Dict(entries) =>
      CheckEntriesExplains(entries, raiseE, reading);
      if Check(v, raiseE, reading).0 == Returned(false) {
        var i, s :| 0 <= i < |entries| && !IsSelf(entries[i].key) && Insecure(entries[i].value, s);
        assert Insecure(v, s);
      }
    case _ =>
  }

  lemma {:induction false} CheckItemsExplains(items: seq<Value>, raiseE: bool, reading: Reading)
    ensures var o := CheckItems(items, raiseE, reading).0;
            (o == Returned(true) <==> forall i :: 0 <= i < |items| ==> Secure(items[i], reading))
            && (o == Returned(false) ==> !raiseE && exists i, s :: 0 <= i < |items| && Insecure(items[i], s))
            && (o.Raised? ==> raiseE && exists i :: 0 <= i < |items| && Insecure(items[i], o.culprit))
            && (o == AssertionFailed ==> reading == Intended && exists i :: 0 <= i < |items| && Unknown(items[i]))
    decreases items
  {
    if items != [] {
      CheckExplains(items[0], raiseE, reading);
      CheckItemsExplains(items[1..], raiseE, reading);
      forall i | 0 < i < |items|
        ensures items[i] == items[1..][i - 1]
      {
      }
    }
  }

  lemma {:induction false} CheckEntriesExplains(entries: seq<Entry>, raiseE: bool, reading: Reading)
    ensures var o := CheckEntries(entries, raiseE, reading).0;
            (o == Returned(true) <==>
               forall i :: 0 <= i < |entries| && !IsSelf(entries[i].key) ==> Secure(entries[i].value, reading))
            && (o == Returned(false) ==>
                  !raiseE && exists i, s :: 0 <= i < |entries| && !IsSelf(entries[i].key) && Insecure(entries[i].value, s))
            && (o.Raised? ==>
                  raiseE && exists i :: 0 <= i < |entries| && !IsSelf(entries[i].key) && Insecure(entries[i].value, o.culprit))
            && (o == AssertionFailed ==>
                  reading == Intended && exists i :: 0 <= i < |entries| && !IsSelf(entries[i].key) && Unknown(entries[i].value))
    decreases entries
  {
    if entries != [] {
      if !IsSelf(entries[0].key) {
        assert entries[0].value < entries[0];
        CheckExplains(entries[0].value, raiseE, reading);
      }
      CheckEntriesExplains(entries[1..], raiseE, reading);
      forall i | 0 < i < |entries|
        ensures entries[i] == entries[1..][i - 1]
      {
      }
    }
  }

  /** The value with `'self'` popped from every dictionary the check looks into. */
  function Purge(v: Value): Value
    decreases v
  {
    match v
    case List(items) => List(PurgeItems(items))
    case Dict(entries) => Dict(PurgeEntries(entries))
    case _ => v
  }

  function PurgeItems(items: seq<Value>): (r: seq<Value>)
    ensures |r| == |items|
    decreases items
  {
    if items == [] then [] else [Purge(items[0])] + PurgeItems(items[1..])
  }

  function PurgeEntries(entries: seq<Entry>): seq<Entry>
    decreases entries
  {
    if entries == [] then []
    else if IsSelf(entries[0].key) then PurgeEntries(entries[1..])
    else
      assert entries[0].value < entries[0];
      [Entry(entries[0].key, Purge(entries[0].value))] + PurgeEntries(entries[1..])
  }

  /** Whatever the outcome, the dictionary checked has lost its key `'self'`. */
  lemma DictPopped(entries: seq<Entry>, raiseE: bool, reading: Reading)
    ensures var after := Check(Dict(entries), raiseE, reading).1;
            after.Dict? && forall e :: e in after.entries ==> !IsSelf(e.key)
  {
  }

  /** A value found secure has afterwards lost `'self'` from each of its dictionaries,
      and nothing else. */
  lemma {:induction false} SecureAfter(v: Value, raiseE: bool, reading: Reading)
    requires Check(v, raiseE, reading).0 == Returned(true)
    ensures Check(v, raiseE, reading).1 == Purge(v)
    decreases v
  {
    match v
    case List(items) => SecureItemsAfter(items, raiseE, reading);
    case Dict(entries) => SecureEntriesAfter(entries, raiseE, reading);
    case _ =>
  }

  lemma {:induction false} SecureItemsAfter(items: seq<Value>, raiseE: bool, reading: Reading)
    requires CheckItems(items, raiseE, reading).0 == Returned(true)
    ensures CheckItems(items, raiseE, reading).1 == PurgeItems(items)
    decreases items
  {
    if items != [] {
      SecureAfter(items[0], raiseE, reading);
      SecureItemsAfter(items[1..], raiseE, reading);
    }
  }

  lemma {:induction false} SecureEntriesAfter(entries: seq<Entry>, raiseE: bool, reading: Reading)
    requires CheckEntries(entries, raiseE, reading).0 == Returned(true)
    ensures WithoutSelf(CheckEntries(entries, raiseE, reading).1) == PurgeEntries(entries)
    decreases entries
  {
    if entries != [] {
      var r := CheckEntries(entries, raiseE, reading).1;
      if !IsSelf(entries[0].key) {
        assert entries[0].value < entries[0];
        SecureAfter(entries[0].value, raiseE, reading);
      }
      SecureEntriesAfter(entries[1..], raiseE, reading);
      assert r == [r[0]] + r[1..];
      assert WithoutSelf(r) == (if IsSelf(r[0].key) then [] else [r[0]]) + WithoutSelf(r[1..]);
    }
  }

  /** `testVarSecurity` as the code runs it, one recursive call per item. */
  method TestVarSecurity(v: Value, raiseE: bool, reading: Reading) returns (o: Outcome, after: Value)
    ensures (o, after) == Check(v, raiseE, reading)
    decreases v
  {
    match v {
      case Str(s) =>
        if !AllowListMatch(s) {
          if raiseE {
            return Raised(s), v;
          }
          return Returned(false), v;
        }
        return Returned(true), v;
      case List(items) =>
        var items';
        o, items' := TestItems(items, raiseE, reading);
        after := List(items');
      case Dict(entries) =>
        var entries';
        o, entries' := TestValues(entries, raiseE, reading);
        after := Dict(WithoutSelf(entries'));
      case Bool(_) =>
        return Returned(true), v;
      case _ =>
        if reading == AsWritten {
          return Returned(true), v;
        }
        return AssertionFailed, v;
    }
  }

  /** The loop over a list's items; it stops at the first item that is not secure. */
  method TestItems(items: seq<Value>, raiseE: bool, reading: Reading) returns (o: Outcome, after: seq<Value>)
    ensures (o, after) == CheckItems(items, raiseE, reading)
    decreases items
  {
    var done: seq<Value> := [];
    var i := 0;
    assert items[0..] == items;
    assert done + CheckItems(items, raiseE, reading).1 == CheckItems(items, raiseE, reading).1;
    while i < |items|
      invariant 0 <= i <= |items| && |done| == i
      invariant CheckItems(items, raiseE, reading) ==
                  (CheckItems(items[i..], raiseE, reading).0, done + CheckItems(items[i..], raiseE, reading).1)
    {
      assert items[i..][0] == items[i] && items[i..][1..] == items[i + 1..];
      var oi, ai := TestVarSecurity(items[i], raiseE, reading);
      if oi != Returned(true) {
        AppendAssoc(done, [ai], items[i + 1..]);
        return oi, done + [ai] + items[i + 1..];
      }
      AppendAssoc(done, [ai], CheckItems(items[i + 1..], raiseE, reading).1);
      done := done + [ai];
      i := i + 1;
    }
    assert done + [] == done;
    return Returned(true), done;
  }

  /** What the loop body does with one entry: `'self'` is passed over, any other
      value is checked. */
  function EntryStep(e: Entry, raiseE: bool, reading: Reading): (Outcome, Entry)
    decreases e
  {
    if IsSelf(e.key) then (Returned(true), e)
    else
      assert e.value < e;
      var c := Check(e.value, raiseE, reading);
      (c.0, Entry(e.key, c.1))
  }

  /** `CheckEntries` unfolded once at position `i`. */
  lemma CheckEntriesAt(entries: seq<Entry>, raiseE: bool, reading: Reading, i: nat)
    requires i < |entries|
    ensures var s := EntryStep(entries[i], raiseE, reading);
            var rest := CheckEntries(entries[i + 1..], raiseE, reading);
            CheckEntries(entries[i..], raiseE, reading) ==
              if s.0 == Returned(true) then (rest.0, [s.1] + rest.1)
              else (s.0, [s.1] + entries[i + 1..])
  {
    assert entries[i..][0] == entries[i] && entries[i..][1..] == entries[i + 1..];
  }

  /** One turn of the loop over a dictionary's values. */
  method TestEntry(e: Entry, raiseE: bool, reading: Reading) returns (o: Outcome, e': Entry)
    ensures (o, e') == EntryStep(e, raiseE, reading)
    decreases e
  {
    if IsSelf(e.key) {
      return Returned(true), e;
    }
    assert e.value < e;
    var ai;
    o, ai := TestVarSecurity(e.value, raiseE, reading);
    e' := Entry(e.key, ai);
  }

  /** The loop over a dictionary's values.  The code pops `'self'` first; here the loop
      skips that entry, which the caller then leaves out of the dictionary. */
  method TestValues(entries: seq<Entry>, raiseE: bool, reading: Reading) returns (o: Outcome, after: seq<Entry>)
    ensures (o, after) == CheckEntries(entries, raiseE, reading)
    decreases entries
  {
    var done: seq<Entry> := [];
    var i := 0;
    assert entries[0..] == entries;
    assert done + CheckEntries(entries, raiseE, reading).1 == CheckEntries(entries, raiseE, reading).1;
    while i < |entries|
      invariant 0 <= i <= |entries| && |done| == i
      invariant CheckEntries(entries, raiseE, reading) ==
                  (CheckEntries(entries[i..], raiseE, reading).0, done + CheckEntries(entries[i..], raiseE, reading).1)
    {
      ghost var rest := CheckEntries(entries[i + 1..], raiseE, reading);
      CheckEntriesAt(entries, raiseE, reading, i);
      var oi, e' := TestEntry(entries[i], raiseE, reading);
      if oi != Returned(true) {
        AppendAssoc(done, [e'], entries[i + 1..]);
        return oi, done + [e'] + entries[i + 1..];
      }
      AppendAssoc(done, [e'], rest.1);
      done := done + [e'];
      i := i + 1;
    }
    assert done + [] == done;
    return Returned(true), done;
  }

  /** The docstring examples on strings: `''` passes, `':-('` does not. */
  lemma StringExamples(reading: Reading)
    ensures Check(Str(""), false, reading).0 == Returned(true)
    ensures Check(Str(":-("), false, reading).0 == Returned(false)
    ensures Check(Str(":-("), true, reading).0 == Raised(":-(")
  {
    assert !AllowedChar(":-("[0]);
    assert ":-("[2] != '\n';
  }

  /** The docstring examples on lists and dictionaries. */
  lemma ContainerExamples(reading: Reading)
    ensures Check(List([Str("")]), false, reading).0 == Returned(true)
    ensures Check(List([Str(""), Str("")]), false, reading).0 == Returned(true)
    ensures Check(List([Str(":-(")]), false, reading).0 == Returned(false)
    ensures Check(Dict([Entry(Other("int"), Str(""))]), false, reading).0 == Returned(true)
    ensures Check(Dict([Entry(Other("int"), Str(":-("))]), false, reading).0 == Returned(false)
  {
    StringExamples(reading);
    assert [Str(""), Str("")][1..] == [Str("")];
  }

  /** Called with `locals()`, the method's own `self` is neither checked nor kept. */
  lemma SelfExample(reading: Reading)
    ensures Check(Dict([Entry(Str("self"), Other("Flora2")), Entry(Str("x"), Str("p"))]), false, reading)
            == (Returned(true), Dict([Entry(Str("x"), Str("p"))]))
  {
    var es := [Entry(Str("self"), Other("Flora2")), Entry(Str("x"), Str("p"))];
    assert es[1..] == [Entry(Str("x"), Str("p"))];
    assert AllowListMatch("p") by {
      assert AllowedChar("p"[0]);
    }
    assert Check(Str("p"), false, reading) == (Returned(true), Str("p"));
    var t := [Entry(Str("x"), Str("p"))];
    assert t[1..] == [] && es[1..] == t;
    assert !IsSelf(t[0].key);
    assert CheckEntries(t, false, reading) == (Returned(true), [t[0]] + []);
    assert [t[0]] + [] == t;
    assert CheckEntries(es, false, reading) == (Returned(true), [es[0]] + es[1..]);
    assert [es[0]] + es[1..] == es;
    assert IsSelf(es[0].key);
    assert WithoutSelf(es) == [] + WithoutSelf(t);
    assert WithoutSelf(t) == [t[0]] + WithoutSelf([]);
    assert WithoutSelf(es) == t;
    assert Check(Dict(es), false, reading) == (Returned(true), Dict(WithoutSelf(es)));
  }

  /** As written, the last `elif` tests `type(True)`, which is always true: a value of
      any other type passes unchecked, a `unicode` string with a `:-` in it included. */
  lemma AsWrittenAcceptsUnicode(v: Value, raiseE: bool)
    requires !v.Str? && !v.List? && !v.Dict?
    ensures Check(v, raiseE, AsWritten).0 == Returned(true)
    ensures Check(Unicode(":-("), raiseE, AsWritten).0 == Returned(true) && !AllowListMatch(":-(")
  {
    assert !AllowedChar(":-("[0]);
    assert ":-("[2] != '\n';
  }

  /** A value the intended check passes holds nothing of an unknown type. */
  lemma {:induction false} SecureIsKnown(v: Value)
    requires Secure(v, Intended)
    ensures !Unknown(v)
    decreases v
  {
    match v
    case List(items) =>
      forall i | 0 <= i < |items|
        ensures !Unknown(items[i])
      {
        SecureIsKnown(items[i]);
      }
    case Dict(entries) =>
      forall i | 0 <= i < |entries| && !IsSelf(entries[i].key)
        ensures !Unknown(entries[i].value)
      {
        assert entries[i].value < entries[i];
        SecureIsKnown(entries[i].value);
      }
    case _ =>
  }

  /** As intended, only strings, lists, dictionaries and booleans are known: a
      `unicode` string fails the assertion, and whatever passes holds no value of
      another type. */
  lemma IntendedRejectsUnknown(v: Value, raiseE: bool)
    ensures Check(Unicode(":-("), raiseE, Intended).0 == AssertionFailed
    ensures Check(v, raiseE, Intended).0 == Returned(true) ==> Secure(v, Intended) && !Unknown(v)
  {
    CheckExplains(v, raiseE, Intended);
    if Check(v, raiseE, Intended).0 == Returned(true) {
      SecureIsKnown(v);
    }
  }
}
