/** Failure-compatible wrappers: `None` / `Err` stand for the Python code raising. */
module Wrappers {

  datatype Option<+T> = None | Some(value: T)

  datatype Result<+T, +E> = Ok(value: T) | Err(error: E)
}

/**
 The few Python 2 `str` operations the completion engine and the
 knowledge-base helpers rely on, with contracts that say what each returns.
 Characters are Dafny `char`s; Python 2 byte strings are modelled as strings
 of their byte values.
 */
module PyStr {

  /** Concatenation regrouped; a step the solver is slow to find in a large context. */
  lemma AppendAssoc<T>(a: seq<T>, b: seq<T>, c: seq<T>)
    ensures a + (b + c) == (a + b) + c
  {
  }

  /** `s.startswith(p)` */
  predicate StartsWith(s: string, p: string) {
    |p| <= |s| && s[..|p|] == p
  }

  /** `s.endswith(p)` */
  predicate EndsWith(s: string, p: string) {
    |p| <= |s| && s[|s| - |p|..] == p
  }

  /** `sub` occurs in `s` starting at index `i` */
  predicate OccursAt(s: string, sub: string, i: int) {
    0 <= i && i + |sub| <= |s| && s[i..i + |sub|] == sub
  }

  /** `s.find(sub, start)`: the least occurrence at or after `start`, or -1. */
  function Find(s: string, sub: string, start: nat): (r: int)
    ensures r == -1 || (start <= r && OccursAt(s, sub, r))
    ensures r != -1 ==> forall i :: start <= i < r ==> !OccursAt(s, sub, i)
    ensures r == -1 <==> forall i :: start <= i ==> !OccursAt(s, sub, i)
    decreases |s| - start
  {
    if start + |sub| > |s| then -1
    else if s[start..start + |sub|] == sub then start
    else Find(s, sub, start + 1)
  }

  /** `find` gives the first occurrence from `start` on. */
  lemma FindIs(s: string, sub: string, start: nat, p: nat)
    requires start <= p && OccursAt(s, sub, p)
    requires forall i :: start <= i < p ==> !OccursAt(s, sub, i)
    ensures Find(s, sub, start) == p
  {
  }

  /** A one-character pattern occurs exactly where that character is. */
  lemma OccursAtChar(s: string, c: char, i: int)
    ensures OccursAt(s, [c], i) <==> 0 <= i < |s| && s[i] == c
  {
    if 0 <= i < |s| {
      assert s[i..i + 1][0] == s[i];
    }
  }

  /** Every character of an occurrence is a character of the string. */
  lemma OccursHasChar(s: string, sub: string, i: int, j: nat)
    requires OccursAt(s, sub, i) && j < |sub|
    ensures sub[j] in s
  {
    assert s[i..i + |sub|][j] == s[i + j];
  }

  /** A pattern holding a character the string lacks is not found. */
  lemma FindAbsent(s: string, sub: string, j: nat, start: nat)
    requires j < |sub| && sub[j] !in s
    ensures Find(s, sub, start) == -1
  {
    forall i | start <= i
      ensures !OccursAt(s, sub, i)
    {
      if OccursAt(s, sub, i) {
        OccursHasChar(s, sub, i, j);
      }
    }
  }

  /** `s.rfind(sub)`: the greatest occurrence, or -1. */
  function RFind(s: string, sub: string): (r: int)
    ensures r == -1 || OccursAt(s, sub, r)
    ensures r != -1 ==> forall i :: r < i ==> !OccursAt(s, sub, i)
    ensures r == -1 <==> forall i :: !OccursAt(s, sub, i)
  {
    if |sub| > |s| then -1 else RFindDown(s, sub, |s| - |sub|)
  }

  /** The greatest occurrence at or before `i`, or -1. */
  function RFindDown(s: string, sub: string, i: nat): (r: int)
    requires i + |sub| <= |s|
    ensures r == -1 || (r <= i && OccursAt(s, sub, r))
    ensures forall k :: r < k <= i ==> !OccursAt(s, sub, k)
    ensures r == -1 <==> forall k :: 0 <= k <= i ==> !OccursAt(s, sub, k)
  {
    if s[i..i + |sub|] == sub then i
    else if i == 0 then -1
    else RFindDown(s, sub, i - 1)
  }

  /** The whitespace `str.strip()` removes: space, tab, line feed, vertical tab, form feed, carriage return. */
  predicate IsSpace(c: char) {
    c == ' ' || ('\t' <= c <= '\r')
  }

  /** `s.rstrip()` */
  function RStrip(s: string): (r: string)
    ensures |r| <= |s|
  {
    if |s| > 0 && IsSpace(s[|s| - 1]) then RStrip(s[..|s| - 1]) else s
  }

  /** `s.lstrip()` */
  function LStrip(s: string): (r: string)
    ensures |r| <= |s|
  {
    if |s| > 0 && IsSpace(s[0]) then LStrip(s[1..]) else s
  }

  /** `rstrip` removes exactly the trailing whitespace. */
  lemma {:induction false} RStripSpec(s: string)
    ensures StartsWith(s, RStrip(s))
    ensures RStrip(s) == [] || !IsSpace(RStrip(s)[|RStrip(s)| - 1])
    ensures forall i :: |RStrip(s)| <= i < |s| ==> IsSpace(s[i])
  {
    if |s| > 0 && IsSpace(s[|s| - 1]) {
      RStripSpec(s[..|s| - 1]);
    }
  }

  /** `lstrip` removes exactly the leading whitespace. */
  lemma {:induction false} LStripSpec(s: string)
    ensures EndsWith(s, LStrip(s))
    ensures LStrip(s) == [] || !IsSpace(LStrip(s)[0])
    ensures forall i :: 0 <= i < |s| - |LStrip(s)| ==> IsSpace(s[i])
  {
    if |s| > 0 && IsSpace(s[0]) {
      LStripSpec(s[1..]);
    }
  }

  /** `s.strip()`: `s` without its leading and trailing whitespace. */
  function Strip(s: string): (r: string)
    ensures |r| <= |s|
  {
    LStrip(RStrip(s))
  }

  /** A prefix `t` of `s` followed by whitespace, and a suffix `r` of `t` preceded
      by whitespace: `r` is the slice `s[a..b]` with only whitespace around it. */
  lemma SliceAround(s: string, t: string, r: string) returns (a: nat, b: nat)
    requires StartsWith(s, t) && EndsWith(t, r)
    requires forall i :: |t| <= i < |s| ==> IsSpace(s[i])
    requires forall i :: 0 <= i < |t| - |r| ==> IsSpace(t[i])
    ensures a <= b <= |s| && r == s[a..b]
    ensures forall i :: 0 <= i < a ==> IsSpace(s[i])
    ensures forall i :: b <= i < |s| ==> IsSpace(s[i])
  {
    a, b := |t| - |r|, |t|;
    assert r == s[a..b];
    forall i | 0 <= i < a
      ensures IsSpace(s[i])
    {
      assert s[i] == t[i];
    }
  }

  /** Where what `strip` keeps lies in its argument. */
  lemma StripBounds(s: string) returns (a: nat, b: nat)
    ensures a <= b <= |s| && Strip(s) == s[a..b]
    ensures forall i :: 0 <= i < a ==> IsSpace(s[i])
    ensures forall i :: b <= i < |s| ==> IsSpace(s[i])
  {
    var t := RStrip(s);
    var r := LStrip(t);
    assert Strip(s) == r;
    assert StartsWith(s, t) && forall i :: |t| <= i < |s| ==> IsSpace(s[i]) by {
      RStripSpec(s);
    }
    assert EndsWith(t, r) && forall i :: 0 <= i < |t| - |r| ==> IsSpace(t[i]) by {
      LStripSpec(t);
    }
    a, b := SliceAround(s, t, r);
  }

  /** What `strip` keeps is a slice of its argument with only whitespace around it. */
  lemma StripSlice(s: string)
    ensures exists a, b :: 0 <= a <= b <= |s| && Strip(s) == s[a..b]
              && (forall i :: 0 <= i < a ==> IsSpace(s[i]))
              && (forall i :: b <= i < |s| ==> IsSpace(s[i]))
  {
    var a, b := StripBounds(s);
  }

  /** What `strip` keeps begins and ends with a non-space. */
  lemma StripEnds(s: string)
    ensures Strip(s) == [] || (!IsSpace(Strip(s)[0]) && !IsSpace(Strip(s)[|Strip(s)| - 1]))
  {
    var t := RStrip(s);
    var r := LStrip(t);
    RStripSpec(s);
    LStripSpec(t);
    if r != [] {
      assert r[|r| - 1] == t[|t| - 1];
    }
  }

  /** A string that starts and ends with a non-space is its own `strip()`. */
  lemma StripUnchanged(s: string)
    requires s != [] && !IsSpace(s[0]) && !IsSpace(s[|s| - 1])
    ensures Strip(s) == s
  {
    assert RStrip(s) == s;
    assert LStrip(s) == s;
  }

  /** `s.replace(c, '')` for a one-character pattern */
  function RemoveChar(s: string, c: char): (r: string)
    ensures forall i :: 0 <= i < |r| ==> r[i] != c
    ensures forall x :: x != c ==> (x in r <==> x in s)
  {
    if s == [] then []
    else (if s[0] == c then [] else [s[0]]) + RemoveChar(s[1..], c)
  }

  /** Removing a character that does not occur changes nothing. */
  lemma {:induction false} RemoveCharAbsent(s: string, c: char)
    requires c !in s
    ensures RemoveChar(s, c) == s
  {
    if s != [] {
      assert c !in s[1..];
      RemoveCharAbsent(s[1..], c);
      assert s == [s[0]] + s[1..];
    }
  }

  /** `s.split(sep)[0]` for a non-empty separator: everything before the first `sep`. */
  function BeforeFirst(s: string, sep: string): (r: string)
    requires sep != []
    ensures StartsWith(s, r)
    ensures forall i :: 0 <= i < |r| ==> !OccursAt(s, sep, i)
    ensures |r| < |s| ==> OccursAt(s, sep, |r|)
  {
    var i := Find(s, sep, 0);
    if i == -1 then s else s[..i]
  }

  /** A string without the separator's first character is not split. */
  lemma BeforeFirstAbsent(s: string, sep: string)
    requires sep != [] && sep[0] !in s
    ensures BeforeFirst(s, sep) == s
  {
    forall i | 0 <= i
      ensures !OccursAt(s, sep, i)
    {
      if i + |sep| <= |s| {
        assert s[i..i + |sep|][0] == s[i];
      }
    }
  }

  /** `s.ljust(width)` */
  function LJust(s: string, width: nat): (r: string)
    ensures |r| == if |s| < width then width else |s|
    ensures StartsWith(r, s)
    ensures forall i :: |s| <= i < |r| ==> r[i] == ' '
  {
    if |s| < width then s + seq(width - |s|, _ => ' ') else s
  }

  /** `str(n)` for a natural number: its decimal digits. */
  function NatToString(n: nat): (r: string)
    ensures |r| > 0
    ensures forall i :: 0 <= i < |r| ==> '0' <= r[i] <= '9'
  {
    var d := [(48 + n % 10) as char];
    if n < 10 then d else NatToString(n / 10) + d
  }

  /** `' '.join(parts)` */
  function JoinSpace(parts: seq<string>): (r: string)
    ensures parts == [] ==> r == []
    ensures |parts| == 1 ==> r == parts[0]
  {
    if parts == [] then []
    else if |parts| == 1 then parts[0]
    else parts[0] + " " + JoinSpace(parts[1..])
  }

  /** `s.count(c)` for a one-character pattern */
  function Count(s: string, c: char): (r: nat)
    ensures r <= |s|
    ensures r == 0 <==> c !in s
  {
    if s == [] then 0 else (if s[0] == c then 1 else 0) + Count(s[1..], c)
  }

  lemma {:induction false} CountAppend(a: string, b: string, c: char)
    ensures Count(a + b, c) == Count(a, c) + Count(b, c)
  {
    if a != [] {
      assert (a + b)[1..] == a[1..] + b;
      CountAppend(a[1..], b, c);
    } else {
      assert a + b == b;
    }
  }

  /** Python 2 `<` on byte strings: lexicographic, a proper prefix first. */
  predicate StrLess(a: string, b: string)
    decreases |a|
  {
    if a == [] then b != []
    else if b == [] then false
    else if a[0] != b[0] then a[0] < b[0]
    else StrLess(a[1..], b[1..])
  }

  lemma {:induction false} StrLessIrreflexive(a: string)
    ensures !StrLess(a, a)
    decreases |a|
  {
    if a != [] { StrLessIrreflexive(a[1..]); }
  }

  lemma {:induction false} StrLessTotal(a: string, b: string)
    ensures StrLess(a, b) || a == b || StrLess(b, a)
    ensures !(StrLess(a, b) && StrLess(b, a))
    decreases |a|
  {
    if a != [] && b != [] && a[0] == b[0] {
      StrLessTotal(a[1..], b[1..]);
      if a[1..] == b[1..] {
        assert a == [a[0]] + a[1..] && b == [b[0]] + b[1..];
      }
    }
  }

  lemma {:induction false} StrLessTransitive(a: string, b: string, c: string)
    requires StrLess(a, b) && StrLess(b, c)
    ensures StrLess(a, c)
    decreases |a|
  {
    if a != [] && a[0] == b[0] && b[0] == c[0] {
      StrLessTransitive(a[1..], b[1..], c[1..]);
    }
  }
}
