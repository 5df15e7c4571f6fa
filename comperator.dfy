/**
 `comperator`, the comparison `format_flr` sorts clauses with: first characters rank
 `:`, `[`, `{`, `=`, `-`, then the lower-case letters, then every other character in
 its natural order; equal first characters pass to the rest, where the shorter
 string comes first once one of them runs out.
 */
module Comperator {
  import opened PyStr

  /** `[chr(char) for char in range(97, 123)]` */
  function Letters(): (r: seq<string>)
    ensures |r| == 26 && forall i :: 0 <= i < 26 ==> r[i] == [(97 + i) as char]
  {
    seq(26, i requires 0 <= i < 26 => [(97 + i) as char])
  }

  /** `[':', '[', '{', '=', '-'] + [chr(char) for char in range(97, 123)]` */
  function BaseOrder(): (r: seq<string>)
    ensures |r| == 31
  {
    [":", "[", "{", "=", "-"] + Letters()
  }

  /** `x[:1]` */
  function Head(x: string): (h: string)
    ensures |h| <= 1 && (x != [] ==> h == [x[0]]) && (x == [] ==> h == [])
  {
    if x == [] then [] else x[..1]
  }

  /** `args = [x[:1], y[:1]]; args.sort()` */
  function Sorted2(a: string, b: string): seq<string> {
    if StrLess(b, a) then [b, a] else [a, b]
  }

  /** `order` after `order += args` */
  function Order(x: string, y: string): seq<string> {
    BaseOrder() + Sorted2(Head(x), Head(y))
  }

  /** `s.index(e)`: the first position of `e`. */
  function IndexOf(s: seq<string>, e: string): (k: nat)
    requires e in s
    ensures k < |s| && s[k] == e && forall j :: 0 <= j < k ==> s[j] != e
  {
    if s[0] == e then 0 else IndexOf(s[1..], e) + 1
  }

  /** `order.index(x[:1]) - order.index(y[:1])` */
  function RankDiff(x: string, y: string): int {
    var order := Order(x, y);
    IndexOf(order, Head(x)) - IndexOf(order, Head(y))
  }

  /** `comperator(x, y)` */
  function Comperator(x: string, y: string): int
    decreases |x|
  {
    var result := RankDiff(x, y);
    if result == 0 then
      if |x| <= 1 || |y| <= 1 then |x| - |y|
      else Comperator(x[1..], y[1..])
    else result / (if result < 0 then -result else result)
  }

  /** The characters with a fixed place in the order. */
  predicate InBase(c: char) {
    c == ':' || c == '[' || c == '{' || c == '=' || c == '-' || ('a' <= c <= 'z')
  }

  /** The place of such a character. */
  function BaseIndex(c: char): (k: nat)
    requires InBase(c)
    ensures k < 31
  {
    if c == ':' then 0
    else if c == '[' then 1
    else if c == '{' then 2
    else if c == '=' then 3
    else if c == '-' then 4
    else 5 + (c as int - 97)
  }

  /** The only position of `e` in a list holding it once is its index. */
  lemma IndexOfAt(s: seq<string>, e: string, k: nat)
    requires k < |s| && s[k] == e && forall j :: 0 <= j < k ==> s[j] != e
    ensures IndexOf(s, e) == k
  {
  }

  /** Where a character with a fixed place is found in the base order. */
  lemma BaseOrderIndex(c: char)
    requires InBase(c)
    ensures [c] in BaseOrder() && IndexOf(BaseOrder(), [c]) == BaseIndex(c)
  {
    var b := BaseOrder();
    var k := BaseIndex(c);
    assert b[k] == [c];
    forall j | 0 <= j < k
      ensures b[j] != [c]
    {
      if j >= 5 {
        assert b[j] == [(97 + (j - 5)) as char];
      }
    }
    IndexOfAt(b, [c], k);
  }

  /** No other string is in the base order. */
  lemma NotInBase(h: string)
    requires |h| <= 1 && (h == [] || !InBase(h[0]))
    ensures h !in BaseOrder()
  {
    var b := BaseOrder();
    forall j | 0 <= j < 31
      ensures b[j] != h
    {
      if j >= 5 {
        assert b[j] == [(97 + (j - 5)) as char];
        assert b[j][0] == (97 + (j - 5)) as char;
      }
    }
  }

  /** One sort key per first character, giving the order the ranking implies: the
      fixed places, then the empty string, then every other character by its code. */
  function Key(h: string): int
    requires |h| <= 1
  {
    if h == [] then 31 else if InBase(h[0]) then BaseIndex(h[0]) else 32 + h[0] as int
  }

  /** For strings of at most one character, `<` is the order of their keys when
      neither has a fixed place. */
  lemma ShortLess(a: string, b: string)
    requires |a| <= 1 && |b| <= 1
    ensures StrLess(a, b) <==> (a == [] && b != []) || (a != [] && b != [] && a[0] < b[0])
  {
    if a != [] && b != [] && a[0] == b[0] {
      assert a[1..] == [] && b[1..] == [];
    }
  }

  /** The position of a first character `h` (one of `hx`, `hy`) in `order`: its fixed
      place, or 31 or 32 by where it lies in the sorted pair appended to `order`. */
  function Rank(hx: string, hy: string, h: string): nat
    requires |h| <= 1
  {
    if h != [] && InBase(h[0]) then BaseIndex(h[0])
    else if h == Sorted2(hx, hy)[0] then 31
    else 32
  }

  /** `(s + t).index(e)` */
  lemma IndexOfAppend(s: seq<string>, t: seq<string>, e: string)
    requires e in s + t
    ensures e in s ==> IndexOf(s + t, e) == IndexOf(s, e)
    ensures e !in s ==> e in t && IndexOf(s + t, e) == |s| + IndexOf(t, e)
  {
    if e in s {
      var k := IndexOf(s, e);
      forall j | 0 <= j < k
        ensures (s + t)[j] != e
      {
        assert (s + t)[j] == s[j];
      }
      IndexOfAt(s + t, e, k);
    } else {
      assert e in t by {
        var i :| 0 <= i < |s + t| && (s + t)[i] == e;
        if i < |s| {
          assert s[i] == e;
        } else {
          assert t[i - |s|] == e;
        }
      }
      var k := |s| + IndexOf(t, e);
      forall j | 0 <= j < k
        ensures (s + t)[j] != e
      {
        if j < |s| {
          assert (s + t)[j] == s[j];
        } else {
          assert (s + t)[j] == t[j - |s|];
        }
      }
      IndexOfAt(s + t, e, k);
    }
  }

  lemma RankIsIndex(hx: string, hy: string, h: string)
    requires |hx| <= 1 && |hy| <= 1 && (h == hx || h == hy)
    ensures h in BaseOrder() + Sorted2(hx, hy)
    ensures IndexOf(BaseOrder() + Sorted2(hx, hy), h) == Rank(hx, hy, h)
  {
    var b := BaseOrder();
    var pair := Sorted2(hx, hy);
    assert h in pair;
    assert h in b + pair;
    IndexOfAppend(b, pair, h);
    if h != [] && InBase(h[0]) {
      assert h == [h[0]];
      BaseOrderIndex(h[0]);
    } else {
      NotInBase(h);
      if h == pair[0] {
        IndexOfAt(pair, h, 0);
      } else {
        IndexOfAt(pair, h, 1);
      }
    }
  }

  /** Different characters have different fixed places. */
  lemma BaseIndexInjective(a: char, b: char)
    requires InBase(a) && InBase(b) && BaseIndex(a) == BaseIndex(b)
    ensures a == b
  {
  }

  /** The ranks of two first characters compare as their keys. */
  lemma RankOrder(hx: string, hy: string)
    requires |hx| <= 1 && |hy| <= 1
    ensures var d := Rank(hx, hy, hx) - Rank(hx, hy, hy);
            (d == 0 <==> hx == hy) && (d < 0 <==> Key(hx) < Key(hy))
  {
    ShortLess(hx, hy);
    ShortLess(hy, hx);
    if hx != [] && hy != [] && InBase(hx[0]) && InBase(hy[0]) && BaseIndex(hx[0]) == BaseIndex(hy[0]) {
      BaseIndexInjective(hx[0], hy[0]);
    }
    if hx != [] && hy != [] && hx[0] == hy[0] {
      assert hx == [hx[0]] && hy == [hy[0]];
    }
  }

  /** The first comparison of `comperator`: the ranks differ exactly when the first
      characters do, and in the direction of their keys. */
  lemma RankCompare(x: string, y: string)
    ensures var d := RankDiff(x, y);
            (d == 0 <==> Head(x) == Head(y)) && (d < 0 <==> Key(Head(x)) < Key(Head(y)))
  {
    var hx, hy := Head(x), Head(y);
    assert Order(x, y) == BaseOrder() + Sorted2(hx, hy);
    RankIsIndex(hx, hy, hx);
    RankIsIndex(hx, hy, hy);
    RankOrder(hx, hy);
  }


  /** The `±1` of `result / abs(result)` */
  lemma UnitQuotient(d: int)
    requires d != 0
    ensures d / (if d < 0 then -d else d) == (if d < 0 then -1 else 1)
  {
    if d < 0 {
      assert (-d) * (-1) == d;
    } else {
      assert d * 1 == d;
    }
  }

  /** The keys a string is compared by; the empty string ranks by the key of `''`. */
  function Keys(x: string): (r: seq<int>)
    ensures |r| >= 1
  {
    if x == [] then [31] else seq(|x|, i requires 0 <= i < |x| => Key([x[i]]))
  }

  /** Lexicographic comparison of key sequences, a proper prefix first: -1, 0 or 1. */
  function Lex(a: seq<int>, b: seq<int>): int {
    if a == [] && b == [] then 0
    else if a == [] then -1
    else if b == [] then 1
    else if a[0] < b[0] then -1
    else if a[0] > b[0] then 1
    else Lex(a[1..], b[1..])
  }

  function Sign(n: int): int {
    if n < 0 then -1 else if n > 0 then 1 else 0
  }

  /** The first key of a string is the key of its first character. */
  lemma KeysHead(x: string)
    ensures Keys(x)[0] == Key(Head(x))
    ensures |x| >= 2 ==> Keys(x[1..]) == Keys(x)[1..]
    ensures |x| <= 1 ==> |Keys(x)| == 1
  {
  }

  /** Equal first characters and one string of at most one character: the shorter
      string comes first. */
  lemma ShortKeys(x: string, y: string)
    requires Head(x) == Head(y) && (|x| <= 1 || |y| <= 1)
    ensures Sign(|x| - |y|) == Lex(Keys(x), Keys(y))
  {
    KeysHead(x);
    KeysHead(y);
    var kx, ky := Keys(x), Keys(y);
    assert kx[0] == ky[0];
    assert Lex(kx, ky) == Lex(kx[1..], ky[1..]);
    if x == [] || y == [] {
      assert x == [] && y == [];
    } else {
      assert |kx[1..]| == |x| - 1 && |ky[1..]| == |y| - 1;
    }
  }

  /** `Lex` on the first keys and on the rest. */
  lemma LexStep(a: seq<int>, b: seq<int>)
    requires a != [] && b != []
    ensures a[0] != b[0] ==> Lex(a, b) == if a[0] < b[0] then -1 else 1
    ensures a[0] == b[0] ==> Lex(a, b) == Lex(a[1..], b[1..])
  {
  }

  /** Different first characters: -1 or 1, by their keys. */
  lemma DifferentHeads(x: string, y: string)
    requires Head(x) != Head(y)
    ensures Comperator(x, y) == if Key(Head(x)) < Key(Head(y)) then -1 else 1
  {
    RankCompare(x, y);
    UnitQuotient(RankDiff(x, y));
  }

  /** Equal first characters: the length difference, or the comparison of the rests. */
  lemma SameHeads(x: string, y: string)
    requires Head(x) == Head(y)
    ensures Comperator(x, y) == if |x| <= 1 || |y| <= 1 then |x| - |y| else Comperator(x[1..], y[1..])
  {
    RankCompare(x, y);
  }

  /** `comperator` orders strings as their key sequences are ordered. */
  lemma {:induction false} ComperatorIsLex(x: string, y: string)
    ensures Sign(Comperator(x, y)) == Lex(Keys(x), Keys(y))
    decreases |x|
  {
    KeysHead(x);
    KeysHead(y);
    LexStep(Keys(x), Keys(y));
    if Head(x) != Head(y) {
      DifferentHeads(x, y);
      assert Key(Head(x)) != Key(Head(y)) by {
        RankCompare(x, y);
      }
    } else if |x| <= 1 || |y| <= 1 {
      SameHeads(x, y);
      ShortKeys(x, y);
    } else {
      SameHeads(x, y);
      ComperatorIsLex(x[1..], y[1..]);
    }
  }

  /** `Lex` says equal only of equal sequences, and turns round with its arguments. */
  lemma {:induction false} LexProperties(a: seq<int>, b: seq<int>)
    ensures Lex(a, b) == 0 <==> a == b
    ensures Lex(b, a) == -Lex(a, b)
    decreases |a|
  {
    if a != [] && b != [] && a[0] == b[0] {
      LexProperties(a[1..], b[1..]);
      if a[1..] == b[1..] {
        assert a == [a[0]] + a[1..] && b == [b[0]] + b[1..];
      }
    }
  }

  lemma {:induction false} LexTransitive(a: seq<int>, b: seq<int>, c: seq<int>)
    requires Lex(a, b) < 0 && Lex(b, c) < 0
    ensures Lex(a, c) < 0
    decreases |a|
  {
    if a != [] && b != [] && c != [] && a[0] == b[0] && b[0] == c[0] {
      LexTransitive(a[1..], b[1..], c[1..]);
    }
  }

  /** Different strings have different keys. */
  lemma KeysInjective(x: string, y: string)
    requires Keys(x) == Keys(y)
    ensures x == y
  {
    if x != [] {
      assert Keys(x)[0] == Key([x[0]]);
      KeyOfChar(x[0], x[0]);
    }
    if y != [] {
      assert Keys(y)[0] == Key([y[0]]);
      KeyOfChar(y[0], y[0]);
    }
    if x != [] && y != [] {
      forall i | 0 <= i < |x|
        ensures x[i] == y[i]
      {
        assert Keys(x)[i] == Key([x[i]]) && Keys(y)[i] == Key([y[i]]);
        KeyOfChar(x[i], y[i]);
      }
    }
  }

  /** No character has the key of `''`, and different characters have different keys. */
  lemma KeyOfChar(c: char, d: char)
    ensures Key([c]) != 31
    ensures Key([c]) == Key([d]) ==> c == d
  {
  }

  /** A string compares equal only to itself: `comperator(x, x) == 0` and nothing else. */
  lemma ComperatorZero(x: string, y: string)
    ensures Comperator(x, y) == 0 <==> x == y
  {
    ComperatorIsLex(x, y);
    LexProperties(Keys(x), Keys(y));
    if Keys(x) == Keys(y) {
      KeysInjective(x, y);
    }
  }

  /** Swapping the arguments turns the sign round. */
  lemma ComperatorAntisymmetric(x: string, y: string)
    ensures Sign(Comperator(y, x)) == -Sign(Comperator(x, y))
  {
    ComperatorIsLex(x, y);
    ComperatorIsLex(y, x);
    LexProperties(Keys(x), Keys(y));
  }

  /** Sorting with it is consistent: "before" is transitive. */
  lemma ComperatorTransitive(x: string, y: string, z: string)
    requires Comperator(x, y) < 0 && Comperator(y, z) < 0
    ensures Comperator(x, z) < 0
  {
    ComperatorIsLex(x, y);
    ComperatorIsLex(y, z);
    ComperatorIsLex(x, z);
    LexTransitive(Keys(x), Keys(y), Keys(z));
  }

  /** Different first characters give exactly -1 or 1, by the ranking of the characters. */
  lemma FirstCharacters(x: string, y: string)
    requires x != [] && y != [] && x[0] != y[0]
    ensures Comperator(x, y) == (if Key([x[0]]) < Key([y[0]]) then -1 else 1)
  {
    assert Head(x) == [x[0]] && Head(y) == [y[0]];
    DifferentHeads(x, y);
  }

  /** The ranking: the five punctuation characters in their order come before the
      letters, the letters in alphabetical order, and both before any other character,
      which rank by their codes. */
  lemma Ranking(c: char, d: char)
    ensures (InBase(c) && InBase(d)) ==> (Key([c]) < Key([d]) <==> BaseIndex(c) < BaseIndex(d))
    ensures ('a' <= c <= 'z' && 'a' <= d <= 'z') ==> (Key([c]) < Key([d]) <==> c < d)
    ensures (InBase(c) && !InBase(d)) ==> Key([c]) < Key([d])
    ensures (!InBase(c) && !InBase(d)) ==> (Key([c]) < Key([d]) <==> c < d)
  {
  }

  /** A proper prefix sorts before its extension. */
  lemma {:induction false} PrefixFirst(x: string, y: string)
    requires x != [] && |x| < |y| && y[..|x|] == x
    ensures Comperator(x, y) < 0
    decreases |x|
  {
    RankCompare(x, y);
    assert Head(x) == Head(y) by {
      assert y[..|x|][0] == y[0];
    }
    if |x| >= 2 {
      assert y[1..][..|x| - 1] == x[1..];
      PrefixFirst(x[1..], y[1..]);
    }
  }

  /** Lower-case clauses come before upper-case ones, and `:-` directives before both. */
  lemma ExampleOrder(x: string, y: string, z: string)
    requires x == ":- a." && y == "p(1)." && z == "P(1)."
    ensures Comperator(x, y) == -1 && Comperator(y, z) == -1
  {
    FirstCharacters(x, y);
    FirstCharacters(y, z);
  }
}
