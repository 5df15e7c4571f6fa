/**
 `Flora2.format_result`: the engine's answer rows, one dictionary from variable
 names to values per solution, turned into `True`/`False` for a query without
 variables and into the sorted list of distinct values for a query with one.
 */
module ResultFormat {
  import opened Wrappers
  import opened PyStr

  /** One solution: the values of the query's variables. */
  type Row = map<string, string>

  /** What `format_result` returns. */
  datatype Formatted = Truth(b: bool) | Values(vs: seq<string>)

  predicate StrictlySorted(s: seq<string>) {
    forall i, j :: 0 <= i < j < |s| ==> StrLess(s[i], s[j])
  }

  /** `x` put into a strictly sorted list, unless it is there already. */
  function Insert(x: string, s: seq<string>): (r: seq<string>)
    requires StrictlySorted(s)
    ensures StrictlySorted(r)
    ensures forall v :: v in r <==> v == x || v in s
  {
    if s == [] then [x]
    else if x == s[0] then s
    else if StrLess(x, s[0]) then
      assert forall j :: 0 < j < |s| ==> StrLess(x, s[j]) by {
        forall j | 0 < j < |s|
          ensures StrLess(x, s[j])
        {
          StrLessTransitive(x, s[0], s[j]);
        }
      }
      [x] + s
    else
      var rest := Insert(x, s[1..]);
      assert StrLess(s[0], x) by {
        StrLessTotal(x, s[0]);
      }
      assert forall v :: v in rest ==> StrLess(s[0], v);
      [s[0]] + rest
  }

  /** `[k for k, v in itertools.groupby(sorted(values))]`: the distinct values in order. */
  function SortedDistinct(values: seq<string>): (r: seq<string>)
    ensures StrictlySorted(r)
    ensures forall v :: v in r <==> v in values
  {
    if values == [] then [] else Insert(values[|values| - 1], SortedDistinct(values[..|values| - 1]))
  }

  /** The values of `var` in the rows, in row order. */
  function Column(result: seq<Row>, v: string): (r: seq<string>)
    requires forall row :: row in result ==> v in row
    ensures |r| == |result| && forall i :: 0 <= i < |result| ==> r[i] == result[i][v]
  {
    if result == [] then [] else [result[0][v]] + Column(result[1..], v)
  }

  /** `format_result(result, varlist)` for no or one variable; `Err` is the failed
      `assert False, 'unexpected result'`.  With one variable every row binds exactly
      that variable, as the engine's rows do; rows of one key sort by their value. */
  function FormatResult(result: seq<Row>, varlist: seq<string>): Result<Formatted, string>
    requires |varlist| <= 1
    requires |varlist| == 1 ==> forall row :: row in result ==> row.Keys == {varlist[0]}
  {
    if varlist == [] then
      if result == [map[]] then Ok(Truth(true))
      else if result == [] then Ok(Truth(false))
      else Err("unexpected result")
    else
      Ok(Values(SortedDistinct(Column(result, varlist[0]))))
  }

  /** Without variables: one empty solution is `True`, none is `False`, anything
      else (several solutions, or a row binding something) fails the assertion. */
  lemma NoVariables(result: seq<Row>)
    ensures FormatResult(result, []).Ok? <==> result == [map[]] || result == []
    ensures FormatResult(result, []) == Ok(Truth(true)) <==> result == [map[]]
    ensures FormatResult(result, []) == Ok(Truth(false)) <==> result == []
  {
  }

  /** With one variable: its values, strictly increasing, each value of the variable
      in some solution exactly once. */
  lemma OneVariable(result: seq<Row>, v: string)
    requires forall row :: row in result ==> row.Keys == {v}
    ensures FormatResult(result, [v]).Ok? && FormatResult(result, [v]).value.Values?
    ensures var r := FormatResult(result, [v]).value.vs;
            StrictlySorted(r)
            && (forall x :: x in r <==> exists i :: 0 <= i < |result| && result[i][v] == x)
  {
    var c := Column(result, v);
    forall x
      ensures x in c <==> exists i :: 0 <= i < |result| && result[i][v] == x
    {
      if x in c {
        var i :| 0 <= i < |c| && c[i] == x;
        assert result[i][v] == x;
      }
    }
  }

  /** Strictly increasing means no value twice. */
  lemma SortedDistinctNoDuplicates(values: seq<string>)
    ensures var r := SortedDistinct(values);
            forall i, j :: 0 <= i < j < |r| ==> r[i] != r[j]
  {
    var r := SortedDistinct(values);
    forall i, j | 0 <= i < j < |r|
      ensures r[i] != r[j]
    {
      StrLessIrreflexive(r[i]);
    }
  }

  /** The module docstring: two solutions for `?Y`, answered in order. */
  lemma QueryExample(a: Row, b: Row)
    requires a == map["Y" := "42"] && b == map["Y" := "23"]
    ensures FormatResult([a, b], ["Y"]) == Ok(Values(["23", "42"]))
  {
    assert Column([a, b], "Y") == ["42", "23"];
    assert StrLess("23", "42");
    assert ["42", "23"][..1] == ["42"];
    assert ["42"][..0] == [];
    assert SortedDistinct(["42"]) == ["42"];
    assert Insert("23", ["42"]) == ["23", "42"];
    assert SortedDistinct(["42", "23"]) == Insert("23", SortedDistinct(["42"]));
  }
}
