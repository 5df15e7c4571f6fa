/**
 The command builder of `Flora2.modifykb`: from an expression (already stripped of
 its comments and final `.`) and an optional action, the knowledge-base command
 `action + clause_type + '{' + expr + '}.'` that is sent to the engine, or the
 assertion failure `'Action not allowed'`.
 */
module KnowledgeBase {
  import opened Wrappers
  import opened PyStr

  /** `re.match('.*:-.*', expr) != None`: `.` does not match a newline, so the
      `:-` has to occur on the first line. */
  predicate IsRule(expr: string) {
    Find(BeforeFirst(expr, "\n"), ":-", 0) != -1
  }

  /** The first line of `expr`: a prefix without newline, followed by one unless it
      is all of `expr`. */
  lemma FirstLine(expr: string)
    ensures var f := BeforeFirst(expr, "\n");
            f == expr[..|f|] && (forall i :: 0 <= i < |f| ==> expr[i] != '\n')
            && (|f| < |expr| ==> expr[|f|] == '\n')
  {
    var f := BeforeFirst(expr, "\n");
    forall i | 0 <= i < |f|
      ensures expr[i] != '\n'
    {
      assert !OccursAt(expr, "\n", i);
      assert expr[i..i + 1] == [expr[i]];
    }
    if |f| < |expr| {
      assert OccursAt(expr, "\n", |f|);
      assert expr[|f|..|f| + 1] == [expr[|f|]];
    }
  }

  /** A `:-` found on the first line is one with no newline before it. */
  lemma IsRuleSound(expr: string)
    requires IsRule(expr)
    ensures exists p :: OccursAt(expr, ":-", p) && '\n' !in expr[..p]
  {
    var f := BeforeFirst(expr, "\n");
    FirstLine(expr);
    var p := Find(f, ":-", 0);
    assert f[p..p + 2] == expr[p..p + 2];
    assert forall i :: 0 <= i < p ==> expr[..p][i] == expr[i];
    assert OccursAt(expr, ":-", p) && '\n' !in expr[..p];
  }

  /** A `:-` with no newline before it lies on the first line. */
  lemma IsRuleComplete(expr: string, p: int)
    requires OccursAt(expr, ":-", p) && '\n' !in expr[..p]
    ensures IsRule(expr)
  {
    var f := BeforeFirst(expr, "\n");
    FirstLine(expr);
    assert expr[p..p + 2][0] == expr[p] && expr[p..p + 2][1] == expr[p + 1];
    assert p + 2 <= |f|;
    assert f[p..p + 2] == expr[p..p + 2];
    assert OccursAt(f, ":-", p);
  }

  /** A clause is a rule exactly when `:-` occurs with no newline before it. */
  lemma IsRuleSpec(expr: string)
    ensures IsRule(expr) <==> exists p :: OccursAt(expr, ":-", p) && '\n' !in expr[..p]
  {
    if IsRule(expr) {
      IsRuleSound(expr);
    }
    if exists p :: OccursAt(expr, ":-", p) && '\n' !in expr[..p] {
      var p :| OccursAt(expr, ":-", p) && '\n' !in expr[..p];
      IsRuleComplete(expr, p);
    }
  }

  /** On a one-line expression, a rule is one that contains `:-` anywhere. */
  lemma IsRuleOneLine(expr: string)
    requires '\n' !in expr
    ensures IsRule(expr) <==> exists p :: OccursAt(expr, ":-", p)
  {
    IsRuleSpec(expr);
    forall p | 0 <= p <= |expr|
      ensures '\n' !in expr[..p]
    {
      assert forall i :: 0 <= i < p ==> expr[..p][i] == expr[i];
    }
  }

  /** The pieces of a knowledge-base command. */
  datatype Command = Command(action: string, clauseType: string, body: string)

  /** The actions the final assertion lets through. */
  predicate AllowedAction(action: string) {
    action == "insert" || action == "delete" || action == "deleteall"
  }

  /** A command `modifykb` can send. */
  predicate WellFormed(c: Command) {
    AllowedAction(c.action) && (c.clauseType == "" || c.clauseType == "rule")
  }

  /** `action + clause_type + '{' + expr + '}.'` */
  function CommandText(c: Command): (s: string)
    ensures StartsWith(s, c.action + c.clauseType + "{") && EndsWith(s, "}.")
    ensures |s| == |c.action| + |c.clauseType| + |c.body| + 3
  {
    var s := c.action + c.clauseType + "{" + c.body + "}.";
    assert s[..|c.action + c.clauseType + "{"|] == c.action + c.clauseType + "{";
    s
  }

  /** The command `modifykb(expr, action)` sends, or the failed assertion's message. */
  function BuildCommand(expr: string, action: Option<string>): Result<Command, string> {
    var clauseType := if IsRule(expr) then "rule" else "";
    var (body, chosen) :=
      if action.Some? then (expr, action.value)
      else if StartsWith(expr, "--") then (expr[2..], "delete_auto")
      else if StartsWith(expr, "++") then (expr[2..], "insert")
      else (expr, "insert");
    var resolved :=
      if chosen == "delete_auto" then (if clauseType == "rule" then "delete" else "deleteall")
      else chosen;
    if AllowedAction(resolved) then Ok(Command(resolved, clauseType, body))
    else Err("Action not allowed")
  }

  /** Every command sent is well formed, and its clause type says whether the
      expression is a rule. */
  lemma BuildCommandSound(expr: string, action: Option<string>)
    requires BuildCommand(expr, action).Ok?
    ensures WellFormed(BuildCommand(expr, action).value)
    ensures BuildCommand(expr, action).value.clauseType == "rule" <==>
              exists p :: OccursAt(expr, ":-", p) && '\n' !in expr[..p]
  {
    IsRuleSpec(expr);
  }

  /** An explicit action is rejected exactly when it is none of the four the code knows. */
  lemma BuildCommandRejects(expr: string, action: Option<string>)
    ensures BuildCommand(expr, action).Err? <==>
              action.Some? && !AllowedAction(action.value) && action.value != "delete_auto"
  {
  }

  /** Without an action, a leading `--` is removed and deletes: the rule itself, or
      every matching fact. */
  lemma DeletePrefix(expr: string)
    requires StartsWith(expr, "--")
    ensures BuildCommand(expr, None) ==
              Ok(Command(if IsRule(expr) then "delete" else "deleteall",
                         if IsRule(expr) then "rule" else "", expr[2..]))
  {
  }

  /** Without an action and without `--`, the clause is inserted; a leading `++` is removed. */
  lemma InsertByDefault(expr: string)
    requires !StartsWith(expr, "--")
    ensures BuildCommand(expr, None) ==
              Ok(Command("insert", if IsRule(expr) then "rule" else "",
                         if StartsWith(expr, "++") then expr[2..] else expr))
  {
  }

  /** An explicit action keeps the expression as it is, prefix included. */
  lemma ExplicitAction(expr: string, action: string)
    requires AllowedAction(action)
    ensures BuildCommand(expr, Some(action)) == Ok(Command(action, if IsRule(expr) then "rule" else "", expr))
  {
  }

  /** The explicit action `delete_auto` (the one `%flora_delete` passes) resolves like a
      leading `--` does, but the expression is kept whole: a `--` in front of it stays. */
  lemma ExplicitDeleteAuto(expr: string)
    ensures BuildCommand(expr, Some("delete_auto")) ==
              Ok(Command(if IsRule(expr) then "delete" else "deleteall", if IsRule(expr) then "rule" else "", expr))
    ensures StartsWith(expr, "--") ==> StartsWith(BuildCommand(expr, Some("delete_auto")).value.body, "--")
  {
  }

  /** `action + clause_type` read back into its two parts. */
  function SplitHead(h: string): Option<(string, string)> {
    if h == "insert" then Some(("insert", ""))
    else if h == "insertrule" then Some(("insert", "rule"))
    else if h == "delete" then Some(("delete", ""))
    else if h == "deleterule" then Some(("delete", "rule"))
    else if h == "deleteall" then Some(("deleteall", ""))
    else if h == "deleteallrule" then Some(("deleteall", "rule"))
    else None
  }

  /** A command text read back: the head before the first `{`, and the body between
      that brace and the final `}.`. */
  function ParseCommand(s: string): Option<Command> {
    var h := BeforeFirst(s, "{");
    if |h| + 3 <= |s| && EndsWith(s, "}.") then
      match SplitHead(h)
      case Some((a, t)) => Some(Command(a, t, s[|h| + 1..|s| - 2]))
      case None => None
    else None
  }

  /** The first `{` of `h + "{" + rest` is the one after `h`, if `h` has none. */
  lemma BeforeFirstBrace(h: string, rest: string)
    requires '{' !in h
    ensures BeforeFirst(h + "{" + rest, "{") == h
  {
    var s := h + "{" + rest;
    assert OccursAt(s, "{", |h|);
    forall i | 0 <= i < |h|
      ensures !OccursAt(s, "{", i)
    {
      assert s[i..i + 1][0] == s[i] == h[i];
    }
    assert Find(s, "{", 0) == |h|;
  }

  /** The head of a well-formed command splits back into its action and clause type. */
  lemma SplitHeadOf(c: Command)
    requires WellFormed(c)
    ensures SplitHead(c.action + c.clauseType) == Some((c.action, c.clauseType))
    ensures '{' !in c.action + c.clauseType
  {
    var h := c.action + c.clauseType;
    if c.clauseType == "" {
      assert h == c.action;
    } else if c.action == "insert" {
      assert h == "insertrule";
    } else if c.action == "delete" {
      assert h == "deleterule";
    } else {
      assert h == "deleteallrule";
    }
  }

  /** Where the text of a command puts its head and its body. */
  lemma TextFrame(h: string, body: string)
    requires '{' !in h
    ensures var s := h + "{" + body + "}.";
            BeforeFirst(s, "{") == h && |h| + 3 <= |s| && EndsWith(s, "}.") && s[|h| + 1..|s| - 2] == body
  {
    var s := h + "{" + body + "}.";
    assert s == h + "{" + (body + "}.");
    BeforeFirstBrace(h, body + "}.");
    assert s[|h| + 1..|s| - 2] == body;
    assert s[|s| - 2..] == "}.";
  }

  /** Reading back the text of a well-formed command gives the command. */
  lemma ParseCommandText(c: Command)
    requires WellFormed(c)
    ensures ParseCommand(CommandText(c)) == Some(c)
  {
    SplitHeadOf(c);
    TextFrame(c.action + c.clauseType, c.body);
  }

  /** A text that reads back as a command is exactly that command's text, and the
      command is well formed. */
  lemma CommandTextParse(s: string)
    requires ParseCommand(s).Some?
    ensures WellFormed(ParseCommand(s).value)
    ensures CommandText(ParseCommand(s).value) == s
  {
    var h := BeforeFirst(s, "{");
    SplitHeadSound(h);
    HeadBraceBody(s, h);
  }

  /** What `SplitHead` reads back is an allowed action and clause type that make up
      the head again. */
  lemma SplitHeadSound(h: string)
    requires SplitHead(h).Some?
    ensures var (a, t) := SplitHead(h).value;
            AllowedAction(a) && (t == "" || t == "rule") && a + t == h
  {
  }

  /** A text with a head before its first `{` and ending in `}.` is that head, the
      brace, the body and the end. */
  lemma HeadBraceBody(s: string, h: string)
    requires h == BeforeFirst(s, "{") && |h| + 3 <= |s| && EndsWith(s, "}.")
    ensures s == h + "{" + s[|h| + 1..|s| - 2] + "}."
  {
    var body := s[|h| + 1..|s| - 2];
    assert s[..|h|] == h;
    assert s[|h|] == '{' by {
      assert OccursAt(s, "{", |h|);
      assert s[|h|..|h| + 1][0] == s[|h|];
    }
    assert s[|s| - 2..] == "}.";
    var t := h + "{" + body + "}.";
    assert |t| == |s|;
    forall i | 0 <= i < |s|
      ensures t[i] == s[i]
    {
      if i < |h| {
        assert t[i] == h[i] == s[..|h|][i];
      } else if i == |h| {
      } else if i < |s| - 2 {
        assert t[i] == body[i - |h| - 1];
      } else {
        assert t[i] == "}."[i - (|s| - 2)] == s[|s| - 2..][i - (|s| - 2)];
      }
    }
  }

  /** What the verbose flags print: the whole command, or only its head. */
  function Echo(c: Command, verbose: bool, vverbose: bool): seq<string> {
    if !verbose then []
    else if vverbose then ["[" + CommandText(c) + "]"]
    else ["[" + c.action + c.clauseType + "]"]
  }

  /** `modifykb` as the code runs it: the command sent (`Err` for the failed
      assertion, which stops it before anything is sent) and what it prints. */
  method ModifyKb(expr: string, action: Option<string>, verbose: bool, vverbose: bool)
    returns (sent: Result<string, string>, printed: seq<string>)
    ensures BuildCommand(expr, action).Err? ==> sent == Err("Action not allowed") && printed == []
    ensures BuildCommand(expr, action).Ok? ==>
              sent == Ok(CommandText(BuildCommand(expr, action).value))
              && printed == Echo(BuildCommand(expr, action).value, verbose, vverbose)
  {
    var e := expr;
    var clauseType := if Find(BeforeFirst(e, "\n"), ":-", 0) != -1 then "rule" else "";
    var a: string;
    if action.None? {
      if |e| >= 2 && e[..2] == "--" {
        e := e[2..];
        a := "delete_auto";
      } else {
        if |e| >= 2 && e[..2] == "++" {
          e := e[2..];
        }
        a := "insert";
      }
    } else {
      a := action.value;
    }
    if a == "delete_auto" {
      if clauseType == "rule" {
        a := "delete";
      } else {
        a := "deleteall";
      }
    }
    if !(a == "insert" || a == "delete" || a == "deleteall") {
      return Err("Action not allowed"), [];
    }
    var cmd := a + clauseType + "{" + e + "}.";
    printed := [];
    if verbose {
      if vverbose {
        printed := ["[" + cmd + "]"];
      } else {
        printed := ["[" + a + clauseType + "]"];
      }
    }
    sent := Ok(cmd);
  }

  /** `p(23)` contains no `:-`. */
  lemma NotRule(s: string)
    requires s == "p(23)"
    ensures !IsRule(s)
  {
    IsRuleOneLine(s);
    forall p | 0 <= p
      ensures !OccursAt(s, ":-", p)
    {
      if p + 2 <= |s| {
        assert s[p..p + 2][0] == s[p];
      }
    }
  }

  /** The literal steps of the two examples below, kept out of their larger contexts. */
  lemma FactLiterals(s: string, t: string)
    requires s == "p(23)"
    ensures "insert" + "" + "{" + s + "}." == "insert{p(23)}."
    ensures t == "insert{p(23)}." ==> "[" + t + "]" == "[insert{p(23)}.]"
  {
  }

  lemma RuleLiterals(s: string)
    requires s == "q(?X) :- p(?X)"
    ensures OccursAt(s, ":-", 6) && '\n' !in s && !StartsWith(s, "--") && !StartsWith(s, "++")
    ensures "[" + "insert" + "rule" + "]" == "[insertrule]"
  {
    assert s[6..8] == ":-";
    assert s[..2] == "q(";
  }

  /** The module docstring: `p(23)` is inserted as the fact `insert{p(23)}.`. */
  lemma FactExample(s: string)
    requires s == "p(23)"
    ensures BuildCommand(s, None) == Ok(Command("insert", "", s))
    ensures CommandText(Command("insert", "", s)) == "insert{p(23)}."
    ensures Echo(Command("insert", "", s), true, true) == ["[insert{p(23)}.]"]
  {
    assert !StartsWith(s, "--") && !StartsWith(s, "++") by {
      assert s[..2] == "p(";
    }
    InsertByDefault(s);
    NotRule(s);
    var text := CommandText(Command("insert", "", s));
    FactLiterals(s, text);
  }

  /** The module docstring: `q(?X) :- p(?X)` is inserted as a rule and echoed as `[insertrule]`. */
  lemma RuleExample(s: string)
    requires s == "q(?X) :- p(?X)"
    ensures BuildCommand(s, None) == Ok(Command("insert", "rule", s))
    ensures Echo(Command("insert", "rule", s), true, false) == ["[insertrule]"]
  {
    RuleLiterals(s);
    IsRuleOneLine(s);
    InsertByDefault(s);
  }
}
