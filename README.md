# ipy_flora in Dafny

A model of the string-processing core of `ipy_flora`, an IPython extension that
lets a Python shell talk to the Flora-2 logic engine. Proofs of what that core
promises come with the model.

The core has two parts.

- **The completion and help engine of `ipy_flora/ipy_flora.py`.**
  - The character classifier is `is_identifier` and `brackets_counter`.
  - The backward symbol extractor `_getsymbols_` finds the enclosing compound-term
    prefixes under the cursor, innermost first.
  - The forward term-end locator `_parseEnd_` finds the first balanced compound term
    of a match.
  - The occurrence scanner of `completer_flora` joins the listing, finds every
    occurrence of each symbol that is not inside a longer identifier, and cuts the
    term out there.
  - The help printer `_printhelp_` prints the listing lines that define a symbol
    (`?`) or mention it (`??`), numbered, each with the unfinished lines before it.
- **The pure helpers of `ipy_flora/rpsimple.py`.**
  - The knowledge-base command builder of `Flora2.modifykb`.
  - The injection allow-list check `testVarSecurity`.
  - The clause comparator `comperator`.
  - `Flora2.format_result`.
  - The line-joining read loop of `format_flr`.

## How the model is laid out

One Dafny module per part of the source:

| file | module | models |
|---|---|---|
| `pystr.dfy` | `Wrappers`, `PyStr` | `Option`/`Result`; the Python `str` operations the core uses: `find`, `rfind`, `strip`, `startswith`, `split(sep)[0]`, `ljust`, `join`, `count` and `<` |
| `classifier.dfy` | `Classifier` | `is_identifier`, `brackets`, `brackets_counter` |
| `symbols.dfy` | `Symbols` | `_getsymbols_` |
| `term_end.dfy` | `TermEnd` | `_parseEnd_` |
| `scanner.dfy` | `Corpus` | the occurrence-scanning loop of `completer_flora` |
| `help.dfy` | `Help` | `_printhelp_` |
| `completer.dfy` | `Completer` | `completer_flora` with `debug=True` |
| `modify_kb.dfy` | `KnowledgeBase` | the command built and sent by `Flora2.modifykb` |
| `var_security.dfy` | `VarSecurity` | `testVarSecurity` |
| `comperator.dfy` | `Comperator` | `comperator` |
| `format_result.dfy` | `ResultFormat` | `Flora2.format_result` |
| `format_flr.dfy` | `FlrFormat` | the read loop of `format_flr` |

Each looping routine of the source is a `method` with the same loop, and is proved
equal to a recursive function. The lemmas are stated about that function:

- `ExtractSymbols` is proved against `GetSymbols`;
- `ParseEnd` against `FirstTerm`;
- `ScanSymbol` and `Complete` against `Completions`;
- `PrintHelp` against `HelpOutput`;
- `ModifyKb` against `BuildCommand`;
- `TestVarSecurity` against `Check`;
- `ReadClauses` against `Clauses`.

Modelling decisions:

- **Characters.** Python 2 `str` is a byte string; a byte is a Dafny `char`.
  `isalnum` is ASCII letters and digits. `strip` removes space and `\t`, `\n`,
  `\v`, `\f` and `\r`.
- **Raising.** Where the Python code raises, the model returns `None`:
  - `_parseEnd_` on an empty match leaves `idx` unbound;
  - on unbalanced brackets it indexes past the end.

  A completion that reaches such a match raises as a whole, and the model then
  gives `None` for the whole completion.
- **Printing.** What `_printhelp_` and `modifykb` print is returned as the sequence
  of strings passed to `print`. The newline that `print` adds is not part of an
  element.
- **The listing.** The help printer and the scanner take the listing as a parameter.
- **Dictionaries.** `testVarSecurity` pops `'self'` from the dictionaries it checks.
  The model returns the value as it is after the call.
- **A note on the `else` in `_printhelp_`.** The `else` at `ipy_flora/ipy_flora.py:167`
  belongs to the `if` of the symbol loop, not to the `for`. The preamble is therefore
  updated once for every symbol that fails to select a line. A description of the
  program as a `for … else` would say otherwise; the model follows the code.
  `Help.UnmatchedSymbols` states the effect: the unmatched line is appended to the
  preamble once per symbol. The printer is modelled as written. The two defects this
  causes are listed under "## Findings", and `Help.IntendedLoop` is the corrected loop
  the findings' lemmas are stated about.
- **`$` in the allow list.** The pattern `^[…]*$` of `testVarSecurity` also matches
  a string with a single trailing newline, because Python's `$` matches before a
  final `\n`. The model accepts that newline too (`VarSecurity.AllowListMatch`).
- **The clause type of `modifykb`.** `re.match('.*:-.*', expr)` needs the `:-` on
  the first line, because `.` does not match a newline. That is what
  `KnowledgeBase.IsRule` checks.

## Model

| member | source | states |
|---|---|---|
| Classifier.IsIdentifier | ipy_flora/ipy_flora.py:51 | `is_identifier`: an ASCII letter or digit, or `_`; `BracketsCounterChar` shows such a character counts no bracket |
| Classifier.BracketsCounter | ipy_flora/ipy_flora.py:52-53 | `brackets_counter`, character by character; `BracketsCounterIsCountSum` proves it equal to the source's sum of opening minus closing counts |
| Classifier.BracketsCounterIsCountSum | ipy_flora/ipy_flora.py:52-53 | the per-character counter equals the source's sum, over the three bracket pairs, of opening minus closing counts |
| Classifier.BracketsCounterAppend | ipy_flora/ipy_flora.py:53 | the bracket counter is additive over concatenation |
| Classifier.BracketsCounterChar | ipy_flora/ipy_flora.py:51-53 | on one character the counter is -1, 0 or +1, and 0 on identifier characters |
| Classifier.BracketsCounterIdentifiers | ipy_flora/ipy_flora.py:51-53 | a string of identifier characters has counter 0 |
| Symbols.GetSymbols | ipy_flora/ipy_flora.py:100-133 | `_getsymbols_` on the cut, `?`-stripped, stripped line; `GetSymbolsShape` states its properties and `ExtractSymbols` proves the source's loops compute it |
| Symbols.Cut | ipy_flora/ipy_flora.py:115 | the cut line is a prefix that ends with the last occurrence of the trigger; when the trigger is absent the cut is at `len(trigger) - 1` |
| Symbols.StripTrailingQ | ipy_flora/ipy_flora.py:116-117 | the result is a prefix that no longer ends with `?`, with only `?` removed |
| Symbols.WalkDepth | ipy_flora/ipy_flora.py:122-130 | the walk's depth is the buffer's bracket count minus the number of symbols emitted |
| Symbols.WalkInvariant | ipy_flora/ipy_flora.py:124-130 | each emitted symbol is a proper suffix of the buffer, preceded by a non-identifier, and longer than the one before |
| Symbols.WalkCounts | ipy_flora/ipy_flora.py:126-129 | the symbol emitted `i`-th has exactly `i` unclosed brackets |
| Symbols.SymbolsShape | ipy_flora/ipy_flora.py:118-133 | on an empty text the result is `[]`; every symbol is a non-empty suffix of the text, strictly longer than the one before, with `i` unclosed brackets at index `i`, and preceded by a non-identifier |
| Symbols.GetSymbolsShape | ipy_flora/ipy_flora.py:114-133 | the facts of `SymbolsShape` for `_getsymbols_` on the cut, `?`-stripped, stripped line: empty to empty, non-empty suffixes, strictly growing, `i` unclosed brackets at index `i`, each preceded by a non-identifier |
| Symbols.InnermostIdempotent | ipy_flora/ipy_flora.py:118-133 | extracting the symbols of the innermost symbol again gives just that symbol |
| Symbols.ExtractSymbols | ipy_flora/ipy_flora.py:114-133 | the source's loops compute `GetSymbols` |
| Symbols.WalkBack | ipy_flora/ipy_flora.py:121-133 | the loop over the reversed characters, and the final append, compute the symbols of the stripped text |
| Symbols.GetSymbolsExample1 | ipy_flora/ipy_flora.py:105-106 | `_getsymbols_('abc(d', 'd') == ['d', 'abc(d']` |
| Symbols.GetSymbolsExample2 | ipy_flora/ipy_flora.py:107-108 | `_getsymbols_('abc(d), ef(g', 'g') == ['g', 'ef(g']` |
| Symbols.GetSymbolsExample3 | ipy_flora/ipy_flora.py:109-110 | `_getsymbols_('abc(d), ef(g', 'ef') == ['ef']` |
| Symbols.GetSymbolsExample4 | ipy_flora/ipy_flora.py:111-112 | `_getsymbols_('abc(d), ef(g', 'd') == ['d', 'abc(d']` |
| Symbols.GetSymbolsExampleHelp | ipy_flora/ipy_flora.py:219-224 | the help example's event `'z(gh??'` with `gh` under the cursor gives `_getsymbols_(...) == ['gh', 'z(gh']` |
| TermEnd.FirstTerm | ipy_flora/ipy_flora.py:173-195 | `_parseEnd_`, `None` where it raises; `FirstTermDefined`, `FirstTermBalanced` and `FirstTermEnd` state what it returns, and `ParseEnd` proves the source's loops compute it |
| TermEnd.IdentEnd | ipy_flora/ipy_flora.py:181-183 | the `for` loop stops at the first non-identifier character, or at the last index |
| TermEnd.CloseFromSpec | ipy_flora/ipy_flora.py:186-190 | the bracket loop stops at the first point where the counter reaches zero, and runs off the end exactly when there is no such point |
| TermEnd.FirstTermDefined | ipy_flora/ipy_flora.py:181-191 | `_parseEnd_` returns, rather than raising, exactly when the match is non-empty and the brackets from the identifier's end balance somewhere |
| TermEnd.FirstTermBalanced | ipy_flora/ipy_flora.py:192-195 | the result is a prefix of the match with bracket count 0 |
| TermEnd.FirstTermEnd | ipy_flora/ipy_flora.py:186-195 | the result ends at the first balance point after the identifier; a single neutral last character is dropped |
| TermEnd.FirstTermIdentifier | ipy_flora/ipy_flora.py:181-195 | an identifier followed by a non-bracket delimiter gives exactly the identifier |
| TermEnd.FirstTermAllIdentifiers | ipy_flora/ipy_flora.py:181-195 | a match made only of identifier characters is returned unchanged |
| TermEnd.FirstTermExtend | ipy_flora/ipy_flora.py:181-195 | once the identifier is followed by a non-identifier character and the term closes, text appended to the match does not change the result |
| TermEnd.NeutralBalanced | ipy_flora/ipy_flora.py:186-190 | a text without bracket characters is balanced: counter 0, and no prefix below 0 |
| TermEnd.BalancedConcat | ipy_flora/ipy_flora.py:186-190 | two balanced texts one after the other are balanced |
| TermEnd.CallTerm | ipy_flora/ipy_flora.py:181-195 | a compound term `f(a)`, with `f` an identifier and `a` balanced, is returned whole and is balanced itself |
| TermEnd.ParseEnd | ipy_flora/ipy_flora.py:173-195 | the source's two loops compute `FirstTerm`, the error cases included |
| TermEnd.FirstTermExample | ipy_flora/ipy_flora.py:176-177 | `_parseEnd_('a(b,c(?X)) :- d(?X)') == 'a(b,c(?X))'` |
| Corpus.MatchStarts | ipy_flora/ipy_flora.py:241-248 | the occurrences the `find` loop visits, each inside the corpus; `MatchStartsComplete` and `MatchStartsIncreasing` state which they are and in what order |
| Corpus.Completions | ipy_flora/ipy_flora.py:235-251 | the completions: `_parseEnd_` of every match, `None` when one raises; `CompletionsSound` and `CompletionsFail` state the result, `Complete` proves the source's loops compute it |
| Corpus.StripAll | ipy_flora/ipy_flora.py:239 | each listing line is stripped, and the order is kept |
| Corpus.MatchStartsComplete | ipy_flora/ipy_flora.py:241-248 | the `find` loop visits exactly the occurrences not preceded by an identifier character |
| Corpus.MatchStartsIncreasing | ipy_flora/ipy_flora.py:241-248 | it visits them in increasing order, each once |
| Corpus.AcceptedJoin | ipy_flora/ipy_flora.py:239-246 | in two lines joined by a space, a symbol without spaces is accepted exactly where it is accepted in the first line, or in the second moved past the first line and the space |
| Corpus.MatchStartsJoin | ipy_flora/ipy_flora.py:239-248 | the occurrences visited in two joined lines are those of the first line, then those of the second moved past the first line and the space |
| Corpus.MatchAtJoinLeft | ipy_flora/ipy_flora.py:239-249 | a match that starts in the first of two joined lines runs on into the second and is not shortened when the lines have no surrounding whitespace |
| Corpus.MatchAtJoinRight | ipy_flora/ipy_flora.py:239-249 | a match that starts in the second of two joined lines is the match within that line |
| Corpus.MatchesSound | ipy_flora/ipy_flora.py:240-249 | every match handed to `_parseEnd_` is the stripped corpus suffix at an accepted occurrence of one of the symbols |
| Corpus.MatchesComplete | ipy_flora/ipy_flora.py:240-249 | every accepted occurrence of every symbol gives a match |
| Corpus.MatchesPrefix | ipy_flora/ipy_flora.py:240 | the matches of earlier symbols come first |
| Corpus.ParseAllSpec | ipy_flora/ipy_flora.py:250 | parsing succeeds iff `_parseEnd_` succeeds on every match, and then gives one term per match, in order |
| Corpus.ParseAllOf | ipy_flora/ipy_flora.py:250 | matches that each parse give exactly their terms, in order |
| Corpus.ParseAllFailed | ipy_flora/ipy_flora.py:250 | once one match raises, the rest of the scan does not matter |
| Corpus.ParseAllAppend | ipy_flora/ipy_flora.py:250 | parsing distributes over concatenated match lists |
| Corpus.CompletionsSound | ipy_flora/ipy_flora.py:239-251 | every completion is `_parseEnd_` of the corpus at an accepted occurrence of a symbol, and is a balanced prefix of that match |
| Corpus.CompletionsFail | ipy_flora/ipy_flora.py:239-251 | the completion raises exactly when `_parseEnd_` raises at some accepted occurrence |
| Corpus.CompletionsPrefixFailed | ipy_flora/ipy_flora.py:240-250 | once the matches of the first symbols raise, the whole completion raises |
| Corpus.ScanSymbol | ipy_flora/ipy_flora.py:241-250 | the `while True` loop for one symbol computes the parsed matches of that symbol |
| Corpus.Complete | ipy_flora/ipy_flora.py:235-251 | the loop over the symbols computes `Completions` |
| Help.SymbolLoop | ipy_flora/ipy_flora.py:157-171 | the loop over the symbols on one listing line as written; `SymbolLoopPrints`, `DefinitionStep`, `UnmatchedSymbols` and `MatchLine` state what it does |
| Help.HelpOutput | ipy_flora/ipy_flora.py:135-171 | what `_printhelp_` prints; `HelpOutputBound`, `OccurrenceListed`, `DefinitionListed` and `DefinitionComplete` state what it holds, and `PrintHelp` proves the source's loops compute it |
| Help.LineOut | ipy_flora/ipy_flora.py:156 | the numbered line ends with the line itself |
| Help.SymbolLoopPrints | ipy_flora/ipy_flora.py:157-171 | on one line the printer prints at most once; the element printed ends with the numbered line, and is that line alone for a continuation; the continuation flag is updated only when it prints |
| Help.HelpAfter | ipy_flora/ipy_flora.py:152-171 | after the first `k` listing lines at most `k` elements have been printed |
| Help.HelpOutputBound | ipy_flora/ipy_flora.py:148-171 | nothing is printed unless the event line ends with `?`, and never more than one element per listing line |
| Help.HelpOutputNoSymbols | ipy_flora/ipy_flora.py:148-171 | with no symbols nothing is printed |
| Help.OccurrencePrinted | ipy_flora/ipy_flora.py:158-166 | in `??` mode a line containing any symbol is printed |
| Help.OccurrenceListed | ipy_flora/ipy_flora.py:152-166 | in `??` mode the `n`-th listing line, if it contains a symbol, adds one element ending with `(str(n)+':').ljust(5)+line` |
| Help.DefinitionPrinted | ipy_flora/ipy_flora.py:158-166 | in `?` mode, on one line, what prints is a continuation (the flag was set) or its code starts with one of the symbols |
| Help.ContinuationSource | ipy_flora/ipy_flora.py:152-165 | the continuation flag is set after listing line `k` only if line `k` printed and its code does not end with `.` |
| Help.DefinitionListed | ipy_flora/ipy_flora.py:152-165 | in `?` mode, a listing line that prints has code starting with one of the symbols, or directly follows a printed line whose code does not end with `.` and is then printed as its numbered line alone |
| Help.DefinitionPreamble | ipy_flora/ipy_flora.py:157-171 | in `?` mode, if an open clause has no preamble before a line, that holds after it too; a print leaves the preamble empty; a line whose code ends with `.` closes the clause and empties the preamble |
| Help.DefinitionState | ipy_flora/ipy_flora.py:148-171 | in `?` mode, after any number of listing lines, an open clause has no preamble |
| Help.DefinitionFound | ipy_flora/ipy_flora.py:158-166 | in `?` mode, with no open clause and no preamble, a line whose code starts with symbol `j` and with no earlier symbol is printed after a blank line, when `j` is 0 or the line is not an unfinished head |
| Help.DefinitionComplete | ipy_flora/ipy_flora.py:152-166 | in `?` mode, the first line, or a line after one whose code ends with `.`, is printed as its numbered line after a blank line when its code starts with symbol `j` and no earlier one, and `j` is 0 or the line is not an unfinished head |
| Help.NoneMatchesSpec | ipy_flora/ipy_flora.py:158-159 | "no symbol selects the line" holds exactly when no symbol occurs in it (in `??` mode) and none starts its code |
| Help.UnmatchedSymbols | ipy_flora/ipy_flora.py:157-171 | a line no symbol selects prints nothing; if it is unfinished code it is added to the preamble once per symbol, otherwise the preamble is cleared |
| Help.UnfinishedHeadMissed | ipy_flora/ipy_flora.py:159-169 | as written, in `?` mode an unfinished line that the first of two symbols does not start goes into the preamble, which then blocks the second symbol although that one starts the line |
| Help.ClauseEndSkipped | ipy_flora/ipy_flora.py:167-171 | in `?` mode, a line whose code ends with `.` and starts with neither symbol prints nothing and clears the preamble |
| Help.SplitHeadExample | ipy_flora/ipy_flora.py:135-171 | as written, the rule `abc(de(f),?A) :-` / `gh(?A).` starts with `abc(d`, but `abc(d?` with the symbols `['d', 'abc(d']` prints nothing; with `['abc(d']` alone it prints both lines |
| Help.PreambleKept | ipy_flora/ipy_flora.py:158-166 | as written, in `??` mode a print leaves the preamble as it was |
| Help.OpenLineHeld | ipy_flora/ipy_flora.py:167-169 | in `??` mode, an unfinished line that neither holds nor starts with the one symbol becomes the preamble |
| Help.PreambleRepeatedExample | ipy_flora/ipy_flora.py:155-171 | as written, `q??` over `['x :-', 'y(q).', 'y(q).']` prints `x :-` before line 2 and again before line 3, which it does not precede |
| Help.IntendedDefinitionFound | ipy_flora/ipy_flora.py:137 | corrected loop, `?` mode: with no open clause and no preamble, every line whose code starts with any symbol is printed after a blank line |
| Help.IntendedDefinitionSound | ipy_flora/ipy_flora.py:137 | corrected loop, `?` mode: what prints continues a clause or has code that starts with a symbol |
| Help.IntendedOccurrencePrinted | ipy_flora/ipy_flora.py:138 | corrected loop, `??` mode: a line holding any symbol is printed |
| Help.IntendedPreambleReset | ipy_flora/ipy_flora.py:160-171 | corrected loop: a print empties the preamble and ends with the numbered line; a line no symbol selects adds its numbered line to the preamble once, or clears it |
| Help.IntendedAgrees | ipy_flora/ipy_flora.py:157-171 | with one symbol in `?` mode, the corrected loop and the loop as written agree on every state the printer reaches there |
| Help.PrintHelp | ipy_flora/ipy_flora.py:135-171 | the source's nested loops compute `HelpOutput` |
| Help.MatchLine | ipy_flora/ipy_flora.py:157-171 | the loop over the symbols on one listing line, up to its `break`, computes `SymbolLoop` |
| Help.HelpOutputExample | ipy_flora/ipy_flora.py:140-145 | the docstring example prints both lines, each after a blank line and numbered `1:` and `2:` |
| Help.FoundThenMissed | ipy_flora/ipy_flora.py:152-171 | in `??` mode over two complete clause lines, when the first holds the first symbol and the second holds and starts with neither symbol, only the first is printed, after a blank line and numbered `1:` |
| Help.HelpOutputExampleGh | ipy_flora/ipy_flora.py:219-223 | in the help example, `'z(gh??'` with symbols `['gh', 'z(gh']` prints only `1:   abc(de(f),?A) :- gh(?A).` after a blank line |
| Completer.CompleterFlora | ipy_flora/ipy_flora.py:197-251 | one completion event prints `HelpOutput` and returns `Completions` over the joined listing |
| Completer.CompleterEmptyLine | ipy_flora/ipy_flora.py:200-202 | an empty line prints nothing and completes to `[]` |
| Completer.MatchesExample | ipy_flora/ipy_flora.py:203-205 | on the one-line listing, `d` and `abc(d` each match once |
| Completer.CompleterExample | ipy_flora/ipy_flora.py:203-205 | `'abc(d'` with `d` under the cursor completes to `['de(f)', 'abc(de(f),?A)']` |
| Completer.KnownTwoLines | ipy_flora/ipy_flora.py:239 | two lines without surrounding whitespace are joined with one space |
| Completer.CompleterExampleTwoLines | ipy_flora/ipy_flora.py:213-217 | with both clauses in the listing, `'abc(d'` completes to `['de(f)', 'de(?A)', 'de(g)', 'abc(de(f),?A)', 'abc(de(?A))']` |
| Completer.CompleterExampleGh | ipy_flora/ipy_flora.py:219-224 | `'z(gh??'` with `gh` under the cursor gives symbols `['gh', 'z(gh']`, prints only the first listing line, numbered after a blank line, and completes to `['gh(?A)']` |
| KnowledgeBase.BuildCommand | ipy_flora/rpsimple.py:88-116 | the command `modifykb` sends, or `Action not allowed`; `BuildCommandSound`, `BuildCommandRejects` and the action lemmas below state it, and `ModifyKb` proves the source's code computes it |
| KnowledgeBase.IsRuleSpec | ipy_flora/rpsimple.py:95-98 | the clause type is `rule` exactly when `:-` occurs with no newline before it |
| KnowledgeBase.IsRuleOneLine | ipy_flora/rpsimple.py:95-98 | on a one-line expression, a rule is one that contains `:-` |
| KnowledgeBase.BuildCommandSound | ipy_flora/rpsimple.py:95-116 | every command sent has an allowed action and a clause type that is `rule` iff the expression is a rule |
| KnowledgeBase.BuildCommandRejects | ipy_flora/rpsimple.py:110-116 | the command is rejected exactly for an explicit action other than `insert`, `delete`, `deleteall` and `delete_auto` |
| KnowledgeBase.DeletePrefix | ipy_flora/rpsimple.py:101-104 | without an action, a leading `--` is removed and gives `delete` for a rule, `deleteall` for a fact |
| KnowledgeBase.InsertByDefault | ipy_flora/rpsimple.py:105-108 | without an action and without `--`, the clause is inserted, and a leading `++` is removed |
| KnowledgeBase.ExplicitAction | ipy_flora/rpsimple.py:100-116 | an allowed explicit action keeps the expression as it is |
| KnowledgeBase.ExplicitDeleteAuto | ipy_flora/ipy_flora.py:68-70 | the explicit action `delete_auto` of `%flora_delete` gives `delete` for a rule and `deleteall` for a fact, and keeps the expression whole, a leading `--` included |
| KnowledgeBase.CommandText | ipy_flora/rpsimple.py:119 | the command text starts with action, clause type and `{`, ends with `}.`, and has the lengths of its parts |
| KnowledgeBase.ParseCommandText | ipy_flora/rpsimple.py:119 | reading a well-formed command's text back gives the command |
| KnowledgeBase.CommandTextParse | ipy_flora/rpsimple.py:119 | a text that reads back as a command is that command's text, and the command is well formed |
| KnowledgeBase.ModifyKb | ipy_flora/rpsimple.py:88-125 | on rejection nothing is sent or printed; otherwise the command text is sent and the verbose echo printed |
| KnowledgeBase.FactExample | ipy_flora/rpsimple.py:7-8 | `p(23)` is sent as `insert{p(23)}.` and echoed as `[insert{p(23)}.]` |
| KnowledgeBase.RuleExample | ipy_flora/rpsimple.py:11-12 | `q(?X) :- p(?X)` is inserted as a rule and echoed as `[insertrule]` |
| VarSecurity.Check | ipy_flora/rpsimple.py:155-191 | `testVarSecurity`: the outcome and the value after the call; `CheckExplains` states the outcomes and `TestVarSecurity` proves the source's code computes it |
| VarSecurity.WithoutSelf | ipy_flora/rpsimple.py:185-186 | exactly the entries whose key is not `'self'` remain |
| VarSecurity.CheckExplains | ipy_flora/rpsimple.py:172-191 | `True` exactly for a secure value; `False` only without `raiseE` and for a refused string; the exception only with `raiseE`, naming a refused string; the assertion only as intended and for an unknown type |
| VarSecurity.CheckItemsExplains | ipy_flora/rpsimple.py:179-183 | a list is secure iff all its items are, with the same outcome rules |
| VarSecurity.CheckEntriesExplains | ipy_flora/rpsimple.py:184-187 | a dictionary is secure iff all its values other than `'self'`'s are |
| VarSecurity.DictPopped | ipy_flora/rpsimple.py:185-186 | after the call the dictionary has no key `'self'`, whatever the outcome |
| VarSecurity.SecureAfter | ipy_flora/rpsimple.py:180-187 | a value found secure has lost `'self'` from each of its dictionaries, and nothing else |
| VarSecurity.TestVarSecurity | ipy_flora/rpsimple.py:155-191 | the recursive function with its loops computes `Check` |
| VarSecurity.TestItems | ipy_flora/rpsimple.py:180-183 | the loop over a list stops at the first item that is not secure |
| VarSecurity.TestValues | ipy_flora/rpsimple.py:184-187 | the loop over a dictionary's values, `'self'` skipped |
| VarSecurity.StringExamples | ipy_flora/rpsimple.py:157-160 | `''` passes; `':-('` gives `False`, or raises with `raiseE` |
| VarSecurity.ContainerExamples | ipy_flora/rpsimple.py:161-170 | the list and dictionary docstring examples |
| VarSecurity.SelfExample | ipy_flora/rpsimple.py:185-187 | called with `locals()`, the method's `self` is neither checked nor kept |
| VarSecurity.AsWrittenAcceptsUnicode | ipy_flora/rpsimple.py:188-189 | as written, a value of any type other than str, list or dict passes, a `unicode` `':-('` included |
| VarSecurity.IntendedRejectsUnknown | ipy_flora/rpsimple.py:188-191 | as intended, a `unicode` string fails the assertion, and a value that passes holds nothing of an unknown type |
| Comperator.Comperator | ipy_flora/rpsimple.py:239-250 | `comperator`; `ComperatorIsLex`, `ComperatorZero`, `ComperatorAntisymmetric` and `ComperatorTransitive` state the order it defines |
| Comperator.Letters | ipy_flora/rpsimple.py:241 | the 26 one-letter strings `a` to `z`, in order |
| Comperator.RankCompare | ipy_flora/rpsimple.py:241-245 | the index difference is 0 exactly for equal first characters, and negative exactly when the first character ranks lower |
| Comperator.UnitQuotient | ipy_flora/rpsimple.py:250 | `result / abs(result)` is -1 or 1 by the sign |
| Comperator.DifferentHeads | ipy_flora/rpsimple.py:245-250 | different first characters give -1 or 1, by their rank |
| Comperator.SameHeads | ipy_flora/rpsimple.py:246-249 | equal first characters give the length difference, or the comparison of the rests |
| Comperator.ComperatorIsLex | ipy_flora/rpsimple.py:239-250 | the sign of `comperator` is the lexicographic order of the strings' rank sequences, a proper prefix first |
| Comperator.ComperatorZero | ipy_flora/rpsimple.py:239-250 | `comperator(x, y) == 0` exactly when `x == y` |
| Comperator.ComperatorAntisymmetric | ipy_flora/rpsimple.py:239-250 | swapping the arguments turns the sign round |
| Comperator.ComperatorTransitive | ipy_flora/rpsimple.py:239-250 | "sorts before" is transitive |
| Comperator.FirstCharacters | ipy_flora/rpsimple.py:241-250 | for non-empty strings with different first characters the result is exactly -1 or 1, by the ranking |
| Comperator.Ranking | ipy_flora/rpsimple.py:241-245 | the ranking is `:`, `[`, `{`, `=`, `-`, then `a` to `z`, then all other characters by their codes |
| Comperator.PrefixFirst | ipy_flora/rpsimple.py:246-249 | a proper prefix sorts before its extension |
| Comperator.ExampleOrder | ipy_flora/rpsimple.py:239-250 | a `:-` directive sorts before a lower-case clause, which sorts before an upper-case one |
| ResultFormat.FormatResult | ipy_flora/rpsimple.py:72-83 | `format_result` with no variable or one; `NoVariables` and `OneVariable` state its result |
| ResultFormat.Insert | ipy_flora/rpsimple.py:82-83 | inserting into a strictly sorted list keeps it strictly sorted, and its values are those of the list plus the new one |
| ResultFormat.SortedDistinct | ipy_flora/rpsimple.py:82-83 | `sorted` then `groupby` gives a strictly sorted list with the same values |
| ResultFormat.Column | ipy_flora/rpsimple.py:83 | the variable's value in every row, in row order |
| ResultFormat.NoVariables | ipy_flora/rpsimple.py:74-79 | without variables, `[{}]` gives `True`, `[]` gives `False`, and anything else fails the assertion |
| ResultFormat.OneVariable | ipy_flora/rpsimple.py:80-83 | with one variable, the result is strictly increasing and holds exactly the values of that variable in the rows |
| ResultFormat.SortedDistinctNoDuplicates | ipy_flora/rpsimple.py:83 | no value occurs twice |
| ResultFormat.QueryExample | ipy_flora/rpsimple.py:13-16 | rows binding `?Y` to `42` and `23` give `['23', '42']` |
| FlrFormat.Clauses | ipy_flora/rpsimple.py:204-214 | the clauses the read loop of `format_flr` collects; `ClausesShape`, `ClausesCount` and `FactsOnly` state them and `ReadClauses` proves the loop computes them |
| FlrFormat.ClausesShape | ipy_flora/rpsimple.py:207-214 | each clause is a kept line that is not a rule head, stripped, or a rule head joined with the stripped next line (a head never stands alone); none starts with whitespace or `/` |
| FlrFormat.ClausesCount | ipy_flora/rpsimple.py:207-214 | there are at most as many clauses as lines |
| FlrFormat.FactsOnly | ipy_flora/rpsimple.py:207-214 | without rule heads, the clauses are the kept lines, stripped, in order |
| FlrFormat.ReadClauses | ipy_flora/rpsimple.py:204-214 | the `readline` loop computes `Clauses` |

## Left out

- Refreshing the listing is not modelled; the listing comes in as a parameter. That covers `completer_flora`'s refresh (`ipy_flora/ipy_flora.py:227-228`) and `do_flora_completer_update`. Both read files, call `os.remove` and drive the logic engine.
- The host's own Python completer, `self.Completer.python_matches` (`ipy_flora/ipy_flora.py:237`), is left out. It is foreign code, and the model follows the `debug=True` path.
- The magic-command wrappers `do_flora_*` and `init_ipython` are left out. They are IPython registration and calls into the engine.
- `Flora2.query`, `query_advanced` and `auto` are left out. They hand their work to the external `rp.interface` engine, and the variable list they build comes from a `set`, so its order is unspecified.
- `_uncomment_` is left out. `modifykb` is modelled on the expression after it, stripped of its comments and final `.`. This is why the docstring example `q(42).` is not stated: its `.` is removed by `_uncomment_`.
- From `format_flr`, these are left out: opening and writing the file, the `content.sort(comperator)` call, and the renaming of `?_h<n>` variables by repeated `str.replace`. The file is given as the sequence of `readline` results. The comparator itself is modelled (`Comperator`).
- ResultFormat.FormatResult: the case of two or more variables is not modelled. It sorts dictionaries by Python 2's dictionary order, which the model does not define.
- ResultFormat.OneVariable: each row is required to bind exactly the one variable, as the engine's answer rows do. With that, sorting the rows is sorting their values.
- Python 2 `unicode` strings are modelled as their own kind of value, `VarSecurity.Value.Unicode`, because `type(u'') != type('')`. Their characters are not decoded.
- `print` is modelled as the list of printed strings. Console output and its encoding are not modelled.

## Findings

| source | as written | input that shows it | evidently intended | confidence | as-written member | corrected member |
|---|---|---|---|---|---|---|
| ipy_flora/rpsimple.py:188 | `elif type(True):` is always true, so every value that is no `str`, list or dict is accepted and the `assert False` after it is unreachable | `testVarSecurity(u':-(')` returns `True`, although the allow list refuses `':-('` | `elif type(var) == type(True):`, so that only booleans pass and any other type fails the assertion | not executed | VarSecurity.AsWrittenAcceptsUnicode | VarSecurity.IntendedRejectsUnknown |
| ipy_flora/ipy_flora.py:159-169 | in `?` mode a symbol selects a line only while the preamble `begin_of_cmd` is empty, and every symbol that fails adds an unfinished line to the preamble, so a rule head that a later symbol starts is missed | `abc(d?` with the symbols `['d', 'abc(d']` that `_getsymbols_` gives, over `['abc(de(f),?A) :-', 'gh(?A).']`, prints nothing, although the rule's head starts with `abc(d` | "? -> All rules with symbol as start of head" (line 137): the preamble is updated once, after no symbol selects the line, so every such rule is printed | not executed | Help.SplitHeadExample | Help.IntendedDefinitionFound |
| ipy_flora/ipy_flora.py:160-166 | a print does not empty `begin_of_cmd`, so in `??` mode the unfinished lines before one printed clause are printed again before every later one | `q??` with the symbol `q` over `['x :-', 'y(q).', 'y(q).']` prints `x :-` before line 2 and again before line 3 | the preamble holds only the unfinished lines since the last print | not executed | Help.PreambleRepeatedExample | Help.IntendedPreambleReset |
