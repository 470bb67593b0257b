/**
 * `ESGrammarBuilder`: the builder callbacks that turn parsed ECMArkup-style
 * grammar notation (section 5.1.5 "Grammar Notation" of ECMA-262) into
 * productions: default reducers, automatic-semicolon-insertion splitting,
 * `nt_def`, negative lookahead sets, applied nonterminals, `$N` references
 * and backquoted terminals.
 *
 * The desugarer has its own element and production types: the productions it
 * builds carry a `reducer` and may contain elements the grammar model does
 * not know (`ErrorSymbol`, the no-LineTerminator-here marker).
 */
module EsGrammar {
  import opened Wrappers
  import opened Strings
  import opened Ordered
  import opened Grammar

  /** A lookahead restriction as the builder creates it: an ordered set of
      terminals, allowed (`positive`) or excluded. */
  datatype EsLookahead = EsLookahead(tokens: seq<string>, positive: bool)

  /** A right-hand-side element. Terminals and parameterless nonterminals are
      both plain strings. */
  datatype Elem =
    | Text(s: string)
    | NtUse(nt: Nt)
    | OptionalElem(inner: Elem)
    | LaElem(rule: EsLookahead)
    | ErrorSymbol(code: string)
    | NoLineTerminatorHere

  /** `is_concrete_element`: everything but a lookahead restriction pushes a
      value. */
  predicate IsConcreteElem(e: Elem) {
    !e.LaElem?
  }

  /** `sum(1 for e in body if is_concrete_element(e))`. */
  function ConcreteElems(body: seq<Elem>): (n: nat)
    ensures n <= |body|
  {
    if |body| == 0 then 0
    else ConcreteElems(body[..|body| - 1]) + (if IsConcreteElem(body[|body| - 1]) then 1 else 0)
  }

  /** One alternative as the parser hands it over: a body, the reducer slot,
      and an optional `[+Param]`/`[~Param]` condition. The slot holds Python's
      `None` (`NoneValue`) both when no reducer is written and when `=> None`
      is written, since `expr_none` yields that same `None`. */
  datatype RhsLine = RhsLine(body: seq<Elem>, reducer: ReduceExpr, condition: Option<Condition>)

  /** `reducer_was_autogenerated`: the slot is `None`. */
  predicate InferredReducer(rhs: RhsLine) {
    rhs.reducer == NoneValue
  }

  datatype EsProduction = EsProduction(body: seq<Elem>, reducer: ReduceExpr, condition: Option<Condition>)

  /** The left-hand side `(name, params)`. */
  datatype Lhs = Lhs(name: string, params: seq<string>)

  /** `NtDef(params, productions, type)`. */
  datatype EsNtDef = EsNtDef(params: seq<string>, productions: seq<EsProduction>, ty: Option<string>)

  datatype DesugarError =
    | NotAString(element: Elem)
    | AsiReducerNotCall(reducer: ReduceExpr)
    | DuplicateArgument(name: string)
    | LookaheadTooLong(exclusions: seq<seq<string>>)
    | BadMatchRef(token: string)
    | BadTerminal(text: string)

  // *** Matched pairs **********************************************************

  predicate EndsWith(s: string, suffix: string) {
    |suffix| <= |s| && s[|s| - |suffix|..] == suffix
  }

  /** The three production groups, matched at the very end of `s`:
      `(Expression|^(Array|Object)?Literal)$`,
      `(Statement|Declaration|^StatementListItem|^ModuleItem)$` and
      `Method(Definition)?$`. */
  predicate GroupAtEnd(g: nat, s: string) {
    if g == 0 then
      EndsWith(s, "Expression") || s == "Literal" || s == "ArrayLiteral" || s == "ObjectLiteral"
    else if g == 1 then
      EndsWith(s, "Statement") || EndsWith(s, "Declaration") || s == "StatementListItem" || s == "ModuleItem"
    else
      EndsWith(s, "Method") || EndsWith(s, "MethodDefinition")
  }

  /** `re.search(group, s) is not None`: `$` matches at the end of the text or
      just before a final newline. */
  predicate GroupSearch(g: nat, s: string) {
    GroupAtEnd(g, s) || (|s| > 0 && s[|s| - 1] == '\n' && GroupAtEnd(g, s[..|s| - 1]))
  }

  const GroupCount: nat := 3

  /** The text `is_matched_pair` searches in an element: a string, or the name
      of an applied nonterminal. Anything else makes `re.search` raise. */
  function SearchText(e: Elem): Option<string> {
    if e.Text? then Some(e.s)
    else if e.NtUse? && e.nt.name.Named? then Some(e.nt.name.s)
    else None
  }

  /** The group loop of `is_matched_pair` from group `g` on. */
  function MatchFrom(g: nat, lhsName: string, rhs: Elem): Result<bool, DesugarError>
    decreases GroupCount - g
  {
    if g >= GroupCount then Success(false)
    else if !GroupSearch(g, lhsName) then MatchFrom(g + 1, lhsName, rhs)
    else if SearchText(rhs).None? then Failure(NotAString(rhs))
    else if GroupSearch(g, SearchText(rhs).value) then Success(true)
    else MatchFrom(g + 1, lhsName, rhs)
  }

  /** `is_matched_pair`: some group matches both sides. */
  function IsMatchedPair(lhsName: string, rhs: Elem): Result<bool, DesugarError> {
    MatchFrom(0, lhsName, rhs)
  }

  lemma {:induction false} MatchFromMeaning(g: nat, lhsName: string, rhs: Elem)
    requires g <= GroupCount
    ensures MatchFrom(g, lhsName, rhs).Failure? <==>
      SearchText(rhs).None? && exists h :: g <= h < GroupCount && GroupSearch(h, lhsName)
    ensures MatchFrom(g, lhsName, rhs) == Success(true) <==>
      SearchText(rhs).Some? && exists h :: g <= h < GroupCount && GroupSearch(h, lhsName) && GroupSearch(h, SearchText(rhs).value)
    decreases GroupCount - g
  {
    if g < GroupCount {
      MatchFromMeaning(g + 1, lhsName, rhs);
    }
  }

  /** A pair is matched exactly when one group matches both names; the search
      raises exactly when the left side matches a group and the element is
      neither a string nor an applied nonterminal. */
  lemma IsMatchedPairMeaning(lhsName: string, rhs: Elem)
    ensures IsMatchedPair(lhsName, rhs).Failure? <==>
      SearchText(rhs).None? && exists h :: 0 <= h < GroupCount && GroupSearch(h, lhsName)
    ensures IsMatchedPair(lhsName, rhs) == Success(true) <==>
      SearchText(rhs).Some? &&
      exists h :: 0 <= h < GroupCount && GroupSearch(h, lhsName) && GroupSearch(h, SearchText(rhs).value)
  {
    MatchFromMeaning(0, lhsName, rhs);
  }

  // *** Default reducers *******************************************************

  /** `default_reducer`: `$0` for a single concrete element matched with the
      left side, otherwise a call of the production's method with every
      concrete element. */
  function DefaultReducer(lhs: Lhs, i: nat, body: seq<Elem>, sole: bool): (r: Result<ReduceExpr, DesugarError>)
    ensures r == Success(Ref(0)) <==>
      |body| == 1 && ConcreteElems(body) == 1 && IsMatchedPair(lhs.name, body[0]) == Success(true)
    ensures r.Failure? <==>
      |body| == 1 && ConcreteElems(body) == 1 && IsMatchedPair(lhs.name, body[0]).Failure?
    ensures r.Success? && r.value != Ref(0) ==>
      r.value.CallMethod? && r.value.callee == DefaultMethodName(lhs.name, i, sole) &&
      |r.value.args| == ConcreteElems(body) &&
      forall k :: 0 <= k < |r.value.args| ==> r.value.args[k] == Ref(k)
  {
    var nargs := ConcreteElems(body);
    var call := CallMethod(DefaultMethodName(lhs.name, i, sole), RefsUpTo(nargs));
    if |body| == 1 && nargs == 1 then
      var m := IsMatchedPair(lhs.name, body[0]);
      if m.Failure? then Failure(m.error)
      else if m.value then Success(Ref(0))
      else Success(call)
    else Success(call)
  }

  /** `to_production`: the written reducer, or the default one when the slot
      is `None`; a production therefore never has `None` as its reducer. */
  function ToProduction(lhs: Lhs, i: nat, rhs: RhsLine, sole: bool): (r: Result<EsProduction, DesugarError>)
    ensures r.Success? ==> r.value.body == rhs.body && r.value.condition == rhs.condition
    ensures r.Success? ==> r.value.reducer != NoneValue
    ensures !InferredReducer(rhs) ==> r == Success(EsProduction(rhs.body, rhs.reducer, rhs.condition))
    ensures InferredReducer(rhs) ==>
      (r.Failure? <==> DefaultReducer(lhs, i, rhs.body, sole).Failure?) &&
      (r.Success? ==> r.value.reducer == DefaultReducer(lhs, i, rhs.body, sole).value)
  {
    if !InferredReducer(rhs) then Success(EsProduction(rhs.body, rhs.reducer, rhs.condition))
    else
      var d := DefaultReducer(lhs, i, rhs.body, sole);
      if d.Failure? then Failure(d.error) else Success(EsProduction(rhs.body, d.value, rhs.condition))
  }

  // *** Automatic semicolon insertion ******************************************

  /** `needs_asi`: a production of more than one element ending in `;`,
      outside `ForLexicalDeclaration`. */
  predicate NeedsAsi(lhs: Lhs, p: EsProduction) {
    lhs.name != "ForLexicalDeclaration" && |p.body| > 1 && p.body[|p.body| - 1] == Text(";")
  }

  /** The bodies `[";"]` of `EmptyStatement` and `ClassMember` are never split. */
  lemma LoneSemicolonNeverSplit(lhs: Lhs, reducer: ReduceExpr, condition: Option<Condition>)
    ensures !NeedsAsi(lhs, EsProduction([Text(";")], reducer, condition))
  {
  }

  /** The `do ... while ( ... ) ;` shape, whose semicolon may be inserted
      anywhere. */
  predicate IsDoWhile(body: seq<Elem>) {
    |body| == 7 && body[0] == Text("do") && body[2] == Text("while") && body[3] == Text("(") &&
    body[5] == Text(")") && body[6] == Text(";")
  }

  function AsiCode(body: seq<Elem>): string {
    if IsDoWhile(body) then "do_while_asi" else "asi"
  }

  /** `seq[:-1]`: everything but the last element, and nothing for an empty
      sequence. */
  function DropLast<T>(s: seq<T>): (r: seq<T>)
    ensures |s| > 0 ==> r == s[..|s| - 1]
    ensures |s| == 0 ==> r == []
  {
    if |s| == 0 then [] else s[..|s| - 1]
  }

  /** `apply_asi`: the production with its semicolon, then a fallback whose
      semicolon is replaced by an error symbol; an inferred call no longer
      receives the semicolon. */
  function ApplyAsi(p: EsProduction, autoReducer: bool): (r: Result<seq<EsProduction>, DesugarError>)
    ensures r.Failure? <==> !p.reducer.CallMethod?
    ensures r.Success? ==>
      |r.value| == 2 && r.value[0].body == p.body &&
      r.value[1].body == DropLast(p.body) + [ErrorSymbol(AsiCode(p.body))] &&
      r.value[0].reducer == r.value[1].reducer &&
      r.value[0].condition == p.condition && r.value[1].condition == p.condition
    ensures r.Success? && autoReducer ==>
      r.value[0].reducer == CallMethod(p.reducer.callee, DropLast(p.reducer.args))
    ensures r.Success? && !autoReducer ==> r.value[0].reducer == p.reducer
  {
    if !p.reducer.CallMethod? then Failure(AsiReducerNotCall(p.reducer))
    else
      var reducer := if autoReducer then CallMethod(p.reducer.callee, DropLast(p.reducer.args)) else p.reducer;
      Success([
        EsProduction(p.body, reducer, p.condition),
        EsProduction(DropLast(p.body) + [ErrorSymbol(AsiCode(p.body))], reducer, p.condition)])
  }

  /** The fallback body keeps the length of the original and ends in an error
      symbol, so it is not split again; the shared reducer of an inferred
      call takes one argument fewer. */
  lemma AsiFallbackShape(lhs: Lhs, p: EsProduction, autoReducer: bool)
    requires NeedsAsi(lhs, p) && p.reducer.CallMethod?
    ensures var r := ApplyAsi(p, autoReducer).value;
      |r[1].body| == |p.body| &&
      r[1].body[|p.body| - 1] != Text(";") && !NeedsAsi(lhs, r[1]) &&
      r[1].body[..|p.body| - 1] == p.body[..|p.body| - 1] &&
      (autoReducer && |p.reducer.args| > 0 ==> |r[0].reducer.args| == |p.reducer.args| - 1)
  {
    var r := ApplyAsi(p, autoReducer).value;
    assert r[1].body == p.body[..|p.body| - 1] + [ErrorSymbol(AsiCode(p.body))];
    assert r[1].body[..|p.body| - 1] == p.body[..|p.body| - 1];
  }

  /** A production with an inferred reducer that needs ASI always gets a call,
      so `apply_asi`'s assertion holds and the call drops the semicolon. */
  lemma InferredAsiSucceeds(lhs: Lhs, i: nat, rhs: RhsLine, sole: bool)
    requires InferredReducer(rhs) && ToProduction(lhs, i, rhs, sole).Success?
    requires NeedsAsi(lhs, ToProduction(lhs, i, rhs, sole).value)
    ensures var p := ToProduction(lhs, i, rhs, sole).value;
      ApplyAsi(p, true).Success? && |p.reducer.args| == ConcreteElems(rhs.body) &&
      |ApplyAsi(p, true).value[0].reducer.args| == ConcreteElems(rhs.body) - 1
  {
    var p := ToProduction(lhs, i, rhs, sole).value;
    var body := rhs.body;
    assert ConcreteElems(body) >= 1 by {
      assert body[|body| - 1] == Text(";");
    }
    assert p.reducer != Ref(0);
  }

  // *** nt_def *****************************************************************

  /** The productions one alternative becomes: itself, or its two ASI forms. */
  function Expand(lhs: Lhs, i: nat, rhs: RhsLine, sole: bool): (r: Result<seq<EsProduction>, DesugarError>)
  {
    var p := ToProduction(lhs, i, rhs, sole);
    if p.Failure? then Failure(p.error)
    else if NeedsAsi(lhs, p.value) then ApplyAsi(p.value, InferredReducer(rhs))
    else Success([p.value])
  }

  /** Each successful expansion is the alternative alone, or its two ASI
      forms; either way it starts with the alternative's own body. */
  lemma ExpandShape(lhs: Lhs, i: nat, rhs: RhsLine, sole: bool)
    requires Expand(lhs, i, rhs, sole).Success?
    ensures var r := Expand(lhs, i, rhs, sole).value;
      var p := ToProduction(lhs, i, rhs, sole).value;
      (|r| == 1 || |r| == 2) && r[0].body == rhs.body && r[0].condition == rhs.condition &&
      (|r| == 2 <==> NeedsAsi(lhs, p)) &&
      (|r| == 2 ==> r[1].body == DropLast(rhs.body) + [ErrorSymbol(AsiCode(rhs.body))])
  {
  }

  /** `production_list` after the first `|rhss|` alternatives. */
  function Productions(lhs: Lhs, sole: bool, rhss: seq<RhsLine>): Result<seq<EsProduction>, DesugarError>
    decreases |rhss|
  {
    if |rhss| == 0 then Success([])
    else
      var done := Productions(lhs, sole, rhss[..|rhss| - 1]);
      if done.Failure? then done
      else
        var e := Expand(lhs, |rhss| - 1, rhss[|rhss| - 1], sole);
        if e.Failure? then Failure(e.error) else Success(done.value + e.value)
  }

  /** The expansion of every alternative, in order. */
  function ExpandAll(lhs: Lhs, sole: bool, rhss: seq<RhsLine>): Result<seq<seq<EsProduction>>, DesugarError>
    decreases |rhss|
  {
    if |rhss| == 0 then Success([])
    else
      var done := ExpandAll(lhs, sole, rhss[..|rhss| - 1]);
      if done.Failure? then done
      else
        var e := Expand(lhs, |rhss| - 1, rhss[|rhss| - 1], sole);
        if e.Failure? then Failure(e.error) else Success(done.value + [e.value])
  }

  /** The lists of `xss`, one after the other. */
  function Flatten<T>(xss: seq<seq<T>>): seq<T>
    decreases |xss|
  {
    if |xss| == 0 then [] else Flatten(xss[..|xss| - 1]) + xss[|xss| - 1]
  }

  /** Where list `k` starts in `Flatten(xss)`. */
  function Start<T>(xss: seq<seq<T>>, k: nat): nat
    requires k <= |xss|
    decreases k
  {
    if k == 0 then 0 else Start(xss, k - 1) + |xss[k - 1]|
  }

  lemma {:induction false} StartPrefix<T>(xss: seq<seq<T>>, n: nat, k: nat)
    requires k <= n <= |xss|
    ensures Start(xss[..n], k) == Start(xss, k)
    decreases k
  {
    if k > 0 {
      StartPrefix(xss, n, k - 1);
      assert xss[..n][k - 1] == xss[k - 1];
    }
  }

  /** List `k` of `xss` sits whole in `f` from `Start(xss, k)` on. */
  predicate Placed<T(==)>(f: seq<T>, xss: seq<seq<T>>, k: nat)
    requires k < |xss|
  {
    Start(xss, k) + |xss[k]| <= |f| && f[Start(xss, k)..Start(xss, k) + |xss[k]|] == xss[k]
  }

  /** `Flatten` keeps every list whole and in place. */
  lemma {:induction false} FlattenSlices<T>(xss: seq<seq<T>>)
    ensures |Flatten(xss)| == Start(xss, |xss|)
    ensures forall k :: 0 <= k < |xss| ==> Placed(Flatten(xss), xss, k)
    decreases |xss|
  {
    if |xss| > 0 {
      var n := |xss| - 1;
      var p := xss[..n];
      FlattenSlices(p);
      var f := Flatten(xss);
      assert f == Flatten(p) + xss[n];
      StartPrefix(xss, n, n);
      forall k | 0 <= k < |xss| ensures Placed(f, xss, k) {
        if k < n {
          StartPrefix(xss, n, k);
          assert p[k] == xss[k];
          assert Placed(Flatten(p), p, k);
          var lo := Start(xss, k);
          assert f[lo..lo + |xss[k]|] == Flatten(p)[lo..lo + |xss[k]|];
        } else {
          assert f[|Flatten(p)|..] == xss[n];
        }
      }
    }
  }

  /** `production_list` is the expansions of the alternatives, one after the
      other, and fails exactly where an expansion fails. */
  lemma ProductionsAreExpansions(lhs: Lhs, sole: bool, rhss: seq<RhsLine>)
    ensures Productions(lhs, sole, rhss).Success? <==> ExpandAll(lhs, sole, rhss).Success?
    ensures Productions(lhs, sole, rhss).Success? ==>
      Productions(lhs, sole, rhss).value == Flatten(ExpandAll(lhs, sole, rhss).value)
    ensures ExpandAll(lhs, sole, rhss).Success? <==>
      forall k :: 0 <= k < |rhss| ==> Expand(lhs, k, rhss[k], sole).Success?
    ensures ExpandAll(lhs, sole, rhss).Success? ==>
      |ExpandAll(lhs, sole, rhss).value| == |rhss| &&
      forall k :: 0 <= k < |rhss| ==> ExpandAll(lhs, sole, rhss).value[k] == Expand(lhs, k, rhss[k], sole).value
  {
    ProductionsFlatten(lhs, sole, rhss);
    ExpandAllPointwise(lhs, sole, rhss);
  }

  lemma {:induction false} ProductionsFlatten(lhs: Lhs, sole: bool, rhss: seq<RhsLine>)
    ensures Productions(lhs, sole, rhss).Success? <==> ExpandAll(lhs, sole, rhss).Success?
    ensures Productions(lhs, sole, rhss).Success? ==>
      Productions(lhs, sole, rhss).value == Flatten(ExpandAll(lhs, sole, rhss).value)
    decreases |rhss|
  {
    if |rhss| > 0 {
      var n := |rhss| - 1;
      var p := rhss[..n];
      ProductionsFlatten(lhs, sole, p);
      var all := ExpandAll(lhs, sole, p);
      var e := Expand(lhs, n, rhss[n], sole);
      if all.Success? && e.Success? {
        var v := all.value + [e.value];
        assert ExpandAll(lhs, sole, rhss) == Success(v);
        assert v[..|v| - 1] == all.value;
        assert Flatten(v) == Flatten(all.value) + e.value;
        assert Productions(lhs, sole, rhss) == Success(Productions(lhs, sole, p).value + e.value);
      }
    }
  }

  lemma {:induction false} ExpandAllPointwise(lhs: Lhs, sole: bool, rhss: seq<RhsLine>)
    ensures ExpandAll(lhs, sole, rhss).Success? <==>
      forall k :: 0 <= k < |rhss| ==> Expand(lhs, k, rhss[k], sole).Success?
    ensures ExpandAll(lhs, sole, rhss).Success? ==>
      |ExpandAll(lhs, sole, rhss).value| == |rhss| &&
      forall k :: 0 <= k < |rhss| ==> ExpandAll(lhs, sole, rhss).value[k] == Expand(lhs, k, rhss[k], sole).value
    decreases |rhss|
  {
    if |rhss| > 0 {
      var n := |rhss| - 1;
      var p := rhss[..n];
      ExpandAllPointwise(lhs, sole, p);
      var all := ExpandAll(lhs, sole, p);
      var e := Expand(lhs, n, rhss[n], sole);
      if all.Failure? {
        assert ExpandAll(lhs, sole, rhss).Failure?;
        var k :| 0 <= k < n && Expand(lhs, k, p[k], sole).Failure?;
        assert p[k] == rhss[k];
      } else if e.Failure? {
        assert ExpandAll(lhs, sole, rhss).Failure?;
      } else {
        var v := all.value + [e.value];
        assert ExpandAll(lhs, sole, rhss) == Success(v);
        forall k | 0 <= k < |rhss|
          ensures Expand(lhs, k, rhss[k], sole).Success? && v[k] == Expand(lhs, k, rhss[k], sole).value
        {
          if k < n {
            assert p[k] == rhss[k];
            assert v[k] == all.value[k];
          }
        }
      }
    }
  }

  /** What `nt_def(nt_type, lhs, eq, rhs_list)` returns. */
  function NtDefOf(ty: Option<string>, lhs: Lhs, eq: string, rhss: seq<RhsLine>): Result<(string, string, EsNtDef), DesugarError> {
    var ps := Productions(lhs, |rhss| == 1, rhss);
    if ps.Failure? then Failure(ps.error) else Success((lhs.name, eq, EsNtDef(lhs.params, ps.value, ty)))
  }

  /** `nt_def`: one loop over the alternatives, appending to `production_list`. */
  method NtDefLoop(ty: Option<string>, lhs: Lhs, eq: string, rhss: seq<RhsLine>)
    returns (r: Result<(string, string, EsNtDef), DesugarError>)
    ensures r == NtDefOf(ty, lhs, eq, rhss)
  {
    var sole := |rhss| == 1;
    var productionList: seq<EsProduction> := [];
    var i := 0;
    while i < |rhss|
      invariant 0 <= i <= |rhss|
      invariant Productions(lhs, sole, rhss[..i]) == Success(productionList)
    {
      assert rhss[..i + 1][..i] == rhss[..i];
      var autoReducer := rhss[i].reducer == NoneValue;
      var p := ToProduction(lhs, i, rhss[i], sole);
      if p.Failure? {
        ProductionsStop(lhs, sole, rhss, i + 1);
        return Failure(p.error);
      }
      if NeedsAsi(lhs, p.value) {
        var split := ApplyAsi(p.value, autoReducer);
        if split.Failure? {
          ProductionsStop(lhs, sole, rhss, i + 1);
          return Failure(split.error);
        }
        productionList := productionList + split.value;
      } else {
        productionList := productionList + [p.value];
      }
      i := i + 1;
    }
    assert rhss[..i] == rhss;
    return Success((lhs.name, eq, EsNtDef(lhs.params, productionList, ty)));
  }

  lemma {:induction false} ProductionsStop(lhs: Lhs, sole: bool, rhss: seq<RhsLine>, n: nat)
    requires n <= |rhss| && Productions(lhs, sole, rhss[..n]).Failure?
    ensures Productions(lhs, sole, rhss) == Productions(lhs, sole, rhss[..n])
    decreases |rhss|
  {
    if n < |rhss| {
      var p := rhss[..|rhss| - 1];
      assert p[..n] == rhss[..n];
      ProductionsStop(lhs, sole, p, n);
    } else {
      assert rhss[..n] == rhss;
    }
  }

  // *** Lookahead sets, applied nonterminals, references, terminals ***********

  /** The first terminal of each one-token exclusion. */
  function Firsts(excls: seq<seq<string>>): (r: seq<string>)
    requires forall k :: 0 <= k < |excls| ==> |excls[k]| == 1
    ensures |r| == |excls| && forall k :: 0 <= k < |excls| ==> r[k] == excls[k][0]
  {
    seq(|excls|, k requires 0 <= k < |excls| => excls[k][0])
  }

  /** `la_not_in_set`: a negative rule over one-token exclusions; longer
      lookahead is unsupported. */
  function LaNotInSet(excls: seq<seq<string>>): (r: Result<EsLookahead, DesugarError>)
    ensures r.Success? <==> forall k :: 0 <= k < |excls| ==> |excls[k]| == 1
    ensures r.Success? ==> !r.value.positive && NoDuplicates(r.value.tokens)
    ensures r.Success? ==> forall t :: t in r.value.tokens <==> exists k :: 0 <= k < |excls| && excls[k] == [t]
  {
    if forall k :: 0 <= k < |excls| ==> |excls[k]| == 1 then
      var firsts := Firsts(excls);
      var tokens := FromSeq(firsts);
      assert forall t :: t in tokens <==> t in Elems(firsts);
      assert forall k :: 0 <= k < |excls| ==> excls[k] == [firsts[k]];
      Success(EsLookahead(tokens, false))
    else Failure(LookaheadTooLong(excls))
  }

  /** The rule the grammar model sees. */
  function ToRule(la: EsLookahead): LookaheadRule {
    LookaheadRule(Elems(la.tokens), la.positive)
  }

  /** `[lookahead ∉ { ... }]` allows exactly the terminals that are not
      excluded. */
  lemma LaNotInSetAllows(excls: seq<seq<string>>, t: string)
    requires LaNotInSet(excls).Success?
    ensures LookaheadContains(Some(ToRule(LaNotInSet(excls).value)), t) <==>
      forall k :: 0 <= k < |excls| ==> excls[k] != [t]
  {
    var la := LaNotInSet(excls).value;
    assert t in la.tokens <==> t in Elems(la.tokens);
  }

  /** `nonterminal_apply`: `len(set(names)) != len(args)` means a parameter
      was passed twice. */
  function NonterminalApply(name: string, args: seq<NtArg>): Result<Nt, DesugarError> {
    if |Elems(ArgParams(args))| != |args| then Failure(DuplicateArgument(name))
    else Success(Nt(Named(name), args))
  }

  /** An application is accepted exactly when no parameter is passed twice,
      and then keeps the arguments in order. */
  lemma NonterminalApplyOk(name: string, args: seq<NtArg>)
    ensures NonterminalApply(name, args).Success? <==> NoDuplicates(ArgParams(args))
    ensures NonterminalApply(name, args).Success? ==> NonterminalApply(name, args).value == Nt(Named(name), args)
  {
    CardElems(ArgParams(args));
  }

  /** `expr_match_ref`: `$N` is element number `N`. */
  function ExprMatchRef(token: string): (r: Result<int, DesugarError>)
    ensures r.Success? <==> |token| > 0 && token[0] == '$' && IsDigits(token[1..])
  {
    if |token| > 0 && token[0] == '$' && IsDigits(token[1..]) then Success(DigitsValue(token[1..]))
    else Failure(BadMatchRef(token))
  }

  /** Reading `$N` for the spelling of `N` gives `N` back. */
  lemma ExprMatchRefRoundTrip(n: nat)
    ensures ExprMatchRef("$" + NatToString(n)) == Success(n)
  {
    var token := "$" + NatToString(n);
    assert token[1..] == NatToString(n);
    DigitsValueOfNatToString(n);
  }

  /** `terminal`: strips the backquotes of `` `t` ``. */
  function TerminalText(t: string): (r: Result<string, DesugarError>)
    ensures r.Success? <==> |t| > 0 && t[0] == '`' && t[|t| - 1] == '`'
    ensures r.Success? ==> |r.value| == if |t| >= 2 then |t| - 2 else 0
  {
    if |t| > 0 && t[0] == '`' && t[|t| - 1] == '`' then Success(if |t| >= 2 then t[1..|t| - 1] else "")
    else Failure(BadTerminal(t))
  }

  lemma TerminalTextRoundTrip(s: string)
    ensures TerminalText("`" + s + "`") == Success(s)
  {
    var t := "`" + s + "`";
    assert t[1..|t| - 1] == s;
  }
}
