/**
 * `finish_grammar`: checks the nonterminal definitions and goals produced by
 * the builder, selects the syntactic (`:`) or lexical (`::`) grammar from the
 * goals, turns nonterminals of the other grammar into variable terminals
 * when the syntactic grammar is selected, strips the backquotes of
 * `` `t` `` symbols in place, and rejects a terminal that is also a
 * nonterminal.
 *
 * Each loop of the source is a method proved equal to a fold over the part
 * of the input it has consumed; `Finish` composes the folds.
 */
module EsFinish {
  import opened Wrappers
  import opened Ordered
  import opened EsGrammar

  /** An item of a definition's right-hand-side list: a production, or
      anything else (an `ifdef` used outside a call). */
  datatype Rule = RuleProduction(p: EsProduction) | RuleOther

  /** What a definition holds: an `NtDef` from `nt_def`, or a plain list. */
  datatype DefBody = DefinedNt(ntDef: EsNtDef) | RuleList(rules: seq<Rule>)

  /** `(nt_name, eq, rhs_list_or_lambda)`. */
  datatype NtDefItem = NtDefItem(name: string, eq: string, body: DefBody)

  /** A value of the resulting `nonterminals` dict. */
  datatype Stored = StoredDef(ntDef: EsNtDef) | StoredRules(productions: seq<EsProduction>)

  datatype FinishError =
    | DuplicateDefinition(name: string)
    | GoalsNotIterable
    | NoGoals
    | UndefinedGoal(goal: string)
    | MixedGrammars(grammars: set<string>)
    | UnrecognizedSymbol(text: string)
    | IfdefOutsideCall
    | MultipleDefinitions(ntName: string)
    | TerminalIsNonterminal(terminal: string)

  /** What `finish_grammar` hands to the `Grammar` constructor. */
  datatype Finished = Finished(nonterminals: seq<(string, Stored)>, goals: seq<string>, variableTerminals: seq<string>)

  function Names(defs: seq<NtDefItem>): (r: seq<string>)
    ensures |r| == |defs| && forall k :: 0 <= k < |defs| ==> r[k] == defs[k].name
  {
    seq(|defs|, k requires 0 <= k < |defs| => defs[k].name)
  }

  /** `d[key] = value` on a dict kept as its items in insertion order. */
  function DictSet(d: seq<(string, Stored)>, key: string, value: Stored): seq<(string, Stored)> {
    if key in Keys(d) then d[FirstIndex(Keys(d), key) := (key, value)] else d + [(key, value)]
  }

  // *** First loop: one grammar marker per name **********************************

  /** `nt_grammars` after the first `|defs|` definitions. */
  function Grammars(defs: seq<NtDefItem>): Result<map<string, string>, FinishError>
    decreases |defs|
  {
    if |defs| == 0 then Success(map[])
    else
      var done := Grammars(defs[..|defs| - 1]);
      var item := defs[|defs| - 1];
      if done.Failure? then done
      else if item.name in done.value then Failure(DuplicateDefinition(item.name))
      else Success(done.value[item.name := item.eq])
  }

  /** The first loop succeeds exactly on distinct names. */
  lemma {:induction false} GrammarsOk(defs: seq<NtDefItem>)
    ensures Grammars(defs).Success? <==> NoDuplicates(Names(defs))
    ensures Grammars(defs).Failure? ==> Grammars(defs).error.DuplicateDefinition?
    ensures Grammars(defs).Success? ==> forall n :: n in Grammars(defs).value <==> n in Names(defs)
    decreases |defs|
  {
    if |defs| > 0 {
      var n := |defs| - 1;
      var p := defs[..n];
      GrammarsOk(p);
      assert Names(defs) == Names(p) + [defs[n].name];
      var done := Grammars(p);
      if done.Success? {
        if defs[n].name in done.value {
          var k :| 0 <= k < n && Names(p)[k] == defs[n].name;
          assert Names(defs)[k] == Names(defs)[n];
        } else if NoDuplicates(Names(p)) {
          assert defs[n].name !in Names(p);
          forall i, j | 0 <= i < j < |defs| ensures Names(defs)[i] != Names(defs)[j] {
            assert Names(defs)[i] == Names(p)[i];
            if j < n {
              assert Names(defs)[j] == Names(p)[j];
            }
          }
        }
      } else {
        var i, j :| 0 <= i < j < |Names(p)| && Names(p)[i] == Names(p)[j];
        assert Names(defs)[i] == Names(defs)[j];
      }
    }
  }

  /** After the first loop each name maps to its definition's marker. */
  lemma {:induction false} GrammarsMap(defs: seq<NtDefItem>)
    requires Grammars(defs).Success?
    ensures forall k :: 0 <= k < |defs| ==> defs[k].name in Grammars(defs).value && Grammars(defs).value[defs[k].name] == defs[k].eq
    decreases |defs|
  {
    if |defs| > 0 {
      var n := |defs| - 1;
      var p := defs[..n];
      GrammarsMap(p);
      assert forall k :: 0 <= k < n ==> p[k] == defs[k];
      GrammarsOk(p);
      var m := Grammars(p).value;
      forall k | 0 <= k < n ensures defs[k].name != defs[n].name {
        assert defs[k].name == Names(p)[k];
      }
    }
  }

  method GrammarsLoop(defs: seq<NtDefItem>) returns (r: Result<map<string, string>, FinishError>)
    ensures r == Grammars(defs)
  {
    var ntGrammars: map<string, string> := map[];
    var i := 0;
    while i < |defs|
      invariant 0 <= i <= |defs|
      invariant Grammars(defs[..i]) == Success(ntGrammars)
    {
      assert defs[..i + 1][..i] == defs[..i];
      if defs[i].name in ntGrammars {
        GrammarsStop(defs, i + 1);
        return Failure(DuplicateDefinition(defs[i].name));
      }
      ntGrammars := ntGrammars[defs[i].name := defs[i].eq];
      i := i + 1;
    }
    assert defs[..i] == defs;
    return Success(ntGrammars);
  }

  lemma {:induction false} GrammarsStop(defs: seq<NtDefItem>, n: nat)
    requires n <= |defs| && Grammars(defs[..n]).Failure?
    ensures Grammars(defs) == Grammars(defs[..n])
    decreases |defs|
  {
    if n < |defs| {
      var p := defs[..|defs| - 1];
      assert p[..n] == defs[..n];
      GrammarsStop(p, n);
    } else {
      assert defs[..n] == defs;
    }
  }

  // *** Selecting the grammar ***************************************************

  /** `set(nt_grammars[goal] for goal in goals)`, raising `KeyError` on the
      first undefined goal. */
  function SelectedGrammars(grammars: map<string, string>, goals: seq<string>): Result<set<string>, FinishError>
    decreases |goals|
  {
    if |goals| == 0 then Success({})
    else
      var done := SelectedGrammars(grammars, goals[..|goals| - 1]);
      var goal := goals[|goals| - 1];
      if done.Failure? then done
      else if goal !in grammars then Failure(UndefinedGoal(goal))
      else Success(done.value + {grammars[goal]})
  }

  /** The markers of the goals are collected exactly when every goal is
      defined, and are then the goals' markers. */
  lemma {:induction false} SelectedGrammarsCorrect(grammars: map<string, string>, goals: seq<string>)
    ensures SelectedGrammars(grammars, goals).Success? <==> forall k :: 0 <= k < |goals| ==> goals[k] in grammars
    ensures SelectedGrammars(grammars, goals).Success? ==>
      forall g :: g in SelectedGrammars(grammars, goals).value <==> exists k :: 0 <= k < |goals| && grammars[goals[k]] == g
    ensures SelectedGrammars(grammars, goals).Failure? ==>
      exists k :: 0 <= k < |goals| && goals[k] !in grammars && SelectedGrammars(grammars, goals).error == UndefinedGoal(goals[k]) &&
        forall j :: 0 <= j < k ==> goals[j] in grammars
    decreases |goals|
  {
    if |goals| > 0 {
      var n := |goals| - 1;
      var p := goals[..n];
      SelectedGrammarsCorrect(grammars, p);
      assert forall k :: 0 <= k < n ==> p[k] == goals[k];
      var done := SelectedGrammars(grammars, p);
      if done.Success? && goals[n] in grammars {
        var s := done.value + {grammars[goals[n]]};
        forall g ensures g in s <==> exists k :: 0 <= k < |goals| && grammars[goals[k]] == g {
          if g in done.value {
            var k :| 0 <= k < n && grammars[p[k]] == g;
            assert grammars[goals[k]] == g;
          }
        }
      }
    }
  }

  method SelectLoop(grammars: map<string, string>, goals: seq<string>) returns (r: Result<set<string>, FinishError>)
    ensures r == SelectedGrammars(grammars, goals)
  {
    var selected: set<string> := {};
    var i := 0;
    while i < |goals|
      invariant 0 <= i <= |goals|
      invariant SelectedGrammars(grammars, goals[..i]) == Success(selected)
    {
      assert goals[..i + 1][..i] == goals[..i];
      if goals[i] !in grammars {
        SelectedStop(grammars, goals, i + 1);
        return Failure(UndefinedGoal(goals[i]));
      }
      selected := selected + {grammars[goals[i]]};
      i := i + 1;
    }
    assert goals[..i] == goals;
    return Success(selected);
  }

  lemma {:induction false} SelectedStop(grammars: map<string, string>, goals: seq<string>, n: nat)
    requires n <= |goals| && SelectedGrammars(grammars, goals[..n]).Failure?
    ensures SelectedGrammars(grammars, goals) == SelectedGrammars(grammars, goals[..n])
    decreases |goals|
  {
    if n < |goals| {
      var p := goals[..|goals| - 1];
      assert p[..n] == goals[..n];
      SelectedStop(grammars, p, n);
    } else {
      assert goals[..n] == goals;
    }
  }

  /** `[selected_grammar] = selected_grammars`: the one marker of the goals,
      or an error when they span several grammars. */
  function Selection(grammars: map<string, string>, goals: seq<string>): Result<string, FinishError>
    requires |goals| > 0
  {
    var s := SelectedGrammars(grammars, goals);
    if s.Failure? then Failure(s.error)
    else if |s.value| > 1 then Failure(MixedGrammars(s.value))
    else
      SelectedGrammarsCorrect(grammars, goals);
      Success(grammars[goals[0]])
  }

  // *** hack_production ********************************************************

  /** `isinstance(e, str) and e[:1] == "`"`. */
  predicate Quoted(e: Elem) {
    e.Text? && |e.s| > 0 && e.s[0] == '`'
  }

  /** A quoted symbol too short or without its closing backquote. */
  predicate Malformed(e: Elem) {
    Quoted(e) && (|e.s| < 3 || e.s[|e.s| - 1] != '`')
  }

  function Inner(e: Elem): string
    requires Quoted(e) && !Malformed(e)
  {
    e.s[1..|e.s| - 1]
  }

  /** The element `hack_production` leaves at a position. */
  function Strip(e: Elem): Elem {
    if Quoted(e) && !Malformed(e) then Text(Inner(e)) else e
  }

  /** The body after rewriting, and the tokens found, in order. */
  function HackElems(body: seq<Elem>): Result<(seq<Elem>, seq<string>), FinishError>
    decreases |body|
  {
    if |body| == 0 then Success(([], []))
    else
      var done := HackElems(body[..|body| - 1]);
      var e := body[|body| - 1];
      if done.Failure? then done
      else if Malformed(e) then Failure(UnrecognizedSymbol(e.s))
      else Success((done.value.0 + [Strip(e)], if Quoted(e) then done.value.1 + [Inner(e)] else done.value.1))
  }

  /** The only error the rewriting reports is an unrecognized symbol. */
  lemma {:induction false} HackElemsErrorKind(body: seq<Elem>)
    ensures HackElems(body).Failure? ==> HackElems(body).error.UnrecognizedSymbol?
    decreases |body|
  {
    if |body| > 0 {
      HackElemsErrorKind(body[..|body| - 1]);
    }
  }

  /** Rewriting fails exactly on a malformed quoted symbol; otherwise each
      quoted symbol loses its backquotes, nothing else changes, and putting
      the backquotes back gives the original. */
  lemma {:induction false} HackElemsCorrect(body: seq<Elem>)
    ensures HackElems(body).Success? <==> forall k :: 0 <= k < |body| ==> !Malformed(body[k])
    ensures HackElems(body).Success? ==>
      var out := HackElems(body).value.0;
      |out| == |body| &&
      forall k :: 0 <= k < |body| ==>
        out[k] == Strip(body[k]) &&
        (Quoted(body[k]) ==> out[k].Text? && Text("`" + out[k].s + "`") == body[k]) &&
        (!Quoted(body[k]) ==> out[k] == body[k])
    decreases |body|
  {
    if |body| > 0 {
      var n := |body| - 1;
      var p := body[..n];
      HackElemsCorrect(p);
      assert forall k :: 0 <= k < n ==> p[k] == body[k];
      var e := body[n];
      if Quoted(e) && !Malformed(e) {
        assert "`" + Inner(e) + "`" == e.s;
      }
    }
  }

  /** `hack_production(p)` on the body array of `p`: each well-formed quoted
      symbol is replaced by its text in place and added to `terminal_set`;
      a malformed one raises, leaving the positions before it rewritten. */
  method HackProduction(body: array<Elem>, terminalSet: seq<string>) returns (r: Result<seq<string>, FinishError>, ghost at: nat)
    modifies body
    ensures r.Success? <==> HackElems(old(body[..])).Success?
    ensures r.Success? ==>
      body[..] == HackElems(old(body[..])).value.0 &&
      r.value == AddAll(terminalSet, HackElems(old(body[..])).value.1)
    ensures r.Failure? ==>
      at < body.Length && HackElems(old(body[..])[..at]).Success? && Malformed(old(body[at])) &&
      r.error == UnrecognizedSymbol(old(body[at]).s) &&
      body[..] == HackElems(old(body[..])[..at]).value.0 + old(body[..])[at..]
    ensures r.Failure? ==> HackElems(old(body[..])) == Failure(r.error)
  {
    ghost var original := body[..];
    var ts := terminalSet;
    var i := 0;
    while i < body.Length
      invariant 0 <= i <= body.Length
      invariant HackElems(original[..i]).Success?
      invariant body[..] == HackElems(original[..i]).value.0 + original[i..]
      invariant ts == AddAll(terminalSet, HackElems(original[..i]).value.1)
    {
      var e := body[i];
      assert e == original[i];
      HackStep(original, i);
      if Quoted(e) {
        if |e.s| < 3 || e.s[|e.s| - 1] != '`' {
          r, at := Failure(UnrecognizedSymbol(e.s)), i;
          HackStop(original, i + 1);
          return;
        }
        body[i] := Text(e.s[1..|e.s| - 1]);
        AddAllSnoc(terminalSet, HackElems(original[..i]).value.1, Inner(e));
        ts := Add(ts, Inner(e));
      }
      SpliceStep(HackElems(original[..i]).value.0, original, i, Strip(e));
      i := i + 1;
    }
    assert original[..i] == original;
    r, at := Success(ts), 0;
  }

  /** One step of the rewriting loop. */
  lemma HackStep(body: seq<Elem>, i: nat)
    requires i < |body| && HackElems(body[..i]).Success?
    ensures Malformed(body[i]) <==> HackElems(body[..i + 1]).Failure?
    ensures Malformed(body[i]) ==> HackElems(body[..i + 1]) == Failure(UnrecognizedSymbol(body[i].s))
    ensures !Malformed(body[i]) ==>
      HackElems(body[..i + 1]).value.0 == HackElems(body[..i]).value.0 + [Strip(body[i])] &&
      HackElems(body[..i + 1]).value.1 ==
        (if Quoted(body[i]) then HackElems(body[..i]).value.1 + [Inner(body[i])] else HackElems(body[..i]).value.1)
  {
    assert body[..i + 1][..i] == body[..i];
  }

  /** Writing the rewritten element at the boundary moves the boundary by one. */
  lemma SpliceStep<T>(done: seq<T>, rest: seq<T>, i: nat, x: T)
    requires |done| == i < |rest|
    ensures (done + rest[i..])[i := x] == (done + [x]) + rest[i + 1..]
  {
  }

  lemma {:induction false} HackStop(body: seq<Elem>, n: nat)
    requires n <= |body| && HackElems(body[..n]).Failure?
    ensures HackElems(body) == HackElems(body[..n])
    decreases |body|
  {
    if n < |body| {
      var p := body[..|body| - 1];
      assert p[..n] == body[..n];
      HackStop(p, n);
    } else {
      assert body[..n] == body;
    }
  }

  lemma AddAllSnoc(s: seq<string>, xs: seq<string>, x: string)
    ensures AddAll(s, xs + [x]) == Add(AddAll(s, xs), x)
  {
    assert (xs + [x])[..|xs|] == xs;
  }

  // *** Collecting the nonterminals *********************************************

  /** `for p in rhs_list: ... hack_production(p)`: the rewritten productions
      of one right-hand-side list and the terminal set after them. */
  function HackRules(rules: seq<Rule>, terms: seq<string>): Result<(seq<EsProduction>, seq<string>), FinishError>
    decreases |rules|
  {
    if |rules| == 0 then Success(([], terms))
    else
      var done := HackRules(rules[..|rules| - 1], terms);
      var rule := rules[|rules| - 1];
      if done.Failure? then done
      else if rule.RuleOther? then Failure(IfdefOutsideCall)
      else
        var h := HackElems(rule.p.body);
        if h.Failure? then Failure(h.error)
        else Success((done.value.0 + [rule.p.(body := h.value.0)], AddAll(done.value.1, h.value.1)))
  }

  /** A list is accepted exactly when it holds only productions with
      well-formed quoted symbols. */
  lemma {:induction false} HackRulesAccepts(rules: seq<Rule>, terms: seq<string>)
    ensures HackRules(rules, terms).Success? <==>
      forall k :: 0 <= k < |rules| ==> rules[k].RuleProduction? && HackElems(rules[k].p.body).Success?
    decreases |rules|
  {
    if |rules| > 0 {
      var n := |rules| - 1;
      var p := rules[..n];
      HackRulesAccepts(p, terms);
      assert forall k :: 0 <= k < n ==> p[k] == rules[k];
    }
  }

  /** The only failures of a rule list are a non-production and a
      malformed quoted symbol. */
  lemma {:induction false} HackRulesErrorKind(rules: seq<Rule>, terms: seq<string>)
    ensures HackRules(rules, terms).Failure? ==>
      HackRules(rules, terms).error == IfdefOutsideCall || HackRules(rules, terms).error.UnrecognizedSymbol?
    decreases |rules|
  {
    if |rules| > 0 {
      var n := |rules| - 1;
      HackRulesErrorKind(rules[..n], terms);
      if rules[n].RuleProduction? {
        HackElemsErrorKind(rules[n].p.body);
      }
    }
  }

  /** On success each production has its body rewritten and keeps its
      reducer and condition, every terminal it names joins the terminal set,
      and the set only grows. */
  lemma {:induction false} HackRulesShape(rules: seq<Rule>, terms: seq<string>)
    requires HackRules(rules, terms).Success?
    ensures var out := HackRules(rules, terms).value;
      |out.0| == |rules| && |terms| <= |out.1| && out.1[..|terms|] == terms &&
      (NoDuplicates(terms) ==> NoDuplicates(out.1)) &&
      forall k :: 0 <= k < |rules| ==>
        rules[k].RuleProduction? && HackElems(rules[k].p.body).Success? &&
        out.0[k] == rules[k].p.(body := HackElems(rules[k].p.body).value.0) &&
        Elems(HackElems(rules[k].p.body).value.1) <= Elems(out.1)
    decreases |rules|
  {
    if |rules| > 0 {
      var n := |rules| - 1;
      var p := rules[..n];
      HackRulesShape(p, terms);
      assert forall k :: 0 <= k < n ==> p[k] == rules[k];
      var done := HackRules(p, terms).value;
      var h := HackElems(rules[n].p.body).value;
      var out1 := AddAll(done.1, h.1);
      assert out1[..|terms|] == done.1[..|terms|];
    }
  }

  lemma {:induction false} HackRulesStop(rules: seq<Rule>, terms: seq<string>, n: nat)
    requires n <= |rules| && HackRules(rules[..n], terms).Failure?
    ensures HackRules(rules, terms) == HackRules(rules[..n], terms)
    decreases |rules|
  {
    if n < |rules| {
      var p := rules[..|rules| - 1];
      assert p[..n] == rules[..n];
      HackRulesStop(p, terms, n);
    } else {
      assert rules[..n] == rules;
    }
  }

  /** The loop over one right-hand-side list, rewriting each production's
      body array in place. */
  method HackRulesLoop(rules: seq<Rule>, terms: seq<string>) returns (r: Result<(seq<EsProduction>, seq<string>), FinishError>)
    ensures r == HackRules(rules, terms)
  {
    var out: seq<EsProduction> := [];
    var ts := terms;
    var i := 0;
    while i < |rules|
      invariant 0 <= i <= |rules|
      invariant HackRules(rules[..i], terms) == Success((out, ts))
    {
      assert rules[..i + 1][..i] == rules[..i];
      var rule := rules[i];
      if rule.RuleOther? {
        HackRulesStop(rules, terms, i + 1);
        return Failure(IfdefOutsideCall);
      }
      var prod := rule.p;
      var body := new Elem[|prod.body|](k requires 0 <= k < |prod.body| => prod.body[k]);
      assert body[..] == prod.body;
      var h, at := HackProduction(body, ts);
      if h.Failure? {
        HackRulesStop(rules, terms, i + 1);
        return Failure(h.error);
      }
      out := out + [prod.(body := body[..])];
      ts := h.value;
      i := i + 1;
    }
    assert rules[..i] == rules;
    return Success((out, ts));
  }

  /** `nonterminals`, `variable_terminals` and `terminal_set` while the
      definitions are walked. */
  datatype Collected = Collected(nonterminals: seq<(string, Stored)>, variableTerminals: seq<string>, terminals: seq<string>)

  /** `single_grammar and eq != selected_grammar and selected_grammar == ':'`:
      a lexical definition seen while building the syntactic grammar. */
  predicate IsVariable(item: NtDefItem, selected: Option<string>) {
    selected.Some? && item.eq != selected.value && selected.value == ":"
  }

  /** One pass of the second loop. */
  function CollectItem(st: Collected, item: NtDefItem, selected: Option<string>): Result<Collected, FinishError> {
    if IsVariable(item, selected) then
      Success(st.(variableTerminals := Add(st.variableTerminals, item.name)))
    else match item.body
      case DefinedNt(d) => Success(st.(nonterminals := DictSet(st.nonterminals, item.name, StoredDef(d))))
      case RuleList(rules) =>
        var h := HackRules(rules, st.terminals);
        if h.Failure? then Failure(h.error)
        else if item.name in Keys(st.nonterminals) then Failure(MultipleDefinitions(item.name))
        else Success(Collected(st.nonterminals + [(item.name, StoredRules(h.value.0))], st.variableTerminals, h.value.1))
  }

  /** The state after the second loop has seen the first `|defs|` definitions. */
  function Collect(defs: seq<NtDefItem>, selected: Option<string>): Result<Collected, FinishError>
    decreases |defs|
  {
    if |defs| == 0 then Success(Collected([], [], []))
    else
      var done := Collect(defs[..|defs| - 1], selected);
      if done.Failure? then done else CollectItem(done.value, defs[|defs| - 1], selected)
  }

  lemma {:induction false} CollectStop(defs: seq<NtDefItem>, selected: Option<string>, n: nat)
    requires n <= |defs| && Collect(defs[..n], selected).Failure?
    ensures Collect(defs, selected) == Collect(defs[..n], selected)
    decreases |defs|
  {
    if n < |defs| {
      var p := defs[..|defs| - 1];
      assert p[..n] == defs[..n];
      CollectStop(p, selected, n);
    } else {
      assert defs[..n] == defs;
    }
  }

  /** The body of the second loop for one definition. */
  method AddDefinition(st: Collected, item: NtDefItem, selected: Option<string>) returns (r: Result<Collected, FinishError>)
    ensures r == CollectItem(st, item, selected)
  {
    if IsVariable(item, selected) {
      return Success(st.(variableTerminals := Add(st.variableTerminals, item.name)));
    }
    match item.body
    case DefinedNt(d) =>
      return Success(st.(nonterminals := DictSet(st.nonterminals, item.name, StoredDef(d))));
    case RuleList(rules) =>
      var h := HackRulesLoop(rules, st.terminals);
      if h.Failure? {
        return Failure(h.error);
      }
      if item.name in Keys(st.nonterminals) {
        return Failure(MultipleDefinitions(item.name));
      }
      return Success(Collected(st.nonterminals + [(item.name, StoredRules(h.value.0))], st.variableTerminals, h.value.1));
  }

  method CollectLoop(defs: seq<NtDefItem>, selected: Option<string>) returns (r: Result<Collected, FinishError>)
    ensures r == Collect(defs, selected)
  {
    var st := Collected([], [], []);
    var i := 0;
    while i < |defs|
      invariant 0 <= i <= |defs|
      invariant Collect(defs[..i], selected) == Success(st)
    {
      assert defs[..i + 1][..i] == defs[..i];
      assert Collect(defs[..i + 1], selected) == CollectItem(st, defs[i], selected);
      var next := AddDefinition(st, defs[i], selected);
      if next.Failure? {
        CollectStop(defs, selected, i + 1);
        return next;
      }
      st := next.value;
      i := i + 1;
    }
    assert defs[..i] == defs;
    return Success(st);
  }

  /** Every definition ends up in exactly one place: among the variable
      terminals when it is a lexical definition seen from the syntactic
      grammar, among the nonterminals otherwise; both are free of repeats
      and hold nothing else. */
  ghost predicate Partitioned(defs: seq<NtDefItem>, selected: Option<string>, c: Collected) {
    NoDuplicates(Keys(c.nonterminals)) && NoDuplicates(c.variableTerminals) &&
    (forall k :: 0 <= k < |defs| ==>
      (defs[k].name in Keys(c.nonterminals) <==> !IsVariable(defs[k], selected)) &&
      (defs[k].name in c.variableTerminals <==> IsVariable(defs[k], selected))) &&
    (forall n :: n in Keys(c.nonterminals) ==> n in Names(defs)) &&
    (forall n :: n in c.variableTerminals ==> n in Names(defs))
  }

  /** One more definition with a fresh name keeps the partition, and can
      never be rejected as a second definition. */
  lemma CollectItemStep(p: seq<NtDefItem>, item: NtDefItem, selected: Option<string>, c: Collected)
    requires Partitioned(p, selected, c) && item.name !in Names(p)
    ensures CollectItem(c, item, selected).Failure? ==>
      CollectItem(c, item, selected).error == IfdefOutsideCall || CollectItem(c, item, selected).error.UnrecognizedSymbol?
    ensures CollectItem(c, item, selected).Success? ==> Partitioned(p + [item], selected, CollectItem(c, item, selected).value)
  {
    var defs := p + [item];
    var r := CollectItem(c, item, selected);
    if item.body.RuleList? {
      HackRulesErrorKind(item.body.rules, c.terminals);
    }
    assert item.name !in Keys(c.nonterminals);
    assert item.name !in c.variableTerminals;
    assert Names(defs) == Names(p) + [item.name];
    if r.Success? {
      var keys := Keys(r.value.nonterminals);
      if IsVariable(item, selected) {
        assert r.value.variableTerminals == c.variableTerminals + [item.name];
        assert keys == Keys(c.nonterminals);
      } else {
        assert keys == Keys(c.nonterminals) + [item.name];
        assert r.value.variableTerminals == c.variableTerminals;
      }
      forall k | 0 <= k < |p| ensures defs[k].name != item.name {
        assert defs[k].name == Names(p)[k];
      }
    }
  }

  /** With distinct names the second loop keeps the partition, and its only
      failures are a misplaced `ifdef` and a malformed quoted symbol. */
  lemma {:induction false} CollectPartition(defs: seq<NtDefItem>, selected: Option<string>)
    requires NoDuplicates(Names(defs))
    ensures Collect(defs, selected).Failure? ==>
      Collect(defs, selected).error == IfdefOutsideCall || Collect(defs, selected).error.UnrecognizedSymbol?
    ensures Collect(defs, selected).Success? ==> Partitioned(defs, selected, Collect(defs, selected).value)
    decreases |defs|
  {
    if |defs| > 0 {
      var n := |defs| - 1;
      var p := defs[..n];
      assert Names(p) == Names(defs)[..n];
      CollectPartition(p, selected);
      assert defs == p + [defs[n]];
      assert defs[n].name !in Names(p);
      var done := Collect(p, selected);
      if done.Success? {
        CollectItemStep(p, defs[n], selected, done.value);
      }
    }
  }

  // *** The final check and the whole function ***********************************

  /** `for t in terminal_set: if t in nonterminals: raise`: the first
      terminal that is also a nonterminal name, if any. */
  function FirstClash(terms: seq<string>, names: seq<string>): Option<string>
    decreases |terms|
  {
    if |terms| == 0 then None
    else if terms[0] in names then Some(terms[0])
    else FirstClash(terms[1..], names)
  }

  /** No clash is reported exactly when the two lists are disjoint, and a
      reported clash lies in both. */
  lemma {:induction false} FirstClashCorrect(terms: seq<string>, names: seq<string>)
    ensures FirstClash(terms, names).None? <==> forall k :: 0 <= k < |terms| ==> terms[k] !in names
    ensures FirstClash(terms, names).Some? ==> FirstClash(terms, names).value in terms && FirstClash(terms, names).value in names
    decreases |terms|
  {
    if |terms| > 0 {
      FirstClashCorrect(terms[1..], names);
      assert forall k :: 1 <= k < |terms| ==> terms[1..][k - 1] == terms[k];
    }
  }

  method ClashLoop(terms: seq<string>, names: seq<string>) returns (r: Option<string>)
    ensures r == FirstClash(terms, names)
  {
    var i := 0;
    while i < |terms|
      invariant 0 <= i <= |terms|
      invariant FirstClash(terms, names) == FirstClash(terms[i..], names)
    {
      if terms[i] in names {
        return Some(terms[i]);
      }
      assert terms[i..][1..] == terms[i + 1..];
      i := i + 1;
    }
    return None;
  }

  /** The grammar the goals select when `single_grammar` is set. */
  function SelectGrammar(grammars: map<string, string>, goals: seq<string>, single: bool): Result<Option<string>, FinishError>
    requires |goals| > 0
  {
    if !single then Success(None)
    else
      var s := Selection(grammars, goals);
      if s.Failure? then Failure(s.error) else Success(Some(s.value))
  }

  /** `finish_grammar(nt_defs, goals, synthetic_terminals, single_grammar)`;
      `goals` is `None` when the caller passed something that is not a list. */
  function Finish(defs: seq<NtDefItem>, goals: Option<seq<string>>, single: bool): Result<Finished, FinishError> {
    var g := Grammars(defs);
    if g.Failure? then Failure(g.error)
    else if goals.None? then Failure(GoalsNotIterable)
    else if |goals.value| == 0 then Failure(NoGoals)
    else
      var sel := SelectGrammar(g.value, goals.value, single);
      if sel.Failure? then Failure(sel.error)
      else
        var c := Collect(defs, sel.value);
        if c.Failure? then Failure(c.error)
        else
          var clash := FirstClash(c.value.terminals, Keys(c.value.nonterminals));
          if clash.Some? then Failure(TerminalIsNonterminal(clash.value))
          else Success(Finished(c.value.nonterminals, goals.value, c.value.variableTerminals))
  }

  method FinishGrammar(defs: seq<NtDefItem>, goals: Option<seq<string>>, single: bool) returns (r: Result<Finished, FinishError>)
    ensures r == Finish(defs, goals, single)
  {
    var g := GrammarsLoop(defs);
    if g.Failure? {
      return Failure(g.error);
    }
    if goals.None? {
      return Failure(GoalsNotIterable);
    }
    var gs := goals.value;
    if |gs| == 0 {
      return Failure(NoGoals);
    }
    var selected: Option<string> := None;
    if single {
      var sel := SelectLoop(g.value, gs);
      if sel.Failure? {
        return Failure(sel.error);
      }
      if |sel.value| > 1 {
        return Failure(MixedGrammars(sel.value));
      }
      SelectedGrammarsCorrect(g.value, gs);
      selected := Some(g.value[gs[0]]);
    }
    var c := CollectLoop(defs, selected);
    if c.Failure? {
      return Failure(c.error);
    }
    var clash := ClashLoop(c.value.terminals, Keys(c.value.nonterminals));
    if clash.Some? {
      return Failure(TerminalIsNonterminal(clash.value));
    }
    return Success(Finished(c.value.nonterminals, gs, c.value.variableTerminals));
  }

  // *** What finish_grammar guarantees *******************************************

  /** The marker (`:` or `::`) of the definition of `name`. */
  function MarkerOf(defs: seq<NtDefItem>, name: string): string
    requires name in Names(defs)
  {
    defs[FirstIndex(Names(defs), name)].eq
  }

  lemma GrammarsMarker(defs: seq<NtDefItem>, name: string)
    requires Grammars(defs).Success? && name in Names(defs)
    ensures name in Grammars(defs).value && Grammars(defs).value[name] == MarkerOf(defs, name)
  {
    GrammarsMap(defs);
    var k := FirstIndex(Names(defs), name);
    assert defs[k].name == name;
  }

  /** One grammar is selected exactly when every goal is defined and all
      goals carry the same marker; it is then that marker. */
  lemma SelectionCorrect(grammars: map<string, string>, goals: seq<string>)
    requires |goals| > 0
    ensures Selection(grammars, goals).Success? <==>
      goals[0] in grammars && forall k :: 0 <= k < |goals| ==> goals[k] in grammars && grammars[goals[k]] == grammars[goals[0]]
    ensures Selection(grammars, goals).Success? ==> Selection(grammars, goals).value == grammars[goals[0]]
    ensures Selection(grammars, goals).Failure? ==>
      Selection(grammars, goals).error.UndefinedGoal? || Selection(grammars, goals).error.MixedGrammars?
  {
    SelectedGrammarsCorrect(grammars, goals);
    var s := SelectedGrammars(grammars, goals);
    if s.Success? {
      var a := grammars[goals[0]];
      assert a in s.value;
      if |s.value| > 1 {
        assert |s.value - {a}| == |s.value| - 1;
        var b :| b in s.value - {a};
        var k :| 0 <= k < |goals| && grammars[goals[k]] == b;
        assert grammars[goals[k]] != grammars[goals[0]];
      } else {
        forall k | 0 <= k < |goals| ensures grammars[goals[k]] == a {
          var b := grammars[goals[k]];
          assert b in s.value;
        }
      }
    }
  }

  /** Two definitions with one name are always rejected. */
  lemma FinishRejectsDuplicates(defs: seq<NtDefItem>, goals: Option<seq<string>>, single: bool)
    requires !NoDuplicates(Names(defs))
    ensures Finish(defs, goals, single).Failure? && Finish(defs, goals, single).error.DuplicateDefinition?
  {
    GrammarsOk(defs);
  }

  /** Goals must be given as a list, and it must not be empty. */
  lemma FinishRequiresGoals(defs: seq<NtDefItem>, single: bool)
    requires NoDuplicates(Names(defs))
    ensures Finish(defs, None, single) == Failure(GoalsNotIterable)
    ensures Finish(defs, Some([]), single) == Failure(NoGoals)
  {
    GrammarsOk(defs);
  }

  /** With a single grammar, a goal that names no definition is rejected. */
  lemma FinishUndefinedGoal(defs: seq<NtDefItem>, goals: seq<string>, k: nat)
    requires NoDuplicates(Names(defs)) && k < |goals| && goals[k] !in Names(defs)
    ensures Finish(defs, Some(goals), true).Failure?
    ensures Finish(defs, Some(goals), true).error.UndefinedGoal?
    ensures Finish(defs, Some(goals), true).error.goal in goals && Finish(defs, Some(goals), true).error.goal !in Names(defs)
  {
    GrammarsOk(defs);
    SelectedGrammarsCorrect(Grammars(defs).value, goals);
  }

  /** With a single grammar, goals from both grammars are rejected, and the
      error names both markers. */
  lemma FinishMixedGrammars(defs: seq<NtDefItem>, goals: seq<string>, i: nat, j: nat)
    requires NoDuplicates(Names(defs)) && forall k :: 0 <= k < |goals| ==> goals[k] in Names(defs)
    requires i < |defs| && j < |defs| && defs[i].name in goals && defs[j].name in goals && defs[i].eq != defs[j].eq
    ensures Finish(defs, Some(goals), true).Failure?
    ensures Finish(defs, Some(goals), true).error.MixedGrammars?
    ensures defs[i].eq in Finish(defs, Some(goals), true).error.grammars && defs[j].eq in Finish(defs, Some(goals), true).error.grammars
  {
    GrammarsOk(defs);
    GrammarsMap(defs);
    var m := Grammars(defs).value;
    SelectedGrammarsCorrect(m, goals);
    var ki :| 0 <= ki < |goals| && goals[ki] == defs[i].name;
    var kj :| 0 <= kj < |goals| && goals[kj] == defs[j].name;
    var s := SelectedGrammars(m, goals).value;
    assert m[goals[ki]] in s && m[goals[kj]] in s;
    assert |s - {m[goals[ki]]}| == |s| - 1;
    assert m[goals[kj]] in s - {m[goals[ki]]};
  }

  /** The only failures after the names and goals are checked are a
      misplaced `ifdef`, a malformed quoted symbol and a terminal that is
      also a nonterminal: a second definition of a name is never what goes
      wrong. */
  lemma FinishNeverMultipleDefinitions(defs: seq<NtDefItem>, goals: Option<seq<string>>, single: bool)
    ensures Finish(defs, goals, single).Failure? ==> !Finish(defs, goals, single).error.MultipleDefinitions?
  {
    GrammarsOk(defs);
    if Grammars(defs).Success? && goals.Some? && |goals.value| > 0 {
      var g := Grammars(defs).value;
      if single {
        SelectionCorrect(g, goals.value);
      }
      var sel := SelectGrammar(g, goals.value, single);
      if sel.Success? {
        CollectPartition(defs, sel.value);
      }
    }
  }

  /** What a successful run returns: the goals as given, the nonterminals
      and the variable terminals partitioning the definitions according to
      the selected grammar, and no terminal named like a nonterminal. */
  lemma FinishSuccess(defs: seq<NtDefItem>, goals: Option<seq<string>>, single: bool)
    requires Finish(defs, goals, single).Success?
    ensures NoDuplicates(Names(defs)) && goals.Some? && |goals.value| > 0
    ensures single ==>
      goals.value[0] in Names(defs) &&
      forall k :: 0 <= k < |goals.value| ==> goals.value[k] in Names(defs) && MarkerOf(defs, goals.value[k]) == MarkerOf(defs, goals.value[0])
    ensures
      var sel := if single then Some(MarkerOf(defs, goals.value[0])) else None;
      Collect(defs, sel).Success? &&
      var c := Collect(defs, sel).value;
      Finish(defs, goals, single).value == Finished(c.nonterminals, goals.value, c.variableTerminals) &&
      Partitioned(defs, sel, c) &&
      forall t :: t in c.terminals ==> t !in Keys(c.nonterminals)
  {
    GrammarsOk(defs);
    var g := Grammars(defs).value;
    var gs := goals.value;
    if single {
      SelectionCorrect(g, gs);
      forall k | 0 <= k < |gs| ensures gs[k] in Names(defs) && MarkerOf(defs, gs[k]) == MarkerOf(defs, gs[0]) {
        GrammarsMarker(defs, gs[k]);
        GrammarsMarker(defs, gs[0]);
      }
      GrammarsMarker(defs, gs[0]);
    }
    var sel := SelectGrammar(g, gs, single).value;
    CollectPartition(defs, sel);
    var c := Collect(defs, sel).value;
    FirstClashCorrect(c.terminals, Keys(c.nonterminals));
  }
}
