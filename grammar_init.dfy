/**
 * `Grammar.__init__` of jsparagus/grammar.py: the constructor that checks a
 * dict of nonterminal definitions, desugars bare productions, collects the
 * terminals and synthesizes one init nonterminal per goal; and the `Grammar`
 * object with its `intern` cache.
 *
 * Each loop of the constructor is a loop of `Construct`, proved against a
 * left fold (`ScanKeys`, `ValidateAll`, `AddInits`) whose properties are
 * proved as the folds' own contracts and as lemmas about `Build`.
 */
module GrammarInit {
  import opened Wrappers
  import opened Strings
  import opened Ordered
  import opened Defs = Grammar

  // *** Input ******************************************************************

  /** A key of the `nonterminals` dict: a name, an `InitNt`, or (later in the
      pipeline) an `Nt` with its boolean arguments. */
  datatype Key = StrKey(s: string) | InitKey(goal: Nt) | NtKey(nt: Nt)

  /** A right-hand side as written: a bare list of elements, or a `Production`. */
  datatype RawRhs = Bare(body: seq<Element>) | Full(prod: Production)

  /** A dict value: an `NtDef`, or a bare list of right-hand sides. */
  datatype RawDef = RawNtDef(params: seq<string>, rhss: seq<RawRhs>) | RawList(rhss: seq<RawRhs>)

  /** An entry of `goal_nts`: a name, an `Nt`, or any other object (an `InitNt`
      lands here when the first key is one and no goals are given). */
  datatype Goal = StrGoal(s: string) | NtGoal(nt: Nt) | InitNtGoal(goal: Nt)

  type Entry = (Key, RawDef)

  /** The constructor's arguments; `goals == None` means "the first key". */
  datatype GrammarInput = GrammarInput(entries: seq<Entry>, goals: Option<seq<Goal>>, variableTerminals: seq<string>)

  // *** Errors *****************************************************************

  /** Why `validate_element` rejects an element. */
  datatype ElementError =
    | MissingParameters(symbol: string)
    | OptionalInnerNotNt
    | UnknownNonterminal(ntName: NtName)
    | WrongArguments(callee: NtName, passed: seq<string>, expected: seq<string>)
    | UndefinedVariable(variable: string)

  /** The exceptions the constructor raises. */
  datatype GrammarError =
    | EmptyGrammar
    | ConflictingKeyTypes(key: Key)
    | ConflictingParams(name: NtName, first: seq<string>, second: seq<string>)
    | NotIdentifier(text: string)
    | VariableTerminalKey(terminal: string)
    | NonBoolKeyArgs(nt: Nt)
    | InitGoalInvalid(goal: Nt, err: ElementError)
    | InitGoalNotListed(goal: Nt)
    | InitDefNotNtDef(goal: Nt)
    | BadInitForm(goal: Nt)
    | UndefinedConditionParam(key: Key, index: nat, param: string)
    | KeyMethodName(key: Key, index: nat)
    | BadAction(key: Key, index: nat, actionErr: ActionError)
    | BadElement(key: Key, index: nat, position: nat, err: ElementError)
    | GoalUndefined(undefinedGoal: Goal)
    | UnsupportedGoal(otherGoal: Goal)

  // *** First loop: what the keys say ******************************************

  /** `nt_params` and `str_to_nt`. */
  datatype KeyInfo = KeyInfo(ntParams: map<NtName, seq<string>>, strToNt: map<NtName, Nt>)

  predicate KeyTypeOk(keysAreNt: bool, k: Key) {
    k.NtKey? == keysAreNt
  }

  /** The name a key defines. */
  function KeyName(k: Key): NtName {
    match k
    case StrKey(s) => Named(s)
    case InitKey(g) => InitName(g)
    case NtKey(nt) => nt.name
  }

  /** The parameter names a key declares. */
  function KeyParams(e: Entry): seq<string> {
    if e.0.NtKey? then ArgParams(e.0.nt.args)
    else if e.1.RawNtDef? then e.1.params
    else []
  }

  /** The keys are all of the first key's kind, and all keys naming the same
      nonterminal declare the same parameters. */
  predicate ConsistentKeys(keysAreNt: bool, entries: seq<Entry>) {
    (forall i :: 0 <= i < |entries| ==> KeyTypeOk(keysAreNt, entries[i].0)) &&
    forall i, j :: 0 <= i < |entries| && 0 <= j < |entries| && KeyName(entries[i].0) == KeyName(entries[j].0) ==>
      KeyParams(entries[i]) == KeyParams(entries[j])
  }

  /** `str_to_nt` holds `Nt(name)` for exactly the names without parameters. */
  ghost predicate StrToNtExact(info: KeyInfo) {
    (forall n :: n in info.strToNt <==> n in info.ntParams && info.ntParams[n] == []) &&
    (forall n :: n in info.strToNt ==> info.strToNt[n] == Nt(n, []))
  }

  /** Records a name with its parameters in `nt_params` (unless already
      there) and, when it has none, `Nt(name)` in `str_to_nt`. */
  function Record(info: KeyInfo, name: NtName, params: seq<string>): KeyInfo {
    var ntParams := if name in info.ntParams then info.ntParams else info.ntParams[name := params];
    var strToNt := if params == [] && name !in info.strToNt then info.strToNt[name := Nt(name, [])] else info.strToNt;
    KeyInfo(ntParams, strToNt)
  }

  function ScanKey(keysAreNt: bool, info: KeyInfo, e: Entry): Result<KeyInfo, GrammarError> {
    if !KeyTypeOk(keysAreNt, e.0) then Failure(ConflictingKeyTypes(e.0))
    else
      var name, params := KeyName(e.0), KeyParams(e);
      if name in info.ntParams && info.ntParams[name] != params then
        Failure(ConflictingParams(name, info.ntParams[name], params))
      else Success(Record(info, name, params))
  }

  lemma RecordKeepsExact(info: KeyInfo, name: NtName, params: seq<string>)
    requires StrToNtExact(info)
    requires name in info.ntParams ==> info.ntParams[name] == params
    ensures StrToNtExact(Record(info, name, params))
    ensures forall n :: n in Record(info, name, params).ntParams <==> n in info.ntParams || n == name
    ensures forall n :: n in info.ntParams ==> Record(info, name, params).ntParams[n] == info.ntParams[n]
    ensures Record(info, name, params).ntParams[name] == params
  {
  }

  /** The first loop of the constructor over the dict items. */
  function ScanKeys(keysAreNt: bool, entries: seq<Entry>): Result<KeyInfo, GrammarError>
    decreases |entries|
  {
    if |entries| == 0 then Success(KeyInfo(map[], map[]))
    else
      match ScanKeys(keysAreNt, entries[..|entries| - 1])
      case Failure(err) => Failure(err)
      case Success(info) => ScanKey(keysAreNt, info, entries[|entries| - 1])
  }

  /** The scan records exactly the names of `entries`, each with the
      parameters its keys declare. */
  ghost predicate InfoMatches(info: KeyInfo, entries: seq<Entry>) {
    StrToNtExact(info) &&
    (forall n :: n in info.ntParams ==> exists i :: 0 <= i < |entries| && KeyName(entries[i].0) == n) &&
    (forall i :: 0 <= i < |entries| ==>
      KeyName(entries[i].0) in info.ntParams && info.ntParams[KeyName(entries[i].0)] == KeyParams(entries[i]))
  }

  /** The key scan succeeds exactly on consistent keys, and then `nt_params`
      and `str_to_nt` describe the keys exactly. */
  lemma {:induction false} ScanKeysCorrect(keysAreNt: bool, entries: seq<Entry>)
    ensures ScanKeys(keysAreNt, entries).Success? <==> ConsistentKeys(keysAreNt, entries)
    ensures ScanKeys(keysAreNt, entries).Success? ==> InfoMatches(ScanKeys(keysAreNt, entries).value, entries)
    decreases |entries|
  {
    if |entries| > 0 {
      var p := entries[..|entries| - 1];
      var e := entries[|entries| - 1];
      var last := |entries| - 1;
      assert forall i :: 0 <= i < |p| ==> entries[i] == p[i];
      ScanKeysCorrect(keysAreNt, p);
      var rp := ScanKeys(keysAreNt, p);
      if rp.Failure? {
        NotConsistentPrefix(keysAreNt, entries);
      } else {
        var info := rp.value;
        var r := ScanKey(keysAreNt, info, e);
        var name, params := KeyName(e.0), KeyParams(e);
        if r.Failure? {
          if KeyTypeOk(keysAreNt, e.0) {
            var i :| 0 <= i < |p| && KeyName(p[i].0) == name;
            assert KeyName(entries[i].0) == KeyName(entries[last].0);
            assert KeyParams(entries[i]) != KeyParams(entries[last]);
          }
        } else {
          ScanStepConsistent(keysAreNt, entries, info);
          ScanStepMatches(keysAreNt, entries, info);
        }
      }
    }
  }

  lemma ScanStepConsistent(keysAreNt: bool, entries: seq<Entry>, info: KeyInfo)
    requires |entries| > 0
    requires ConsistentKeys(keysAreNt, entries[..|entries| - 1])
    requires InfoMatches(info, entries[..|entries| - 1])
    requires ScanKey(keysAreNt, info, entries[|entries| - 1]).Success?
    ensures ConsistentKeys(keysAreNt, entries)
  {
    var p := entries[..|entries| - 1];
    var last := |entries| - 1;
    assert forall i :: 0 <= i < |p| ==> entries[i] == p[i];
    forall i, j | 0 <= i < |entries| && 0 <= j < |entries| && KeyName(entries[i].0) == KeyName(entries[j].0)
      ensures KeyParams(entries[i]) == KeyParams(entries[j])
    {
      if i < last && j == last {
        assert KeyName(p[i].0) in info.ntParams;
      } else if i == last && j < last {
        assert KeyName(p[j].0) in info.ntParams;
      }
    }
  }

  lemma ScanStepMatches(keysAreNt: bool, entries: seq<Entry>, info: KeyInfo)
    requires |entries| > 0
    requires InfoMatches(info, entries[..|entries| - 1])
    requires ScanKey(keysAreNt, info, entries[|entries| - 1]).Success?
    ensures InfoMatches(ScanKey(keysAreNt, info, entries[|entries| - 1]).value, entries)
  {
    var p := entries[..|entries| - 1];
    var last := |entries| - 1;
    assert forall i :: 0 <= i < |p| ==> entries[i] == p[i];
    var name, params := KeyName(entries[last].0), KeyParams(entries[last]);
    var info' := Record(info, name, params);
    assert ScanKey(keysAreNt, info, entries[last]).value == info';
    RecordKeepsExact(info, name, params);
    forall n | n in info'.ntParams ensures exists i :: 0 <= i < |entries| && KeyName(entries[i].0) == n {
      if n in info.ntParams {
        var i :| 0 <= i < |p| && KeyName(p[i].0) == n;
        assert KeyName(entries[i].0) == n;
      } else {
        assert KeyName(entries[last].0) == n;
      }
    }
    forall i | 0 <= i < |entries|
      ensures KeyName(entries[i].0) in info'.ntParams && info'.ntParams[KeyName(entries[i].0)] == KeyParams(entries[i])
    {
      if i < last {
        assert KeyName(p[i].0) in info.ntParams;
      }
    }
  }

  lemma NotConsistentPrefix(keysAreNt: bool, entries: seq<Entry>)
    requires |entries| > 0
    requires !ConsistentKeys(keysAreNt, entries[..|entries| - 1])
    ensures !ConsistentKeys(keysAreNt, entries)
  {
    var p := entries[..|entries| - 1];
    assert forall i :: 0 <= i < |p| ==> entries[i] == p[i];
  }

  // *** Second loop: validating and copying each definition ********************

  /** What `validate_element` consults: the dict's keys and the key scan. */
  datatype Context = Context(keys: seq<Key>, info: KeyInfo)

  /** The dict key that defines a nonterminal name in a str-keyed grammar. */
  function KeyOfName(name: NtName): Key {
    match name
    case Named(s) => StrKey(s)
    case InitName(g) => InitKey(g)
  }

  /** The terminals an element contributes to `all_terminals`. */
  function ElementSyms(e: Element): seq<string> {
    match e
    case Sym(s) => [s]
    case Opt(inner) => ElementSyms(inner)
    case _ => []
  }

  /** The first `Var` argument naming no parameter of the definition. */
  function FirstUndefinedVar(args: seq<NtArg>, params: seq<string>): (r: Option<string>)
    ensures r.None? <==> forall k :: 0 <= k < |args| && args[k].value.VarArg? ==> args[k].value.name in params
    ensures r.Some? ==> r.value !in params && exists k :: 0 <= k < |args| && args[k].value == VarArg(r.value)
  {
    if |args| == 0 then None
    else if args[0].value.VarArg? && args[0].value.name !in params then Some(args[0].value.name)
    else
      var r := FirstUndefinedVar(args[1..], params);
      assert forall k :: 1 <= k < |args| ==> args[k] == args[1..][k - 1];
      r
  }

  /** `validate_element`: resolves a plain string naming a nonterminal
      without parameters to `Nt(name)`, checks `Optional`s and `Nt`
      references, and reports the terminals it meets. */
  function ValidateElement(cx: Context, params: seq<string>, e: Element): (r: Result<(Element, seq<string>), ElementError>)
    ensures r.Success? ==> r.value.1 == ElementSyms(r.value.0)
    ensures r.Success? ==> IsConcrete(r.value.0) == IsConcrete(e)
    ensures r.Success? && r.value.0.Sym? ==> Named(r.value.0.s) !in cx.info.ntParams
    ensures e.Sym? ==> (r.Failure? <==> Named(e.s) in cx.info.ntParams && cx.info.ntParams[Named(e.s)] != [])
    ensures e.Sym? && r.Success? ==> r.value.0 == (if Named(e.s) in cx.info.ntParams then NtRef(Nt(Named(e.s), [])) else e)
    ensures e.NtRef? ==> (r.Success? <==>
      (NtKey(e.nt) in cx.keys || KeyOfName(e.nt.name) in cx.keys) &&
      (e.nt.name in cx.info.ntParams ==> ArgParams(e.nt.args) == cx.info.ntParams[e.nt.name]) &&
      forall k :: 0 <= k < |e.nt.args| && e.nt.args[k].value.VarArg? ==> e.nt.args[k].value.name in params)
    ensures r.Success? && !e.Sym? && !e.Opt? ==> r.value.0 == e
    ensures e.Opt? && !(e.inner.Sym? || e.inner.NtRef?) ==> r == Failure(OptionalInnerNotNt)
  {
    match e
    case Sym(s) =>
      if Named(s) in cx.info.ntParams then
        if cx.info.ntParams[Named(s)] != [] then Failure(MissingParameters(s))
        else Success((NtRef(Nt(Named(s), [])), []))
      else Success((e, [s]))
    case Opt(inner) =>
      if !(inner.Sym? || inner.NtRef?) then Failure(OptionalInnerNotNt)
      else
        var v := ValidateElement(cx, params, inner);
        if v.Failure? then Failure(v.error) else Success((Opt(v.value.0), v.value.1))
    case NtRef(nt) =>
      if NtKey(nt) !in cx.keys && KeyOfName(nt.name) !in cx.keys then Failure(UnknownNonterminal(nt.name))
      else if nt.name in cx.info.ntParams && ArgParams(nt.args) != cx.info.ntParams[nt.name] then
        Failure(WrongArguments(nt.name, ArgParams(nt.args), cx.info.ntParams[nt.name]))
      else
        var undefined := FirstUndefinedVar(nt.args, params);
        if undefined.Some? then Failure(UndefinedVariable(undefined.value)) else Success((e, []))
    case Lookahead(_) => Success((e, []))
    case ErrorToken => Success((e, []))
  }

  /** Every body element's terminals are among `terms`. */
  predicate BodySymsIn(body: seq<Element>, terms: seq<string>) {
    forall j, s :: 0 <= j < |body| && s in ElementSyms(body[j]) ==> s in terms
  }

  /** Validating a body left to right; the error carries the position. */
  function ValidateBody(cx: Context, params: seq<string>, body: seq<Element>): (r: Result<(seq<Element>, seq<string>), (nat, ElementError)>)
    ensures r.Success? ==> |r.value.0| == |body|
    ensures r.Success? ==> ConcreteCount(r.value.0) == ConcreteCount(body)
    ensures r.Success? ==> BodySymsIn(r.value.0, r.value.1)
    ensures r.Success? ==> forall j :: 0 <= j < |body| ==> ValidateElement(cx, params, body[j]).Success?
    ensures r.Failure? ==> r.error.0 < |body| && ValidateElement(cx, params, body[r.error.0]) == Failure(r.error.1)
    decreases |body|
  {
    if |body| == 0 then Success(([], []))
    else
      var p := body[..|body| - 1];
      var j := |body| - 1;
      assert forall k :: 0 <= k < |p| ==> body[k] == p[k];
      match ValidateBody(cx, params, p)
      case Failure(err) => Failure(err)
      case Success(done) =>
        match ValidateElement(cx, params, body[j])
        case Failure(err) => Failure((j, err))
        case Success(v) =>
          var out := done.0 + [v.0];
          assert out[..|out| - 1] == done.0;
          assert forall k :: 0 <= k < j ==> out[k] == done.0[k];
          Success((out, done.1 + v.1))
  }

  /** A body validates exactly when each of its elements does, and the
      validated body is the validated elements in order. */
  lemma {:induction false} ValidateBodyMeaning(cx: Context, params: seq<string>, body: seq<Element>)
    ensures ValidateBody(cx, params, body).Success? <==>
      forall j :: 0 <= j < |body| ==> ValidateElement(cx, params, body[j]).Success?
    ensures ValidateBody(cx, params, body).Success? ==> forall j :: 0 <= j < |body| ==>
      ValidateBody(cx, params, body).value.0[j] == ValidateElement(cx, params, body[j]).value.0
    decreases |body|
  {
    if |body| > 0 {
      var p := body[..|body| - 1];
      var n := |body| - 1;
      ValidateBodyMeaning(cx, params, p);
      assert body == p + [body[n]];
      var r := ValidateBody(cx, params, body);
      if r.Success? {
        var done := ValidateBody(cx, params, p).value.0;
        assert r.value.0 == done + [ValidateElement(cx, params, body[n]).value.0];
      }
    }
  }

  /** The reduce action `copy_rhs` ends up with: the given one, or the
      default for a bare list. */
  function RhsProduction(key: Key, i: nat, sole: bool, rhs: RawRhs): Production {
    match rhs
    case Full(p) => p
    case Bare(body) => Production(body, DefaultAction(if key.StrKey? then key.s else "", i, sole, body), None)
  }

  /** An inferred `CallMethod` whose method would be the key object itself, or
      text made from it, for a key that is not a string. */
  predicate KeyAsMethod(key: Key, i: nat, sole: bool, rhs: RawRhs) {
    rhs.Bare? && !key.StrKey? && RhsProduction(key, i, sole, rhs).action.CallMethod?
  }

  /** `copy_rhs`: desugars a bare list, checks the condition parameter and the
      reduce action (unless it is `'accept'`), and validates the body. */
  function CopyRhs(cx: Context, key: Key, params: seq<string>, i: nat, sole: bool, rhs: RawRhs): (r: Result<(Production, seq<string>), GrammarError>)
    ensures r.Success? ==> r.value.0.action == RhsProduction(key, i, sole, rhs).action
    ensures r.Success? ==> r.value.0.condition == RhsProduction(key, i, sole, rhs).condition
    ensures r.Success? ==> |r.value.0.body| == |RhsProduction(key, i, sole, rhs).body|
    ensures r.Success? ==>
      r.value.0.action.Accept? || CheckReduceAction(ConcreteCount(r.value.0.body), r.value.0.action).Success?
    ensures r.Success? ==> BodySymsIn(r.value.0.body, r.value.1)
    ensures r.Success? && r.value.0.condition.Some? ==> r.value.0.condition.value.param in params
  {
    var p := RhsProduction(key, i, sole, rhs);
    if p.condition.Some? && p.condition.value.param !in params then
      Failure(UndefinedConditionParam(key, i, p.condition.value.param))
    else if KeyAsMethod(key, i, sole, rhs) then Failure(KeyMethodName(key, i))
    else if !p.action.Accept? && CheckReduceAction(ConcreteCount(p.body), p.action).Failure? then
      Failure(BadAction(key, i, CheckReduceAction(ConcreteCount(p.body), p.action).error))
    else
      match ValidateBody(cx, params, p.body)
      case Failure(err) => Failure(BadElement(key, i, err.0, err.1))
      case Success(v) => Success((Production(v.0, p.action, p.condition), v.1))
  }

  /** `copy_rhs` raises exactly when the condition's parameter is not
      declared, the inferred method would be a non-string key, the reduce
      action is neither `'accept'` nor valid, or some body element fails
      `validate_element`; otherwise the copy's body is the validated body. */
  lemma CopyRhsSuccess(cx: Context, key: Key, params: seq<string>, i: nat, sole: bool, rhs: RawRhs)
    ensures var p := RhsProduction(key, i, sole, rhs);
      CopyRhs(cx, key, params, i, sole, rhs).Success? <==>
        (p.condition.Some? ==> p.condition.value.param in params) &&
        !KeyAsMethod(key, i, sole, rhs) &&
        (p.action.Accept? || CheckReduceAction(ConcreteCount(p.body), p.action).Success?) &&
        forall j :: 0 <= j < |p.body| ==> ValidateElement(cx, params, p.body[j]).Success?
    ensures var p := RhsProduction(key, i, sole, rhs);
      var r := CopyRhs(cx, key, params, i, sole, rhs);
      var v := ValidateBody(cx, params, p.body);
      r.Success? ==> v.Success? && r.value == (Production(v.value.0, p.action, p.condition), v.value.1)
  {
    ValidateBodyMeaning(cx, params, RhsProduction(key, i, sole, rhs).body);
  }

  /** Every production's body terminals are among `terms`. */
  predicate RhsSymsIn(rhsList: seq<Production>, terms: seq<string>) {
    forall i :: 0 <= i < |rhsList| ==> BodySymsIn(rhsList[i].body, terms)
  }

  lemma BodySymsGrow(body: seq<Element>, a: seq<string>, b: seq<string>)
    requires BodySymsIn(body, a)
    requires forall s :: s in a ==> s in b
    ensures BodySymsIn(body, b)
  {
  }

  lemma RhsSymsSnoc(rhsList: seq<Production>, terms: seq<string>, p: Production, more: seq<string>)
    requires RhsSymsIn(rhsList, terms) && BodySymsIn(p.body, more)
    ensures RhsSymsIn(rhsList + [p], terms + more)
  {
    var out := rhsList + [p];
    forall k | 0 <= k < |out| ensures BodySymsIn(out[k].body, terms + more) {
      if k < |rhsList| {
        BodySymsGrow(rhsList[k].body, terms, terms + more);
      } else {
        BodySymsGrow(p.body, more, terms + more);
      }
    }
  }

  /** The list comprehension of `copy_nt_def` over `rhs_list`. */
  function CopyRhsList(cx: Context, key: Key, params: seq<string>, sole: bool, rhss: seq<RawRhs>): (r: Result<(seq<Production>, seq<string>), GrammarError>)
    ensures r.Success? ==> |r.value.0| == |rhss|
    ensures r.Success? ==> forall i :: 0 <= i < |rhss| ==>
      CopyRhs(cx, key, params, i, sole, rhss[i]).Success? && r.value.0[i] == CopyRhs(cx, key, params, i, sole, rhss[i]).value.0
    ensures r.Success? ==> RhsSymsIn(r.value.0, r.value.1)
    decreases |rhss|
  {
    if |rhss| == 0 then Success(([], []))
    else
      var p := rhss[..|rhss| - 1];
      var i := |rhss| - 1;
      assert forall k :: 0 <= k < |p| ==> rhss[k] == p[k];
      match CopyRhsList(cx, key, params, sole, p)
      case Failure(err) => Failure(err)
      case Success(done) =>
        match CopyRhs(cx, key, params, i, sole, rhss[i])
        case Failure(err) => Failure(err)
        case Success(v) =>
          RhsSymsSnoc(done.0, done.1, v.0, v.1);
          Success((done.0 + [v.0], done.1 + v.1))
  }

  /** The comprehension succeeds exactly when every right-hand side copies. */
  lemma {:induction false} CopyRhsListSuccess(cx: Context, key: Key, params: seq<string>, sole: bool, rhss: seq<RawRhs>)
    ensures CopyRhsList(cx, key, params, sole, rhss).Success? <==>
      forall i :: 0 <= i < |rhss| ==> CopyRhs(cx, key, params, i, sole, rhss[i]).Success?
    decreases |rhss|
  {
    if |rhss| > 0 {
      var p := rhss[..|rhss| - 1];
      CopyRhsListSuccess(cx, key, params, sole, p);
      assert forall k :: 0 <= k < |p| ==> rhss[k] == p[k];
    }
  }

  /** `check_nt_key` for a name: it must be an identifier and not a variable
      terminal. */
  function CheckName(s: string, variableTerminals: seq<string>): (r: Result<(), GrammarError>)
    ensures r.Success? <==> IsIdentifier(s) && s !in variableTerminals
  {
    if !IsIdentifier(s) then Failure(NotIdentifier(s))
    else if s in variableTerminals then Failure(VariableTerminalKey(s))
    else Success(())
  }

  /** `check_nt_key` for an `InitNt(goal)`: the goal is checked as a use, and
      must be one of the goals. */
  function CheckInitKey(cx: Context, goals: seq<Goal>, g: Nt): (r: Result<(), GrammarError>)
    ensures r.Success? <==> ValidateElement(cx, [], NtRef(g)).Success? && NtGoal(g) in goals
  {
    match ValidateElement(cx, [], NtRef(g))
    case Failure(err) => Failure(InitGoalInvalid(g, err))
    case Success(_) => if NtGoal(g) !in goals then Failure(InitGoalNotListed(g)) else Success(())
  }

  function CheckNtKey(cx: Context, variableTerminals: seq<string>, goals: seq<Goal>, key: Key): (r: Result<(), GrammarError>)
    ensures r.Success? && key.NtKey? ==> forall k :: 0 <= k < |key.nt.args| ==> key.nt.args[k].value.BoolArg?
    ensures r.Success? && key.StrKey? ==> IsIdentifier(key.s) && key.s !in variableTerminals
    ensures r.Success? && key.InitKey? ==> NtGoal(key.goal) in goals
  {
    match key
    case StrKey(s) => CheckName(s, variableTerminals)
    case InitKey(g) => CheckInitKey(cx, goals, g)
    case NtKey(nt) =>
      var named := match nt.name
        case Named(s) => CheckName(s, variableTerminals)
        case InitName(g) => CheckInitKey(cx, goals, g);
      if named.Failure? then named
      else if exists k :: 0 <= k < |nt.args| && !nt.args[k].value.BoolArg? then Failure(NonBoolKeyArgs(nt))
      else Success(())
  }

  /** `check_nt_key` passes exactly when the key's own requirements hold: a
      string key is an identifier and not a variable terminal; an init key's
      goal is a valid use and listed; an `Nt` key's name passes the check of
      its kind and every argument is a boolean. */
  lemma CheckNtKeyMeaning(cx: Context, variableTerminals: seq<string>, goals: seq<Goal>, key: Key)
    ensures key.StrKey? ==>
      (CheckNtKey(cx, variableTerminals, goals, key).Success? <==>
       IsIdentifier(key.s) && key.s !in variableTerminals)
    ensures key.InitKey? ==>
      (CheckNtKey(cx, variableTerminals, goals, key).Success? <==>
       ValidateElement(cx, [], NtRef(key.goal)).Success? && NtGoal(key.goal) in goals)
    ensures key.NtKey? && key.nt.name.Named? ==>
      (CheckNtKey(cx, variableTerminals, goals, key).Success? <==>
       IsIdentifier(key.nt.name.s) && key.nt.name.s !in variableTerminals &&
       forall k :: 0 <= k < |key.nt.args| ==> key.nt.args[k].value.BoolArg?)
    ensures key.NtKey? && key.nt.name.InitName? ==>
      (CheckNtKey(cx, variableTerminals, goals, key).Success? <==>
       ValidateElement(cx, [], NtRef(key.nt.name.goal)).Success? && NtGoal(key.nt.name.goal) in goals &&
       forall k :: 0 <= k < |key.nt.args| ==> key.nt.args[k].value.BoolArg?)
  {
  }

  /** The single production an init nonterminal starts with. */
  function AcceptProduction(body: seq<Element>): Production {
    Production(body, Accept, None)
  }

  /** The three forms an init nonterminal's productions may take. */
  predicate InitFormOk(rhss: seq<RawRhs>, g: Nt) {
    rhss == [Full(AcceptProduction([NtRef(g)]))] ||
    rhss == [Full(AcceptProduction([Opt(NtRef(g))]))] ||
    rhss == [Full(AcceptProduction([])), Full(AcceptProduction([NtRef(g)]))]
  }

  function DefParams(d: RawDef): seq<string> {
    if d.RawNtDef? then d.params else []
  }

  /** `validate_nt`: `check_nt_key`, the init-form check for `InitNt` keys,
      then `copy_nt_def`. */
  function ValidateNt(cx: Context, variableTerminals: seq<string>, goals: seq<Goal>, e: Entry): (r: Result<(NtDef, seq<string>), GrammarError>)
    ensures r.Success? ==> CheckNtKey(cx, variableTerminals, goals, e.0).Success?
    ensures r.Success? && e.0.InitKey? ==> e.1.RawNtDef? && InitFormOk(e.1.rhss, e.0.goal)
    ensures r.Success? ==> r.value.0.params == DefParams(e.1) && |r.value.0.rhsList| == |e.1.rhss|
  {
    var key, d := e.0, e.1;
    var checked := CheckNtKey(cx, variableTerminals, goals, key);
    if checked.Failure? then Failure(checked.error)
    else if key.InitKey? && !d.RawNtDef? then Failure(InitDefNotNtDef(key.goal))
    else if key.InitKey? && !InitFormOk(d.rhss, key.goal) then Failure(BadInitForm(key.goal))
    else
      match CopyRhsList(cx, key, DefParams(d), |d.rhss| == 1, d.rhss)
      case Failure(err) => Failure(err)
      case Success(v) => Success((NtDef(DefParams(d), v.0), v.1))
  }

  /** `validate_nt` succeeds exactly when the key passes `check_nt_key`, an
      init key has one of the init forms, and every right-hand side copies. */
  lemma ValidateNtSuccess(cx: Context, variableTerminals: seq<string>, goals: seq<Goal>, e: Entry)
    ensures ValidateNt(cx, variableTerminals, goals, e).Success? <==>
      CheckNtKey(cx, variableTerminals, goals, e.0).Success? &&
      (e.0.InitKey? ==> e.1.RawNtDef? && InitFormOk(e.1.rhss, e.0.goal)) &&
      forall i :: 0 <= i < |e.1.rhss| ==> CopyRhs(cx, e.0, DefParams(e.1), i, |e.1.rhss| == 1, e.1.rhss[i]).Success?
  {
    CopyRhsListSuccess(cx, e.0, DefParams(e.1), |e.1.rhss| == 1, e.1.rhss);
  }

  /** Every production of every copied definition has its terminals in `terms`. */
  predicate AllSymsIn(nts: seq<(Key, NtDef)>, terms: seq<string>) {
    forall k :: 0 <= k < |nts| ==> RhsSymsIn(nts[k].1.rhsList, terms)
  }

  lemma {:induction false} AddAllKeepsMembers(s: seq<string>, xs: seq<string>)
    ensures forall t :: t in s ==> t in AddAll(s, xs)
    ensures forall t :: t in xs ==> t in AddAll(s, xs)
  {
    assert forall t :: t in s ==> t in Elems(s);
    assert forall t :: t in xs ==> t in Elems(xs);
    assert forall t :: t in Elems(AddAll(s, xs)) ==> t in AddAll(s, xs);
  }

  /** A validated definition holds the copy of every production, and every
      terminal its bodies use is among the terminals it reports. */
  lemma ValidateNtCopies(cx: Context, variableTerminals: seq<string>, goals: seq<Goal>, e: Entry)
    requires ValidateNt(cx, variableTerminals, goals, e).Success?
    ensures var r := ValidateNt(cx, variableTerminals, goals, e).value;
      CopyRhsList(cx, e.0, DefParams(e.1), |e.1.rhss| == 1, e.1.rhss) == Success((r.0.rhsList, r.1)) &&
      RhsSymsIn(r.0.rhsList, r.1)
  {
  }

  /** The second loop: every definition validated and copied in order, with
      `all_terminals` growing from the variable terminals. */
  function ValidateAll(cx: Context, variableTerminals: seq<string>, goals: seq<Goal>, entries: seq<Entry>): Result<(seq<(Key, NtDef)>, seq<string>), GrammarError>
    decreases |entries|
  {
    if |entries| == 0 then Success(([], FromSeq(variableTerminals)))
    else
      var e := entries[|entries| - 1];
      match ValidateAll(cx, variableTerminals, goals, entries[..|entries| - 1])
      case Failure(err) => Failure(err)
      case Success(done) =>
        match ValidateNt(cx, variableTerminals, goals, e)
        case Failure(err) => Failure(err)
        case Success(v) => Success((done.0 + [(e.0, v.0)], AddAll(done.1, v.1)))
  }

  /** The second loop succeeds exactly when every definition validates. */
  lemma {:induction false} ValidateAllSuccess(cx: Context, variableTerminals: seq<string>, goals: seq<Goal>, entries: seq<Entry>)
    ensures ValidateAll(cx, variableTerminals, goals, entries).Success? <==>
      forall k :: 0 <= k < |entries| ==> ValidateNt(cx, variableTerminals, goals, entries[k]).Success?
    decreases |entries|
  {
    if |entries| > 0 {
      var p := entries[..|entries| - 1];
      var e := entries[|entries| - 1];
      ValidateAllSuccess(cx, variableTerminals, goals, p);
      assert ValidateAll(cx, variableTerminals, goals, entries).Success? <==>
        ValidateAll(cx, variableTerminals, goals, p).Success? && ValidateNt(cx, variableTerminals, goals, e).Success?;
      assert entries == p + [e];
    }
  }

  /** The copied dict has the input's keys in order, each with its validated
      definition. */
  lemma ValidateAllCopies(cx: Context, variableTerminals: seq<string>, goals: seq<Goal>, entries: seq<Entry>)
    requires ValidateAll(cx, variableTerminals, goals, entries).Success?
    ensures var r := ValidateAll(cx, variableTerminals, goals, entries).value;
      Keys(r.0) == Keys(entries) &&
      forall k :: 0 <= k < |entries| ==>
        ValidateNt(cx, variableTerminals, goals, entries[k]).Success? &&
        r.0[k].1 == ValidateNt(cx, variableTerminals, goals, entries[k]).value.0
  {
    ValidateAllKeys(cx, variableTerminals, goals, entries);
    forall k | 0 <= k < |entries|
      ensures ValidateNt(cx, variableTerminals, goals, entries[k]).Success? &&
        ValidateAll(cx, variableTerminals, goals, entries).value.0[k].1 == ValidateNt(cx, variableTerminals, goals, entries[k]).value.0
    {
      ValidateAllAt(cx, variableTerminals, goals, entries, k);
    }
  }

  lemma {:induction false} ValidateAllKeys(cx: Context, variableTerminals: seq<string>, goals: seq<Goal>, entries: seq<Entry>)
    requires ValidateAll(cx, variableTerminals, goals, entries).Success?
    ensures Keys(ValidateAll(cx, variableTerminals, goals, entries).value.0) == Keys(entries)
    decreases |entries|
  {
    if |entries| > 0 {
      var p := entries[..|entries| - 1];
      var e := entries[|entries| - 1];
      ValidateAllLast(cx, variableTerminals, goals, entries);
      ValidateAllKeys(cx, variableTerminals, goals, p);
      KeysStep(ValidateAll(cx, variableTerminals, goals, entries).value.0, ValidateAll(cx, variableTerminals, goals, p).value.0,
        entries, ValidateNt(cx, variableTerminals, goals, e).value.0);
    }
  }

  /** Appending one item with the last key of `entries` keeps the keys equal. */
  lemma KeysStep<V, W>(r: seq<(Key, W)>, done: seq<(Key, W)>, entries: seq<(Key, V)>, d: W)
    requires |entries| > 0 && r == done + [(entries[|entries| - 1].0, d)]
    requires Keys(done) == Keys(entries[..|entries| - 1])
    ensures Keys(r) == Keys(entries)
  {
    var p := entries[..|entries| - 1];
    KeysSnoc(done, entries[|entries| - 1].0, d);
    KeysSnoc(p, entries[|entries| - 1].0, entries[|entries| - 1].1);
    assert entries == p + [entries[|entries| - 1]];
  }

  lemma KeysSnoc<V>(entries: seq<(Key, V)>, k: Key, v: V)
    ensures Keys(entries + [(k, v)]) == Keys(entries) + [k]
  {
    assert forall i :: 0 <= i < |entries| ==> (entries + [(k, v)])[i] == entries[i];
  }

  lemma {:induction false} ValidateAllAt(cx: Context, variableTerminals: seq<string>, goals: seq<Goal>, entries: seq<Entry>, k: nat)
    requires ValidateAll(cx, variableTerminals, goals, entries).Success? && k < |entries|
    ensures ValidateNt(cx, variableTerminals, goals, entries[k]).Success?
    ensures var nts := ValidateAll(cx, variableTerminals, goals, entries).value.0;
      k < |nts| && nts[k].1 == ValidateNt(cx, variableTerminals, goals, entries[k]).value.0
    decreases |entries|
  {
    var p := entries[..|entries| - 1];
    var e := entries[|entries| - 1];
    ValidateAllLast(cx, variableTerminals, goals, entries);
    var done := ValidateAll(cx, variableTerminals, goals, p).value.0;
    var nts := ValidateAll(cx, variableTerminals, goals, entries).value.0;
    var d := ValidateNt(cx, variableTerminals, goals, e).value.0;
    assert nts == done + [(e.0, d)];
    ValidateAllKeys(cx, variableTerminals, goals, p);
    assert |done| == |p|;
    if k < |p| {
      ValidateAllAt(cx, variableTerminals, goals, p, k);
      assert entries[k] == p[k];
      assert nts[k] == done[k];
    } else {
      assert k == |entries| - 1;
      assert nts[k] == (e.0, d);
    }
  }

  /** The last item of a successful validation: the prefix validated, and the
      item's definition appended. */
  lemma ValidateAllLast(cx: Context, variableTerminals: seq<string>, goals: seq<Goal>, entries: seq<Entry>)
    requires |entries| > 0 && ValidateAll(cx, variableTerminals, goals, entries).Success?
    ensures var p := entries[..|entries| - 1];
      var e := entries[|entries| - 1];
      ValidateAll(cx, variableTerminals, goals, p).Success? &&
      ValidateNt(cx, variableTerminals, goals, e).Success? &&
      ValidateAll(cx, variableTerminals, goals, entries).value.0 ==
        ValidateAll(cx, variableTerminals, goals, p).value.0 + [(e.0, ValidateNt(cx, variableTerminals, goals, e).value.0)]
  {
  }

  /** `all_terminals` starts with the variable terminals, holds each terminal
      once, and holds every terminal left in a copied body. */
  lemma {:induction false} ValidateAllTerminals(cx: Context, variableTerminals: seq<string>, goals: seq<Goal>, entries: seq<Entry>)
    requires ValidateAll(cx, variableTerminals, goals, entries).Success?
    ensures var r := ValidateAll(cx, variableTerminals, goals, entries).value;
      |r.0| == |entries| && NoDuplicates(r.1) &&
      |FromSeq(variableTerminals)| <= |r.1| && r.1[..|FromSeq(variableTerminals)|] == FromSeq(variableTerminals) &&
      AllSymsIn(r.0, r.1)
    decreases |entries|
  {
    if |entries| > 0 {
      var p := entries[..|entries| - 1];
      var e := entries[|entries| - 1];
      ValidateAllTerminals(cx, variableTerminals, goals, p);
      var done := ValidateAll(cx, variableTerminals, goals, p).value;
      var v := ValidateNt(cx, variableTerminals, goals, e).value;
      ValidateNtCopies(cx, variableTerminals, goals, e);
      var nts := done.0 + [(e.0, v.0)];
      var terms := AddAll(done.1, v.1);
      AddAllKeepsMembers(done.1, v.1);
      assert terms[..|FromSeq(variableTerminals)|] == FromSeq(variableTerminals) by {
        assert terms[..|done.1|] == done.1;
      }
      forall k | 0 <= k < |nts| ensures RhsSymsIn(nts[k].1.rhsList, terms) {
        var rl := nts[k].1.rhsList;
        forall i | 0 <= i < |rl| ensures BodySymsIn(rl[i].body, terms) {
          if k < |done.0| {
            assert rl == done.0[k].1.rhsList;
            BodySymsGrow(rl[i].body, done.1, terms);
          } else {
            BodySymsGrow(rl[i].body, v.1, terms);
          }
        }
      }
    }
  }

  // *** Init nonterminals ******************************************************

  /** After validation, the key of the init nonterminal for `goal`. */
  function InitKeyFor(keysAreNt: bool, goal: Nt): Key {
    if keysAreNt then NtKey(Nt(InitName(goal), [])) else InitKey(goal)
  }

  /** A goal converted to an `Nt`, after checking that it is defined. */
  function ResolveGoal(cx: Context, keysAreNt: bool, goal: Goal): (r: Result<Nt, GrammarError>)
    ensures goal.StrGoal? ==> (r.Success? <==> Named(goal.s) in cx.info.strToNt)
    ensures goal.NtGoal? ==> (r.Success? <==>
      if keysAreNt then NtKey(goal.nt) in cx.keys else KeyOfName(goal.nt.name) in cx.keys)
    ensures goal.NtGoal? && r.Success? ==> r.value == goal.nt
    ensures goal.InitNtGoal? ==> r.Failure?
  {
    match goal
    case StrGoal(s) => if Named(s) in cx.info.strToNt then Success(cx.info.strToNt[Named(s)]) else Failure(GoalUndefined(goal))
    case NtGoal(nt) =>
      var ok := if keysAreNt then NtKey(nt) in cx.keys else KeyOfName(nt.name) in cx.keys;
      if ok then Success(nt) else Failure(GoalUndefined(goal))
    case InitNtGoal(_) => Failure(UnsupportedGoal(goal))
  }

  /** The last loop: one init nonterminal per goal, in goal order, adding its
      definition unless the key is already present. */
  function AddInits(cx: Context, keysAreNt: bool, nts: seq<(Key, NtDef)>, goals: seq<Goal>): Result<(seq<(Key, NtDef)>, seq<Nt>), GrammarError>
    decreases |goals|
  {
    if |goals| == 0 then Success((nts, []))
    else
      var goal := goals[|goals| - 1];
      match AddInits(cx, keysAreNt, nts, goals[..|goals| - 1])
      case Failure(err) => Failure(err)
      case Success(done) =>
        match ResolveGoal(cx, keysAreNt, goal)
        case Failure(err) => Failure(err)
        case Success(g) =>
          var initKey := InitKeyFor(keysAreNt, g);
          var out := if initKey in Keys(done.0) then done.0 else done.0 + [(initKey, NtDef([], [AcceptProduction([NtRef(g)])]))];
          Success((out, done.1 + [Nt(InitName(g), [])]))
  }

  /** The definition the constructor adds for the init nonterminal of `g`. */
  predicate IsInitDef(keysAreNt: bool, item: (Key, NtDef)) {
    (item.0.InitKey? && !keysAreNt &&
      item == (InitKeyFor(keysAreNt, item.0.goal), NtDef([], [AcceptProduction([NtRef(item.0.goal)])]))) ||
    (item.0.NtKey? && keysAreNt && item.0.nt.name.InitName? &&
      item == (InitKeyFor(keysAreNt, item.0.nt.name.goal), NtDef([], [AcceptProduction([NtRef(item.0.nt.name.goal)])])))
  }

  lemma {:induction false} AddInitsKeepsPrefix(cx: Context, keysAreNt: bool, nts: seq<(Key, NtDef)>, goals: seq<Goal>)
    requires AddInits(cx, keysAreNt, nts, goals).Success?
    ensures |nts| <= |AddInits(cx, keysAreNt, nts, goals).value.0|
    ensures AddInits(cx, keysAreNt, nts, goals).value.0[..|nts|] == nts
    decreases |goals|
  {
    if |goals| > 0 {
      var p := goals[..|goals| - 1];
      AddInitsKeepsPrefix(cx, keysAreNt, nts, p);
      var done := AddInits(cx, keysAreNt, nts, p).value.0;
      var r := AddInits(cx, keysAreNt, nts, goals).value.0;
      assert r == done || r[..|done|] == done;
      assert r[..|nts|] == r[..|done|][..|nts|];
    }
  }

  /** The init loop fails exactly when some goal cannot be resolved. */
  lemma {:induction false} AddInitsFailure(cx: Context, keysAreNt: bool, nts: seq<(Key, NtDef)>, goals: seq<Goal>)
    ensures AddInits(cx, keysAreNt, nts, goals).Failure? <==>
      exists k :: 0 <= k < |goals| && ResolveGoal(cx, keysAreNt, goals[k]).Failure?
    decreases |goals|
  {
    if |goals| > 0 {
      var p := goals[..|goals| - 1];
      assert forall k :: 0 <= k < |p| ==> goals[k] == p[k];
      AddInitsFailure(cx, keysAreNt, nts, p);
      if AddInits(cx, keysAreNt, nts, p).Failure? {
        var k :| 0 <= k < |p| && ResolveGoal(cx, keysAreNt, p[k]).Failure?;
        assert ResolveGoal(cx, keysAreNt, goals[k]).Failure?;
      }
    }
  }

  /** Each goal yields, in goal order, the init nonterminal of its resolved
      `Nt`, and that nonterminal's key is then defined. */
  lemma {:induction false} AddInitsGoals(cx: Context, keysAreNt: bool, nts: seq<(Key, NtDef)>, goals: seq<Goal>)
    requires AddInits(cx, keysAreNt, nts, goals).Success?
    ensures var r := AddInits(cx, keysAreNt, nts, goals).value;
      |r.1| == |goals| &&
      forall k :: 0 <= k < |goals| ==>
        ResolveGoal(cx, keysAreNt, goals[k]).Success? &&
        r.1[k] == Nt(InitName(ResolveGoal(cx, keysAreNt, goals[k]).value), []) &&
        InitKeyFor(keysAreNt, ResolveGoal(cx, keysAreNt, goals[k]).value) in Keys(r.0)
    decreases |goals|
  {
    if |goals| > 0 {
      var p := goals[..|goals| - 1];
      AddInitsGoals(cx, keysAreNt, nts, p);
      var done := AddInits(cx, keysAreNt, nts, p).value;
      var r := AddInits(cx, keysAreNt, nts, goals).value;
      var g := ResolveGoal(cx, keysAreNt, goals[|goals| - 1]).value;
      var initKey := InitKeyFor(keysAreNt, g);
      assert r.1 == done.1 + [Nt(InitName(g), [])];
      if initKey in Keys(done.0) {
        assert r.0 == done.0;
      } else {
        var item := (initKey, NtDef([], [AcceptProduction([NtRef(g)])]));
        assert r.0 == done.0 + [item];
        assert Keys(r.0) == Keys(done.0) + [initKey];
      }
      assert forall x :: x in Keys(done.0) ==> x in Keys(r.0);
      assert initKey in Keys(r.0);
      forall k | 0 <= k < |goals|
        ensures ResolveGoal(cx, keysAreNt, goals[k]).Success? &&
          r.1[k] == Nt(InitName(ResolveGoal(cx, keysAreNt, goals[k]).value), []) &&
          InitKeyFor(keysAreNt, ResolveGoal(cx, keysAreNt, goals[k]).value) in Keys(r.0)
      {
        if k < |p| {
          assert goals[k] == p[k];
        }
      }
    }
  }

  /** Every definition the init loop adds is an accept definition for an init
      key, and no key is added twice. */
  lemma {:induction false} AddInitsAdded(cx: Context, keysAreNt: bool, nts: seq<(Key, NtDef)>, goals: seq<Goal>)
    requires AddInits(cx, keysAreNt, nts, goals).Success?
    ensures var r := AddInits(cx, keysAreNt, nts, goals).value;
      |nts| <= |r.0| &&
      (forall k :: |nts| <= k < |r.0| ==> IsInitDef(keysAreNt, r.0[k])) &&
      (NoDuplicates(Keys(nts)) ==> NoDuplicates(Keys(r.0)))
    decreases |goals|
  {
    if |goals| > 0 {
      var p := goals[..|goals| - 1];
      AddInitsAdded(cx, keysAreNt, nts, p);
      var done := AddInits(cx, keysAreNt, nts, p).value;
      var g := ResolveGoal(cx, keysAreNt, goals[|goals| - 1]).value;
      var initKey := InitKeyFor(keysAreNt, g);
      var item := (initKey, NtDef([], [AcceptProduction([NtRef(g)])]));
      var r := AddInits(cx, keysAreNt, nts, goals).value;
      if initKey in Keys(done.0) {
        assert r.0 == done.0;
      } else {
        assert r.0 == done.0 + [item];
        assert IsInitDef(keysAreNt, item);
        KeysSnoc(done.0, initKey, item.1);
        assert Keys(r.0) == Add(Keys(done.0), initKey);
        forall k | |nts| <= k < |r.0| ensures IsInitDef(keysAreNt, r.0[k]) {
          if k < |done.0| {
            assert r.0[k] == done.0[k];
          }
        }
      }
    }
  }

  // *** The whole constructor **************************************************

  /** The state the constructor leaves in the `Grammar` object. */
  datatype GrammarParts = GrammarParts(
    variableTerminals: seq<string>,
    terminals: seq<string>,
    nonterminals: seq<(Key, NtDef)>,
    initNts: seq<Nt>)

  function GoalOfKey(k: Key): Goal {
    match k
    case StrKey(s) => StrGoal(s)
    case NtKey(nt) => NtGoal(nt)
    case InitKey(g) => InitNtGoal(g)
  }

  /** `goal_nts`, defaulting to the first key. */
  function GoalList(input: GrammarInput): seq<Goal>
    requires |input.entries| > 0
  {
    match input.goals
    case Some(gs) => gs
    case None => [GoalOfKey(input.entries[0].0)]
  }

  function ContextOf(entries: seq<Entry>, info: KeyInfo): Context {
    Context(Keys(entries), info)
  }

  /** What `Grammar(nonterminals, goal_nts, variable_terminals, type_info)`
      builds, or the exception it raises. */
  function Build(input: GrammarInput): Result<GrammarParts, GrammarError> {
    var entries := input.entries;
    if |entries| == 0 then Failure(EmptyGrammar)
    else
      var goals := GoalList(input);
      var keysAreNt := entries[0].0.NtKey?;
      match ScanKeys(keysAreNt, entries)
      case Failure(err) => Failure(err)
      case Success(info) =>
        var cx := ContextOf(entries, info);
        match ValidateAll(cx, input.variableTerminals, goals, entries)
        case Failure(err) => Failure(err)
        case Success(v) =>
          match AddInits(cx, keysAreNt, v.0, goals)
          case Failure(err) => Failure(err)
          case Success(w) => Success(GrammarParts(FromSeq(input.variableTerminals), v.1, w.0, w.1))
  }

  /** Once a prefix of the items raises, the whole loop raises the same error. */
  lemma {:induction false} ScanKeysStops(keysAreNt: bool, entries: seq<Entry>, n: nat)
    requires n <= |entries| && ScanKeys(keysAreNt, entries[..n]).Failure?
    ensures ScanKeys(keysAreNt, entries) == ScanKeys(keysAreNt, entries[..n])
    decreases |entries|
  {
    if n < |entries| {
      var p := entries[..|entries| - 1];
      assert p[..n] == entries[..n];
      ScanKeysStops(keysAreNt, p, n);
    } else {
      assert entries[..n] == entries;
    }
  }

  lemma {:induction false} ValidateAllStops(cx: Context, variableTerminals: seq<string>, goals: seq<Goal>, entries: seq<Entry>, n: nat)
    requires n <= |entries| && ValidateAll(cx, variableTerminals, goals, entries[..n]).Failure?
    ensures ValidateAll(cx, variableTerminals, goals, entries) == ValidateAll(cx, variableTerminals, goals, entries[..n])
    decreases |entries|
  {
    if n < |entries| {
      var p := entries[..|entries| - 1];
      assert p[..n] == entries[..n];
      ValidateAllStops(cx, variableTerminals, goals, p, n);
    } else {
      assert entries[..n] == entries;
    }
  }

  lemma {:induction false} AddInitsStops(cx: Context, keysAreNt: bool, nts: seq<(Key, NtDef)>, goals: seq<Goal>, n: nat)
    requires n <= |goals| && AddInits(cx, keysAreNt, nts, goals[..n]).Failure?
    ensures AddInits(cx, keysAreNt, nts, goals) == AddInits(cx, keysAreNt, nts, goals[..n])
    decreases |goals|
  {
    if n < |goals| {
      var p := goals[..|goals| - 1];
      assert p[..n] == goals[..n];
      AddInitsStops(cx, keysAreNt, nts, p, n);
    } else {
      assert goals[..n] == goals;
    }
  }

  /** What the whole constructor returns, stage by stage. */
  lemma BuildStages(input: GrammarInput)
    requires Build(input).Success?
    ensures var entries := input.entries;
      var keysAreNt := entries[0].0.NtKey?;
      ScanKeys(keysAreNt, entries).Success? &&
      var cx := ContextOf(entries, ScanKeys(keysAreNt, entries).value);
      ValidateAll(cx, input.variableTerminals, GoalList(input), entries).Success? &&
      var v := ValidateAll(cx, input.variableTerminals, GoalList(input), entries).value;
      AddInits(cx, keysAreNt, v.0, GoalList(input)).Success? &&
      var w := AddInits(cx, keysAreNt, v.0, GoalList(input)).value;
      Build(input).value == GrammarParts(FromSeq(input.variableTerminals), v.1, w.0, w.1)
  {
  }

  /** The first loop: `nt_params` and `str_to_nt` from the keys. */
  method ScanKeysLoop(keysAreNt: bool, entries: seq<Entry>) returns (r: Result<KeyInfo, GrammarError>)
    ensures r == ScanKeys(keysAreNt, entries)
  {
    var ntParams: map<NtName, seq<string>> := map[];
    var strToNt: map<NtName, Nt> := map[];
    var i := 0;
    while i < |entries|
      invariant 0 <= i <= |entries|
      invariant ScanKeys(keysAreNt, entries[..i]) == Success(KeyInfo(ntParams, strToNt))
    {
      assert entries[..i + 1][..i] == entries[..i];
      var key := entries[i].0;
      if !KeyTypeOk(keysAreNt, key) {
        ScanKeysStops(keysAreNt, entries, i + 1);
        return Failure(ConflictingKeyTypes(key));
      }
      var name := KeyName(key);
      var params := KeyParams(entries[i]);
      if name !in ntParams {
        ntParams := ntParams[name := params];
      } else if ntParams[name] != params {
        ScanKeysStops(keysAreNt, entries, i + 1);
        return Failure(ConflictingParams(name, ntParams[name], params));
      }
      if params == [] && name !in strToNt {
        strToNt := strToNt[name := Nt(name, [])];
      }
      i := i + 1;
    }
    assert entries[..i] == entries;
    return Success(KeyInfo(ntParams, strToNt));
  }

  /** The second loop: `validate_nt` over the items, `all_terminals` growing
      as terminals are met. */
  method ValidateLoop(cx: Context, variableTerminals: seq<string>, goals: seq<Goal>, entries: seq<Entry>)
    returns (r: Result<(seq<(Key, NtDef)>, seq<string>), GrammarError>)
    ensures r == ValidateAll(cx, variableTerminals, goals, entries)
  {
    var nts: seq<(Key, NtDef)> := [];
    var allTerminals := FromSeq(variableTerminals);
    var i := 0;
    while i < |entries|
      invariant 0 <= i <= |entries|
      invariant ValidateAll(cx, variableTerminals, goals, entries[..i]) == Success((nts, allTerminals))
    {
      assert entries[..i + 1][..i] == entries[..i];
      var v := ValidateNt(cx, variableTerminals, goals, entries[i]);
      if v.Failure? {
        ValidateAllStops(cx, variableTerminals, goals, entries, i + 1);
        return Failure(v.error);
      }
      ghost var prefix := entries[..i + 1];
      assert ValidateAll(cx, variableTerminals, goals, prefix) == Success((nts + [(entries[i].0, v.value.0)], AddAll(allTerminals, v.value.1))) by {
        assert prefix[..i] == entries[..i] && prefix[i] == entries[i];
      }
      nts := nts + [(entries[i].0, v.value.0)];
      allTerminals := AddTerminals(allTerminals, v.value.1);
      i := i + 1;
    }
    assert entries[..i] == entries;
    return Success((nts, allTerminals));
  }

  /** `all_terminals.add(t)` for each terminal `t` a definition uses. */
  method AddTerminals(allTerminals: seq<string>, found: seq<string>) returns (r: seq<string>)
    ensures r == AddAll(allTerminals, found)
  {
    r := allTerminals;
    var j := 0;
    while j < |found|
      invariant 0 <= j <= |found|
      invariant r == AddAll(allTerminals, found[..j])
    {
      assert found[..j + 1][..j] == found[..j];
      if found[j] !in r {
        r := r + [found[j]];
      }
      j := j + 1;
    }
    assert found[..j] == found;
  }

  /** The last loop: one init nonterminal per goal. */
  method AddInitsLoop(cx: Context, keysAreNt: bool, validated: seq<(Key, NtDef)>, goals: seq<Goal>)
    returns (r: Result<(seq<(Key, NtDef)>, seq<Nt>), GrammarError>)
    ensures r == AddInits(cx, keysAreNt, validated, goals)
  {
    var nts := validated;
    var initNts: seq<Nt> := [];
    var i := 0;
    while i < |goals|
      invariant 0 <= i <= |goals|
      invariant AddInits(cx, keysAreNt, validated, goals[..i]) == Success((nts, initNts))
    {
      assert goals[..i + 1][..i] == goals[..i];
      var goal := ResolveGoal(cx, keysAreNt, goals[i]);
      if goal.Failure? {
        AddInitsStops(cx, keysAreNt, validated, goals, i + 1);
        return Failure(goal.error);
      }
      var initKey := InitKeyFor(keysAreNt, goal.value);
      if initKey !in Keys(nts) {
        nts := nts + [(initKey, NtDef([], [AcceptProduction([NtRef(goal.value)])]))];
      }
      initNts := initNts + [Nt(InitName(goal.value), [])];
      i := i + 1;
    }
    assert goals[..i] == goals;
    return Success((nts, initNts));
  }

  /** The constructor: the three loops in turn. */
  method Construct(input: GrammarInput) returns (r: Result<GrammarParts, GrammarError>)
    ensures r == Build(input)
  {
    var entries := input.entries;
    if |entries| == 0 {
      return Failure(EmptyGrammar);
    }
    var goals := GoalList(input);
    var keysAreNt := entries[0].0.NtKey?;
    var info := ScanKeysLoop(keysAreNt, entries);
    if info.Failure? {
      return Failure(info.error);
    }
    var cx := ContextOf(entries, info.value);
    var v := ValidateLoop(cx, input.variableTerminals, goals, entries);
    if v.Failure? {
      return Failure(v.error);
    }
    var w := AddInitsLoop(cx, keysAreNt, v.value.0, goals);
    if w.Failure? {
      return Failure(w.error);
    }
    return Success(GrammarParts(FromSeq(input.variableTerminals), v.value.1, w.value.0, w.value.1));
  }

  // *** Properties of the constructor ******************************************

  /** Each goal yields exactly one init nonterminal `Nt(InitNt(goal), ())`, in
      goal order; its key is defined; the validated definitions come first and
      are not overwritten; and a definition the constructor adds is the single
      production `[goal]` with action `'accept'`. */
  lemma InitNonterminalsPerGoal(input: GrammarInput)
    requires Build(input).Success?
    ensures var g := Build(input).value;
      var goals := GoalList(input);
      |g.initNts| == |goals| &&
      (forall k :: 0 <= k < |goals| ==>
        g.initNts[k].name.InitName? && g.initNts[k].args == [] &&
        InitKeyFor(input.entries[0].0.NtKey?, g.initNts[k].name.goal) in Keys(g.nonterminals)) &&
      |input.entries| <= |g.nonterminals| && Keys(g.nonterminals)[..|input.entries|] == Keys(input.entries) &&
      (forall k :: |input.entries| <= k < |g.nonterminals| ==>
        IsInitDef(input.entries[0].0.NtKey?, g.nonterminals[k]))
  {
    BuildStages(input);
    var entries := input.entries;
    var keysAreNt := entries[0].0.NtKey?;
    var info := ScanKeys(keysAreNt, entries).value;
    var cx := ContextOf(entries, info);
    var v := ValidateAll(cx, input.variableTerminals, GoalList(input), entries).value;
    ValidateAllKeys(cx, input.variableTerminals, GoalList(input), entries);
    AddInitsKeepsPrefix(cx, keysAreNt, v.0, GoalList(input));
    AddInitsGoals(cx, keysAreNt, v.0, GoalList(input));
    AddInitsAdded(cx, keysAreNt, v.0, GoalList(input));
    var w := AddInits(cx, keysAreNt, v.0, GoalList(input)).value;
    var g := Build(input).value;
    assert g.nonterminals == w.0 && g.initNts == w.1;
    assert |v.0| == |entries|;
    assert Keys(w.0)[..|entries|] == Keys(entries) by {
      forall j | 0 <= j < |entries| ensures Keys(w.0)[j] == Keys(entries)[j] {
        assert w.0[j] == v.0[j];
        assert Keys(v.0)[j] == v.0[j].0;
      }
    }
  }

  /** The constructor succeeds exactly when there is a definition, the keys
      are consistent, every definition validates against the keys, and every
      goal resolves. */
  lemma BuildSuccess(input: GrammarInput)
    ensures Build(input).Success? <==>
      |input.entries| > 0 &&
      var keysAreNt := input.entries[0].0.NtKey?;
      ConsistentKeys(keysAreNt, input.entries) && ScanKeys(keysAreNt, input.entries).Success? &&
      var cx := ContextOf(input.entries, ScanKeys(keysAreNt, input.entries).value);
      (forall k :: 0 <= k < |input.entries| ==>
        ValidateNt(cx, input.variableTerminals, GoalList(input), input.entries[k]).Success?) &&
      forall k :: 0 <= k < |GoalList(input)| ==> ResolveGoal(cx, keysAreNt, GoalList(input)[k]).Success?
  {
    var entries := input.entries;
    if |entries| > 0 {
      var keysAreNt := entries[0].0.NtKey?;
      var goals := GoalList(input);
      ScanKeysCorrect(keysAreNt, entries);
      var s := ScanKeys(keysAreNt, entries);
      if s.Success? {
        var cx := ContextOf(entries, s.value);
        ValidateAllSuccess(cx, input.variableTerminals, goals, entries);
        var v := ValidateAll(cx, input.variableTerminals, goals, entries);
        if v.Success? {
          AddInitsFailure(cx, keysAreNt, v.value.0, goals);
          assert Build(input).Success? <==> AddInits(cx, keysAreNt, v.value.0, goals).Success?;
        } else {
          assert Build(input) == Failure(v.error);
        }
      } else {
        assert Build(input) == Failure(s.error);
      }
    }
  }

  /** An element `validate_element` rejects for what it refers to: a string
      naming a nonterminal that takes parameters, or a reference to a
      nonterminal that has no key, that is applied to other parameter names
      than its key declares, or that passes a variable `params` lacks. */
  predicate BadReference(entries: seq<Entry>, params: seq<string>, el: Element) {
    match el
    case Sym(s) =>
      exists m :: 0 <= m < |entries| && KeyName(entries[m].0) == Named(s) && KeyParams(entries[m]) != []
    case NtRef(nt) =>
      (NtKey(nt) !in Keys(entries) && KeyOfName(nt.name) !in Keys(entries)) ||
      (exists m :: 0 <= m < |entries| && KeyName(entries[m].0) == nt.name && ArgParams(nt.args) != KeyParams(entries[m])) ||
      (exists a :: 0 <= a < |nt.args| && nt.args[a].value.VarArg? && nt.args[a].value.name !in params)
    case _ => false
  }

  lemma BadReferenceFails(entries: seq<Entry>, info: KeyInfo, params: seq<string>, el: Element)
    requires InfoMatches(info, entries)
    ensures BadReference(entries, params, el) ==> ValidateElement(ContextOf(entries, info), params, el).Failure?
  {
    match el
    case Sym(s) =>
      if BadReference(entries, params, el) {
        var m :| 0 <= m < |entries| && KeyName(entries[m].0) == Named(s) && KeyParams(entries[m]) != [];
        assert info.ntParams[Named(s)] == KeyParams(entries[m]);
      }
    case NtRef(nt) =>
      if exists m :: 0 <= m < |entries| && KeyName(entries[m].0) == nt.name && ArgParams(nt.args) != KeyParams(entries[m]) {
        var m :| 0 <= m < |entries| && KeyName(entries[m].0) == nt.name && ArgParams(nt.args) != KeyParams(entries[m]);
        assert info.ntParams[nt.name] == KeyParams(entries[m]);
      }
    case _ =>
  }

  /** A definition with a bad reference in a written body fails
      `validate_nt`. */
  lemma BadReferenceFailsNt(entries: seq<Entry>, info: KeyInfo, variableTerminals: seq<string>, goals: seq<Goal>, k: nat, i: nat, j: nat)
    requires InfoMatches(info, entries)
    requires k < |entries| && i < |entries[k].1.rhss|
    requires var e := entries[k];
      var body := RhsProduction(e.0, i, |e.1.rhss| == 1, e.1.rhss[i]).body;
      j < |body| && BadReference(entries, DefParams(e.1), body[j])
    ensures ValidateNt(ContextOf(entries, info), variableTerminals, goals, entries[k]).Failure?
  {
    var cx := ContextOf(entries, info);
    var e := entries[k];
    var params := DefParams(e.1);
    var sole := |e.1.rhss| == 1;
    BadReferenceFails(entries, info, params, RhsProduction(e.0, i, sole, e.1.rhss[i]).body[j]);
    CopyRhsSuccess(cx, e.0, params, i, sole, e.1.rhss[i]);
    ValidateNtSuccess(cx, variableTerminals, goals, e);
  }

  /** A production whose body holds a bad reference makes the constructor
      raise. */
  lemma BadReferenceRejected(input: GrammarInput, k: nat, i: nat, j: nat)
    requires k < |input.entries| && i < |input.entries[k].1.rhss|
    requires var e := input.entries[k];
      var body := RhsProduction(e.0, i, |e.1.rhss| == 1, e.1.rhss[i]).body;
      j < |body| && BadReference(input.entries, DefParams(e.1), body[j])
    ensures Build(input).Failure?
  {
    var entries := input.entries;
    var keysAreNt := entries[0].0.NtKey?;
    ScanKeysCorrect(keysAreNt, entries);
    BuildSuccess(input);
    if ScanKeys(keysAreNt, entries).Success? {
      BadReferenceFailsNt(entries, ScanKeys(keysAreNt, entries).value, input.variableTerminals, GoalList(input), k, i, j);
    }
  }

  /** A string goal that names no nonterminal without parameters (none at
      all, or one that takes parameters) is undefined, as is an `Nt` goal
      that is not a key (`Nt` keys) or whose name has no key (string keys). */
  lemma UndefinedGoalRejected(input: GrammarInput, k: nat)
    requires |input.entries| > 0 && k < |GoalList(input)|
    requires ScanKeys(input.entries[0].0.NtKey?, input.entries).Success?
    requires var goal := GoalList(input)[k];
      var ntParams := ScanKeys(input.entries[0].0.NtKey?, input.entries).value.ntParams;
      (goal.StrGoal? && !(Named(goal.s) in ntParams && ntParams[Named(goal.s)] == [])) ||
      (goal.NtGoal? && input.entries[0].0.NtKey? && NtKey(goal.nt) !in Keys(input.entries)) ||
      (goal.NtGoal? && !input.entries[0].0.NtKey? && KeyOfName(goal.nt.name) !in Keys(input.entries))
    ensures Build(input).Failure?
  {
    var entries := input.entries;
    var keysAreNt := entries[0].0.NtKey?;
    var info := ScanKeys(keysAreNt, entries).value;
    var cx := ContextOf(entries, info);
    var goals := GoalList(input);
    ScanKeysCorrect(keysAreNt, entries);
    assert ResolveGoal(cx, keysAreNt, goals[k]).Failure?;
    var v := ValidateAll(cx, input.variableTerminals, goals, entries);
    if v.Success? {
      AddInitsFailure(cx, keysAreNt, v.value.0, goals);
      assert AddInits(cx, keysAreNt, v.value.0, goals).Failure?;
    }
  }

  /** The terminals are the variable terminals first, then every terminal the
      productions use, each once; every string left in a body is one. */
  lemma TerminalsCollected(input: GrammarInput)
    requires Build(input).Success?
    ensures var g := Build(input).value;
      NoDuplicates(g.terminals) &&
      |g.variableTerminals| <= |g.terminals| && g.terminals[..|g.variableTerminals|] == g.variableTerminals &&
      |input.entries| <= |g.nonterminals| && AllSymsIn(g.nonterminals[..|input.entries|], g.terminals)
  {
    BuildStages(input);
    var entries := input.entries;
    var keysAreNt := entries[0].0.NtKey?;
    var info := ScanKeys(keysAreNt, entries).value;
    var cx := ContextOf(entries, info);
    var v := ValidateAll(cx, input.variableTerminals, GoalList(input), entries).value;
    ValidateAllTerminals(cx, input.variableTerminals, GoalList(input), entries);
    AddInitsKeepsPrefix(cx, keysAreNt, v.0, GoalList(input));
    var g := Build(input).value;
    assert g.terminals == v.1 && g.variableTerminals == FromSeq(input.variableTerminals);
    assert g.nonterminals[..|entries|] == v.0;
    assert AllSymsIn(v.0, v.1);
  }

  /** A definition the constructor keeps is `validate_nt` of the written
      one, and each of its productions is `copy_rhs` of the written one. */
  lemma KeptCopy(input: GrammarInput, k: nat, i: nat)
    requires Build(input).Success?
    requires k < |input.entries| && i < |input.entries[k].1.rhss|
    ensures var entries := input.entries;
      var keysAreNt := entries[0].0.NtKey?;
      ScanKeys(keysAreNt, entries).Success? &&
      var cx := ContextOf(entries, ScanKeys(keysAreNt, entries).value);
      var e := entries[k];
      var nt := ValidateNt(cx, input.variableTerminals, GoalList(input), e);
      var c := CopyRhs(cx, e.0, DefParams(e.1), i, |e.1.rhss| == 1, e.1.rhss[i]);
      var g := Build(input).value;
      nt.Success? && c.Success? &&
      k < |g.nonterminals| && g.nonterminals[k] == (e.0, nt.value.0) &&
      i < |nt.value.0.rhsList| && nt.value.0.rhsList[i] == c.value.0
  {
    var entries := input.entries;
    var keysAreNt := entries[0].0.NtKey?;
    var info := ScanKeys(keysAreNt, entries).value;
    var cx := ContextOf(entries, info);
    var goals := GoalList(input);
    var v := ValidateAll(cx, input.variableTerminals, goals, entries).value;
    ValidateAllCopies(cx, input.variableTerminals, goals, entries);
    AddInitsKeepsPrefix(cx, keysAreNt, v.0, goals);
    var w := AddInits(cx, keysAreNt, v.0, goals).value;
    assert w.0[..|v.0|] == v.0;
    assert w.0[k] == v.0[k];
    assert Keys(v.0)[k] == Keys(entries)[k];
    var e := entries[k];
    ValidateNtCopies(cx, input.variableTerminals, goals, e);
  }

  /** In a string-keyed grammar every key is an identifier that is not a
      variable terminal, and every production kept has a valid reduce action
      (or `'accept'`), its condition parameter declared, and, when written as
      a bare list, the inferred default action. */
  lemma ValidatedProductions(input: GrammarInput, k: nat, i: nat)
    requires Build(input).Success?
    requires k < |input.entries| && i < |input.entries[k].1.rhss|
    ensures var g := Build(input).value;
      k < |g.nonterminals| && g.nonterminals[k].0 == input.entries[k].0 &&
      |g.nonterminals[k].1.rhsList| == |input.entries[k].1.rhss|
    ensures var g := Build(input).value;
      var e := input.entries[k];
      k < |g.nonterminals| && i < |g.nonterminals[k].1.rhsList| &&
      var p := g.nonterminals[k].1.rhsList[i];
      (e.0.StrKey? ==> IsIdentifier(e.0.s) && e.0.s !in input.variableTerminals) &&
      (p.action.Accept? || CheckReduceAction(ConcreteCount(p.body), p.action).Success?) &&
      (p.condition.Some? ==> p.condition.value.param in DefParams(e.1)) &&
      (e.1.rhss[i].Bare? ==> e.0.StrKey? || DefaultAction("", i, |e.1.rhss| == 1, e.1.rhss[i].body) == Ref(0)) &&
      (e.1.rhss[i].Bare? && e.0.StrKey? ==> p.action == DefaultAction(e.0.s, i, |e.1.rhss| == 1, e.1.rhss[i].body))
  {
    KeptCopy(input, k, i);
    var entries := input.entries;
    var cx := ContextOf(entries, ScanKeys(entries[0].0.NtKey?, entries).value);
    var e := entries[k];
    var sole := |e.1.rhss| == 1;
    assert CheckNtKey(cx, input.variableTerminals, GoalList(input), e.0).Success?;
    assert !KeyAsMethod(e.0, i, sole, e.1.rhss[i]);
  }

  /** Every element of a kept production passed `validate_element`: it is
      no bad reference (its nonterminal has a key, is applied to the
      declared parameter names and passes only declared variables), and the
      kept body is the validated elements in order. */
  lemma ValidatedBodies(input: GrammarInput, k: nat, i: nat)
    requires Build(input).Success?
    requires k < |input.entries| && i < |input.entries[k].1.rhss|
    ensures var g := Build(input).value;
      var e := input.entries[k];
      var written := RhsProduction(e.0, i, |e.1.rhss| == 1, e.1.rhss[i]).body;
      ScanKeys(input.entries[0].0.NtKey?, input.entries).Success? &&
      var cx := ContextOf(input.entries, ScanKeys(input.entries[0].0.NtKey?, input.entries).value);
      k < |g.nonterminals| && i < |g.nonterminals[k].1.rhsList| &&
      var p := g.nonterminals[k].1.rhsList[i];
      |p.body| == |written| &&
      forall j :: 0 <= j < |written| ==>
        !BadReference(input.entries, DefParams(e.1), written[j]) &&
        ValidateElement(cx, DefParams(e.1), written[j]).Success? &&
        p.body[j] == ValidateElement(cx, DefParams(e.1), written[j]).value.0
  {
    KeptCopy(input, k, i);
    var entries := input.entries;
    var keysAreNt := entries[0].0.NtKey?;
    var info := ScanKeys(keysAreNt, entries).value;
    var cx := ContextOf(entries, info);
    var e := entries[k];
    var written := RhsProduction(e.0, i, |e.1.rhss| == 1, e.1.rhss[i]).body;
    ValidateBodyMeaning(cx, DefParams(e.1), written);
    ScanKeysCorrect(keysAreNt, entries);
    forall j | 0 <= j < |written| ensures !BadReference(entries, DefParams(e.1), written[j]) {
      BadReferenceFails(entries, info, DefParams(e.1), written[j]);
    }
  }

  // *** The Grammar object and intern *****************************************

  /** An element as `intern` sees it: its value and its identity. */
  datatype Obj = Obj(value: Element, id: nat)

  class Grammar {
    var variableTerminals: seq<string>
    var terminals: seq<string>
    var nonterminals: seq<(Key, NtDef)>
    var initNts: seq<Nt>
    var cache: map<Element, Obj>

    /** The cache maps each value to a stored object equal to it. */
    ghost predicate Valid()
      reads this
    {
      forall v :: v in cache ==> cache[v].value == v
    }

    constructor (parts: GrammarParts)
      ensures Valid()
      ensures variableTerminals == parts.variableTerminals && terminals == parts.terminals
      ensures nonterminals == parts.nonterminals && initNts == parts.initNts
      ensures cache == map[]
    {
      variableTerminals := parts.variableTerminals;
      terminals := parts.terminals;
      nonterminals := parts.nonterminals;
      initNts := parts.initNts;
      cache := map[];
    }

    /** `intern(obj)`: the object stored for an equal value, storing `obj`
        itself the first time. */
    method Intern(obj: Obj) returns (r: Obj)
      requires Valid()
      modifies this
      ensures Valid()
      ensures r.value == obj.value
      ensures obj.value in old(cache) ==> r == old(cache)[obj.value]
      ensures obj.value !in old(cache) ==> r == obj
      ensures cache == old(cache)[obj.value := r]
      ensures variableTerminals == old(variableTerminals) && terminals == old(terminals)
      ensures nonterminals == old(nonterminals) && initNts == old(initNts)
    {
      if obj.value in cache {
        r := cache[obj.value];
      } else {
        cache := cache[obj.value := obj];
        r := obj;
      }
    }

    /** Interning equal values, one after the other, gives one shared object:
        the first one stored. */
    method InternBoth(a: Obj, b: Obj) returns (ra: Obj, rb: Obj)
      requires Valid() && a.value == b.value
      modifies this
      ensures Valid()
      ensures ra == rb
      ensures ra == if a.value in old(cache) then old(cache)[a.value] else a
      ensures cache == old(cache)[a.value := ra]
    {
      ra := Intern(a);
      rb := Intern(b);
    }
  }
}
