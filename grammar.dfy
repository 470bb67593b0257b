/**
 * The grammar data model of jsparagus/grammar.py: nonterminal identities,
 * body elements, the reduce-action expression language, lookahead
 * restrictions and their algebra, and the checks and defaults that
 * `Grammar.__init__` applies to a single production.
 */
module Grammar {
  import opened Wrappers
  import opened Strings

  // *** Nonterminals ***********************************************************

  /** The value bound to one parameter in an `Nt`: a boolean flag, a `Var(name)`
      that passes a parameter of the enclosing definition through, or any other
      value, kept as its `repr`. */
  datatype ArgValue = BoolArg(b: bool) | VarArg(name: string) | OtherArg(repr: string)

  /** The name of an `Nt`: a plain string, or `InitNt(goal)` for a synthesized
      init nonterminal. */
  datatype NtName = Named(s: string) | InitName(goal: Nt)

  datatype NtArg = NtArg(param: string, value: ArgValue)

  /** `Nt(name, ((param0, arg0), ...))`: an invocation of a nonterminal. */
  datatype Nt = Nt(name: NtName, args: seq<NtArg>)

  /** The parameter names of an argument list, in order. */
  function ArgParams(args: seq<NtArg>): (r: seq<string>)
    ensures |r| == |args| && forall k :: 0 <= k < |args| ==> r[k] == args[k].param
  {
    seq(|args|, k requires 0 <= k < |args| => args[k].param)
  }

  function ArgToStr(a: NtArg): string {
    match a.value
    case BoolArg(b) => (if b then "+" else "~") + a.param
    case VarArg(v) => if v == a.param then "?" + v else a.param + "=" + v
    case OtherArg(text) => a.param + "=" + text
  }

  function ArgStrs(args: seq<NtArg>): (r: seq<string>)
    ensures |r| == |args|
    ensures forall k :: 0 <= k < |args| ==> r[k] == ArgToStr(args[k])
  {
    seq(|args|, k requires 0 <= k < |args| => ArgToStr(args[k]))
  }

  /** `Nt.pretty()`: the name alone, or the name followed by the rendered
      arguments (`+flag`, `~flag`, `?flag`, `flag=value`) in brackets. */
  function Pretty(nt: Nt): (r: string)
    requires nt.name.Named?
    ensures |nt.name.s| <= |r| && r[..|nt.name.s|] == nt.name.s
    ensures |nt.args| == 0 <==> r == nt.name.s
  {
    if |nt.args| == 0 then nt.name.s
    else nt.name.s + "[" + Join(ArgStrs(nt.args), ", ") + "]"
  }

  // Reading a rendering back. A flag, a variable and any value whose `repr`
  // holds no comma and is not itself an identifier can be read back; the
  // `repr` of `None` is an identifier and reads back as a variable (see
  // `PrettyReprCollision`).

  predicate SimpleArg(a: NtArg) {
    IsIdentifier(a.param) &&
    match a.value
    case BoolArg(_) => true
    case VarArg(v) => IsIdentifier(v)
    case OtherArg(text) => ',' !in text && !IsIdentifier(text)
  }

  predicate SimpleNt(nt: Nt) {
    nt.name.Named? && IsIdentifier(nt.name.s) &&
    forall k :: 0 <= k < |nt.args| ==> SimpleArg(nt.args[k])
  }

  /** One rendered argument: a flag, `?v`, or `param=value` where a value
      spelled as an identifier is taken for a variable. */
  function ParseArgText(text: string): Option<NtArg> {
    if |text| == 0 then None
    else if text[0] == '+' then Some(NtArg(text[1..], BoolArg(true)))
    else if text[0] == '~' then Some(NtArg(text[1..], BoolArg(false)))
    else if text[0] == '?' then Some(NtArg(text[1..], VarArg(text[1..])))
    else
      var parts := Partition(text, '=');
      if parts.1 == "" then None
      else if IsIdentifier(parts.2) then Some(NtArg(parts.0, VarArg(parts.2)))
      else Some(NtArg(parts.0, OtherArg(parts.2)))
  }

  /** Arguments from the comma-separated pieces; all pieces but the first
      start with the space of the `", "` separator. */
  function ParseArgItems(items: seq<string>, first: bool): Option<seq<NtArg>>
    decreases |items|
  {
    if |items| == 0 then Some([])
    else
      match ParseArgText(ItemText(items[0], first))
      case None => None
      case Some(a) =>
        match ParseArgItems(items[1..], false)
        case None => None
        case Some(rest) => Some([a] + rest)
  }

  /** Inverse of `Pretty` on simple nonterminals. */
  function ParsePretty(s: string): Option<Nt> {
    if '[' !in s then Some(Nt(Named(s), []))
    else
      var parts := Partition(s, '[');
      var name, rest := parts.0, parts.2;
      if |rest| == 0 || rest[|rest| - 1] != ']' then None
      else
        match ParseArgItems(Split(rest[..|rest| - 1], ','), true)
        case None => None
        case Some(args) => if |args| == 0 then None else Some(Nt(Named(name), args))
  }

  function Spaced(parts: seq<string>): (r: seq<string>)
    requires |parts| > 0
    ensures |r| == |parts| && r[0] == parts[0]
    ensures forall k :: 1 <= k < |parts| ==> r[k] == " " + parts[k]
  {
    [parts[0]] + seq(|parts| - 1, k requires 0 <= k < |parts| - 1 => " " + parts[k + 1])
  }

  lemma {:induction false} JoinCommaSpace(parts: seq<string>)
    requires |parts| > 0
    ensures Join(parts, ", ") == Join(Spaced(parts), ",")
    decreases |parts|
  {
    if |parts| > 1 {
      JoinCommaSpace(parts[1..]);
      var sp := Spaced(parts);
      var tail := Spaced(parts[1..]);
      assert sp[1..] == [" " + tail[0]] + tail[1..];
      JoinSpacedTail(parts[1..]);
      assert Join(sp[1..], ",") == " " + Join(tail, ",");
    }
  }

  lemma {:induction false} JoinSpacedTail(parts: seq<string>)
    requires |parts| > 0
    ensures Join([" " + Spaced(parts)[0]] + Spaced(parts)[1..], ",") == " " + Join(Spaced(parts), ",")
  {
    var sp := Spaced(parts);
    var q := [" " + sp[0]] + sp[1..];
    if |parts| > 1 {
      assert q[1..] == sp[1..];
    }
  }

  lemma IdentifierHasNoPunctuation(s: string)
    requires IsIdentifier(s)
    ensures '[' !in s && ',' !in s && '=' !in s && ' ' !in s
    ensures s[0] != '+' && s[0] != '~' && s[0] != '?'
  {
    forall i | 0 <= i < |s|
      ensures s[i] != '[' && s[i] != ',' && s[i] != '=' && s[i] != ' '
    {
      if i > 0 { assert IsIdentChar(s[i]); }
    }
  }

  /** The pieces `split(',')` finds in a rendering: the arguments, all but
      the first one preceded by the space of the separator. */
  function ArgItems(args: seq<NtArg>, first: bool): (r: seq<string>)
    ensures |r| == |args|
  {
    seq(|args|, k requires 0 <= k < |args| => (if first && k == 0 then "" else " ") + ArgToStr(args[k]))
  }

  lemma ParseArgTextOfArgToStr(a: NtArg)
    requires SimpleArg(a)
    ensures ParseArgText(ArgToStr(a)) == Some(a)
  {
    var t := ArgToStr(a);
    IdentifierHasNoPunctuation(a.param);
    match a.value
    case BoolArg(_) =>
      assert t[1..] == a.param;
    case VarArg(v) =>
      if v == a.param {
        assert t[1..] == a.param;
      } else {
        assert t == a.param + ['='] + v;
        PartitionAt(a.param, '=', v);
      }
    case OtherArg(text) =>
      assert t == a.param + ['='] + text;
      PartitionAt(a.param, '=', text);
  }

  /** The text `ParseArgItems` reads from the first piece. */
  function ItemText(item: string, first: bool): string {
    if first then item else if |item| > 0 && item[0] == ' ' then item[1..] else ""
  }

  /** One step of `ParseArgItems`. */
  lemma ParseArgItemsCons(items: seq<string>, first: bool, a: NtArg, rest: seq<NtArg>)
    requires |items| > 0
    requires ParseArgText(ItemText(items[0], first)) == Some(a)
    requires ParseArgItems(items[1..], false) == Some(rest)
    ensures ParseArgItems(items, first) == Some([a] + rest)
  {
  }

  lemma {:induction false} ParseArgItemsOfArgItems(args: seq<NtArg>, first: bool)
    requires forall k :: 0 <= k < |args| ==> SimpleArg(args[k])
    ensures ParseArgItems(ArgItems(args, first), first) == Some(args)
    decreases |args|
  {
    if |args| > 0 {
      var items := ArgItems(args, first);
      ArgItemsSplit(args, first);
      ParseArgItemsOfArgItems(args[1..], false);
      ParseArgTextOfArgToStr(args[0]);
      ParseArgItemsCons(items, first, args[0], args[1..]);
      assert [args[0]] + args[1..] == args;
    }
  }

  lemma ArgItemsSplit(args: seq<NtArg>, first: bool)
    requires |args| > 0
    ensures ArgItems(args, first)[1..] == ArgItems(args[1..], false)
    ensures ItemText(ArgItems(args, first)[0], first) == ArgToStr(args[0])
  {
    var items := ArgItems(args, first);
    assert items[1..] == ArgItems(args[1..], false);
    if !first {
      assert items[0][1..] == ArgToStr(args[0]);
    }
  }

  /** The rendering of a simple argument holds no comma. */
  lemma ArgToStrNoComma(a: NtArg)
    requires SimpleArg(a)
    ensures ',' !in ArgToStr(a)
  {
    IdentifierHasNoPunctuation(a.param);
    var t := ArgToStr(a);
    match a.value
    case BoolArg(_) =>
      assert t == [t[0]] + a.param;
    case VarArg(v) =>
      IdentifierHasNoPunctuation(v);
      if v == a.param {
        assert t == [t[0]] + a.param;
      } else {
        NotInConcat(a.param, "=", ',');
        NotInConcat(a.param + "=", v, ',');
      }
    case OtherArg(text) =>
      NotInConcat(a.param, "=", ',');
      NotInConcat(a.param + "=", text, ',');
  }

  /** The bracketed part of a rendering reads back as the arguments. */
  lemma {:induction false} ArgListRoundTrip(args: seq<NtArg>)
    requires |args| > 0
    requires forall k :: 0 <= k < |args| ==> SimpleArg(args[k])
    ensures ParseArgItems(Split(Join(ArgStrs(args), ", "), ','), true) == Some(args)
  {
    var strs := ArgStrs(args);
    var sp := Spaced(strs);
    assert sp == ArgItems(args, true) by {
      assert sp[0] == "" + ArgToStr(args[0]);
    }
    forall k | 0 <= k < |sp|
      ensures ',' !in sp[k]
    {
      ArgToStrNoComma(args[k]);
      assert k > 0 ==> sp[k] == " " + ArgToStr(args[k]);
    }
    JoinCommaSpace(strs);
    SplitJoin(sp, ',');
    ParseArgItemsOfArgItems(args, true);
  }

  /** Rendering a nonterminal whose arguments are flags, variables or values
      with a readable `repr` and reading it back gives the same nonterminal:
      on these `pretty` is a unique name for the nonterminal. */
  lemma PrettyRoundTrip(nt: Nt)
    requires SimpleNt(nt)
    ensures ParsePretty(Pretty(nt)) == Some(nt)
  {
    var name := nt.name.s;
    IdentifierHasNoPunctuation(name);
    if |nt.args| > 0 {
      var inner := Join(ArgStrs(nt.args), ", ");
      var s := Pretty(nt);
      assert s == name + "[" + inner + "]";
      assert s == name + ['['] + (inner + "]");
      PartitionAt(name, '[', inner + "]");
      assert (inner + "]")[..|inner + "]"| - 1] == inner;
      ArgListRoundTrip(nt.args);
      assert '[' in s;
      assert ParseArgItems(Split(inner, ','), true) == Some(nt.args);
      assert ParsePretty(s) == Some(Nt(Named(name), nt.args));
    }
  }

  /** Distinct simple nonterminals have distinct renderings. */
  lemma PrettyInjective(a: Nt, b: Nt)
    requires SimpleNt(a) && SimpleNt(b)
    requires Pretty(a) == Pretty(b)
    ensures a == b
  {
    PrettyRoundTrip(a);
    PrettyRoundTrip(b);
  }

  /** Beyond those, the rendering is not unique: a variable named `None` and
      the value `None` both render as `x=None`. */
  lemma PrettyReprCollision()
    ensures var byVar := Nt(Named("A"), [NtArg("x", VarArg("None"))]);
            var byValue := Nt(Named("A"), [NtArg("x", OtherArg("None"))]);
            byVar != byValue && Pretty(byVar) == Pretty(byValue)
  {
    var byVar := Nt(Named("A"), [NtArg("x", VarArg("None"))]);
    var byValue := Nt(Named("A"), [NtArg("x", OtherArg("None"))]);
    assert ArgStrs(byVar.args) == ArgStrs(byValue.args);
  }

  // *** Lookahead restrictions *************************************************

  /** `LookaheadRule(set, positive)`: the next terminal must (positive) or must
      not (negative) be in `tokens`. */
  datatype LookaheadRule = LookaheadRule(tokens: set<string>, positive: bool)

  /** `lookahead_contains`: whether the restriction allows terminal `t`;
      `None` is no restriction at all. */
  predicate LookaheadContains(rule: Option<LookaheadRule>, t: string) {
    rule.None? || (if rule.value.positive then t in rule.value.tokens else t !in rule.value.tokens)
  }

  /** `lookahead_intersect`: a single rule enforcing both `a` and `b`. */
  function LookaheadIntersect(a: Option<LookaheadRule>, b: Option<LookaheadRule>): (r: Option<LookaheadRule>)
    ensures forall t :: LookaheadContains(r, t) <==> LookaheadContains(a, t) && LookaheadContains(b, t)
    ensures r.None? <==> a.None? && b.None?
    ensures r.Some? && !r.value.positive <==>
      (a.Some? || b.Some?) && (a.None? || !a.value.positive) && (b.None? || !b.value.positive)
  {
    if a.None? then b
    else if b.None? then a
    else if a.value.positive then
      if b.value.positive then Some(LookaheadRule(a.value.tokens * b.value.tokens, true))
      else Some(LookaheadRule(a.value.tokens - b.value.tokens, true))
    else
      if b.value.positive then Some(LookaheadRule(b.value.tokens - a.value.tokens, true))
      else Some(LookaheadRule(a.value.tokens + b.value.tokens, false))
  }

  /** The four polarity cases of `lookahead_intersect`, and `None` as identity. */
  lemma LookaheadIntersectCases(a: set<string>, b: set<string>, r: Option<LookaheadRule>)
    ensures LookaheadIntersect(None, r) == r && LookaheadIntersect(r, None) == r
    ensures LookaheadIntersect(Some(LookaheadRule(a, true)), Some(LookaheadRule(b, true))) == Some(LookaheadRule(a * b, true))
    ensures LookaheadIntersect(Some(LookaheadRule(a, true)), Some(LookaheadRule(b, false))) == Some(LookaheadRule(a - b, true))
    ensures LookaheadIntersect(Some(LookaheadRule(a, false)), Some(LookaheadRule(b, true))) == Some(LookaheadRule(b - a, true))
    ensures LookaheadIntersect(Some(LookaheadRule(a, false)), Some(LookaheadRule(b, false))) == Some(LookaheadRule(a + b, false))
  {
  }

  ghost function MaxLen(s: set<string>): (m: nat)
    ensures forall x :: x in s ==> |x| <= m
    decreases s
  {
    if s == {} then 0
    else
      var x :| x in s;
      var rest := MaxLen(s - {x});
      if |x| > rest then |x| else rest
  }

  /** There is always a terminal outside a finite set of terminals. */
  lemma FreshTerminal(s: set<string>) returns (t: string)
    ensures t !in s
  {
    t := seq(MaxLen(s) + 1, _ => 'a');
  }

  /** A rule is determined by the terminals it allows. */
  lemma LookaheadRuleExtensional(a: LookaheadRule, b: LookaheadRule)
    requires forall t :: LookaheadContains(Some(a), t) <==> LookaheadContains(Some(b), t)
    ensures a == b
  {
    if a.positive != b.positive {
      var t := FreshTerminal(a.tokens + b.tokens);
      ghost var allowedByA := LookaheadContains(Some(a), t);
      assert false;
    } else {
      assert forall t :: t in a.tokens <==> t in b.tokens by {
        forall t ensures t in a.tokens <==> t in b.tokens {
          assert LookaheadContains(Some(a), t) <==> LookaheadContains(Some(b), t);
        }
      }
      assert a.tokens == b.tokens;
    }
  }

  /** Whenever some rule allows exactly the terminals that both `a` and `b`
      allow, `lookahead_intersect(a, b)` is that rule: the combination is the
      tightest one there is. */
  lemma LookaheadIntersectIsTheRule(a: Option<LookaheadRule>, b: Option<LookaheadRule>, c: LookaheadRule)
    requires a.Some? || b.Some?
    requires forall t :: LookaheadContains(Some(c), t) <==> LookaheadContains(a, t) && LookaheadContains(b, t)
    ensures LookaheadIntersect(a, b) == Some(c)
  {
    var r := LookaheadIntersect(a, b);
    LookaheadRuleExtensional(r.value, c);
  }

  /** Two restrictions allowing the same terminals are the same restriction. */
  lemma LookaheadSameMeaning(a: Option<LookaheadRule>, b: Option<LookaheadRule>)
    requires a.None? <==> b.None?
    requires forall t :: LookaheadContains(a, t) <==> LookaheadContains(b, t)
    ensures a == b
  {
    if a.Some? {
      LookaheadRuleExtensional(a.value, b.value);
    }
  }

  /** Combining rules is commutative, associative and idempotent. */
  lemma LookaheadIntersectLaws(a: Option<LookaheadRule>, b: Option<LookaheadRule>, c: Option<LookaheadRule>)
    ensures LookaheadIntersect(a, b) == LookaheadIntersect(b, a)
    ensures LookaheadIntersect(LookaheadIntersect(a, b), c) == LookaheadIntersect(a, LookaheadIntersect(b, c))
    ensures LookaheadIntersect(a, a) == a
  {
    LookaheadSameMeaning(LookaheadIntersect(a, b), LookaheadIntersect(b, a));
    LookaheadSameMeaning(LookaheadIntersect(LookaheadIntersect(a, b), c), LookaheadIntersect(a, LookaheadIntersect(b, c)));
    LookaheadSameMeaning(LookaheadIntersect(a, a), a);
  }

  // *** Elements ***************************************************************

  /** What can appear in a production body: a string (a terminal, or, before
      validation, the name of a nonterminal without parameters), an `Nt`, an
      `Optional`, a `LookaheadRule`, or the `ErrorToken` singleton. */
  datatype Element =
    | Sym(s: string)
    | NtRef(nt: Nt)
    | Opt(inner: Element)
    | Lookahead(rule: LookaheadRule)
    | ErrorToken

  /** `is_concrete_element`: parsing the element pushes a value. */
  predicate IsConcrete(e: Element) {
    !e.Lookahead? && !e.ErrorToken?
  }

  /** The number of concrete elements of a body. */
  function ConcreteCount(body: seq<Element>): (n: nat)
    ensures n <= |body|
  {
    if |body| == 0 then 0
    else ConcreteCount(body[..|body| - 1]) + (if IsConcrete(body[|body| - 1]) then 1 else 0)
  }

  // *** Reduce expressions *****************************************************

  /** A reduce expression: the value of the i-th concrete element, a builder
      method call, `None`, `Some(inner)`, or the special `'accept'` action. */
  datatype ReduceExpr =
    | Ref(index: int)
    | CallMethod(callee: string, args: seq<ReduceExpr>)
    | NoneValue
    | SomeValue(inner: ReduceExpr)
    | Accept

  function UnionAll<T(!new)>(ss: seq<set<T>>): (r: set<T>)
    ensures forall x :: x in r <==> exists k :: 0 <= k < |ss| && x in ss[k]
  {
    if |ss| == 0 then {} else ss[0] + UnionAll(ss[1..])
  }

  /** The element numbers an expression reads. */
  function Refs(e: ReduceExpr): set<int> {
    match e
    case Ref(i) => {i}
    case CallMethod(_, args) => UnionAll(seq(|args|, k requires 0 <= k < |args| => Refs(args[k])))
    case NoneValue => {}
    case SomeValue(inner) => Refs(inner)
    case Accept => {}
  }

  /** The builder methods an expression calls. */
  function MethodNames(e: ReduceExpr): set<string> {
    match e
    case Ref(_) => {}
    case CallMethod(m, args) => {m} + UnionAll(seq(|args|, k requires 0 <= k < |args| => MethodNames(args[k])))
    case NoneValue => {}
    case SomeValue(inner) => MethodNames(inner)
    case Accept => {}
  }

  /** Whether `'accept'` occurs anywhere in the expression. */
  predicate HasAccept(e: ReduceExpr) {
    match e
    case Ref(_) => false
    case CallMethod(_, args) => exists k :: 0 <= k < |args| && HasAccept(args[k])
    case NoneValue => false
    case SomeValue(inner) => HasAccept(inner)
    case Accept => true
  }

  /** `expr_to_str`. */
  function ExprToStr(e: ReduceExpr): (r: string)
    ensures |r| > 0
  {
    match e
    case Ref(i) => "$" + IntToString(i)
    case CallMethod(m, args) =>
      m + "(" + Join(seq(|args|, k requires 0 <= k < |args| => ExprToStr(args[k])), ", ") + ")"
    case NoneValue => "None"
    case SomeValue(inner) => "Some(" + ExprToStr(inner) + ")"
    case Accept => "<accept>"
  }

  /** A valid method name has no `(` and does not start with `$`. */
  lemma MethodNameNoParen(m: string)
    requires IsMethodName(m)
    ensures '(' !in m && m[0] != '$'
  {
    if IsIdentifier(m) {
      IdentifierHasNoParen(m);
    } else {
      var k :| 0 <= k < |m| && m[k] == ' ' && IsIdentifier(m[..k]) && IsDigits(m[k + 1..]);
      IdentifierHasNoParen(m[..k]);
      assert m == m[..k] + [' '] + m[k + 1..];
      assert m[0] == m[..k][0];
      var digits := m[k + 1..];
      assert '(' !in digits by {
        forall i | 0 <= i < |digits| ensures digits[i] != '(' {
          assert IsDigit(digits[i]);
        }
      }
    }
  }

  lemma IdentifierHasNoParen(s: string)
    requires IsIdentifier(s)
    ensures '(' !in s && s[0] != '$'
  {
    forall i | 0 <= i < |s| ensures s[i] != '(' {
      if i > 0 { assert IsIdentChar(s[i]); }
    }
  }

  /** What a rendering says about its expression: `None` and `<accept>` are
      exactly those two, a closing parenthesis ends exactly a call or a
      `Some`, and the text before the first `(` names the callee; when the
      callee is a valid method name, a leading `$` marks exactly an element
      reference. */
  lemma ExprToStrShape(e: ReduceExpr)
    ensures var r := ExprToStr(e);
      && (r == "None" <==> e.NoneValue?)
      && (r == "<accept>" <==> e.Accept?)
      && (r[|r| - 1] == ')' <==> e.CallMethod? || e.SomeValue?)
      && (e.CallMethod? && IsMethodName(e.callee) ==> Partition(r, '(').0 == e.callee && r[0] != '$')
      && (e.SomeValue? ==> Partition(r, '(').0 == "Some")
      && (r[0] == '$' <== e.Ref?)
  {
    var r := ExprToStr(e);
    match e
    case Ref(i) =>
      var d := IntToString(i);
      assert r == "$" + d;
      assert r[|r| - 1] == d[|d| - 1];
      assert d[|d| - 1] != ')' by {
        if i < 0 { assert IsDigit(d[1..][|d| - 2]); } else { assert IsDigit(d[|d| - 1]); }
      }
    case CallMethod(m, args) =>
      var inner := Join(seq(|args|, k requires 0 <= k < |args| => ExprToStr(args[k])), ", ");
      assert r == m + ['('] + (inner + ")");
      assert r[|r| - 1] == ')';
      if IsMethodName(m) {
        MethodNameNoParen(m);
        PartitionAt(m, '(', inner + ")");
      }
    case NoneValue =>
    case SomeValue(inner) =>
      assert r == "Some" + ['('] + (ExprToStr(inner) + ")");
      assert r[|r| - 1] == ')';
      PartitionAt("Some", '(', ExprToStr(inner) + ")");
    case Accept =>
  }

  /** Distinct element references render differently. */
  lemma ExprToStrRefInjective(i: int, j: int)
    requires ExprToStr(Ref(i)) == ExprToStr(Ref(j))
    ensures i == j
  {
    assert IntToString(i) == ExprToStr(Ref(i))[1..];
    assert IntToString(j) == ExprToStr(Ref(j))[1..];
    IntToStringInjective(i, j);
  }

  /** A call of a method named `Some` renders like `Some(...)`: the text does
      not always determine the expression. */
  lemma ExprToStrSomeCollision(inner: ReduceExpr)
    ensures ExprToStr(CallMethod("Some", [inner])) == ExprToStr(SomeValue(inner))
  {
    var parts := seq(1, k requires 0 <= k < 1 => ExprToStr([inner][k]));
    assert parts == [ExprToStr(inner)];
  }

  /** A method name `check_reduce_action` accepts: an identifier, or an
      identifier, one space and a production number (`"Expr 3"`). */
  predicate IsMethodName(m: string) {
    IsIdentifier(m) ||
    exists k :: 0 <= k < |m| && m[k] == ' ' && IsIdentifier(m[..k]) && IsDigits(m[k + 1..])
  }

  /** The test as the source writes it: `isidentifier`, or `partition(' ')`
      into an identifier, a space and digits. */
  function CheckMethodName(m: string): (ok: bool)
    ensures ok <==> IsMethodName(m)
  {
    var (name, space, pn) := Partition(m, ' ');
    MethodNameByPartition(m);
    IsIdentifier(m) || (space == " " && IsIdentifier(name) && IsDigits(pn))
  }

  lemma MethodNameByPartition(m: string)
    ensures IsMethodName(m) <==>
      IsIdentifier(m) || (Partition(m, ' ').1 == " " && IsIdentifier(Partition(m, ' ').0) && IsDigits(Partition(m, ' ').2))
  {
    var (name, space, pn) := Partition(m, ' ');
    if space == " " && IsIdentifier(name) && IsDigits(pn) {
      assert m[|name|] == ' ' && m[..|name|] == name && m[|name| + 1..] == pn;
    }
    if !IsIdentifier(m) && IsMethodName(m) {
      var k :| 0 <= k < |m| && m[k] == ' ' && IsIdentifier(m[..k]) && IsDigits(m[k + 1..]);
      IdentifierHasNoPunctuation(m[..k]);
      assert m == m[..k] + [' '] + m[k + 1..];
      PartitionAt(m[..k], ' ', m[k + 1..]);
    }
  }

  /** Why an action is rejected. */
  datatype ActionError = IndexOutOfRange(index: int) | InvalidMethodName(name: string) | UnrecognizedExpr

  /** Everything a well-formed reduce expression of a body with `concreteLen`
      concrete elements satisfies: every element number in range, every method
      name well formed, and no nested `'accept'`. */
  predicate ExprWellFormed(e: ReduceExpr, concreteLen: nat) {
    (forall i :: i in Refs(e) ==> 0 <= i < concreteLen) &&
    (forall m :: m in MethodNames(e) ==> IsMethodName(m)) &&
    !HasAccept(e)
  }

  /** A call is well formed exactly when its method name is and every
      argument is. */
  lemma CallWellFormed(m: string, args: seq<ReduceExpr>, concreteLen: nat)
    ensures ExprWellFormed(CallMethod(m, args), concreteLen) <==>
      IsMethodName(m) && forall k :: 0 <= k < |args| ==> ExprWellFormed(args[k], concreteLen)
    ensures forall k, i :: 0 <= k < |args| && i in Refs(args[k]) ==> i in Refs(CallMethod(m, args))
    ensures forall k, n :: 0 <= k < |args| && n in MethodNames(args[k]) ==> n in MethodNames(CallMethod(m, args))
    ensures forall k :: 0 <= k < |args| && HasAccept(args[k]) ==> HasAccept(CallMethod(m, args))
  {
    var e := CallMethod(m, args);
    var refs := seq(|args|, k requires 0 <= k < |args| => Refs(args[k]));
    var names := seq(|args|, k requires 0 <= k < |args| => MethodNames(args[k]));
    assert Refs(e) == UnionAll(refs);
    assert MethodNames(e) == {m} + UnionAll(names);
    forall k, i | 0 <= k < |args| && i in Refs(args[k]) ensures i in Refs(e) {
      assert i in refs[k];
    }
    forall k, n | 0 <= k < |args| && n in MethodNames(args[k]) ensures n in MethodNames(e) {
      assert n in names[k];
    }
    assert m in MethodNames(e);
    if ExprWellFormed(e, concreteLen) {
      forall k | 0 <= k < |args| ensures ExprWellFormed(args[k], concreteLen) {
        assert !HasAccept(args[k]);
        forall i | i in Refs(args[k]) ensures 0 <= i < concreteLen {
          assert i in refs[k];
          assert i in Refs(e);
        }
        forall n | n in MethodNames(args[k]) ensures IsMethodName(n) {
          assert n in names[k];
          assert n in MethodNames(e);
        }
      }
    }
    if IsMethodName(m) && forall k :: 0 <= k < |args| ==> ExprWellFormed(args[k], concreteLen) {
      assert !HasAccept(e);
      forall i | i in Refs(e) ensures 0 <= i < concreteLen {
        var k :| 0 <= k < |args| && i in refs[k];
        assert i in Refs(args[k]);
      }
      forall n | n in MethodNames(e) ensures IsMethodName(n) {
        if n != m {
          var k :| 0 <= k < |args| && n in names[k];
          assert n in MethodNames(args[k]);
        }
      }
    }
  }

  function FirstFailure(rs: seq<Result<(), ActionError>>): (r: Result<(), ActionError>)
    ensures r.Success? <==> forall k :: 0 <= k < |rs| ==> rs[k].Success?
    ensures r.Failure? ==> exists k :: 0 <= k < |rs| && rs[k] == r
  {
    if |rs| == 0 then Success(())
    else if rs[0].Failure? then rs[0]
    else FirstFailure(rs[1..])
  }

  /** What `check_reduce_action` promises of its result `r` for `e`. */
  predicate Explains(concreteLen: nat, e: ReduceExpr, r: Result<(), ActionError>) {
    (r.Success? <==> ExprWellFormed(e, concreteLen)) &&
    (r.Failure? && r.error.IndexOutOfRange? ==> r.error.index in Refs(e) && !(0 <= r.error.index < concreteLen)) &&
    (r.Failure? && r.error.InvalidMethodName? ==> r.error.name in MethodNames(e) && !IsMethodName(r.error.name)) &&
    (r.Failure? && r.error.UnrecognizedExpr? ==> HasAccept(e))
  }

  /** The first failure among results that explain the arguments explains
      a call with a well-formed method name. */
  lemma CallExplained(m: string, args: seq<ReduceExpr>, concreteLen: nat, rs: seq<Result<(), ActionError>>)
    requires IsMethodName(m) && |rs| == |args|
    requires forall k :: 0 <= k < |args| ==> Explains(concreteLen, args[k], rs[k])
    ensures Explains(concreteLen, CallMethod(m, args), FirstFailure(rs))
  {
    CallWellFormed(m, args, concreteLen);
    var r := FirstFailure(rs);
    if r.Failure? {
      var k :| 0 <= k < |rs| && rs[k] == r;
      assert Explains(concreteLen, args[k], r);
    }
  }

  /** `check_reduce_action`: validates a reduce expression against a body with
      `concreteLen` concrete elements, recursing into method arguments and
      `Some`; the error names what is wrong. */
  function CheckReduceAction(concreteLen: nat, e: ReduceExpr): (r: Result<(), ActionError>)
    ensures r.Success? <==> ExprWellFormed(e, concreteLen)
    ensures r.Failure? && r.error.IndexOutOfRange? ==>
      r.error.index in Refs(e) && !(0 <= r.error.index < concreteLen)
    ensures r.Failure? && r.error.InvalidMethodName? ==>
      r.error.name in MethodNames(e) && !IsMethodName(r.error.name)
    ensures r.Failure? && r.error.UnrecognizedExpr? ==> HasAccept(e)
  {
    match e
    case Ref(i) =>
      assert i in Refs(e);
      if 0 <= i < concreteLen then Success(()) else Failure(IndexOutOfRange(i))
    case CallMethod(m, args) =>
      if !CheckMethodName(m) then Failure(InvalidMethodName(m))
      else
        var rs := seq(|args|, k requires 0 <= k < |args| => CheckReduceAction(concreteLen, args[k]));
        assert forall k :: 0 <= k < |args| ==> Explains(concreteLen, args[k], rs[k]);
        CallExplained(m, args, concreteLen, rs);
        FirstFailure(rs)
    case NoneValue => Success(())
    case SomeValue(inner) =>
      assert Refs(e) == Refs(inner) && MethodNames(e) == MethodNames(inner) && HasAccept(e) == HasAccept(inner);
      CheckReduceAction(concreteLen, inner)
    case Accept => Failure(UnrecognizedExpr)
  }

  // *** Productions ************************************************************

  /** `condition=(param, value)`: the production exists only when the
      parameter has the given value. */
  datatype Condition = Condition(param: string, value: ArgValue)

  datatype Production = Production(body: seq<Element>, action: ReduceExpr, condition: Option<Condition>)

  /** `NtDef(params, rhs_list)`. */
  datatype NtDef = NtDef(params: seq<string>, rhsList: seq<Production>)

  /** `tuple(range(n))` as reduce expressions. */
  function RefsUpTo(n: nat): (r: seq<ReduceExpr>)
    ensures |r| == n && forall k :: 0 <= k < n ==> r[k] == Ref(k)
  {
    seq(n, k => Ref(k))
  }

  /** The method name `copy_rhs` gives production `i` of nonterminal `nt`:
      the nonterminal alone when it has a sole production, else `"nt i"`. */
  function DefaultMethodName(nt: string, i: nat, sole: bool): string {
    if sole then nt else nt + " " + NatToString(i)
  }

  /** The action `copy_rhs` infers for a production written as a bare list:
      pass the value through when the body is one concrete element, otherwise
      call the production's method with every concrete element. */
  function DefaultAction(nt: string, i: nat, sole: bool, body: seq<Element>): (r: ReduceExpr)
    ensures (r == Ref(0)) <==> |body| == 1 && ConcreteCount(body) == 1
    ensures r != Ref(0) ==> r.CallMethod? && |r.args| == ConcreteCount(body)
  {
    var nargs := ConcreteCount(body);
    if |body| == 1 && nargs == 1 then Ref(0)
    else CallMethod(DefaultMethodName(nt, i, sole), RefsUpTo(nargs))
  }

  /** A nonterminal that is an identifier always gets a method name that
      `check_reduce_action` accepts. */
  lemma DefaultMethodNameValid(nt: string, i: nat, sole: bool)
    requires IsIdentifier(nt)
    ensures IsMethodName(DefaultMethodName(nt, i, sole))
  {
    if !sole {
      var m := DefaultMethodName(nt, i, sole);
      assert m[..|nt|] == nt && m[|nt|] == ' ' && m[|nt| + 1..] == NatToString(i);
    }
  }

  /** An inferred default action reads every concrete element exactly as
      numbered, and always passes `check_reduce_action`. */
  lemma DefaultActionWellFormed(nt: string, i: nat, sole: bool, body: seq<Element>)
    requires IsIdentifier(nt)
    ensures forall k :: k in Refs(DefaultAction(nt, i, sole, body)) <==> 0 <= k < ConcreteCount(body)
    ensures CheckReduceAction(ConcreteCount(body), DefaultAction(nt, i, sole, body)).Success?
  {
    var n := ConcreteCount(body);
    var r := DefaultAction(nt, i, sole, body);
    if r.CallMethod? {
      DefaultMethodNameValid(nt, i, sole);
      var args := RefsUpTo(n);
      assert r == CallMethod(r.callee, args);
      CallWellFormed(r.callee, args, n);
      forall k | 0 <= k < |args| ensures ExprWellFormed(args[k], n) {
        assert Refs(args[k]) == {k};
      }
      assert ExprWellFormed(r, n);
      forall x | 0 <= x < n ensures x in Refs(r) {
        assert x in Refs(args[x]);
      }
    }
  }
}
