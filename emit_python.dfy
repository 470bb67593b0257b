/**
 * The Python backend (`jsparagus/emit/python.py`): the cache that numbers
 * the special cases of the action table, the compilation of reduce
 * expressions to Python expressions, the `reductions` list, the
 * `error_codes` rows, and the threading of the indentation through
 * `write_action`.
 *
 * The generated text is modelled by its structure: a Python expression is
 * a `PyExpr` tree rendered by `Render`, and a written statement is a
 * `Line` holding its indentation and what it does.
 */
module EmitPython {
  import opened Wrappers
  import opened Strings
  import opened Ordered
  import opened Grammar

  // *** Special cases (`render_action`) ****************************************

  /** A tuple action `(tag, a, b)`; `('IfSameLine', a, b)` means "`a` when no
      line terminator was seen before the token, `b` otherwise". */
  datatype SpecialKey = SpecialKey(tag: string, sameLine: int, newLine: int)

  /** An entry of a state's `action_row`: an integer action or a tuple. */
  datatype TableAction = Plain(n: int) | Tuple(key: SpecialKey)

  /** An entry of `special_cases`: the two actions its lambda chooses from. */
  datatype SpecialCase = IfSameLine(sameLine: int, newLine: int)

  const IfSameLineTag: string := "IfSameLine"

  function CaseOf(k: SpecialKey): SpecialCase {
    IfSameLine(k.sameLine, k.newLine)
  }

  function KeyOf(c: SpecialCase): SpecialKey {
    SpecialKey(IfSameLineTag, c.sameLine, c.newLine)
  }

  /** `special_case_cache` and `special_cases` together. */
  datatype Cases = Cases(cache: map<SpecialKey, nat>, list: seq<SpecialCase>)

  /** The cache and the list agree: every cached tuple is an `IfSameLine`
      tuple whose case sits at its index, and every case is cached under its
      own tuple at its own index (so the indices are exactly 0 .. |list|-1). */
  predicate CacheValid(c: Cases) {
    (forall k :: k in c.cache ==> k.tag == IfSameLineTag && c.cache[k] < |c.list| && c.list[c.cache[k]] == CaseOf(k)) &&
    (forall i :: 0 <= i < |c.list| ==> KeyOf(c.list[i]) in c.cache && c.cache[KeyOf(c.list[i])] == i)
  }

  /** `d` is `c` after more calls: cached indices kept, cases only appended. */
  predicate Extends(c: Cases, d: Cases) {
    (forall k :: k in c.cache ==> k in d.cache && d.cache[k] == c.cache[k]) && c.list <= d.list
  }

  /** What a rendered value `v` stands for once the cache is `c`: an integer
      action itself, a tuple `SPECIAL_CASE_TAG` plus its cached index. */
  predicate Means(c: Cases, tag: int, a: TableAction, v: int) {
    match a
    case Plain(n) => v == n
    case Tuple(k) => k in c.cache && v == tag + c.cache[k]
  }

  datatype RenderError = UnrecognizedSpecialCase(key: SpecialKey)

  /** `render_action` with `SPECIAL_CASE_TAG == tag`: the rendered value and
      the cache afterwards. A tuple not yet cached is numbered
      `len(special_cases)` if its tag is `'IfSameLine'`; any other tag is a
      `ValueError`. */
  function Render(c: Cases, tag: int, a: TableAction): (Result<int, RenderError>, Cases) {
    match a
    case Plain(n) => (Success(n), c)
    case Tuple(k) =>
      if k in c.cache then (Success(tag + c.cache[k]), c)
      else if k.tag == IfSameLineTag then (Success(tag + |c.list|), Cases(c.cache[k := |c.list|], c.list + [CaseOf(k)]))
      else (Failure(UnrecognizedSpecialCase(k)), c)
  }

  /** One call of `render_action`: it keeps the cache valid, only extends it,
      fails exactly on a tuple whose tag is not `'IfSameLine'`, returns what
      the action means, leaves the cache alone for an integer or a cached
      tuple, and numbers a new tuple `len(special_cases)`. */
  lemma RenderStep(c: Cases, tag: int, a: TableAction)
    requires CacheValid(c)
    ensures CacheValid(Render(c, tag, a).1) && Extends(c, Render(c, tag, a).1)
    ensures Render(c, tag, a).0.Success? <==> a.Plain? || a.key.tag == IfSameLineTag
    ensures Render(c, tag, a).0.Success? ==> Means(Render(c, tag, a).1, tag, a, Render(c, tag, a).0.value)
    ensures (a.Plain? || a.key in c.cache) ==> Render(c, tag, a).1 == c
    ensures a.Tuple? && a.key !in c.cache && a.key.tag == IfSameLineTag ==>
      Render(c, tag, a).0 == Success(tag + |c.list|) && Render(c, tag, a).1.list == c.list + [CaseOf(a.key)]
    ensures Render(c, tag, a).0.Success? ==>
      Render(c, tag, a).1.cache.Keys == c.cache.Keys + (if a.Tuple? then {a.key} else {})
  {
    if a.Tuple? && a.key !in c.cache && a.key.tag == IfSameLineTag {
      var k := a.key;
      var d := Render(c, tag, a).1;
      assert d.cache == c.cache[k := |c.list|] && d.list == c.list + [CaseOf(k)];
      forall j | j in d.cache
        ensures j.tag == IfSameLineTag && d.cache[j] < |d.list| && d.list[d.cache[j]] == CaseOf(j)
      {
        if j != k {
          assert d.cache[j] == c.cache[j];
        }
      }
      forall i | 0 <= i < |d.list|
        ensures KeyOf(d.list[i]) in d.cache && d.cache[KeyOf(d.list[i])] == i
      {
        if i < |c.list| {
          assert d.list[i] == c.list[i];
          assert KeyOf(c.list[i]) != k;
        } else {
          assert KeyOf(d.list[i]) == k;
        }
      }
    }
  }

  /** Means is stable under extension of the cache. */
  lemma MeansExtends(c: Cases, d: Cases, tag: int, a: TableAction, v: int)
    requires Extends(c, d) && Means(c, tag, a, v)
    ensures Means(d, tag, a, v)
  {
  }

  /** A rendered tuple points at its own case: `special_cases[v - tag]` is
      the lambda for that tuple. */
  lemma MeansDecodes(c: Cases, tag: int, k: SpecialKey, v: int)
    requires CacheValid(c) && Means(c, tag, Tuple(k), v)
    ensures 0 <= v - tag < |c.list| && c.list[v - tag] == CaseOf(k) && k.tag == IfSameLineTag
  {
  }

  /** A valid cache lists every case once. */
  lemma CacheDistinct(c: Cases)
    requires CacheValid(c)
    ensures NoDuplicates(c.list)
  {
    forall i, j | 0 <= i < |c.list| && 0 <= j < |c.list| && c.list[i] == c.list[j]
      ensures i == j
    {
      assert c.cache[KeyOf(c.list[i])] == i;
    }
  }

  /** `render_action` over one action row, in order, stopping at the first
      `ValueError`. */
  function RenderSeq(c: Cases, tag: int, actions: seq<TableAction>): (Result<seq<int>, RenderError>, Cases) {
    if |actions| == 0 then (Success([]), c)
    else
      var (r, d) := RenderSeq(c, tag, actions[..|actions| - 1]);
      if r.Failure? then (r, d)
      else
        var (x, e) := Render(d, tag, actions[|actions| - 1]);
        if x.Failure? then (Failure(x.error), e) else (Success(r.value + [x.value]), e)
  }

  /** The tuples of a row. */
  function TupleKeys(actions: seq<TableAction>): set<SpecialKey> {
    set k | 0 <= k < |actions| && actions[k].Tuple? :: actions[k].key
  }

  /** Rendering a row keeps the cache valid and only extends it. */
  lemma {:induction false} RenderSeqCache(c: Cases, tag: int, actions: seq<TableAction>)
    requires CacheValid(c)
    ensures CacheValid(RenderSeq(c, tag, actions).1) && Extends(c, RenderSeq(c, tag, actions).1)
    decreases |actions|
  {
    if |actions| > 0 {
      var init := actions[..|actions| - 1];
      RenderSeqCache(c, tag, init);
      var (r, d) := RenderSeq(c, tag, init);
      if r.Success? {
        RenderStep(d, tag, actions[|actions| - 1]);
      }
    }
  }

  /** A row renders exactly when each of its tuples is an `'IfSameLine'`
      tuple. */
  lemma {:induction false} RenderSeqSucceeds(c: Cases, tag: int, actions: seq<TableAction>)
    requires CacheValid(c)
    ensures RenderSeq(c, tag, actions).0.Success? <==>
      forall k :: 0 <= k < |actions| ==> actions[k].Plain? || actions[k].key.tag == IfSameLineTag
    decreases |actions|
  {
    if |actions| > 0 {
      var init := actions[..|actions| - 1];
      RenderSeqSucceeds(c, tag, init);
      RenderSeqCache(c, tag, init);
      var (r, d) := RenderSeq(c, tag, init);
      assert forall k :: 0 <= k < |init| ==> init[k] == actions[k];
      if r.Success? {
        RenderStep(d, tag, actions[|actions| - 1]);
      }
    }
  }

  /** On success every value means its action with the final cache. */
  lemma {:induction false} RenderSeqValues(c: Cases, tag: int, actions: seq<TableAction>)
    requires CacheValid(c) && RenderSeq(c, tag, actions).0.Success?
    ensures |RenderSeq(c, tag, actions).0.value| == |actions|
    ensures forall k :: 0 <= k < |actions| ==>
      Means(RenderSeq(c, tag, actions).1, tag, actions[k], RenderSeq(c, tag, actions).0.value[k])
    decreases |actions|
  {
    if |actions| > 0 {
      var init := actions[..|actions| - 1];
      var last := actions[|actions| - 1];
      RenderSeqValues(c, tag, init);
      RenderSeqCache(c, tag, init);
      var (r, d) := RenderSeq(c, tag, init);
      RenderStep(d, tag, last);
      var (x, e) := Render(d, tag, last);
      var out := r.value + [x.value];
      assert RenderSeq(c, tag, actions) == (Success(out), e);
      forall k | 0 <= k < |actions| ensures Means(e, tag, actions[k], out[k]) {
        if k < |init| {
          assert init[k] == actions[k] && out[k] == r.value[k];
          MeansExtends(d, e, tag, actions[k], r.value[k]);
        }
      }
    }
  }

  lemma TupleKeysSnoc(init: seq<TableAction>, last: TableAction)
    ensures TupleKeys(init + [last]) == TupleKeys(init) + (if last.Tuple? then {last.key} else {})
  {
    var s := init + [last];
    assert forall k :: 0 <= k < |init| ==> s[k] == init[k];
    assert s[|init|] == last;
  }

  /** On success the final cache holds exactly the old tuples and the row's:
      one case per distinct tuple. */
  lemma {:induction false} RenderSeqKeys(c: Cases, tag: int, actions: seq<TableAction>)
    requires CacheValid(c) && RenderSeq(c, tag, actions).0.Success?
    ensures RenderSeq(c, tag, actions).1.cache.Keys == c.cache.Keys + TupleKeys(actions)
    decreases |actions|
  {
    if |actions| > 0 {
      var init := actions[..|actions| - 1];
      var last := actions[|actions| - 1];
      RenderSeqKeys(c, tag, init);
      RenderSeqCache(c, tag, init);
      var (r, d) := RenderSeq(c, tag, init);
      RenderStep(d, tag, last);
      assert actions == init + [last];
      TupleKeysSnoc(init, last);
    } else {
      assert TupleKeys(actions) == {};
    }
  }

  /** Equal actions of a rendered row have equal values, and so have only
      equal tuples. */
  lemma RenderSeqSameIndex(c: Cases, tag: int, actions: seq<TableAction>, i: nat, j: nat)
    requires CacheValid(c) && RenderSeq(c, tag, actions).0.Success?
    requires i < |actions| && j < |actions| && actions[i].Tuple? && actions[j].Tuple?
    ensures |RenderSeq(c, tag, actions).0.value| == |actions| &&
      (RenderSeq(c, tag, actions).0.value[i] == RenderSeq(c, tag, actions).0.value[j] <==> actions[i] == actions[j])
  {
    RenderSeqValues(c, tag, actions);
    RenderSeqCache(c, tag, actions);
    var d := RenderSeq(c, tag, actions).1;
    var out := RenderSeq(c, tag, actions).0.value;
    if out[i] == out[j] {
      MeansDecodes(d, tag, actions[i].key, out[i]);
      MeansDecodes(d, tag, actions[j].key, out[j]);
    }
  }

  /** A failed row stays failed when more actions follow. */
  lemma {:induction false} RenderSeqStop(c: Cases, tag: int, actions: seq<TableAction>, i: nat)
    requires i <= |actions| && RenderSeq(c, tag, actions[..i]).0.Failure?
    ensures RenderSeq(c, tag, actions) == RenderSeq(c, tag, actions[..i])
    decreases |actions| - i
  {
    if i < |actions| {
      assert actions[..i + 1][..i] == actions[..i];
      RenderSeqStop(c, tag, actions, i + 1);
    } else {
      assert actions[..i] == actions;
    }
  }

  /** `render_action` over every state's row, in state order. */
  function RenderRows(c: Cases, tag: int, rows: seq<seq<TableAction>>): (Result<seq<seq<int>>, RenderError>, Cases) {
    if |rows| == 0 then (Success([]), c)
    else
      var (r, d) := RenderRows(c, tag, rows[..|rows| - 1]);
      if r.Failure? then (r, d)
      else
        var (x, e) := RenderSeq(d, tag, rows[|rows| - 1]);
        if x.Failure? then (Failure(x.error), e) else (Success(r.value + [x.value]), e)
  }

  /** Over the whole table: the cache stays valid and only grows, the table
      renders exactly when every tuple is an `'IfSameLine'` tuple, and then
      each row keeps its length and every value means its action with the
      final cache. */
  lemma {:induction false} RenderRowsMeaning(c: Cases, tag: int, rows: seq<seq<TableAction>>)
    requires CacheValid(c)
    ensures CacheValid(RenderRows(c, tag, rows).1) && Extends(c, RenderRows(c, tag, rows).1)
    ensures RenderRows(c, tag, rows).0.Success? <==>
      forall i, k :: 0 <= i < |rows| && 0 <= k < |rows[i]| ==> rows[i][k].Plain? || rows[i][k].key.tag == IfSameLineTag
    ensures RenderRows(c, tag, rows).0.Success? ==>
      var out := RenderRows(c, tag, rows).0.value;
      var d := RenderRows(c, tag, rows).1;
      |out| == |rows| &&
      (forall i :: 0 <= i < |rows| ==> |out[i]| == |rows[i]|) &&
      (forall i, k :: 0 <= i < |rows| && 0 <= k < |rows[i]| ==> Means(d, tag, rows[i][k], out[i][k]))
    decreases |rows|
  {
    if |rows| > 0 {
      var init := rows[..|rows| - 1];
      var last := rows[|rows| - 1];
      RenderRowsMeaning(c, tag, init);
      var (r, d) := RenderRows(c, tag, init);
      assert forall i :: 0 <= i < |init| ==> init[i] == rows[i];
      if r.Success? {
        RenderSeqCache(d, tag, last);
        RenderSeqSucceeds(d, tag, last);
        var (x, e) := RenderSeq(d, tag, last);
        if x.Success? {
          RenderSeqValues(d, tag, last);
          var out := RenderRows(c, tag, rows).0.value;
          forall i, k | 0 <= i < |rows| && 0 <= k < |rows[i]| ensures Means(e, tag, rows[i][k], out[i][k]) {
            if i < |init| {
              MeansExtends(d, e, tag, rows[i][k], r.value[i][k]);
            }
          }
        }
      }
    }
  }

  /** A failed table stays failed when more rows follow. */
  lemma {:induction false} RenderRowsStop(c: Cases, tag: int, rows: seq<seq<TableAction>>, i: nat)
    requires i <= |rows| && RenderRows(c, tag, rows[..i]).0.Failure?
    ensures RenderRows(c, tag, rows) == RenderRows(c, tag, rows[..i])
    decreases |rows| - i
  {
    if i < |rows| {
      assert rows[..i + 1][..i] == rows[..i];
      RenderRowsStop(c, tag, rows, i + 1);
    } else {
      assert rows[..i] == rows;
    }
  }

  /** The state `write_python_parser_states` keeps while writing `actions`:
      `special_case_cache`, `special_cases`, and `SPECIAL_CASE_TAG`. */
  class SpecialCaseTable {
    var cache: map<SpecialKey, nat>
    var list: seq<SpecialCase>
    const tag: int

    constructor (tag: int)
      ensures this.tag == tag && cache == map[] && list == []
      ensures CacheValid(Cases(cache, list))
    {
      this.tag := tag;
      cache := map[];
      list := [];
    }

    /** `render_action`. */
    method RenderAction(a: TableAction) returns (r: Result<int, RenderError>)
      modifies this
      ensures (r, Cases(cache, list)) == Render(Cases(old(cache), old(list)), tag, a)
    {
      match a
      case Plain(n) => r := Success(n);
      case Tuple(k) =>
        if k !in cache {
          if k.tag == IfSameLineTag {
            cache := cache[k := |list|];
            list := list + [CaseOf(k)];
          } else {
            r := Failure(UnrecognizedSpecialCase(k));
            return;
          }
        }
        r := Success(tag + cache[k]);
    }

    /** One state's row: `render_action` on each entry in order. */
    method RenderRow(row: seq<TableAction>) returns (r: Result<seq<int>, RenderError>)
      modifies this
      ensures (r, Cases(cache, list)) == RenderSeq(Cases(old(cache), old(list)), tag, row)
    {
      var c0 := Cases(cache, list);
      var out: seq<int> := [];
      var i := 0;
      while i < |row|
        invariant 0 <= i <= |row|
        invariant RenderSeq(c0, tag, row[..i]) == (Success(out), Cases(cache, list))
      {
        assert row[..i + 1][..i] == row[..i];
        var x := RenderAction(row[i]);
        if x.Failure? {
          r := Failure(x.error);
          RenderSeqStop(c0, tag, row, i + 1);
          return;
        }
        out := out + [x.value];
        i := i + 1;
      }
      assert row[..i] == row;
      r := Success(out);
    }

    /** The `actions` list: every state's row in state order. */
    method RenderAllRows(rows: seq<seq<TableAction>>) returns (r: Result<seq<seq<int>>, RenderError>)
      modifies this
      ensures (r, Cases(cache, list)) == RenderRows(Cases(old(cache), old(list)), tag, rows)
    {
      var c0 := Cases(cache, list);
      var out: seq<seq<int>> := [];
      var i := 0;
      while i < |rows|
        invariant 0 <= i <= |rows|
        invariant RenderRows(c0, tag, rows[..i]) == (Success(out), Cases(cache, list))
      {
        assert rows[..i + 1][..i] == rows[..i];
        var x := RenderRow(rows[i]);
        if x.Failure? {
          r := Failure(x.error);
          RenderRowsStop(c0, tag, rows, i + 1);
          return;
        }
        out := out + [x.value];
        i := i + 1;
      }
      assert rows[..i] == rows;
      r := Success(out);
    }
  }

  // *** Reduce expressions (`compile_reduce_expr`) ******************************

  /** An expression of a `reductions` lambda: a `builder` method call,
      `None`, or the lambda's parameter `x{index}`. */
  datatype PyExpr = PyCall(name: string, args: seq<PyExpr>) | PyNone | PyParam(index: int)

  /** `compile_reduce_expr` asserts that `'accept'` never reaches it. */
  datatype ReductionError = AcceptInReduction

  /** The Python name of a builder method: each space becomes `_P`. */
  function PyMethodName(m: string): (r: string)
    ensures ' ' !in r
  {
    Replace(m, ' ', "_P")
  }

  /** `compile_reduce_expr` as a tree: `Some(e)` compiles as `e`, `None` as
      `None`, an element number `i` as `x{i}`, a call as a builder call. */
  function Lower(e: ReduceExpr): Result<PyExpr, ReductionError>
    decreases e
  {
    match e
    case Ref(i) => Success(PyParam(i))
    case CallMethod(m, args) =>
      var r := LowerArgs(args);
      if r.Failure? then Failure(r.error) else Success(PyCall(PyMethodName(m), r.value))
    case NoneValue => Success(PyNone)
    case SomeValue(inner) => Lower(inner)
    case Accept => Failure(AcceptInReduction)
  }

  function LowerArgs(args: seq<ReduceExpr>): Result<seq<PyExpr>, ReductionError>
    decreases args
  {
    if |args| == 0 then Success([])
    else
      var done := LowerArgs(args[..|args| - 1]);
      var last := Lower(args[|args| - 1]);
      if done.Failure? then done
      else if last.Failure? then Failure(last.error)
      else Success(done.value + [last.value])
  }

  /** The Python text of an expression. */
  function RenderExpr(p: PyExpr): string
    decreases p
  {
    match p
    case PyCall(m, args) =>
      "builder." + m + "(" + Join(seq(|args|, k requires 0 <= k < |args| => RenderExpr(args[k])), ", ") + ")"
    case PyNone => "None"
    case PyParam(i) => "x" + IntToString(i)
  }

  /** `compile_reduce_expr`. */
  function CompileReduceExpr(e: ReduceExpr): Result<string, ReductionError> {
    var p := Lower(e);
    if p.Failure? then Failure(p.error) else Success(RenderExpr(p.value))
  }

  /** The parameters an expression reads. */
  function Params(p: PyExpr): set<int>
    decreases p
  {
    match p
    case PyCall(_, args) => UnionAll(seq(|args|, k requires 0 <= k < |args| => Params(args[k])))
    case PyNone => {}
    case PyParam(i) => {i}
  }

  /** The builder methods an expression calls. */
  function Calls(p: PyExpr): set<string>
    decreases p
  {
    match p
    case PyCall(m, args) => {m} + UnionAll(seq(|args|, k requires 0 <= k < |args| => Calls(args[k])))
    case PyNone => {}
    case PyParam(_) => {}
  }

  /** The arguments compile one by one: success exactly when each argument
      compiles, and then argument k compiles to output k. */
  lemma {:induction false} LowerArgsPointwise(args: seq<ReduceExpr>)
    ensures LowerArgs(args).Success? <==> forall k :: 0 <= k < |args| ==> Lower(args[k]).Success?
    ensures LowerArgs(args).Success? ==>
      |LowerArgs(args).value| == |args| &&
      forall k :: 0 <= k < |args| ==> Lower(args[k]) == Success(LowerArgs(args).value[k])
    decreases |args|
  {
    if |args| > 0 {
      var init := args[..|args| - 1];
      LowerArgsPointwise(init);
      assert forall k :: 0 <= k < |init| ==> init[k] == args[k];
    }
  }

  /** Compilation fails exactly when `'accept'` occurs in the expression. */
  lemma {:induction false} LowerFails(e: ReduceExpr)
    ensures Lower(e).Failure? <==> HasAccept(e)
    decreases e
  {
    match e
    case CallMethod(m, args) =>
      LowerArgsPointwise(args);
      forall k | 0 <= k < |args| ensures Lower(args[k]).Failure? <==> HasAccept(args[k]) {
        LowerFails(args[k]);
      }
    case SomeValue(inner) => LowerFails(inner);
    case _ =>
  }

  /** Two sequences of sets that agree pointwise have the same union. */
  lemma UnionAllPointwise<T(!new)>(a: seq<set<T>>, b: seq<set<T>>)
    requires |a| == |b| && forall k :: 0 <= k < |a| ==> a[k] == b[k]
    ensures UnionAll(a) == UnionAll(b)
  {
    assert a == b;
  }

  /** A compiled expression reads exactly the element numbers the reduce
      expression reads, and calls exactly the methods it calls, each under
      its Python name. */
  lemma {:induction false} LowerPreserves(e: ReduceExpr)
    requires Lower(e).Success?
    ensures Params(Lower(e).value) == Refs(e)
    ensures Calls(Lower(e).value) == set m | m in MethodNames(e) :: PyMethodName(m)
    decreases e
  {
    match e
    case CallMethod(m, args) =>
      LowerArgsPointwise(args);
      var out := LowerArgs(args).value;
      forall k | 0 <= k < |args|
        ensures Params(out[k]) == Refs(args[k])
        ensures Calls(out[k]) == set n | n in MethodNames(args[k]) :: PyMethodName(n)
      {
        LowerPreserves(args[k]);
      }
      var p := Lower(e).value;
      assert p == PyCall(PyMethodName(m), out);
      UnionAllPointwise(seq(|out|, k requires 0 <= k < |out| => Params(out[k])),
                        seq(|args|, k requires 0 <= k < |args| => Refs(args[k])));
      var names := seq(|args|, k requires 0 <= k < |args| => MethodNames(args[k]));
      var calls := seq(|out|, k requires 0 <= k < |out| => Calls(out[k]));
      assert Calls(p) == {PyMethodName(m)} + UnionAll(calls);
      assert MethodNames(e) == {m} + UnionAll(names);
      forall c | c in Calls(p) ensures c in set n | n in MethodNames(e) :: PyMethodName(n) {
        if c != PyMethodName(m) {
          var k :| 0 <= k < |out| && c in calls[k];
          var n :| n in MethodNames(args[k]) && c == PyMethodName(n);
          assert n in names[k];
        }
      }
      forall n | n in MethodNames(e) ensures PyMethodName(n) in Calls(p) {
        if n != m {
          var k :| 0 <= k < |args| && n in names[k];
          assert PyMethodName(n) in calls[k];
        }
      }
    case SomeValue(inner) => LowerPreserves(inner);
    case Ref(_) =>
    case NoneValue =>
  }

  /** `e` with every `Some` wrapper removed. */
  function Erase(e: ReduceExpr): (r: ReduceExpr)
    ensures !r.SomeValue?
    decreases e
  {
    match e
    case CallMethod(m, args) => CallMethod(m, seq(|args|, k requires 0 <= k < |args| => Erase(args[k])))
    case SomeValue(inner) => Erase(inner)
    case _ => e
  }

  /** `Some` is invisible in the generated Python: an expression compiles
      exactly as its erasure does. */
  lemma {:induction false} LowerErase(e: ReduceExpr)
    ensures Lower(Erase(e)) == Lower(e)
    decreases e
  {
    match e
    case CallMethod(m, args) =>
      var erased := seq(|args|, k requires 0 <= k < |args| => Erase(args[k]));
      forall k | 0 <= k < |args| ensures Lower(erased[k]) == Lower(args[k]) {
        LowerErase(args[k]);
      }
      LowerArgsPointwise(args);
      LowerArgsPointwise(erased);
      if LowerArgs(args).Success? {
        assert LowerArgs(erased).value == LowerArgs(args).value;
      } else {
        var k :| 0 <= k < |args| && Lower(args[k]).Failure?;
        assert Lower(erased[k]).Failure?;
        assert LowerArgs(erased).Failure? && LowerArgs(args).Failure?;
        assert LowerArgs(erased).error == AcceptInReduction == LowerArgs(args).error;
      }
    case SomeValue(inner) => LowerErase(inner);
    case _ =>
  }

  // *** `reductions` *********************************************************

  /** A production of the parser states: its nonterminal, body and reducer. */
  datatype Prod = Prod(nt: Nt, rhs: seq<Element>, reducer: ReduceExpr)

  /** One entry of `reductions`: the production it reduces, the printed
      nonterminal, the lambda's parameters and its body. */
  datatype Reduction = Reduction(prodIndex: nat, nt: string, params: seq<string>, body: PyExpr)

  /** `["x" + str(i) for i in range(n)]`. */
  function ParamNames(n: nat): (r: seq<string>)
    ensures |r| == n && forall i :: 0 <= i < n ==> r[i] == "x" + NatToString(i)
  {
    seq(n, i requires 0 <= i < n => "x" + NatToString(i))
  }

  /** The lambda's parameters are Python identifiers, no two alike. */
  lemma ParamNamesValid(n: nat)
    ensures forall i :: 0 <= i < n ==> IsIdentifier(ParamNames(n)[i])
    ensures forall i, j :: 0 <= i < j < n ==> ParamNames(n)[i] != ParamNames(n)[j]
  {
    var r := ParamNames(n);
    forall i | 0 <= i < n
      ensures IsIdentifier(r[i])
    {
      var d := NatToString(i);
      assert r[i] == "x" + d;
      forall k | 1 <= k < |r[i]|
        ensures IsIdentChar(r[i][k])
      {
        assert r[i][k] == d[k - 1];
        assert IsDigit(d[k - 1]);
      }
    }
    forall i, j | 0 <= i < j < n
      ensures r[i] != r[j]
    {
      if r[i] == r[j] {
        assert r[i][1..] == NatToString(i);
        assert r[j][1..] == NatToString(j);
        NatToStringInjective(i, j);
      }
    }
  }

  predicate IsInitProd(p: Prod) {
    p.nt.name.InitName?
  }

  /** The `reductions` loop: init productions are skipped; every other
      production gets one parameter per concrete body element. */
  function Reductions(prods: seq<Prod>): Result<seq<Reduction>, ReductionError> {
    if |prods| == 0 then Success([])
    else
      var done := Reductions(prods[..|prods| - 1]);
      var p := prods[|prods| - 1];
      if done.Failure? || IsInitProd(p) then done
      else
        var body := Lower(p.reducer);
        if body.Failure? then Failure(body.error)
        else Success(done.value + [Reduction(|prods| - 1, Pretty(p.nt), ParamNames(ConcreteCount(p.rhs)), body.value)])
  }

  /** `r` is the entry `reductions` writes for production `i`. */
  predicate ReductionOf(prods: seq<Prod>, r: Reduction) {
    r.prodIndex < |prods| && !IsInitProd(prods[r.prodIndex]) &&
    r.nt == Pretty(prods[r.prodIndex].nt) &&
    r.params == ParamNames(ConcreteCount(prods[r.prodIndex].rhs)) &&
    Lower(prods[r.prodIndex].reducer) == Success(r.body)
  }

  /** Every entry is the entry of its production, and the entries follow
      the productions' order without repeats. */
  lemma {:induction false} ReductionsSound(prods: seq<Prod>)
    requires Reductions(prods).Success?
    ensures forall k :: 0 <= k < |Reductions(prods).value| ==> ReductionOf(prods, Reductions(prods).value[k])
    ensures forall k, l :: 0 <= k < l < |Reductions(prods).value| ==>
      Reductions(prods).value[k].prodIndex < Reductions(prods).value[l].prodIndex
    decreases |prods|
  {
    if |prods| > 0 {
      var init := prods[..|prods| - 1];
      ReductionsSound(init);
      var done := Reductions(init).value;
      var out := Reductions(prods).value;
      assert out[..|done|] == done;
      forall k | 0 <= k < |done| ensures ReductionOf(prods, out[k]) {
        assert out[k] == done[k] && init[done[k].prodIndex] == prods[done[k].prodIndex];
      }
    }
  }

  /** Every production that is not an init production has an entry. */
  lemma {:induction false} ReductionsComplete(prods: seq<Prod>)
    requires Reductions(prods).Success?
    ensures forall i :: 0 <= i < |prods| && !IsInitProd(prods[i]) ==>
      exists k :: 0 <= k < |Reductions(prods).value| && Reductions(prods).value[k].prodIndex == i
    decreases |prods|
  {
    if |prods| > 0 {
      var init := prods[..|prods| - 1];
      ReductionsComplete(init);
      var done := Reductions(init).value;
      var out := Reductions(prods).value;
      assert out[..|done|] == done;
      forall i | 0 <= i < |prods| && !IsInitProd(prods[i])
        ensures exists k :: 0 <= k < |out| && out[k].prodIndex == i
      {
        if i < |init| {
          assert init[i] == prods[i];
          var k :| 0 <= k < |done| && done[k].prodIndex == i;
          assert out[k] == done[k];
        } else {
          assert out[|out| - 1].prodIndex == i;
        }
      }
    }
  }

  /** `reductions` fails exactly when the reducer of some production that is
      not an init production contains `'accept'`. */
  lemma {:induction false} ReductionsFail(prods: seq<Prod>)
    ensures Reductions(prods).Failure? <==>
      exists i :: 0 <= i < |prods| && !IsInitProd(prods[i]) && HasAccept(prods[i].reducer)
    decreases |prods|
  {
    if |prods| > 0 {
      var init := prods[..|prods| - 1];
      ReductionsFail(init);
      LowerFails(prods[|prods| - 1].reducer);
      assert forall i :: 0 <= i < |init| ==> init[i] == prods[i];
    }
  }

  /** The entry of a production whose reducer passed `check_reduce_action`
      reads only its own parameters. */
  lemma ReductionClosed(prods: seq<Prod>, r: Reduction)
    requires ReductionOf(prods, r)
    requires ExprWellFormed(prods[r.prodIndex].reducer, ConcreteCount(prods[r.prodIndex].rhs))
    ensures forall x :: x in Params(r.body) ==> 0 <= x < |r.params| && r.params[x] == "x" + IntToString(x)
  {
    LowerPreserves(prods[r.prodIndex].reducer);
  }

  /** When every reducer passed `check_reduce_action`, `reductions` is
      written and each lambda reads only its own parameters. */
  lemma ReductionsClosed(prods: seq<Prod>)
    requires forall i :: 0 <= i < |prods| && !IsInitProd(prods[i]) ==>
      ExprWellFormed(prods[i].reducer, ConcreteCount(prods[i].rhs))
    ensures Reductions(prods).Success?
    ensures forall k, x :: 0 <= k < |Reductions(prods).value| && x in Params(Reductions(prods).value[k].body) ==>
      0 <= x < |Reductions(prods).value[k].params| &&
      Reductions(prods).value[k].params[x] == "x" + IntToString(x)
  {
    ReductionsFail(prods);
    ReductionsSound(prods);
    var out := Reductions(prods).value;
    forall k | 0 <= k < |out|
      ensures forall x :: x in Params(out[k].body) ==> 0 <= x < |out[k].params| && out[k].params[x] == "x" + IntToString(x)
    {
      ReductionClosed(prods, out[k]);
    }
  }

  /** The `reductions` loop. */
  method WriteReductions(prods: seq<Prod>) returns (r: Result<seq<Reduction>, ReductionError>)
    ensures r == Reductions(prods)
  {
    var out: seq<Reduction> := [];
    for i := 0 to |prods|
      invariant Reductions(prods[..i]) == Success(out)
    {
      assert prods[..i + 1][..i] == prods[..i];
      var p := prods[i];
      if IsInitProd(p) {
        continue;
      }
      var body := Lower(p.reducer);
      if body.Failure? {
        r := Failure(body.error);
        ReductionsStop(prods, i + 1);
        return;
      }
      out := out + [Reduction(i, Pretty(p.nt), ParamNames(ConcreteCount(p.rhs)), body.value)];
    }
    assert prods[..|prods|] == prods;
    r := Success(out);
  }

  lemma {:induction false} ReductionsStop(prods: seq<Prod>, i: nat)
    requires i <= |prods| && Reductions(prods[..i]).Failure?
    ensures Reductions(prods) == Reductions(prods[..i])
    decreases |prods| - i
  {
    if i < |prods| {
      assert prods[..i + 1][..i] == prods[..i];
      ReductionsStop(prods, i + 1);
    } else {
      assert prods[..i] == prods;
    }
  }

  // *** `error_codes` ********************************************************

  const SliceLen: nat := 16

  function Flatten<T>(rows: seq<seq<T>>): seq<T> {
    if |rows| == 0 then [] else Flatten(rows[..|rows| - 1]) + rows[|rows| - 1]
  }

  /** The `error_codes` rows: the states' error codes in slices of 16. Read
      row by row they list every state once, in order; every row but the
      last holds 16 codes and none is empty or longer. */
  method ErrorCodeRows<T>(codes: seq<T>) returns (rows: seq<seq<T>>)
    ensures Flatten(rows) == codes
    ensures |rows| == (|codes| + SliceLen - 1) / SliceLen
    ensures forall k :: 0 <= k < |rows| ==> 0 < |rows[k]| <= SliceLen
    ensures forall k :: 0 <= k < |rows| - 1 ==> |rows[k]| == SliceLen
  {
    rows := [];
    var i := 0;
    while i < |codes|
      invariant i == SliceLen * |rows| && i < |codes| + SliceLen
      invariant Flatten(rows) == codes[..if i < |codes| then i else |codes|]
      invariant forall k :: 0 <= k < |rows| ==> 0 < |rows[k]| <= SliceLen
      invariant i <= |codes| ==> forall k :: 0 <= k < |rows| ==> |rows[k]| == SliceLen
      invariant forall k :: 0 <= k < |rows| - 1 ==> |rows[k]| == SliceLen
    {
      var end := if i + SliceLen < |codes| then i + SliceLen else |codes|;
      var slice := codes[i..end];
      assert codes[..end] == codes[..i] + slice;
      rows := rows + [slice];
      i := i + SliceLen;
    }
    assert codes[..|codes|] == codes;
  }

  // *** `write_action` *********************************************************

  /** An argument of a `FunCall`: an element offset, a variable name, `Some`
      of either, `None`, or something else. */
  datatype FunArg = IndexArg(i: int) | NameArg(s: string) | SomeIndexArg(i: int) | SomeNameArg(s: string) | NoneArg | OtherArg

  /** The actions `write_action` receives; `Seq` runs its actions in order.
      Flags and values are kept as the text they are formatted to. */
  datatype PyAction =
    | Reduce(nt: string, replay: nat, pop: nat)
    | LookaheadAction
    | CheckNotOnNewLine(offset: int)
    | FilterFlag(flag: string, value: string)
    | PushFlag(flag: string, value: string)
    | PopFlag(flag: string)
    | FunCall(callee: string, args: seq<FunArg>, setTo: string, offset: int)
    | Seq(actions: seq<PyAction>)
    | OtherAction

  /** What a written line does. */
  datatype Stmt =
    | StartReplay(nt: string)
    | ReplayTop(n: nat)
    | DropTop(n: nat)
    | ShiftReplay
    | IfSawLineTerminator
    | RaiseShiftError
    | IfFlag(flag: string, value: string)
    | PushFlagStmt(flag: string, value: string)
    | PopFlagStmt(flag: string)
    | AssignValue(target: string, value: string)
    | RaiseAccept
    | AssignCall(target: string, callee: string, args: seq<string>)
    | PushState(dest: int)
    | ReturnStmt

  /** One `out.write`: the indentation and the statement, ended by a newline
      (`Line`) or not (`Fragment`, whose text the next write continues on the
      same line of output). */
  datatype Line = Line(indent: string, stmt: Stmt) | Fragment(indent: string, stmt: Stmt)

  /** What `write_python_parse_table` has produced so far: the lines of
      `out` and the `methods` set. */
  datatype Out = Out(lines: seq<Line>, methods: set<PyAction>)

  datatype WriteError = UnexpectedLookahead | BadArgument(arg: FunArg) | ArityAssertion(callee: string) | UnknownActionType

  /** The output after a call, and its result: the indentation for what
      follows and whether the caller still pushes the destination state. */
  datatype Step = Step(out: Out, result: Result<(string, bool), WriteError>)

  const Indent: string := "    "

  /** `map_with_offset` on one argument. */
  function ArgText(a: FunArg, offset: int): Result<string, WriteError> {
    match a
    case IndexArg(i) => Success("parser.stack[" + IntToString(-(i + offset)) + "].value")
    case NameArg(s) => Success(s)
    case SomeIndexArg(i) => Success("parser.stack[" + IntToString(-(i + offset)) + "].value")
    case SomeNameArg(s) => Success("Some(" + s + ")")
    case NoneArg => Success("None")
    case OtherArg => Failure(BadArgument(a))
  }

  function ArgTexts(args: seq<FunArg>, offset: int): Result<seq<string>, WriteError> {
    if |args| == 0 then Success([])
    else
      var done := ArgTexts(args[..|args| - 1], offset);
      var last := ArgText(args[|args| - 1], offset);
      if done.Failure? then done
      else if last.Failure? then Failure(last.error)
      else Success(done.value + [last.value])
  }

  /** The lines of a `Reduce`: build the replay list, move `replay` values
      into it, drop `replay + pop` values, and shift the list. */
  function ReduceLines(indent: string, nt: string, replay: nat, pop: nat): seq<Line> {
    [Line(indent, StartReplay(nt))] +
    (if replay > 0 then [Line(indent, ReplayTop(replay))] else []) +
    (if replay + pop > 0 then [Line(indent, DropTop(replay + pop))] else []) +
    [Line(indent, ShiftReplay)]
  }

  /** `write_action(act, indent)`. */
  function Write(o: Out, act: PyAction, indent: string): Step
    decreases act, 1
  {
    match act
    case Reduce(nt, replay, pop) =>
      Step(Out(o.lines + ReduceLines(indent, nt, replay, pop), o.methods), Success((indent, false)))
    case LookaheadAction => Step(o, Failure(UnexpectedLookahead))
    case CheckNotOnNewLine(offset) =>
      var lines := if offset == -1 then [Fragment(indent, IfSawLineTerminator), Fragment(indent + Indent, RaiseShiftError)] else [];
      Step(Out(o.lines + lines, o.methods), Success((indent + Indent, true)))
    case FilterFlag(flag, value) =>
      Step(Out(o.lines + [Line(indent, IfFlag(flag, value))], o.methods), Success((indent + Indent, true)))
    case PushFlag(flag, value) =>
      Step(Out(o.lines + [Line(indent, PushFlagStmt(flag, value))], o.methods), Success((indent, true)))
    case PopFlag(flag) =>
      Step(Out(o.lines + [Line(indent, PopFlagStmt(flag))], o.methods), Success((indent, true)))
    case FunCall(callee, args, setTo, offset) =>
      if callee == "id" then
        if |args| != 1 then Step(o, Failure(ArityAssertion(callee)))
        else
          var a := ArgText(args[0], offset);
          if a.Failure? then Step(o, Failure(a.error))
          else Step(Out(o.lines + [Line(indent, AssignValue(setTo, a.value))], o.methods), Success((indent, true)))
      else if callee == "accept" then
        if |args| != 0 then Step(o, Failure(ArityAssertion(callee)))
        else Step(Out(o.lines + [Line(indent, RaiseAccept)], o.methods), Success((indent, true)))
      else
        var methods := o.methods + {act};
        var texts := ArgTexts(args, offset);
        if texts.Failure? then Step(Out(o.lines, methods), Failure(texts.error))
        else Step(Out(o.lines + [Line(indent, AssignCall(setTo, callee, texts.value))], methods), Success((indent, true)))
    case Seq(actions) => WriteSeq(o, actions, indent, true)
    case OtherAction => Step(o, Failure(UnknownActionType))
  }

  /** The `Seq` loop: `indent` and `res` are threaded through the actions in
      order; `res` starts as `True`. */
  function WriteSeq(o: Out, actions: seq<PyAction>, indent: string, res: bool): Step
    decreases actions, 0
  {
    if |actions| == 0 then Step(o, Success((indent, res)))
    else
      var s := Write(o, actions[0], indent);
      if s.result.Failure? then s
      else WriteSeq(s.out, actions[1..], s.result.value.0, s.result.value.1)
  }

  /** The actions a `Seq` tree runs, in order: nested non-empty `Seq`s are
      opened; an empty `Seq` stays, since it resets the flag to `True`. */
  function Leaves(act: PyAction): (ls: seq<PyAction>)
    ensures |ls| > 0
    decreases act, 1
  {
    if act.Seq? && |act.actions| > 0 then LeavesSeq(act.actions) else [act]
  }

  function LeavesSeq(actions: seq<PyAction>): (ls: seq<PyAction>)
    ensures |actions| > 0 ==> |ls| > 0
    decreases actions, 0
  {
    if |actions| == 0 then [] else Leaves(actions[0]) + LeavesSeq(actions[1..])
  }

  predicate IsLeaf(a: PyAction) {
    !(a.Seq? && |a.actions| > 0)
  }

  lemma {:induction false} LeavesAreLeaves(act: PyAction)
    ensures forall k :: 0 <= k < |Leaves(act)| ==> IsLeaf(Leaves(act)[k])
    decreases act, 1
  {
    if act.Seq? && |act.actions| > 0 {
      LeavesSeqAreLeaves(act.actions);
    }
  }

  lemma {:induction false} LeavesSeqAreLeaves(actions: seq<PyAction>)
    ensures forall k :: 0 <= k < |LeavesSeq(actions)| ==> IsLeaf(LeavesSeq(actions)[k])
    decreases actions, 0
  {
    if |actions| > 0 {
      LeavesAreLeaves(actions[0]);
      LeavesSeqAreLeaves(actions[1..]);
      var a := Leaves(actions[0]);
      var b := LeavesSeq(actions[1..]);
      assert forall k :: 0 <= k < |a + b| ==> (a + b)[k] == if k < |a| then a[k] else b[k - |a|];
    }
  }

  /** Writing `a + b` is writing `a`, then `b` from where `a` left off. */
  lemma {:induction false} WriteSeqAppend(o: Out, a: seq<PyAction>, b: seq<PyAction>, indent: string, res: bool)
    ensures WriteSeq(o, a + b, indent, res) ==
      var t := WriteSeq(o, a, indent, res);
      if t.result.Failure? then t else WriteSeq(t.out, b, t.result.value.0, t.result.value.1)
    decreases |a|
  {
    if |a| == 0 {
      assert a + b == b;
    } else {
      assert (a + b)[0] == a[0] && (a + b)[1..] == a[1..] + b;
      var s := Write(o, a[0], indent);
      if s.result.Success? {
        WriteSeqAppend(s.out, a[1..], b, s.result.value.0, s.result.value.1);
      }
    }
  }

  /** The initial flag only matters when there is nothing to write. */
  lemma WriteSeqRes(o: Out, a: seq<PyAction>, indent: string, r1: bool, r2: bool)
    requires |a| > 0
    ensures WriteSeq(o, a, indent, r1) == WriteSeq(o, a, indent, r2)
  {
  }

  /** `Seq` only threads: writing an action is writing its leaves one after
      another, each from the indentation the previous one returned. */
  lemma {:induction false} WriteFlattens(o: Out, act: PyAction, indent: string)
    ensures Write(o, act, indent) == WriteSeq(o, Leaves(act), indent, true)
    decreases act, 1
  {
    if act.Seq? && |act.actions| > 0 {
      WriteSeqFlattens(o, act.actions, indent, true);
    }
  }

  lemma {:induction false} WriteSeqFlattens(o: Out, actions: seq<PyAction>, indent: string, res: bool)
    ensures WriteSeq(o, actions, indent, res) == WriteSeq(o, LeavesSeq(actions), indent, res)
    decreases actions, 0
  {
    if |actions| > 0 {
      var a := Leaves(actions[0]);
      var b := LeavesSeq(actions[1..]);
      WriteFlattens(o, actions[0], indent);
      WriteSeqRes(o, a, indent, true, res);
      WriteSeqAppend(o, a, b, indent, res);
      var s := Write(o, actions[0], indent);
      if s.result.Success? {
        WriteSeqFlattens(s.out, actions[1..], s.result.value.0, s.result.value.1);
      }
    }
  }

  /** A leaf `write_action` can write without raising. */
  predicate LeafOk(a: PyAction) {
    match a
    case LookaheadAction => false
    case OtherAction => false
    case FunCall(callee, args, _, offset) =>
      if callee == "id" then |args| == 1 && ArgText(args[0], offset).Success?
      else if callee == "accept" then |args| == 0
      else forall k :: 0 <= k < |args| ==> ArgText(args[k], offset).Success?
    case _ => true
  }

  /** A leaf that opens a block: its successors are indented one level. */
  predicate Opens(a: PyAction) {
    a.CheckNotOnNewLine? || a.FilterFlag?
  }

  /** A call `write_action` records in `methods`. */
  predicate IsBuilderCall(a: PyAction) {
    a.FunCall? && a.callee != "id" && a.callee != "accept"
  }

  function OpenCount(leaves: seq<PyAction>): nat {
    if |leaves| == 0 then 0 else (if Opens(leaves[0]) then 1 else 0) + OpenCount(leaves[1..])
  }

  function Indents(n: nat): string {
    if n == 0 then "" else Indent + Indents(n - 1)
  }

  lemma {:induction false} ArgTextsOk(args: seq<FunArg>, offset: int)
    ensures ArgTexts(args, offset).Success? <==> forall k :: 0 <= k < |args| ==> ArgText(args[k], offset).Success?
    decreases |args|
  {
    if |args| > 0 {
      var init := args[..|args| - 1];
      ArgTextsOk(init, offset);
      assert forall k :: 0 <= k < |init| ==> init[k] == args[k];
    }
  }

  /** One leaf: it writes exactly when `LeafOk`; then it returns the
      indentation one level deeper exactly when it opens a block, the flag
      `False` exactly for a `Reduce`, and records itself exactly when it is
      a builder call; every line it writes is indented at least `indent`. */
  lemma LeafStep(o: Out, a: PyAction, indent: string)
    requires IsLeaf(a)
    ensures Write(o, a, indent).result.Success? <==> LeafOk(a)
    ensures Write(o, a, indent).result.Success? ==>
      Write(o, a, indent).result.value.0 == indent + (if Opens(a) then Indent else "") &&
      Write(o, a, indent).result.value.1 == !a.Reduce? &&
      Write(o, a, indent).out.methods == o.methods + (if IsBuilderCall(a) then {a} else {})
    ensures o.lines <= Write(o, a, indent).out.lines
    ensures forall k :: |o.lines| <= k < |Write(o, a, indent).out.lines| ==> indent <= Write(o, a, indent).out.lines[k].indent
  {
    if a.FunCall? {
      ArgTextsOk(a.args, a.offset);
    }
  }

  /** A leaf leaves its output unterminated exactly when it is the
      `CheckNotOnNewLine(-1)` check: both of its writes lack the newline, and
      every other leaf writes complete lines. */
  lemma LeafFragments(o: Out, a: PyAction, indent: string)
    requires IsLeaf(a) && Write(o, a, indent).result.Success?
    ensures var out := Write(o, a, indent).out.lines;
      o.lines <= out &&
      (a == CheckNotOnNewLine(-1) ==> out[|o.lines|..] == [Fragment(indent, IfSawLineTerminator), Fragment(indent + Indent, RaiseShiftError)]) &&
      (a != CheckNotOnNewLine(-1) ==> forall k :: |o.lines| <= k < |out| ==> out[k].Line?)
  {
  }

  /** Over a run of leaves: it writes exactly when every leaf is `LeafOk`;
      the final indentation is one level per block-opening leaf; the flag is
      that of the last leaf (`False` only after a `Reduce`), or the initial
      one when there is none; `methods` gains exactly the builder calls. */
  lemma {:induction false} WriteLeavesSummary(o: Out, leaves: seq<PyAction>, indent: string, res: bool)
    requires forall k :: 0 <= k < |leaves| ==> IsLeaf(leaves[k])
    ensures WriteSeq(o, leaves, indent, res).result.Success? <==> forall k :: 0 <= k < |leaves| ==> LeafOk(leaves[k])
    ensures WriteSeq(o, leaves, indent, res).result.Success? ==>
      WriteSeq(o, leaves, indent, res).result.value.0 == indent + Indents(OpenCount(leaves)) &&
      WriteSeq(o, leaves, indent, res).result.value.1 == (if |leaves| == 0 then res else !leaves[|leaves| - 1].Reduce?) &&
      WriteSeq(o, leaves, indent, res).out.methods ==
        o.methods + set k | 0 <= k < |leaves| && IsBuilderCall(leaves[k]) :: leaves[k]
    decreases |leaves|
  {
    if |leaves| > 0 {
      var a := leaves[0];
      var rest := leaves[1..];
      LeafStep(o, a, indent);
      var s := Write(o, a, indent);
      assert forall k :: 0 <= k < |rest| ==> rest[k] == leaves[k + 1];
      if s.result.Success? {
        var ind := s.result.value.0;
        WriteLeavesSummary(s.out, rest, ind, s.result.value.1);
        var calls := set k | 0 <= k < |leaves| && IsBuilderCall(leaves[k]) :: leaves[k];
        var later := set k | 0 <= k < |rest| && IsBuilderCall(rest[k]) :: rest[k];
        assert calls == (if IsBuilderCall(a) then {a} else {}) + later by {
          forall x | x in calls ensures x in (if IsBuilderCall(a) then {a} else {}) + later {
            var k :| 0 <= k < |leaves| && IsBuilderCall(leaves[k]) && x == leaves[k];
            if k > 0 {
              assert x == rest[k - 1];
            }
          }
          forall x | x in later ensures x in calls {
            var k :| 0 <= k < |rest| && IsBuilderCall(rest[k]) && x == rest[k];
            assert x == leaves[k + 1];
          }
        }
        if |rest| > 0 {
          assert leaves[|leaves| - 1] == rest[|rest| - 1];
        }
      }
    }
  }

  /** Every line written is indented at least as deep as the indentation
      the call started from, and nothing already written changes. */
  lemma {:induction false} WriteLeavesLines(o: Out, leaves: seq<PyAction>, indent: string, res: bool)
    requires forall k :: 0 <= k < |leaves| ==> IsLeaf(leaves[k])
    ensures o.lines <= WriteSeq(o, leaves, indent, res).out.lines
    ensures forall k :: |o.lines| <= k < |WriteSeq(o, leaves, indent, res).out.lines| ==>
      indent <= WriteSeq(o, leaves, indent, res).out.lines[k].indent
    decreases |leaves|
  {
    if |leaves| > 0 {
      var a := leaves[0];
      LeafStep(o, a, indent);
      var s := Write(o, a, indent);
      if s.result.Success? {
        var ind := s.result.value.0;
        assert forall k :: 0 <= k < |leaves[1..]| ==> leaves[1..][k] == leaves[k + 1];
        WriteLeavesLines(s.out, leaves[1..], ind, s.result.value.1);
        assert indent <= ind;
      }
    }
  }

  /** `write_action` on any action, stated through its leaves. */
  lemma WriteSummary(o: Out, act: PyAction, indent: string)
    ensures Write(o, act, indent).result.Success? <==> forall k :: 0 <= k < |Leaves(act)| ==> LeafOk(Leaves(act)[k])
    ensures Write(o, act, indent).result.Success? ==>
      Write(o, act, indent).result.value.0 == indent + Indents(OpenCount(Leaves(act))) &&
      Write(o, act, indent).result.value.1 == !Leaves(act)[|Leaves(act)| - 1].Reduce? &&
      Write(o, act, indent).out.methods ==
        o.methods + set k | 0 <= k < |Leaves(act)| && IsBuilderCall(Leaves(act)[k]) :: Leaves(act)[k]
    ensures o.lines <= Write(o, act, indent).out.lines
    ensures forall k :: |o.lines| <= k < |Write(o, act, indent).out.lines| ==> indent <= Write(o, act, indent).out.lines[k].indent
  {
    WriteFlattens(o, act, indent);
    LeavesAreLeaves(act);
    WriteLeavesSummary(o, Leaves(act), indent, true);
    WriteLeavesLines(o, Leaves(act), indent, true);
  }

  /** The code of one edge of a state: the action at one level of
      indentation, then the push of the destination state when the action
      asks for it, then `return`. */
  function WriteEdge(o: Out, act: PyAction, dest: int): Result<Out, WriteError> {
    var s := Write(o, act, Indent);
    if s.result.Failure? then Failure(s.result.error)
    else
      var (indent, push) := s.result.value;
      Success(Out(s.out.lines + (if push then [Line(indent, PushState(dest))] else []) + [Line(indent, ReturnStmt)], s.out.methods))
  }

  /** An edge writes its action's lines, then, at the indentation of one
      level plus one per block-opening leaf, the push of its destination
      exactly when the last leaf is not a `Reduce`, then `return`. */
  lemma WriteEdgeEnds(o: Out, act: PyAction, dest: int)
    requires WriteEdge(o, act, dest).Success?
    ensures var ind := Indent + Indents(OpenCount(Leaves(act)));
      WriteEdge(o, act, dest).value.lines ==
        Write(o, act, Indent).out.lines +
        (if !Leaves(act)[|Leaves(act)| - 1].Reduce? then [Line(ind, PushState(dest))] else []) +
        [Line(ind, ReturnStmt)]
  {
    WriteSummary(o, act, Indent);
  }

  /** The `methods` set and the lines of `out`, which `write_action`
      changes. */
  class ActionWriter {
    var lines: seq<Line>
    var methods: set<PyAction>

    constructor ()
      ensures lines == [] && methods == {}
    {
      lines := [];
      methods := {};
    }

    /** `write_action`. */
    method WriteAction(act: PyAction, indent: string) returns (r: Result<(string, bool), WriteError>)
      modifies this
      ensures Step(Out(lines, methods), r) == Write(Out(old(lines), old(methods)), act, indent)
      decreases act
    {
      match act
      case Reduce(nt, replay, pop) =>
        lines := lines + ReduceLines(indent, nt, replay, pop);
        r := Success((indent, false));
      case LookaheadAction =>
        r := Failure(UnexpectedLookahead);
      case CheckNotOnNewLine(offset) =>
        if offset == -1 {
          lines := lines + [Fragment(indent, IfSawLineTerminator), Fragment(indent + Indent, RaiseShiftError)];
        }
        r := Success((indent + Indent, true));
      case FilterFlag(flag, value) =>
        lines := lines + [Line(indent, IfFlag(flag, value))];
        r := Success((indent + Indent, true));
      case PushFlag(flag, value) =>
        lines := lines + [Line(indent, PushFlagStmt(flag, value))];
        r := Success((indent, true));
      case PopFlag(flag) =>
        lines := lines + [Line(indent, PopFlagStmt(flag))];
        r := Success((indent, true));
      case FunCall(callee, args, setTo, offset) =>
        if callee == "id" {
          if |args| != 1 {
            return Failure(ArityAssertion(callee));
          }
          var a := ArgText(args[0], offset);
          if a.Failure? {
            return Failure(a.error);
          }
          lines := lines + [Line(indent, AssignValue(setTo, a.value))];
        } else if callee == "accept" {
          if |args| != 0 {
            return Failure(ArityAssertion(callee));
          }
          lines := lines + [Line(indent, RaiseAccept)];
        } else {
          methods := methods + {act};
          var texts := ArgTexts(args, offset);
          if texts.Failure? {
            return Failure(texts.error);
          }
          lines := lines + [Line(indent, AssignCall(setTo, callee, texts.value))];
        }
        r := Success((indent, true));
      case Seq(actions) =>
        var ind := indent;
        var res := true;
        var i := 0;
        while i < |actions|
          invariant 0 <= i <= |actions|
          invariant WriteSeq(Out(old(lines), old(methods)), actions, indent, true) ==
            WriteSeq(Out(lines, methods), actions[i..], ind, res)
        {
          assert actions[i..][1..] == actions[i + 1..];
          var s := WriteAction(actions[i], ind);
          if s.Failure? {
            return s;
          }
          ind, res := s.value.0, s.value.1;
          i := i + 1;
        }
        r := Success((ind, res));
      case OtherAction =>
        r := Failure(UnknownActionType);
    }
  }
}
