/**
 * The table-driven LR runtime of the generated Rust parser
 * (`client/src/parser.rs`): how an `i64` action word is decoded, and the
 * `Parser` that keeps a stack of states and a stack of nodes and changes
 * them as tokens arrive.
 *
 * Each `Parser` method is proved equal to a function on a `Config` (the two
 * stacks), and those functions carry the stack invariants. The `reduce`
 * callback is a function parameter; the loops that may run forever on a
 * bad table take a `fuel` bound.
 */
module LrParser {
  import opened Wrappers

  // *** Action words ***********************************************************

  newtype i64 = x: int | -0x8000_0000_0000_0000 <= x < 0x8000_0000_0000_0000

  const ACCEPT: i64 := -0x7fff_ffff_ffff_ffff
  const ERROR: i64 := ACCEPT - 1

  /** Production numbers `p` that have a word `-(p + 1)` above `ACCEPT`. */
  const ProdLimit: nat := 0x7fff_ffff_ffff_fffe

  predicate IsShift(v: i64) { 0 <= v }
  predicate IsReduce(v: i64) { ACCEPT < v < 0 }
  predicate IsAccept(v: i64) { v == ACCEPT }
  predicate IsError(v: i64) { v == ERROR }

  /** `shift_state`: the word itself. */
  function ShiftState(v: i64): (s: nat)
    requires IsShift(v)
    ensures s as int == v as int
  {
    v as int
  }

  /** `reduce_prod_index`: `-v - 1`. */
  function ReduceProdIndex(v: i64): (p: nat)
    requires IsReduce(v)
    ensures p < ProdLimit && v as int == -(p + 1)
  {
    -(v as int) - 1
  }

  /** What a word means. */
  datatype Kind = Shift(state: nat) | ReduceBy(prod: nat) | Accept | Error

  /** Every word is exactly one kind: a shift (`>= 0`), a reduce (between
      `ACCEPT` and 0), `ACCEPT`, or `ERROR`, the smallest `i64`. */
  function Decode(v: i64): (k: Kind)
    ensures k.Shift? <==> IsShift(v)
    ensures k.ReduceBy? <==> IsReduce(v)
    ensures k.Accept? <==> IsAccept(v)
    ensures k.Error? <==> IsError(v)
    ensures k.Shift? ==> k.state == ShiftState(v)
    ensures k.ReduceBy? ==> k.prod == ReduceProdIndex(v)
  {
    if IsShift(v) then Shift(ShiftState(v))
    else if IsReduce(v) then ReduceBy(ReduceProdIndex(v))
    else if IsAccept(v) then Accept
    else Error
  }

  predicate Encodable(k: Kind) {
    match k
    case Shift(s) => s < 0x8000_0000_0000_0000
    case ReduceBy(p) => p < ProdLimit
    case _ => true
  }

  /** The word the emitter writes for a kind: a state as itself, production
      `p` as `-(p + 1)`. */
  function Encode(k: Kind): (v: i64)
    requires Encodable(k)
    ensures Decode(v) == k
  {
    match k
    case Shift(s) => s as i64
    case ReduceBy(p) => (-(p as int) - 1) as i64
    case Accept => ACCEPT
    case Error => ERROR
  }

  /** Decoding loses nothing: re-encoding gives the word back. */
  lemma EncodeDecode(v: i64)
    ensures Encodable(Decode(v)) && Encode(Decode(v)) == v
  {
  }

  // *** Tables and configurations ************************************************

  /** `ParserTables`: the flat action and goto matrices. */
  datatype Tables = Tables(stateCount: nat, actionTable: seq<i64>, actionWidth: nat, gotoTable: seq<nat>, gotoWidth: nat)

  /** What `tables.check()` and the debug assertions take for granted:
      matrices of `state_count` rows, and every shift and goto target a
      state. */
  predicate TablesOk(tb: Tables) {
    |tb.actionTable| == tb.stateCount * tb.actionWidth &&
    |tb.gotoTable| == tb.stateCount * tb.gotoWidth &&
    (forall i :: 0 <= i < |tb.actionTable| && IsShift(tb.actionTable[i]) ==> ShiftState(tb.actionTable[i]) < tb.stateCount) &&
    (forall i :: 0 <= i < |tb.gotoTable| ==> tb.gotoTable[i] < tb.stateCount)
  }

  lemma CellInTable(s: nat, t: nat, n: nat, w: nat)
    requires s < n && t < w
    ensures s * w + t < n * w
  {
    assert n * w == (s + 1) * w + (n - s - 1) * w;
  }

  /** `Node`, a raw pointer to a boxed value, as its address. */
  type Node = nat

  /** The two stacks. */
  datatype Config = Config(states: seq<nat>, nodes: seq<Node>)

  /** The parser's invariant: one more state than nodes, all states real. */
  predicate ConfigOk(tb: Tables, c: Config) {
    |c.states| == |c.nodes| + 1 && forall i :: 0 <= i < |c.states| ==> c.states[i] < tb.stateCount
  }

  /** What the `reduce` callback does: pop `popped` nodes, push `node`, and
      return the nonterminal `nt`. */
  datatype Reduced = Reduced(popped: nat, node: Node, nt: nat)

  /** The callback never pops more than the stack holds and always returns
      a nonterminal below `goto_width`. */
  ghost predicate ReducerOk(tb: Tables, reducer: (nat, seq<Node>) -> Reduced) {
    forall p: nat, ns: seq<Node> :: reducer(p, ns).popped <= |ns| && reducer(p, ns).nt < tb.gotoWidth
  }

  /** The cell of row `s`, column `t` in a flat matrix of width `w`. */
  function Cell(s: nat, t: nat, n: nat, w: nat): (i: nat)
    requires s < n && t < w
    ensures i < n * w
  {
    CellInTable(s, t, n, w);
    s * w + t
  }

  /** `action(t)`: the word in the row of the top state. */
  function ActionAt(tb: Tables, c: Config, t: nat): (v: i64)
    requires TablesOk(tb) && ConfigOk(tb, c) && t < tb.actionWidth
    ensures IsShift(v) ==> ShiftState(v) < tb.stateCount
  {
    tb.actionTable[Cell(c.states[|c.states| - 1], t, tb.stateCount, tb.actionWidth)]
  }

  /** `goto_table[state * goto_width + nt]`. */
  function GotoAt(tb: Tables, s: nat, nt: nat): (r: nat)
    requires TablesOk(tb) && s < tb.stateCount && nt < tb.gotoWidth
    ensures r < tb.stateCount
  {
    tb.gotoTable[Cell(s, nt, tb.stateCount, tb.gotoWidth)]
  }

  /** One pass of the `reduce_all` loop: the callback rewrites the node
      stack, the state stack is cut to the new node count, and the goto
      state of the uncovered state is pushed. */
  function ReduceStep(tb: Tables, reducer: (nat, seq<Node>) -> Reduced, c: Config, prod: nat): (d: Config)
    requires TablesOk(tb) && ReducerOk(tb, reducer) && ConfigOk(tb, c)
    ensures ConfigOk(tb, d)
  {
    var r := reducer(prod, c.nodes);
    var nodes := c.nodes[..|c.nodes| - r.popped] + [r.node];
    var states := c.states[..|nodes|];
    Config(states + [GotoAt(tb, states[|states| - 1], r.nt)], nodes)
  }

  /** What `reduce_all` leaves: the first word that is not a reduce (or
      nothing, once `fuel` reductions are spent) and the stacks. */
  datatype Reduction = Reduction(action: Option<i64>, config: Config)

  function ReduceAll(tb: Tables, reducer: (nat, seq<Node>) -> Reduced, c: Config, t: nat, fuel: nat): Reduction
    requires TablesOk(tb) && ReducerOk(tb, reducer) && ConfigOk(tb, c) && t < tb.actionWidth
    decreases fuel
  {
    var a := ActionAt(tb, c, t);
    if !IsReduce(a) then Reduction(Some(a), c)
    else if fuel == 0 then Reduction(None, c)
    else ReduceAll(tb, reducer, ReduceStep(tb, reducer, c, ReduceProdIndex(a)), t, fuel - 1)
  }

  /** `reduce_all` keeps the invariant, and the word it returns is not a
      reduce but the word `t` has in the final top state. */
  lemma {:induction false} ReduceAllResult(tb: Tables, reducer: (nat, seq<Node>) -> Reduced, c: Config, t: nat, fuel: nat)
    requires TablesOk(tb) && ReducerOk(tb, reducer) && ConfigOk(tb, c) && t < tb.actionWidth
    ensures ConfigOk(tb, ReduceAll(tb, reducer, c, t, fuel).config)
    ensures ReduceAll(tb, reducer, c, t, fuel).action.Some? ==>
      var a := ReduceAll(tb, reducer, c, t, fuel).action.value;
      !IsReduce(a) && a == ActionAt(tb, ReduceAll(tb, reducer, c, t, fuel).config, t)
    decreases fuel
  {
    var a := ActionAt(tb, c, t);
    if IsReduce(a) && fuel > 0 {
      ReduceAllResult(tb, reducer, ReduceStep(tb, reducer, c, ReduceProdIndex(a)), t, fuel - 1);
    }
  }

  /** The well-formedness half of `ReduceAllResult`, for proofs that need
      no more. */
  lemma {:induction false} ReduceAllOk(tb: Tables, reducer: (nat, seq<Node>) -> Reduced, c: Config, t: nat, fuel: nat)
    requires TablesOk(tb) && ReducerOk(tb, reducer) && ConfigOk(tb, c) && t < tb.actionWidth
    ensures ConfigOk(tb, ReduceAll(tb, reducer, c, t, fuel).config)
    decreases fuel
  {
    var a := ActionAt(tb, c, t);
    if IsReduce(a) && fuel > 0 {
      ReduceAllOk(tb, reducer, ReduceStep(tb, reducer, c, ReduceProdIndex(a)), t, fuel - 1);
    }
  }

  /** One reduction: when the top state's word is a reduce and fuel is left,
      `reduce_all` goes on from the reduced stacks with one unit less. */
  lemma ReduceAllUnfold(tb: Tables, reducer: (nat, seq<Node>) -> Reduced, c: Config, t: nat, fuel: nat)
    requires TablesOk(tb) && ReducerOk(tb, reducer) && ConfigOk(tb, c) && t < tb.actionWidth
    requires IsReduce(ActionAt(tb, c, t)) && fuel > 0
    ensures ReduceAll(tb, reducer, c, t, fuel) ==
      ReduceAll(tb, reducer, ReduceStep(tb, reducer, c, ReduceProdIndex(ActionAt(tb, c, t))), t, fuel - 1)
  {
  }

  /** A reduction keeps every node below the ones the callback popped, and
      every state below the new top. */
  lemma ReduceStepKeepsBottom(tb: Tables, reducer: (nat, seq<Node>) -> Reduced, c: Config, prod: nat)
    requires TablesOk(tb) && ReducerOk(tb, reducer) && ConfigOk(tb, c)
    ensures var r := reducer(prod, c.nodes);
      var d := ReduceStep(tb, reducer, c, prod);
      |d.nodes| == |c.nodes| - r.popped + 1 &&
      d.nodes[..|d.nodes| - 1] == c.nodes[..|c.nodes| - r.popped] && d.nodes[|d.nodes| - 1] == r.node &&
      d.states[..|d.states| - 1] == c.states[..|d.nodes|] &&
      d.states[|d.states| - 1] == GotoAt(tb, c.states[|d.nodes| - 1], r.nt)
  {
  }

  /** Why a call fails: the parse errors of the source, a failed `assert!`,
      or a spent fuel bound. */
  datatype ParseError = SyntaxError | UnexpectedEnd
  datatype Fault = ParseFailed(error: ParseError) | AssertionFailed | OutOfFuel

  /** An outcome and the stacks afterwards. */
  datatype Outcome<T> = Outcome(result: Result<T, Fault>, config: Config)

  /** `try_error_handling(t)`: reduce for `ErrorToken`; on a shift, replace
      the top state by the target and push no node; on an error, report
      `UnexpectedEnd` for the end of input and `SyntaxError` otherwise. */
  function TryErrorHandling(tb: Tables, reducer: (nat, seq<Node>) -> Reduced, c: Config, t: nat, endId: nat, errorId: nat, fuel: nat): Outcome<()>
    requires TablesOk(tb) && ReducerOk(tb, reducer) && ConfigOk(tb, c) && errorId < tb.actionWidth
  {
    if t == errorId then Outcome(Failure(AssertionFailed), c)
    else
      var red := ReduceAll(tb, reducer, c, errorId, fuel);
      var d := red.config;
      if red.action.None? then Outcome(Failure(OutOfFuel), d)
      else if IsShift(red.action.value) then
        ReduceAllResult(tb, reducer, c, errorId, fuel);
        Outcome(Success(()), Config(d.states[..|d.states| - 1] + [ShiftState(red.action.value)], d.nodes))
      else if IsError(red.action.value) then
        Outcome(Failure(ParseFailed(if t == endId then UnexpectedEnd else SyntaxError)), d)
      else Outcome(Failure(AssertionFailed), d)
  }

  /** Error handling keeps the invariant; on success the node stack is the
      reduced one and the state stack keeps its height; a parse error is
      `UnexpectedEnd` exactly for the end of input. */
  lemma TryErrorHandlingResult(tb: Tables, reducer: (nat, seq<Node>) -> Reduced, c: Config, t: nat, endId: nat, errorId: nat, fuel: nat)
    requires TablesOk(tb) && ReducerOk(tb, reducer) && ConfigOk(tb, c) && errorId < tb.actionWidth
    ensures var o := TryErrorHandling(tb, reducer, c, t, endId, errorId, fuel);
      ConfigOk(tb, o.config) &&
      (o.result.Success? ==>
        var red := ReduceAll(tb, reducer, c, errorId, fuel);
        red.action.Some? && IsShift(red.action.value) &&
        o.config.nodes == red.config.nodes && |red.config.states| > 0 &&
        o.config.states == red.config.states[..|red.config.states| - 1] + [ShiftState(red.action.value)]) &&
      (o.result.Failure? && o.result.error.ParseFailed? ==>
        (o.result.error.error == UnexpectedEnd <==> t == endId))
  {
    if t != errorId {
      ReduceAllResult(tb, reducer, c, errorId, fuel);
    }
  }

  /** The well-formedness part of `TryErrorHandlingResult`. */
  lemma TryErrorHandlingOk(tb: Tables, reducer: (nat, seq<Node>) -> Reduced, c: Config, t: nat, endId: nat, errorId: nat, fuel: nat)
    requires TablesOk(tb) && ReducerOk(tb, reducer) && ConfigOk(tb, c) && errorId < tb.actionWidth
    ensures ConfigOk(tb, TryErrorHandling(tb, reducer, c, t, endId, errorId, fuel).config)
  {
    if t != errorId {
      ReduceAllResult(tb, reducer, c, errorId, fuel);
    }
  }

  /** `write_token`: reduce for the token; on a shift push the token's node
      and the target state; on an error try error handling and, if that
      recovers, start again (at most `fuel` more times). */
  function WriteToken(tb: Tables, reducer: (nat, seq<Node>) -> Reduced, c: Config, t: nat, node: Node, endId: nat, errorId: nat, fuel: nat): Outcome<()>
    requires TablesOk(tb) && ReducerOk(tb, reducer) && ConfigOk(tb, c) && t < tb.actionWidth && errorId < tb.actionWidth
    decreases fuel
  {
    var red := ReduceAll(tb, reducer, c, t, fuel);
    ReduceAllResult(tb, reducer, c, t, fuel);
    var d := red.config;
    if red.action.None? then Outcome(Failure(OutOfFuel), d)
    else if IsShift(red.action.value) then
      Outcome(Success(()), Config(d.states + [ShiftState(red.action.value)], d.nodes + [node]))
    else if !IsError(red.action.value) then Outcome(Failure(AssertionFailed), d)
    else
      var rec := TryErrorHandling(tb, reducer, d, t, endId, errorId, fuel);
      TryErrorHandlingResult(tb, reducer, d, t, endId, errorId, fuel);
      if rec.result.Failure? then rec
      else if fuel == 0 then Outcome(Failure(OutOfFuel), rec.config)
      else WriteToken(tb, reducer, rec.config, t, node, endId, errorId, fuel - 1)
  }

  /** A pass that ends in a recovered error: `write_token` starts again
      from the recovered stacks with one unit of fuel less. */
  lemma WriteTokenRetry(tb: Tables, reducer: (nat, seq<Node>) -> Reduced, c: Config, t: nat, node: Node, endId: nat, errorId: nat, fuel: nat, a: i64, d: Config, e: Config)
    requires TablesOk(tb) && ReducerOk(tb, reducer) && t < tb.actionWidth && errorId < tb.actionWidth
    requires ConfigOk(tb, c) && ConfigOk(tb, d) && ConfigOk(tb, e) && fuel > 0
    requires ReduceAll(tb, reducer, c, t, fuel) == Reduction(Some(a), d) && !IsShift(a) && IsError(a)
    requires TryErrorHandling(tb, reducer, d, t, endId, errorId, fuel) == Outcome(Success(()), e)
    ensures WriteToken(tb, reducer, c, t, node, endId, errorId, fuel) == WriteToken(tb, reducer, e, t, node, endId, errorId, fuel - 1)
  {
  }

  /** `write_token` keeps the invariant. */
  lemma {:induction false} WriteTokenInvariant(tb: Tables, reducer: (nat, seq<Node>) -> Reduced, c: Config, t: nat, node: Node, endId: nat, errorId: nat, fuel: nat)
    requires TablesOk(tb) && ReducerOk(tb, reducer) && ConfigOk(tb, c) && t < tb.actionWidth && errorId < tb.actionWidth
    ensures ConfigOk(tb, WriteToken(tb, reducer, c, t, node, endId, errorId, fuel).config)
    decreases fuel
  {
    var red := ReduceAll(tb, reducer, c, t, fuel);
    ReduceAllResult(tb, reducer, c, t, fuel);
    var d := red.config;
    if red.action.Some? && !IsShift(red.action.value) && IsError(red.action.value) {
      var rec := TryErrorHandling(tb, reducer, d, t, endId, errorId, fuel);
      TryErrorHandlingOk(tb, reducer, d, t, endId, errorId, fuel);
      if rec.result.Success? && fuel > 0 {
        WriteTokenInvariant(tb, reducer, rec.config, t, node, endId, errorId, fuel - 1);
      }
    }
  }

  /** On success the token's node is the top node. */
  lemma {:induction false} WriteTokenPushes(tb: Tables, reducer: (nat, seq<Node>) -> Reduced, c: Config, t: nat, node: Node, endId: nat, errorId: nat, fuel: nat)
    requires TablesOk(tb) && ReducerOk(tb, reducer) && ConfigOk(tb, c) && t < tb.actionWidth && errorId < tb.actionWidth
    ensures var o := WriteToken(tb, reducer, c, t, node, endId, errorId, fuel);
      o.result.Success? ==> |o.config.nodes| > 0 && o.config.nodes[|o.config.nodes| - 1] == node
    decreases fuel
  {
    var red := ReduceAll(tb, reducer, c, t, fuel);
    ReduceAllOk(tb, reducer, c, t, fuel);
    var d := red.config;
    if red.action.Some? && !IsShift(red.action.value) && IsError(red.action.value) {
      var rec := TryErrorHandling(tb, reducer, d, t, endId, errorId, fuel);
      TryErrorHandlingOk(tb, reducer, d, t, endId, errorId, fuel);
      if rec.result.Success? && fuel > 0 {
        WriteTokenPushes(tb, reducer, rec.config, t, node, endId, errorId, fuel - 1);
      }
    }
  }

  /** A parse failure of `write_token` is `UnexpectedEnd` exactly when the
      token is the end of input. */
  lemma {:induction false} WriteTokenErrorKind(tb: Tables, reducer: (nat, seq<Node>) -> Reduced, c: Config, t: nat, node: Node, endId: nat, errorId: nat, fuel: nat)
    requires TablesOk(tb) && ReducerOk(tb, reducer) && ConfigOk(tb, c) && t < tb.actionWidth && errorId < tb.actionWidth
    ensures var o := WriteToken(tb, reducer, c, t, node, endId, errorId, fuel);
      o.result.Failure? && o.result.error.ParseFailed? ==> (o.result.error.error == UnexpectedEnd <==> t == endId)
    decreases fuel
  {
    var red := ReduceAll(tb, reducer, c, t, fuel);
    ReduceAllOk(tb, reducer, c, t, fuel);
    var d := red.config;
    if red.action.Some? && !IsShift(red.action.value) && IsError(red.action.value) {
      var rec := TryErrorHandling(tb, reducer, d, t, endId, errorId, fuel);
      TryErrorHandlingResult(tb, reducer, d, t, endId, errorId, fuel);
      if rec.result.Success? && fuel > 0 {
        WriteTokenErrorKind(tb, reducer, rec.config, t, node, endId, errorId, fuel - 1);
      }
    }
  }

  /** A first pass that shifts: `write_token` pushes exactly one node and
      one state onto what `reduce_all` left, and returns `Ok`. */
  lemma WriteTokenShift(tb: Tables, reducer: (nat, seq<Node>) -> Reduced, c: Config, t: nat, node: Node, endId: nat, errorId: nat, fuel: nat)
    requires TablesOk(tb) && ReducerOk(tb, reducer) && ConfigOk(tb, c) && t < tb.actionWidth && errorId < tb.actionWidth
    requires ReduceAll(tb, reducer, c, t, fuel).action.Some? && IsShift(ReduceAll(tb, reducer, c, t, fuel).action.value)
    ensures var o := WriteToken(tb, reducer, c, t, node, endId, errorId, fuel);
      var red := ReduceAll(tb, reducer, c, t, fuel);
      o.result.Success? &&
      o.config.nodes == red.config.nodes + [node] &&
      o.config.states == red.config.states + [ShiftState(red.action.value)]
  {
  }

  /** `close`: reduce for the end of input; on accept, the single node is
      popped and returned; on an error try error handling and start again
      (at most `fuel` more times). */
  function Close(tb: Tables, reducer: (nat, seq<Node>) -> Reduced, c: Config, endId: nat, errorId: nat, fuel: nat): Outcome<Node>
    requires TablesOk(tb) && ReducerOk(tb, reducer) && ConfigOk(tb, c) && endId < tb.actionWidth && errorId < tb.actionWidth
    decreases fuel
  {
    var red := ReduceAll(tb, reducer, c, endId, fuel);
    ReduceAllResult(tb, reducer, c, endId, fuel);
    var d := red.config;
    if red.action.None? then Outcome(Failure(OutOfFuel), d)
    else if IsAccept(red.action.value) then
      if |d.nodes| != 1 then Outcome(Failure(AssertionFailed), d)
      else Outcome(Success(d.nodes[0]), Config(d.states, []))
    else if !IsError(red.action.value) then Outcome(Failure(AssertionFailed), d)
    else
      var rec := TryErrorHandling(tb, reducer, d, endId, endId, errorId, fuel);
      TryErrorHandlingResult(tb, reducer, d, endId, endId, errorId, fuel);
      if rec.result.Failure? then Outcome(Failure(rec.result.error), rec.config)
      else if fuel == 0 then Outcome(Failure(OutOfFuel), rec.config)
      else Close(tb, reducer, rec.config, endId, errorId, fuel - 1)
  }

  /** `close` succeeds only on `ACCEPT` with exactly one node, which it
      returns, leaving no node and the two states below it; a parse error
      from it is always `UnexpectedEnd`. */
  lemma {:induction false} CloseResult(tb: Tables, reducer: (nat, seq<Node>) -> Reduced, c: Config, endId: nat, errorId: nat, fuel: nat)
    requires TablesOk(tb) && ReducerOk(tb, reducer) && ConfigOk(tb, c) && endId < tb.actionWidth && errorId < tb.actionWidth
    ensures var o := Close(tb, reducer, c, endId, errorId, fuel);
      (o.result.Success? ==>
        o.config.nodes == [] && |o.config.states| == 2 &&
        exists d: Config, fuel': nat :: ConfigOk(tb, d) &&
          ReduceAll(tb, reducer, d, endId, fuel').action == Some(ACCEPT) &&
          ReduceAll(tb, reducer, d, endId, fuel').config.nodes == [o.result.value] &&
          ReduceAll(tb, reducer, d, endId, fuel').config.states == o.config.states) &&
      (o.result.Failure? && o.result.error.ParseFailed? ==> o.result.error.error == UnexpectedEnd)
    decreases fuel
  {
    var red := ReduceAll(tb, reducer, c, endId, fuel);
    ReduceAllOk(tb, reducer, c, endId, fuel);
    var d := red.config;
    if red.action.Some? && !IsAccept(red.action.value) && IsError(red.action.value) {
      var rec := TryErrorHandling(tb, reducer, d, endId, endId, errorId, fuel);
      TryErrorHandlingOk(tb, reducer, d, endId, endId, errorId, fuel);
      if rec.result.Success? && fuel > 0 {
        CloseResult(tb, reducer, rec.config, endId, errorId, fuel - 1);
      }
    }
  }

  // *** The parser ***************************************************************

  /** `Parser`: the tables, the `reduce` callback, the ids of the `End` and
      `ErrorToken` terminals, and the two stacks. */
  class Parser {
    const tables: Tables
    const reducer: (nat, seq<Node>) -> Reduced
    const endId: nat
    const errorId: nat
    var stateStack: seq<nat>
    var nodeStack: seq<Node>

    ghost predicate Valid()
      reads this
    {
      TablesOk(tables) && ReducerOk(tables, reducer) &&
      endId < tables.actionWidth && errorId < tables.actionWidth &&
      ConfigOk(tables, Config(stateStack, nodeStack))
    }

    function Stacks(): Config
      reads this
    {
      Config(stateStack, nodeStack)
    }

    /** `Parser::new`: the entry state must be a state; the parser starts
        with that state alone and no node. */
    constructor (tables: Tables, reducer: (nat, seq<Node>) -> Reduced, endId: nat, errorId: nat, entryState: nat)
      requires TablesOk(tables) && ReducerOk(tables, reducer)
      requires endId < tables.actionWidth && errorId < tables.actionWidth
      requires entryState < tables.stateCount
      ensures Valid()
      ensures stateStack == [entryState] && nodeStack == []
      ensures this.tables == tables && this.reducer == reducer && this.endId == endId && this.errorId == errorId
    {
      this.tables := tables;
      this.reducer := reducer;
      this.endId := endId;
      this.errorId := errorId;
      stateStack := [entryState];
      nodeStack := [];
    }

    /** `action(t)`: the word of `t` in the row of `state()`, the top of the
        state stack. */
    function Action(t: nat): i64
      reads this
      requires Valid() && t < tables.actionWidth
    {
      ActionAt(tables, Stacks(), t)
    }

    /** `reduce_all(t)`, with at most `fuel` reductions. */
    method ReduceAllLoop(t: nat, fuel: nat) returns (a: Option<i64>)
      requires Valid() && t < tables.actionWidth
      modifies this
      ensures Valid()
      ensures Reduction(a, Stacks()) == ReduceAll(tables, reducer, old(Stacks()), t, fuel)
      ensures a.Some? ==> !IsReduce(a.value) && (IsShift(a.value) ==> ShiftState(a.value) < tables.stateCount)
    {
      var action := Action(t);
      var left := fuel;
      while IsReduce(action)
        invariant Valid()
        invariant action == Action(t)
        invariant ReduceAll(tables, reducer, old(Stacks()), t, fuel) == ReduceAll(tables, reducer, Stacks(), t, left)
        decreases left
      {
        if left == 0 {
          return None;
        }
        ghost var before := Stacks();
        var prodIndex := ReduceProdIndex(action);
        var reduced := ReduceStep(tables, reducer, Stacks(), prodIndex);
        ReduceAllUnfold(tables, reducer, before, t, left);
        stateStack := reduced.states;
        nodeStack := reduced.nodes;
        action := Action(t);
        left := left - 1;
      }
      a := Some(action);
    }

    /** `try_error_handling(t)`. */
    method TryErrorHandlingStep(t: nat, fuel: nat) returns (r: Result<(), Fault>)
      requires Valid()
      modifies this
      ensures Valid()
      ensures Outcome(r, Stacks()) == TryErrorHandling(tables, reducer, old(Stacks()), t, endId, errorId, fuel)
    {
      if t == errorId {
        return Failure(AssertionFailed);
      }
      var action := ReduceAllLoop(errorId, fuel);
      if action.None? {
        return Failure(OutOfFuel);
      }
      if IsShift(action.value) {
        stateStack := stateStack[..|stateStack| - 1] + [ShiftState(action.value)];
        r := Success(());
      } else if IsError(action.value) {
        r := Failure(ParseFailed(if t == endId then UnexpectedEnd else SyntaxError));
      } else {
        r := Failure(AssertionFailed);
      }
    }

    /** `write_token(token)` for a token with id `t` whose boxed value is
        `node`. */
    method WriteTokenLoop(t: nat, node: Node, fuel: nat) returns (r: Result<(), Fault>)
      requires Valid() && t < tables.actionWidth
      modifies this
      ensures Valid()
      ensures Outcome(r, Stacks()) == WriteToken(tables, reducer, old(Stacks()), t, node, endId, errorId, fuel)
    {
      var left := fuel;
      ghost var goal := WriteToken(tables, reducer, Stacks(), t, node, endId, errorId, fuel);
      while true
        invariant Valid()
        invariant goal == WriteToken(tables, reducer, Stacks(), t, node, endId, errorId, left)
        decreases left
      {
        ghost var before := Stacks();
        var action := ReduceAllLoop(t, left);
        if action.None? {
          return Failure(OutOfFuel);
        }
        if IsShift(action.value) {
          nodeStack := nodeStack + [node];
          stateStack := stateStack + [ShiftState(action.value)];
          return Success(());
        }
        if !IsError(action.value) {
          return Failure(AssertionFailed);
        }
        ghost var mid := Stacks();
        var rec := TryErrorHandlingStep(t, left);
        if rec.Failure? {
          return rec;
        }
        if left == 0 {
          return Failure(OutOfFuel);
        }
        WriteTokenRetry(tables, reducer, before, t, node, endId, errorId, left, action.value, mid, Stacks());
        left := left - 1;
      }
    }

    /** `close()`. */
    method CloseLoop(fuel: nat) returns (r: Result<Node, Fault>)
      requires Valid()
      modifies this
      ensures Outcome(r, Stacks()) == Close(tables, reducer, old(Stacks()), endId, errorId, fuel)
    {
      var left := fuel;
      while true
        invariant Valid()
        invariant Close(tables, reducer, old(Stacks()), endId, errorId, fuel) ==
          Close(tables, reducer, Stacks(), endId, errorId, left)
        decreases left
      {
        ghost var before := Stacks();
        var action := ReduceAllLoop(endId, left);
        if action.None? {
          return Failure(OutOfFuel);
        }
        if IsAccept(action.value) {
          if |nodeStack| != 1 {
            return Failure(AssertionFailed);
          }
          var top := nodeStack[0];
          nodeStack := [];
          return Success(top);
        }
        if !IsError(action.value) {
          return Failure(AssertionFailed);
        }
        ghost var mid := Stacks();
        assert ReduceAll(tables, reducer, before, endId, left) == Reduction(action, mid);
        var rec := TryErrorHandlingStep(endId, left);
        if rec.Failure? {
          return Failure(rec.error);
        }
        if left == 0 {
          return Failure(OutOfFuel);
        }
        assert TryErrorHandling(tables, reducer, mid, endId, endId, errorId, left) == Outcome(rec, Stacks());
        assert Close(tables, reducer, before, endId, errorId, left) ==
          Close(tables, reducer, Stacks(), endId, errorId, left - 1);
        left := left - 1;
      }
    }
  }
}
