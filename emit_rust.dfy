/**
 * The Rust backend (`RustParserWriter`): how grammar names become Rust
 * identifiers, the check that no two nonterminals share a camel-case
 * spelling, the lists of terminals and nonterminals gathered from the
 * states, the flat `ACTIONS` and `GOTO` matrices, and the stack discipline
 * of each generated `reduce` arm.
 *
 * The generated text itself is not modelled; each writer method is
 * modelled by the structure it writes out. `to_snek_case` is a regular
 * expression rewrite and is taken as a parameter `snek`.
 */
module EmitRust {
  import opened Wrappers
  import opened Strings
  import opened Ordered
  import opened Grammar

  // *** Identifiers ***************************************************************

  /** A nonterminal as the writer sees it: a name with boolean arguments
      (an expanded `Nt`), or a bare name. */
  datatype Ident = NtIdent(name: string, args: seq<(string, bool)>) | StrIdent(s: string)

  function CapitalizeAll(words: seq<string>): (r: seq<string>)
    ensures |r| == |words| && forall k :: 0 <= k < |words| ==> r[k] == Capitalize(words[k])
  {
    seq(|words|, k requires 0 <= k < |words| => Capitalize(words[k]))
  }

  /** `to_camel_case`. */
  function ToCamelCase(ident: string): string {
    if '_' in ident then Concat(CapitalizeAll(Split(ident, '_')))
    else if IsLowerStr(ident) then Capitalize(ident)
    else ident
  }

  /** `s` with every `c` removed. */
  function Without(s: string, c: char): (r: string)
    ensures c !in r
    decreases |s|
  {
    if |s| == 0 then "" else (if s[0] == c then "" else [s[0]]) + Without(s[1..], c)
  }

  lemma {:induction false} WithoutAppend(a: string, b: string, c: char)
    ensures Without(a + b, c) == Without(a, c) + Without(b, c)
    decreases |a|
  {
    if |a| > 0 {
      assert (a + b)[1..] == a[1..] + b;
      WithoutAppend(a[1..], b, c);
    } else {
      assert a + b == b;
    }
  }

  lemma {:induction false} WithoutAbsent(s: string, c: char)
    requires c !in s
    ensures Without(s, c) == s
    decreases |s|
  {
    if |s| > 0 {
      WithoutAbsent(s[1..], c);
    }
  }

  lemma LowerAppend(a: string, b: string)
    ensures Lower(a + b) == Lower(a) + Lower(b)
  {
  }

  lemma LowerCapitalize(s: string)
    ensures Lower(Capitalize(s)) == Lower(s)
  {
  }

  lemma CapitalizeKeeps(s: string, c: char)
    requires !IsLetter(c) && c !in s
    ensures c !in Capitalize(s)
  {
  }

  lemma {:induction false} ConcatWithout(parts: seq<string>, c: char)
    requires forall k :: 0 <= k < |parts| ==> c !in parts[k]
    ensures c !in Concat(parts)
    decreases |parts|
  {
    if |parts| > 0 {
      ConcatWithout(parts[1..], c);
      NotInConcat(parts[0], Concat(parts[1..]), c);
    }
  }

  lemma {:induction false} LowerConcatCapitalized(parts: seq<string>)
    ensures Lower(Concat(CapitalizeAll(parts))) == Lower(Concat(parts))
    decreases |parts|
  {
    if |parts| > 0 {
      assert CapitalizeAll(parts)[1..] == CapitalizeAll(parts[1..]);
      LowerConcatCapitalized(parts[1..]);
      LowerAppend(Capitalize(parts[0]), Concat(CapitalizeAll(parts[1..])));
      LowerAppend(parts[0], Concat(parts[1..]));
      LowerCapitalize(parts[0]);
    }
  }

  lemma {:induction false} WithoutJoin(parts: seq<string>, c: char)
    requires forall k :: 0 <= k < |parts| ==> c !in parts[k]
    ensures Without(Join(parts, [c]), c) == Concat(parts)
    decreases |parts|
  {
    if |parts| == 1 {
      WithoutAbsent(parts[0], c);
      assert Concat(parts) == parts[0] + Concat([]);
    } else if |parts| > 1 {
      WithoutJoin(parts[1..], c);
      WithoutAppend(parts[0] + [c], Join(parts[1..], [c]), c);
      WithoutAppend(parts[0], [c], c);
      WithoutAbsent(parts[0], c);
      assert parts[0] + [c] + Join(parts[1..], [c]) == (parts[0] + [c]) + Join(parts[1..], [c]);
    }
  }

  /** A camel-case name never holds an underscore. */
  lemma CamelCaseNoUnderscore(ident: string)
    ensures '_' !in ToCamelCase(ident)
  {
    if '_' in ident {
      var words := Split(ident, '_');
      forall k | 0 <= k < |words| ensures '_' !in CapitalizeAll(words)[k] {
        CapitalizeKeeps(words[k], '_');
      }
      ConcatWithout(CapitalizeAll(words), '_');
    } else if IsLowerStr(ident) {
      CapitalizeKeeps(ident, '_');
    }
  }

  /** Camel-casing only drops underscores and changes letter case: ignoring
      case, the result spells the identifier without its underscores. */
  lemma CamelCaseSpelling(ident: string)
    ensures Lower(ToCamelCase(ident)) == Lower(Without(ident, '_'))
  {
    if '_' in ident {
      var words := Split(ident, '_');
      LowerConcatCapitalized(words);
      WithoutJoin(words, '_');
      JoinSplit(ident, '_');
    } else {
      WithoutAbsent(ident, '_');
      LowerCapitalize(ident);
    }
  }

  /** An identifier that is already camel case (no underscore, not all
      lower case) is left alone, and a lower-case word is capitalised. */
  lemma CamelCaseOfWord(ident: string)
    requires '_' !in ident
    ensures !IsLowerStr(ident) ==> ToCamelCase(ident) == ident
    ensures IsLowerStr(ident) && |ident| > 0 ==> ToCamelCase(ident)[0] == ToUpper(ident[0]) && ToCamelCase(ident)[1..] == Lower(ident[1..])
  {
  }

  /** The suffix `"_" + snek(name)` for each argument whose value is true. */
  function ArgSuffix(snek: string -> string, args: seq<(string, bool)>): string
    decreases |args|
  {
    if |args| == 0 then ""
    else
      var last := args[|args| - 1];
      ArgSuffix(snek, args[..|args| - 1]) + (if last.1 then "_" + snek(last.0) else "")
  }

  /** `nonterminal_to_snake`. */
  function NonterminalToSnake(snek: string -> string, ident: Ident): string {
    match ident
    case NtIdent(name, args) => snek(name) + ArgSuffix(snek, args)
    case StrIdent(s) => snek(s)
  }

  /** `nonterminal_to_camel`. */
  function NonterminalToCamel(snek: string -> string, ident: Ident): string {
    ToCamelCase(NonterminalToSnake(snek, ident))
  }

  /** An argument that is true appends its snake name, in order; one that is
      false changes nothing. */
  lemma SnakeAppendArg(snek: string -> string, name: string, args: seq<(string, bool)>, param: string, value: bool)
    ensures NonterminalToSnake(snek, NtIdent(name, args + [(param, value)])) ==
      NonterminalToSnake(snek, NtIdent(name, args)) + (if value then "_" + snek(param) else "")
  {
    assert (args + [(param, value)])[..|args|] == args;
  }

  /** With no true argument a nonterminal is named like its bare name. */
  lemma {:induction false} SnakeFalseArgs(snek: string -> string, name: string, args: seq<(string, bool)>)
    requires forall k :: 0 <= k < |args| ==> !args[k].1
    ensures NonterminalToSnake(snek, NtIdent(name, args)) == NonterminalToSnake(snek, StrIdent(name))
    decreases |args|
  {
    if |args| > 0 {
      SnakeFalseArgs(snek, name, args[..|args| - 1]);
    }
  }

  /** `method_name_to_rust`: `"Name N"` becomes `snek(Name) + "_p" + N`. */
  function MethodNameToRust(snek: string -> string, name: string): string {
    var parts := Partition(name, ' ');
    var base := NonterminalToSnake(snek, StrIdent(parts.0));
    if parts.1 != "" then base + "_p" + parts.2 else base
  }

  lemma MethodNameNumbered(snek: string -> string, nt: string, number: string)
    requires ' ' !in nt
    ensures MethodNameToRust(snek, nt + " " + number) == snek(nt) + "_p" + number
  {
    PartitionAt(nt, ' ', number);
  }

  lemma MethodNamePlain(snek: string -> string, name: string)
    requires ' ' !in name
    ensures MethodNameToRust(snek, name) == snek(name)
  {
  }

  /** The names of default reduce methods map to `snek(nt)`, with `_p<i>`
      when the nonterminal has several productions. */
  lemma MethodNameOfDefault(snek: string -> string, nt: string, i: nat, sole: bool)
    requires ' ' !in nt
    ensures MethodNameToRust(snek, DefaultMethodName(nt, i, sole)) == snek(nt) + (if sole then "" else "_p" + NatToString(i))
  {
    if sole {
      MethodNamePlain(snek, nt);
    } else {
      MethodNameNumbered(snek, nt, NatToString(i));
    }
  }

  // *** check_camel_case ***********************************************************

  /** Two nonterminals with the same camel-case spelling. */
  datatype CamelClash = CamelClash(first: Ident, second: Ident, spelling: string)

  /** The camel-case spelling of each nonterminal, in order. */
  function Camels(snek: string -> string, nts: seq<Ident>): (r: seq<string>)
    ensures |r| == |nts| && forall k :: 0 <= k < |nts| ==> r[k] == NonterminalToCamel(snek, nts[k])
  {
    seq(|nts|, k requires 0 <= k < |nts| => NonterminalToCamel(snek, nts[k]))
  }

  /** `check_camel_case`: succeeds exactly when the camel-case spelling is
      injective over `nts`; otherwise reports the first position whose
      spelling was already seen, with the earlier nonterminal. */
  method CheckCamelCase(snek: string -> string, nts: seq<Ident>) returns (r: Result<(), CamelClash>)
    ensures r.Success? <==> NoDuplicates(Camels(snek, nts))
    ensures r.Failure? ==>
      exists i, j ::
        0 <= i < j < |nts| && r.error == CamelClash(nts[i], nts[j], Camels(snek, nts)[j]) &&
        Camels(snek, nts)[i] == Camels(snek, nts)[j] && NoDuplicates(Camels(snek, nts)[..j])
  {
    ghost var cs := Camels(snek, nts);
    var seen: map<string, nat> := map[];
    var k := 0;
    while k < |nts|
      invariant 0 <= k <= |nts|
      invariant NoDuplicates(cs[..k])
      invariant SeenAt(cs, k, seen)
    {
      var cc := NonterminalToCamel(snek, nts[k]);
      assert cc == cs[k];
      if cc in seen {
        var i := seen[cc];
        SeenLookup(cs, k, seen, cc);
        RepeatedSpelling(cs, i, k);
        r := Failure(CamelClash(nts[i], nts[k], cc));
        assert 0 <= i < k < |nts| && r.error == CamelClash(nts[i], nts[k], cs[k]) && cs[i] == cs[k];
        return;
      }
      SeenStep(cs, k, seen);
      seen := seen[cc := k];
      k := k + 1;
    }
    assert cs[..k] == cs;
    return Success(());
  }

  /** `seen` maps the spelling of each of the first `k` nonterminals to its
      position, and holds nothing else. */
  ghost predicate SeenAt(cs: seq<string>, k: nat, seen: map<string, nat>)
    requires k <= |cs|
  {
    (forall a :: 0 <= a < k ==> cs[a] in seen && seen[cs[a]] == a) &&
    (forall cc :: cc in seen ==> seen[cc] < k && cs[seen[cc]] == cc)
  }

  lemma SeenLookup(cs: seq<string>, k: nat, seen: map<string, nat>, cc: string)
    requires k <= |cs| && SeenAt(cs, k, seen) && cc in seen
    ensures seen[cc] < k && cs[seen[cc]] == cc
  {
  }

  lemma RepeatedSpelling(cs: seq<string>, i: nat, k: nat)
    requires i < k < |cs| && cs[i] == cs[k]
    ensures !NoDuplicates(cs)
  {
  }

  /** Recording a new spelling keeps `seen` exact and the prefix distinct. */
  lemma SeenStep(cs: seq<string>, k: nat, seen: map<string, nat>)
    requires k < |cs| && NoDuplicates(cs[..k]) && SeenAt(cs, k, seen) && cs[k] !in seen
    ensures NoDuplicates(cs[..k + 1]) && SeenAt(cs, k + 1, seen[cs[k] := k])
  {
    var p := cs[..k + 1];
    forall a, b | 0 <= a < b < |p| ensures p[a] != p[b] {
      if b < k {
        assert cs[..k][a] == cs[a] && cs[..k][b] == cs[b];
      }
    }
  }

  // *** The terminal and nonterminal lists ****************************************

  /** A terminal: a string, the end of input (`None`), or `ErrorToken`. */
  datatype Terminal = TermString(s: string) | EndOfInput | ErrorTerminal

  /** What the writer reads of a parser state: its action row and its goto
      (`ctn_row`) row, as insertion-ordered dictionaries. */
  datatype State = State(actionRow: seq<(Terminal, int)>, ctnRow: seq<(Ident, nat)>)

  /** The keys of every row, row after row. */
  function AllKeys<K, V>(rows: seq<seq<(K, V)>>): seq<K>
    decreases |rows|
  {
    if |rows| == 0 then [] else Keys(rows[0]) + AllKeys(rows[1..])
  }

  lemma {:induction false} AllKeysMembers<K, V>(rows: seq<seq<(K, V)>>, x: K)
    ensures x in AllKeys(rows) <==> exists i, k :: 0 <= i < |rows| && 0 <= k < |rows[i]| && rows[i][k].0 == x
    decreases |rows|
  {
    if |rows| > 0 {
      AllKeysMembers(rows[1..], x);
      if x in AllKeys(rows) && x !in Keys(rows[0]) {
        assert x in AllKeys(rows[1..]);
        var i, k :| 0 <= i < |rows[1..]| && 0 <= k < |rows[1..][i]| && rows[1..][i][k].0 == x;
        assert rows[i + 1][k].0 == x;
      }
      if exists i, k :: 0 <= i < |rows| && 0 <= k < |rows[i]| && rows[i][k].0 == x {
        var i, k :| 0 <= i < |rows| && 0 <= k < |rows[i]| && rows[i][k].0 == x;
        if i == 0 {
          assert Keys(rows[0])[k] == x;
        } else {
          assert rows[1..][i - 1][k].0 == x;
        }
      }
    }
  }

  function ActionRows(states: seq<State>): (r: seq<seq<(Terminal, int)>>)
    ensures |r| == |states| && forall i :: 0 <= i < |states| ==> r[i] == states[i].actionRow
  {
    seq(|states|, i requires 0 <= i < |states| => states[i].actionRow)
  }

  function CtnRows(states: seq<State>): (r: seq<seq<(Ident, nat)>>)
    ensures |r| == |states| && forall i :: 0 <= i < |states| ==> r[i] == states[i].ctnRow
  {
    seq(|states|, i requires 0 <= i < |states| => states[i].ctnRow)
  }

  /** `self.terminals`. */
  function Terminals(states: seq<State>): seq<Terminal> {
    FromSeq(AllKeys(ActionRows(states)))
  }

  /** `self.nonterminals`. */
  function Nonterminals(states: seq<State>): seq<Ident> {
    FromSeq(AllKeys(CtnRows(states)))
  }

  /** Each terminal of some action row is listed exactly once, nothing else
      is, and the list follows the order of first occurrence. */
  lemma TerminalsListed(states: seq<State>)
    ensures NoDuplicates(Terminals(states))
    ensures forall t :: t in Terminals(states) <==>
      exists i, k :: 0 <= i < |states| && 0 <= k < |states[i].actionRow| && states[i].actionRow[k].0 == t
    ensures forall i, j :: 0 <= i < j < |Terminals(states)| ==>
      Terminals(states)[i] in AllKeys(ActionRows(states)) && Terminals(states)[j] in AllKeys(ActionRows(states)) &&
      FirstIndex(AllKeys(ActionRows(states)), Terminals(states)[i]) < FirstIndex(AllKeys(ActionRows(states)), Terminals(states)[j])
  {
    var rows := ActionRows(states);
    forall t ensures t in Terminals(states) <==>
      exists i, k :: 0 <= i < |states| && 0 <= k < |states[i].actionRow| && states[i].actionRow[k].0 == t
    {
      AllKeysMembers(rows, t);
      assert t in Elems(Terminals(states)) <==> t in Elems(AllKeys(rows));
    }
    FromSeqFirstOccurrenceOrder(AllKeys(rows));
  }

  /** The same for the nonterminals of the goto rows. */
  lemma NonterminalsListed(states: seq<State>)
    ensures NoDuplicates(Nonterminals(states))
    ensures forall nt :: nt in Nonterminals(states) <==>
      exists i, k :: 0 <= i < |states| && 0 <= k < |states[i].ctnRow| && states[i].ctnRow[k].0 == nt
    ensures forall i, j :: 0 <= i < j < |Nonterminals(states)| ==>
      Nonterminals(states)[i] in AllKeys(CtnRows(states)) && Nonterminals(states)[j] in AllKeys(CtnRows(states)) &&
      FirstIndex(AllKeys(CtnRows(states)), Nonterminals(states)[i]) < FirstIndex(AllKeys(CtnRows(states)), Nonterminals(states)[j])
  {
    var rows := CtnRows(states);
    forall nt ensures nt in Nonterminals(states) <==>
      exists i, k :: 0 <= i < |states| && 0 <= k < |states[i].ctnRow| && states[i].ctnRow[k].0 == nt
    {
      AllKeysMembers(rows, nt);
      assert nt in Elems(Nonterminals(states)) <==> nt in Elems(AllKeys(rows));
    }
    FromSeqFirstOccurrenceOrder(AllKeys(rows));
  }

  // *** The ACTIONS and GOTO matrices ***********************************************

  /** `row.get(key, default)` on an insertion-ordered dictionary. */
  function Get<K(==), V>(row: seq<(K, V)>, key: K, default: V): V
    decreases |row|
  {
    if |row| == 0 then default else if row[0].0 == key then row[0].1 else Get(row[1..], key, default)
  }

  /** A present key gives its value, an absent one the default. */
  lemma {:induction false} GetMeaning<K, V>(row: seq<(K, V)>, key: K, default: V)
    ensures key !in Keys(row) ==> Get(row, key, default) == default
    ensures key in Keys(row) ==> Get(row, key, default) == row[FirstIndex(Keys(row), key)].1
    decreases |row|
  {
    if |row| > 0 {
      GetMeaning(row[1..], key, default);
      assert Keys(row) == [row[0].0] + Keys(row[1..]);
    }
  }

  lemma RowStart(a: nat, i: nat, j: nat, w: nat)
    requires a < i && j < w
    ensures a * w + j < i * w
  {
    assert i * w == (a + 1) * w + (i - a - 1) * w;
  }

  /** The rows of a matrix laid end to end. */
  function Flat<V>(rows: seq<seq<V>>): seq<V>
    decreases |rows|
  {
    if |rows| == 0 then [] else Flat(rows[..|rows| - 1]) + rows[|rows| - 1]
  }

  /** Entry `(i, j)` of a flattened matrix of width `w` sits at `i * w + j`. */
  lemma {:induction false} FlatIndex<V>(rows: seq<seq<V>>, w: nat, i: nat, j: nat)
    requires forall k :: 0 <= k < |rows| ==> |rows[k]| == w
    requires i < |rows| && j < w
    ensures |Flat(rows)| == |rows| * w
    ensures i * w + j < |Flat(rows)| && Flat(rows)[i * w + j] == rows[i][j]
    decreases |rows|
  {
    var n := |rows| - 1;
    var p := rows[..n];
    FlatSize(p, w);
    assert |rows| * w == n * w + w;
    if i < n {
      FlatIndex(p, w, i, j);
      RowStart(i, n, j, w);
    }
  }

  lemma {:induction false} FlatSize<V>(rows: seq<seq<V>>, w: nat)
    requires forall k :: 0 <= k < |rows| ==> |rows[k]| == w
    ensures |Flat(rows)| == |rows| * w
    decreases |rows|
  {
    if |rows| > 0 {
      FlatSize(rows[..|rows| - 1], w);
      assert |rows| * w == (|rows| - 1) * w + w;
    }
  }

  /** The row a state contributes: its entry for each column, or `default`. */
  function MatrixRow<K(==), V>(row: seq<(K, V)>, cols: seq<K>, default: V): (r: seq<V>)
    ensures |r| == |cols| && forall j :: 0 <= j < |cols| ==> r[j] == Get(row, cols[j], default)
  {
    seq(|cols|, j requires 0 <= j < |cols| => Get(row, cols[j], default))
  }

  function MatrixRows<K(==), V>(rows: seq<seq<(K, V)>>, cols: seq<K>, default: V): (r: seq<seq<V>>)
    ensures |r| == |rows| && forall i :: 0 <= i < |rows| ==> r[i] == MatrixRow(rows[i], cols, default)
  {
    seq(|rows|, i requires 0 <= i < |rows| => MatrixRow(rows[i], cols, default))
  }

  /** The flat matrix: one entry per row and column, row after row. */
  function Matrix<K(==), V>(rows: seq<seq<(K, V)>>, cols: seq<K>, default: V): seq<V> {
    Flat(MatrixRows(rows, cols, default))
  }

  /** A matrix has `|rows| * |cols|` entries, and entry `(i, j)` is row `i`'s
      value for column `j`, or `default`. */
  lemma MatrixEntry<K, V>(rows: seq<seq<(K, V)>>, cols: seq<K>, default: V, i: nat, j: nat)
    requires i < |rows| && j < |cols|
    ensures |Matrix(rows, cols, default)| == |rows| * |cols|
    ensures i * |cols| + j < |Matrix(rows, cols, default)|
    ensures Matrix(rows, cols, default)[i * |cols| + j] == Get(rows[i], cols[j], default)
  {
    FlatIndex(MatrixRows(rows, cols, default), |cols|, i, j);
  }

  /** The loops of `actions` and `goto`: for each state, one entry per
      column. */
  method FillMatrix<K(==), V>(rows: seq<seq<(K, V)>>, cols: seq<K>, default: V) returns (table: seq<V>)
    ensures table == Matrix(rows, cols, default)
  {
    table := [];
    var i := 0;
    while i < |rows|
      invariant 0 <= i <= |rows|
      invariant table == Flat(MatrixRows(rows[..i], cols, default))
    {
      var row: seq<V> := [];
      var j := 0;
      while j < |cols|
        invariant 0 <= j <= |cols|
        invariant row == MatrixRow(rows[i], cols[..j], default)
      {
        row := row + [Get(rows[i], cols[j], default)];
        j := j + 1;
      }
      assert cols[..j] == cols;
      assert MatrixRows(rows[..i + 1], cols, default)[..i] == MatrixRows(rows[..i], cols, default);
      table := table + row;
      i := i + 1;
    }
    assert rows[..i] == rows;
  }

  /** An `ACTIONS` entry: an action code, or the `ERROR` constant of the
      generated file. */
  datatype Cell = Code(code: int) | ErrorCode

  function ActionCells(row: seq<(Terminal, int)>): (r: seq<(Terminal, Cell)>)
    ensures |r| == |row| && forall k :: 0 <= k < |row| ==> r[k] == (row[k].0, Code(row[k].1))
  {
    seq(|row|, k requires 0 <= k < |row| => (row[k].0, Code(row[k].1)))
  }

  function ActionCellRows(states: seq<State>): (r: seq<seq<(Terminal, Cell)>>)
    ensures |r| == |states| && forall i :: 0 <= i < |states| ==> r[i] == ActionCells(states[i].actionRow)
  {
    seq(|states|, i requires 0 <= i < |states| => ActionCells(states[i].actionRow))
  }

  /** `actions`. */
  method Actions(states: seq<State>, terminals: seq<Terminal>) returns (table: seq<Cell>)
    ensures table == Matrix(ActionCellRows(states), terminals, ErrorCode)
  {
    table := FillMatrix(ActionCellRows(states), terminals, ErrorCode);
  }

  /** `goto`. */
  method Goto(states: seq<State>, nonterminals: seq<Ident>) returns (table: seq<nat>)
    ensures table == Matrix(CtnRows(states), nonterminals, 0)
  {
    table := FillMatrix(CtnRows(states), nonterminals, 0);
  }

  /** `ACTIONS` has `len(states) * len(terminals)` entries; the entry of a
      state and a terminal is the state's action for it, or `ERROR`. */
  lemma ActionsLayout(states: seq<State>, terminals: seq<Terminal>, i: nat, j: nat)
    requires i < |states| && j < |terminals|
    ensures |Matrix(ActionCellRows(states), terminals, ErrorCode)| == |states| * |terminals|
    ensures i * |terminals| + j < |states| * |terminals|
    ensures Matrix(ActionCellRows(states), terminals, ErrorCode)[i * |terminals| + j] ==
      if terminals[j] in Keys(states[i].actionRow) then Code(Get(states[i].actionRow, terminals[j], 0)) else ErrorCode
  {
    var rows := ActionCellRows(states);
    MatrixEntry(rows, terminals, ErrorCode, i, j);
    GetMeaning(rows[i], terminals[j], ErrorCode);
    GetMeaning(states[i].actionRow, terminals[j], 0);
    assert Keys(rows[i]) == Keys(states[i].actionRow);
  }

  /** `GOTO` has `len(states) * len(nonterminals)` entries; the entry of a
      state and a nonterminal is the state's successor for it, or 0. */
  lemma GotoLayout(states: seq<State>, nonterminals: seq<Ident>, i: nat, j: nat)
    requires i < |states| && j < |nonterminals|
    ensures |Matrix(CtnRows(states), nonterminals, 0)| == |states| * |nonterminals|
    ensures i * |nonterminals| + j < |states| * |nonterminals|
    ensures Matrix(CtnRows(states), nonterminals, 0)[i * |nonterminals| + j] ==
      if nonterminals[j] in Keys(states[i].ctnRow)
      then states[i].ctnRow[FirstIndex(Keys(states[i].ctnRow), nonterminals[j])].1
      else 0
  {
    MatrixEntry(CtnRows(states), nonterminals, 0, i, j);
    GetMeaning(states[i].ctnRow, nonterminals[j], 0);
  }

  // *** reduce ********************************************************************

  /** A production as the writer sees it. */
  datatype Prod = Prod(nt: Ident, rhs: seq<Element>, action: ReduceExpr)

  /** For each builder method, which of its arguments have the unit type
      (the inferred method types, taken as given). */
  type UnitArgs = map<string, seq<bool>>

  datatype EmitError =
    | UnknownMethod(name: string)
    | ArityMismatch(name: string)
    | NoSuchElement(index: int)
    | AcceptInReduce

  /** Python's `variable_used[i]` on a list of length `n`: negative indices
      count from the end. */
  function PyIndex(i: int, n: nat): Option<nat> {
    if 0 <= i < n then Some(i) else if -(n as int) <= i < 0 then Some(n + i) else None
  }

  /** The elements the Rust `compile_reduce_expr` marks as used; the
      arguments of unit type are not compiled. */
  function UsedRefs(unit: UnitArgs, n: nat, e: ReduceExpr): Result<set<nat>, EmitError>
    decreases e
  {
    match e
    case CallMethod(m, args) =>
      if m !in unit then Failure(UnknownMethod(m))
      else if |unit[m]| != |args| then Failure(ArityMismatch(m))
      else UsedRefsArgs(unit, n, unit[m], args)
    case SomeValue(inner) => UsedRefs(unit, n, inner)
    case NoneValue => Success({})
    case Ref(i) => if PyIndex(i, n).Some? then Success({PyIndex(i, n).value}) else Failure(NoSuchElement(i))
    case Accept => Failure(AcceptInReduce)
  }

  function UsedRefsArgs(unit: UnitArgs, n: nat, isUnit: seq<bool>, args: seq<ReduceExpr>): Result<set<nat>, EmitError>
    requires |isUnit| == |args|
    decreases args
  {
    if |args| == 0 then Success({})
    else
      var done := UsedRefsArgs(unit, n, isUnit[..|args| - 1], args[..|args| - 1]);
      var last := if isUnit[|args| - 1] then Success({}) else UsedRefs(unit, n, args[|args| - 1]);
      if done.Failure? then done
      else if last.Failure? then last
      else Success(done.value + last.value)
  }

  /** `variable_used` after marking the elements of `s`. */
  function Mark(used: seq<bool>, s: set<nat>): (r: seq<bool>)
    ensures |r| == |used| && forall k :: 0 <= k < |used| ==> r[k] == (used[k] || k in s)
  {
    seq(|used|, k requires 0 <= k < |used| => used[k] || k in s)
  }

  /** The Rust `compile_reduce_expr`, as far as it changes `variable_used`. */
  method CompileReduceExpr(unit: UnitArgs, e: ReduceExpr, used: array<bool>) returns (r: Result<(), EmitError>)
    modifies used
    ensures r.Success? <==> UsedRefs(unit, used.Length, e).Success?
    ensures r.Success? ==> used[..] == Mark(old(used[..]), UsedRefs(unit, used.Length, e).value)
    decreases e
  {
    match e
    case CallMethod(m, args) =>
      if m !in unit {
        return Failure(UnknownMethod(m));
      }
      if |unit[m]| != |args| {
        return Failure(ArityMismatch(m));
      }
      ghost var start := used[..];
      var k := 0;
      while k < |args|
        invariant 0 <= k <= |args|
        invariant UsedRefsArgs(unit, used.Length, unit[m][..k], args[..k]).Success?
        invariant used[..] == Mark(start, UsedRefsArgs(unit, used.Length, unit[m][..k], args[..k]).value)
      {
        assert args[..k + 1][..k] == args[..k] && unit[m][..k + 1][..k] == unit[m][..k];
        if !unit[m][k] {
          var a := CompileReduceExpr(unit, args[k], used);
          if a.Failure? {
            UsedRefsArgsStop(unit, used.Length, unit[m], args, k + 1);
            return a;
          }
        }
        k := k + 1;
      }
      assert args[..k] == args && unit[m][..k] == unit[m];
      return Success(());
    case SomeValue(inner) =>
      r := CompileReduceExpr(unit, inner, used);
    case NoneValue =>
      return Success(());
    case Ref(i) =>
      var n := used.Length;
      if 0 <= i < n {
        used[i] := true;
      } else if -(n as int) <= i < 0 {
        used[n + i] := true;
      } else {
        return Failure(NoSuchElement(i));
      }
      return Success(());
    case Accept =>
      return Failure(AcceptInReduce);
  }

  lemma {:induction false} UsedRefsArgsStop(unit: UnitArgs, n: nat, isUnit: seq<bool>, args: seq<ReduceExpr>, k: nat)
    requires |isUnit| == |args| && k <= |args| && UsedRefsArgs(unit, n, isUnit[..k], args[..k]).Failure?
    ensures UsedRefsArgs(unit, n, isUnit, args) == UsedRefsArgs(unit, n, isUnit[..k], args[..k])
    decreases |args|
  {
    if k < |args| {
      var m := |args| - 1;
      assert isUnit[..m][..k] == isUnit[..k] && args[..m][..k] == args[..k];
      UsedRefsArgsStop(unit, n, isUnit[..m], args[..m], k);
    } else {
      assert isUnit[..k] == isUnit && args[..k] == args;
    }
  }

  /** Only referenced elements are marked: an element number in the result
      is a reference of the expression, possibly counted from the end. */
  lemma {:induction false} UsedRefsReferenced(unit: UnitArgs, n: nat, e: ReduceExpr)
    ensures UsedRefs(unit, n, e).Success? ==>
      forall k :: k in UsedRefs(unit, n, e).value ==> k < n && ((k as int) in Refs(e) || (k as int) - n in Refs(e))
    decreases e
  {
    match e
    case CallMethod(m, args) =>
      if m in unit && |unit[m]| == |args| {
        var used := UsedRefsArgs(unit, n, unit[m], args);
        assert UsedRefs(unit, n, e) == used;
        UsedRefsArgsReferenced(unit, n, unit[m], args);
        var ss := seq(|args|, a requires 0 <= a < |args| => Refs(args[a]));
        assert Refs(e) == UnionAll(ss);
        if used.Success? {
          forall k | k in used.value ensures k < n && ((k as int) in Refs(e) || (k as int) - n in Refs(e)) {
            var a :| 0 <= a < |args| && ((k as int) in Refs(args[a]) || (k as int) - n in Refs(args[a]));
            assert Refs(args[a]) == ss[a];
          }
        }
      }
    case SomeValue(inner) =>
      UsedRefsReferenced(unit, n, inner);
    case NoneValue =>
    case Ref(i) =>
    case Accept =>
  }

  lemma {:induction false} UsedRefsArgsReferenced(unit: UnitArgs, n: nat, isUnit: seq<bool>, args: seq<ReduceExpr>)
    requires |isUnit| == |args|
    ensures UsedRefsArgs(unit, n, isUnit, args).Success? ==>
      forall k :: k in UsedRefsArgs(unit, n, isUnit, args).value ==>
        k < n && exists a :: 0 <= a < |args| && ((k as int) in Refs(args[a]) || (k as int) - n in Refs(args[a]))
    decreases args
  {
    if |args| > 0 {
      var m := |args| - 1;
      UsedRefsArgsReferenced(unit, n, isUnit[..m], args[..m]);
      assert forall a :: 0 <= a < m ==> args[..m][a] == args[a];
      if !isUnit[m] {
        UsedRefsReferenced(unit, n, args[m]);
      }
    }
  }

  /** What a generated arm does to the value stack. */
  datatype StackOp =
    | Pop(index: nat, bind: bool)   // `let x<index> = ... stack.pop()` or a bare `stack.pop()`
    | PushResult                    // `stack.push(<compiled expression>)`

  /** One pop per concrete element, the last element first; a pop binds
      its value when the element is used. */
  function Pops(used: seq<bool>): seq<StackOp>
    decreases |used|
  {
    if |used| == 0 then [] else [Pop(|used| - 1, used[|used| - 1])] + Pops(used[..|used| - 1])
  }

  function ReduceOps(used: seq<bool>): seq<StackOp> {
    Pops(used) + [PushResult]
  }

  /** The statements of one arm, `for index, e in reversed(...)` then the
      push. */
  method ReduceCase(used: array<bool>) returns (ops: seq<StackOp>)
    ensures ops == ReduceOps(used[..])
  {
    ops := [];
    var index := used.Length;
    assert used[..index] == used[..];
    while index > 0
      invariant 0 <= index <= used.Length
      invariant ops + Pops(used[..index]) == Pops(used[..])
    {
      index := index - 1;
      assert used[..index + 1][..index] == used[..index];
      ops := ops + [Pop(index, used[index])];
    }
    ops := ops + [PushResult];
  }

  /** Running an arm on the value stack: each pop takes the top value and
      binds it to its element number when asked; the push adds
      `value(bindings)`. A binding pop of an empty stack panics
      (`unwrap`); a bare `stack.pop()` of an empty stack does nothing. */
  function Exec<V>(ops: seq<StackOp>, stack: seq<V>, env: map<nat, V>, value: map<nat, V> -> V): Option<seq<V>>
    decreases |ops|
  {
    if |ops| == 0 then Some(stack)
    else match ops[0]
      case PushResult => Exec(ops[1..], stack + [value(env)], env, value)
      case Pop(i, bind) =>
        if |stack| == 0 then (if bind then None else Exec(ops[1..], stack, env, value))
        else Exec(ops[1..], stack[..|stack| - 1], if bind then env[i := stack[|stack| - 1]] else env, value)
  }

  /** The values of the used elements, by element number. */
  function Bindings<V>(used: seq<bool>, vals: seq<V>): map<nat, V>
    requires |used| == |vals|
  {
    map i: nat | i < |used| && used[i] :: vals[i]
  }

  lemma ExecPopStep<V>(i: nat, bind: bool, rest: seq<StackOp>, stack: seq<V>, env: map<nat, V>, value: map<nat, V> -> V)
    requires |stack| > 0
    ensures Exec([Pop(i, bind)] + rest, stack, env, value) ==
      Exec(rest, stack[..|stack| - 1], if bind then env[i := stack[|stack| - 1]] else env, value)
  {
    assert ([Pop(i, bind)] + rest)[1..] == rest;
  }

  lemma BindingsStep<V>(used: seq<bool>, vals: seq<V>, env: map<nat, V>)
    requires |vals| == |used| > 0 && forall k :: k in env ==> k >= |used|
    ensures var n := |used| - 1;
      (if used[n] then env[n := vals[n]] else env) + Bindings(used[..n], vals[..n]) == env + Bindings(used, vals)
  {
  }

  lemma {:induction false} ExecPops<V>(used: seq<bool>, base: seq<V>, vals: seq<V>, env: map<nat, V>, rest: seq<StackOp>, value: map<nat, V> -> V)
    requires |vals| == |used| && forall k :: k in env ==> k >= |used|
    ensures Exec(Pops(used) + rest, base + vals, env, value) == Exec(rest, base, env + Bindings(used, vals), value)
    decreases |used|
  {
    if |used| == 0 {
      assert base + vals == base;
      assert Pops(used) + rest == rest;
      assert env + Bindings(used, vals) == env;
    } else {
      var n := |used| - 1;
      var p := used[..n];
      assert Pops(used) + rest == [Pop(n, used[n])] + (Pops(p) + rest);
      var stack := base + vals;
      assert stack[..|stack| - 1] == base + vals[..n];
      ExecPopStep(n, used[n], Pops(p) + rest, stack, env, value);
      var env' := if used[n] then env[n := vals[n]] else env;
      ExecPops(p, base, vals[..n], env', rest, value);
      BindingsStep(used, vals, env);
    }
  }

  /** An arm pops exactly the values of the production's concrete elements,
      binds each used one to its own element number, and pushes one result
      computed from those bindings: the stack shrinks by `n - 1`. */
  lemma ReduceArmEffect<V>(used: seq<bool>, base: seq<V>, vals: seq<V>, value: map<nat, V> -> V)
    requires |vals| == |used|
    ensures Exec(ReduceOps(used), base + vals, map[], value) == Some(base + [value(Bindings(used, vals))])
  {
    ExecPops(used, base, vals, map[], [PushResult], value);
    assert map[] + Bindings(used, vals) == Bindings(used, vals);
  }

  /** An arm panics exactly when one of the elements it binds lies below
      the bottom of the stack; otherwise it leaves the values under the
      production's (none when the stack was shorter) and the pushed one. */
  lemma {:induction false} ReduceArmShortStack<V>(used: seq<bool>, stack: seq<V>, env: map<nat, V>, value: map<nat, V> -> V)
    ensures Exec(ReduceOps(used), stack, env, value).None? <==>
      exists k :: 0 <= k < |used| - |stack| && used[k]
    ensures Exec(ReduceOps(used), stack, env, value).Some? ==>
      |Exec(ReduceOps(used), stack, env, value).value| == (if |stack| >= |used| then |stack| - |used| else 0) + 1
    decreases |used|
  {
    if |used| == 0 {
      assert ReduceOps(used) == [PushResult];
      assert Exec(ReduceOps(used), stack, env, value) == Exec([], stack + [value(env)], env, value);
    } else {
      var n := |used| - 1;
      var p := used[..n];
      assert ReduceOps(used) == [Pop(n, used[n])] + ReduceOps(p);
      assert ReduceOps(used)[1..] == ReduceOps(p);
      assert forall k :: 0 <= k < n ==> p[k] == used[k];
      if |stack| > 0 {
        ReduceArmShortStack(p, stack[..|stack| - 1], if used[n] then env[n := stack[|stack| - 1]] else env, value);
      } else if !used[n] {
        ReduceArmShortStack(p, stack, env, value);
      }
    }
  }

  // *** The match over productions ***

  /** `case i => { ... NonterminalId::<nt> }`: the production number, the
      stack operations, and the index of the nonterminal in
      `self.nonterminals`, which is the value of its `NonterminalId`. */
  datatype ReduceArm = ReduceArm(prod: nat, ops: seq<StackOp>, ntId: nat)

  /** `variable_used` after compiling the expression. */
  function UsedFlags(n: nat, s: set<nat>): (r: seq<bool>)
    ensures |r| == n && forall k :: 0 <= k < n ==> r[k] == (k in s)
  {
    Mark(seq(n, _ => false), s)
  }

  function ArmFor(unit: UnitArgs, nts: seq<Ident>, i: nat, prod: Prod): Result<ReduceArm, EmitError>
    requires prod.nt in nts
  {
    var n := ConcreteCount(prod.rhs);
    var u := UsedRefs(unit, n, prod.action);
    if u.Failure? then Failure(u.error)
    else Success(ReduceArm(i, ReduceOps(UsedFlags(n, u.value)), FirstIndex(nts, prod.nt)))
  }

  /** The arms generated for the first `|prods|` productions. */
  function ReduceArms(unit: UnitArgs, prods: seq<Prod>, nts: seq<Ident>): Result<seq<ReduceArm>, EmitError>
    decreases |prods|
  {
    if |prods| == 0 then Success([])
    else
      var n := |prods| - 1;
      var done := ReduceArms(unit, prods[..n], nts);
      if done.Failure? || prods[n].nt !in nts then done
      else
        var arm := ArmFor(unit, nts, n, prods[n]);
        if arm.Failure? then Failure(arm.error) else Success(done.value + [arm.value])
  }

  lemma {:induction false} ReduceArmsStop(unit: UnitArgs, prods: seq<Prod>, nts: seq<Ident>, k: nat)
    requires k <= |prods| && ReduceArms(unit, prods[..k], nts).Failure?
    ensures ReduceArms(unit, prods, nts) == ReduceArms(unit, prods[..k], nts)
    decreases |prods|
  {
    if k < |prods| {
      var p := prods[..|prods| - 1];
      assert p[..k] == prods[..k];
      ReduceArmsStop(unit, p, nts, k);
    } else {
      assert prods[..k] == prods;
    }
  }

  /** `reduce`: one arm per production whose nonterminal is in
      `self.nonterminals`. */
  method Reduce(unit: UnitArgs, prods: seq<Prod>, nts: seq<Ident>) returns (r: Result<seq<ReduceArm>, EmitError>)
    ensures r == ReduceArms(unit, prods, nts)
  {
    var arms: seq<ReduceArm> := [];
    var i := 0;
    while i < |prods|
      invariant 0 <= i <= |prods|
      invariant ReduceArms(unit, prods[..i], nts) == Success(arms)
    {
      assert prods[..i + 1][..i] == prods[..i];
      var prod := prods[i];
      if prod.nt in nts {
        var n := ConcreteCount(prod.rhs);
        var used := new bool[n](_ => false);
        assert used[..] == seq(n, _ => false);
        var c := CompileReduceExpr(unit, prod.action, used);
        if c.Failure? {
          ReduceArmsStop(unit, prods, nts, i + 1);
          return Failure(UsedRefs(unit, n, prod.action).error);
        }
        var ops := ReduceCase(used);
        arms := arms + [ReduceArm(i, ops, FirstIndex(nts, prod.nt))];
      }
      i := i + 1;
    }
    assert prods[..i] == prods;
    return Success(arms);
  }

  /** What makes an arm the right one for production `prod`. */
  predicate ArmOf(unit: UnitArgs, prods: seq<Prod>, nts: seq<Ident>, arm: ReduceArm) {
    arm.prod < |prods| && prods[arm.prod].nt in nts &&
    UsedRefs(unit, ConcreteCount(prods[arm.prod].rhs), prods[arm.prod].action).Success? &&
    arm.ops == ReduceOps(UsedFlags(ConcreteCount(prods[arm.prod].rhs),
      UsedRefs(unit, ConcreteCount(prods[arm.prod].rhs), prods[arm.prod].action).value)) &&
    arm.ntId < |nts| && nts[arm.ntId] == prods[arm.prod].nt
  }

  /** Every arm belongs to a production of a listed nonterminal, pops that
      production's concrete elements, and returns an id below the goto
      width; the arms follow the production order. */
  lemma {:induction false} ReduceArmsSound(unit: UnitArgs, prods: seq<Prod>, nts: seq<Ident>)
    requires ReduceArms(unit, prods, nts).Success?
    ensures forall a :: 0 <= a < |ReduceArms(unit, prods, nts).value| ==> ArmOf(unit, prods, nts, ReduceArms(unit, prods, nts).value[a])
    ensures forall a, b :: 0 <= a < b < |ReduceArms(unit, prods, nts).value| ==>
      ReduceArms(unit, prods, nts).value[a].prod < ReduceArms(unit, prods, nts).value[b].prod
    ensures forall a :: 0 <= a < |ReduceArms(unit, prods, nts).value| ==> ReduceArms(unit, prods, nts).value[a].prod < |prods|
    decreases |prods|
  {
    if |prods| > 0 {
      var n := |prods| - 1;
      var p := prods[..n];
      ReduceArmsSound(unit, p, nts);
      var done := ReduceArms(unit, p, nts).value;
      forall a | 0 <= a < |done| ensures ArmOf(unit, prods, nts, done[a]) {
        assert prods[done[a].prod] == p[done[a].prod];
      }
    }
  }

  /** Every production of a listed nonterminal gets an arm. */
  lemma {:induction false} ReduceArmsComplete(unit: UnitArgs, prods: seq<Prod>, nts: seq<Ident>, i: nat)
    requires ReduceArms(unit, prods, nts).Success? && i < |prods| && prods[i].nt in nts
    ensures exists a :: 0 <= a < |ReduceArms(unit, prods, nts).value| && ReduceArms(unit, prods, nts).value[a].prod == i
    decreases |prods|
  {
    var n := |prods| - 1;
    var p := prods[..n];
    var done := ReduceArms(unit, p, nts);
    assert done.Success?;
    var r := ReduceArms(unit, prods, nts).value;
    if i < n {
      ReduceArmsComplete(unit, p, nts, i);
      var a :| 0 <= a < |done.value| && done.value[a].prod == i;
      assert r[a] == done.value[a];
    } else {
      assert r[|r| - 1].prod == i;
    }
  }
}
