/**
 * The LL(1) table and the parse loop of the earlier checker. The table
 * keeps one production per cell and the builder gives up at the first
 * cell that would get a second one; the parse loop stops as soon as the
 * lookahead is the literal `$` or the stack is empty, and has no fallback
 * for a missing cell.
 */
module LegacyTable {
  import opened Wrappers
  import opened SymbolTable
  import opened Grammar
  import opened LegacyParser
  import LST = LegacySymbolTable
  import PM = ParseMachine

  /** Non-terminal, then lookahead, then the one production of that cell. */
  type Cells = map<string, map<string, Production>>

  /** How building the table ends: the table, a cell claimed twice, or a director set that could not be computed. */
  datatype Build = Built(table: Cells) | Conflict | BuildFailed(reason: Search)

  // =====================================================================
  // One column: the productions of one antecedent
  // =====================================================================

  /** The director sets of the productions of A, in order. */
  ghost function Directors(st: Table, g: Rules, fuel: nat, A: string): (ds: seq<Option<set<string>>>)
    requires A in g
    ensures |ds| == |g[A]|
  {
    seq(|g[A]|, j requires 0 <= j < |g[A]| => DirectorSet(st, g, fuel, A, g[A][j]))
  }

  /** Productions j and k both have director sets, and these share a symbol. */
  predicate Overlap(ds: seq<Option<set<string>>>, j: nat, k: nat)
  {
    && j < |ds| && k < |ds| && j != k
    && ds[j].Some? && ds[k].Some?
    && ds[j].value * ds[k].value != {}
  }

  /** Among the first n productions, every director set exists and no two overlap. */
  predicate ColumnLL1UpTo(ds: seq<Option<set<string>>>, n: nat)
  {
    && n <= |ds|
    && (forall j :: 0 <= j < n ==> ds[j].Some?)
    && (forall j, k :: 0 <= j < n && 0 <= k < n ==> !Overlap(ds, j, k))
  }

  predicate ColumnLL1(ds: seq<Option<set<string>>>)
  {
    ColumnLL1UpTo(ds, |ds|)
  }

  /**
   * The column holds, for each of the first n productions, each of its
   * director symbols, mapped to that production, and nothing else.
   */
  predicate ColumnUpTo(ps: seq<Production>, ds: seq<Option<set<string>>>, n: nat, col: map<string, Production>)
  {
    && n <= |ps| == |ds|
    && (forall j, x :: 0 <= j < n && ds[j].Some? && x in ds[j].value ==> x in col && col[x] == ps[j])
    && (forall x :: x in col ==> exists j :: 0 <= j < n && ds[j].Some? && x in ds[j].value)
  }

  predicate ColumnOf(ps: seq<Production>, ds: seq<Option<set<string>>>, col: map<string, Production>)
  {
    ColumnUpTo(ps, ds, |ps|, col)
  }

  // =====================================================================
  // The whole table
  // =====================================================================

  /** The grammar is LL(1) for the earlier checker: every director set exists and, per antecedent, no two overlap. */
  ghost predicate IsLL1(st: Table, g: Rules, fuel: nat)
  {
    forall A :: A in g ==> ColumnLL1(Directors(st, g, fuel, A))
  }

  /** T is the table of the grammar: one column per antecedent, each the column of its productions. */
  ghost predicate TableOf(st: Table, g: Rules, fuel: nat, T: Cells)
  {
    && T.Keys == g.Keys
    && forall A :: A in T ==> ColumnOf(g[A], Directors(st, g, fuel, A), T[A])
  }

  /** A cell is claimed by at most one production, so the column of an LL(1) antecedent is determined. */
  lemma ColumnUnique(ps: seq<Production>, ds: seq<Option<set<string>>>, c1: map<string, Production>, c2: map<string, Production>)
    requires ColumnLL1(ds) && ColumnOf(ps, ds, c1) && ColumnOf(ps, ds, c2)
    ensures c1 == c2
  {
    forall x | x in c1
      ensures x in c2 && c2[x] == c1[x]
    {
      var j :| 0 <= j < |ps| && ds[j].Some? && x in ds[j].value;
    }
    forall x | x in c2
      ensures x in c1
    {
      var j :| 0 <= j < |ps| && ds[j].Some? && x in ds[j].value;
    }
  }

  /** So the table of an LL(1) grammar is determined by the grammar. */
  lemma TableUnique(st: Table, g: Rules, fuel: nat, T1: Cells, T2: Cells)
    requires IsLL1(st, g, fuel) && TableOf(st, g, fuel, T1) && TableOf(st, g, fuel, T2)
    ensures T1 == T2
  {
    forall A | A in T1
      ensures T1[A] == T2[A]
    {
      ColumnUnique(g[A], Directors(st, g, fuel, A), T1[A], T2[A]);
    }
  }

  /** Every cell of the table is keyed by a terminal other than EPSILON. */
  lemma TableKeysTerminal(st: Table, g: Rules, fuel: nat, T: Cells)
    requires TableOf(st, g, fuel, T)
    ensures forall A, x :: A in T && x in T[A] ==> x != Epsilon && IsTerminalIn(st, x)
  {
    forall A, x | A in T && x in T[A]
      ensures x != Epsilon && IsTerminalIn(st, x)
    {
      var ds := Directors(st, g, fuel, A);
      var j :| 0 <= j < |g[A]| && ds[j].Some? && x in ds[j].value;
      DirectorSetTerminals(st, g, fuel, A, g[A][j]);
    }
  }

  // =====================================================================
  // create_ll1_table
  // =====================================================================

  /** How building one column ends. */
  datatype ColumnBuild = ColumnBuilt(col: map<string, Production>) | ColumnClash | ColumnFailed(reason: Search)

  /**
   * Adds every director symbol of production k to the column, each mapped
   * to that production; a symbol the column already holds is a clash.
   */
  method InsertAll(col: map<string, Production>, ds: set<string>, p: Production) returns (r: Option<map<string, Production>>)
    ensures r.Some? <==> col.Keys !! ds
    ensures r.Some? ==> r.value.Keys == col.Keys + ds
    ensures r.Some? ==> (forall x :: x in col ==> r.value[x] == col[x]) && (forall x :: x in ds ==> r.value[x] == p)
  {
    var entry := col;
    var todo := ds;
    while todo != {}
      invariant todo <= ds
      invariant entry.Keys == col.Keys + (ds - todo)
      invariant col.Keys !! (ds - todo)
      invariant forall x :: x in col ==> entry[x] == col[x]
      invariant forall x :: x in ds - todo ==> entry[x] == p
      decreases todo
    {
      var x :| x in todo;
      if x in entry {
        return None;
      }
      entry := entry[x := p];
      todo := todo - {x};
    }
    return Some(entry);
  }

  /** Adding production k's director set to the column of the first k productions. */
  lemma ColumnStep(ps: seq<Production>, ds: seq<Option<set<string>>>, k: nat, col: map<string, Production>, col': map<string, Production>)
    requires k < |ps| == |ds| && ds[k].Some?
    requires ColumnLL1UpTo(ds, k) && ColumnUpTo(ps, ds, k, col)
    requires col.Keys !! ds[k].value && col'.Keys == col.Keys + ds[k].value
    requires (forall x :: x in col ==> col'[x] == col[x]) && (forall x :: x in ds[k].value ==> col'[x] == ps[k])
    ensures ColumnLL1UpTo(ds, k + 1) && ColumnUpTo(ps, ds, k + 1, col')
  {
    forall j | 0 <= j < k
      ensures !Overlap(ds, j, k) && !Overlap(ds, k, j)
    {
      forall x | x in ds[j].value
        ensures x !in ds[k].value
      {
        assert x in col;
      }
    }
    forall j, x | 0 <= j < k + 1 && ds[j].Some? && x in ds[j].value
      ensures x in col' && col'[x] == ps[j]
    {
      if j < k {
        assert x in col;
      }
    }
  }

  /** A symbol already in the column of the first k productions, and in production k's set, is an overlap. */
  lemma ClashFound(ps: seq<Production>, ds: seq<Option<set<string>>>, k: nat, col: map<string, Production>)
    requires k < |ps| == |ds| && ds[k].Some?
    requires ColumnUpTo(ps, ds, k, col)
    requires !(col.Keys !! ds[k].value)
    ensures exists j :: 0 <= j < k && Overlap(ds, j, k)
  {
    var x :| x in col && x in ds[k].value;
    var j :| 0 <= j < k && ds[j].Some? && x in ds[j].value;
    assert x in ds[j].value * ds[k].value;
    assert Overlap(ds, j, k);
  }

  /**
   * Production k is the first, in list order, whose director set meets that
   * of an earlier one: the sets before it are known and pairwise disjoint.
   */
  predicate FirstClashAt(ds: seq<Option<set<string>>>, k: nat)
  {
    && k < |ds| && ColumnLL1UpTo(ds, k) && ds[k].Some?
    && exists j :: 0 <= j < k && Overlap(ds, j, k)
  }

  /**
   * Production k of A is the first, in list order, whose director set cannot
   * be computed, and `director_symbol` ends on it with `reason`.
   */
  ghost predicate FailsFirstAt(st: Table, g: Rules, fuel: nat, A: string, k: nat, reason: Search)
  {
    && A in g && k < |g[A]| && ColumnLL1UpTo(Directors(st, g, fuel, A), k)
    && DirectorOutcome(st, g, fuel, A, g[A][k], reason)
  }

  /**
   * The column of one antecedent: the director set of each production in
   * turn, every symbol of it claiming its cell for that production.
   */
  method BuildColumn(table: LST.SymbolTable, g: Rules, fuel: nat, ghost st0: Table, A: string) returns (r: ColumnBuild)
    requires A in g
    requires table.Valid() && LST.Extends(st0, table.st)
    modifies table`st
    ensures table.Valid() && LST.Extends(st0, table.st)
    ensures r.ColumnBuilt? <==> ColumnLL1(Directors(st0, g, fuel, A))
    ensures r.ColumnBuilt? ==> ColumnOf(g[A], Directors(st0, g, fuel, A), r.col)
    ensures r.ColumnClash? ==> exists k :: FirstClashAt(Directors(st0, g, fuel, A), k)
    ensures r.ColumnFailed? ==> !r.reason.Found? && exists k :: FailsFirstAt(st0, g, fuel, A, k, r.reason)
  {
    ghost var ds := Directors(st0, g, fuel, A);
    var ps := g[A];
    var entry: map<string, Production> := map[];
    for k := 0 to |ps|
      invariant table.Valid() && LST.Extends(st0, table.st)
      invariant ColumnLL1UpTo(ds, k) && ColumnUpTo(ps, ds, k, entry)
    {
      var d := DirectorSymbol(table, g, fuel, st0, A, ps[k]);
      assert ds[k] == DirectorSet(st0, g, fuel, A, ps[k]);
      if !d.Found? {
        assert FailsFirstAt(st0, g, fuel, A, k, d);
        return ColumnFailed(d);
      }
      var next := InsertAll(entry, d.symbols, ps[k]);
      if next.None? {
        ClashFound(ps, ds, k, entry);
        assert FirstClashAt(ds, k);
        return ColumnClash;
      }
      ColumnStep(ps, ds, k, entry, next.value);
      entry := next.value;
    }
    return ColumnBuilt(entry);
  }

  /**
   * `create_ll1_table`: the column of every antecedent, in no particular
   * order; the first clash or failure ends the construction.
   */
  method CreateLL1Table(table: LST.SymbolTable, g: Rules, fuel: nat, ghost st0: Table) returns (r: Build)
    requires table.Valid() && LST.Extends(st0, table.st)
    modifies table`st
    ensures table.Valid() && LST.Extends(st0, table.st)
    ensures r.Built? <==> IsLL1(st0, g, fuel)
    ensures r.Built? ==> TableOf(st0, g, fuel, r.table)
    ensures r.Conflict? ==> exists A, k :: A in g && FirstClashAt(Directors(st0, g, fuel, A), k)
    ensures r.BuildFailed? ==> !r.reason.Found? && exists A, k :: A in g && FailsFirstAt(st0, g, fuel, A, k, r.reason)
  {
    var ll1: Cells := map[];
    var todo := g.Keys;
    while todo != {}
      invariant todo <= g.Keys
      invariant table.Valid() && LST.Extends(st0, table.st)
      invariant ll1.Keys == g.Keys - todo
      invariant forall A :: A in ll1 ==> ColumnLL1(Directors(st0, g, fuel, A)) && ColumnOf(g[A], Directors(st0, g, fuel, A), ll1[A])
      decreases todo
    {
      var A :| A in todo;
      var c := BuildColumn(table, g, fuel, st0, A);
      match c
      case ColumnClash =>
        ClashNotLL1(st0, g, fuel, A);
        return Conflict;
      case ColumnFailed(reason) =>
        return BuildFailed(reason);
      case ColumnBuilt(col) =>
        ll1 := ll1[A := col];
        todo := todo - {A};
    }
    return Built(ll1);
  }

  /** An overlap in one column makes the grammar not LL(1). */
  lemma ClashNotLL1(st: Table, g: Rules, fuel: nat, A: string)
    requires A in g && exists j, k :: Overlap(Directors(st, g, fuel, A), j, k)
    ensures !IsLL1(st, g, fuel)
  {
    var j, k :| Overlap(Directors(st, g, fuel, A), j, k);
  }

  // =====================================================================
  // ll1_parser
  // =====================================================================

  /** The loop's state: the stack (top last), the token source position and the lookahead. */
  datatype LegacyConfig = LegacyConfig(stack: seq<string>, pos: nat, current: string)

  /** How the parse loop ends: true, false, or (in the model only) fuel running out. */
  datatype Outcome = Accepted | Rejected | OutOfFuel

  /** What `ll1_parser` reports: the loop's outcome once the table exists, or why the table could not be built. */
  datatype Verdict = Parsed(outcome: Outcome) | NotLL1 | Stuck(reason: Search)

  /** The axiom alone on the stack and the first token read. */
  function Start(axiom: string, tokens: seq<string>): LegacyConfig
  {
    LegacyConfig([axiom], PM.Advance(tokens, 0), PM.Token(tokens, 0))
  }

  /**
   * The parse loop for at most `fuel` turns, with the configuration it
   * stops in. It succeeds as soon as the lookahead is `$` or the stack is
   * empty. EPSILON on top is popped. A non-terminal on top is replaced by
   * the production of its cell for the lookahead, pushed in reverse, and
   * with no such cell the parse fails. A terminal on top must equal the
   * lookahead, and the next token is read.
   */
  function Run(st: Table, T: Cells, tokens: seq<string>, c: LegacyConfig, fuel: nat): (Outcome, LegacyConfig)
    decreases fuel
  {
    if c.current == "$" || c.stack == [] then (Accepted, c)
    else if fuel == 0 then (OutOfFuel, c)
    else
      var top := c.stack[|c.stack| - 1];
      var rest := c.stack[..|c.stack| - 1];
      if top == Epsilon then Run(st, T, tokens, c.(stack := rest), fuel - 1)
      else if !IsTerminalIn(st, top) then
        if top in T && c.current in T[top] then Run(st, T, tokens, c.(stack := rest + PM.Reverse(T[top][c.current])), fuel - 1)
        else (Rejected, c.(stack := rest))
      else if top != c.current then (Rejected, c.(stack := rest))
      else Run(st, T, tokens, LegacyConfig(rest, PM.Advance(tokens, c.pos), PM.Token(tokens, c.pos)), fuel - 1)
  }

  /** The loop over the built table, with every kind lookup made through the symbol table object. */
  method ParseWith(table: LST.SymbolTable, T: Cells, axiom: string, tokens: seq<string>, steps: nat, ghost st0: Table)
    returns (o: Outcome)
    requires table.Valid() && LST.Extends(st0, table.st)
    modifies table`st
    ensures table.Valid() && LST.Extends(st0, table.st)
    ensures o == Run(st0, T, tokens, Start(axiom, tokens), steps).0
  {
    var stack := [axiom];
    var pos := PM.Advance(tokens, 0);
    var l := PM.Token(tokens, 0);
    var n := steps;
    while l != "$" && stack != []
      invariant table.Valid() && LST.Extends(st0, table.st)
      invariant Run(st0, T, tokens, Start(axiom, tokens), steps) == Run(st0, T, tokens, LegacyConfig(stack, pos, l), n)
      decreases n
    {
      if n == 0 {
        return OutOfFuel;
      }
      n := n - 1;
      var s := stack[|stack| - 1];
      stack := stack[..|stack| - 1];
      if s != Epsilon {
        ghost var before := table.st;
        LST.ExtendsKinds(st0, before, s);
        var terminal := table.IsTerminal(s);
        LST.TouchExtends(st0, before, s);
        if !terminal {
          if !(s in T && l in T[s]) {
            return Rejected;
          }
          stack := stack + PM.Reverse(T[s][l]);
        } else {
          if s != l {
            return Rejected;
          }
          l, pos := PM.Token(tokens, pos), PM.Advance(tokens, pos);
        }
      }
    }
    return Accepted;
  }

  /**
   * `ll1_parser`: build the table, then run the loop from the axiom. A
   * grammar that is not LL(1), or whose director sets cannot be computed,
   * ends before any input is read.
   */
  method LL1Parse(table: LST.SymbolTable, g: Rules, axiom: string, tokens: seq<string>, fuel: nat, steps: nat, ghost st0: Table)
    returns (v: Verdict)
    requires table.Valid() && LST.Extends(st0, table.st)
    modifies table`st
    ensures table.Valid() && LST.Extends(st0, table.st)
    ensures v.Parsed? <==> IsLL1(st0, g, fuel)
    ensures v.Parsed? ==> exists T :: TableOf(st0, g, fuel, T) && v.outcome == Run(st0, T, tokens, Start(axiom, tokens), steps).0
    ensures v.Parsed? ==> forall T :: TableOf(st0, g, fuel, T) ==> v.outcome == Run(st0, T, tokens, Start(axiom, tokens), steps).0
    ensures v.NotLL1? ==> exists A, k :: A in g && FirstClashAt(Directors(st0, g, fuel, A), k)
    ensures v.Stuck? ==> !v.reason.Found? && exists A, k :: A in g && FailsFirstAt(st0, g, fuel, A, k, v.reason)
  {
    var b := CreateLL1Table(table, g, fuel, st0);
    match b
    case Conflict =>
      return NotLL1;
    case BuildFailed(reason) =>
      return Stuck(reason);
    case Built(ll1) =>
      var o := ParseWith(table, ll1, axiom, tokens, steps, st0);
      assert TableOf(st0, g, fuel, ll1);
      forall T | TableOf(st0, g, fuel, T)
        ensures o == Run(st0, T, tokens, Start(axiom, tokens), steps).0
      {
        TableUnique(st0, g, fuel, ll1, T);
      }
      return Parsed(o);
  }

  /** The loop succeeds only once the lookahead is `$` or the stack is empty. */
  lemma {:induction false} RunAcceptsWhenDone(st: Table, T: Cells, tokens: seq<string>, c: LegacyConfig, fuel: nat)
    ensures Run(st, T, tokens, c, fuel).0 == Accepted ==>
              Run(st, T, tokens, c, fuel).1.current == "$" || Run(st, T, tokens, c, fuel).1.stack == []
    decreases fuel
  {
    if !(c.current == "$" || c.stack == []) && fuel > 0 {
      var top := c.stack[|c.stack| - 1];
      var rest := c.stack[..|c.stack| - 1];
      if top == Epsilon {
        RunAcceptsWhenDone(st, T, tokens, c.(stack := rest), fuel - 1);
      } else if !IsTerminalIn(st, top) {
        if top in T && c.current in T[top] {
          RunAcceptsWhenDone(st, T, tokens, c.(stack := rest + PM.Reverse(T[top][c.current])), fuel - 1);
        }
      } else if top == c.current {
        RunAcceptsWhenDone(st, T, tokens, LegacyConfig(rest, PM.Advance(tokens, c.pos), PM.Token(tokens, c.pos)), fuel - 1);
      }
    }
  }

  /**
   * The lexer never yields `$` as a token name (the end marker is named
   * `\$`), so the `$` test never fires: success always means an empty
   * stack, whatever input is left.
   */
  lemma {:induction false} RunAcceptsOnEmptyStack(st: Table, T: Cells, tokens: seq<string>, c: LegacyConfig, fuel: nat)
    requires "$" !in tokens && c.current != "$"
    ensures Run(st, T, tokens, c, fuel).0 == Accepted ==> Run(st, T, tokens, c, fuel).1.stack == []
    decreases fuel
  {
    if c.stack != [] && fuel > 0 {
      var top := c.stack[|c.stack| - 1];
      var rest := c.stack[..|c.stack| - 1];
      if top == Epsilon {
        RunAcceptsOnEmptyStack(st, T, tokens, c.(stack := rest), fuel - 1);
      } else if !IsTerminalIn(st, top) {
        if top in T && c.current in T[top] {
          RunAcceptsOnEmptyStack(st, T, tokens, c.(stack := rest + PM.Reverse(T[top][c.current])), fuel - 1);
        }
      } else if top == c.current {
        assert PM.Token(tokens, c.pos) != "$";
        RunAcceptsOnEmptyStack(st, T, tokens, LegacyConfig(rest, PM.Advance(tokens, c.pos), PM.Token(tokens, c.pos)), fuel - 1);
      }
    }
  }

  // The grammar S -> a b, with a and b terminals.

  function ExampleSymbols(): Table
  {
    map["S" := Entry(NoTerminal, ""), "a" := Entry(Terminal, "a"), "b" := Entry(Terminal, "b")]
  }

  function ExampleRules(): Rules
  {
    map["S" := [["a", "b"]]]
  }

  function ExampleCells(): Cells
  {
    map["S" := map["a" := ["a", "b"]]]
  }

  /** The grammar S -> a b is LL(1) for the earlier checker, and its table has the one cell (S, a). */
  lemma ExampleTable(fuel: nat)
    requires fuel >= 1
    ensures IsLL1(ExampleSymbols(), ExampleRules(), fuel)
    ensures TableOf(ExampleSymbols(), ExampleRules(), fuel, ExampleCells())
  {
    var st, g := ExampleSymbols(), ExampleRules();
    HeaderOfTerminal(st, g, "a", ["b"], fuel);
    assert ["a", "b"] == ["a"] + ["b"];
    assert DirectorSet(st, g, fuel, "S", ["a", "b"]) == Some({"a"});
    var ds := Directors(st, g, fuel, "S");
    assert ds == [Some({"a"})];
    assert ColumnLL1(ds);
    var col := ExampleCells()["S"];
    forall x | x in col
      ensures exists j :: 0 <= j < 1 && ds[j].Some? && x in ds[j].value
    {
      assert x == "a" && x in ds[0].value;
    }
    assert ColumnOf(g["S"], ds, col);
  }

  /** Input that stops short is rejected: the terminal left on the stack meets the empty lookahead. */
  lemma TruncatedInputRejected()
    ensures Run(ExampleSymbols(), ExampleCells(), ["a"], Start("S", ["a"]), 3).0 == Rejected
  {
    var st, T, tokens := ExampleSymbols(), ExampleCells(), ["a"];
    assert !IsTerminalIn(st, "S") && IsTerminalIn(st, "a") && IsTerminalIn(st, "b");
    assert "S" in T && "a" in T["S"] && T["S"]["a"] == ["a", "b"];
    assert PM.Reverse(["a", "b"]) == ["b", "a"];
    var c0, c1, c2 := Start("S", tokens), LegacyConfig(["b", "a"], 1, "a"), LegacyConfig(["b"], 1, "");
    assert c0 == LegacyConfig(["S"], 1, "a");
    assert Run(st, T, tokens, c0, 3) == Run(st, T, tokens, c1, 2);
    assert Run(st, T, tokens, c1, 2) == Run(st, T, tokens, c2, 1);
  }

  /** Input that runs on past the grammar is accepted: the stack empties first and the rest is never read. */
  lemma TrailingInputAccepted()
    ensures Run(ExampleSymbols(), ExampleCells(), ["a", "b", "b"], Start("S", ["a", "b", "b"]), 3) == (Accepted, LegacyConfig([], 3, "b"))
  {
    var st, T, tokens := ExampleSymbols(), ExampleCells(), ["a", "b", "b"];
    assert !IsTerminalIn(st, "S") && IsTerminalIn(st, "a") && IsTerminalIn(st, "b");
    assert "S" in T && "a" in T["S"] && T["S"]["a"] == ["a", "b"];
    assert PM.Reverse(["a", "b"]) == ["b", "a"];
    var c0, c1, c2, c3 := Start("S", tokens), LegacyConfig(["b", "a"], 1, "a"), LegacyConfig(["b"], 2, "b"), LegacyConfig([], 3, "b");
    assert c0 == LegacyConfig(["S"], 1, "a");
    assert Run(st, T, tokens, c0, 3) == Run(st, T, tokens, c1, 2);
    assert Run(st, T, tokens, c1, 2) == Run(st, T, tokens, c2, 1);
    assert Run(st, T, tokens, c2, 1) == Run(st, T, tokens, c3, 0);
  }
}
