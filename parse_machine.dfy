/**
 * The table-driven parse loop of the current checker as a step function on
 * configurations. The parser object runs this machine on its own fields; the
 * lemmas here say what a run can and cannot end in.
 */
module ParseMachine {
  import opened Wrappers
  import opened Errors
  import opened SymbolTable
  import opened Grammar

  /** The LL(1) table: non-terminal, then lookahead, then the productions in that cell. */
  type LL1Table = map<string, map<string, seq<Production>>>

  /** How many of the most recent lookaheads the symbol history keeps. */
  const TraceSize: nat := 5

  /** Every cell holds at least one production (the parse uses the first one). */
  predicate CellsNonEmpty(T: LL1Table)
  {
    forall A, t :: A in T && t in T[A] ==> T[A][t] != []
  }

  /** A production in the order it is pushed, so that its first symbol ends on top. */
  function Reverse(p: Production): Production
  {
    if p == [] then [] else Reverse(p[1..]) + [p[0]]
  }

  /** Popping the pushed production gives its symbols back in order. */
  lemma {:induction false} ReverseIndex(p: Production)
    ensures |Reverse(p)| == |p|
    ensures forall i :: 0 <= i < |p| ==> Reverse(p)[|p| - 1 - i] == p[i]
  {
    if p != [] {
      ReverseIndex(p[1..]);
      forall i | 0 <= i < |p|
        ensures Reverse(p)[|p| - 1 - i] == p[i]
      {
        if i > 0 {
          assert Reverse(p)[|p| - 1 - i] == Reverse(p[1..])[|p[1..]| - 1 - (i - 1)];
        }
      }
    }
  }

  /** The token source: the next token, or the empty string once the input is exhausted. */
  function Token(tokens: seq<string>, pos: nat): string
  {
    if pos < |tokens| then tokens[pos] else ""
  }

  /** Where the token source stands after one more request. */
  function Advance(tokens: seq<string>, pos: nat): nat
  {
    if pos < |tokens| then pos + 1 else pos
  }

  /** Appends to the symbol history, dropping its oldest entry once it is full. */
  function Record(trace: seq<string>, s: string): seq<string>
  {
    if |trace| == TraceSize then trace[1..] + [s] else trace + [s]
  }

  /**
   * The history keeps the most recent symbols: after recording s, it ends
   * with s, it is a suffix of the old history followed by s, and it holds
   * min(old length + 1, 5) entries.
   */
  lemma RecordKeepsRecent(trace: seq<string>, s: string)
    requires |trace| <= TraceSize
    ensures |Record(trace, s)| == if |trace| < TraceSize then |trace| + 1 else TraceSize
    ensures Record(trace, s)[|Record(trace, s)| - 1] == s
    ensures exists k :: 0 <= k <= |trace| && Record(trace, s) == trace[k..] + [s]
  {
    if |trace| == TraceSize {
      assert Record(trace, s) == trace[1..] + [s];
    } else {
      assert trace[0..] == trace;
    }
  }

  /** The state the loop carries: the stack (top last), the history, the token source position and the lookahead. */
  datatype Config = Config(stack: seq<string>, trace: seq<string>, pos: nat, current: string)

  /** How a parse ends: true, false, an exception escaping, or (in the model only) fuel running out. */
  datatype Outcome = Accepted | Rejected | Aborted(error: Error) | OutOfFuel

  datatype Step = Continue(next: Config) | Stop(outcome: Outcome, last: Config)

  /** What the loop consults: symbol table, grammar, LL(1) table and the input tokens. */
  datatype Machine = Machine(st: Table, g: Rules, table: LL1Table, tokens: seq<string>)

  /**
   * One turn of the loop. EPSILON on top is popped. Any other top is popped
   * and classified; an unknown name makes the symbol-table lookup throw. A
   * non-terminal is replaced by the first production of its cell, pushed in
   * reverse; with no cell it is dropped if it has an empty production, the
   * parse fails otherwise, a name without rules makes the grammar lookup
   * throw, and an empty production met in the search is undefined behaviour,
   * where the run stops. A terminal first records the lookahead in the history, then must
   * equal it, and the next token is read.
   */
  function StepOf(m: Machine, c: Config): Step
    requires c.stack != [] && CellsNonEmpty(m.table)
  {
    var top := c.stack[|c.stack| - 1];
    var rest := c.stack[..|c.stack| - 1];
    if top == Epsilon then Continue(c.(stack := rest))
    else if top !in m.st then Stop(Aborted(OutOfRange(top)), c.(stack := rest))
    else if !IsTerminalIn(m.st, top) then
      if top in m.table && c.current in m.table[top] then
        Continue(c.(stack := rest + Reverse(m.table[top][c.current][0])))
      else
        match HasEmptyProduction(m.g, top)
        case Err(e) => Stop(Aborted(e), c.(stack := rest))
        case Ok(empty) => if empty then Continue(c.(stack := rest)) else Stop(Rejected, c.(stack := rest))
    else
      var tr := Record(c.trace, c.current);
      if top != c.current then Stop(Rejected, c.(stack := rest, trace := tr))
      else Continue(Config(rest, tr, Advance(m.tokens, c.pos), Token(m.tokens, c.pos)))
  }

  /**
   * The loop, for at most `fuel` turns: it stops with success as soon as the
   * lookahead is empty or the stack is, whichever comes first.
   */
  function Run(m: Machine, c: Config, fuel: nat): (Outcome, Config)
    requires CellsNonEmpty(m.table)
    decreases fuel
  {
    if c.current == "" || c.stack == [] then (Accepted, c)
    else if fuel == 0 then (OutOfFuel, c)
    else
      match StepOf(m, c)
      case Continue(c') => Run(m, c', fuel - 1)
      case Stop(o, c') => (o, c')
  }

  /** The first configuration: the axiom pushed on whatever the stack holds, and the first token read. */
  function Start(m: Machine, stack: seq<string>, trace: seq<string>, axiom: string): Config
  {
    Config(stack + [axiom], trace, Advance(m.tokens, 0), Token(m.tokens, 0))
  }

  /** A run succeeds only when it has run out of input or out of stack. */
  lemma {:induction false} AcceptedOnlyWhenDone(m: Machine, c: Config, fuel: nat)
    requires CellsNonEmpty(m.table)
    requires Run(m, c, fuel).0 == Accepted
    ensures Run(m, c, fuel).1.current == "" || Run(m, c, fuel).1.stack == []
    decreases fuel
  {
    if !(c.current == "" || c.stack == []) && fuel > 0 {
      match StepOf(m, c)
      case Continue(c') => AcceptedOnlyWhenDone(m, c', fuel - 1);
      case Stop(o, c') =>
    }
  }

  /** No step lets the history grow beyond its bound. */
  lemma StepTraceBound(m: Machine, c: Config)
    requires c.stack != [] && CellsNonEmpty(m.table) && |c.trace| <= TraceSize
    ensures StepOf(m, c).Continue? ==> |StepOf(m, c).next.trace| <= TraceSize
    ensures StepOf(m, c).Stop? ==> |StepOf(m, c).last.trace| <= TraceSize
  {
    RecordKeepsRecent(c.trace, c.current);
  }

  /** The history never holds more than five symbols, however long the run. */
  lemma {:induction false} RunTraceBound(m: Machine, c: Config, fuel: nat)
    requires CellsNonEmpty(m.table) && |c.trace| <= TraceSize
    ensures |Run(m, c, fuel).1.trace| <= TraceSize
    decreases fuel
  {
    if !(c.current == "" || c.stack == []) && fuel > 0 {
      StepTraceBound(m, c);
      match StepOf(m, c)
      case Continue(c') => RunTraceBound(m, c', fuel - 1);
      case Stop(o, c') =>
    }
  }

  /** Expanding a non-terminal leaves the first symbol of its production on top. */
  lemma ExpansionTop(m: Machine, c: Config)
    requires c.stack != [] && CellsNonEmpty(m.table)
    requires var top := c.stack[|c.stack| - 1];
             top != Epsilon && top in m.st && !IsTerminalIn(m.st, top) &&
             top in m.table && c.current in m.table[top] && m.table[top][c.current][0] != []
    ensures var p := m.table[c.stack[|c.stack| - 1]][c.current][0];
            var s := StepOf(m, c).next.stack;
            StepOf(m, c).Continue? && |s| == |c.stack| - 1 + |p| && s[|s| - 1] == p[0] &&
            s[..|c.stack| - 1] == c.stack[..|c.stack| - 1]
  {
    var p := m.table[c.stack[|c.stack| - 1]][c.current][0];
    ReverseIndex(p);
    var rest := c.stack[..|c.stack| - 1];
    assert (rest + Reverse(p))[..|rest|] == rest;
  }

  // ---------------------------------------------------------------------
  // The acceptance condition on a small grammar: S -> a b, with a and b
  // terminals, and the table {S: {a: [[a, b]]}}.
  // ---------------------------------------------------------------------

  function SmallMachine(tokens: seq<string>): Machine
  {
    Machine(map["S" := Entry(NoTerminal, ""), "a" := Entry(Terminal, "a"), "b" := Entry(Terminal, "b")],
            map["S" := [["a", "b"]]],
            map["S" := map["a" := [["a", "b"]]]],
            tokens)
  }

  /**
   * Input that runs out early is accepted: on `a` alone the lookahead
   * becomes empty while `b` is still on the stack, and the loop reports
   * success.
   */
  lemma TruncatedInputAccepted()
    ensures var m := SmallMachine(["a"]);
            var r := Run(m, Start(m, [], [], "S"), 2);
            r.0 == Accepted && r.1.stack == ["b"]
  {
    var m := SmallMachine(["a"]);
    SmallMachineFacts(["a"]);
    var c0, c1, c2 := Config(["S"], [], 1, "a"), Config(["b", "a"], [], 1, "a"), Config(["b"], ["a"], 1, "");
    assert Start(m, [], [], "S") == c0;
    assert StepOf(m, c0) == Continue(c1);
    assert StepOf(m, c1) == Continue(c2);
    assert Run(m, c0, 2) == Run(m, c1, 1);
    assert Run(m, c1, 1) == Run(m, c2, 0);
  }

  /**
   * Input left over once the stack empties is accepted too: on `a b b` the
   * stack is empty after `a b`, and the second `b` is never looked at.
   */
  lemma TrailingInputAccepted()
    ensures var m := SmallMachine(["a", "b", "b"]);
            var r := Run(m, Start(m, [], [], "S"), 3);
            r.0 == Accepted && r.1.current == "b" && r.1.stack == []
  {
    var m := SmallMachine(["a", "b", "b"]);
    SmallMachineFacts(["a", "b", "b"]);
    var c0, c1 := Config(["S"], [], 1, "a"), Config(["b", "a"], [], 1, "a");
    var c2, c3 := Config(["b"], ["a"], 2, "b"), Config([], ["a", "b"], 3, "b");
    assert Start(m, [], [], "S") == c0;
    assert StepOf(m, c0) == Continue(c1);
    assert StepOf(m, c1) == Continue(c2);
    assert StepOf(m, c2) == Continue(c3);
    assert Run(m, c0, 3) == Run(m, c1, 2);
    assert Run(m, c1, 2) == Run(m, c2, 1);
    assert Run(m, c2, 1) == Run(m, c3, 0);
  }

  /** What the loop looks up in the small grammar. */
  lemma SmallMachineFacts(tokens: seq<string>)
    ensures var m := SmallMachine(tokens);
            && CellsNonEmpty(m.table)
            && "S" in m.st && !IsTerminalIn(m.st, "S")
            && "a" in m.st && IsTerminalIn(m.st, "a")
            && "b" in m.st && IsTerminalIn(m.st, "b")
            && "S" in m.table && "a" in m.table["S"] && m.table["S"]["a"][0] == ["a", "b"]
            && Reverse(["a", "b"]) == ["b", "a"]
  {
    assert Reverse(["a", "b"]) == ["b", "a"] by {
      assert ["a", "b"][1..] == ["b"];
      assert Reverse(["b"]) == ["b"] by {
        assert ["b"][1..] == [];
      }
    }
  }
}
