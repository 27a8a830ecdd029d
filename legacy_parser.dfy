/**
 * The analysis and parse loop of the earlier checker. FIRST is computed by
 * `header`, an explicit worklist of symbol sequences with no visited set;
 * FOLLOW (`next`) looks at most one symbol past an occurrence; the table
 * builder keeps one production per cell and ends the process at the first
 * clash; and the parse loop stops at the literal `$`.
 *
 * Every lookup of a symbol's kind goes through `is_terminal`, which
 * registers an unknown name as a non-terminal. The methods therefore take
 * the symbol table object and may extend it; the specification functions
 * are stated on the table as it was when the computation started, which
 * classifies every name the same way.
 */
module LegacyParser {
  import opened Wrappers
  import opened Errors
  import opened SymbolTable
  import opened Grammar
  import opened Closure
  import LS = LL1Sets
  import LST = LegacySymbolTable
  import PM = ParseMachine

  /**
   * How `header` (and what is built on it) ends: with the symbols found,
   * with a fault (reading the first symbol of an empty item, which is
   * undefined behaviour, or `at` on a non-terminal without rules, which
   * throws), or, in the model only, out of fuel.
   */
  datatype Search = Found(symbols: set<string>) | Fault(error: Error) | Exhausted

  // =====================================================================
  // header: FIRST by an explicit worklist
  // =====================================================================

  /** Each production followed by the same tail, in the order they are pushed. */
  function Expand(ps: seq<Production>, tail: Production): seq<Production>
  {
    seq(|ps|, i requires 0 <= i < |ps| => ps[i] + tail)
  }

  /**
   * The worklist loop for at most `fuel` items (the stack's top is its last
   * element). The item on top is popped and one leading EPSILON dropped;
   * an item that is then empty contributes EPSILON, one starting with a
   * terminal contributes that terminal, and one starting with a
   * non-terminal is replaced by each of its productions followed by the
   * rest of the item. An item that is empty before the EPSILON check, and a
   * non-terminal without rules, end the process.
   */
  function HeaderRun(st: Table, g: Rules, stack: seq<Production>, hd: set<string>, fuel: nat): Search
    decreases fuel
  {
    if stack == [] then Found(hd)
    else if fuel == 0 then Exhausted
    else
      var current := stack[|stack| - 1];
      var rest := stack[..|stack| - 1];
      if current == [] then Fault(UndefinedAccess)
      else
        var item := if current[0] == Epsilon then current[1..] else current;
        if item == [] then HeaderRun(st, g, rest, hd + {Epsilon}, fuel - 1)
        else if IsTerminalIn(st, item[0]) then HeaderRun(st, g, rest, hd + {item[0]}, fuel - 1)
        else if item[0] !in g then Fault(OutOfRange(item[0]))
        else HeaderRun(st, g, rest + Expand(g[item[0]], item[1..]), hd, fuel - 1)
  }

  /** `header` of a sequence: the loop started on that sequence alone. */
  function Header(st: Table, g: Rules, rule: Production, fuel: nat): Search
  {
    HeaderRun(st, g, [rule], {}, fuel)
  }

  /** Pushes each production followed by `tail`, in list order, so the last one ends on top. */
  method PushExpansions(stack: seq<Production>, ps: seq<Production>, tail: Production) returns (stack': seq<Production>)
    ensures stack' == stack + Expand(ps, tail)
  {
    stack' := stack;
    for i := 0 to |ps|
      invariant stack' == stack + Expand(ps[..i], tail)
    {
      assert Expand(ps[..i + 1], tail) == Expand(ps[..i], tail) + [ps[i] + tail];
      stack' := stack' + [ps[i] + tail];
    }
    assert ps[..|ps|] == ps;
  }

  /**
   * `header`: the worklist loop, with every kind lookup made through the
   * symbol table object, which may register unknown names on the way.
   */
  method ComputeHeader(table: LST.SymbolTable, g: Rules, rule: Production, fuel: nat, ghost st0: Table) returns (r: Search)
    requires table.Valid() && LST.Extends(st0, table.st)
    modifies table`st
    ensures table.Valid() && LST.Extends(st0, table.st) && LST.Extends(old(table.st), table.st)
    ensures r == Header(st0, g, rule, fuel)
  {
    var hd: set<string> := {};
    var stack: seq<Production> := [rule];
    var n := fuel;
    while stack != []
      invariant table.Valid() && LST.Extends(st0, table.st) && LST.Extends(old(table.st), table.st)
      invariant Header(st0, g, rule, fuel) == HeaderRun(st0, g, stack, hd, n)
      decreases n
    {
      if n == 0 {
        return Exhausted;
      }
      var current := stack[|stack| - 1];
      stack := stack[..|stack| - 1];
      n := n - 1;
      if current == [] {
        return Fault(UndefinedAccess);
      }
      if current[0] == Epsilon {
        current := current[1..];
      }
      if current == [] {
        hd := hd + {Epsilon};
      } else {
        ghost var before := table.st;
        LST.ExtendsKinds(st0, before, current[0]);
        var terminal := table.IsTerminal(current[0]);
        LST.TouchExtends(st0, before, current[0]);
        LST.TouchExtends(old(table.st), before, current[0]);
        if terminal {
          hd := hd + {current[0]};
        } else {
          if current[0] !in g {
            return Fault(OutOfRange(current[0]));
          }
          stack := PushExpansions(stack, g[current[0]], current[1..]);
        }
      }
    }
    return Found(hd);
  }

  /** What `header` finds never holds anything but terminals and EPSILON, and keeps what was found before. */
  lemma {:induction false} HeaderRunSound(st: Table, g: Rules, stack: seq<Production>, hd: set<string>, fuel: nat)
    requires forall t :: t in hd ==> t == Epsilon || IsTerminalIn(st, t)
    ensures HeaderRun(st, g, stack, hd, fuel).Found? ==>
              hd <= HeaderRun(st, g, stack, hd, fuel).symbols &&
              forall t :: t in HeaderRun(st, g, stack, hd, fuel).symbols ==> t == Epsilon || IsTerminalIn(st, t)
    decreases fuel
  {
    if stack != [] && fuel > 0 {
      var current := stack[|stack| - 1];
      var rest := stack[..|stack| - 1];
      if current != [] {
        var item := if current[0] == Epsilon then current[1..] else current;
        if item == [] {
          HeaderRunSound(st, g, rest, hd + {Epsilon}, fuel - 1);
        } else if IsTerminalIn(st, item[0]) {
          HeaderRunSound(st, g, rest, hd + {item[0]}, fuel - 1);
        } else if item[0] in g {
          HeaderRunSound(st, g, rest + Expand(g[item[0]], item[1..]), hd, fuel - 1);
        }
      }
    }
  }

  /** `header` of any sequence holds only terminals and EPSILON. */
  lemma HeaderSound(st: Table, g: Rules, rule: Production, fuel: nat)
    ensures Header(st, g, rule, fuel).Found? ==>
              forall t :: t in Header(st, g, rule, fuel).symbols ==> t == Epsilon || IsTerminalIn(st, t)
  {
    HeaderRunSound(st, g, [rule], {}, fuel);
  }

  /** A run that ends before its fuel does ends the same way with any more fuel. */
  lemma {:induction false} HeaderRunFuel(st: Table, g: Rules, stack: seq<Production>, hd: set<string>, fuel: nat, more: nat)
    requires fuel <= more && HeaderRun(st, g, stack, hd, fuel) != Exhausted
    ensures HeaderRun(st, g, stack, hd, more) == HeaderRun(st, g, stack, hd, fuel)
    decreases fuel
  {
    if stack != [] {
      var current := stack[|stack| - 1];
      var rest := stack[..|stack| - 1];
      if current != [] {
        var item := if current[0] == Epsilon then current[1..] else current;
        if item == [] {
          HeaderRunFuel(st, g, rest, hd + {Epsilon}, fuel - 1, more - 1);
        } else if IsTerminalIn(st, item[0]) {
          HeaderRunFuel(st, g, rest, hd + {item[0]}, fuel - 1, more - 1);
        } else if item[0] in g {
          HeaderRunFuel(st, g, rest + Expand(g[item[0]], item[1..]), hd, fuel - 1, more - 1);
        }
      }
    }
  }

  /**
   * A sequence starting with a terminal other than EPSILON contributes
   * exactly that terminal, and `[EPSILON]` contributes EPSILON.
   */
  lemma HeaderOfTerminal(st: Table, g: Rules, t: string, rest: Production, fuel: nat)
    requires fuel >= 1
    ensures t != Epsilon && IsTerminalIn(st, t) ==> Header(st, g, [t] + rest, fuel) == Found({t})
    ensures Header(st, g, [Epsilon], fuel) == Found({Epsilon})
  {
    assert ([t] + rest)[0] == t;
    assert [[t] + rest][..0] == [] && [[Epsilon]][..0] == [];
    assert [Epsilon][1..] == [];
    assert HeaderRun(st, g, [], {t}, fuel - 1) == Found({t});
    assert HeaderRun(st, g, [], {Epsilon}, fuel - 1) == Found({Epsilon});
    if t != Epsilon && IsTerminalIn(st, t) {
      assert HeaderRun(st, g, [[t] + rest], {}, fuel) == HeaderRun(st, g, [], {} + {t}, fuel - 1);
    }
    assert HeaderRun(st, g, [[Epsilon]], {}, fuel) == HeaderRun(st, g, [], {} + {Epsilon}, fuel - 1);
  }

  /**
   * With no visited set, `header` never finishes on a non-terminal whose
   * only production starts with itself, as in `A -> A & A`: each expansion
   * puts A back on top, with a longer tail.
   */
  lemma {:induction false} LeftRecursionExhausts(st: Table, g: Rules, A: string, w: Production, tail: Production,
                                                 hd: set<string>, fuel: nat)
    requires A != Epsilon && !IsTerminalIn(st, A) && A in g && g[A] == [[A] + w]
    ensures HeaderRun(st, g, [[A] + tail], hd, fuel) == Exhausted
    decreases fuel
  {
    if fuel > 0 {
      var current := [A] + tail;
      var stack := [current];
      assert current != [] && current[0] == A && current[1..] == tail;
      assert stack[|stack| - 1] == current && stack[..|stack| - 1] == [];
      var next := [[A] + (w + tail)];
      assert Expand(g[A], tail) == next by {
        assert |g[A]| == 1 && g[A][0] + tail == ([A] + w) + tail == [A] + (w + tail);
      }
      assert [] + next == next;
      assert HeaderRun(st, g, stack, hd, fuel) == HeaderRun(st, g, next, hd, fuel - 1);
      LeftRecursionExhausts(st, g, A, w, w + tail, hd, fuel - 1);
    }
  }

  /** So `header` of such a non-terminal alone never finishes, whatever the fuel. */
  lemma HeaderLeftRecursive(st: Table, g: Rules, A: string, w: Production, fuel: nat)
    requires A != Epsilon && !IsTerminalIn(st, A) && A in g && g[A] == [[A] + w]
    ensures Header(st, g, [A], fuel) == Exhausted
  {
    assert [A] == [A] + [];
    LeftRecursionExhausts(st, g, A, w, [], {}, fuel);
  }

  // =====================================================================
  // next: FOLLOW with one symbol of lookahead
  // =====================================================================

  predicate LastIs(p: Production, x: string)
  {
    |p| > 0 && p[|p| - 1] == x
  }

  /** The antecedents whose `next` is pulled into that of x: those of rules ending in x. */
  function NextSucc(g: Rules, x: string): set<string>
  {
    set r | r in FilterRulesByConsequent(g, x) && LastIs(r.consequent, x) :: r.antecedent
  }

  /** The symbol after position i. */
  function After(p: Production, i: nat): string
    requires i + 1 < |p|
  {
    p[i + 1]
  }

  /** The symbols right after an occurrence of x that is not the last symbol of its rule. */
  function Followers(g: Rules, x: string): set<string>
  {
    set r, i | r in FilterRulesByConsequent(g, x) && 0 <= i < |r.consequent| - 1 && r.consequent[i] == x :: After(r.consequent, i)
  }

  function NextGraph(g: Rules): Graph
  {
    map y | y in LS.Symbols(g) :: NextSucc(g, y)
  }

  ghost function FollowersOf(g: Rules, S: set<string>): set<string>
  {
    set x, y | x in S && y in Followers(g, x) :: y
  }

  /** `header` of one symbol on its own, as a function of the symbol. */
  ghost function HeaderOf(st: Table, g: Rules, fuel: nat): string -> Search
  {
    y => Header(st, g, [y], fuel)
  }

  /** H finishes on every symbol of Y. */
  ghost predicate HeadersFound(H: string -> Search, Y: set<string>)
  {
    forall y :: y in Y ==> H(y).Found?
  }

  /** Everything H finds for the symbols of Y. */
  ghost function HeaderUnion(H: string -> Search, Y: set<string>): set<string>
  {
    set y, t | y in Y && H(y).Found? && t in H(y).symbols :: t
  }

  /** The symbols whose `header` the walk from x needs: those right after an occurrence of a node reachable from x. */
  ghost function NextNeeds(g: Rules, x: string): set<string>
  {
    FollowersOf(g, Reach(NextGraph(g), x))
  }

  /** `next(x)` finishes when all the headers it needs do. */
  ghost predicate NextFound(g: Rules, H: string -> Search, x: string)
  {
    HeadersFound(H, NextNeeds(g, x))
  }

  /** What `next(x)` returns when it finishes: the union of those headers, without EPSILON. */
  ghost function NextSet(g: Rules, H: string -> Search, x: string): set<string>
  {
    HeaderUnion(H, NextNeeds(g, x)) - {Epsilon}
  }

  /** A walk from x that does not finish fails as the `header` of one of the symbols it needs fails. */
  ghost predicate NextFail(g: Rules, H: string -> Search, x: string, r: Search)
  {
    !r.Found? && exists y :: y in NextNeeds(g, x) && H(y) == r
  }

  lemma NextEdges(g: Rules, x: string)
    ensures Edges(NextGraph(g), x) == NextSucc(g, x)
  {
    if x !in LS.Symbols(g) {
      forall r | r in FilterRulesByConsequent(g, x)
        ensures false
      {
        LS.OccurrenceIsSymbol(g, r, x);
      }
    }
  }

  lemma HeaderUnionSplit(H: string -> Search, Y: set<string>, Z: set<string>)
    ensures HeaderUnion(H, Y + Z) == HeaderUnion(H, Y) + HeaderUnion(H, Z)
  {
  }

  lemma HeadersFoundSplit(H: string -> Search, Y: set<string>, Z: set<string>)
    requires HeadersFound(H, Y) && HeadersFound(H, Z)
    ensures HeadersFound(H, Y + Z)
  {
  }

  lemma FollowersOfSplit(g: Rules, S: set<string>, T: set<string>)
    ensures FollowersOf(g, S + T) == FollowersOf(g, S) + FollowersOf(g, T)
  {
  }

  /** A walk failure from a successor of x is a walk failure from x. */
  lemma NextFailEdge(g: Rules, H: string -> Search, x: string, b: string, r: Search)
    requires b in NextSucc(g, x) && NextFail(g, H, b, r)
    ensures NextFail(g, H, x, r)
  {
    NextEdges(g, x);
    ReachEdge(NextGraph(g), x, b);
    var y :| y in NextNeeds(g, b) && H(y) == r;
    var z :| z in Reach(NextGraph(g), b) && y in Followers(g, z);
    assert y in NextNeeds(g, x);
  }

  // The walk's states, used in contracts as `State(...) == true`.

  /**
   * What one call of the walk from `arg` achieves when it finishes, given
   * the names already visited and the symbols already gathered: `arg` is
   * visited, everything newly visited is reachable from `arg` and has all
   * its successors visited, every symbol right after an occurrence of a
   * newly visited node has a finished `header`, and what those headers
   * found is exactly what was gathered.
   */
  ghost predicate NextPost(g: Rules, H: string -> Search, arg: string, visited: set<string>, acc: set<string>,
                           V: set<string>, a: set<string>)
  {
    && visited <= V && arg in V
    && V - visited <= Reach(NextGraph(g), arg)
    && (forall y :: y in V - visited ==> NextSucc(g, y) <= V)
    && HeadersFound(H, FollowersOf(g, V - visited))
    && a == acc + HeaderUnion(H, FollowersOf(g, V - visited))
  }

  /**
   * Inside one call from `arg`: what it visited since is reachable from
   * `arg`, every node it finished (all but `arg`) has its successors
   * visited and its headers gathered, and `extra` has been gathered from
   * the rules of `arg`.
   */
  ghost predicate NextAcc(g: Rules, H: string -> Search, arg: string, visited: set<string>, acc: set<string>,
                          V: set<string>, a: set<string>, extra: set<string>)
  {
    && visited + {arg} <= V
    && V - visited <= Reach(NextGraph(g), arg)
    && (forall y :: y in V - visited - {arg} ==> NextSucc(g, y) <= V)
    && HeadersFound(H, FollowersOf(g, V - visited - {arg}))
    && a == acc + extra + HeaderUnion(H, FollowersOf(g, V - visited - {arg}))
  }

  function FollowersIn(rules: set<Rule>, x: string): set<string>
  {
    set r, i | r in rules && 0 <= i < |r.consequent| - 1 && r.consequent[i] == x :: After(r.consequent, i)
  }

  function SuccIn(rules: set<Rule>, x: string): set<string>
  {
    set r | r in rules && LastIs(r.consequent, x) :: r.antecedent
  }

  function FollowersUpTo(p: Production, x: string, n: nat): set<string>
  {
    set i | 0 <= i < n && i < |p| - 1 && p[i] == x :: After(p, i)
  }

  /** The symbols after the occurrences of `arg` handled so far: in the rules `done`, and in the first i positions of p. */
  function Handled(done: set<Rule>, p: Production, arg: string, i: nat): set<string>
  {
    FollowersIn(done, arg) + FollowersUpTo(p, arg, i)
  }

  /** Between rules: `done` are the rules mentioning `arg` handled so far. */
  ghost predicate NextOuter(g: Rules, H: string -> Search, arg: string, visited: set<string>, acc: set<string>,
                            done: set<Rule>, V: set<string>, a: set<string>)
  {
    && NextAcc(g, H, arg, visited, acc, V, a, HeaderUnion(H, FollowersIn(done, arg)))
    && HeadersFound(H, FollowersIn(done, arg))
    && SuccIn(done, arg) <= V
  }

  /** Inside rule r, with its first i positions handled. */
  ghost predicate NextInner(g: Rules, H: string -> Search, arg: string, visited: set<string>, acc: set<string>,
                            done: set<Rule>, r: Rule, i: nat, V: set<string>, a: set<string>)
  {
    && i <= |r.consequent|
    && NextAcc(g, H, arg, visited, acc, V, a, HeaderUnion(H, Handled(done, r.consequent, arg, i)))
    && HeadersFound(H, Handled(done, r.consequent, arg, i))
    && SuccIn(done, arg) <= V
    && (i == |r.consequent| && LastIs(r.consequent, arg) ==> r.antecedent in V)
  }

  lemma NextStart(g: Rules, H: string -> Search, arg: string, visited: set<string>, acc: set<string>)
    requires arg !in visited
    ensures NextOuter(g, H, arg, visited, acc, {}, visited + {arg}, acc) == true
  {
    ReachStart(NextGraph(g), arg);
    assert visited + {arg} - visited - {arg} == {};
    assert FollowersIn({}, arg) == {};
    assert FollowersOf(g, {}) == {};
    assert HeaderUnion(H, {}) == {};
  }

  lemma NextInnerStart(g: Rules, H: string -> Search, arg: string, visited: set<string>, acc: set<string>,
                       done: set<Rule>, r: Rule, V: set<string>, a: set<string>)
    requires NextOuter(g, H, arg, visited, acc, done, V, a) == true
    ensures NextInner(g, H, arg, visited, acc, done, r, 0, V, a) == true
  {
    assert FollowersUpTo(r.consequent, arg, 0) == {};
    assert Handled(done, r.consequent, arg, 0) == FollowersIn(done, arg);
  }

  lemma NextInnerEnd(g: Rules, H: string -> Search, arg: string, visited: set<string>, acc: set<string>,
                     done: set<Rule>, r: Rule, V: set<string>, a: set<string>)
    requires NextInner(g, H, arg, visited, acc, done, r, |r.consequent|, V, a) == true
    ensures NextOuter(g, H, arg, visited, acc, done + {r}, V, a) == true
  {
    assert FollowersIn(done + {r}, arg) == Handled(done, r.consequent, arg, |r.consequent|);
    assert SuccIn(done + {r}, arg) == SuccIn(done, arg) + (if LastIs(r.consequent, arg) then {r.antecedent} else {});
  }

  /** A position holding another symbol changes nothing. */
  lemma NextNotAnOccurrence(g: Rules, H: string -> Search, arg: string, visited: set<string>, acc: set<string>,
                            done: set<Rule>, r: Rule, i: nat, V: set<string>, a: set<string>)
    requires i < |r.consequent| && r.consequent[i] != arg
    requires NextInner(g, H, arg, visited, acc, done, r, i, V, a) == true
    ensures NextInner(g, H, arg, visited, acc, done, r, i + 1, V, a) == true
  {
    assert FollowersUpTo(r.consequent, arg, i + 1) == FollowersUpTo(r.consequent, arg, i);
  }

  /** A nested call of the walk into a successor B of `arg` keeps the state, adding what it visited. */
  lemma NextAccCall(g: Rules, H: string -> Search, arg: string, visited: set<string>, acc: set<string>,
                    V1: set<string>, a1: set<string>, V2: set<string>, a2: set<string>, extra: set<string>, B: string)
    requires NextAcc(g, H, arg, visited, acc, V1, a1, extra)
    requires B in NextSucc(g, arg)
    requires NextPost(g, H, B, V1, a1, V2, a2) == true
    ensures NextAcc(g, H, arg, visited, acc, V2, a2, extra)
  {
    NextEdges(g, arg);
    ReachEdge(NextGraph(g), arg, B);
    var D1 := V1 - visited - {arg};
    assert V2 - visited - {arg} == D1 + (V2 - V1);
    FollowersOfSplit(g, D1, V2 - V1);
    HeaderUnionSplit(H, FollowersOf(g, D1), FollowersOf(g, V2 - V1));
  }

  /** An occurrence at the end continues the walk into the antecedent. */
  lemma NextLastOccurrence(g: Rules, H: string -> Search, arg: string, visited: set<string>, acc: set<string>,
                           done: set<Rule>, r: Rule, i: nat, V: set<string>, a: set<string>, V': set<string>, a': set<string>)
    requires r in FilterRulesByConsequent(g, arg)
    requires i == |r.consequent| - 1 && r.consequent[i] == arg
    requires NextInner(g, H, arg, visited, acc, done, r, i, V, a) == true
    requires NextPost(g, H, r.antecedent, V, a, V', a') == true
    ensures NextInner(g, H, arg, visited, acc, done, r, i + 1, V', a') == true
  {
    var p := r.consequent;
    assert FollowersUpTo(p, arg, i + 1) == FollowersUpTo(p, arg, i);
    assert Handled(done, p, arg, i + 1) == Handled(done, p, arg, i);
    assert r.antecedent in NextSucc(g, arg);
    NextAccCall(g, H, arg, visited, acc, V, a, V', a', HeaderUnion(H, Handled(done, p, arg, i)), r.antecedent);
  }

  /** The headers gathered for one more symbol. */
  lemma HeaderUnionAdd(H: string -> Search, Y: set<string>, y: string, h: set<string>)
    requires H(y) == Found(h)
    ensures HeaderUnion(H, Y + {y}) == HeaderUnion(H, Y) + h
  {
    HeaderUnionSplit(H, Y, {y});
    assert HeaderUnion(H, {y}) == h;
  }

  /** An inner occurrence adds the `header` of the one symbol after it. */
  lemma NextInnerOccurrence(g: Rules, H: string -> Search, arg: string, visited: set<string>, acc: set<string>,
                            done: set<Rule>, r: Rule, i: nat, V: set<string>, a: set<string>, h: set<string>)
    requires i < |r.consequent| - 1 && r.consequent[i] == arg
    requires NextInner(g, H, arg, visited, acc, done, r, i, V, a) == true
    requires H(r.consequent[i + 1]) == Found(h)
    ensures NextInner(g, H, arg, visited, acc, done, r, i + 1, V, a + h) == true
  {
    var p := r.consequent;
    var Y := Handled(done, p, arg, i);
    assert FollowersUpTo(p, arg, i + 1) == FollowersUpTo(p, arg, i) + {After(p, i)};
    assert Handled(done, p, arg, i + 1) == Y + {After(p, i)};
    HeaderUnionAdd(H, Y, After(p, i), h);
    NextAccAdd(g, H, arg, visited, acc, V, a, HeaderUnion(H, Y), h);
    HeadersFoundSplit(H, Y, {After(p, i)});
  }

  /** Gathering more symbols from the rules of `arg` keeps the state. */
  lemma NextAccAdd(g: Rules, H: string -> Search, arg: string, visited: set<string>, acc: set<string>,
                   V: set<string>, a: set<string>, extra: set<string>, more: set<string>)
    requires NextAcc(g, H, arg, visited, acc, V, a, extra)
    ensures NextAcc(g, H, arg, visited, acc, V, a + more, extra + more)
  {
  }

  /** A failing `header` at an inner occurrence is a failure of the walk from `arg`. */
  lemma NextOccurrenceFails(g: Rules, H: string -> Search, arg: string, r: Rule, i: nat)
    requires r in FilterRulesByConsequent(g, arg)
    requires i < |r.consequent| - 1 && r.consequent[i] == arg
    requires !H(r.consequent[i + 1]).Found?
    ensures NextFail(g, H, arg, H(r.consequent[i + 1]))
  {
    ReachStart(NextGraph(g), arg);
    assert After(r.consequent, i) in Followers(g, arg);
  }

  /** Once every rule mentioning `arg` is handled, the call has done what a call of the walk promises. */
  lemma NextFinish(g: Rules, H: string -> Search, arg: string, visited: set<string>, acc: set<string>, V: set<string>, a: set<string>)
    requires arg !in visited
    requires NextOuter(g, H, arg, visited, acc, FilterRulesByConsequent(g, arg), V, a) == true
    ensures NextPost(g, H, arg, visited, acc, V, a) == true
  {
    var rules := FilterRulesByConsequent(g, arg);
    var D := V - visited - {arg};
    var F := Followers(g, arg);
    NextFinishSets(g, arg);
    assert V - visited == {arg} + D;
    FollowersOfSplit(g, {arg}, D);
    assert FollowersOf(g, V - visited) == F + FollowersOf(g, D);
    HeadersFoundSplit(H, F, FollowersOf(g, D));
    HeaderUnionSplit(H, F, FollowersOf(g, D));
    assert a == acc + HeaderUnion(H, FollowersOf(g, V - visited));
    forall y | y in V - visited
      ensures NextSucc(g, y) <= V
    {
      if y != arg {
        assert y in D;
      }
    }
  }

  /** Once all rules mentioning `arg` are handled, their followers and successors are all of them. */
  lemma NextFinishSets(g: Rules, arg: string)
    ensures FollowersIn(FilterRulesByConsequent(g, arg), arg) == Followers(g, arg)
    ensures SuccIn(FilterRulesByConsequent(g, arg), arg) == NextSucc(g, arg)
    ensures FollowersOf(g, {arg}) == Followers(g, arg)
  {
  }

  /** A finished walk from `arg` over fresh nodes has visited exactly what is reachable from it. */
  lemma NextDone(g: Rules, H: string -> Search, arg: string, V: set<string>, a: set<string>)
    requires NextPost(g, H, arg, {}, {}, V, a) == true
    ensures V == Reach(NextGraph(g), arg)
    ensures NextFound(g, H, arg) && a - {Epsilon} == NextSet(g, H, arg)
  {
    var G := NextGraph(g);
    forall y | y in V
      ensures Edges(G, y) <= V
    {
      NextEdges(g, y);
    }
    ReachLeast(G, arg, V);
    assert V - {} == V;
  }

  /**
   * `nextUtil`: unless `arg` was already visited, mark it, and for every
   * occurrence of it in every rule mentioning it, add `header` of the one
   * symbol after it, or continue the walk into the rule's antecedent when
   * the occurrence is last. A `header` that does not finish ends the walk.
   */
  method NextUtil(table: LST.SymbolTable, g: Rules, fuel: nat, ghost st0: Table, arg: string, visited: set<string>, acc: set<string>)
    returns (r: Search, visited': set<string>)
    requires table.Valid() && LST.Extends(st0, table.st)
    modifies table`st
    ensures table.Valid() && LST.Extends(st0, table.st)
    ensures r.Found? ==> NextPost(g, HeaderOf(st0, g, fuel), arg, visited, acc, visited', r.symbols) == true
    ensures !r.Found? ==> NextFail(g, HeaderOf(st0, g, fuel), arg, r)
    decreases LS.Symbols(g) - visited, 3
  {
    ghost var H := HeaderOf(st0, g, fuel);
    if arg in visited {
      assert visited - visited == {};
      assert FollowersOf(g, {}) == {} && HeaderUnion(H, {}) == {};
      return Found(acc), visited;
    }
    NextStart(g, H, arg, visited, acc);
    r, visited' := NextRules(table, g, fuel, st0, arg, visited, acc, visited + {arg});
    if r.Found? {
      NextFinish(g, H, arg, visited, acc, visited', r.symbols);
    }
  }

  /** The rules mentioning `arg`, one after another, in no particular order. */
  method NextRules(table: LST.SymbolTable, g: Rules, fuel: nat, ghost st0: Table, arg: string,
                   ghost visited: set<string>, acc: set<string>, V: set<string>) returns (r: Search, V': set<string>)
    requires table.Valid() && LST.Extends(st0, table.st)
    requires arg !in visited
    requires NextOuter(g, HeaderOf(st0, g, fuel), arg, visited, acc, {}, V, acc) == true
    modifies table`st
    ensures table.Valid() && LST.Extends(st0, table.st)
    ensures r.Found? ==> NextOuter(g, HeaderOf(st0, g, fuel), arg, visited, acc, FilterRulesByConsequent(g, arg), V', r.symbols) == true
    ensures !r.Found? ==> NextFail(g, HeaderOf(st0, g, fuel), arg, r)
    decreases LS.Symbols(g) - visited, 2
  {
    ghost var H := HeaderOf(st0, g, fuel);
    V' := V;
    var a := acc;
    var rules := FilterRulesByConsequent(g, arg);
    var todo := rules;
    ghost var done: set<Rule> := {};
    while todo != {}
      invariant todo <= rules && done == rules - todo
      invariant table.Valid() && LST.Extends(st0, table.st)
      invariant NextOuter(g, H, arg, visited, acc, done, V', a) == true
      decreases todo
    {
      var rule :| rule in todo;
      NextInnerStart(g, H, arg, visited, acc, done, rule, V', a);
      r, V' := NextRule(table, g, fuel, st0, arg, visited, acc, done, rule, V', a);
      if !r.Found? {
        return;
      }
      a := r.symbols;
      NextInnerEnd(g, H, arg, visited, acc, done, rule, V', a);
      MoveOne(rules, todo, done, rule);
      todo := todo - {rule};
      done := done + {rule};
    }
    assert done == rules;
    r := Found(a);
  }

  /** The occurrences of `arg` in one rule mentioning it, left to right. */
  method NextRule(table: LST.SymbolTable, g: Rules, fuel: nat, ghost st0: Table, arg: string,
                  ghost visited: set<string>, ghost acc: set<string>, ghost done: set<Rule>,
                  rule: Rule, V: set<string>, a: set<string>) returns (r: Search, V': set<string>)
    requires table.Valid() && LST.Extends(st0, table.st)
    requires rule in FilterRulesByConsequent(g, arg) && arg !in visited
    requires NextInner(g, HeaderOf(st0, g, fuel), arg, visited, acc, done, rule, 0, V, a) == true
    modifies table`st
    ensures table.Valid() && LST.Extends(st0, table.st)
    ensures r.Found? ==> NextInner(g, HeaderOf(st0, g, fuel), arg, visited, acc, done, rule, |rule.consequent|, V', r.symbols) == true
    ensures !r.Found? ==> NextFail(g, HeaderOf(st0, g, fuel), arg, r)
    decreases LS.Symbols(g) - visited, 1
  {
    V' := V;
    var a' := a;
    for i := 0 to |rule.consequent|
      invariant table.Valid() && LST.Extends(st0, table.st)
      invariant NextInner(g, HeaderOf(st0, g, fuel), arg, visited, acc, done, rule, i, V', a') == true
    {
      r, V' := NextOccurrence(table, g, fuel, st0, arg, visited, acc, done, rule, i, V', a');
      if !r.Found? {
        return;
      }
      a' := r.symbols;
    }
    r := Found(a');
  }

  /**
   * One position of a rule mentioning `arg`: at an occurrence that is last,
   * the walk continues into the antecedent; at any other occurrence,
   * `header` of the next symbol alone is added.
   */
  method NextOccurrence(table: LST.SymbolTable, g: Rules, fuel: nat, ghost st0: Table, arg: string,
                        ghost visited: set<string>, ghost acc: set<string>, ghost done: set<Rule>,
                        rule: Rule, i: nat, V: set<string>, a: set<string>) returns (r: Search, V': set<string>)
    requires table.Valid() && LST.Extends(st0, table.st)
    requires rule in FilterRulesByConsequent(g, arg) && i < |rule.consequent| && arg !in visited
    requires NextInner(g, HeaderOf(st0, g, fuel), arg, visited, acc, done, rule, i, V, a) == true
    modifies table`st
    ensures table.Valid() && LST.Extends(st0, table.st)
    ensures r.Found? ==> NextInner(g, HeaderOf(st0, g, fuel), arg, visited, acc, done, rule, i + 1, V', r.symbols) == true
    ensures !r.Found? ==> NextFail(g, HeaderOf(st0, g, fuel), arg, r)
    decreases LS.Symbols(g) - visited, 0
  {
    ghost var H := HeaderOf(st0, g, fuel);
    var p := rule.consequent;
    if p[i] != arg {
      NextNotAnOccurrence(g, H, arg, visited, acc, done, rule, i, V, a);
      return Found(a), V;
    }
    LS.OccurrenceIsSymbol(g, rule, arg);
    assert LS.Symbols(g) - V < LS.Symbols(g) - visited;
    if i == |p| - 1 {
      r, V' := NextUtil(table, g, fuel, st0, rule.antecedent, V, a);
      if r.Found? {
        NextLastOccurrence(g, H, arg, visited, acc, done, rule, i, V, a, V', r.symbols);
      } else {
        assert rule.antecedent in NextSucc(g, arg);
        NextFailEdge(g, H, arg, rule.antecedent, r);
      }
    } else {
      V' := V;
      var h := ComputeHeader(table, g, [p[i + 1]], fuel, st0);
      assert H(p[i + 1]) == h;
      if h.Found? {
        NextInnerOccurrence(g, H, arg, visited, acc, done, rule, i, V, a, h.symbols);
        r := Found(a + h.symbols);
      } else {
        NextOccurrenceFails(g, H, arg, rule, i);
        r := h;
      }
    }
  }

  /** `next`: the walk from `arg` over fresh sets, without EPSILON; the end marker is not added. */
  method Next(table: LST.SymbolTable, g: Rules, arg: string, fuel: nat, ghost st0: Table) returns (r: Search)
    requires table.Valid() && LST.Extends(st0, table.st)
    modifies table`st
    ensures table.Valid() && LST.Extends(st0, table.st)
    ensures r.Found? <==> NextFound(g, HeaderOf(st0, g, fuel), arg)
    ensures r.Found? ==> r.symbols == NextSet(g, HeaderOf(st0, g, fuel), arg)
    ensures !r.Found? ==> NextFail(g, HeaderOf(st0, g, fuel), arg, r)
  {
    var visited;
    r, visited := NextUtil(table, g, fuel, st0, arg, {}, {});
    if r.Found? {
      NextDone(g, HeaderOf(st0, g, fuel), arg, visited, r.symbols);
      var nextSymbols := r.symbols;
      if Epsilon in nextSymbols {
        nextSymbols := nextSymbols - {Epsilon};
      }
      r := Found(nextSymbols);
    } else {
      NextFailNotFound(g, HeaderOf(st0, g, fuel), arg, r);
    }
  }

  /** A walk that fails did not find all it needed. */
  lemma NextFailNotFound(g: Rules, H: string -> Search, x: string, r: Search)
    requires NextFail(g, H, x, r)
    ensures !NextFound(g, H, x)
  {
  }

  /** What `next` gives is made of terminals only. */
  lemma NextSetTerminals(st: Table, g: Rules, fuel: nat, x: string)
    ensures forall t :: t in NextSet(g, HeaderOf(st, g, fuel), x) ==> IsTerminalIn(st, t)
  {
    var H := HeaderOf(st, g, fuel);
    forall t | t in NextSet(g, H, x)
      ensures IsTerminalIn(st, t)
    {
      var y :| y in NextNeeds(g, x) && H(y).Found? && t in H(y).symbols;
      HeaderSound(st, g, [y], fuel);
    }
  }

  // =====================================================================
  // director_symbol
  // =====================================================================

  /**
   * The director symbols of A -> p when they can be computed: `header` of
   * p, and when that holds EPSILON, EPSILON replaced by `next` of A.
   */
  ghost function DirectorSet(st: Table, g: Rules, fuel: nat, A: string, p: Production): Option<set<string>>
  {
    var hs := Header(st, g, p, fuel);
    if !hs.Found? then None
    else if Epsilon !in hs.symbols then Some(hs.symbols)
    else if NextFound(g, HeaderOf(st, g, fuel), A) then Some(hs.symbols - {Epsilon} + NextSet(g, HeaderOf(st, g, fuel), A))
    else None
  }

  /**
   * How `director_symbol` of A -> p ends: with the director set when there
   * is one; otherwise with the failure of `header` of p when that fails,
   * since it is computed first, and else with the failure of a `header`
   * that `next` of A needed.
   */
  ghost predicate DirectorOutcome(st: Table, g: Rules, fuel: nat, A: string, p: Production, r: Search)
  {
    && (r.Found? <==> DirectorSet(st, g, fuel, A, p).Some?)
    && (r.Found? ==> r.symbols == DirectorSet(st, g, fuel, A, p).value)
    && (!r.Found? && !Header(st, g, p, fuel).Found? ==> r == Header(st, g, p, fuel))
    && (!r.Found? && Header(st, g, p, fuel).Found? ==> NextFail(g, HeaderOf(st, g, fuel), A, r))
  }

  /** `director_symbol`: `header` of the production, with EPSILON traded for `next` of the antecedent. */
  method DirectorSymbol(table: LST.SymbolTable, g: Rules, fuel: nat, ghost st0: Table, antecedent: string, consequent: Production)
    returns (r: Search)
    requires table.Valid() && LST.Extends(st0, table.st)
    modifies table`st
    ensures table.Valid() && LST.Extends(st0, table.st)
    ensures DirectorOutcome(st0, g, fuel, antecedent, consequent, r)
  {
    var hd := ComputeHeader(table, g, consequent, fuel, st0);
    if !hd.Found? || Epsilon !in hd.symbols {
      return hd;
    }
    var n := Next(table, g, antecedent, fuel, st0);
    if !n.Found? {
      return n;
    }
    r := Found(hd.symbols - {Epsilon} + n.symbols);
  }

  /** A director set holds terminals only, never EPSILON. */
  lemma DirectorSetTerminals(st: Table, g: Rules, fuel: nat, A: string, p: Production)
    requires DirectorSet(st, g, fuel, A, p).Some?
    ensures forall t :: t in DirectorSet(st, g, fuel, A, p).value ==> t != Epsilon && IsTerminalIn(st, t)
  {
    HeaderSound(st, g, p, fuel);
    NextSetTerminals(st, g, fuel, A);
  }

  // The grammar S -> A B c, A -> a, B -> EPSILON.

  function LookaheadSymbols(): Table
  {
    map["S" := Entry(NoTerminal, ""), "A" := Entry(NoTerminal, ""), "B" := Entry(NoTerminal, ""),
        "a" := Entry(Terminal, "a"), "c" := Entry(Terminal, "c"), Epsilon := Entry(Terminal, Epsilon)]
  }

  function LookaheadRules(): Rules
  {
    map["S" := [["A", "B", "c"]], "A" := [["a"]], "B" := [[Epsilon]]]
  }

  /**
   * `next` looks only at the one symbol after an occurrence: with B able
   * to vanish, c can follow A, yet `next(A)` is empty, since `header(B)`
   * is just EPSILON.
   */
  lemma NextOneSymbolAhead(fuel: nat)
    requires fuel >= 2
    ensures NextFound(LookaheadRules(), HeaderOf(LookaheadSymbols(), LookaheadRules(), fuel), "A")
    ensures NextSet(LookaheadRules(), HeaderOf(LookaheadSymbols(), LookaheadRules(), fuel), "A") == {}
  {
    var st, g := LookaheadSymbols(), LookaheadRules();
    var H := HeaderOf(st, g, fuel);
    LookaheadNeeds();
    LookaheadHeaderB(fuel);
    assert H("B") == Found({Epsilon});
    HeaderUnionSingle(H, "B");
    assert HeadersFound(H, {"B"});
    assert HeaderUnion(H, {"B"}) - {Epsilon} == {};
    assert HeaderUnion(H, {"B"}) == {Epsilon};
  }

  /** In S -> A B c, only B is needed by `next(A)`. */
  lemma HeaderUnionSingle(H: string -> Search, y: string)
    requires H(y).Found?
    ensures HeaderUnion(H, {y}) == H(y).symbols
  {
  }

  lemma LookaheadNeeds()
    ensures NextNeeds(LookaheadRules(), "A") == {"B"}
  {
    var g := LookaheadRules();
    var r := Rule("S", 0, ["A", "B", "c"]);
    assert FilterRulesByConsequent(g, "A") == {r} by {
      forall q | q in FilterRulesByConsequent(g, "A")
        ensures q == r
      {
        assert q.antecedent == "S";
      }
    }
    assert NextSucc(g, "A") == {};
    assert Followers(g, "A") == {"B"} by {
      assert After(r.consequent, 0) == "B";
      forall y | y in Followers(g, "A")
        ensures y == "B"
      {
        var i :| 0 <= i < |r.consequent| - 1 && r.consequent[i] == "A" && After(r.consequent, i) == y;
      }
    }
    NextEdges(g, "A");
    ReachStart(NextGraph(g), "A");
    ReachLeast(NextGraph(g), "A", {"A"});
    assert Reach(NextGraph(g), "A") == {"A"};
    assert FollowersOf(g, {"A"}) == {"B"};
  }

  /** `header(B)` with B -> EPSILON finds EPSILON alone. */
  lemma LookaheadHeaderB(fuel: nat)
    requires fuel >= 2
    ensures Header(LookaheadSymbols(), LookaheadRules(), ["B"], fuel) == Found({Epsilon})
  {
    var st, g := LookaheadSymbols(), LookaheadRules();
    assert g["B"] == [[Epsilon]] && "B" in g && !IsTerminalIn(st, "B") && IsTerminalIn(st, Epsilon);
    var e := Expand(g["B"], []);
    assert |e| == 1 && e[0] == [Epsilon] + [] == [Epsilon];
    assert e == [[Epsilon]];
    assert [["B"]][..0] + e == [[Epsilon]];
    assert [Epsilon][1..] == [];
    assert [[Epsilon]][..0] == [];
    assert HeaderRun(st, g, [[Epsilon]], {}, fuel - 1) == HeaderRun(st, g, [], {Epsilon}, fuel - 2);
    assert HeaderRun(st, g, [["B"]], {}, fuel) == HeaderRun(st, g, [[Epsilon]], {}, fuel - 1);
  }
}
