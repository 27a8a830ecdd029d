/**
 * The LL(1) parser object of the current checker: it computes the FIRST
 * sets, walks FOLLOW, builds the prediction table with conflict detection,
 * and runs the stack machine over a token sequence. Every method is proved
 * against the specification functions of LL1Sets and ParseMachine.
 */
module LL1Parser {
  import opened Wrappers
  import opened Errors
  import opened SymbolTable
  import opened Grammar
  import opened Closure
  import opened LL1Sets
  import opened ParseMachine

  /** Every name the grammar mentions is in the symbol table, so classifying it never throws. */
  predicate Registered(st: Table, g: Rules)
  {
    forall x :: x in Symbols(g) ==> x in st
  }

  /** Every symbol of every suffix of a production of `g` is registered. */
  lemma SuffixRegistered(st: Table, g: Rules, A: string, k: nat, j: nat)
    requires Registered(st, g)
    requires A in g && k < |g[A]| && j <= |g[A][k]|
    ensures forall i :: 0 <= i < |g[A][k][j..]| ==> g[A][k][j..][i] in st
  {
    forall i | 0 <= i < |g[A][k][j..]|
      ensures g[A][k][j..][i] in st
    {
      assert g[A][k][j..][i] == g[A][k][j + i];
      assert g[A][k][j + i] in Symbols(g);
    }
  }

  /** Two families ordered one after the other and equal at both ends are equal in between. */
  lemma Squeeze(lo: Sets, mid: Sets, hi: Sets)
    requires lo.Keys == mid.Keys == hi.Keys
    requires Below(lo, mid) && Below(mid, hi) && hi == lo
    ensures mid == lo
  {
    forall x | x in mid
      ensures mid[x] == lo[x]
    {
    }
  }

  /** The first n productions of A have their FIRST inside A's set. */
  ghost predicate Satisfied(st: Table, g: Rules, F: Sets, A: string, n: nat)
    requires A in g && n <= |g[A]|
  {
    forall k :: 0 <= k < n ==> FirstOf(st, F, g[A][k]) <= Get(F, A)
  }

  /** A pass over the antecedents in `done`: the sets only grew, and if nothing changed, those antecedents are satisfied. */
  ghost predicate PassState(st: Table, g: Rules, start: Sets, F: Sets, done: set<string>)
  {
    && Within(g, F) && Below(F, LeastFirst(st, g)) && Below(start, F)
    && (F == start ==> forall B :: B in done ==> B in g && Satisfied(st, g, F, B, |g[B]|))
  }

  lemma PassStep(st: Table, g: Rules, start: Sets, before: Sets, F: Sets, done: set<string>, A: string)
    requires PassState(st, g, start, before, done) == true && A in g
    requires Within(g, F) && Below(F, LeastFirst(st, g)) && Below(start, F) && Below(before, F)
    requires F == before ==> Satisfied(st, g, F, A, |g[A]|)
    ensures PassState(st, g, start, F, done + {A}) == true
  {
    if F == start {
      Squeeze(start, before, F);
    }
  }

  /** A pass over every antecedent that changed nothing leaves a solution. */
  lemma PassComplete(st: Table, g: Rules, start: Sets, F: Sets)
    requires PassState(st, g, start, F, g.Keys) == true
    ensures F == start ==> IsFirstSolution(st, g, F)
  {
    if F == start {
      forall A, k | A in g && 0 <= k < |g[A]|
        ensures FirstOf(st, F, g[A][k]) <= Get(F, A)
      {
        assert Satisfied(st, g, F, A, |g[A]|);
      }
    }
  }

  /** The loop state of adding A's productions one by one, starting from `orig` within a pass that started at `start`. */
  ghost predicate AddState(st: Table, g: Rules, start: Sets, orig: Sets, F: Sets, A: string, k: nat)
    requires A in g && k <= |g[A]|
  {
    && Within(g, F) && Below(F, LeastFirst(st, g)) && Below(start, F) && Below(orig, F)
    && (F == orig ==> Satisfied(st, g, F, A, k))
  }

  /**
   * Adding FIRST of the k-th production of A to A's set keeps the family
   * within the alphabet and below the least solution; and if nothing
   * changed, that production is satisfied too.
   */
  lemma AddStep(st: Table, g: Rules, start: Sets, orig: Sets, F: Sets, A: string, k: nat)
    requires A in g && k < |g[A]| && orig.Keys == g.Keys
    requires AddState(st, g, start, orig, F, A, k)
    ensures AddState(st, g, start, orig, F[A := F[A] + FirstOf(st, F, g[A][k])], A, k + 1)
  {
    var F' := F[A := F[A] + FirstOf(st, F, g[A][k])];
    AddKeeps(st, g, F, A, k);
    BelowTrans(start, F, F');
    BelowTrans(orig, F, F');
    if F' == orig {
      Squeeze(orig, F, F');
      assert Satisfied(st, g, F', A, k + 1);
    }
  }

  /** Adding FIRST of one production to its antecedent's set stays within the alphabet and below the least solution. */
  lemma AddKeeps(st: Table, g: Rules, F: Sets, A: string, k: nat)
    requires A in g && k < |g[A]|
    requires Within(g, F) && Below(F, LeastFirst(st, g))
    ensures var F' := F[A := F[A] + FirstOf(st, F, g[A][k])];
            Within(g, F') && Below(F', LeastFirst(st, g)) && Below(F, F')
  {
    var L := LeastFirst(st, g);
    LeastFirstIsLeast(st, g);
    FirstOfMono(st, F, L, g[A][k]);
    FirstOfInAlphabet(st, g, F, A, k);
  }

  lemma BelowTrans(f: Sets, h: Sets, k: Sets)
    requires Below(f, h) && Below(h, k)
    ensures Below(f, k)
  {
  }

  /** What the walk adds directly from a set of rules mentioning x. */
  ghost function DirectIn(c: Context, fs: Sets, rules: set<Rule>, x: string): set<string>
  {
    set r, t | r in rules && t in RuleDirect(c.st, fs, r.consequent, x) :: t
  }

  /** The antecedents a set of rules makes the walk continue into. */
  ghost function SuccIn(c: Context, fs: Sets, rules: set<Rule>, x: string): set<string>
  {
    set r | r in rules && RuleSucc(c.st, fs, r.consequent, x) :: r.antecedent
  }

  lemma DirectInAdd(c: Context, fs: Sets, rules: set<Rule>, r: Rule, x: string)
    ensures DirectIn(c, fs, rules + {r}, x) == DirectIn(c, fs, rules, x) + RuleDirect(c.st, fs, r.consequent, x)
  {
  }

  // The walk's states below are used in contracts as `State(...) == true`:
  // the comparison makes the verifier check a state as one fact where it is
  // handed from one call to the next, instead of conjunct by conjunct.

  /**
   * What one call of the walk from `arg` achieves, given the names already
   * visited and the symbols already gathered: `arg` is visited, everything
   * newly visited is reachable from `arg` and has all its successors
   * visited, and exactly their direct sets are gathered, never EPSILON.
   */
  ghost predicate WalkPost(c: Context, fs: Sets, arg: string, visited: set<string>, acc: set<string>,
                           V: set<string>, a: set<string>)
  {
    && visited <= V && arg in V
    && V - visited <= Reach(FollowGraph(c, fs), arg)
    && (forall y :: y in V - visited ==> Succ(c, fs, y) <= V)
    && a == acc + DirectUnion(c, fs, V - visited)
    && Epsilon !in a
  }

  /**
   * The state inside one call of the walk from `arg`: what it has visited
   * since is reachable from `arg`, every node it finished (all but `arg`)
   * has its successors visited, and it has gathered `extra` from the rules
   * of `arg` plus the direct sets of the finished nodes.
   */
  ghost predicate WalkAcc(c: Context, fs: Sets, arg: string, visited: set<string>, acc: set<string>,
                          V: set<string>, a: set<string>, extra: set<string>)
  {
    && visited + {arg} <= V
    && V - visited <= Reach(FollowGraph(c, fs), arg)
    && (forall y :: y in V - visited - {arg} ==> Succ(c, fs, y) <= V)
    && a == acc + extra + DirectUnion(c, fs, V - visited - {arg})
    && Epsilon !in a
  }

  /** Between rules: `done` are the rules of `arg` seen so far. */
  ghost predicate OuterState(c: Context, fs: Sets, arg: string, visited: set<string>, acc: set<string>,
                             done: set<Rule>, V: set<string>, a: set<string>)
  {
    WalkAcc(c, fs, arg, visited, acc, V, a, DirectIn(c, fs, done, arg)) && SuccIn(c, fs, done, arg) <= V
  }

  /** Inside rule r, with its first i positions seen. */
  ghost predicate InnerState(c: Context, fs: Sets, arg: string, visited: set<string>, acc: set<string>,
                             done: set<Rule>, r: Rule, i: nat, V: set<string>, a: set<string>)
  {
    && i <= |r.consequent|
    && WalkAcc(c, fs, arg, visited, acc, V, a, DirectIn(c, fs, done, arg) + RuleDirectUpTo(c.st, fs, r.consequent, arg, i))
    && SuccIn(c, fs, done, arg) <= V
    && (RuleSuccUpTo(c.st, fs, r.consequent, arg, i) ==> r.antecedent in V)
  }

  /** The call starts with only `arg` visited and nothing gathered. */
  lemma WalkStart(c: Context, fs: Sets, arg: string, visited: set<string>, acc: set<string>)
    requires arg !in visited && Epsilon !in acc
    ensures OuterState(c, fs, arg, visited, acc, {}, visited + {arg}, acc) == true
  {
    ReachStart(FollowGraph(c, fs), arg);
    assert visited + {arg} - visited - {arg} == {};
  }

  lemma InnerStart(c: Context, fs: Sets, arg: string, visited: set<string>, acc: set<string>,
                   done: set<Rule>, r: Rule, V: set<string>, a: set<string>)
    requires OuterState(c, fs, arg, visited, acc, done, V, a) == true
    ensures InnerState(c, fs, arg, visited, acc, done, r, 0, V, a) == true
  {
    assert DirectIn(c, fs, done, arg) + RuleDirectUpTo(c.st, fs, r.consequent, arg, 0) == DirectIn(c, fs, done, arg);
  }

  lemma InnerEnd(c: Context, fs: Sets, arg: string, visited: set<string>, acc: set<string>,
                 done: set<Rule>, r: Rule, V: set<string>, a: set<string>)
    requires InnerState(c, fs, arg, visited, acc, done, r, |r.consequent|, V, a) == true
    ensures OuterState(c, fs, arg, visited, acc, done + {r}, V, a) == true
  {
    DirectInAdd(c, fs, done, r, arg);
  }

  /** A nested call of the walk into a successor B of `arg` keeps the state, adding what it visited. */
  lemma WalkAccCall(c: Context, fs: Sets, arg: string, visited: set<string>, acc: set<string>,
                    V1: set<string>, a1: set<string>, V2: set<string>, a2: set<string>, extra: set<string>, B: string)
    requires WalkAcc(c, fs, arg, visited, acc, V1, a1, extra)
    requires B in Succ(c, fs, arg)
    requires WalkPost(c, fs, B, V1, a1, V2, a2) == true
    ensures WalkAcc(c, fs, arg, visited, acc, V2, a2, extra)
  {
    var G := FollowGraph(c, fs);
    EdgesAreSucc(c, fs, arg);
    ReachEdge(G, arg, B);
    assert V2 - visited - {arg} == (V1 - visited - {arg}) + (V2 - V1);
    DirectUnionSplit(c, fs, V1 - visited - {arg}, V2 - V1);
  }

  /** Gathering more (never EPSILON) keeps the state. */
  lemma WalkAccAdd(c: Context, fs: Sets, arg: string, visited: set<string>, acc: set<string>,
                   V: set<string>, a: set<string>, extra: set<string>, more: set<string>)
    requires WalkAcc(c, fs, arg, visited, acc, V, a, extra)
    requires Epsilon !in more
    ensures WalkAcc(c, fs, arg, visited, acc, V, a + more, extra + more)
  {
  }

  /** A position holding another symbol changes nothing. */
  lemma NotAnOccurrence(c: Context, fs: Sets, arg: string, visited: set<string>, acc: set<string>,
                        done: set<Rule>, r: Rule, i: nat, V: set<string>, a: set<string>)
    requires i < |r.consequent| && r.consequent[i] != arg
    requires InnerState(c, fs, arg, visited, acc, done, r, i, V, a) == true
    ensures InnerState(c, fs, arg, visited, acc, done, r, i + 1, V, a) == true
  {
    assert RuleDirectUpTo(c.st, fs, r.consequent, arg, i + 1) == RuleDirectUpTo(c.st, fs, r.consequent, arg, i);
  }

  /** An occurrence at the end continues the walk into the antecedent and adds nothing directly. */
  lemma LastOccurrence(c: Context, fs: Sets, arg: string, visited: set<string>, acc: set<string>,
                       done: set<Rule>, r: Rule, i: nat, V: set<string>, a: set<string>, V': set<string>, a': set<string>)
    requires r in FilterRulesByConsequent(c.g, arg)
    requires i == |r.consequent| - 1 && r.consequent[i] == arg
    requires InnerState(c, fs, arg, visited, acc, done, r, i, V, a) == true
    requires WalkPost(c, fs, r.antecedent, V, a, V', a') == true
    ensures InnerState(c, fs, arg, visited, acc, done, r, i + 1, V', a') == true
  {
    var p := r.consequent;
    var extra := DirectIn(c, fs, done, arg) + RuleDirectUpTo(c.st, fs, p, arg, i);
    RuleSuccAt(c.st, fs, p, arg, i, |p|);
    assert RuleDirectUpTo(c.st, fs, p, arg, i + 1) == RuleDirectUpTo(c.st, fs, p, arg, i);
    WalkAccCall(c, fs, arg, visited, acc, V, a, V', a', extra, r.antecedent);
  }

  /** An inner occurrence whose rest can vanish adds FIRST of the rest and continues into the antecedent. */
  lemma VanishingOccurrence(c: Context, fs: Sets, arg: string, visited: set<string>, acc: set<string>,
                            done: set<Rule>, r: Rule, i: nat, V: set<string>, a: set<string>,
                            a1: set<string>, V': set<string>, a': set<string>)
    requires r in FilterRulesByConsequent(c.g, arg)
    requires i < |r.consequent| - 1 && r.consequent[i] == arg
    requires InnerState(c, fs, arg, visited, acc, done, r, i, V, a) == true
    requires Epsilon in FirstOf(c.st, fs, r.consequent[i + 1..])
    requires a1 == a + (FirstOf(c.st, fs, r.consequent[i + 1..]) - {Epsilon})
    requires WalkPost(c, fs, r.antecedent, V, a1, V', a') == true
    ensures InnerState(c, fs, arg, visited, acc, done, r, i + 1, V', a') == true
  {
    var p := r.consequent;
    var more := FirstOf(c.st, fs, p[i + 1..]) - {Epsilon};
    var before := DirectIn(c, fs, done, arg) + RuleDirectUpTo(c.st, fs, p, arg, i);
    var after := DirectIn(c, fs, done, arg) + RuleDirectUpTo(c.st, fs, p, arg, i + 1);
    assert after == before + more;
    WalkAccAdd(c, fs, arg, visited, acc, V, a, before, more);
    RuleSuccAt(c.st, fs, p, arg, i, |p|);
    WalkAccCall(c, fs, arg, visited, acc, V, a1, V', a', after, r.antecedent);
  }

  /** An inner occurrence whose rest cannot vanish only adds FIRST of the rest. */
  lemma SolidOccurrence(c: Context, fs: Sets, arg: string, visited: set<string>, acc: set<string>,
                        done: set<Rule>, r: Rule, i: nat, V: set<string>, a: set<string>, a': set<string>)
    requires i < |r.consequent| - 1 && r.consequent[i] == arg
    requires InnerState(c, fs, arg, visited, acc, done, r, i, V, a) == true
    requires a' == a + FirstOf(c.st, fs, r.consequent[i + 1..]) && Epsilon !in a'
    ensures InnerState(c, fs, arg, visited, acc, done, r, i + 1, V, a') == true
  {
    var p := r.consequent;
    var more := FirstOf(c.st, fs, p[i + 1..]) - {Epsilon};
    var before := DirectIn(c, fs, done, arg) + RuleDirectUpTo(c.st, fs, p, arg, i);
    assert DirectIn(c, fs, done, arg) + RuleDirectUpTo(c.st, fs, p, arg, i + 1) == before + more;
    WalkAccAdd(c, fs, arg, visited, acc, V, a, before, more);
    assert a' == a + more;
    assert !RuleSuccUpTo(c.st, fs, p, arg, i + 1) || RuleSuccUpTo(c.st, fs, p, arg, i);
  }

  /** Once every rule of `arg` is seen, the call has done what a call of the walk promises. */
  lemma WalkFinish(c: Context, fs: Sets, arg: string, visited: set<string>, acc: set<string>, V: set<string>, a: set<string>)
    requires arg !in visited
    requires OuterState(c, fs, arg, visited, acc, FilterRulesByConsequent(c.g, arg), V, a) == true
    ensures WalkPost(c, fs, arg, visited, acc, V, a) == true
  {
    var rules := FilterRulesByConsequent(c.g, arg);
    var D := V - visited - {arg};
    assert DirectIn(c, fs, rules, arg) == Direct(c, fs, arg);
    assert SuccIn(c, fs, rules, arg) == Succ(c, fs, arg);
    assert V - visited == {arg} + D;
    DirectUnionSplit(c, fs, {arg}, D);
    DirectUnionSingle(c, fs, arg);
    assert a == acc + DirectUnion(c, fs, V - visited);
    forall y | y in V - visited
      ensures Succ(c, fs, y) <= V
    {
      if y != arg {
        assert y in D;
      }
    }
  }

  /** A finished walk from `arg` over fresh nodes: what it visited is closed, so it is all of Reach. */
  lemma WalkDone(c: Context, fs: Sets, arg: string, V: set<string>, a: set<string>)
    requires WalkPost(c, fs, arg, {}, {}, V, a) == true
    ensures V == Reach(FollowGraph(c, fs), arg)
    ensures a == DirectUnion(c, fs, Reach(FollowGraph(c, fs), arg))
  {
    var G := FollowGraph(c, fs);
    forall y | y in V
      ensures Edges(G, y) <= V
    {
      EdgesAreSucc(c, fs, y);
    }
    ReachLeast(G, arg, V);
  }

  /**
   * The loop state of the iterative FOLLOW within one production (the k-th
   * of A), up to position i, from the sets `orig` the loop started with:
   * bounded by the solution L, only grown, `changed` exactly when something
   * grew, and, if nothing did, the rule holds at every position before i.
   */
  ghost predicate ProductionState(c: Context, fs: Sets, L: Sets, orig: Sets, H: Sets, A: string, k: nat, i: nat, changed: bool)
  {
    && FollowBounded(c, H, L) && orig.Keys == H.Keys && Below(orig, H) && (changed <==> H != orig)
    && (H == orig ==> forall j: nat :: j < i ==> FollowHoldsAt(c, fs, H, A, k, j))
  }

  /** One update at position i keeps the state and covers that position. */
  lemma ProductionStep(c: Context, fs: Sets, L: Sets, orig: Sets, H: Sets, A: string, k: nat, i: nat, changed: bool, grew: bool)
    requires ProductionState(c, fs, L, orig, H, A, k, i, changed) == true && L.Keys == FollowKeys(c)
    requires A in c.g && k < |c.g[A]| && i < |c.g[A][k]| && !IsTerminalIn(c.st, c.g[A][k][i])
    requires FollowHoldsAt(c, fs, L, A, k, i)
    requires var B := c.g[A][k][i];
             grew <==> !(FollowAdd(c, fs, H, A, c.g[A][k], i) <= Get(H, B))
    ensures var B := c.g[A][k][i];
            ProductionState(c, fs, L, orig, H[B := Get(H, B) + FollowAdd(c, fs, H, A, c.g[A][k], i)], A, k, i + 1, changed || grew) == true
  {
    var B := c.g[A][k][i];
    var H' := H[B := Get(H, B) + FollowAdd(c, fs, H, A, c.g[A][k], i)];
    FollowUpdateBounded(c, fs, H, L, A, k, i);
    assert B in H;
    assert Below(H, H');
    var add := FollowAdd(c, fs, H, A, c.g[A][k], i);
    if grew {
      var t :| t in add && t !in Get(H, B);
      assert t in H'[B];
    } else {
      assert H[B] + add == H[B];
      assert H' == H;
    }
    if H' == orig {
      Squeeze(orig, H, H');
    }
  }

  /** A position holding a terminal needs no update. */
  lemma ProductionSkip(c: Context, fs: Sets, L: Sets, orig: Sets, H: Sets, A: string, k: nat, i: nat, changed: bool)
    requires ProductionState(c, fs, L, orig, H, A, k, i, changed) == true
    requires A in c.g && k < |c.g[A]| && i < |c.g[A][k]| && IsTerminalIn(c.st, c.g[A][k][i])
    ensures ProductionState(c, fs, L, orig, H, A, k, i + 1, changed) == true
  {
  }

  /** The loop state over the productions of A, up to the k-th. */
  ghost predicate ProductionsState(c: Context, fs: Sets, L: Sets, orig: Sets, H: Sets, A: string, k: nat, changed: bool)
  {
    && FollowBounded(c, H, L) && orig.Keys == H.Keys && Below(orig, H) && (changed <==> H != orig)
    && (H == orig ==> forall k': nat, j: nat :: k' < k ==> FollowHoldsAt(c, fs, H, A, k', j))
  }

  lemma ProductionsStep(c: Context, fs: Sets, L: Sets, orig: Sets, before: Sets, H: Sets, A: string, k: nat,
                        changed: bool, grew: bool)
    requires ProductionsState(c, fs, L, orig, before, A, k, changed) == true
    requires FollowBounded(c, H, L) && Below(before, H) && (grew <==> H != before)
    requires H == before ==> forall j: nat :: FollowHoldsAt(c, fs, H, A, k, j)
    ensures ProductionsState(c, fs, L, orig, H, A, k + 1, changed || grew) == true
  {
    assert before.Keys == H.Keys;
    if H == orig {
      Squeeze(orig, before, H);
    }
  }

  /** The loop state of one pass over the antecedents in `done`. */
  ghost predicate FollowPassState(c: Context, fs: Sets, L: Sets, orig: Sets, H: Sets, done: set<string>, changed: bool)
  {
    && FollowBounded(c, H, L) && orig.Keys == H.Keys && Below(orig, H) && (changed <==> H != orig)
    && (H == orig ==> forall A, k: nat, j: nat :: A in done ==> FollowHoldsAt(c, fs, H, A, k, j))
  }

  lemma FollowPassStep(c: Context, fs: Sets, L: Sets, orig: Sets, before: Sets, H: Sets, done: set<string>, A: string,
                       changed: bool, grew: bool)
    requires FollowPassState(c, fs, L, orig, before, done, changed) == true
    requires FollowBounded(c, H, L) && Below(before, H) && (grew <==> H != before)
    requires H == before ==> forall k: nat, j: nat :: FollowHoldsAt(c, fs, H, A, k, j)
    ensures FollowPassState(c, fs, L, orig, H, done + {A}, changed || grew) == true
  {
    assert before.Keys == H.Keys;
    if H == orig {
      Squeeze(orig, before, H);
    }
  }

  /** FIRST of the rest, added to what was gathered, without EPSILON. */
  lemma AddWithoutEpsilon(a: set<string>, f: set<string>)
    requires Epsilon !in a
    ensures (a + f) - {Epsilon} == a + (f - {Epsilon})
  {
  }

  /**
   * Appends p to the cell of each of its director symbols `ds`, creating
   * the cells that are missing. The conflict flag is raised when one of
   * those cells already held a production.
   */
  method AddToColumn(column: map<string, seq<Production>>, ds: set<string>, p: Production, conflict: bool)
    returns (column': map<string, seq<Production>>, conflict': bool)
    requires conflict <==> ColumnConflict(column)
    ensures column' == Extend(column, ds, p)
    ensures conflict' <==> ColumnConflict(column')
  {
    column', conflict' := column, conflict;
    var todo := ds;
    ghost var done: set<string> := {};
    ExtendNone(column, p);
    while todo != {}
      invariant todo <= ds && done == ds - todo
      invariant column' == Extend(column, done, p)
      invariant conflict' <==> ColumnConflict(column')
      decreases todo
    {
      var symbol :| symbol in todo;
      ExtendStep(column, done, p, symbol);
      ExtendConflict(column, done, p, symbol);
      var cell := if symbol in column' then column'[symbol] else [];
      if cell != [] {
        conflict' := true;
      }
      column' := column'[symbol := cell + [p]];
      MoveOne(ds, todo, done, symbol);
      todo := todo - {symbol};
      done := done + {symbol};
    }
  }

  class LL1Parser {
    /** The symbol table, grammar, axiom and end marker the parser was built for. */
    const st: Table
    const g: Rules
    const axiom: string
    const eol: string

    var firstSets: Sets
    var followSets: Sets
    var ll1: LL1Table
    /** The parse stack, top last. */
    var symbolStack: seq<string>
    /** The most recent lookaheads, oldest first. */
    var trace: seq<string>

    function Ctx(): Context
    {
      Context(st, g, axiom, eol)
    }

    constructor (st: Table, g: Rules, axiom: string, eol: string)
      ensures this.st == st && this.g == g && this.axiom == axiom && this.eol == eol
      ensures firstSets == map[] && followSets == map[] && ll1 == map[]
      ensures symbolStack == [] && trace == []
    {
      this.st, this.g, this.axiom, this.eol := st, g, axiom, eol;
      firstSets, followSets, ll1 := map[], map[], map[];
      symbolStack, trace := [], [];
    }

    /**
     * FIRST of a sequence from the cached sets: exactly `[EPSILON]` gives
     * {EPSILON}; otherwise the scan stops at the first terminal or the first
     * non-nullable non-terminal, and EPSILON is added when it runs off the end.
     */
    method First(rule: Production) returns (r: set<string>)
      requires forall i :: 0 <= i < |rule| ==> rule[i] in st
      ensures r == FirstOf(st, firstSets, rule)
    {
      if |rule| == 1 && rule[0] == Epsilon {
        assert rule == [Epsilon];
        return {Epsilon};
      }
      r := {};
      var i := 0;
      while i < |rule|
        invariant 0 <= i <= |rule|
        invariant Epsilon !in r
        invariant FirstScan(st, firstSets, rule) == r + FirstScan(st, firstSets, rule[i..])
      {
        var symbol := rule[i];
        assert rule[i..][0] == symbol && rule[i..][1..] == rule[i + 1..];
        if IsTerminalIn(st, symbol) {
          r := r + {symbol};
          break;
        }
        var fi := Get(firstSets, symbol);
        r := (r + fi) - {Epsilon};
        if Epsilon !in fi {
          break;
        }
        i := i + 1;
      }
      if i == |rule| {
        r := r + {Epsilon};
      }
    }

    /** One pass over every production, adding its FIRST to its antecedent's set. */
    method FirstPass()
      requires Registered(st, g)
      requires Within(g, firstSets) && Below(firstSets, LeastFirst(st, g))
      modifies this`firstSets
      ensures Within(g, firstSets) && Below(firstSets, LeastFirst(st, g))
      ensures Below(old(firstSets), firstSets)
      ensures firstSets == old(firstSets) ==> IsFirstSolution(st, g, firstSets)
    {
      ghost var start := firstSets;
      var todo := g.Keys;
      ghost var done: set<string> := {};
      while todo != {}
        invariant todo <= g.Keys && done == g.Keys - todo
        invariant PassState(st, g, start, firstSets, done) == true
        decreases todo
      {
        var A :| A in todo;
        ghost var before := firstSets;
        AddProductionsFirst(A, start);
        PassStep(st, g, start, before, firstSets, done, A);
        MoveOne(g.Keys, todo, done, A);
        todo := todo - {A};
        done := done + {A};
      }
      PassComplete(st, g, start, firstSets);
    }

    /** Adds FIRST of each production of A, in list order, to A's set. */
    method AddProductionsFirst(A: string, ghost start: Sets)
      requires Registered(st, g) && A in g
      requires Within(g, firstSets) && Below(firstSets, LeastFirst(st, g)) && Below(start, firstSets)
      modifies this`firstSets
      ensures Within(g, firstSets) && Below(firstSets, LeastFirst(st, g)) && Below(start, firstSets)
      ensures Below(old(firstSets), firstSets)
      ensures firstSets == old(firstSets) ==> Satisfied(st, g, firstSets, A, |g[A]|)
    {
      var k := 0;
      while k < |g[A]|
        invariant 0 <= k <= |g[A]|
        invariant AddState(st, g, start, old(firstSets), firstSets, A, k)
      {
        SuffixRegistered(st, g, A, k, 0);
        assert g[A][k][0..] == g[A][k];
        var fi := First(g[A][k]);
        AddStep(st, g, start, old(firstSets), firstSets, A, k);
        firstSets := firstSets[A := firstSets[A] + fi];
        k := k + 1;
      }
    }

    /**
     * The FIRST sets: reset every antecedent's set, add FIRST of every
     * production until a pass changes nothing, then drop the end marker
     * from the axiom's set.
     */
    method ComputeFirstSets()
      requires Registered(st, g)
      requires firstSets.Keys <= g.Keys
      modifies this`firstSets
      ensures firstSets == FirstSetsSpec(Ctx())
    {
      firstSets := firstSets + Bottom(g);
      assert Within(g, firstSets);
      LeastFirstIsLeast(st, g);
      var changed := true;
      while changed
        invariant Within(g, firstSets) && Below(firstSets, LeastFirst(st, g))
        invariant !changed ==> IsFirstSolution(st, g, firstSets)
        decreases Missing(g, firstSets), if changed then 1 else 0
      {
        var before := firstSets;
        FirstPass();
        changed := firstSets != before;
        if changed {
          MissingShrinks(g, before, firstSets);
        }
      }
      LeastFirstUnique(st, g, firstSets);
      firstSets := firstSets[axiom := Get(firstSets, axiom) - {eol}];
    }

    /**
     * The FOLLOW walk from `arg`: unless `arg` was already visited, mark
     * it, and for every occurrence of it in every rule mentioning it add
     * FIRST of the rest of the production without EPSILON, and continue
     * into the rule's antecedent when the occurrence is last or that rest
     * can vanish.
     */
    method FollowUtil(arg: string, visited: set<string>, acc: set<string>) returns (visited': set<string>, acc': set<string>)
      requires Registered(st, g)
      requires Epsilon !in acc
      ensures WalkPost(Ctx(), firstSets, arg, visited, acc, visited', acc') == true
      decreases Symbols(g) - visited, 2
    {
      if arg in visited {
        return visited, acc;
      }
      WalkStart(Ctx(), firstSets, arg, visited, acc);
      visited', acc' := visited + {arg}, acc;
      var rules := FilterRulesByConsequent(g, arg);
      var todo := rules;
      ghost var done: set<Rule> := {};
      while todo != {}
        invariant todo <= rules && done == rules - todo
        invariant OuterState(Ctx(), firstSets, arg, visited, acc, done, visited', acc') == true
        decreases todo
      {
        var r :| r in todo;
        InnerStart(Ctx(), firstSets, arg, visited, acc, done, r, visited', acc');
        visited', acc' := FollowRule(arg, visited, acc, done, r, visited', acc');
        InnerEnd(Ctx(), firstSets, arg, visited, acc, done, r, visited', acc');
        MoveOne(rules, todo, done, r);
        todo := todo - {r};
        done := done + {r};
      }
      WalkFinish(Ctx(), firstSets, arg, visited, acc, visited', acc');
    }

    /** The occurrences of `arg` in one rule mentioning it, left to right. */
    method FollowRule(arg: string, ghost visited: set<string>, ghost acc: set<string>, ghost done: set<Rule>,
                      r: Rule, V: set<string>, a: set<string>) returns (V': set<string>, a': set<string>)
      requires Registered(st, g)
      requires r in FilterRulesByConsequent(g, arg) && arg !in visited
      requires InnerState(Ctx(), firstSets, arg, visited, acc, done, r, 0, V, a) == true
      ensures InnerState(Ctx(), firstSets, arg, visited, acc, done, r, |r.consequent|, V', a') == true
      decreases Symbols(g) - visited, 1
    {
      V', a' := V, a;
      for i := 0 to |r.consequent|
        invariant InnerState(Ctx(), firstSets, arg, visited, acc, done, r, i, V', a') == true
      {
        V', a' := FollowOccurrence(arg, visited, acc, done, r, i, V', a');
      }
    }

    /**
     * One position of a rule mentioning `arg` (the body of the search for
     * the occurrences of `arg`): at an occurrence, add FIRST of what follows
     * without EPSILON, and continue the walk into the antecedent when the
     * occurrence is last or what follows can vanish.
     */
    method FollowOccurrence(arg: string, ghost visited: set<string>, ghost acc: set<string>, ghost done: set<Rule>,
                            r: Rule, i: nat, V: set<string>, a: set<string>) returns (V': set<string>, a': set<string>)
      requires Registered(st, g)
      requires r in FilterRulesByConsequent(g, arg) && i < |r.consequent| && arg !in visited
      requires InnerState(Ctx(), firstSets, arg, visited, acc, done, r, i, V, a) == true
      ensures InnerState(Ctx(), firstSets, arg, visited, acc, done, r, i + 1, V', a') == true
      decreases Symbols(g) - visited, 0
    {
      var p := r.consequent;
      if p[i] != arg {
        NotAnOccurrence(Ctx(), firstSets, arg, visited, acc, done, r, i, V, a);
        return V, a;
      }
      OccurrenceIsSymbol(g, r, arg);
      assert V - (visited + {arg}) < V - visited || Symbols(g) - V < Symbols(g) - visited;
      if i == |p| - 1 {
        V', a' := FollowUtil(r.antecedent, V, a);
        LastOccurrence(Ctx(), firstSets, arg, visited, acc, done, r, i, V, a, V', a');
      } else {
        SuffixRegistered(st, g, r.antecedent, r.index, i + 1);
        var f := First(p[i + 1..]);
        a' := a + f;
        if Epsilon in a' {
          AddWithoutEpsilon(a, f);
          a' := a' - {Epsilon};
          var a1 := a';
          V', a' := FollowUtil(r.antecedent, V, a1);
          VanishingOccurrence(Ctx(), firstSets, arg, visited, acc, done, r, i, V, a, a1, V', a');
        } else {
          V' := V;
          SolidOccurrence(Ctx(), firstSets, arg, visited, acc, done, r, i, V, a, a');
        }
      }
    }

    /** FOLLOW of `arg`: the end marker alone for the axiom, otherwise what the walk gathers, without EPSILON. */
    method Follow(arg: string) returns (r: set<string>)
      requires Registered(st, g)
      ensures r == FollowSpec(Ctx(), firstSets, arg)
    {
      if arg == axiom {
        return {eol};
      }
      var visited, nextSymbols := FollowUtil(arg, {}, {});
      WalkDone(Ctx(), firstSets, arg, visited, nextSymbols);
      r := nextSymbols;
      if Epsilon in r {
        r := r - {Epsilon};
      }
    }

    /**
     * Adds to the FOLLOW set of `symbol`, found at position i of `rhs`, a
     * production of `lhs`: FIRST of the rest without EPSILON, and FOLLOW of
     * `lhs` when the rest can vanish. The answer says whether the set grew.
     */
    method UpdateFollow(symbol: string, lhs: string, rhs: Production, i: nat) returns (changed: bool)
      requires i < |rhs| && forall j :: 0 <= j < |rhs| ==> rhs[j] in st
      modifies this`followSets
      ensures followSets == old(followSets)[symbol := Get(old(followSets), symbol) + FollowAdd(Ctx(), firstSets, old(followSets), lhs, rhs, i)]
      ensures changed <==> !(FollowAdd(Ctx(), firstSets, old(followSets), lhs, rhs, i) <= Get(old(followSets), symbol))
    {
      var rest := rhs[i + 1..];
      forall j | 0 <= j < |rest|
        ensures rest[j] in st
      {
        assert rest[j] == rhs[i + 1 + j];
      }
      var f := First(rest);
      var add := f - {Epsilon};
      if Epsilon in f {
        add := add + Get(followSets, lhs);
      }
      assert add == FollowAdd(Ctx(), firstSets, followSets, lhs, rhs, i);
      var before := Get(followSets, symbol);
      followSets := followSets[symbol := before + add];
      changed := !(add <= before);
    }

    /**
     * The iterative FOLLOW: the end marker at the axiom, nothing elsewhere;
     * then passes over every occurrence of a non-terminal in every
     * production, each applying UpdateFollow, until a pass changes nothing.
     * The result is the least family closed under the rules; at each
     * non-terminal it is what the walk of `follow` gathers, plus the end
     * marker when the walk reaches the axiom.
     */
    method ComputeFollowSets()
      requires Registered(st, g) && AntecedentsNonTerminal(Ctx())
      modifies this`followSets
      ensures followSets.Keys == FollowKeys(Ctx())
      ensures IsFollowSolution(Ctx(), firstSets, followSets)
      ensures forall x, H :: x in followSets && !IsTerminalIn(st, x) && IsFollowSolution(Ctx(), firstSets, H) ==>
                followSets[x] <= Get(H, x)
      ensures forall x :: x in followSets && !IsTerminalIn(st, x) && x != axiom ==>
                followSets[x] == FollowSpec(Ctx(), firstSets, x) +
                                 (if axiom in Reach(FollowGraph(Ctx(), firstSets), x) then {eol} else {})
      ensures axiom in followSets && FollowSpec(Ctx(), firstSets, axiom) <= followSets[axiom]
    {
      followSets := InitialFollow(Ctx());
      ghost var L := FollowFixSets(Ctx(), firstSets);
      FollowFixIsSolution(Ctx(), firstSets);
      FollowSolutionAt(Ctx(), firstSets, L);
      InitialFollowBounded(Ctx(), firstSets);
      var changed := true;
      while changed
        invariant FollowBounded(Ctx(), followSets, L)
        invariant !changed ==> IsFollowSolution(Ctx(), firstSets, followSets)
        decreases FollowMissing(followSets, L), if changed then 1 else 0
      {
        ghost var before := followSets;
        changed := FollowPass(L);
        if changed {
          FollowMissingShrinks(before, followSets, L);
        } else {
          FollowSolutionAt(Ctx(), firstSets, followSets);
        }
      }
      FollowIterationResult(Ctx(), firstSets, followSets);
    }

    /** One pass of ComputeFollowSets over every antecedent; the answer says whether any set grew. */
    method FollowPass(ghost L: Sets) returns (changed: bool)
      requires Registered(st, g) && L.Keys == FollowKeys(Ctx())
      requires forall A, k: nat, j: nat :: FollowHoldsAt(Ctx(), firstSets, L, A, k, j)
      requires FollowBounded(Ctx(), followSets, L)
      modifies this`followSets
      ensures FollowBounded(Ctx(), followSets, L) && Below(old(followSets), followSets)
      ensures changed <==> followSets != old(followSets)
      ensures !changed ==> forall A, k: nat, j: nat :: FollowHoldsAt(Ctx(), firstSets, followSets, A, k, j)
    {
      changed := false;
      var todo := g.Keys;
      ghost var done: set<string> := {};
      while todo != {}
        invariant todo <= g.Keys && done == g.Keys - todo
        invariant FollowPassState(Ctx(), firstSets, L, old(followSets), followSets, done, changed) == true
        decreases todo
      {
        var A :| A in todo;
        ghost var before := followSets;
        var grew := FollowProductions(A, L);
        FollowPassStep(Ctx(), firstSets, L, old(followSets), before, followSets, done, A, changed, grew);
        changed := changed || grew;
        MoveOne(g.Keys, todo, done, A);
        todo := todo - {A};
        done := done + {A};
      }
      if !changed {
        forall A, k: nat, j: nat
          ensures FollowHoldsAt(Ctx(), firstSets, followSets, A, k, j)
        {
          if A in g {
            assert A in done;
          }
        }
      }
    }

    /** The productions of A, in list order. */
    method FollowProductions(A: string, ghost L: Sets) returns (changed: bool)
      requires Registered(st, g) && A in g && L.Keys == FollowKeys(Ctx())
      requires forall k: nat, j: nat :: FollowHoldsAt(Ctx(), firstSets, L, A, k, j)
      requires FollowBounded(Ctx(), followSets, L)
      modifies this`followSets
      ensures FollowBounded(Ctx(), followSets, L) && Below(old(followSets), followSets)
      ensures changed <==> followSets != old(followSets)
      ensures !changed ==> forall k: nat, j: nat :: FollowHoldsAt(Ctx(), firstSets, followSets, A, k, j)
    {
      changed := false;
      for k := 0 to |g[A]|
        invariant ProductionsState(Ctx(), firstSets, L, old(followSets), followSets, A, k, changed) == true
      {
        ghost var before := followSets;
        var grew := FollowProduction(A, k, L);
        ProductionsStep(Ctx(), firstSets, L, old(followSets), before, followSets, A, k, changed, grew);
        changed := changed || grew;
      }
      if !changed {
        forall k: nat, j: nat
          ensures FollowHoldsAt(Ctx(), firstSets, followSets, A, k, j)
        {
          if k < |g[A]| {
            assert k < |g[A]|;
          }
        }
      }
    }

    /** The positions of the k-th production of A: each non-terminal there gets UpdateFollow. */
    method FollowProduction(A: string, k: nat, ghost L: Sets) returns (changed: bool)
      requires Registered(st, g) && A in g && k < |g[A]| && L.Keys == FollowKeys(Ctx())
      requires forall j: nat :: FollowHoldsAt(Ctx(), firstSets, L, A, k, j)
      requires FollowBounded(Ctx(), followSets, L)
      modifies this`followSets
      ensures FollowBounded(Ctx(), followSets, L) && Below(old(followSets), followSets)
      ensures changed <==> followSets != old(followSets)
      ensures !changed ==> forall j: nat :: FollowHoldsAt(Ctx(), firstSets, followSets, A, k, j)
    {
      var rhs := g[A][k];
      SuffixRegistered(st, g, A, k, 0);
      assert rhs[0..] == rhs;
      changed := false;
      for i := 0 to |rhs|
        invariant ProductionState(Ctx(), firstSets, L, old(followSets), followSets, A, k, i, changed) == true
      {
        var symbol := rhs[i];
        if !IsTerminalIn(st, symbol) {
          ProductionStep(Ctx(), firstSets, L, old(followSets), followSets, A, k, i, changed, !(FollowAdd(Ctx(), firstSets, followSets, A, rhs, i) <= Get(followSets, symbol)));
          var grew := UpdateFollow(symbol, A, rhs, i);
          changed := changed || grew;
        } else {
          ProductionSkip(Ctx(), firstSets, L, old(followSets), followSets, A, k, i, changed);
        }
      }
    }

    /**
     * The director symbols of A -> consequent: FIRST of the consequent,
     * with EPSILON replaced by FOLLOW of A when it is there.
     */
    method DirectorSymbols(antecedent: string, consequent: Production) returns (r: set<string>)
      requires Registered(st, g)
      requires forall i :: 0 <= i < |consequent| ==> consequent[i] in st
      ensures r == DirectorSpec(Ctx(), firstSets, antecedent, consequent)
    {
      var hd := First(consequent);
      if Epsilon !in hd {
        return hd;
      }
      var fo := Follow(antecedent);
      r := (hd - {Epsilon}) + fo;
    }

    /**
     * The column of A: every production of A, in list order, appended to
     * the cell of each of its director symbols. The flag says whether some
     * cell ended up with two or more productions.
     */
    method TableColumn(A: string) returns (column: map<string, seq<Production>>, conflict: bool)
      requires Registered(st, g) && A in g
      ensures column == ColumnSpec(Ctx(), firstSets, A, g[A])
      ensures conflict <==> ColumnConflict(column)
    {
      column, conflict := map[], false;
      assert ColumnSpec(Ctx(), firstSets, A, g[A][..0]) == map[];
      for k := 0 to |g[A]|
        invariant column == ColumnSpec(Ctx(), firstSets, A, g[A][..k])
        invariant conflict <==> ColumnConflict(column)
      {
        var p := g[A][k];
        SuffixRegistered(st, g, A, k, 0);
        assert p[0..] == p;
        var ds := DirectorSymbols(A, p);
        ColumnSnoc(Ctx(), firstSets, A, g[A][..k], p);
        assert g[A][..k + 1] == g[A][..k] + [p];
        column, conflict := AddToColumn(column, ds, p, conflict);
      }
      assert g[A][..|g[A]|] == g[A];
    }

    /**
     * Builds the LL(1) table: computes the FIRST sets, then, for every
     * antecedent, its column, inserted only when the table has no column
     * for it yet. Construction goes on past conflicts; the answer is false
     * exactly when some cell holds two or more productions.
     */
    method CreateLL1Table() returns (ok: bool)
      requires Registered(st, g) && firstSets.Keys <= g.Keys
      modifies this`firstSets, this`ll1
      ensures firstSets == FirstSetsSpec(Ctx())
      ensures ll1 == TableSpec(Ctx(), firstSets) + old(ll1)
      ensures ok <==> !HasConflict(TableSpec(Ctx(), firstSets))
    {
      ComputeFirstSets();
      ghost var fs := firstSets;
      var conflict := false;
      var todo := g.Keys;
      ghost var done: set<string> := {};
      assert TableOn(Ctx(), fs, {}) == map[];
      while todo != {}
        invariant firstSets == fs
        invariant todo <= g.Keys && done == g.Keys - todo
        invariant TableBuilt(Ctx(), fs, old(ll1), ll1, done, conflict) == true
        decreases todo
      {
        var A :| A in todo;
        var column, columnConflict := TableColumn(A);
        TableBuiltStep(Ctx(), fs, old(ll1), ll1, done, conflict, A, columnConflict);
        conflict := conflict || columnConflict;
        if A !in ll1 {
          ll1 := ll1[A := column];
        }
        MoveOne(g.Keys, todo, done, A);
        todo := todo - {A};
        done := done + {A};
      }
      assert done == g.Keys;
      TableBuiltAll(Ctx(), fs, old(ll1), ll1, conflict);
      ok := !conflict;
    }

    /**
     * Expands a non-terminal popped from the stack: the first production of
     * its cell for the lookahead is pushed in reverse, so that its first
     * symbol ends on top. Without a cell, the answer is whether the
     * non-terminal has an empty production (a lookup that throws for a name
     * without rules, and undefined behaviour at an empty production).
     */
    method ProcessNonTerminal(top: string, current: string) returns (r: Result<bool, Error>)
      requires CellsNonEmpty(ll1)
      modifies this`symbolStack
      ensures top in ll1 && current in ll1[top] ==>
                r == Ok(true) && symbolStack == old(symbolStack) + Reverse(ll1[top][current][0])
      ensures !(top in ll1 && current in ll1[top]) ==>
                r == HasEmptyProduction(g, top) && symbolStack == old(symbolStack)
    {
      if top in ll1 && current in ll1[top] {
        var p := ll1[top][current][0];
        var j := |p|;
        while j > 0
          invariant 0 <= j <= |p|
          invariant symbolStack == old(symbolStack) + Reverse(p[j..])
        {
          assert p[j - 1..][1..] == p[j..];
          j := j - 1;
          symbolStack := symbolStack + [p[j]];
        }
        assert p[0..] == p;
        return Ok(true);
      }
      r := HasEmptyProduction(g, top);
    }

    /**
     * Compares a popped terminal with the lookahead. The lookahead is
     * recorded in the history first, whether or not it matches; the history
     * drops its oldest entry once it holds five.
     */
    method MatchTerminal(top: string, current: string) returns (matched: bool)
      modifies this`trace
      ensures trace == Record(old(trace), current)
      ensures matched <==> top == current
    {
      if |trace| == TraceSize {
        trace := trace[1..];
      }
      trace := trace + [current];
      matched := top == current;
    }

    /**
     * The parse loop, over the token source `tokens` (whose next token is
     * the empty string once it is exhausted), for at most `fuel` turns. It
     * pushes the axiom, reads the first token, and runs the machine of
     * ParseMachine on the parser's own stack and history.
     */
    method Parse(tokens: seq<string>, fuel: nat) returns (o: ParseMachine.Outcome)
      requires CellsNonEmpty(ll1)
      modifies this`symbolStack, this`trace
      ensures var m := Machine(st, g, ll1, tokens);
              var res := Run(m, Start(m, old(symbolStack), old(trace), axiom), fuel);
              o == res.0 && symbolStack == res.1.stack && trace == res.1.trace
    {
      ghost var m := Machine(st, g, ll1, tokens);
      ghost var res := Run(m, Start(m, old(symbolStack), old(trace), axiom), fuel);
      symbolStack := symbolStack + [axiom];
      var current := Token(tokens, 0);
      var pos := Advance(tokens, 0);
      var n := fuel;
      while current != "" && symbolStack != []
        invariant res == Run(m, Config(symbolStack, trace, pos, current), n)
        decreases n
      {
        ghost var c := Config(symbolStack, trace, pos, current);
        if n == 0 {
          return OutOfFuel;
        }
        n := n - 1;
        var top := symbolStack[|symbolStack| - 1];
        symbolStack := symbolStack[..|symbolStack| - 1];
        if top == Epsilon {
          continue;
        }
        if top !in st {
          return Aborted(OutOfRange(top));
        }
        if !IsTerminalIn(st, top) {
          var r := ProcessNonTerminal(top, current);
          match r {
            case Err(e) => return Aborted(e);
            case Ok(applied) =>
              if !applied {
                return Rejected;
              }
          }
        } else {
          var matched := MatchTerminal(top, current);
          if !matched {
            return Rejected;
          }
          current, pos := Token(tokens, pos), Advance(tokens, pos);
        }
      }
      return Accepted;
    }
  }

  /**
   * The parser's constructors: the parser is built for the grammar and its
   * table created; when the table has a conflicting cell, construction
   * fails with the grammar error the constructors throw. That happens
   * exactly when two productions of one antecedent share a director symbol.
   */
  method NewParser(st: Table, g: Rules, axiom: string, eol: string) returns (r: Result<LL1Parser, Error>)
    requires Registered(st, g)
    ensures var c := Context(st, g, axiom, eol);
            r.Err? <==> DirectorsOverlap(c, FirstSetsSpec(c))
    ensures r.Err? ==> r.error == GrammarError("Grammar provided is not LL1.")
    ensures r.Ok? ==> var c := Context(st, g, axiom, eol);
              && fresh(r.value) && r.value.Ctx() == c
              && r.value.firstSets == FirstSetsSpec(c) && r.value.ll1 == TableSpec(c, FirstSetsSpec(c))
              && CellsNonEmpty(r.value.ll1) && r.value.symbolStack == [] && r.value.trace == []
  {
    var p := new LL1Parser(st, g, axiom, eol);
    var ok := p.CreateLL1Table();
    ConflictIffOverlap(p.Ctx(), p.firstSets);
    if !ok {
      return Err(GrammarError("Grammar provided is not LL1."));
    }
    TableCellsNonEmpty(p.Ctx(), p.firstSets);
    return Ok(p);
  }
}
