/**
 * The sets the LL(1) checker computes, as functions of the grammar and the
 * symbol table: FIRST of a symbol sequence, the FIRST fixed point, FOLLOW as
 * the recursive walk computes it and as the iterative fixed point defines it,
 * director (prediction) sets, and the LL(1) table.
 */
module LL1Sets {
  import opened Wrappers
  import opened SymbolTable
  import opened Grammar
  import opened Closure

  /** A set of symbols per name; a name without an entry has the empty set. */
  type Sets = map<string, set<string>>

  /** What the analysis of one grammar depends on. */
  datatype Context = Context(st: Table, g: Rules, axiom: string, eol: string)

  function Get(m: Sets, x: string): set<string>
  {
    if x in m then m[x] else {}
  }

  /** Pointwise inclusion of set families. */
  ghost predicate Below(f: Sets, h: Sets)
  {
    forall x :: x in f ==> f[x] <= Get(h, x)
  }

  /** Every name the grammar mentions: antecedents and the symbols of productions. */
  function Symbols(g: Rules): set<string>
  {
    g.Keys + (set A, k, i | A in g && 0 <= k < |g[A]| && 0 <= i < |g[A][k]| :: g[A][k][i])
  }

  /** Everything a FIRST set of the grammar can contain. */
  function Alphabet(g: Rules): set<string>
  {
    Symbols(g) + {Epsilon}
  }

  // =====================================================================
  // FIRST of a sequence of symbols
  // =====================================================================

  /**
   * The scan `first` performs: a terminal contributes itself and stops the
   * scan; a non-terminal contributes its cached FIRST set without EPSILON and
   * stops the scan unless that set holds EPSILON; running off the end adds
   * EPSILON.
   */
  function FirstScan(st: Table, fs: Sets, w: Production): set<string>
    decreases |w|
  {
    if w == [] then {Epsilon}
    else if IsTerminalIn(st, w[0]) then {w[0]}
    else (Get(fs, w[0]) - {Epsilon}) + (if Epsilon in Get(fs, w[0]) then FirstScan(st, fs, w[1..]) else {})
  }

  /** FIRST of a production: exactly `[EPSILON]` is treated on its own. */
  function FirstOf(st: Table, fs: Sets, rule: Production): set<string>
  {
    if rule == [Epsilon] then {Epsilon} else FirstScan(st, fs, rule)
  }

  /** Every symbol of `w` is a non-terminal whose cached FIRST set holds EPSILON. */
  ghost predicate AllNullable(st: Table, fs: Sets, w: Production)
  {
    forall i :: 0 <= i < |w| ==> !IsTerminalIn(st, w[i]) && Epsilon in Get(fs, w[i])
  }

  /**
   * What a non-EPSILON symbol in FIRST of a sequence comes from: the scan
   * reaches position i through nullable non-terminals only, and there either
   * meets the terminal itself or a non-terminal whose FIRST set holds it.
   */
  lemma {:induction false} FirstScanMember(st: Table, fs: Sets, w: Production, t: string)
    requires t != Epsilon
    ensures t in FirstScan(st, fs, w) <==>
              exists i :: 0 <= i < |w| && AllNullable(st, fs, w[..i]) &&
                          (if IsTerminalIn(st, w[i]) then t == w[i] else t in Get(fs, w[i]))
    decreases |w|
  {
    if w != [] {
      FirstScanMember(st, fs, w[1..], t);
      if t in FirstScan(st, fs, w) {
        if IsTerminalIn(st, w[0]) || t in Get(fs, w[0]) {
          assert AllNullable(st, fs, w[..0]);
        } else {
          var i :| 0 <= i < |w[1..]| && AllNullable(st, fs, w[1..][..i]) &&
                   (if IsTerminalIn(st, w[1..][i]) then t == w[1..][i] else t in Get(fs, w[1..][i]));
          assert w[..i + 1] == [w[0]] + w[1..][..i];
          assert AllNullable(st, fs, w[..i + 1]);
        }
      } else {
        forall i | 0 <= i < |w| && AllNullable(st, fs, w[..i])
          ensures !(if IsTerminalIn(st, w[i]) then t == w[i] else t in Get(fs, w[i]))
        {
          if i > 0 {
            assert w[..i][0] == w[0];
            assert w[1..][..i - 1] == w[..i][1..];
            assert w[1..][i - 1] == w[i];
          }
        }
      }
    }
  }

  /**
   * EPSILON is in FIRST of a sequence that does not mention EPSILON exactly
   * when every symbol of it is a nullable non-terminal.
   */
  lemma {:induction false} FirstScanEpsilon(st: Table, fs: Sets, w: Production)
    requires IsTerminalIn(st, Epsilon)
    requires Epsilon !in w
    ensures Epsilon in FirstScan(st, fs, w) <==> AllNullable(st, fs, w)
    decreases |w|
  {
    if w != [] {
      FirstScanEpsilon(st, fs, w[1..]);
      assert AllNullable(st, fs, w) ==> AllNullable(st, fs, w[1..]);
      if !IsTerminalIn(st, w[0]) && Epsilon in Get(fs, w[0]) && AllNullable(st, fs, w[1..]) {
        forall i | 0 <= i < |w|
          ensures !IsTerminalIn(st, w[i]) && Epsilon in Get(fs, w[i])
        {
          if i > 0 {
            assert w[i] == w[1..][i - 1];
          }
        }
      }
    }
  }

  /** FIRST of a concatenation, when the first part does not mention EPSILON. */
  lemma {:induction false} FirstScanConcat(st: Table, fs: Sets, p: Production, q: Production)
    requires Epsilon !in p
    ensures FirstScan(st, fs, p + q) ==
              (FirstScan(st, fs, p) - {Epsilon}) + (if Epsilon in FirstScan(st, fs, p) then FirstScan(st, fs, q) else {})
    decreases |p|
  {
    if p == [] {
      assert p + q == q;
    } else {
      assert (p + q)[0] == p[0];
      assert (p + q)[1..] == p[1..] + q;
      FirstScanConcat(st, fs, p[1..], q);
    }
  }

  /** Larger cached sets give a larger FIRST. */
  lemma {:induction false} FirstScanMono(st: Table, fs: Sets, hs: Sets, w: Production)
    requires Below(fs, hs)
    ensures FirstScan(st, fs, w) <= FirstScan(st, hs, w)
    decreases |w|
  {
    if w != [] && !IsTerminalIn(st, w[0]) {
      assert Get(fs, w[0]) <= Get(hs, w[0]);
      FirstScanMono(st, fs, hs, w[1..]);
    }
  }

  lemma FirstOfMono(st: Table, fs: Sets, hs: Sets, rule: Production)
    requires Below(fs, hs)
    ensures FirstOf(st, fs, rule) <= FirstOf(st, hs, rule)
  {
    if rule != [Epsilon] {
      FirstScanMono(st, fs, hs, rule);
    }
  }

  /** FIRST only holds EPSILON, symbols of the sequence and members of the cached sets. */
  lemma {:induction false} FirstScanWithin(st: Table, fs: Sets, w: Production, bound: set<string>)
    requires Epsilon in bound
    requires forall i :: 0 <= i < |w| ==> w[i] in bound && Get(fs, w[i]) <= bound
    ensures FirstScan(st, fs, w) <= bound
    decreases |w|
  {
    if w != [] {
      FirstScanWithin(st, fs, w[1..], bound);
    }
  }

  /** With cached sets of terminals and EPSILON only, FIRST holds terminals and EPSILON only. */
  lemma {:induction false} FirstScanTerminals(st: Table, fs: Sets, w: Production)
    requires forall x, t :: x in fs && t in fs[x] ==> t == Epsilon || IsTerminalIn(st, t)
    ensures forall t :: t in FirstScan(st, fs, w) ==> t == Epsilon || IsTerminalIn(st, t)
    decreases |w|
  {
    if w != [] {
      FirstScanTerminals(st, fs, w[1..]);
    }
  }

  // =====================================================================
  // The FIRST fixed point
  // =====================================================================

  /** Every production's FIRST is contained in its antecedent's set. */
  ghost predicate IsFirstSolution(st: Table, g: Rules, F: Sets)
  {
    forall A, k :: A in g && 0 <= k < |g[A]| ==> FirstOf(st, F, g[A][k]) <= Get(F, A)
  }

  /** The union of FIRST over a list of productions. */
  function ProductionsFirst(st: Table, F: Sets, ps: seq<Production>): set<string>
  {
    set k, t | 0 <= k < |ps| && t in FirstOf(st, F, ps[k]) :: t
  }

  /** One simultaneous round: every antecedent gains the FIRST of all its productions. */
  function FirstStep(st: Table, g: Rules, F: Sets): Sets
  {
    map A | A in g :: Get(F, A) + ProductionsFirst(st, F, g[A])
  }

  /** The sets start empty, one per antecedent. */
  function Bottom(g: Rules): Sets
  {
    map A | A in g :: {}
  }

  /** A family with one entry per antecedent, inside the alphabet. */
  ghost predicate Within(g: Rules, F: Sets)
  {
    F.Keys == g.Keys && forall A :: A in F ==> F[A] <= Alphabet(g)
  }

  function Missing(g: Rules, F: Sets): set<(string, string)>
  {
    set A, t | A in g && t in Alphabet(g) && t !in Get(F, A) :: (A, t)
  }

  lemma FirstOfInAlphabet(st: Table, g: Rules, F: Sets, A: string, k: nat)
    requires Within(g, F)
    requires A in g && k < |g[A]|
    ensures FirstOf(st, F, g[A][k]) <= Alphabet(g)
  {
    var p := g[A][k];
    forall i | 0 <= i < |p|
      ensures p[i] in Alphabet(g) && Get(F, p[i]) <= Alphabet(g)
    {
      assert p[i] == g[A][k][i];
    }
    FirstScanWithin(st, F, p, Alphabet(g));
  }

  lemma FirstStepWithin(st: Table, g: Rules, F: Sets)
    requires Within(g, F)
    ensures Within(g, FirstStep(st, g, F))
    ensures Below(F, FirstStep(st, g, F))
    ensures FirstStep(st, g, F) != F ==> Missing(g, FirstStep(st, g, F)) < Missing(g, F)
  {
    var F' := FirstStep(st, g, F);
    forall A | A in F'
      ensures F'[A] <= Alphabet(g)
    {
      ProductionsFirstWithin(st, g, F, A);
    }
    if F' != F {
      MissingShrinks(g, F, F');
    }
  }

  lemma ProductionsFirstWithin(st: Table, g: Rules, F: Sets, A: string)
    requires Within(g, F) && A in g
    ensures ProductionsFirst(st, F, g[A]) <= Alphabet(g)
  {
    forall t | t in ProductionsFirst(st, F, g[A])
      ensures t in Alphabet(g)
    {
      var k :| 0 <= k < |g[A]| && t in FirstOf(st, F, g[A][k]);
      FirstOfInAlphabet(st, g, F, A, k);
    }
  }

  /** A family that grew somewhere, inside the alphabet, misses strictly fewer pairs. */
  lemma MissingShrinks(g: Rules, F: Sets, F': Sets)
    requires Within(g, F) && Within(g, F') && Below(F, F') && F' != F
    ensures Missing(g, F') < Missing(g, F)
  {
    var A :| A in F && F'[A] != F[A];
    assert F[A] <= Get(F', A) == F'[A];
    if F'[A] - F[A] == {} {
      forall t | t in F'[A]
        ensures t in F[A]
      {
        assert t !in F'[A] - F[A];
      }
    }
    var t :| t in F'[A] - F[A];
    assert (A, t) in Missing(g, F) - Missing(g, F');
  }

  /** Kleene iteration of FirstStep up to its fixed point. */
  function FirstIterate(st: Table, g: Rules, F: Sets): (R: Sets)
    requires Within(g, F)
    decreases Missing(g, F)
  {
    FirstStepWithin(st, g, F);
    var F' := FirstStep(st, g, F);
    if F' == F then F else FirstIterate(st, g, F')
  }

  /** The least FIRST solution, one entry per antecedent. */
  function LeastFirst(st: Table, g: Rules): Sets
  {
    assert Within(g, Bottom(g));
    FirstIterate(st, g, Bottom(g))
  }

  lemma {:induction false} FirstIterateLeast(st: Table, g: Rules, F: Sets, H: Sets)
    requires Within(g, F)
    requires IsFirstSolution(st, g, H) && Below(F, H)
    ensures Below(FirstIterate(st, g, F), H)
    decreases Missing(g, F)
  {
    FirstStepWithin(st, g, F);
    var F' := FirstStep(st, g, F);
    forall A | A in F'
      ensures F'[A] <= Get(H, A)
    {
      forall t | t in ProductionsFirst(st, F, g[A])
        ensures t in Get(H, A)
      {
        var k :| 0 <= k < |g[A]| && t in FirstOf(st, F, g[A][k]);
        FirstOfMono(st, F, H, g[A][k]);
      }
    }
    if F' != F {
      FirstIterateLeast(st, g, F', H);
    }
  }

  lemma {:induction false} FirstIterateSolution(st: Table, g: Rules, F: Sets)
    requires Within(g, F)
    ensures IsFirstSolution(st, g, FirstIterate(st, g, F))
    ensures Within(g, FirstIterate(st, g, F))
    decreases Missing(g, F)
  {
    FirstStepWithin(st, g, F);
    var F' := FirstStep(st, g, F);
    if F' == F {
      forall A, k | A in g && 0 <= k < |g[A]|
        ensures FirstOf(st, F, g[A][k]) <= Get(F, A)
      {
        assert ProductionsFirst(st, F, g[A]) <= F'[A];
      }
    } else {
      FirstIterateSolution(st, g, F');
    }
  }

  /**
   * LeastFirst is what the fixed-point loop promises: a solution, with one
   * entry per antecedent, contained in every other solution.
   */
  lemma LeastFirstIsLeast(st: Table, g: Rules)
    ensures LeastFirst(st, g).Keys == g.Keys
    ensures IsFirstSolution(st, g, LeastFirst(st, g))
    ensures forall H :: IsFirstSolution(st, g, H) ==> Below(LeastFirst(st, g), H)
  {
    assert Within(g, Bottom(g));
    FirstIterateSolution(st, g, Bottom(g));
    forall H | IsFirstSolution(st, g, H)
      ensures Below(LeastFirst(st, g), H)
    {
      FirstIterateLeast(st, g, Bottom(g), H);
    }
  }

  /** A least solution is unique. */
  lemma LeastFirstUnique(st: Table, g: Rules, F: Sets)
    requires F.Keys == g.Keys && IsFirstSolution(st, g, F) && Below(F, LeastFirst(st, g))
    ensures F == LeastFirst(st, g)
  {
    LeastFirstIsLeast(st, g);
    var L := LeastFirst(st, g);
    forall A | A in F
      ensures F[A] == L[A]
    {
      assert F[A] <= L[A] && L[A] <= Get(F, A);
    }
  }

  /** The least FIRST sets hold only terminals and EPSILON. */
  lemma LeastFirstTerminals(st: Table, g: Rules)
    ensures forall A, t :: A in LeastFirst(st, g) && t in LeastFirst(st, g)[A] ==> t == Epsilon || IsTerminalIn(st, t)
  {
    LeastFirstIsLeast(st, g);
    var L := LeastFirst(st, g);
    var H := map A | A in L :: set t | t in L[A] && (t == Epsilon || IsTerminalIn(st, t));
    forall A, k | A in g && 0 <= k < |g[A]|
      ensures FirstOf(st, H, g[A][k]) <= Get(H, A)
    {
      assert Below(H, L);
      FirstOfMono(st, H, L, g[A][k]);
      if g[A][k] != [Epsilon] {
        FirstScanTerminals(st, H, g[A][k]);
      }
    }
    assert Below(L, H);
  }

  /** The least FIRST sets stay inside the grammar's alphabet. */
  lemma LeastFirstWithin(st: Table, g: Rules)
    ensures Within(g, LeastFirst(st, g))
  {
    assert Within(g, Bottom(g));
    FirstIterateSolution(st, g, Bottom(g));
  }

  /** The FIRST sets the checker keeps: the least solution, minus the end marker at the axiom. */
  function FirstSetsSpec(c: Context): Sets
  {
    var F := LeastFirst(c.st, c.g);
    F[c.axiom := Get(F, c.axiom) - {c.eol}]
  }

  /** When the end marker occurs in no production, removing it changes nothing that matters. */
  lemma FirstSetsSpecSolution(c: Context)
    requires c.eol !in Symbols(c.g) && c.eol != Epsilon
    ensures IsFirstSolution(c.st, c.g, FirstSetsSpec(c))
    ensures forall x :: Get(FirstSetsSpec(c), x) == Get(LeastFirst(c.st, c.g), x)
  {
    LeastFirstWithin(c.st, c.g);
    LeastFirstIsLeast(c.st, c.g);
    var F := LeastFirst(c.st, c.g);
    assert c.eol !in Get(F, c.axiom);
    forall x
      ensures Get(FirstSetsSpec(c), x) == Get(F, x)
    {
    }
    forall A, k | A in c.g && 0 <= k < |c.g[A]|
      ensures FirstOf(c.st, FirstSetsSpec(c), c.g[A][k]) <= Get(FirstSetsSpec(c), A)
    {
      assert Below(FirstSetsSpec(c), F) && Below(F, FirstSetsSpec(c));
      FirstOfMono(c.st, FirstSetsSpec(c), F, c.g[A][k]);
    }
  }

  // =====================================================================
  // FOLLOW as the recursive walk computes it
  // =====================================================================

  /**
   * What the occurrences of `x` among the first n positions of `p` add
   * directly: FIRST of the rest of the production, without EPSILON.
   */
  function RuleDirectUpTo(st: Table, fs: Sets, p: Production, x: string, n: nat): set<string>
    requires n <= |p|
  {
    if n == 0 then {}
    else RuleDirectUpTo(st, fs, p, x, n - 1) +
         (if n < |p| && p[n - 1] == x then FirstOf(st, fs, p[n..]) - {Epsilon} else {})
  }

  function RuleDirect(st: Table, fs: Sets, p: Production, x: string): set<string>
  {
    RuleDirectUpTo(st, fs, p, x, |p|)
  }

  /**
   * Whether one of the occurrences of `x` among the first n positions of `p`
   * makes the walk continue into the antecedent: the occurrence is last, or
   * the rest of the production can vanish.
   */
  predicate RuleSuccUpTo(st: Table, fs: Sets, p: Production, x: string, n: nat)
    requires n <= |p|
  {
    if n == 0 then false
    else RuleSuccUpTo(st, fs, p, x, n - 1) || (p[n - 1] == x && (n == |p| || Epsilon in FirstOf(st, fs, p[n..])))
  }

  predicate RuleSucc(st: Table, fs: Sets, p: Production, x: string)
  {
    RuleSuccUpTo(st, fs, p, x, |p|)
  }

  /** An occurrence of x before the last position adds FIRST of what follows it, without EPSILON. */
  lemma {:induction false} RuleDirectAt(st: Table, fs: Sets, p: Production, x: string, j: nat, n: nat)
    requires j < n <= |p| && j < |p| - 1 && p[j] == x
    ensures FirstOf(st, fs, p[j + 1..]) - {Epsilon} <= RuleDirectUpTo(st, fs, p, x, n)
  {
    if j < n - 1 {
      RuleDirectAt(st, fs, p, x, j, n - 1);
    }
  }

  /** Everything in a rule's direct contribution comes from one occurrence of x. */
  lemma {:induction false} RuleDirectFrom(st: Table, fs: Sets, p: Production, x: string, n: nat, t: string)
    requires n <= |p| && t in RuleDirectUpTo(st, fs, p, x, n)
    ensures exists j :: 0 <= j < n && j < |p| - 1 && p[j] == x && t in FirstOf(st, fs, p[j + 1..]) && t != Epsilon
  {
    if t !in RuleDirectUpTo(st, fs, p, x, n - 1) {
      assert p[n - 1] == x && t in FirstOf(st, fs, p[n - 1 + 1..]);
    } else {
      RuleDirectFrom(st, fs, p, x, n - 1, t);
    }
  }

  /** An occurrence of x that is last, or followed by something that can vanish, is a step of the walk. */
  lemma {:induction false} RuleSuccAt(st: Table, fs: Sets, p: Production, x: string, j: nat, n: nat)
    requires j < n <= |p| && p[j] == x
    requires j == |p| - 1 || Epsilon in FirstOf(st, fs, p[j + 1..])
    ensures RuleSuccUpTo(st, fs, p, x, n)
  {
    if j < n - 1 {
      RuleSuccAt(st, fs, p, x, j, n - 1);
    }
  }

  /** A step of the walk comes from one such occurrence. */
  lemma {:induction false} RuleSuccFrom(st: Table, fs: Sets, p: Production, x: string, n: nat) returns (j: nat)
    requires n <= |p| && RuleSuccUpTo(st, fs, p, x, n)
    ensures j < n && p[j] == x && (j == |p| - 1 || Epsilon in FirstOf(st, fs, p[j + 1..]))
  {
    if RuleSuccUpTo(st, fs, p, x, n - 1) {
      j := RuleSuccFrom(st, fs, p, x, n - 1);
    } else {
      j := n - 1;
    }
  }

  /** Everything the rules mentioning `x` add to its FOLLOW directly. */
  function Direct(c: Context, fs: Sets, x: string): set<string>
  {
    set r, t | r in FilterRulesByConsequent(c.g, x) && t in RuleDirect(c.st, fs, r.consequent, x) :: t
  }

  /** The antecedents whose FOLLOW the walk pulls into that of `x`. */
  function Succ(c: Context, fs: Sets, x: string): set<string>
  {
    set r | r in FilterRulesByConsequent(c.g, x) && RuleSucc(c.st, fs, r.consequent, x) :: r.antecedent
  }

  function FollowGraph(c: Context, fs: Sets): Graph
  {
    map y | y in Symbols(c.g) :: Succ(c, fs, y)
  }

  function DirectUnion(c: Context, fs: Sets, S: set<string>): set<string>
  {
    set y, t | y in S && t in Direct(c, fs, y) :: t
  }

  /**
   * What `follow` returns: the end marker alone for the axiom, and for any
   * other symbol everything added directly at the symbols the walk reaches.
   * The end marker is never added on the way, even when the walk reaches
   * the axiom.
   */
  ghost function FollowSpec(c: Context, fs: Sets, x: string): set<string>
  {
    if x == c.axiom then {c.eol} else DirectUnion(c, fs, Reach(FollowGraph(c, fs), x))
  }

  /** The graph's edges out of any name are exactly the walk's successors. */
  lemma EdgesAreSucc(c: Context, fs: Sets, x: string)
    ensures Edges(FollowGraph(c, fs), x) == Succ(c, fs, x)
  {
    if x !in Symbols(c.g) {
      forall r | r in FilterRulesByConsequent(c.g, x)
        ensures false
      {
        OccurrenceIsSymbol(c.g, r, x);
      }
    }
  }

  lemma OccurrenceIsSymbol(g: Rules, r: Rule, x: string)
    requires IsRuleOf(g, r) && x in r.consequent
    ensures x in Symbols(g)
  {
    var i :| 0 <= i < |r.consequent| && r.consequent[i] == x;
    assert g[r.antecedent][r.index][i] == x;
  }

  lemma SuccAreAntecedents(c: Context, fs: Sets, x: string)
    ensures Succ(c, fs, x) <= c.g.Keys
  {
  }

  lemma DirectUnionSplit(c: Context, fs: Sets, S: set<string>, T: set<string>)
    ensures DirectUnion(c, fs, S + T) == DirectUnion(c, fs, S) + DirectUnion(c, fs, T)
  {
  }

  lemma DirectUnionSingle(c: Context, fs: Sets, x: string)
    ensures DirectUnion(c, fs, {x}) == Direct(c, fs, x)
  {
  }

  /** FOLLOW as the walk computes it never holds EPSILON, except as the end marker of the axiom. */
  lemma FollowSpecNoEpsilon(c: Context, fs: Sets, x: string)
    requires x != c.axiom
    ensures Epsilon !in FollowSpec(c, fs, x)
  {
    forall y, r | r in FilterRulesByConsequent(c.g, y)
      ensures Epsilon !in RuleDirect(c.st, fs, r.consequent, y)
    {
      if Epsilon in RuleDirect(c.st, fs, r.consequent, y) {
        RuleDirectFrom(c.st, fs, r.consequent, y, |r.consequent|, Epsilon);
      }
    }
  }

  // =====================================================================
  // FOLLOW as the iterative fixed point defines it
  // =====================================================================

  /**
   * The rules of the iterative FOLLOW: the axiom's set holds the end marker,
   * and for every non-terminal B at position j of a production of A, B's set
   * holds FIRST of the rest without EPSILON, and all of A's set when that
   * rest can vanish.
   */
  ghost predicate IsFollowSolution(c: Context, fs: Sets, H: Sets)
  {
    && c.eol in Get(H, c.axiom)
    && forall A, k, j :: A in c.g && 0 <= k < |c.g[A]| && 0 <= j < |c.g[A][k]| && !IsTerminalIn(c.st, c.g[A][k][j]) ==>
         && FirstOf(c.st, fs, c.g[A][k][j + 1..]) - {Epsilon} <= Get(H, c.g[A][k][j])
         && (Epsilon in FirstOf(c.st, fs, c.g[A][k][j + 1..]) ==> Get(H, A) <= Get(H, c.g[A][k][j]))
  }

  /** Antecedents are non-terminals (a name registered as a terminal first stays one). */
  ghost predicate AntecedentsNonTerminal(c: Context)
  {
    forall A :: A in c.g ==> !IsTerminalIn(c.st, A)
  }

  /** The least iterative FOLLOW of x, in terms of the walk's graph. */
  ghost function FollowFix(c: Context, fs: Sets, x: string): set<string>
  {
    var R := Reach(FollowGraph(c, fs), x);
    DirectUnion(c, fs, R) + (if c.axiom in R then {c.eol} else {})
  }

  /** The names the iterative FOLLOW keeps a set for. */
  function FollowKeys(c: Context): set<string>
  {
    Symbols(c.g) + {c.axiom}
  }

  ghost function FollowFixSets(c: Context, fs: Sets): Sets
  {
    map x | x in FollowKeys(c) :: FollowFix(c, fs, x)
  }

  /** An occurrence of B before the end of a production feeds FIRST of the rest into B's direct set. */
  lemma DirectAtOccurrence(c: Context, fs: Sets, A: string, k: nat, j: nat)
    requires A in c.g && k < |c.g[A]| && j < |c.g[A][k]| - 1
    ensures FirstOf(c.st, fs, c.g[A][k][j + 1..]) - {Epsilon} <= Direct(c, fs, c.g[A][k][j])
  {
    var p := c.g[A][k];
    var r := Rule(A, k, p);
    assert IsRuleOf(c.g, r) && p[j] in p;
    assert r in FilterRulesByConsequent(c.g, p[j]);
    RuleDirectAt(c.st, fs, p, p[j], j, |p|);
    forall t | t in RuleDirect(c.st, fs, p, p[j])
      ensures t in Direct(c, fs, p[j])
    {
      assert r.consequent == p;
    }
  }

  /** An occurrence of B that is last or followed by something that can vanish makes A a successor of B. */
  lemma SuccAtOccurrence(c: Context, fs: Sets, A: string, k: nat, j: nat)
    requires A in c.g && k < |c.g[A]| && j < |c.g[A][k]|
    requires j == |c.g[A][k]| - 1 || Epsilon in FirstOf(c.st, fs, c.g[A][k][j + 1..])
    ensures A in Succ(c, fs, c.g[A][k][j])
  {
    var p := c.g[A][k];
    var r := Rule(A, k, p);
    assert IsRuleOf(c.g, r) && p[j] in p;
    assert r in FilterRulesByConsequent(c.g, p[j]);
    RuleSuccAt(c.st, fs, p, p[j], j, |p|);
  }

  lemma FollowFixIsSolution(c: Context, fs: Sets)
    ensures IsFollowSolution(c, fs, FollowFixSets(c, fs))
  {
    var G := FollowGraph(c, fs);
    var H := FollowFixSets(c, fs);
    ReachStart(G, c.axiom);
    forall A, k, j | A in c.g && 0 <= k < |c.g[A]| && 0 <= j < |c.g[A][k]| && !IsTerminalIn(c.st, c.g[A][k][j])
      ensures FirstOf(c.st, fs, c.g[A][k][j + 1..]) - {Epsilon} <= Get(H, c.g[A][k][j])
      ensures Epsilon in FirstOf(c.st, fs, c.g[A][k][j + 1..]) ==> Get(H, A) <= Get(H, c.g[A][k][j])
    {
      FollowFixOccurrence(c, fs, A, k, j);
    }
  }

  lemma FollowFixOccurrence(c: Context, fs: Sets, A: string, k: nat, j: nat)
    requires A in c.g && k < |c.g[A]| && j < |c.g[A][k]|
    ensures FirstOf(c.st, fs, c.g[A][k][j + 1..]) - {Epsilon} <= Get(FollowFixSets(c, fs), c.g[A][k][j])
    ensures Epsilon in FirstOf(c.st, fs, c.g[A][k][j + 1..]) ==>
              Get(FollowFixSets(c, fs), A) <= Get(FollowFixSets(c, fs), c.g[A][k][j])
  {
    var G := FollowGraph(c, fs);
    var p := c.g[A][k];
    var B := p[j];
    FollowFixSetsAt(c, fs, B);
    DirectInFollowFix(c, fs, B);
    if j < |p| - 1 {
      DirectAtOccurrence(c, fs, A, k, j);
    } else {
      assert p[j + 1..] == [];
    }
    if Epsilon in FirstOf(c.st, fs, p[j + 1..]) {
      SuccAtOccurrence(c, fs, A, k, j);
      EdgesAreSucc(c, fs, B);
      ReachEdge(G, B, A);
      FollowFixMono(c, fs, B, A);
      FollowFixSetsAt(c, fs, A);
    }
  }

  /** The sets of the iterative FOLLOW are the least solutions at every symbol of the grammar. */
  lemma FollowFixSetsAt(c: Context, fs: Sets, x: string)
    requires x in c.g || exists A, k, j :: A in c.g && 0 <= k < |c.g[A]| && 0 <= j < |c.g[A][k]| && c.g[A][k][j] == x
    ensures Get(FollowFixSets(c, fs), x) == FollowFix(c, fs, x)
  {
    if x !in c.g {
      var A, k, j :| A in c.g && 0 <= k < |c.g[A]| && 0 <= j < |c.g[A][k]| && c.g[A][k][j] == x;
      assert c.g[A][k][j] in Symbols(c.g);
    }
    assert x in FollowKeys(c);
  }

  /** Everything added directly at x is in its least FOLLOW. */
  lemma DirectInFollowFix(c: Context, fs: Sets, x: string)
    ensures Direct(c, fs, x) <= FollowFix(c, fs, x)
  {
    var G := FollowGraph(c, fs);
    ReachStart(G, x);
    DirectUnionSingle(c, fs, x);
    DirectUnionMono(c, fs, {x}, Reach(G, x));
  }

  /** A symbol whose walk reaches only part of another's has the smaller least FOLLOW. */
  lemma FollowFixMono(c: Context, fs: Sets, x: string, y: string)
    requires Reach(FollowGraph(c, fs), y) <= Reach(FollowGraph(c, fs), x)
    ensures FollowFix(c, fs, y) <= FollowFix(c, fs, x)
  {
    DirectUnionMono(c, fs, Reach(FollowGraph(c, fs), y), Reach(FollowGraph(c, fs), x));
  }

  lemma DirectUnionMono(c: Context, fs: Sets, S: set<string>, T: set<string>)
    requires S <= T
    ensures DirectUnion(c, fs, S) <= DirectUnion(c, fs, T)
  {
  }

  /** The non-terminals whose solution set lies inside that of x are closed under the walk's steps. */
  lemma BelowXClosed(c: Context, fs: Sets, H: Sets, x: string)
    requires AntecedentsNonTerminal(c)
    requires IsFollowSolution(c, fs, H)
    requires !IsTerminalIn(c.st, x)
    ensures Closed(FollowGraph(c, fs), set y | y in {x} + c.g.Keys && Get(H, y) <= Get(H, x))
  {
    var G := FollowGraph(c, fs);
    var C := set y | y in {x} + c.g.Keys && Get(H, y) <= Get(H, x);
    forall y, z | y in C && z in Edges(G, y)
      ensures z in C
    {
      EdgesAreSucc(c, fs, y);
      var r :| r in FilterRulesByConsequent(c.g, y) && RuleSucc(c.st, fs, r.consequent, y) && r.antecedent == z;
      var j := RuleSuccFrom(c.st, fs, r.consequent, y, |r.consequent|);
      assert c.g[z][r.index][j] == y;
      if j == |r.consequent| - 1 {
        assert r.consequent[j + 1..] == [];
      }
    }
  }

  /** In any solution, the set of a non-terminal holds what is added directly at a symbol whose set lies inside it. */
  lemma DirectInSolution(c: Context, fs: Sets, H: Sets, y: string)
    requires IsFollowSolution(c, fs, H)
    requires !IsTerminalIn(c.st, y)
    ensures Direct(c, fs, y) <= Get(H, y)
  {
    forall t | t in Direct(c, fs, y)
      ensures t in Get(H, y)
    {
      var r :| r in FilterRulesByConsequent(c.g, y) && t in RuleDirect(c.st, fs, r.consequent, y);
      RuleDirectFrom(c.st, fs, r.consequent, y, |r.consequent|, t);
      var j :| 0 <= j < |r.consequent| - 1 && r.consequent[j] == y && t in FirstOf(c.st, fs, r.consequent[j + 1..]) && t != Epsilon;
      assert c.g[r.antecedent][r.index][j] == y;
    }
  }

  /** In any solution, the set of a non-terminal covers what its fixed-point formula yields. */
  lemma FollowFixLeast(c: Context, fs: Sets, H: Sets, x: string)
    requires AntecedentsNonTerminal(c)
    requires IsFollowSolution(c, fs, H)
    requires !IsTerminalIn(c.st, x)
    ensures FollowFix(c, fs, x) <= Get(H, x)
  {
    var G := FollowGraph(c, fs);
    var C := set y | y in {x} + c.g.Keys && Get(H, y) <= Get(H, x);
    BelowXClosed(c, fs, H, x);
    ReachLeast(G, x, C);
    forall t | t in DirectUnion(c, fs, Reach(G, x))
      ensures t in Get(H, x)
    {
      var y :| y in Reach(G, x) && t in Direct(c, fs, y);
      assert y in C;
      DirectInSolution(c, fs, H, y);
    }
  }

  /**
   * The iterative FOLLOW and the recursive walk agree up to the end marker:
   * in the least solution F, a non-terminal's set is exactly what the walk
   * collects over the symbols it reaches, plus the end marker when the walk
   * reaches the axiom. So `follow` misses the end marker for every symbol
   * from which the axiom is reached, and for the axiom returns only it.
   */
  lemma LeastFollowIsWalk(c: Context, fs: Sets, F: Sets, x: string)
    requires AntecedentsNonTerminal(c)
    requires IsFollowSolution(c, fs, F)
    requires forall H :: IsFollowSolution(c, fs, H) ==> Below(F, H)
    requires !IsTerminalIn(c.st, x) && x in FollowKeys(c)
    ensures Get(F, x) == FollowFix(c, fs, x)
    ensures x != c.axiom ==>
              Get(F, x) == FollowSpec(c, fs, x) + (if c.axiom in Reach(FollowGraph(c, fs), x) then {c.eol} else {})
    ensures x == c.axiom ==> FollowSpec(c, fs, x) <= Get(F, x)
  {
    FollowFixIsSolution(c, fs);
    assert Below(F, FollowFixSets(c, fs));
    FollowFixLeast(c, fs, F, x);
    ReachStart(FollowGraph(c, fs), x);
  }

  /**
   * What one update adds to the set of the symbol at position i of rhs, a
   * production of lhs: FIRST of the rest without EPSILON, and lhs's set when
   * the rest can vanish.
   */
  function FollowAdd(c: Context, fs: Sets, H: Sets, lhs: string, rhs: Production, i: nat): set<string>
    requires i < |rhs|
  {
    var f := FirstOf(c.st, fs, rhs[i + 1..]);
    (f - {Epsilon}) + (if Epsilon in f then Get(H, lhs) else {})
  }

  /** The rule of the iterative FOLLOW holds in H at position j of the k-th production of A. */
  ghost predicate FollowHoldsAt(c: Context, fs: Sets, H: Sets, A: string, k: nat, j: nat)
  {
    A in c.g && k < |c.g[A]| && j < |c.g[A][k]| && !IsTerminalIn(c.st, c.g[A][k][j]) ==>
      FollowAdd(c, fs, H, A, c.g[A][k], j) <= Get(H, c.g[A][k][j])
  }

  /** A solution is a family of sets holding the end marker at the axiom where the rule holds at every position. */
  lemma {:induction false} FollowSolutionAt(c: Context, fs: Sets, H: Sets)
    ensures IsFollowSolution(c, fs, H) <==>
              c.eol in Get(H, c.axiom) && forall A, k: nat, j: nat :: FollowHoldsAt(c, fs, H, A, k, j)
  {
    if c.eol in Get(H, c.axiom) && forall A, k: nat, j: nat :: FollowHoldsAt(c, fs, H, A, k, j) {
      forall A, k, j | A in c.g && 0 <= k < |c.g[A]| && 0 <= j < |c.g[A][k]| && !IsTerminalIn(c.st, c.g[A][k][j])
        ensures FirstOf(c.st, fs, c.g[A][k][j + 1..]) - {Epsilon} <= Get(H, c.g[A][k][j])
        ensures Epsilon in FirstOf(c.st, fs, c.g[A][k][j + 1..]) ==> Get(H, A) <= Get(H, c.g[A][k][j])
      {
        assert FollowHoldsAt(c, fs, H, A, k, j);
      }
    }
  }

  /** The sets the iterative FOLLOW starts from: the end marker at the axiom, nothing elsewhere. */
  function InitialFollow(c: Context): (H: Sets)
    ensures H.Keys == FollowKeys(c)
    ensures Get(H, c.axiom) == {c.eol}
    ensures forall x :: x in H && x != c.axiom ==> H[x] == {}
  {
    map x | x in FollowKeys(c) :: if x == c.axiom then {c.eol} else {}
  }

  /** The pairs (x, t) that L has and H still lacks; finite, so growing H inside L ends. */
  ghost function FollowMissing(H: Sets, L: Sets): set<(string, string)>
  {
    set x, t | x in L && t in L[x] && t !in Get(H, x) :: (x, t)
  }

  /** The iteration's invariant against a solution L: the same keys, each set inside L's, the end marker at the axiom. */
  ghost predicate FollowBounded(c: Context, H: Sets, L: Sets)
  {
    H.Keys == L.Keys && Below(H, L) && c.eol in Get(H, c.axiom)
  }

  lemma InitialFollowBounded(c: Context, fs: Sets)
    ensures FollowBounded(c, InitialFollow(c), FollowFixSets(c, fs))
  {
    ReachStart(FollowGraph(c, fs), c.axiom);
  }

  /** One update at an occurrence of a non-terminal stays inside any solution that bounds the sets. */
  lemma FollowUpdateBounded(c: Context, fs: Sets, H: Sets, L: Sets, A: string, k: nat, j: nat)
    requires FollowBounded(c, H, L) && L.Keys == FollowKeys(c)
    requires A in c.g && k < |c.g[A]| && j < |c.g[A][k]| && !IsTerminalIn(c.st, c.g[A][k][j])
    requires FollowHoldsAt(c, fs, L, A, k, j)
    ensures var B := c.g[A][k][j];
            FollowBounded(c, H[B := Get(H, B) + FollowAdd(c, fs, H, A, c.g[A][k], j)], L)
  {
    var B := c.g[A][k][j];
    var add := FollowAdd(c, fs, H, A, c.g[A][k], j);
    var H' := H[B := Get(H, B) + add];
    assert B in Symbols(c.g);
    assert Get(H, A) <= Get(L, A);
    assert add <= FollowAdd(c, fs, L, A, c.g[A][k], j);
    forall y | y in H'
      ensures H'[y] <= Get(L, y)
    {
      if y != B {
        assert H'[y] == H[y];
      }
    }
  }

  /** A strictly larger family inside L lacks fewer pairs of L. */
  lemma FollowMissingShrinks(H: Sets, H': Sets, L: Sets)
    requires H.Keys == H'.Keys && Below(H, H') && Below(H', L) && H != H'
    ensures FollowMissing(H', L) < FollowMissing(H, L)
  {
    var M, M' := FollowMissing(H, L), FollowMissing(H', L);
    forall p | p in M'
      ensures p in M
    {
      var x, t :| x in L && t in L[x] && t !in Get(H', x) && p == (x, t);
      assert Get(H, x) <= Get(H', x);
    }
    assert exists y :: y in H && H[y] != H'[y];
    var x :| x in H && H[x] != H'[x];
    assert H[x] <= H'[x];
    assert exists t :: t in H'[x] && t !in H[x];
    var t :| t in H'[x] && t !in H[x];
    assert t in Get(L, x);
    assert (x, t) in M && (x, t) !in M';
  }

  /**
   * The end of the iteration: a bounded family that is a solution is the
   * least one at every non-terminal, and it is below every other solution.
   */
  lemma FollowBoundedSolution(c: Context, fs: Sets, H: Sets, x: string)
    requires AntecedentsNonTerminal(c)
    requires FollowBounded(c, H, FollowFixSets(c, fs)) && IsFollowSolution(c, fs, H)
    requires x in FollowKeys(c) && !IsTerminalIn(c.st, x)
    ensures H[x] == FollowFix(c, fs, x)
    ensures forall H' :: IsFollowSolution(c, fs, H') ==> H[x] <= Get(H', x)
  {
    FollowFixLeast(c, fs, H, x);
    forall H' | IsFollowSolution(c, fs, H')
      ensures H[x] <= Get(H', x)
    {
      FollowFixLeast(c, fs, H', x);
    }
  }

  /**
   * What the iteration ends with, once a pass changes nothing: the least
   * solution, which at each non-terminal other than the axiom is what the
   * walk of `follow` gathers plus the end marker when the walk reaches the
   * axiom, and at the axiom holds the end marker.
   */
  lemma FollowIterationResult(c: Context, fs: Sets, H: Sets)
    requires AntecedentsNonTerminal(c)
    requires FollowBounded(c, H, FollowFixSets(c, fs)) && IsFollowSolution(c, fs, H)
    ensures H.Keys == FollowKeys(c)
    ensures forall x, H' :: x in H && !IsTerminalIn(c.st, x) && IsFollowSolution(c, fs, H') ==> H[x] <= Get(H', x)
    ensures forall x :: x in H && !IsTerminalIn(c.st, x) && x != c.axiom ==>
              H[x] == FollowSpec(c, fs, x) + (if c.axiom in Reach(FollowGraph(c, fs), x) then {c.eol} else {})
    ensures c.axiom in H && FollowSpec(c, fs, c.axiom) <= H[c.axiom]
  {
    FollowIterationKeys(c, fs, H);
    FollowIterationLeast(c, fs, H);
    FollowIterationSpec(c, fs, H);
    FollowIterationAxiom(c, fs, H);
  }

  lemma FollowIterationKeys(c: Context, fs: Sets, H: Sets)
    requires FollowBounded(c, H, FollowFixSets(c, fs))
    ensures H.Keys == FollowKeys(c)
  {
    assert H.Keys == FollowFixSets(c, fs).Keys;
  }

  lemma FollowIterationLeast(c: Context, fs: Sets, H: Sets)
    requires AntecedentsNonTerminal(c)
    requires FollowBounded(c, H, FollowFixSets(c, fs)) && IsFollowSolution(c, fs, H)
    ensures forall x, H' :: x in H && !IsTerminalIn(c.st, x) && IsFollowSolution(c, fs, H') ==> H[x] <= Get(H', x)
  {
    FollowIterationKeys(c, fs, H);
    forall x, H' | x in H && !IsTerminalIn(c.st, x) && IsFollowSolution(c, fs, H')
      ensures H[x] <= Get(H', x)
    {
      FollowBoundedSolution(c, fs, H, x);
    }
  }

  lemma FollowIterationSpec(c: Context, fs: Sets, H: Sets)
    requires AntecedentsNonTerminal(c)
    requires FollowBounded(c, H, FollowFixSets(c, fs)) && IsFollowSolution(c, fs, H)
    ensures forall x :: x in H && !IsTerminalIn(c.st, x) && x != c.axiom ==>
              H[x] == FollowSpec(c, fs, x) + (if c.axiom in Reach(FollowGraph(c, fs), x) then {c.eol} else {})
  {
    FollowIterationKeys(c, fs, H);
    forall x | x in H && !IsTerminalIn(c.st, x) && x != c.axiom
      ensures H[x] == FollowSpec(c, fs, x) + (if c.axiom in Reach(FollowGraph(c, fs), x) then {c.eol} else {})
    {
      FollowBoundedIsFix(c, fs, H, x);
      FollowFixIsSpec(c, fs, x);
    }
  }

  lemma FollowIterationAxiom(c: Context, fs: Sets, H: Sets)
    requires FollowBounded(c, H, FollowFixSets(c, fs))
    ensures c.axiom in H && FollowSpec(c, fs, c.axiom) <= H[c.axiom]
  {
    FollowIterationKeys(c, fs, H);
    assert FollowSpec(c, fs, c.axiom) == {c.eol};
  }

  /** A bounded solution equals the least one at every non-terminal it keeps. */
  lemma FollowBoundedIsFix(c: Context, fs: Sets, H: Sets, x: string)
    requires AntecedentsNonTerminal(c)
    requires FollowBounded(c, H, FollowFixSets(c, fs)) && IsFollowSolution(c, fs, H)
    requires x in H && !IsTerminalIn(c.st, x)
    ensures H[x] == FollowFix(c, fs, x)
  {
    FollowFixLeast(c, fs, H, x);
    assert x in FollowFixSets(c, fs);
    assert H[x] <= FollowFixSets(c, fs)[x] == FollowFix(c, fs, x);
  }

  /** Away from the axiom, the least FOLLOW is the walk's set plus the end marker when the walk reaches the axiom. */
  lemma FollowFixIsSpec(c: Context, fs: Sets, x: string)
    requires x != c.axiom
    ensures FollowFix(c, fs, x) == FollowSpec(c, fs, x) + (if c.axiom in Reach(FollowGraph(c, fs), x) then {c.eol} else {})
  {
  }

  // =====================================================================
  // Director symbols and the LL(1) table
  // =====================================================================

  /** FIRST of the production, and FOLLOW of the antecedent when the production can vanish. */
  ghost function DirectorSpec(c: Context, fs: Sets, A: string, p: Production): set<string>
  {
    var f := FirstOf(c.st, fs, p);
    if Epsilon !in f then f else (f - {Epsilon}) + FollowSpec(c, fs, A)
  }

  /** The productions, in list order, whose director set holds t. */
  ghost function Cell(c: Context, fs: Sets, A: string, ps: seq<Production>, t: string): seq<Production>
  {
    if ps == [] then []
    else (if t in DirectorSpec(c, fs, A, ps[0]) then [ps[0]] else []) + Cell(c, fs, A, ps[1..], t)
  }

  /** Every symbol that predicts some production of A. */
  ghost function ColumnKeys(c: Context, fs: Sets, A: string, ps: seq<Production>): set<string>
  {
    set k, t | 0 <= k < |ps| && t in DirectorSpec(c, fs, A, ps[k]) :: t
  }

  ghost function ColumnSpec(c: Context, fs: Sets, A: string, ps: seq<Production>): map<string, seq<Production>>
  {
    map t | t in ColumnKeys(c, fs, A, ps) :: Cell(c, fs, A, ps, t)
  }

  /** The LL(1) table: a column per antecedent, a cell per predicting symbol. */
  ghost function TableSpec(c: Context, fs: Sets): map<string, map<string, seq<Production>>>
  {
    map A | A in c.g :: ColumnSpec(c, fs, A, c.g[A])
  }

  ghost predicate HasConflict(T: map<string, map<string, seq<Production>>>)
  {
    exists A, t :: A in T && t in T[A] && |T[A][t]| >= 2
  }

  /** Two productions of the same antecedent share a predicting symbol. */
  ghost predicate DirectorsOverlap(c: Context, fs: Sets)
  {
    exists A, k1, k2, t :: A in c.g && 0 <= k1 < k2 < |c.g[A]| &&
      t in DirectorSpec(c, fs, A, c.g[A][k1]) && t in DirectorSpec(c, fs, A, c.g[A][k2])
  }

  /** A cell lists exactly the productions whose director set holds its symbol. */
  lemma {:induction false} CellMembers(c: Context, fs: Sets, A: string, ps: seq<Production>, t: string)
    ensures forall q :: q in Cell(c, fs, A, ps, t) <==> q in ps && t in DirectorSpec(c, fs, A, q)
  {
    if ps != [] {
      CellMembers(c, fs, A, ps[1..], t);
      assert forall q :: q in ps <==> q == ps[0] || q in ps[1..];
    }
  }

  /** A cell holds two or more productions exactly when two of them predict its symbol. */
  lemma {:induction false} CellTwo(c: Context, fs: Sets, A: string, ps: seq<Production>, t: string)
    ensures |Cell(c, fs, A, ps, t)| >= 2 <==>
              exists k1, k2 :: 0 <= k1 < k2 < |ps| && t in DirectorSpec(c, fs, A, ps[k1]) && t in DirectorSpec(c, fs, A, ps[k2])
  {
    if ps != [] {
      var rest := ps[1..];
      CellTwo(c, fs, A, rest, t);
      CellOne(c, fs, A, rest, t);
      if |Cell(c, fs, A, ps, t)| >= 2 {
        if t in DirectorSpec(c, fs, A, ps[0]) {
          var k :| 0 <= k < |rest| && t in DirectorSpec(c, fs, A, rest[k]);
          assert ps[k + 1] == rest[k];
        } else {
          var k1, k2 :| 0 <= k1 < k2 < |rest| && t in DirectorSpec(c, fs, A, rest[k1]) && t in DirectorSpec(c, fs, A, rest[k2]);
          assert ps[k1 + 1] == rest[k1] && ps[k2 + 1] == rest[k2];
        }
      }
      if exists k1, k2 :: 0 <= k1 < k2 < |ps| && t in DirectorSpec(c, fs, A, ps[k1]) && t in DirectorSpec(c, fs, A, ps[k2]) {
        var k1, k2 :| 0 <= k1 < k2 < |ps| && t in DirectorSpec(c, fs, A, ps[k1]) && t in DirectorSpec(c, fs, A, ps[k2]);
        assert ps[k2] == rest[k2 - 1];
        if k1 > 0 {
          assert ps[k1] == rest[k1 - 1];
        }
      }
    }
  }

  lemma {:induction false} CellOne(c: Context, fs: Sets, A: string, ps: seq<Production>, t: string)
    ensures |Cell(c, fs, A, ps, t)| >= 1 <==> exists k :: 0 <= k < |ps| && t in DirectorSpec(c, fs, A, ps[k])
  {
    if ps != [] {
      CellOne(c, fs, A, ps[1..], t);
      if exists k :: 0 <= k < |ps| && t in DirectorSpec(c, fs, A, ps[k]) {
        var k :| 0 <= k < |ps| && t in DirectorSpec(c, fs, A, ps[k]);
        if k > 0 {
          assert ps[k] == ps[1..][k - 1];
        }
      }
      if exists k :: 0 <= k < |ps[1..]| && t in DirectorSpec(c, fs, A, ps[1..][k]) {
        var k :| 0 <= k < |ps[1..]| && t in DirectorSpec(c, fs, A, ps[1..][k]);
        assert ps[k + 1] == ps[1..][k];
      }
    }
  }

  /** The table has a conflicting cell exactly when two productions of one antecedent share a predicting symbol. */
  lemma ConflictIffOverlap(c: Context, fs: Sets)
    ensures HasConflict(TableSpec(c, fs)) <==> DirectorsOverlap(c, fs)
  {
    var T := TableSpec(c, fs);
    if HasConflict(T) {
      var A, t :| A in T && t in T[A] && |T[A][t]| >= 2;
      CellTwo(c, fs, A, c.g[A], t);
    }
    if DirectorsOverlap(c, fs) {
      var A, k1, k2, t :| A in c.g && 0 <= k1 < k2 < |c.g[A]| &&
        t in DirectorSpec(c, fs, A, c.g[A][k1]) && t in DirectorSpec(c, fs, A, c.g[A][k2]);
      CellTwo(c, fs, A, c.g[A], t);
      assert t in ColumnKeys(c, fs, A, c.g[A]);
      assert |T[A][t]| >= 2;
    }
  }

  /**
   * Left recursion is caught by the table, not by AddRule: when a production
   * of A starts with A itself and another production of A has a terminal in
   * its FIRST set, both predict that terminal.
   */
  lemma LeftRecursionConflicts(c: Context, fs: Sets, A: string, k1: nat, k2: nat, t: string)
    requires IsFirstSolution(c.st, c.g, fs) && !IsTerminalIn(c.st, A) && IsTerminalIn(c.st, Epsilon)
    requires A in c.g && k1 < |c.g[A]| && k2 < |c.g[A]| && k1 != k2
    requires HasLeftRecursion(A, c.g[A][k1]) == Ok(true)
    requires t in FirstOf(c.st, fs, c.g[A][k2]) && t != Epsilon
    ensures t in DirectorSpec(c, fs, A, c.g[A][k1]) && t in DirectorSpec(c, fs, A, c.g[A][k2])
    ensures DirectorsOverlap(c, fs)
  {
    var p := c.g[A][k1];
    assert p[0] == A && A != Epsilon;
    assert t in Get(fs, A);
    assert t in FirstScan(c.st, fs, p);
    var lo, hi := if k1 < k2 then k1 else k2, if k1 < k2 then k2 else k1;
    assert t in DirectorSpec(c, fs, A, c.g[A][lo]) && t in DirectorSpec(c, fs, A, c.g[A][hi]);
  }

  /** Appending a production to the list extends each cell by that production exactly where it predicts. */
  lemma {:induction false} CellSnoc(c: Context, fs: Sets, A: string, ps: seq<Production>, p: Production, t: string)
    ensures Cell(c, fs, A, ps + [p], t) == Cell(c, fs, A, ps, t) + (if t in DirectorSpec(c, fs, A, p) then [p] else [])
  {
    if ps != [] {
      assert (ps + [p])[1..] == ps[1..] + [p];
      CellSnoc(c, fs, A, ps[1..], p, t);
    } else {
      assert Cell(c, fs, A, [p], t) == (if t in DirectorSpec(c, fs, A, p) then [p] else []) + Cell(c, fs, A, [], t);
    }
  }

  /** The predicting symbols of a longer list are those of the shorter list and of the new production. */
  lemma ColumnKeysSnoc(c: Context, fs: Sets, A: string, ps: seq<Production>, p: Production)
    ensures ColumnKeys(c, fs, A, ps + [p]) == ColumnKeys(c, fs, A, ps) + DirectorSpec(c, fs, A, p)
  {
    var qs := ps + [p];
    forall t | t in ColumnKeys(c, fs, A, qs)
      ensures t in ColumnKeys(c, fs, A, ps) + DirectorSpec(c, fs, A, p)
    {
      var k :| 0 <= k < |qs| && t in DirectorSpec(c, fs, A, qs[k]);
      if k < |ps| {
        assert qs[k] == ps[k];
      }
    }
    forall t | t in DirectorSpec(c, fs, A, p)
      ensures t in ColumnKeys(c, fs, A, qs)
    {
      assert qs[|ps|] == p;
    }
    forall t | t in ColumnKeys(c, fs, A, ps)
      ensures t in ColumnKeys(c, fs, A, qs)
    {
      var k :| 0 <= k < |ps| && t in DirectorSpec(c, fs, A, ps[k]);
      assert qs[k] == ps[k];
    }
  }

  /** The columns of the antecedents in D. */
  ghost function TableOn(c: Context, fs: Sets, D: set<string>): map<string, map<string, seq<Production>>>
  {
    map A | A in D && A in c.g :: ColumnSpec(c, fs, A, c.g[A])
  }

  /** A column holding a cell with two or more productions. */
  predicate ColumnConflict(col: map<string, seq<Production>>)
  {
    exists t :: t in col && |col[t]| >= 2
  }

  /** A column after p has been appended to the cells of the symbols in D, creating the missing ones. */
  function Extend(col: map<string, seq<Production>>, D: set<string>, p: Production): map<string, seq<Production>>
  {
    map t | t in col.Keys + D :: (if t in col then col[t] else []) + (if t in D then [p] else [])
  }

  /** Appending p to one more cell. */
  lemma ExtendStep(col: map<string, seq<Production>>, D: set<string>, p: Production, s: string)
    requires s !in D
    ensures var e := Extend(col, D, p);
            Extend(col, D + {s}, p) == e[s := (if s in e then e[s] else []) + [p]]
  {
    var e := Extend(col, D, p);
    var e' := Extend(col, D + {s}, p);
    var r := e[s := (if s in e then e[s] else []) + [p]];
    assert e'.Keys == r.Keys;
    forall t | t in e'
      ensures e'[t] == r[t]
    {
    }
  }

  /** Appending a production to the list appends it to the cells of its director symbols. */
  lemma ColumnSnoc(c: Context, fs: Sets, A: string, ps: seq<Production>, p: Production)
    ensures ColumnSpec(c, fs, A, ps + [p]) == Extend(ColumnSpec(c, fs, A, ps), DirectorSpec(c, fs, A, p), p)
  {
    var col := ColumnSpec(c, fs, A, ps);
    var e := Extend(col, DirectorSpec(c, fs, A, p), p);
    var col' := ColumnSpec(c, fs, A, ps + [p]);
    ColumnKeysSnoc(c, fs, A, ps, p);
    assert col'.Keys == e.Keys;
    forall t | t in col'
      ensures col'[t] == e[t]
    {
      CellSnoc(c, fs, A, ps, p, t);
      if t !in col {
        CellOne(c, fs, A, ps, t);
      }
    }
  }

  /**
   * Appending p to the cells of D (p's director set) creates a conflicting
   * cell exactly where one of those cells was already non-empty, unless the
   * column already had a conflict.
   */
  lemma ExtendConflict(col: map<string, seq<Production>>, D: set<string>, p: Production, s: string)
    requires s !in D
    ensures var e := Extend(col, D, p);
            var cell := if s in e then e[s] else [];
            ColumnConflict(e[s := cell + [p]]) <==> ColumnConflict(e) || cell != []
  {
    var e := Extend(col, D, p);
    var cell := if s in e then e[s] else [];
    var e' := e[s := cell + [p]];
    if ColumnConflict(e) {
      var t :| t in e && |e[t]| >= 2;
      if t != s {
        assert t in e' && |e'[t]| >= 2;
      }
    }
    if cell != [] {
      assert |e'[s]| >= 2;
    }
  }

  /** Appending to no cell leaves the column as it is. */
  lemma ExtendNone(col: map<string, seq<Production>>, p: Production)
    ensures Extend(col, {}, p) == col
  {
    var e := Extend(col, {}, p);
    assert e.Keys == col.Keys;
    forall t | t in e
      ensures e[t] == col[t]
    {
    }
  }

  /**
   * The state of the table construction after the antecedents in D: the
   * table holds their columns, apart from those the starting table T0
   * already had, and the flag says whether one of those columns conflicts.
   */
  ghost predicate TableBuilt(c: Context, fs: Sets, T0: map<string, map<string, seq<Production>>>,
                             T: map<string, map<string, seq<Production>>>, D: set<string>, conflict: bool)
  {
    && T == TableOn(c, fs, D) + T0
    && (conflict <==> exists A :: A in D && A in c.g && ColumnConflict(ColumnSpec(c, fs, A, c.g[A])))
  }

  /** Inserting the column of one more antecedent, unless the table already has one for it. */
  lemma TableBuiltStep(c: Context, fs: Sets, T0: map<string, map<string, seq<Production>>>,
                       T: map<string, map<string, seq<Production>>>, D: set<string>, conflict: bool,
                       A: string, columnConflict: bool)
    requires TableBuilt(c, fs, T0, T, D, conflict) == true && A in c.g && A !in D
    requires columnConflict <==> ColumnConflict(ColumnSpec(c, fs, A, c.g[A]))
    ensures TableBuilt(c, fs, T0, if A in T then T else T[A := ColumnSpec(c, fs, A, c.g[A])], D + {A},
                       conflict || columnConflict) == true
  {
    TableOnStep(c, fs, D, T0, T, A);
    TableConflictStep(c, fs, D, conflict, A, columnConflict);
  }

  lemma TableOnStep(c: Context, fs: Sets, D: set<string>, T0: map<string, map<string, seq<Production>>>,
                    T: map<string, map<string, seq<Production>>>, A: string)
    requires T == TableOn(c, fs, D) + T0 && A in c.g && A !in D
    ensures (if A in T then T else T[A := ColumnSpec(c, fs, A, c.g[A])]) == TableOn(c, fs, D + {A}) + T0
  {
  }

  lemma TableConflictStep(c: Context, fs: Sets, D: set<string>, conflict: bool, A: string, columnConflict: bool)
    requires conflict <==> exists B :: B in D && B in c.g && ColumnConflict(ColumnSpec(c, fs, B, c.g[B]))
    requires A in c.g && (columnConflict <==> ColumnConflict(ColumnSpec(c, fs, A, c.g[A])))
    ensures conflict || columnConflict <==>
              exists B :: B in D + {A} && B in c.g && ColumnConflict(ColumnSpec(c, fs, B, c.g[B]))
  {
  }

  /** Once every antecedent is done, the table is the specified one, and the flag says whether it conflicts. */
  lemma TableBuiltAll(c: Context, fs: Sets, T0: map<string, map<string, seq<Production>>>,
                      T: map<string, map<string, seq<Production>>>, conflict: bool)
    requires TableBuilt(c, fs, T0, T, c.g.Keys, conflict) == true
    ensures T == TableSpec(c, fs) + T0
    ensures conflict <==> HasConflict(TableSpec(c, fs))
  {
    TableOnAll(c, fs);
  }

  /** The table is the union of its columns; it conflicts exactly where one of them does. */
  lemma TableOnAll(c: Context, fs: Sets)
    ensures TableOn(c, fs, c.g.Keys) == TableSpec(c, fs)
    ensures HasConflict(TableSpec(c, fs)) <==> exists A :: A in c.g && ColumnConflict(ColumnSpec(c, fs, A, c.g[A]))
  {
    var T := TableSpec(c, fs);
    if HasConflict(T) {
      var A, t :| A in T && t in T[A] && |T[A][t]| >= 2;
      assert ColumnConflict(ColumnSpec(c, fs, A, c.g[A]));
    }
    if exists A :: A in c.g && ColumnConflict(ColumnSpec(c, fs, A, c.g[A])) {
      var A :| A in c.g && ColumnConflict(ColumnSpec(c, fs, A, c.g[A]));
      var t :| t in ColumnSpec(c, fs, A, c.g[A]) && |ColumnSpec(c, fs, A, c.g[A])[t]| >= 2;
      assert A in T && t in T[A];
    }
  }

  /** Every cell of the table lists at least one production. */
  lemma TableCellsNonEmpty(c: Context, fs: Sets)
    ensures forall A, t :: A in TableSpec(c, fs) && t in TableSpec(c, fs)[A] ==> TableSpec(c, fs)[A][t] != []
  {
    forall A, t | A in TableSpec(c, fs) && t in TableSpec(c, fs)[A]
      ensures TableSpec(c, fs)[A][t] != []
    {
      CellOne(c, fs, A, c.g[A], t);
    }
  }
}
