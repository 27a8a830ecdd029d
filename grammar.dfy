/**
 * The grammar of the current checker: a map from each antecedent to its
 * productions in the order they were added, and the axiom. Productions are
 * written in the grammar file without separators and are cut into symbols by
 * a greedy longest-match scan against the names of the symbol table.
 */
module Grammar {
  import opened Wrappers
  import opened Errors
  import opened SymbolTable

  /** A production: the symbols of one right-hand side, left to right. */
  type Production = seq<string>

  /** Every antecedent with its productions, in insertion order. */
  type Rules = map<string, seq<Production>>

  /** One rule as the queries return it: antecedent, position among its productions, consequent. */
  datatype Rule = Rule(antecedent: string, index: nat, consequent: Production)

  /** The concatenation of a sequence of pieces. */
  function Join(xs: seq<string>): string
  {
    if xs == [] then [] else xs[0] + Join(xs[1..])
  }

  lemma {:induction false} JoinAppend(xs: seq<string>, ys: seq<string>)
    ensures Join(xs + ys) == Join(xs) + Join(ys)
  {
    if xs != [] {
      assert (xs + ys)[1..] == xs[1..] + ys;
      JoinAppend(xs[1..], ys);
    } else {
      assert xs + ys == ys;
    }
  }

  /** The productions of an antecedent, empty when it has none (what `g_[a]` yields). */
  function ProductionsOf(g: Rules, a: string): seq<Production>
  {
    if a in g then g[a] else []
  }

  // ---------------------------------------------------------------------
  // Splitting a consequent into symbols
  // ---------------------------------------------------------------------

  /**
   * The length of the longest non-empty prefix of `s` that is a registered
   * name, or 0 when no prefix is registered.
   */
  function LongestPrefix(names: set<string>, s: string): (n: nat)
    ensures n <= |s|
    ensures n > 0 ==> s[..n] in names
    ensures forall k :: n < k <= |s| ==> s[..k] !in names
  {
    LongestPrefixUpTo(names, s, |s|)
  }

  function LongestPrefixUpTo(names: set<string>, s: string, m: nat): (n: nat)
    requires m <= |s|
    ensures n <= m
    ensures n > 0 ==> s[..n] in names
    ensures forall k :: n < k <= m ==> s[..k] !in names
  {
    if m == 0 then 0
    else if s[..m] in names then m
    else LongestPrefixUpTo(names, s, m - 1)
  }

  /** The longest registered prefix is the one no longer registered prefix exceeds. */
  lemma LongestPrefixIs(names: set<string>, s: string, n: nat)
    requires n <= |s| && (n > 0 ==> s[..n] in names)
    requires forall k :: n < k <= |s| ==> s[..k] !in names
    ensures LongestPrefix(names, s) == n
  {
  }

  /**
   * The scan the splitter performs: repeatedly cut off the longest registered
   * prefix; a remainder with no registered prefix is an error that names the
   * remainder.
   */
  function Scan(names: set<string>, s: string): (r: Result<seq<string>, Error>)
    decreases |s|
    ensures r.Ok? ==> Join(r.value) == s
    ensures r.Ok? ==> forall i :: 0 <= i < |r.value| ==> r.value[i] in names && r.value[i] != []
    ensures r.Err? ==> r.error.GrammarError? && r.error.detail != []
    ensures r.Err? ==> exists k :: 0 <= k < |s| && s[k..] == r.error.detail
    ensures r.Err? ==> LongestPrefix(names, r.error.detail) == 0
  {
    if s == [] then Ok([])
    else
      var n := LongestPrefix(names, s);
      if n == 0 then
        assert s[0..] == s;
        Err(GrammarError(s))
      else
        var piece := s[..n];
        match Scan(names, s[n..])
        case Ok(rest) =>
          assert piece + s[n..] == s;
          Ok([piece] + rest)
        case Err(e) =>
          var k :| 0 <= k < |s[n..]| && s[n..][k..] == e.detail;
          assert s[n + k..] == e.detail;
          Err(e)
    }

  /** The text `split` puts in front of the unrecognised rest of a consequent. */
  const LineErrorPrefix: string := "Error processing the line "

  /**
   * What Split returns for a consequent, given the names registered: the
   * scan's pieces, or a grammar error whose message is the fixed prefix
   * followed by the rest of the consequent that no registered name starts.
   */
  function SplitSpec(names: set<string>, s: string): (r: Result<seq<string>, Error>)
    ensures r.Err? <==> s != Epsilon && Scan(names, s).Err?
    ensures r.Err? ==> exists k :: 0 <= k < |s| && LongestPrefix(names, s[k..]) == 0 &&
                                   r.error == GrammarError(LineErrorPrefix + s[k..])
  {
    if s == Epsilon then Ok([Epsilon])
    else
      match Scan(names, s)
      case Ok(v) => Ok(v)
      case Err(e) => Err(GrammarError(LineErrorPrefix + e.detail))
  }

  /** Prefixes `xs` to the pieces of a successful result. */
  function Prepend(xs: seq<string>, r: Result<seq<string>, Error>): Result<seq<string>, Error>
  {
    match r
    case Ok(ys) => Ok(xs + ys)
    case Err(e) => Err(e)
  }

  /**
   * The splitter: `start` marks the beginning of the current symbol, `end`
   * grows until a registered name is found, and `lookahead` then looks for
   * the longest registered extension of it.
   */
  method Split(table: SymbolTable, s: string) returns (r: Result<seq<string>, Error>)
    ensures r == SplitSpec(table.st.Keys, s)
  {
    if s == Epsilon {
      return Ok([Epsilon]);
    }
    ghost var names := table.st.Keys;
    var splitted: seq<string> := [];
    var start: nat, end: nat := 0, 1;
    assert s[0..] == s;
    match Scan(names, s) {
      case Ok(ys) => assert splitted + ys == ys;
      case Err(_) =>
    }
    while end <= |s|
      invariant start < end <= |s| + 1
      invariant Scan(names, s) == Prepend(splitted, Scan(names, s[start..]))
      invariant NoNameBetween(names, s, start, start, end) == true
    {
      var str := s[start..end];
      if table.In(str) {
        var lookahead := end + 1;
        while lookahead <= |s|
          invariant start < end < lookahead <= |s| + 1
          invariant s[start..end] in names
          invariant NoNameBetween(names, s, start, end, lookahead) == true
        {
          var extended := s[start..lookahead];
          if table.In(extended) {
            end := lookahead;
          } else {
            NoNameStep(names, s, start, end, lookahead);
          }
          lookahead := lookahead + 1;
        }
        CutLongest(names, s, start, end);
        splitted := splitted + [s[start..end]];
        start := end;
        end := start + 1;
      } else {
        NoNameStep(names, s, start, start, end);
        end := end + 1;
      }
    }
    if start < end - 1 {
      RemainderUnknown(names, s, start);
      return Err(GrammarError(LineErrorPrefix + s[start..]));
    }
    assert s[start..] == [];
    assert splitted + [] == splitted;
    return Ok(splitted);
  }

  /** No piece of `s` from `start` that ends strictly between `lo` and `hi` is a registered name. */
  ghost predicate NoNameBetween(names: set<string>, s: string, start: nat, lo: nat, hi: nat)
  {
    forall k :: lo < k < hi && start < k <= |s| ==> s[start..k] !in names
  }

  lemma NoNameStep(names: set<string>, s: string, start: nat, lo: nat, hi: nat)
    requires NoNameBetween(names, s, start, lo, hi) == true
    requires start < hi <= |s| ==> s[start..hi] !in names
    ensures NoNameBetween(names, s, start, lo, hi + 1) == true
  {
  }

  /** One cut of the splitter agrees with one step of the scan. */
  lemma CutLongest(names: set<string>, s: string, start: nat, end: nat)
    requires start < end <= |s|
    requires s[start..end] in names
    requires NoNameBetween(names, s, start, end, |s| + 1) == true
    ensures forall xs: seq<string> :: Prepend(xs, Scan(names, s[start..]))
                                     == Prepend(xs + [s[start..end]], Scan(names, s[end..]))
  {
    var rest := s[start..];
    var n := end - start;
    assert rest[..n] == s[start..end];
    forall k | n < k <= |rest|
      ensures rest[..k] !in names
    {
      assert rest[..k] == s[start..start + k];
    }
    LongestPrefixIs(names, rest, n);
    assert rest[n..] == s[end..];
    forall xs: seq<string>
      ensures Prepend(xs, Scan(names, rest)) == Prepend(xs + [s[start..end]], Scan(names, s[end..]))
    {
      match Scan(names, s[end..])
      case Ok(ys) =>
        assert xs + ([s[start..end]] + ys) == xs + [s[start..end]] + ys;
      case Err(e) =>
    }
  }

  /** A remainder none of whose prefixes is registered makes the scan fail on it. */
  lemma RemainderUnknown(names: set<string>, s: string, start: nat)
    requires start < |s|
    requires NoNameBetween(names, s, start, start, |s| + 1) == true
    ensures Scan(names, s[start..]) == Err(GrammarError(s[start..]))
  {
    var rest := s[start..];
    forall k | 0 < k <= |rest|
      ensures rest[..k] !in names
    {
      assert rest[..k] == s[start..start + k];
    }
    LongestPrefixIs(names, rest, 0);
  }

  /** Every symbol produced is the longest registered prefix of what was left at that point. */
  lemma {:induction false} ScanLongestMatch(names: set<string>, s: string)
    requires Scan(names, s).Ok?
    ensures forall i :: 0 <= i < |Scan(names, s).value| ==>
              |Scan(names, s).value[i]| == LongestPrefix(names, Join(Scan(names, s).value[i..]))
    decreases |s|
  {
    if s != [] {
      var n := LongestPrefix(names, s);
      var xs := Scan(names, s).value;
      var rest := Scan(names, s[n..]).value;
      assert xs == [s[..n]] + rest;
      ScanLongestMatch(names, s[n..]);
      forall i | 0 <= i < |xs|
        ensures |xs[i]| == LongestPrefix(names, Join(xs[i..]))
      {
        if i == 0 {
          assert xs[0..] == xs;
        } else {
          assert xs[i..] == rest[i - 1..];
        }
      }
    }
  }

  /** No registered name is a proper prefix of another. */
  ghost predicate PrefixFree(names: set<string>)
  {
    forall a, b :: a in names && b in names && |a| < |b| ==> b[..|a|] != a
  }

  /** With prefix-free names, scanning a concatenation of names gives those names back. */
  lemma {:induction false} ScanJoin(names: set<string>, xs: seq<string>)
    requires PrefixFree(names)
    requires forall i :: 0 <= i < |xs| ==> xs[i] in names && xs[i] != []
    ensures Scan(names, Join(xs)) == Ok(xs)
  {
    if xs != [] {
      var s, x, rest := Join(xs), xs[0], Join(xs[1..]);
      assert s == x + rest;
      assert s[..|x|] == x;
      forall k | |x| < k <= |s|
        ensures s[..k] !in names
      {
        assert s[..k][..|x|] == x;
      }
      LongestPrefixIs(names, s, |x|);
      assert s[|x|..] == rest;
      ScanJoin(names, xs[1..]);
      assert Scan(names, s) == Ok([x] + xs[1..]);
      assert [x] + xs[1..] == xs;
    }
  }

  /**
   * Round trip of the splitter: when the registered names are prefix-free
   * (and so the scan is unambiguous), splitting the concatenation of
   * registered names yields exactly those names.
   */
  lemma SplitJoin(names: set<string>, xs: seq<string>)
    requires PrefixFree(names) && Epsilon in names
    requires forall i :: 0 <= i < |xs| ==> xs[i] in names && xs[i] != []
    ensures SplitSpec(names, Join(xs)) == Ok(xs)
  {
    ScanJoin(names, xs);
    assert Join([Epsilon]) == Epsilon by {
      assert Join([Epsilon]) == Epsilon + Join([]);
    }
    ScanJoin(names, [Epsilon]);
    SplitOfScan(names, Join(xs), xs);
  }

  /** Where the scan succeeds, and agrees with the EPSILON shortcut, the split gives the scan's pieces. */
  lemma SplitOfScan(names: set<string>, s: string, xs: seq<string>)
    requires Scan(names, s) == Ok(xs) && Scan(names, Epsilon) == Ok([Epsilon])
    ensures SplitSpec(names, s) == Ok(xs)
  {
    if s == Epsilon {
      assert xs == [Epsilon];
    }
  }

  /**
   * Longest match is not always what the author meant: with names `A` and
   * `A1` registered, the text `A1` is one symbol, never `A` followed by `1`.
   */
  lemma LongestMatchExample()
    ensures SplitSpec({"A", "A1", "1"}, "A1") == Ok(["A1"])
  {
    var names := {"A", "A1", "1"};
    assert "A1"[..2] == "A1";
    LongestPrefixIs(names, "A1", 2);
    assert "A1"[2..] == [];
    assert Scan(names, []) == Ok([]);
    assert Scan(names, "A1") == Ok(["A1"] + []);
    assert ["A1"] + [] == ["A1"];
    assert "A1" != Epsilon;
  }

  // ---------------------------------------------------------------------
  // The grammar object
  // ---------------------------------------------------------------------

  class Grammar {
    var g: Rules
    var axiom: string

    constructor ()
      ensures g == map[] && axiom == ""
    {
      g := map[];
      axiom := "";
    }

    /**
     * Splits the consequent and appends it to the antecedent's productions,
     * creating the entry when absent. A consequent that does not split leaves
     * the grammar unchanged and reports the splitter's error. No check for
     * left recursion or duplicate productions is made here.
     */
    method AddRule(table: SymbolTable, antecedent: string, consequent: string) returns (r: Outcome<Error>)
      modifies this`g
      ensures SplitSpec(table.st.Keys, consequent).Ok? ==>
                r == Pass && g == old(g)[antecedent := ProductionsOf(old(g), antecedent) + [SplitSpec(table.st.Keys, consequent).value]]
      ensures SplitSpec(table.st.Keys, consequent).Err? ==>
                r == Fail(SplitSpec(table.st.Keys, consequent).error) && g == old(g)
    {
      var splitted := Split(table, consequent);
      match splitted
      case Err(e) =>
        return Fail(e);
      case Ok(p) =>
        g := g[antecedent := ProductionsOf(g, antecedent) + [p]];
        return Pass;
    }

    method SetAxiom(a: string)
      modifies this`axiom
      ensures axiom == a
    {
      axiom := a;
    }
  }

  // ---------------------------------------------------------------------
  // Queries on the rules
  // ---------------------------------------------------------------------

  /** Whether a production starts with EPSILON (how an empty production is written). */
  predicate StartsWithEpsilon(p: Production)
  {
    |p| > 0 && p[0] == Epsilon
  }

  /**
   * The search for a production written as EPSILON, in list order, that
   * looks at the first symbol of each production. It stops at the first
   * production that starts with EPSILON, and reading the first symbol of an
   * empty production before that is undefined behaviour.
   */
  function ScanEmptyProduction(ps: seq<Production>): (r: Result<bool, Error>)
    ensures r == Ok(true) <==>
              exists k :: 0 <= k < |ps| && StartsWithEpsilon(ps[k]) && forall j :: 0 <= j < k ==> ps[j] != []
    ensures r.Err? <==>
              exists k :: 0 <= k < |ps| && ps[k] == [] && forall j :: 0 <= j < k ==> !StartsWithEpsilon(ps[j])
    ensures r.Err? ==> r.error == UndefinedAccess
  {
    if ps == [] then Ok(false)
    else if ps[0] == [] then Err(UndefinedAccess)
    else if ps[0][0] == Epsilon then Ok(true)
    else
      var r := ScanEmptyProduction(ps[1..]);
      assert forall k :: 1 <= k < |ps| ==> ps[k] == ps[1..][k - 1];
      r
  }

  /**
   * Whether the antecedent has a production written as EPSILON; an
   * antecedent without rules is a lookup error. An empty production (which
   * `AddRule` creates for an empty consequent) met before any production
   * written as EPSILON is undefined behaviour.
   */
  function HasEmptyProduction(g: Rules, antecedent: string): (r: Result<bool, Error>)
    ensures antecedent !in g ==> r == Err(OutOfRange(antecedent))
    ensures antecedent in g ==> r == ScanEmptyProduction(g[antecedent])
  {
    if antecedent !in g then Err(OutOfRange(antecedent))
    else ScanEmptyProduction(g[antecedent])
  }

  /** Without empty productions, the search is defined and answers whether some production is written as EPSILON. */
  lemma {:induction false} ScanEmptyProductionDefined(ps: seq<Production>)
    requires forall k :: 0 <= k < |ps| ==> ps[k] != []
    ensures ScanEmptyProduction(ps) == Ok(exists k :: 0 <= k < |ps| && StartsWithEpsilon(ps[k]))
  {
    if ps != [] && ps[0][0] != Epsilon {
      ScanEmptyProductionDefined(ps[1..]);
      assert forall k :: 1 <= k < |ps| ==> ps[k] == ps[1..][k - 1];
      if exists k :: 0 <= k < |ps| && StartsWithEpsilon(ps[k]) {
        var k :| 0 <= k < |ps| && StartsWithEpsilon(ps[k]);
        assert StartsWithEpsilon(ps[1..][k - 1]);
      }
    }
  }

  /** Whether `r` is the index-th production of its antecedent in `g`. */
  predicate IsRuleOf(g: Rules, r: Rule)
  {
    r.antecedent in g && r.index < |g[r.antecedent]| && g[r.antecedent][r.index] == r.consequent
  }

  /** Every rule whose consequent mentions `arg`, each exactly once. */
  function FilterRulesByConsequent(g: Rules, arg: string): (rules: set<Rule>)
    ensures forall r {:trigger r in rules} :: r in rules <==> IsRuleOf(g, r) && arg in r.consequent
  {
    set a, k | a in g && 0 <= k < |g[a]| && arg in g[a][k] :: Rule(a, k, g[a][k])
  }

  /** Whether the consequent starts with its own antecedent; an empty consequent is an index error. */
  function HasLeftRecursion(antecedent: string, consequent: Production): (r: Result<bool, Error>)
    ensures r.Err? <==> consequent == []
    ensures r.Err? ==> r.error == IndexOutOfRange(0)
    ensures r.Ok? ==> (r.value <==> consequent[0] == antecedent)
  {
    if consequent == [] then Err(IndexOutOfRange(0)) else Ok(consequent[0] == antecedent)
  }

  // ---------------------------------------------------------------------
  // Loading the productions read from the grammar file
  // ---------------------------------------------------------------------

  /** Splits every consequent of one antecedent, stopping at the first failure. */
  function SplitAll(names: set<string>, ps: seq<string>): (r: Result<seq<Production>, Error>)
    ensures r.Ok? ==> |r.value| == |ps| && forall j :: 0 <= j < |ps| ==> SplitSpec(names, ps[j]) == Ok(r.value[j])
    ensures r.Ok? <==> forall j :: 0 <= j < |ps| ==> SplitSpec(names, ps[j]).Ok?
  {
    if ps == [] then Ok([])
    else
      match SplitSpec(names, ps[0])
      case Err(e) => Err(e)
      case Ok(p) =>
        match SplitAll(names, ps[1..])
        case Err(e) => Err(e)
        case Ok(rest) =>
          assert forall j :: 1 <= j < |ps| ==> ps[j] == ps[1..][j - 1];
          Ok([p] + rest)
  }

  /** Registers each name as a non-terminal, keeping any entry already there. */
  method RegisterNonTerminals(table: SymbolTable, antecedents: set<string>)
    requires table.Valid()
    modifies table`st
    ensures table.Valid()
    ensures table.st.Keys == old(table.st.Keys) + antecedents
    ensures forall a :: a in old(table.st) ==> table.st[a] == old(table.st[a])
    ensures forall a :: a in antecedents && a !in old(table.st) ==> table.st[a] == Entry(NoTerminal, "")
  {
    var todo := antecedents;
    while todo != {}
      invariant table.Valid()
      invariant todo <= antecedents
      invariant table.st.Keys == old(table.st.Keys) + (antecedents - todo)
      invariant forall a :: a in old(table.st) ==> table.st[a] == old(table.st[a])
      invariant forall a :: a in antecedents - todo && a !in old(table.st) ==> table.st[a] == Entry(NoTerminal, "")
      decreases todo
    {
      var a :| a in todo;
      table.PutNonTerminal(a);
      todo := todo - {a};
    }
  }

  /**
   * Adds the consequents of one antecedent in order; succeeds exactly when
   * all of them split, and then appends all their splits.
   */
  method AddRules(table: SymbolTable, gram: Grammar, a: string, prods: seq<string>) returns (r: Outcome<Error>)
    modifies gram`g
    ensures r == Pass <==> SplitAll(table.st.Keys, prods).Ok?
    ensures r == Pass && prods == [] ==> gram.g == old(gram.g)
    ensures r == Pass && prods != [] ==>
              gram.g == old(gram.g)[a := ProductionsOf(old(gram.g), a) + SplitAll(table.st.Keys, prods).value]
  {
    ghost var names := table.st.Keys;
    var j := 0;
    while j < |prods|
      invariant j <= |prods|
      invariant forall i :: 0 <= i < j ==> SplitSpec(names, prods[i]).Ok?
      invariant j == 0 ==> gram.g == old(gram.g)
      invariant j > 0 ==> gram.g == old(gram.g)[a := ProductionsOf(old(gram.g), a) + SplitAll(names, prods[..j]).value]
    {
      ghost var prev := gram.g;
      var res := gram.AddRule(table, a, prods[j]);
      if res.Fail? {
        return res;
      }
      SplitAllSnoc(names, prods, j);
      assert prods[..0] == [];
      ghost var base := ProductionsOf(old(gram.g), a);
      ghost var v := SplitSpec(names, prods[j]).value;
      assert ProductionsOf(prev, a) == base + SplitAll(names, prods[..j]).value;
      assert gram.g == prev[a := ProductionsOf(prev, a) + [v]];
      assert base + SplitAll(names, prods[..j]).value + [v] == base + SplitAll(names, prods[..j + 1]).value;
      assert gram.g == old(gram.g)[a := base + SplitAll(names, prods[..j + 1]).value];
      j := j + 1;
    }
    assert prods[..|prods|] == prods;
    return Pass;
  }

  /**
   * The end of reading a grammar file: every antecedent is first registered
   * as a non-terminal, then each of its consequents, in the order read, is
   * added as a rule. Antecedents are visited in the hash map's order, which
   * is left open. Loading succeeds exactly when every consequent splits
   * against the names registered by then; on success every antecedent's
   * productions are its split consequents appended to what it had before.
   */
  method LoadRules(table: SymbolTable, gram: Grammar, pGrammar: map<string, seq<string>>) returns (r: Outcome<Error>)
    requires table.Valid()
    modifies table`st, gram`g
    ensures table.Valid()
    ensures table.st.Keys == old(table.st.Keys) + pGrammar.Keys
    ensures forall a :: a in old(table.st) ==> table.st[a] == old(table.st[a])
    ensures forall a :: a in pGrammar && a !in old(table.st) ==> table.st[a] == Entry(NoTerminal, "")
    ensures r == Pass <==> forall a :: a in pGrammar ==> SplitAll(table.st.Keys, pGrammar[a]).Ok?
    ensures r == Pass ==> forall a :: a in gram.g <==> a in old(gram.g) || (a in pGrammar && pGrammar[a] != [])
    ensures r == Pass ==> forall a :: a in pGrammar ==>
              ProductionsOf(gram.g, a) == ProductionsOf(old(gram.g), a) + SplitAll(table.st.Keys, pGrammar[a]).value
    ensures r == Pass ==> forall a :: a in old(gram.g) && a !in pGrammar ==> gram.g[a] == old(gram.g[a])
  {
    RegisterNonTerminals(table, pGrammar.Keys);
    ghost var registered := table.st;
    ghost var names := table.st.Keys;
    var todo := pGrammar.Keys;
    ghost var done: set<string> := {};
    while todo != {}
      invariant table.st == registered && table.Valid()
      invariant todo <= pGrammar.Keys && done == pGrammar.Keys - todo
      invariant Loaded(old(gram.g), gram.g, pGrammar, names, done) == true
      decreases todo
    {
      var a :| a in todo;
      ghost var prev := gram.g;
      var res := AddRules(table, gram, a, pGrammar[a]);
      if res.Fail? {
        return res;
      }
      LoadedStep(old(gram.g), prev, gram.g, pGrammar, names, done, a);
      MoveOne(pGrammar.Keys, todo, done, a);
      todo := todo - {a};
      done := done + {a};
    }
    assert done == pGrammar.Keys;
    return Pass;
  }

  /** Moving one element from the pending set to the finished set. */
  lemma MoveOne<T>(all: set<T>, todo: set<T>, done: set<T>, x: T)
    requires todo <= all && done == all - todo && x in todo
    ensures todo - {x} <= all && done + {x} == all - (todo - {x})
  {
  }

  /** What loading has achieved once the antecedents in `done` are through. */
  ghost predicate Loaded(g0: Rules, g: Rules, pGrammar: map<string, seq<string>>, names: set<string>, done: set<string>)
  {
    && LoadedSplit(pGrammar, names, done)
    && LoadedKeys(g0, g, pGrammar, done)
    && LoadedProductions(g0, g, pGrammar, names, done)
    && LoadedUntouched(g0, g, done)
  }

  ghost predicate LoadedSplit(pGrammar: map<string, seq<string>>, names: set<string>, done: set<string>)
  {
    forall a :: a in done ==> a in pGrammar && SplitAll(names, pGrammar[a]).Ok?
  }

  ghost predicate LoadedKeys(g0: Rules, g: Rules, pGrammar: map<string, seq<string>>, done: set<string>)
    requires done <= pGrammar.Keys
  {
    forall a :: a in g <==> a in g0 || (a in done && pGrammar[a] != [])
  }

  ghost predicate LoadedProductions(g0: Rules, g: Rules, pGrammar: map<string, seq<string>>, names: set<string>, done: set<string>)
    requires LoadedSplit(pGrammar, names, done)
  {
    forall a :: a in done ==> ProductionsOf(g, a) == ProductionsOf(g0, a) + SplitAll(names, pGrammar[a]).value
  }

  ghost predicate LoadedUntouched(g0: Rules, g: Rules, done: set<string>)
  {
    forall a :: a in g0 && a !in done ==> a in g && g[a] == g0[a]
  }

  /** Adding the rules of one more antecedent extends what is loaded by it. */
  lemma LoadedStep(g0: Rules, prev: Rules, g: Rules, pGrammar: map<string, seq<string>>, names: set<string>,
                   done: set<string>, a: string)
    requires Loaded(g0, prev, pGrammar, names, done) == true
    requires a in pGrammar && a !in done && SplitAll(names, pGrammar[a]).Ok?
    requires pGrammar[a] == [] ==> g == prev
    requires pGrammar[a] != [] ==> g == prev[a := ProductionsOf(prev, a) + SplitAll(names, pGrammar[a]).value]
    ensures Loaded(g0, g, pGrammar, names, done + {a}) == true
  {
    var d := done + {a};
    var v := SplitAll(names, pGrammar[a]).value;
    assert ProductionsOf(prev, a) == ProductionsOf(g0, a);
    assert LoadedSplit(pGrammar, names, d);
    assert LoadedKeys(g0, g, pGrammar, d);
    forall b | b in d
      ensures ProductionsOf(g, b) == ProductionsOf(g0, b) + SplitAll(names, pGrammar[b]).value
    {
      if b == a && pGrammar[a] == [] {
        assert v == [];
        assert ProductionsOf(g0, a) + v == ProductionsOf(g0, a);
      } else if b != a {
        assert ProductionsOf(g, b) == ProductionsOf(prev, b);
      }
    }
    assert LoadedProductions(g0, g, pGrammar, names, d);
    forall b | b in g0 && b !in d
      ensures b in g && g[b] == g0[b]
    {
      assert g[b] == prev[b];
    }
    assert LoadedUntouched(g0, g, d);
  }

  /** Splitting one more consequent extends the result by its pieces. */
  lemma {:induction false} SplitAllSnoc(names: set<string>, ps: seq<string>, j: nat)
    requires j < |ps|
    requires forall i :: 0 <= i <= j ==> SplitSpec(names, ps[i]).Ok?
    ensures SplitAll(names, ps[..j + 1]).Ok?
    ensures SplitAll(names, ps[..j + 1]).value == SplitAll(names, ps[..j]).value + [SplitSpec(names, ps[j]).value]
  {
    var xs, ys := ps[..j], ps[..j + 1];
    assert forall i :: 0 <= i < |xs| ==> xs[i] == ps[i];
    assert forall i :: 0 <= i < |ys| ==> ys[i] == ps[i];
    var a, b := SplitAll(names, xs).value, SplitAll(names, ys).value;
    assert |b| == |a| + 1;
    forall i | 0 <= i < |b|
      ensures b[i] == (a + [SplitSpec(names, ps[j]).value])[i]
    {
      assert SplitSpec(names, ys[i]) == Ok(b[i]);
      if i < j {
        assert SplitSpec(names, xs[i]) == Ok(a[i]);
      }
    }
  }
}
