/**
 * The grammar of the earlier checker: the same map from antecedent to
 * productions and the same greedy longest-match splitter, except that a
 * remainder the splitter cannot cut is dropped without any error.
 */
module LegacyGrammar {
  import opened Gr = Grammar
  import opened Wrappers
  import opened Errors
  import LST = LegacySymbolTable
  import ST = SymbolTable

  /**
   * The pieces the earlier splitter cuts: repeatedly the longest registered
   * prefix, stopping as soon as the rest has no registered prefix.
   */
  function ScanPrefix(names: set<string>, s: string): (r: seq<string>)
    decreases |s|
    ensures |Join(r)| <= |s| && s[..|Join(r)|] == Join(r)
    ensures forall i :: 0 <= i < |r| ==> r[i] in names && r[i] != []
    ensures LongestPrefix(names, s[|Join(r)|..]) == 0
  {
    if s == [] then []
    else
      var n := LongestPrefix(names, s);
      if n == 0 then
        assert s[0..] == s;
        []
      else
        var rest := ScanPrefix(names, s[n..]);
        assert Join([s[..n]] + rest) == s[..n] + Join(rest);
        assert s[..n + |Join(rest)|] == s[..n] + s[n..][..|Join(rest)|];
        assert s[n + |Join(rest)|..] == s[n..][|Join(rest)|..];
        [s[..n]] + rest
  }

  /** What the earlier `split` returns: EPSILON on its own, otherwise the pieces of the scan. */
  function SplitPrefixSpec(names: set<string>, s: string): seq<string>
  {
    if s == ST.Epsilon then [ST.Epsilon] else ScanPrefix(names, s)
  }

  /** One cut of the splitter agrees with one step of the scan. */
  lemma CutPrefix(names: set<string>, s: string, xs: seq<string>, start: nat, end: nat)
    requires start < end <= |s|
    requires s[start..end] in names
    requires NoNameBetween(names, s, start, end, |s| + 1) == true
    ensures xs + ScanPrefix(names, s[start..]) == (xs + [s[start..end]]) + ScanPrefix(names, s[end..])
  {
    var rest := s[start..];
    var n := end - start;
    assert rest[..n] == s[start..end];
    forall k | n < k <= |rest|
      ensures rest[..k] !in names
    {
      assert rest[..k] == s[start..start + k];
    }
    LongestPrefixIs(names, rest, n);
    assert rest[n..] == s[end..];
    assert ScanPrefix(names, rest) == [s[start..end]] + ScanPrefix(names, s[end..]);
  }

  /** A remainder none of whose prefixes is registered yields no further piece. */
  lemma RemainderDropped(names: set<string>, s: string, start: nat)
    requires start <= |s|
    requires NoNameBetween(names, s, start, start, |s| + 1) == true
    ensures ScanPrefix(names, s[start..]) == []
  {
    var rest := s[start..];
    forall k | 0 < k <= |rest|
      ensures rest[..k] !in names
    {
      assert rest[..k] == s[start..start + k];
    }
    LongestPrefixIs(names, rest, 0);
  }

  /**
   * The two splitters agree wherever the current one succeeds, and the
   * earlier one covers the whole input exactly when the current one
   * succeeds; where the current one reports an unknown remainder, the
   * earlier one drops it.
   */
  lemma {:induction false} ScanPrefixAgrees(names: set<string>, s: string)
    ensures Scan(names, s).Ok? <==> Join(ScanPrefix(names, s)) == s
    ensures Scan(names, s).Ok? ==> ScanPrefix(names, s) == Scan(names, s).value
    ensures Scan(names, s).Err? ==> Scan(names, s).error.detail == s[|Join(ScanPrefix(names, s))|..]
    decreases |s|
  {
    if s != [] {
      var n := LongestPrefix(names, s);
      if n == 0 {
        assert s[0..] == s;
        assert ScanPrefix(names, s) == [];
        assert Scan(names, s) == Err(GrammarError(s));
      } else {
        var tail := s[n..];
        ScanPrefixAgrees(names, tail);
        var rest := ScanPrefix(names, tail);
        var r := [s[..n]] + rest;
        assert ScanPrefix(names, s) == r;
        assert r[0] == s[..n] && r[1..] == rest;
        assert Join(r) == s[..n] + Join(rest);
        assert s == s[..n] + tail;
        assert s[|Join(r)|..] == tail[|Join(rest)|..];
        match Scan(names, tail)
        case Ok(v) =>
          assert Scan(names, s) == Ok([s[..n]] + v);
        case Err(e) =>
          assert Scan(names, s) == Err(e);
          assert Join(rest) != tail;
          assert |Join(rest)| < |tail|;
          assert Join(r) != s by { assert |Join(r)| < |s|; }
      }
    }
  }

  /**
   * Every piece is the longest registered prefix of the input that remains
   * at that point (the pieces still to come followed by the dropped tail).
   */
  lemma {:induction false} ScanPrefixLongestMatch(names: set<string>, s: string)
    ensures forall i :: 0 <= i < |ScanPrefix(names, s)| ==>
              |ScanPrefix(names, s)[i]| == LongestPrefix(names, Join(ScanPrefix(names, s)[i..]) + s[|Join(ScanPrefix(names, s))|..])
    decreases |s|
  {
    var r := ScanPrefix(names, s);
    if s != [] && LongestPrefix(names, s) > 0 {
      var n := LongestPrefix(names, s);
      var rest := ScanPrefix(names, s[n..]);
      assert r == [s[..n]] + rest;
      ScanPrefixLongestMatch(names, s[n..]);
      assert Join(r) == s[..n] + Join(rest);
      assert s[|Join(r)|..] == s[n..][|Join(rest)|..];
      forall i | 0 <= i < |r|
        ensures |r[i]| == LongestPrefix(names, Join(r[i..]) + s[|Join(r)|..])
      {
        if i == 0 {
          assert r[0..] == r;
          assert Join(r) + s[|Join(r)|..] == s;
        } else {
          assert r[i..] == rest[i - 1..];
          assert |rest[i - 1]| == LongestPrefix(names, Join(rest[i - 1..]) + s[n..][|Join(rest)|..]);
        }
      }
    }
  }

  class Grammar {
    var g: Rules
    var axiom: string

    constructor ()
      ensures g == map[] && axiom == ""
    {
      g := map[];
      axiom := "";
    }

    /**
     * The splitter of the earlier checker: the same `start`/`end`/`lookahead`
     * loop as the current one, but whatever is left when `end` runs past the
     * input is dropped.
     */
    static method Split(table: LST.SymbolTable, s: string) returns (r: seq<string>)
      ensures r == SplitPrefixSpec(table.st.Keys, s)
    {
      if s == ST.Epsilon {
        return [ST.Epsilon];
      }
      ghost var names := table.st.Keys;
      var splitted: seq<string> := [];
      var start: nat, end: nat := 0, 1;
      assert s[0..] == s;
      while end <= |s|
        invariant start < end <= |s| + 1
        invariant ScanPrefix(names, s) == splitted + ScanPrefix(names, s[start..])
        invariant NoNameBetween(names, s, start, start, end) == true
      {
        var str := s[start..end];
        if table.In(str) {
          var lookahead := end + 1;
          while lookahead <= |s|
            invariant start < end < lookahead <= |s| + 1
            invariant s[start..end] in names
            invariant NoNameBetween(names, s, start, end, lookahead) == true
          {
            var extended := s[start..lookahead];
            if table.In(extended) {
              end := lookahead;
            } else {
              NoNameStep(names, s, start, end, lookahead);
            }
            lookahead := lookahead + 1;
          }
          CutPrefix(names, s, splitted, start, end);
          splitted := splitted + [s[start..end]];
          start := end;
          end := start + 1;
        } else {
          NoNameStep(names, s, start, start, end);
          end := end + 1;
        }
      }
      RemainderDropped(names, s, start);
      assert splitted + [] == splitted;
      return splitted;
    }

    /**
     * Splits the consequent and appends the pieces, whatever they are, to
     * the antecedent's productions, creating the entry on first use.
     */
    method AddRule(table: LST.SymbolTable, antecedent: string, consequent: string)
      modifies this`g
      ensures g == old(g)[antecedent := ProductionsOf(old(g), antecedent) + [SplitPrefixSpec(table.st.Keys, consequent)]]
    {
      var p := Split(table, consequent);
      if antecedent !in g {
        assert ProductionsOf(g, antecedent) + [p] == [p];
        g := g[antecedent := [p]];
      } else {
        g := g[antecedent := g[antecedent] + [p]];
      }
    }

    method SetAxiom(a: string)
      modifies this`axiom
      ensures axiom == a
    {
      axiom := a;
    }
  }
}
