/**
 * The symbol table of the earlier checker: names with their kind and
 * pattern, and a reverse map from pattern to name that its lexer reads.
 * Every registration overwrites, and even the lookups `is_terminal` and
 * `get_value` register an unknown name, as a non-terminal with an empty
 * pattern, through the C++ map's `operator[]`.
 */
module LegacySymbolTable {
  import ST = SymbolTable

  /** The end-of-input marker of this generation: the regex-escaped dollar sign. */
  const Eol: string := "\\$"

  /** The table as it would read after `operator[]` looked up `s`. */
  function Touch(st: ST.Table, s: string): (st': ST.Table)
    ensures st'.Keys == st.Keys + {s}
    ensures forall x :: x in st ==> st'[x] == st[x]
    ensures s !in st ==> st'[s] == ST.Entry(ST.NoTerminal, "")
  {
    if s in st then st else st[s := ST.Entry(ST.NoTerminal, "")]
  }

  /**
   * What lookups through `operator[]` can do to a table: `st` holds every
   * entry of `st0` unchanged, and every other entry is a non-terminal with
   * an empty pattern.
   */
  ghost predicate Extends(st0: ST.Table, st: ST.Table)
  {
    && st0.Keys <= st.Keys
    && (forall x :: x in st0 ==> st[x] == st0[x])
    && (forall x :: x in st && x !in st0 ==> st[x] == ST.Entry(ST.NoTerminal, ""))
  }

  /** A lookup keeps a table an extension of where it started. */
  lemma TouchExtends(st0: ST.Table, st: ST.Table, s: string)
    requires Extends(st0, st)
    ensures Extends(st0, Touch(st, s))
  {
  }

  lemma ExtendsTrans(st0: ST.Table, st1: ST.Table, st2: ST.Table)
    requires Extends(st0, st1) && Extends(st1, st2)
    ensures Extends(st0, st2)
  {
  }

  /** Lookups never change which names are terminals. */
  lemma ExtendsKinds(st0: ST.Table, st: ST.Table, s: string)
    requires Extends(st0, st)
    ensures ST.IsTerminalIn(st, s) <==> ST.IsTerminalIn(st0, s)
  {
  }

  class SymbolTable {
    var st: ST.Table
    /** Pattern to name: the name most recently registered with that pattern. */
    var rst: map<string, string>

    /** The end marker and EPSILON stay registered, and every name the reverse map gives is registered. */
    ghost predicate Valid()
      reads this
    {
      && Eol in st && ST.Epsilon in st
      && forall r :: r in rst ==> rst[r] in st
    }

    /** The initial statics: the end marker and EPSILON, terminals whose pattern is their own name. */
    constructor ()
      ensures Valid()
      ensures st == map[Eol := ST.Entry(ST.Terminal, Eol), ST.Epsilon := ST.Entry(ST.Terminal, ST.Epsilon)]
      ensures rst == map[Eol := Eol, ST.Epsilon := ST.Epsilon]
    {
      st := map[Eol := ST.Entry(ST.Terminal, Eol), ST.Epsilon := ST.Entry(ST.Terminal, ST.Epsilon)];
      rst := map[Eol := Eol, ST.Epsilon := ST.Epsilon];
    }

    /**
     * Registers a name with a kind and a pattern, overwriting any earlier
     * entry, and makes the pattern lead back to this name, taking it over
     * from any name registered with it before.
     */
    method PutSymbol(identifier: string, kind: ST.SymbolType, regex: string)
      requires Valid()
      modifies this
      ensures Valid()
      ensures st == old(st)[identifier := ST.Entry(kind, regex)]
      ensures rst == old(rst)[regex := identifier]
    {
      st := st[identifier := ST.Entry(kind, regex)];
      rst := rst[regex := identifier];
    }

    /** Registers a name with a kind and an empty pattern, overwriting any earlier entry; the reverse map is untouched. */
    method PutSymbolNoPattern(identifier: string, kind: ST.SymbolType)
      requires Valid()
      modifies this`st
      ensures Valid()
      ensures st == old(st)[identifier := ST.Entry(kind, "")]
    {
      st := st[identifier := ST.Entry(kind, "")];
    }

    /** The pattern of a name; an unknown name gives the empty string and is registered as a non-terminal. */
    method GetValue(s: string) returns (v: string)
      requires Valid()
      modifies this`st
      ensures Valid()
      ensures st == Touch(old(st), s)
      ensures v == if s in old(st) then old(st)[s].pattern else ""
    {
      st := Touch(st, s);
      v := st[s].pattern;
    }

    /** Whether some name was registered with this pattern. */
    predicate HasValue(s: string)
      reads this
    {
      s in rst
    }

    /** Whether a name is registered; no side effect. */
    predicate In(s: string)
      reads this
    {
      s in st
    }

    /**
     * Whether a name is a terminal; an unknown name is not, and is
     * registered as a non-terminal on the way, so that In holds for it
     * afterwards.
     */
    method IsTerminal(s: string) returns (b: bool)
      requires Valid()
      modifies this`st
      ensures Valid()
      ensures st == Touch(old(st), s)
      ensures b <==> ST.IsTerminalIn(old(st), s)
      ensures In(s) && (b <==> ST.IsTerminalIn(st, s))
    {
      st := Touch(st, s);
      b := st[s].kind == ST.Terminal;
    }
  }
}
