/**
 * The symbol table of the current checker: every known name is either a
 * terminal, carrying the pattern its lexer uses, or a non-terminal. Terminals
 * also receive a numeric token id; the end-of-input marker always owns id 1.
 * The C++ keeps all of this in process-wide statics; here it is one object
 * that the grammar and the parser are given explicitly.
 */
module SymbolTable {
  import opened Wrappers
  import opened Errors

  datatype SymbolType = NoTerminal | Terminal

  /** What the table stores per name: its kind and its pattern. */
  datatype Entry = Entry(kind: SymbolType, pattern: string)

  type Table = map<string, Entry>

  const Epsilon: string := "EPSILON"
  const DefaultEol: string := "$"

  /** The id of the end-of-input marker; fresh ids start right after it. */
  const EolId: nat := 1

  predicate IsTerminalIn(t: Table, s: string)
  {
    s in t && t[s].kind == Terminal
  }

  /**
   * Ids 1 .. next-1 are handed out in order, the reverse map covers exactly
   * those ids and sends every id other than the end marker's back to the
   * name it was given to, and every name holding an id is a terminal.
   */
  ghost predicate TableInvariant(eol: string, st: Table, tokenTypes: map<string, nat>, tokenTypesR: map<nat, string>,
                                 order: seq<nat>, next: nat)
  {
    && IsTerminalIn(st, Epsilon)
    && IsTerminalIn(st, eol)
    && EolId < next
    && |order| == next - 1
    && (forall k :: 0 <= k < |order| ==> order[k] == k + 1)
    && (forall id :: id in tokenTypesR <==> EolId <= id < next)
    && tokenTypesR[EolId] == eol
    && (forall s :: s in tokenTypes ==> EolId <= tokenTypes[s] < next && IsTerminalIn(st, s))
    && (forall s :: s in tokenTypes && tokenTypes[s] != EolId ==> tokenTypesR[tokenTypes[s]] == s)
    && (forall id :: id in tokenTypesR ==> IsTerminalIn(st, tokenTypesR[id]))
  }

  /** Registering a terminal under the next fresh id keeps the invariant. */
  lemma PutTerminalKeeps(eol: string, st: Table, tokenTypes: map<string, nat>, tokenTypesR: map<nat, string>,
                         order: seq<nat>, next: nat, identifier: string, regex: string)
    requires TableInvariant(eol, st, tokenTypes, tokenTypesR, order, next) == true
    ensures TableInvariant(eol, st[identifier := Entry(Terminal, regex)], tokenTypes[identifier := next],
                           tokenTypesR[next := identifier], order + [next], next + 1) == true
  {
    var st', tt', tr', order' := st[identifier := Entry(Terminal, regex)], tokenTypes[identifier := next],
                                 tokenTypesR[next := identifier], order + [next];
    forall s | s in tt' && tt'[s] != EolId
      ensures tr'[tt'[s]] == s
    {
      if s != identifier {
        assert tt'[s] < next;
      }
    }
    forall id | id in tr'
      ensures IsTerminalIn(st', tr'[id])
    {
      if id != next {
        assert IsTerminalIn(st, tokenTypesR[id]);
      }
    }
    assert forall k :: 0 <= k < |order'| ==> order'[k] == k + 1;
  }

  class SymbolTable {
    var eol: string
    var st: Table
    var tokenTypes: map<string, nat>
    var tokenTypesR: map<nat, string>
    var order: seq<nat>
    var next: nat

    /** The invariant every registration keeps (see TableInvariant). */
    ghost predicate Valid()
      reads this
    {
      TableInvariant(eol, st, tokenTypes, tokenTypesR, order, next)
    }

    /** The initial state of the statics. */
    constructor ()
      ensures Valid()
      ensures eol == DefaultEol
      ensures st == map[DefaultEol := Entry(Terminal, DefaultEol), Epsilon := Entry(Terminal, Epsilon)]
      ensures tokenTypes == map[DefaultEol := EolId] && tokenTypesR == map[EolId := DefaultEol]
      ensures order == [EolId] && next == 2
      ensures Epsilon !in tokenTypes
    {
      eol := DefaultEol;
      st := map[DefaultEol := Entry(Terminal, DefaultEol), Epsilon := Entry(Terminal, Epsilon)];
      tokenTypes := map[DefaultEol := EolId];
      tokenTypesR := map[EolId := DefaultEol];
      order := [EolId];
      next := 2;
    }

    /**
     * Registers a terminal. Nothing is rejected: registering a name again
     * overwrites its pattern and gives it one more fresh id, while its old
     * id stays in the reverse map and in the order list.
     */
    method PutTerminal(identifier: string, regex: string)
      requires Valid()
      modifies this
      ensures Valid()
      ensures st == old(st)[identifier := Entry(Terminal, regex)]
      ensures tokenTypes == old(tokenTypes)[identifier := old(next)]
      ensures tokenTypesR == old(tokenTypesR)[old(next) := identifier]
      ensures order == old(order) + [old(next)]
      ensures next == old(next) + 1
      ensures eol == old(eol)
      ensures tokenTypes[identifier] != EolId
    {
      PutTerminalKeeps(eol, st, tokenTypes, tokenTypesR, order, next, identifier, regex);
      st := st[identifier := Entry(Terminal, regex)];
      tokenTypes := tokenTypes[identifier := next];
      order := order + [next];
      tokenTypesR := tokenTypesR[next := identifier];
      next := next + 1;
    }

    /**
     * Registers a non-terminal with an empty pattern unless the name is
     * already known; an existing entry, terminal or not, is kept as it is.
     */
    method PutNonTerminal(identifier: string)
      requires Valid()
      modifies this`st
      ensures Valid()
      ensures identifier in st
      ensures identifier in old(st) ==> st == old(st)
      ensures identifier !in old(st) ==> st == old(st)[identifier := Entry(NoTerminal, "")]
    {
      if identifier !in st {
        st := st[identifier := Entry(NoTerminal, "")];
      }
    }

    predicate In(s: string)
      reads this
    {
      s in st
    }

    /** Whether a registered name is a terminal; an unknown name is an error. */
    function IsTerminal(s: string): (r: Result<bool, Error>)
      reads this
      ensures r.Ok? <==> In(s)
      ensures r.Ok? ==> (r.value <==> IsTerminalIn(st, s))
    {
      if s in st then Ok(st[s].kind == Terminal) else Err(OutOfRange(s))
    }

    /** The pattern registered for a name; an unknown name is an error. */
    function GetValue(s: string): (r: Result<string, Error>)
      reads this
      ensures r.Ok? <==> In(s)
      ensures r.Ok? ==> r.value == st[s].pattern
    {
      if s in st then Ok(st[s].pattern) else Err(OutOfRange(s))
    }

    /**
     * Replaces the end-of-input marker: the new one becomes a terminal whose
     * pattern is itself and takes id 1 in both directions. The entries of
     * the previous marker are left as they were.
     */
    method SetEol(e: string)
      requires Valid()
      modifies this`eol, this`st, this`tokenTypes, this`tokenTypesR
      ensures Valid()
      ensures eol == e
      ensures st == old(st)[e := Entry(Terminal, e)]
      ensures tokenTypes == old(tokenTypes)[e := EolId]
      ensures tokenTypesR == old(tokenTypesR)[EolId := e]
    {
      eol := e;
      st := st[e := Entry(Terminal, e)];
      tokenTypes := tokenTypes[e := EolId];
      tokenTypesR := tokenTypesR[EolId := e];
    }
  }
}
