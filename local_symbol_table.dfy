/** The local symbol table object: symbols not covered by its import, appended
    at run time and given IDs right after the imported range. */
module IonLocalSymbolTable {
  import opened Wrappers
  import opened IonImport
  import opened SymbolTableModel

  class LocalSymbolTable {
    const imp: Import              // `_import`, fixed at construction
    const offset: nat              // first local symbol ID
    var symbols: seq<string>       // `_symbols`, grown by `addSymbol`
    var index: map<string, nat>    // text to local ID, updated by `addSymbol`

    /** The table's state as a value of the model. */
    function State(): Table
      reads this
    {
      Table(imp, offset, symbols, index)
    }

    ghost predicate Valid()
      reads this
    {
      State().Valid()
    }

    /** Extends `imp` and adds each of `seed` in order. */
    constructor (imp: Import, seed: seq<string>)
      ensures Valid()
      ensures this.imp == imp && offset == imp.offset + imp.length
      ensures State() == Seed(Empty(imp), seed)
      ensures forall i :: 0 <= i < |symbols| ==> GetSymbolId(symbols[i]) == Some(offset + i)
    {
      this.imp := imp;
      offset := imp.offset + imp.length;
      symbols := [];
      index := map[];
      new;
      EmptyTable(imp);
      for i := 0 to |seed|
        invariant Valid()
        invariant State() == Seed(Empty(imp), seed[..i])
      {
        assert seed[..i + 1][..i] == seed[..i];
        var id := AddSymbol(seed[i]);
      }
      assert seed[..|seed|] == seed;
      ValidLocalIds(State());
    }

    /** `getSymbolId`: an import's non-zero ID wins; otherwise the local index. */
    function GetSymbolId(text: string): (r: Option<nat>)
      reads this
      ensures imp.Claims(text) ==> r == imp.symbolId(text)
      ensures !imp.Claims(text) ==> r == State().LocalId(text)
      ensures Valid() && imp.Consistent() && r.Some? ==>
        r.value <= MaxId() && GetSymbolText(r.value) == Success(Some(text))
    {
      var r := State().SymbolId(text);
      assert Valid() && imp.Consistent() && r.Some? ==>
        r.value <= MaxId() && State().SymbolText(r.value) == Success(Some(text)) by {
        if Valid() && imp.Consistent() && r.Some? {
          LookupRoundTrip(State(), text);
        }
      }
      r
    }

    /** `addSymbol`: returns the ID `text` already resolves to, or appends it with
        the next ID. */
    method AddSymbol(text: string) returns (id: nat)
      requires Valid()
      modifies this
      ensures Valid()
      ensures (State(), id) == old(State()).AddSymbol(text)
      ensures old(GetSymbolId(text)).Some? ==>
        id == old(GetSymbolId(text)).value && symbols == old(symbols) && index == old(index)
      ensures old(GetSymbolId(text)).None? ==>
        id == offset + old(|symbols|) && symbols == old(symbols) + [text] && index == old(index)[text := id]
      ensures GetSymbolId(text) == Some(id)
    {
      ghost var before := State();
      AddSymbolKeepsValid(before, text);
      AddSymbolIdempotent(before, text);
      var existing := GetSymbolId(text);
      if existing.Some? {
        return existing.value;
      }
      id := offset + |symbols|;
      symbols := symbols + [text];
      index := index[text := id];
      assert State() == before.AddSymbol(text).0;
    }

    /** `getSymbolText`: fails exactly above `maxId`; a local ID gives its symbol. */
    function GetSymbolText(id: int): (r: Result<Option<string>, SymbolError>)
      reads this
      ensures r.Failure? <==> id > MaxId()
      ensures id <= MaxId() && imp.symbolText(id).Some? ==> r == Success(imp.symbolText(id))
      ensures Valid() && imp.Consistent() && offset <= id <= MaxId() ==>
        r == Success(Some(symbols[id - offset]))
    {
      SymbolTextOutOfRange(State(), id);
      assert Valid() && imp.Consistent() && offset <= id <= MaxId() ==>
        State().SymbolText(id) == Success(Some(symbols[id - offset])) by {
        if Valid() && imp.Consistent() && offset <= id <= MaxId() {
          LocalIdRoundTrip(State(), id);
        }
      }
      State().SymbolText(id)
    }

    /** The `symbols` getter. */
    function Symbols(): seq<string>
      reads this
    {
      symbols
    }

    /** The `maxId` getter. */
    function MaxId(): int
      reads this
    {
      State().MaxId()
    }

    /** The `import` getter. */
    function Import(): IonImport.Import
      reads this
    {
      imp
    }

    function NumberOfSymbols(): nat
      reads this
    {
      State().NumberOfSymbols()
    }
  }

  /** `defaultLocalSymbolTable`, with the system symbol table's import passed in. */
  method DefaultLocalSymbolTable(system: Import) returns (t: LocalSymbolTable)
    ensures fresh(t) && t.Valid()
    ensures t.State() == Empty(system)
    ensures t.NumberOfSymbols() == 0 && t.MaxId() == system.offset + system.length - 1
  {
    t := new LocalSymbolTable(system, []);
  }
}
