/** The state of a local symbol table as a value, its operations as functions,
    and what they guarantee. The class in `local_symbol_table.dfy` is proved
    against these functions. */
module SymbolTableModel {
  import opened Wrappers
  import opened IonImport

  /** The error `getSymbolText` throws for an ID above `maxId`. */
  datatype SymbolError = SymbolIdGreaterThanMaxId

  /** A local symbol table: the import it extends, the first local ID, the local
      symbol texts in ID order, and the index from text to local ID. */
  datatype Table = Table(imp: Import, offset: nat, symbols: seq<string>, index: map<string, nat>)
  {
    /** What the local index holds for `text`. */
    function LocalId(text: string): Option<nat> {
      if text in index then Some(index[text]) else None
    }

    /** `getSymbolId`: the import is asked first; its answer is used only when
        it is truthy (present and non-zero), otherwise the local index answers. */
    function SymbolId(text: string): Option<nat> {
      if imp.Claims(text) then imp.symbolId(text) else LocalId(text)
    }

    /** `maxId`: the highest ID of the table; `offset - 1` while it has no local symbols. */
    function MaxId(): int {
      offset + |symbols| - 1
    }

    function NumberOfSymbols(): nat {
      |symbols|
    }

    /** `getSymbolText`: fails above `maxId`; otherwise the import's text, else the
        local symbol at `id - offset`, which does not exist (`undefined`) below `offset`. */
    function SymbolText(id: int): Result<Option<string>, SymbolError> {
      if id > MaxId() then Failure(SymbolIdGreaterThanMaxId)
      else if imp.symbolText(id).Some? then Success(imp.symbolText(id))
      else if id < offset then Success(None)
      else Success(Some(symbols[id - offset]))
    }

    /** `addSymbol`: the table after the call and the ID returned. */
    function AddSymbol(text: string): (Table, nat) {
      match SymbolId(text)
      case Some(existing) => (this, existing)
      case None =>
        var id := offset + |symbols|;
        (Table(imp, offset, symbols + [text], index[text := id]), id)
    }

    /** The table's invariant: local IDs start right after the import, the index
        and the symbol list describe the same bijection between texts and
        `[offset, maxId]`, and no local text is one the import claims. */
    ghost predicate Valid() {
      offset == imp.End() &&
      (forall i :: 0 <= i < |symbols| ==>
         symbols[i] in index && index[symbols[i]] == offset + i && !imp.Claims(symbols[i])) &&
      (forall text :: text in index ==>
         offset <= index[text] < offset + |symbols| && symbols[index[text] - offset] == text)
    }
  }

  /** A table over `imp` before any local symbol is added. */
  function Empty(imp: Import): Table {
    Table(imp, imp.End(), [], map[])
  }

  /** The table after adding `texts` one by one, in order, to `t`. */
  function Seed(t: Table, texts: seq<string>): Table
    decreases |texts|
  {
    if texts == [] then t
    else Seed(t, texts[..|texts| - 1]).AddSymbol(texts[|texts| - 1]).0
  }

  ghost predicate Distinct(s: seq<string>) {
    forall i, j :: 0 <= i < j < |s| ==> s[i] != s[j]
  }

  /** The position of the first occurrence of `x` in `s`. */
  function FirstIndex(s: seq<string>, x: string): (k: nat)
    requires x in s
    ensures k < |s| && s[k] == x && x !in s[..k]
  {
    if s[0] == x then 0
    else
      var k := 1 + FirstIndex(s[1..], x);
      assert s[..k] == [s[0]] + s[1..][..k - 1];
      k
  }

  lemma FirstIndexOfPrefix(p: seq<string>, x: string, y: string)
    requires y in p
    ensures FirstIndex(p + [x], y) == FirstIndex(p, y)
  {
    var k := FirstIndex(p, y);
    var k' := FirstIndex(p + [x], y);
    assert (p + [x])[k] == y;
    assert p[..k'] == (p + [x])[..k'];
  }

  /** A fresh table: no local symbols, so `maxId` is `offset - 1`. */
  lemma EmptyTable(imp: Import)
    ensures Empty(imp).Valid()
    ensures Empty(imp).NumberOfSymbols() == 0
    ensures Empty(imp).offset == imp.offset + imp.length
    ensures Empty(imp).MaxId() == imp.offset + imp.length - 1
  {
  }

  /** Every ID the table resolves stays within `maxId` and maps back to the text. */
  lemma LookupRoundTrip(t: Table, text: string)
    requires t.Valid() && t.imp.Consistent()
    requires t.SymbolId(text).Some?
    ensures t.SymbolId(text).value <= t.MaxId()
    ensures t.SymbolText(t.SymbolId(text).value) == Success(Some(text))
  {
    var id := t.SymbolId(text).value;
    if t.imp.Claims(text) {
      assert id < t.offset;
    } else {
      assert text in t.index;
      assert t.offset <= id;
      assert t.imp.symbolText(id).None?;
    }
  }

  /** Each ID in `[offset, maxId]` names the local symbol at that position, and
      that symbol's text resolves back to the same ID. */
  lemma LocalIdRoundTrip(t: Table, id: int)
    requires t.Valid() && t.imp.Consistent()
    requires t.offset <= id <= t.MaxId()
    ensures t.SymbolText(id) == Success(Some(t.symbols[id - t.offset]))
    ensures t.SymbolId(t.symbols[id - t.offset]) == Some(id)
  {
    assert t.imp.symbolText(id).None?;
  }

  /** `getSymbolText` fails exactly above `maxId`; in particular at `maxId + 1`. */
  lemma SymbolTextOutOfRange(t: Table, id: int)
    ensures t.SymbolText(id).Failure? <==> id > t.MaxId()
    ensures t.SymbolText(t.MaxId() + 1) == Failure(SymbolIdGreaterThanMaxId)
  {
  }

  /** The missing lower-bound check: an ID below `offset` that the import has no
      text for yields no text rather than an error. */
  lemma UnresolvedBelowOffset(t: Table, id: int)
    requires id < t.offset && t.imp.symbolText(id).None?
    ensures t.SymbolText(id) == Success(None)
  {
  }

  /** An import's truthy answer wins over the local index and makes `addSymbol`
      a no-op; a missing or zero answer falls through to the local index. */
  lemma ImportPrecedence(t: Table, text: string)
    ensures t.imp.Claims(text) ==>
      t.SymbolId(text) == t.imp.symbolId(text) &&
      t.AddSymbol(text) == (t, t.imp.symbolId(text).value)
    ensures t.imp.symbolId(text) == Some(0) || t.imp.symbolId(text).None? ==>
      t.SymbolId(text) == (if text in t.index then Some(t.index[text]) else None)
  {
  }

  /** A text nothing resolves yet gets the next ID, `offset + |symbols|`, which
      becomes the new `maxId`; it is stored at the end of the symbol list. */
  lemma AddSymbolNextId(t: Table, text: string)
    requires t.SymbolId(text).None?
    ensures var (t1, id) := t.AddSymbol(text);
      id == t.offset + t.NumberOfSymbols() == t.MaxId() + 1 &&
      t1.MaxId() == id &&
      t1.NumberOfSymbols() == t.NumberOfSymbols() + 1 &&
      t1.symbols[id - t.offset] == text
  {
  }

  /** `addSymbol` keeps the table's invariant. */
  lemma AddSymbolKeepsValid(t: Table, text: string)
    requires t.Valid()
    ensures t.AddSymbol(text).0.Valid()
  {
    var t1 := t.AddSymbol(text).0;
    if t.SymbolId(text).None? {
      assert text !in t.index;
      assert t1.symbols == t.symbols + [text];
      forall i | 0 <= i < |t1.symbols|
        ensures t1.symbols[i] in t1.index && t1.index[t1.symbols[i]] == t1.offset + i
        ensures !t1.imp.Claims(t1.symbols[i])
      {
        if i < |t.symbols| {
          assert t1.symbols[i] == t.symbols[i];
        }
      }
      forall s | s in t1.index
        ensures t1.offset <= t1.index[s] < t1.offset + |t1.symbols|
        ensures t1.symbols[t1.index[s] - t1.offset] == s
      {
        if s != text {
          assert s in t.index;
        }
      }
    }
  }

  /** `addSymbol` keeps the import, the offset, every earlier symbol and index
      entry, and every answer `getSymbolId` already gave; it adds at most one symbol. */
  lemma AddSymbolKeepsEntries(t: Table, text: string)
    ensures var t1 := t.AddSymbol(text).0;
      t1.imp == t.imp && t1.offset == t.offset &&
      |t.symbols| <= |t1.symbols| <= |t.symbols| + 1 &&
      t1.symbols[..|t.symbols|] == t.symbols &&
      (forall s :: s in t.index ==> s in t1.index && t1.index[s] == t.index[s]) &&
      (forall s :: t.SymbolId(s).Some? ==> t1.SymbolId(s) == t.SymbolId(s))
  {
    if t.SymbolId(text).None? {
      var t1 := t.AddSymbol(text).0;
      assert text !in t.index;
      assert t1.symbols[..|t.symbols|] == t.symbols;
    }
  }

  /** `addSymbol` is idempotent: a second identical call returns the same ID and
      changes nothing, so the two calls together add at most one symbol. */
  lemma AddSymbolIdempotent(t: Table, text: string)
    ensures var (t1, id1) := t.AddSymbol(text);
      var (t2, id2) := t1.AddSymbol(text);
      t1.SymbolId(text) == Some(id1) &&
      id2 == id1 && t2 == t1 &&
      t2.NumberOfSymbols() <= t.NumberOfSymbols() + 1
  {
  }

  /** The ID `addSymbol` returns is within `maxId` and gives back the text it was
      called with, whether the text came from the import, was already local, or
      was just added. */
  lemma AddSymbolRoundTrip(t: Table, text: string)
    requires t.Valid() && t.imp.Consistent()
    ensures var (t1, id) := t.AddSymbol(text);
      t1.SymbolId(text) == Some(id) &&
      id <= t1.MaxId() &&
      t1.SymbolText(id) == Success(Some(text))
  {
    AddSymbolKeepsValid(t, text);
    AddSymbolIdempotent(t, text);
    var t1 := t.AddSymbol(text).0;
    LookupRoundTrip(t1, text);
  }

  /** Seeding keeps the invariant and the import, and every seed text resolves. */
  lemma {:induction false} SeedKeepsValid(imp: Import, texts: seq<string>)
    ensures var s := Seed(Empty(imp), texts);
      s.Valid() && s.imp == imp && s.offset == imp.End() &&
      (forall x :: x in texts ==> s.SymbolId(x).Some?)
    decreases |texts|
  {
    if texts != [] {
      var p, x := texts[..|texts| - 1], texts[|texts| - 1];
      assert texts == p + [x];
      SeedKeepsValid(imp, p);
      var s0 := Seed(Empty(imp), p);
      AddSymbolKeepsValid(s0, x);
      AddSymbolKeepsEntries(s0, x);
      AddSymbolIdempotent(s0, x);
    }
  }

  /** In a valid table the local symbols are pairwise distinct and the i-th one
      resolves to `offset + i`. */
  lemma ValidLocalIds(t: Table)
    requires t.Valid()
    ensures Distinct(t.symbols)
    ensures forall i :: 0 <= i < |t.symbols| ==> t.SymbolId(t.symbols[i]) == Some(t.offset + i)
  {
    forall i, j | 0 <= i < j < |t.symbols| ensures t.symbols[i] != t.symbols[j] {
      assert t.index[t.symbols[i]] == t.offset + i;
    }
  }

  /** The seeded local symbols are exactly the seed texts the import does not claim. */
  lemma {:induction false} SeedMembers(imp: Import, texts: seq<string>)
    ensures var s := Seed(Empty(imp), texts);
      forall x :: x in s.symbols <==> x in texts && !imp.Claims(x)
    decreases |texts|
  {
    if texts != [] {
      var p, x := texts[..|texts| - 1], texts[|texts| - 1];
      assert texts == p + [x];
      SeedMembers(imp, p);
      SeedKeepsValid(imp, p);
      var s0 := Seed(Empty(imp), p);
      var s := Seed(Empty(imp), texts);
      assert s == s0.AddSymbol(x).0;
      if s0.SymbolId(x).None? {
        assert s.symbols == s0.symbols + [x];
      } else {
        assert s == s0;
        if !imp.Claims(x) {
          assert x in s0.index;
          assert s0.symbols[s0.index[x] - s0.offset] == x;
        }
      }
    }
  }

  /** The seeded symbols appear in the order of their first occurrence in `texts`. */
  lemma {:induction false} SeedFirstOccurrenceOrder(imp: Import, texts: seq<string>)
    ensures var s := Seed(Empty(imp), texts);
      forall i, j :: 0 <= i < j < |s.symbols| ==>
        s.symbols[i] in texts && s.symbols[j] in texts &&
        FirstIndex(texts, s.symbols[i]) < FirstIndex(texts, s.symbols[j])
    decreases |texts|
  {
    SeedMembers(imp, texts);
    if texts != [] {
      var p, x := texts[..|texts| - 1], texts[|texts| - 1];
      assert texts == p + [x];
      SeedFirstOccurrenceOrder(imp, p);
      SeedMembers(imp, p);
      var s0 := Seed(Empty(imp), p);
      var s := Seed(Empty(imp), texts);
      assert s == s0.AddSymbol(x).0;
      if s0.SymbolId(x).None? {
        assert s.symbols == s0.symbols + [x];
        assert x !in p by {
          SeedKeepsValid(imp, p);
        }
        assert FirstIndex(texts, x) == |p|;
        forall i, j | 0 <= i < j < |s.symbols|
          ensures FirstIndex(texts, s.symbols[i]) < FirstIndex(texts, s.symbols[j])
        {
          FirstIndexOfPrefix(p, x, s.symbols[i]);
          if j < |s0.symbols| {
            FirstIndexOfPrefix(p, x, s.symbols[j]);
          }
        }
      } else {
        assert s == s0;
        forall i, j | 0 <= i < j < |s.symbols|
          ensures FirstIndex(texts, s.symbols[i]) < FirstIndex(texts, s.symbols[j])
        {
          FirstIndexOfPrefix(p, x, s.symbols[i]);
          FirstIndexOfPrefix(p, x, s.symbols[j]);
        }
      }
    }
  }
}
