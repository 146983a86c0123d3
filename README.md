# Ion local symbol table, modelled in Dafny

This project models the local symbol table of ion-js (`src/IonLocalSymbolTable.ts`),
the table an Amazon Ion 1.0 writer or reader uses to map symbol text to integer
symbol IDs and back. A local table extends one `Import`, which covers the IDs
below `offset = import.offset + import.length`. Symbols added at run time are
appended to an ordered list and get consecutive IDs starting at `offset`. A text
index maps each local text back to its ID.

Files:

- `wrappers.dfy`: `Option` (JavaScript's `undefined`) and `Result` (a thrown error).
- `ion_import.dfy`: the `Import` the table extends. It has `offset`, `length` and
  two lookups. The ghost predicate `Import.Consistent` states what the table
  relies on. Every ID the import hands out, and every ID it has text for, lies
  below `offset + length`. The text of an ID it hands out for `t` is `t`.
  `Import.Claims(t)` holds when the import's answer for `t` is truthy in
  JavaScript, that is, present and non-zero.
- `symbol_table_model.dfy`: the table's state as a value `Table(imp, offset,
  symbols, index)`. It has `SymbolId`, `SymbolText`, `MaxId`, `AddSymbol` and the
  seeding fold `Seed` as functions, the invariant `Table.Valid`, and the lemmas
  that state the table's guarantees.
- `local_symbol_table.dfy`: the class `LocalSymbolTable`. It has the fields
  `imp`, `offset`, `symbols` and `index`. Its constructor runs the seeding loop.
  The method `AddSymbol` appends to `symbols` and updates `index` in place. The
  read-only queries are functions that read the object. `GetSymbolId` and
  `GetSymbolText` are proved against the value model through `State()`; the
  getters compute from it.

Two behaviours of the code are kept as written:

- `getSymbolId` combines the two lookups with `||`. An import answer of `0` is
  falsy, so it falls through to the local index (`ImportPrecedence`).
- `getSymbolText` has no lower-bound check. An ID below `offset` that the import
  has no text for indexes the array at a negative position, and JavaScript
  yields `undefined` there. The model returns `Success(None)` for it
  (`UnresolvedBelowOffset`).

`getSymbolText` asks the import for every ID up to `maxId`, not only for IDs
below `offset`. Under `Import.Consistent` the import has no text at or above
`offset`, so the two readings agree.

The getters `Symbols`, `MaxId`, `Import` and `NumberOfSymbols` read a field or
compute from one. Their meaning is pinned down by the lemmas below
(`EmptyTable`, `AddSymbolNextId`, `LookupRoundTrip`, `SymbolTextOutOfRange`).

## Model

| member | source | states |
|---|---|---|
| `IonLocalSymbolTable.LocalSymbolTable.constructor` | src/IonLocalSymbolTable.ts:25-35 | offset is `import.offset + import.length`; the state is the empty table with the seed list added in order; the i-th local symbol resolves to `offset + i`; the invariant holds |
| `IonLocalSymbolTable.LocalSymbolTable.GetSymbolId` | src/IonLocalSymbolTable.ts:37-39 | a truthy import answer is returned as is, otherwise the local index answers; on a valid table over a consistent import, any ID returned is at most `maxId` and `getSymbolText` of it gives the text back |
| `IonLocalSymbolTable.LocalSymbolTable.AddSymbol` | src/IonLocalSymbolTable.ts:41-48 | if the text already resolves, that ID is returned and `symbols` and `index` are unchanged; otherwise `offset + old |symbols|` is returned, the text is appended, and `index` gains exactly that entry; afterwards `getSymbolId(text)` is the returned ID and the invariant still holds |
| `IonLocalSymbolTable.LocalSymbolTable.GetSymbolText` | src/IonLocalSymbolTable.ts:50-56 | fails exactly when `id > maxId`; an ID up to `maxId` that the import has text for gives that text; on a valid table over a consistent import, an ID in `[offset, maxId]` gives the local symbol at `id - offset` |
| `IonLocalSymbolTable.DefaultLocalSymbolTable` | src/IonLocalSymbolTable.ts:76-78 | a fresh valid table over the given system import, with no local symbols and `maxId == offset - 1` |
| `SymbolTableModel.EmptyTable` | src/IonLocalSymbolTable.ts:25-30 | a table before seeding is valid, has no symbols, has offset `import.offset + import.length`, and has `maxId == offset - 1` |
| `SymbolTableModel.ImportPrecedence` | src/IonLocalSymbolTable.ts:37-39 | a truthy import ID wins over the local index, and `addSymbol` then returns it and changes nothing; an absent or zero import answer falls through to the local index |
| `SymbolTableModel.LookupRoundTrip` | src/IonLocalSymbolTable.ts:37-56 | every ID `getSymbolId` returns, whether imported or local, is at most `maxId`, and `getSymbolText` of it returns the same text |
| `SymbolTableModel.LocalIdRoundTrip` | src/IonLocalSymbolTable.ts:50-56 | each ID in `[offset, maxId]` gives `symbols[id - offset]`, and that text resolves back to the same ID: a bijection on the local range |
| `SymbolTableModel.SymbolTextOutOfRange` | src/IonLocalSymbolTable.ts:50-51 | `getSymbolText` fails if and only if `id > maxId`; in particular it fails at `maxId + 1` |
| `SymbolTableModel.UnresolvedBelowOffset` | src/IonLocalSymbolTable.ts:52-55 | an ID below `offset` with no import text yields no text instead of an error |
| `SymbolTableModel.AddSymbolNextId` | src/IonLocalSymbolTable.ts:44-47 | a text that resolves nowhere gets ID `offset + numberOfSymbols = maxId + 1`; that ID becomes the new `maxId`; the table grows by one with the text at that position |
| `SymbolTableModel.AddSymbolKeepsValid` | src/IonLocalSymbolTable.ts:41-47 | `addSymbol` preserves the invariant: `index[symbols[i]] == offset + i`, the index holds nothing else, and no local text is claimed by the import |
| `SymbolTableModel.AddSymbolKeepsEntries` | src/IonLocalSymbolTable.ts:44-46 | `addSymbol` keeps the import, the offset, every earlier symbol and index entry, and every earlier `getSymbolId` answer; it adds at most one symbol |
| `SymbolTableModel.AddSymbolIdempotent` | src/IonLocalSymbolTable.ts:42-43 | after `addSymbol(t)`, `getSymbolId(t)` is the returned ID; a second identical call returns the same ID and leaves the table unchanged, so both calls add at most one symbol |
| `SymbolTableModel.AddSymbolRoundTrip` | src/IonLocalSymbolTable.ts:41-56 | the ID `addSymbol(t)` returns is at most the new `maxId`, resolves from `t`, and `getSymbolText` of it is `t` |
| `SymbolTableModel.ValidLocalIds` | src/IonLocalSymbolTable.ts:44-46 | in a valid table the local symbols are pairwise distinct and the i-th resolves to `offset + i` |
| `SymbolTableModel.SeedKeepsValid` | src/IonLocalSymbolTable.ts:29-34 | seeding keeps the invariant, the import and the offset, and every seed text resolves afterwards |
| `SymbolTableModel.SeedMembers` | src/IonLocalSymbolTable.ts:32-34 | the seeded local symbols are exactly the seed texts the import does not claim |
| `SymbolTableModel.SeedFirstOccurrenceOrder` | src/IonLocalSymbolTable.ts:32-34 | the seeded local symbols are in the order of each text's first occurrence in the seed list |

## Left out

- `Import`, the system symbol table and the catalog are not part of this model. Their code is outside this model. The import is an abstract value with two lookup functions. Its behaviour is assumed through `Import.Consistent`, and the lemmas that need it say so in their `requires`.
- `getSystemSymbolTableImport()`, the constructor's default argument, is not modelled. `DefaultLocalSymbolTable` takes the system import as a parameter.
- The index is a plain JavaScript object. Keys inherited from `Object.prototype` (such as `"toString"`) would read as present. The model's index is a map holding only added texts.
- `Symbols` returns the symbol list as a value. The source getter returns the live array, which callers could mutate behind the index's back. That aliasing is not modelled.
- JavaScript numbers are doubles. IDs are unbounded integers here, and non-integer IDs passed to `getSymbolText` are not modelled.
- `src/IonTests.ts` (re-exports only) and the two test files under `tests/unit` are not part of this model. They build readers and writers whose code is outside this model.
