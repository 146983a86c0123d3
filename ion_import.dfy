/** An import of a shared (or the system) symbol table into a local symbol
    table. Only its interface is modelled: where its IDs start, how many it
    declares, and its two lookups. */
module IonImport {
  import opened Wrappers

  datatype Import = Import(
    offset: nat,                          // first symbol ID of this import
    length: nat,                          // number of symbols it declares
    symbolId: string -> Option<nat>,      // `getSymbolId`
    symbolText: int -> Option<string>     // `getSymbolText`
  )
  {
    /** The first symbol ID past the imported range: where local symbols start. */
    function End(): nat {
      offset + length
    }

    /** True when the import resolves `text` to an ID that a JavaScript `||`
        treats as present, that is, to a non-zero ID. An answer of 0 is falsy. */
    predicate Claims(text: string) {
      symbolId(text).Some? && symbolId(text).value != 0
    }

    /** What a local symbol table assumes of its import: every ID it hands out
        and every ID it has text for lies below `End()`, and the text of an ID it
        hands out for `text` is `text`. */
    ghost predicate Consistent() {
      (forall text :: symbolId(text).Some? ==>
         symbolId(text).value < End() && symbolText(symbolId(text).value) == Some(text)) &&
      (forall id :: symbolText(id).Some? ==> id < End())
    }
  }
}
