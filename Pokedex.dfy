/** The collection snapshot: the pokedex built from the trainer's inventory (index.js:53-72). */
module Pokedex {
  import opened Wrappers
  import opened Failures
  import Seqs

  /** A pokedex entry; only its number is read. */
  datatype PokedexEntry = PokedexEntry(pokedexEntryNumber: int)

  /** An inventory item; items of other kinds (pokemon, items, stats) carry no pokedex entry. */
  datatype InventoryItem = InventoryItem(pokedexEntry: Option<PokedexEntry>)

  predicate HasEntry(i: InventoryItem) {
    i.pokedexEntry.Some?
  }

  /** The book handed to the sighting filter. */
  datatype Book = Book(pokedex: seq<PokedexEntry>) {

    /** `contain(id)`: some pokedex entry has number `id`; total, false for an empty pokedex. */
    function Contain(pokemonId: int): (r: bool)
      ensures r <==> exists k :: 0 <= k < |pokedex| && pokedex[k].pokedexEntryNumber == pokemonId
    {
      Seqs.Any(pokedex, (p: PokedexEntry) => pokemonId == p.pokedexEntryNumber)
    }
  }

  /** `items.filter(has entry).map(entry)`. */
  function PokedexOf(items: seq<InventoryItem>): seq<PokedexEntry> {
    var kept := Seqs.Filter(items, HasEntry);
    seq(|kept|, k requires 0 <= k < |kept| => assert kept[k] in kept; kept[k].pokedexEntry.value)
  }

  /** An inventory fetch error is passed on; otherwise the book over the inventory's pokedex entries. */
  function GetPokemonBook(inventory: Result<seq<InventoryItem>, string>): Result<Book, Failure> {
    match inventory
    case Err(e) => Err(Reported(e))
    case Ok(items) => Ok(Book(PokedexOf(items)))
  }

  /**
   * The pokedex is exactly the entries of the items that carry one, in inventory order:
   * its k-th entry is that of the k-th such item, and items without an entry are skipped.
   */
  lemma PokedexOfSpec(items: seq<InventoryItem>)
    ensures var idx := Seqs.Indices(items, HasEntry);
      && |PokedexOf(items)| == |idx|
      && forall k :: 0 <= k < |idx| ==> Some(PokedexOf(items)[k]) == items[idx[k]].pokedexEntry
  {
    Seqs.FilterIsSubsequence(items, HasEntry);
  }

  /** The book built from an inventory contains `id` exactly when some inventory item has an entry numbered `id`. */
  lemma GetPokemonBookContain(items: seq<InventoryItem>, pokemonId: int)
    ensures GetPokemonBook(Ok(items)).Ok?
    ensures GetPokemonBook(Ok(items)).value.Contain(pokemonId) <==>
      exists i :: 0 <= i < |items| && items[i].pokedexEntry == Some(PokedexEntry(pokemonId))
  {
    var book := GetPokemonBook(Ok(items)).value;
    var idx := Seqs.Indices(items, HasEntry);
    PokedexOfSpec(items);
    if book.Contain(pokemonId) {
      var k :| 0 <= k < |book.pokedex| && book.pokedex[k].pokedexEntryNumber == pokemonId;
      assert items[idx[k]].pokedexEntry == Some(PokedexEntry(pokemonId));
    }
    if i :| 0 <= i < |items| && items[i].pokedexEntry == Some(PokedexEntry(pokemonId)) {
      assert HasEntry(items[i]);
      var k :| 0 <= k < |idx| && idx[k] == i;
      assert book.pokedex[k].pokedexEntryNumber == pokemonId;
    }
  }
}
