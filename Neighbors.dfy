/**
 * Finding pokemon nearby (index.js:74-110): the heartbeat scan, which renames species-table
 * entries in place, and the waterfall that logs in, moves the trainer, reads the book, scans and filters.
 */
module Neighbors {
  import opened Wrappers
  import opened Failures
  import opened FindMyIphone
  import opened Pokedex
  import Seqs

  /** One pokemon reported in a heartbeat cell; only its pokedex number is read. */
  datatype NearbyPokemon = NearbyPokemon(pokedexNumber: int)

  /** A heartbeat cell and the pokemon it reports nearby. */
  datatype Cell = Cell(nearbyPokemon: seq<NearbyPokemon>)

  /** An entry of the game client's species table (`trainer.pokemonlist`). */
  datatype Species = Species(id: int, name: Option<string>, img: string)

  predicate Reports(c: Cell) {
    c.nearbyPokemon != []
  }

  /** The number the scan reads from a reporting cell: that of `NearbyPokemon[0]` only. */
  function FirstNumber(c: Cell): int
    requires Reports(c)
  {
    c.nearbyPokemon[0].pokedexNumber
  }

  /** `pokemonNames[id]`: absent (`undefined`) when the locale table has no such key. */
  function LocalName(names: map<int, string>, id: int): Option<string> {
    if id in names then Some(names[id]) else None
  }

  /** A species entry after `pokemon.name = pokemonNames[pokemon.id]`. */
  function Localized(s: Species, names: map<int, string>): Species {
    s.(name := LocalName(names, s.id))
  }

  /**
   * The pokemon pushed while the loop visits cells `|cells| - 1` down to `k`, or the failure that ends it:
   * a reporting cell whose number has no entry in the table.
   */
  function ScanAbove(cells: seq<Cell>, k: nat, table: seq<Species>, names: map<int, string>): Result<seq<Species>, Failure>
    requires k <= |cells|
    decreases |cells| - k
  {
    if k == |cells| then Ok([])
    else
      match ScanAbove(cells, k + 1, table, names)
      case Err(e) => Err(e)
      case Ok(found) =>
        if !Reports(cells[k]) then Ok(found)
        else
          var n := FirstNumber(cells[k]);
          if 1 <= n <= |table| then Ok(found + [Localized(table[n - 1], names)])
          else Err(SpeciesUndefined(n))
  }

  /** The scan of a whole heartbeat, against the table as it was before the scan. */
  function Scan(cells: seq<Cell>, table: seq<Species>, names: map<int, string>): Result<seq<Species>, Failure> {
    ScanAbove(cells, 0, table, names)
  }

  /** The table positions renamed while the loop visits cells `|cells| - 1` down to `k`, up to a failure. */
  function TouchedAbove(cells: seq<Cell>, k: nat, table: seq<Species>, names: map<int, string>): set<int>
    requires k <= |cells|
    decreases |cells| - k
  {
    if k == |cells| then {}
    else
      var t := TouchedAbove(cells, k + 1, table, names);
      if ScanAbove(cells, k + 1, table, names).Err? || !Reports(cells[k]) then t
      else
        var n := FirstNumber(cells[k]);
        if 1 <= n <= |table| then t + {n - 1} else t
  }

  /** `table` with the entries at `touched` renamed. */
  function Renamed(table: seq<Species>, touched: set<int>, names: map<int, string>): seq<Species> {
    seq(|table|, j requires 0 <= j < |table| => if j in touched then Localized(table[j], names) else table[j])
  }

  /** The species table after a scan. */
  function AfterScan(cells: seq<Cell>, table: seq<Species>, names: map<int, string>): seq<Species> {
    Renamed(table, TouchedAbove(cells, 0, table, names), names)
  }

  /** The indices of the reporting cells among `cells[k..]`, highest first. */
  function ReportingAbove(cells: seq<Cell>, k: nat): seq<nat>
    requires k <= |cells|
    decreases |cells| - k
  {
    if k == |cells| then []
    else ReportingAbove(cells, k + 1) + (if Reports(cells[k]) then [k] else [])
  }

  /** The indices of the reporting cells, in the order the loop visits them. */
  function Reporting(cells: seq<Cell>): seq<nat> {
    ReportingAbove(cells, 0)
  }

  /** A failed scan stays failed as the loop moves down, and renames nothing more. */
  lemma {:induction false} ScanFailureSticks(cells: seq<Cell>, j: nat, k: nat, table: seq<Species>, names: map<int, string>)
    requires j <= k <= |cells|
    requires ScanAbove(cells, k, table, names).Err?
    ensures ScanAbove(cells, j, table, names) == ScanAbove(cells, k, table, names)
    ensures TouchedAbove(cells, j, table, names) == TouchedAbove(cells, k, table, names)
    decreases k - j
  {
    if j < k {
      ScanFailureSticks(cells, j + 1, k, table, names);
    }
  }

  /**
   * `getNeighbors`: a heartbeat error is passed on; otherwise the cells are visited from the last to the first,
   * and for each reporting cell the table entry of its first pokemon is renamed in place and pushed.
   */
  method GetNeighbors(heartbeat: Result<seq<Cell>, string>, table: array<Species>, names: map<int, string>)
      returns (r: Result<seq<Species>, Failure>)
    modifies table
    ensures heartbeat.Err? ==> r == Err(Reported(heartbeat.error)) && table[..] == old(table[..])
    ensures heartbeat.Ok? ==> r == Scan(heartbeat.value, old(table[..]), names)
    ensures heartbeat.Ok? ==> table[..] == AfterScan(heartbeat.value, old(table[..]), names)
  {
    if heartbeat.Err? {
      return Err(Reported(heartbeat.error));
    }
    var cells := heartbeat.value;
    ghost var t0 := table[..];
    var pokemons: seq<Species> := [];
    var i := |cells| - 1;
    assert table[..] == Renamed(t0, {}, names);
    while i >= 0
      invariant -1 <= i < |cells|
      invariant ScanAbove(cells, i + 1, t0, names) == Ok(pokemons)
      invariant table[..] == Renamed(t0, TouchedAbove(cells, i + 1, t0, names), names)
    {
      if cells[i].nearbyPokemon != [] {
        var pokemonId := cells[i].nearbyPokemon[0].pokedexNumber;
        if !(1 <= pokemonId <= table.Length) {
          ScanFailureSticks(cells, 0, i, t0, names);
          return Err(SpeciesUndefined(pokemonId));
        }
        ghost var touched := TouchedAbove(cells, i + 1, t0, names);
        var pokemon := table[pokemonId - 1];
        assert Localized(pokemon, names) == Localized(t0[pokemonId - 1], names);
        pokemon := pokemon.(name := LocalName(names, pokemon.id));
        table[pokemonId - 1] := pokemon;
        pokemons := pokemons + [pokemon];
        assert table[..] == Renamed(t0, touched + {pokemonId - 1}, names);
      }
      i := i - 1;
    }
    r := Ok(pokemons);
  }

  /** The reporting cells are listed from the highest index down, each exactly once. */
  lemma {:induction false} ReportingAboveSpec(cells: seq<Cell>, k: nat)
    requires k <= |cells|
    ensures forall a, b :: 0 <= a < b < |ReportingAbove(cells, k)| ==> ReportingAbove(cells, k)[a] > ReportingAbove(cells, k)[b]
    ensures forall i :: i in ReportingAbove(cells, k) <==> k <= i < |cells| && Reports(cells[i])
    decreases |cells| - k
  {
    if k < |cells| {
      ReportingAboveSpec(cells, k + 1);
      var above := ReportingAbove(cells, k + 1);
      forall a | 0 <= a < |above| ensures above[a] > k {
        assert above[a] in above;
      }
    }
  }

  /** The scan of the cells from `k` up fails exactly when one of them reports a number outside `1..|table|`. */
  lemma {:induction false} ScanAboveFails(cells: seq<Cell>, k: nat, table: seq<Species>, names: map<int, string>)
    requires k <= |cells|
    ensures ScanAbove(cells, k, table, names).Err? <==>
      exists i :: k <= i < |cells| && Reports(cells[i]) && !(1 <= FirstNumber(cells[i]) <= |table|)
    decreases |cells| - k
  {
    if k < |cells| {
      ScanAboveFails(cells, k + 1, table, names);
      if ScanAbove(cells, k, table, names).Ok? {
        forall i | k <= i < |cells| && Reports(cells[i]) ensures 1 <= FirstNumber(cells[i]) <= |table| {
          if i == k {
            assert ScanAbove(cells, k + 1, table, names).Ok?;
          }
        }
      }
    }
  }

  /**
   * A successful scan of the cells from `k` up yields one pokemon per reporting cell, highest cell first:
   * the localized table entry of the cell's first number.
   */
  lemma {:induction false} ScanAboveSpec(cells: seq<Cell>, k: nat, table: seq<Species>, names: map<int, string>)
    requires k <= |cells|
    ensures ScanAbove(cells, k, table, names).Ok? ==>
      var found := ScanAbove(cells, k, table, names).value;
      var idx := ReportingAbove(cells, k);
      && |found| == |idx|
      && forall m :: 0 <= m < |idx| ==>
           k <= idx[m] < |cells| && Reports(cells[idx[m]]) && 1 <= FirstNumber(cells[idx[m]]) <= |table|
           && found[m] == Localized(table[FirstNumber(cells[idx[m]]) - 1], names)
    decreases |cells| - k
  {
    if k < |cells| && ScanAbove(cells, k, table, names).Ok? {
      ScanAboveSpec(cells, k + 1, table, names);
      var before := ScanAbove(cells, k + 1, table, names).value;
      var idxBefore := ReportingAbove(cells, k + 1);
      var found := ScanAbove(cells, k, table, names).value;
      var idx := ReportingAbove(cells, k);
      if Reports(cells[k]) {
        var n := FirstNumber(cells[k]);
        assert found == before + [Localized(table[n - 1], names)];
        assert idx == idxBefore + [k];
      } else {
        assert found == before && idx == idxBefore;
      }
    }
  }

  /**
   * The scan of a heartbeat: it fails exactly when a reporting cell names a number with no table entry;
   * otherwise it yields exactly one pokemon per reporting cell, in decreasing cell order, resolved from
   * `NearbyPokemon[0]` alone and localized.
   */
  lemma ScanSpec(cells: seq<Cell>, table: seq<Species>, names: map<int, string>)
    ensures Scan(cells, table, names).Err? <==>
      exists i :: 0 <= i < |cells| && Reports(cells[i]) && !(1 <= FirstNumber(cells[i]) <= |table|)
    ensures Scan(cells, table, names).Ok? ==>
      var found := Scan(cells, table, names).value;
      var idx := Reporting(cells);
      && |found| == |idx|
      && (forall m :: 0 <= m < |idx| ==>
            idx[m] < |cells| && Reports(cells[idx[m]]) && 1 <= FirstNumber(cells[idx[m]]) <= |table|
            && found[m] == Localized(table[FirstNumber(cells[idx[m]]) - 1], names))
      && (forall a, b :: 0 <= a < b < |idx| ==> idx[a] > idx[b])
      && (forall i :: 0 <= i < |cells| && Reports(cells[i]) ==> i in idx)
  {
    ScanAboveFails(cells, 0, table, names);
    ScanAboveSpec(cells, 0, table, names);
    ReportingAboveSpec(cells, 0);
  }

  /** With cells `[c0, c1, c2]` where only `c1` and `c2` report, the scan yields `c2`'s pokemon, then `c1`'s. */
  lemma ScanThreeCells(table: seq<Species>, names: map<int, string>, n1: int, n2: int)
    requires 1 <= n1 <= |table| && 1 <= n2 <= |table|
    ensures Scan([Cell([]), Cell([NearbyPokemon(n1)]), Cell([NearbyPokemon(n2), NearbyPokemon(n1)])], table, names)
      == Ok([Localized(table[n2 - 1], names), Localized(table[n1 - 1], names)])
  {
    var cells := [Cell([]), Cell([NearbyPokemon(n1)]), Cell([NearbyPokemon(n2), NearbyPokemon(n1)])];
    assert ScanAbove(cells, 3, table, names) == Ok([]);
    assert Reports(cells[2]) && FirstNumber(cells[2]) == n2;
    assert ScanAbove(cells, 2, table, names) == Ok([] + [Localized(table[n2 - 1], names)]);
    assert [] + [Localized(table[n2 - 1], names)] == [Localized(table[n2 - 1], names)];
    assert Reports(cells[1]) && FirstNumber(cells[1]) == n1;
    assert ScanAbove(cells, 1, table, names) == Ok([Localized(table[n2 - 1], names)] + [Localized(table[n1 - 1], names)]);
    assert [Localized(table[n2 - 1], names)] + [Localized(table[n1 - 1], names)]
      == [Localized(table[n2 - 1], names), Localized(table[n1 - 1], names)];
  }

  /** Every reporting cell from `i` up names a pokedex number that has an entry in the table. */
  predicate ResolvesFrom(cells: seq<Cell>, i: nat, table: seq<Species>) {
    forall i' :: i <= i' < |cells| && Reports(cells[i']) ==> 1 <= FirstNumber(cells[i']) <= |table|
  }

  /**
   * The positions renamed while the loop visits cells `|cells| - 1` down to `k`: position `j` is renamed exactly
   * when a visited reporting cell names `j + 1` and no reporting cell from it up (itself included) names a number
   * with no table entry, i.e. the cell was reached before any failure. After a successful scan that is every
   * visited reporting cell.
   */
  lemma {:induction false} TouchedAboveSpec(cells: seq<Cell>, k: nat, table: seq<Species>, names: map<int, string>)
    requires k <= |cells|
    ensures forall j :: j in TouchedAbove(cells, k, table, names) ==> 0 <= j < |table|
    ensures forall j :: j in TouchedAbove(cells, k, table, names) <==>
      exists i :: k <= i < |cells| && Reports(cells[i]) && FirstNumber(cells[i]) == j + 1 && ResolvesFrom(cells, i, table)
    ensures ScanAbove(cells, k, table, names).Ok? ==>
      forall j :: j in TouchedAbove(cells, k, table, names) <==>
        exists i :: k <= i < |cells| && Reports(cells[i]) && FirstNumber(cells[i]) == j + 1
    decreases |cells| - k
  {
    ScanAboveFails(cells, k, table, names);
    if k < |cells| {
      TouchedAboveSpec(cells, k + 1, table, names);
      ScanAboveFails(cells, k + 1, table, names);
      var t := TouchedAbove(cells, k + 1, table, names);
      var touched := TouchedAbove(cells, k, table, names);
      assert t <= touched;
      forall j ensures j in touched <==>
        exists i :: k <= i < |cells| && Reports(cells[i]) && FirstNumber(cells[i]) == j + 1 && ResolvesFrom(cells, i, table)
      {
        if j in touched && j !in t {
          assert ResolvesFrom(cells, k, table);
        }
        if exists i :: k <= i < |cells| && Reports(cells[i]) && FirstNumber(cells[i]) == j + 1 && ResolvesFrom(cells, i, table) {
          var i :| k <= i < |cells| && Reports(cells[i]) && FirstNumber(cells[i]) == j + 1 && ResolvesFrom(cells, i, table);
          if i > k {
            assert j in t;
          } else {
            assert ResolvesFrom(cells, k + 1, table);
          }
        }
      }
    }
  }

  /**
   * Exactly the entries that some reporting cell reached before any failure resolved to carry their locale name;
   * after a successful scan, that is every entry some reporting cell resolved to.
   */
  lemma AfterScanSpec(cells: seq<Cell>, table: seq<Species>, names: map<int, string>)
    ensures |AfterScan(cells, table, names)| == |table|
    ensures forall j :: 0 <= j < |table| ==>
      var e := AfterScan(cells, table, names)[j];
      e.id == table[j].id && e.img == table[j].img && (e.name == table[j].name || e.name == LocalName(names, table[j].id))
    ensures forall j :: 0 <= j < |table| ==>
      AfterScan(cells, table, names)[j] ==
        if exists i :: 0 <= i < |cells| && Reports(cells[i]) && FirstNumber(cells[i]) == j + 1 && ResolvesFrom(cells, i, table)
        then Localized(table[j], names) else table[j]
    ensures Scan(cells, table, names).Ok? ==> forall j :: 0 <= j < |table| ==>
      AfterScan(cells, table, names)[j] ==
        if exists i :: 0 <= i < |cells| && Reports(cells[i]) && FirstNumber(cells[i]) == j + 1
        then Localized(table[j], names) else table[j]
  {
    TouchedAboveSpec(cells, 0, table, names);
  }

  /**
   * The condition of the sighting filter at index.js:104-106. As written it keeps the pokemon whose id the book
   * CONTAINS, although the enclosing `getNeighborsNotCaught` is named for the ones not caught; the model keeps
   * the code's condition.
   */
  function CaughtIn(book: Book): Species -> bool {
    (p: Species) => book.Contain(p.id)
  }

  /** `pokemons.filter(p => book.contain(p.id))`. */
  function KeepCaught(pokemons: seq<Species>, book: Book): seq<Species> {
    Seqs.Filter(pokemons, CaughtIn(book))
  }

  /**
   * The filter's output is a subsequence of its input in the same relative order, and a pokemon is kept
   * exactly when the book contains its id; nothing is added or reordered.
   */
  lemma KeepCaughtSpec(pokemons: seq<Species>, book: Book)
    ensures var kept := KeepCaught(pokemons, book);
      var idx := Seqs.Indices(pokemons, CaughtIn(book));
      && |kept| == |idx|
      && Seqs.StrictlyIncreasing(idx)
      && (forall m :: 0 <= m < |idx| ==> idx[m] < |pokemons| && kept[m] == pokemons[idx[m]])
      && (forall i :: 0 <= i < |pokemons| ==> (i in idx <==> book.Contain(pokemons[i].id)))
  {
    Seqs.FilterIsSubsequence(pokemons, CaughtIn(book));
  }

  /** The calls the run makes on the game session, in order. */
  datatype GameCall = Login | SetLocation(coords: Coords) | GetInventory | Heartbeat

  /** What the game session answers to each call of one run. */
  datatype Session = Session(
    login: Result<(), string>,
    setLocation: Result<(), string>,
    inventory: Result<seq<InventoryItem>, string>,
    heartbeat: Result<seq<Cell>, string>)

  /** What `getNeighborsNotCaught` did: the session calls made, its result, and the species table afterwards. */
  datatype NeighborsReport = NeighborsReport(calls: seq<GameCall>, result: Result<seq<Species>, Failure>, table: seq<Species>)

  /**
   * The waterfall of `getNeighborsNotCaught`: log in, move to `location`, read the book, scan, filter;
   * the first stage that fails ends it with that stage's failure and no later call is made.
   */
  function NotCaught(location: Coords, session: Session, table: seq<Species>, names: map<int, string>): NeighborsReport {
    if session.login.Err? then
      NeighborsReport([Login], Err(Reported(session.login.error)), table)
    else if session.setLocation.Err? then
      NeighborsReport([Login, SetLocation(location)], Err(Reported(session.setLocation.error)), table)
    else
      match GetPokemonBook(session.inventory)
      case Err(e) => NeighborsReport([Login, SetLocation(location), GetInventory], Err(e), table)
      case Ok(book) =>
        var calls := [Login, SetLocation(location), GetInventory, Heartbeat];
        match session.heartbeat
        case Err(e) => NeighborsReport(calls, Err(Reported(e)), table)
        case Ok(cells) =>
          var after := AfterScan(cells, table, names);
          match Scan(cells, table, names)
          case Err(e) => NeighborsReport(calls, Err(e), after)
          case Ok(found) => NeighborsReport(calls, Ok(KeepCaught(found, book)), after)
  }

  /** `getNeighborsNotCaught`, with each session call's answer taken from `session`. */
  method GetNeighborsNotCaught(location: Coords, session: Session, table: array<Species>, names: map<int, string>)
      returns (calls: seq<GameCall>, r: Result<seq<Species>, Failure>)
    modifies table
    ensures var report := NotCaught(location, session, old(table[..]), names);
      calls == report.calls && r == report.result && table[..] == report.table
  {
    calls := [Login];
    if session.login.Err? {
      return calls, Err(Reported(session.login.error));
    }
    calls := calls + [SetLocation(location)];
    if session.setLocation.Err? {
      return calls, Err(Reported(session.setLocation.error));
    }
    calls := calls + [GetInventory];
    var book := GetPokemonBook(session.inventory);
    if book.Err? {
      return calls, Err(book.error);
    }
    calls := calls + [Heartbeat];
    var pokemons := GetNeighbors(session.heartbeat, table, names);
    if pokemons.Err? {
      return calls, Err(pokemons.error);
    }
    r := Ok(KeepCaught(pokemons.value, book.value));
  }

  /** Every pokemon the waterfall returns was found by the scan and is contained in the book built from the inventory. */
  lemma NotCaughtSpec(location: Coords, session: Session, table: seq<Species>, names: map<int, string>)
    ensures var report := NotCaught(location, session, table, names);
      report.result.Ok? ==>
        && session.login.Ok? && session.setLocation.Ok? && session.inventory.Ok? && session.heartbeat.Ok?
        && report.calls == [Login, SetLocation(location), GetInventory, Heartbeat]
        && Scan(session.heartbeat.value, table, names).Ok?
        && var book := Book(PokedexOf(session.inventory.value));
           report.result.value == KeepCaught(Scan(session.heartbeat.value, table, names).value, book)
           && forall p :: p in report.result.value ==>
                p in Scan(session.heartbeat.value, table, names).value && book.Contain(p.id)
  {
  }
}
