/** The Lambda handler (index.js:165-192): locate the phone, find pokemon nearby, post them one at a time. */
module Lambda {
  import opened Wrappers
  import opened Failures
  import opened FindMyIphone
  import opened Pokedex
  import opened Neighbors
  import opened Slack
  import Seqs

  /** What the posting loop did: the messages posted in order, the replies logged as rejections, its outcome. */
  datatype DispatchReport = DispatchReport(posted: seq<Message>, logged: seq<Reply>, outcome: Result<(), Failure>)

  /** The loop after it has handled `pokemons[..k]`; `replies(i)` is the reply to the i-th post. */
  function DispatchUpTo(pokemons: seq<Species>, k: nat, hookUrl: string, replies: nat -> Reply): DispatchReport
    requires k <= |pokemons|
    decreases k
  {
    if k == 0 then DispatchReport([], [], Ok(()))
    else
      var d := DispatchUpTo(pokemons, k - 1, hookUrl, replies);
      if d.outcome.Err? then d
      else
        var m := BuildMessage(pokemons[k - 1], hookUrl);
        match Classify(replies(k - 1))
        case Delivered => d.(posted := d.posted + [m])
        case Rejected => d.(posted := d.posted + [m], logged := d.logged + [replies(k - 1)])
        case Aborted(f) => DispatchReport(d.posted + [m], d.logged, Err(f))
  }

  /** `async.eachSeries(pokemons, postPokemonToSlack)`. */
  function Dispatch(pokemons: seq<Species>, hookUrl: string, replies: nat -> Reply): DispatchReport {
    DispatchUpTo(pokemons, |pokemons|, hookUrl, replies)
  }

  /** Once the loop has stopped on a failure, handling more candidates changes nothing. */
  lemma {:induction false} DispatchFailureSticks(pokemons: seq<Species>, k: nat, j: nat, hookUrl: string, replies: nat -> Reply)
    requires k <= j <= |pokemons|
    requires DispatchUpTo(pokemons, k, hookUrl, replies).outcome.Err?
    ensures DispatchUpTo(pokemons, j, hookUrl, replies) == DispatchUpTo(pokemons, k, hookUrl, replies)
    decreases j - k
  {
    if k < j {
      DispatchFailureSticks(pokemons, k, j - 1, hookUrl, replies);
    }
  }

  /** The posting loop: one post at a time, in order, stopping at the first reply that ends the run. */
  method EachSeries(pokemons: seq<Species>, hookUrl: string, replies: nat -> Reply)
      returns (posted: seq<Message>, logged: seq<Reply>, outcome: Result<(), Failure>)
    ensures DispatchReport(posted, logged, outcome) == Dispatch(pokemons, hookUrl, replies)
  {
    posted, logged := [], [];
    var i := 0;
    while i < |pokemons|
      invariant 0 <= i <= |pokemons|
      invariant DispatchUpTo(pokemons, i, hookUrl, replies) == DispatchReport(posted, logged, Ok(()))
    {
      var (message, verdict) := PostPokemonToSlack(pokemons[i], hookUrl, replies(i));
      posted := posted + [message];
      match verdict {
        case Delivered =>
        case Rejected =>
          logged := logged + [replies(i)];
        case Aborted(f) =>
          DispatchFailureSticks(pokemons, i + 1, |pokemons|, hookUrl, replies);
          return posted, logged, Err(f);
      }
      i := i + 1;
    }
    outcome := Ok(());
  }

  /** A reply after which the loop goes on to the next candidate. */
  predicate Continues(reply: Reply) {
    reply.Response? && reply.statusCode < 500
  }

  /** A reply that is logged as a rejected post. */
  predicate IsRejection(reply: Reply) {
    reply.Response? && 400 <= reply.statusCode < 500
  }

  /** The replies to the first `n` posts. */
  function Received(replies: nat -> Reply, n: nat): seq<Reply> {
    seq(n, i requires 0 <= i < n => replies(i))
  }

  /** One more candidate, while the loop is still going: one more post, its reply logged if a 4xx, the run ended if not below 500. */
  lemma DispatchStep(pokemons: seq<Species>, k: nat, hookUrl: string, replies: nat -> Reply)
    requires 0 < k <= |pokemons|
    requires DispatchUpTo(pokemons, k - 1, hookUrl, replies).outcome.Ok?
    ensures var d := DispatchUpTo(pokemons, k - 1, hookUrl, replies);
      var next := DispatchUpTo(pokemons, k, hookUrl, replies);
      var reply := replies(k - 1);
      && next.posted == d.posted + [BuildMessage(pokemons[k - 1], hookUrl)]
      && next.logged == d.logged + (if IsRejection(reply) then [reply] else [])
      && (next.outcome.Ok? <==> Continues(reply))
      && (next.outcome.Err? ==> Classify(reply) == Aborted(next.outcome.error))
  {
  }

  /** The loop posts at most one message per candidate, and one for every candidate when no reply ends the run. */
  lemma {:induction false} DispatchPostedCount(pokemons: seq<Species>, k: nat, hookUrl: string, replies: nat -> Reply)
    requires k <= |pokemons|
    ensures var d := DispatchUpTo(pokemons, k, hookUrl, replies);
      |d.posted| <= k && (d.outcome.Ok? ==> |d.posted| == k)
    decreases k
  {
    if k > 0 {
      DispatchPostedCount(pokemons, k - 1, hookUrl, replies);
      if DispatchUpTo(pokemons, k - 1, hookUrl, replies).outcome.Ok? {
        DispatchStep(pokemons, k, hookUrl, replies);
      }
    }
  }

  /** The loop posts the candidates' messages in candidate order, every one of them when no reply ends the run. */
  lemma {:induction false} DispatchPostsInOrder(pokemons: seq<Species>, k: nat, hookUrl: string, replies: nat -> Reply)
    requires k <= |pokemons|
    ensures var d := DispatchUpTo(pokemons, k, hookUrl, replies);
      forall i :: 0 <= i < |d.posted| ==> i < k && d.posted[i] == BuildMessage(pokemons[i], hookUrl)
    ensures var d := DispatchUpTo(pokemons, k, hookUrl, replies);
      d.outcome.Ok? ==> |d.posted| == k
    decreases k
  {
    DispatchPostedCount(pokemons, k, hookUrl, replies);
    if k > 0 {
      DispatchPostsInOrder(pokemons, k - 1, hookUrl, replies);
      var d := DispatchUpTo(pokemons, k - 1, hookUrl, replies);
      if d.outcome.Ok? {
        DispatchPostedCount(pokemons, k - 1, hookUrl, replies);
        DispatchStep(pokemons, k, hookUrl, replies);
        var posted := DispatchUpTo(pokemons, k, hookUrl, replies).posted;
        var m := BuildMessage(pokemons[k - 1], hookUrl);
        assert posted == d.posted + [m];
        forall i | 0 <= i < |posted| ensures i < k && posted[i] == BuildMessage(pokemons[i], hookUrl) {
          if i < k - 1 {
            assert posted[i] == d.posted[i];
          }
        }
      }
    }
  }

  /** None of the first `n` replies ends the run. */
  predicate AllContinue(replies: nat -> Reply, n: int) {
    forall i :: 0 <= i < n ==> Continues(replies(i))
  }

  /**
   * The loop goes on after every reply below 500 and stops right after the first other reply, whose failure
   * is the outcome; it succeeds exactly when no reply to a candidate's post stopped it.
   */
  lemma {:induction false} DispatchStopsAtFirstFailure(pokemons: seq<Species>, k: nat, hookUrl: string, replies: nat -> Reply)
    requires k <= |pokemons|
    ensures var d := DispatchUpTo(pokemons, k, hookUrl, replies);
      && AllContinue(replies, |d.posted| - 1)
      && (d.outcome.Ok? <==> AllContinue(replies, k))
      && (d.outcome.Err? ==> |d.posted| >= 1 && Classify(replies(|d.posted| - 1)) == Aborted(d.outcome.error))
    decreases k
  {
    if k > 0 {
      DispatchStopsAtFirstFailure(pokemons, k - 1, hookUrl, replies);
      var d := DispatchUpTo(pokemons, k - 1, hookUrl, replies);
      if d.outcome.Ok? {
        DispatchPostedCount(pokemons, k - 1, hookUrl, replies);
        DispatchStep(pokemons, k, hookUrl, replies);
        assert AllContinue(replies, k) <==> AllContinue(replies, k - 1) && Continues(replies(k - 1));
      } else {
        assert DispatchUpTo(pokemons, k, hookUrl, replies) == d;
        assert !AllContinue(replies, k);
      }
    }
  }

  /** The 4xx replies among the first `n`, in order. */
  function Rejections(replies: nat -> Reply, n: nat): seq<Reply>
    decreases n
  {
    if n == 0 then []
    else Rejections(replies, n - 1) + (if IsRejection(replies(n - 1)) then [replies(n - 1)] else [])
  }

  /** The loop logs exactly the 4xx replies among those its posts received, in order. */
  lemma {:induction false} DispatchLogsRejections(pokemons: seq<Species>, k: nat, hookUrl: string, replies: nat -> Reply)
    requires k <= |pokemons|
    ensures var d := DispatchUpTo(pokemons, k, hookUrl, replies);
      d.logged == Rejections(replies, |d.posted|)
    decreases k
  {
    if k > 0 {
      DispatchLogsRejections(pokemons, k - 1, hookUrl, replies);
      var d := DispatchUpTo(pokemons, k - 1, hookUrl, replies);
      if d.outcome.Ok? {
        DispatchPostedCount(pokemons, k - 1, hookUrl, replies);
        DispatchStep(pokemons, k, hookUrl, replies);
      }
    }
  }

  /** `Rejections` is the filter of the received replies by "is a 4xx response". */
  lemma {:induction false} RejectionsFilter(replies: nat -> Reply, n: nat)
    ensures Rejections(replies, n) == Seqs.Filter(Received(replies, n), IsRejection)
    decreases n
  {
    if n == 0 {
      assert Received(replies, 0) == [];
    } else {
      RejectionsFilter(replies, n - 1);
      var received := Received(replies, n);
      assert received[..n - 1] == Received(replies, n - 1);
    }
  }

  /**
   * The whole posting loop: messages in candidate order, going on after replies below 500, stopping after
   * the first other one with its failure, succeeding exactly when no reply stopped it, logging the 4xx replies.
   */
  lemma DispatchSpec(pokemons: seq<Species>, hookUrl: string, replies: nat -> Reply)
    ensures var d := Dispatch(pokemons, hookUrl, replies);
      var n := |d.posted|;
      && n <= |pokemons|
      && (forall i :: 0 <= i < n ==> d.posted[i] == BuildMessage(pokemons[i], hookUrl))
      && AllContinue(replies, n - 1)
      && (d.outcome.Ok? <==> n == |pokemons| && AllContinue(replies, |pokemons|))
      && (d.outcome.Err? ==> n >= 1 && Classify(replies(n - 1)) == Aborted(d.outcome.error))
      && d.logged == Seqs.Filter(Received(replies, n), IsRejection)
  {
    DispatchPostedCount(pokemons, |pokemons|, hookUrl, replies);
    DispatchPostsInOrder(pokemons, |pokemons|, hookUrl, replies);
    DispatchStopsAtFirstFailure(pokemons, |pokemons|, hookUrl, replies);
    DispatchLogsRejections(pokemons, |pokemons|, hookUrl, replies);
    RejectionsFilter(replies, |Dispatch(pokemons, hookUrl, replies).posted|);
  }

  /** A 404 on the first post is logged and the second candidate is still posted. */
  lemma DispatchAfterNotFound(a: Species, b: Species, hookUrl: string, replies: nat -> Reply)
    requires replies(0) == Response(404, "Not Found")
    requires replies(1).Response? && replies(1).statusCode < 400
    ensures Dispatch([a, b], hookUrl, replies)
      == DispatchReport([BuildMessage(a, hookUrl), BuildMessage(b, hookUrl)], [Response(404, "Not Found")], Ok(()))
  {
    assert DispatchUpTo([a, b], 1, hookUrl, replies)
      == DispatchReport([BuildMessage(a, hookUrl)], [Response(404, "Not Found")], Ok(()));
  }

  /** A 503 on the first post ends the run with the ReferenceError and the second candidate is never posted. */
  lemma DispatchAfterUnavailable(a: Species, b: Species, hookUrl: string, replies: nat -> Reply)
    requires replies(0) == Response(503, "Service Unavailable")
    ensures Dispatch([a, b], hookUrl, replies) == DispatchReport([BuildMessage(a, hookUrl)], [], Err(CallbackUndefined))
  {
    assert DispatchUpTo([a, b], 1, hookUrl, replies) == DispatchReport([BuildMessage(a, hookUrl)], [], Err(CallbackUndefined));
  }

  /** The inputs of one run: configuration, the locale table, and every collaborator's answer. */
  datatype Environment = Environment(
    deviceName: string,
    hookUrl: string,
    names: map<int, string>,
    devices: Result<seq<Device>, string>,
    session: Session,
    replies: nat -> Reply)

  /** What a run did: session calls, posts, logged rejections, its outcome, and the species table afterwards. */
  datatype RunReport = RunReport(
    calls: seq<GameCall>,
    posted: seq<Message>,
    logged: seq<Reply>,
    outcome: Result<(), Failure>,
    table: seq<Species>)

  /**
   * The handler's waterfall: the location, then the pokemon nearby that pass the filter, then the posts;
   * the first failure ends the run (`context.fail`), and `Ok` stands for `context.succeed`.
   */
  function Run(env: Environment, table: seq<Species>): RunReport {
    match FindMyLocation(env.devices, env.deviceName)
    case Err(e) => RunReport([], [], [], Err(e), table)
    case Ok(None) => RunReport([], [], [], Err(NoLocation), table)
    case Ok(Some(location)) =>
      var neighbors := NotCaught(location, env.session, table, env.names);
      match neighbors.result
      case Err(e) => RunReport(neighbors.calls, [], [], Err(e), neighbors.table)
      case Ok(pokemons) =>
        var d := Dispatch(pokemons, env.hookUrl, env.replies);
        RunReport(neighbors.calls, d.posted, d.logged, d.outcome, neighbors.table)
  }

  /** `exports.handler`, with every collaborator's answer taken from `env`. */
  method Handler(env: Environment, table: array<Species>)
      returns (calls: seq<GameCall>, posted: seq<Message>, logged: seq<Reply>, outcome: Result<(), Failure>)
    modifies table
    ensures var report := Run(env, old(table[..]));
      && calls == report.calls && posted == report.posted && logged == report.logged
      && outcome == report.outcome && table[..] == report.table
  {
    var myLocation := FindMyLocation(env.devices, env.deviceName);
    if myLocation.Err? {
      return [], [], [], Err(myLocation.error);
    }
    if myLocation.value.None? {
      return [], [], [], Err(NoLocation);
    }
    var pokemons;
    calls, pokemons := GetNeighborsNotCaught(myLocation.value.value, env.session, table, env.names);
    if pokemons.Err? {
      return calls, [], [], Err(pokemons.error);
    }
    posted, logged, outcome := EachSeries(pokemons.value, env.hookUrl, env.replies);
  }

  /**
   * Without a matching device the run makes no session call and no post and does not succeed;
   * the session is moved to exactly the location of the first matching device.
   */
  lemma RunLocation(env: Environment, table: seq<Species>)
    ensures var r := Run(env, table);
      && (FindMyLocation(env.devices, env.deviceName) == Ok(None) ==>
            r.calls == [] && r.posted == [] && r.outcome == Err(NoLocation) && r.table == table)
      && (|r.calls| >= 2 ==>
            exists i :: && env.devices.Ok? && 0 <= i < |env.devices.value|
                        && IsMine(env.deviceName, env.devices.value[i])
                        && (forall j :: 0 <= j < i ==> !IsMine(env.deviceName, env.devices.value[j]))
                        && r.calls[1] == SetLocation(env.devices.value[i].location.value))
  {
    FindMyLocationFirstMatch(env.devices, env.deviceName);
    var r := Run(env, table);
    if |r.calls| >= 2 {
      var location :| FindMyLocation(env.devices, env.deviceName) == Ok(Some(location));
      assert r.calls[1] == SetLocation(location);
    }
  }

  /**
   * Every post of a run is the message for a pokemon the scan found and the book contains, in scan order,
   * and the posts stop at the first reply that ends the run.
   */
  lemma RunPosts(env: Environment, table: seq<Species>)
    ensures var r := Run(env, table);
      r.posted != [] ==>
        && env.session.inventory.Ok? && env.session.heartbeat.Ok?
        && Scan(env.session.heartbeat.value, table, env.names).Ok?
        && var book := Book(PokedexOf(env.session.inventory.value));
           var candidates := KeepCaught(Scan(env.session.heartbeat.value, table, env.names).value, book);
           && |r.posted| <= |candidates|
           && (forall i :: 0 <= i < |r.posted| ==>
                 book.Contain(candidates[i].id) && r.posted[i] == BuildMessage(candidates[i], env.hookUrl))
           && AllContinue(env.replies, |r.posted| - 1)
  {
    var r := Run(env, table);
    if r.posted != [] {
      var location :| FindMyLocation(env.devices, env.deviceName) == Ok(Some(location));
      NotCaughtSpec(location, env.session, table, env.names);
      var pokemons := NotCaught(location, env.session, table, env.names).result.value;
      DispatchSpec(pokemons, env.hookUrl, env.replies);
      forall i | 0 <= i < |r.posted| ensures pokemons[i] in pokemons {
      }
    }
  }

  /** The example run's phone, inventory and heartbeat cells. */
  const ExamplePhone := Device(Some(Coords(35.0, 139.0)), "iPhone SE")
  const ExampleInventory := [InventoryItem(Some(PokedexEntry(1)))]
  const ExampleCells := [Cell([NearbyPokemon(1)]), Cell([NearbyPokemon(2)])]

  /**
   * An end-to-end example, run against the code as written: the inventory holds pokedex entry 1 and the heartbeat
   * reports pokemon 1 and 2. A filter for the pokemon not yet caught would post pokemon 2; the filter as written
   * keeps the pokemon the book contains, so the single post is for pokemon 1.
   */
  lemma RunScenario(hookUrl: string, names: map<int, string>, replies: nat -> Reply)
    requires replies(0).Response? && replies(0).statusCode < 400
    ensures var table := [Species(1, Some("Bulbasaur"), "1.png"), Species(2, Some("Ivysaur"), "2.png")];
      var env := Environment(
        "iPhone SE", hookUrl, names, Ok([ExamplePhone]),
        Session(Ok(()), Ok(()), Ok(ExampleInventory), Ok(ExampleCells)),
        replies);
      Run(env, table) == RunReport(
        [Login, SetLocation(Coords(35.0, 139.0)), GetInventory, Heartbeat],
        [BuildMessage(Localized(table[0], names), hookUrl)],
        [],
        Ok(()),
        [Localized(table[0], names), Localized(table[1], names)])
  {
    var table := [Species(1, Some("Bulbasaur"), "1.png"), Species(2, Some("Ivysaur"), "2.png")];
    ScenarioLocation();
    var book := ScenarioBook();
    var p1, p2 := Localized(table[0], names), Localized(table[1], names);
    ScenarioScan(table, names);
    ScenarioFilter(p1, p2, book);
    assert Dispatch([p1], hookUrl, replies) == DispatchReport([BuildMessage(p1, hookUrl)], [], Ok(()));
  }

  lemma ScenarioLocation()
    ensures FindMyLocation(Ok([ExamplePhone]), "iPhone SE") == Ok(Some(Coords(35.0, 139.0)))
  {
    assert [ExamplePhone][..0] == [];
    assert Seqs.Filter([ExamplePhone], IsMineFor("iPhone SE")) == [ExamplePhone];
  }

  lemma ScenarioBook() returns (book: Book)
    ensures GetPokemonBook(Ok(ExampleInventory)) == Ok(book)
    ensures book.Contain(1) && !book.Contain(2)
  {
    var items := ExampleInventory;
    assert items[..0] == [];
    assert Seqs.Filter(items, HasEntry) == items;
    book := Book(PokedexOf(items));
    assert book.pokedex == [PokedexEntry(1)];
  }

  lemma ScenarioScan(table: seq<Species>, names: map<int, string>)
    requires |table| == 2
    ensures Scan(ExampleCells, table, names) == Ok([Localized(table[1], names), Localized(table[0], names)])
    ensures AfterScan(ExampleCells, table, names) == [Localized(table[0], names), Localized(table[1], names)]
  {
    var cells := ExampleCells;
    var p1, p2 := Localized(table[0], names), Localized(table[1], names);
    assert ScanAbove(cells, 2, table, names) == Ok([]);
    assert Reports(cells[1]) && FirstNumber(cells[1]) == 2;
    assert ScanAbove(cells, 1, table, names) == Ok([] + [p2]);
    assert [] + [p2] == [p2];
    assert Reports(cells[0]) && FirstNumber(cells[0]) == 1;
    assert ScanAbove(cells, 0, table, names) == Ok([p2] + [p1]);
    assert [p2] + [p1] == [p2, p1];
    assert TouchedAbove(cells, 2, table, names) == {};
    assert TouchedAbove(cells, 1, table, names) == {1};
    assert TouchedAbove(cells, 0, table, names) == {1} + {0};
  }

  lemma ScenarioFilter(p1: Species, p2: Species, book: Book)
    requires p1.id == 1 && p2.id == 2
    requires book.Contain(1) && !book.Contain(2)
    ensures KeepCaught([p2, p1], book) == [p1]
  {
    assert CaughtIn(book)(p1) && !CaughtIn(book)(p2);
    assert [p2, p1][..1] == [p2];
    assert [p2][..0] == [];
    assert Seqs.Filter([p2], CaughtIn(book)) == [];
  }
}
