# pokemon-radar: a verified model of the Lambda handler

pokemon-radar is one AWS Lambda handler (`index.js`). Each run does four things:

1. It asks iCloud "Find my iPhone" for the devices and uses the location of the configured phone.
2. It logs in to Pokémon GO, moves the trainer to that location, reads the trainer's pokedex and polls a heartbeat.
3. It filters the pokemon seen nearby against the pokedex.
4. It posts one Slack webhook message per remaining pokemon, one at a time.

This project models the logic between the I/O calls. The answer of every collaborator is an input value:
the device list, the game session's answers, the inventory, the heartbeat cells, the species table, the
locale name table, and the reply to each POST. The callback waterfall is sequential composition over `Result`.

Modules, one per part of `index.js`:

- `FindMyIphone`: the device filter and the choice of the first matching device.
- `Pokedex`: the book built from the inventory, and its `contain`.
- `Neighbors`:
  - the heartbeat scan `GetNeighbors`, a loop over the cells from the last to the first that renames
    species-table entries in place (`table` is an `array`);
  - the sighting filter;
  - the waterfall `GetNeighborsNotCaught`, which also records the session calls it makes.
- `Slack`: splitting the webhook string at `@`, the message record, and the classification of a reply.
- `Lambda`:
  - the `eachSeries` posting loop `EachSeries`;
  - the whole run `Run`, with the method `Handler` proved equal to it.
- `Seqs`, `Wrappers`, `Failures`: `filter`/`some` on sequences, `Option`/`Result`, and the ways a run fails.

Where the code does something other than its names and structure suggest, the model follows the code:

- **Sighting filter.** The filter at index.js:104-106 keeps the pokemon whose id the book *contains*.
  The name `getNeighborsNotCaught` calls for the ones not contained.
  `Lambda.RunScenario` works through an example: the pokedex holds 1 and the heartbeat reports 1 and 2.
  A filter for the pokemon not yet caught would post pokemon 2; the code posts pokemon 1.
- **No matching device.** At index.js:29 the next stage is handed no location, rather than the run
  ending in success with no posts. The model ends the run with the failure `NoLocation`: no session call and no post.
- **Replies from 400 to 499.** These are logged, then reported through `cb()` exactly like a success.
  The code has no "delivered: false" outcome.
- **Replies of 500 and above.** Line 153 calls `callback`, which is not defined. So the run ends with a
  ReferenceError, not with an error carrying the status message. The model's failure is `CallbackUndefined`.
  The posting loop stops there.

## Model

| member | source | states |
|---|---|---|
| `FindMyIphone.FindMyLocationFirstMatch` | index.js:22-32 | a lookup error is passed on; otherwise the result is the location of the first device in list order that has a location and the configured display name, and it is absent exactly when no device has both |
| `Pokedex.Book.Contain` | index.js:65-69 | `contain(id)` is total and true exactly when some pokedex entry's number equals `id` (so false on an empty pokedex) |
| `Pokedex.PokedexOfSpec` | index.js:57-61 | the pokedex is exactly the entries of the inventory items that carry one, in inventory order; items without one are skipped |
| `Pokedex.GetPokemonBookContain` | index.js:54-70 | the book built from an inventory contains `id` exactly when some inventory item has a pokedex entry numbered `id` |
| `Neighbors.GetNeighbors` | index.js:75-87 | a heartbeat error is passed on with the table untouched; otherwise the result is the scan of the cells and the table afterwards is the table with the resolved entries renamed |
| `Neighbors.ScanSpec` | index.js:78-86 | the scan fails exactly when a reporting cell's first pokedex number has no table entry; otherwise it yields exactly one pokemon per cell with a non-empty `NearbyPokemon`, in decreasing cell index, resolved from `NearbyPokemon[0]` as `pokemonlist[n-1]` with its locale name |
| `Neighbors.ScanAboveFails` | index.js:79-84 | the loop, over the cells visited so far (from the last one down to a given index), fails exactly when one of them reports a pokedex number outside `1..pokemonlist.length` |
| `Neighbors.ScanAboveSpec` | index.js:79-85 | over the cells visited so far, a successful loop yields one pokemon per reporting cell, highest cell first, each the localized table entry of the cell's first number |
| `Neighbors.ReportingAboveSpec` | index.js:79-80 | the visited reporting cells are listed from the highest index down, each exactly once |
| `Neighbors.ScanThreeCells` | index.js:79-86 | with cells `[c0, c1, c2]` of which only `c1` and `c2` report, the scan yields `c2`'s pokemon, then `c1`'s |
| `Neighbors.ScanFailureSticks` | index.js:82-83 | once a pokedex number has no table entry, the failure ends the scan and no later cell renames anything |
| `Neighbors.TouchedAboveSpec` | index.js:82-83 | the table positions renamed are all inside the table, and are exactly those named by a visited reporting cell that the loop reached before any failure (no reporting cell from it up names a number without a table entry); after a successful scan, exactly those named by any visited reporting cell |
| `Neighbors.AfterScanSpec` | index.js:83 | the table after a scan differs only in names, each renamed entry carrying its locale name; exactly the entries named by a reporting cell reached before any failure are renamed, which after a successful scan is every entry some reporting cell names |
| `Neighbors.KeepCaughtSpec` | index.js:104-106 | the filter output is a subsequence of the scan output in the same relative order, and a pokemon is kept exactly when the book contains its id |
| `Neighbors.GetNeighborsNotCaught` | index.js:91-110 | log in, move to the location, build the book, scan, filter; the first failing stage ends the waterfall and no later session call is made |
| `Neighbors.NotCaughtSpec` | index.js:100-106 | a successful waterfall made all four session calls in order, and every pokemon it returns was found by the scan and is contained in the book |
| `Slack.SplitJoin` | index.js:119 | joining the pieces of `split('@')` with `@` gives back the string |
| `Slack.SplitPieces` | index.js:119 | no piece of `split('@')` contains an `@` |
| `Slack.SplitSingle` | index.js:119 | `split('@')` gives a single piece exactly when the string has no `@` |
| `Slack.SplitFirstPieces` | index.js:119 | a string with an `@` starts with its first piece, `@` and its second piece, followed by the end or another `@` |
| `Slack.MessageAddress` | index.js:119-123 | `url` is the text before the first `@`; `channel` is `@` followed by the text between the first and second `@` (or the end), and `@undefined` when the string has no `@` |
| `Slack.MessageRoundTrip` | index.js:121-129 | reading the message back between the fixed prefix and suffix gives the pokemon's name, its single attachment's `image_url` is `pokemon.img`, and the icon is `:yum:` |
| `Lambda.DispatchFailureSticks` | index.js:185-187 | once a post has ended the run, no later candidate is posted or logged |
| `Lambda.EachSeries` | index.js:185-187 | the loop's posts, logged replies and outcome are exactly those of the posting spec `Dispatch` |
| `Lambda.DispatchPostedCount` | index.js:185-187 | the loop posts at most one message per candidate, and one for every candidate when no reply ends the run |
| `Lambda.DispatchPostsInOrder` | index.js:185-186 | posts are the candidates' messages, one per candidate, in candidate order, and all of them are posted when no reply ends the run |
| `Lambda.DispatchStopsAtFirstFailure` | index.js:146-153 | the loop goes on after every response below 500, stops right after the first other reply, whose failure is the outcome, and succeeds exactly when no reply stopped it |
| `Lambda.DispatchLogsRejections` | index.js:149-151 | the replies logged are exactly the 4xx responses among the replies to the posts made, in order |
| `Lambda.RejectionsFilter` | index.js:149-151 | those logged replies are the received replies filtered by "status from 400 to 499" |
| `Lambda.DispatchSpec` | index.js:184-188 | the whole posting loop: in-order posts, stop at the first reply of 500 or above or request error, success exactly when none, 4xx replies logged |
| `Lambda.DispatchAfterNotFound` | index.js:149-151 | a 404 on the first post is logged and the next candidate is still posted |
| `Lambda.DispatchAfterUnavailable` | index.js:153 | a 503 on the first post ends the run with the ReferenceError and the next candidate is never posted |
| `Lambda.Handler` | index.js:165-192 | the handler's session calls, posts, logged replies, outcome and final species table are exactly those of the run spec `Run` |
| `Lambda.RunLocation` | index.js:173-182 | without a matching device the run makes no session call and no post and does not succeed; the session is moved to the location of the first matching device |
| `Lambda.RunPosts` | index.js:184-188 | every post of a run is the message for a pokemon that the scan found and the book contains, in scan order, and the posts stop at the first reply that ends the run |
| `Lambda.RunScenario` | index.js:104-106 | an example run of the code as written: the pokedex holds 1 and the heartbeat reports 1 then 2; the run posts one message, for pokemon 1, and renames both table entries |
| `Lambda.ScenarioLocation` | index.js:24-32 | in that example the run uses the phone's coordinates (35.0, 139.0) |
| `Lambda.ScenarioBook` | index.js:57-69 | in that example the book contains 1 and not 2 |
| `Lambda.ScenarioScan` | index.js:79-86 | in that example the scan yields pokemon 2 and then 1, and renames both table entries |
| `Lambda.ScenarioFilter` | index.js:104-106 | in that example the filter keeps pokemon 1 only |

## Left out

- The iCloud `getDevices` call, the Pokémon GO client (`init`, `SetLocation`, `GetInventory`, `Heartbeat`) and `https.request` are network I/O and foreign library code. Their results are inputs: `Result` values, and `replies(k)` for the k-th POST. The login's credentials, named start location and provider are not modelled; the `Login` call carries no arguments.
- `JSON.stringify`, `url.parse`, `Buffer.byteLength` and the request headers (index.js:131-138) are library serialisation and parsing whose source is not visible. The model stops at the message record.
- The `chunks.push` accumulation of the response body (index.js:141-143) is never read, so it has no effect on any outcome.
- `domain`, `d.intercept`, `context.succeed`/`context.fail` and `async.waterfall` are runtime plumbing. `Ok` and `Err` of `Run` stand for the success and failure signals.
- What the async library does after a stage calls back with no location (index.js:29) is not modelled; that run is a failure here.
- Environment variables and their defaults are configuration I/O: the device name and webhook string are parameters. An unset `PGO_SLACK_URL`, which makes `hookUrl.split` throw, is not modelled.
- Latitude and longitude are floating point and only passed through. `Coords` holds them as opaque reals.
- The text of the `console.error` line is not built. The model records the logged reply instead.
- The object path `inventry.inventory_delta.inventory_items` is taken as given. A response missing it is not modelled.
- `parseInt(PokedexNumber)` is taken as the integer itself.
- Ids are integers, and `===` is integer equality. The JavaScript type of the species table's `id` is not visible here.
- The species table and the locale table are module-level in the source and outlive a run. The model passes both in explicitly.
- Neighbors.GetNeighbors: the source pushes a reference to the shared table entry; the model pushes a copy of the renamed entry. The two agree after the call, because the name written depends only on the entry's own id.
