# Bankomat: a verified model of a small banking domain

This project models `index.js`, which defines three parts:

- a client record (`createClient`, `validateClient`);
- a bank holding an ordered roster of clients whose names are unique (`createBank` with `addClient` and `removeClient`);
- an ATM (`createBankomat`). The ATM owns a note inventory over the fixed denominations 5000, 2000, 1000, 500, 200, 100, 50 and 10. It binds at most one client session. It accepts deposits (`addMoney`). It pays out withdrawals (`giveMoney`) by a greedy largest-note-first pass.

Modules:

- `Outcomes`: the failures, one constructor per distinct failure of the modelled operations, plus `Outcome`/`Result` wrappers.
- `Clients`: `Client` is a class, so a client is an object that can be held by reference. `setClient` compares only names with the roster and then binds whatever object it was given. The session is therefore the roster's own object only when the caller passes that object. In that case a deposit or withdrawal made through the ATM is visible in the roster. A different object that carries a roster name is accepted too, and its balance, not the roster entry's, is the one credited and checked. `ValidateClient` reduces to "a client is present".
- `Banks`: the roster as `seq<Client>` in a `Bank` class. Name lookup (`HasName`), uniqueness (`UniqueNames`) and the remove-by-name filter (`WithoutName`) are specification functions, with lemmas about them.
- `Notes`: the cash arithmetic. It covers the value of note counts (`Worth`), deposit bundles and their totals, and the greedy pass as a recursive specification function (`Greedy`, built from the per-denomination rule `StepAt`). It also covers the withdrawal plan the pass builds (`PlanOf`). The functions take the list of face values as a parameter, and the ATM fixes that list to `Nominals`.
- `Bankomats`: the `Bankomat` class. The inventory is the caller's `array<int>`, indexed like `Nominals`, and the session is `current: Client?`. `AddMoney` and the greedy loop `Dispense` work in place, and each is proved against the specification functions. `GiveMoneyOutcome` states `giveMoney` exactly as written. `WithdrawOutcome` and `Bankomat.Withdraw` state the corrected behaviour (see "## Findings").

Face values are `int` keys (the source uses the strings "5000", …). Counts and balances are unbounded integers.

The withdrawal plan has a key for every denomination the pass did not skip, including a count of 0 when none were on hand. With 100 ×5, 50 ×0 and 10 ×10, withdrawing 150 gives `{100: 1, 50: 0, 10: 5}`.

## Model

| member | source | states |
|---|---|---|
| `Clients.Client.constructor` | index.js:36-40 | a client has the given name and balance |
| `Clients.ValidateClient` | index.js:47-57 | defines the structural check on a candidate: with typed clients, it holds exactly when a candidate is present |
| `Banks.HasName` | index.js:80-82 | defines "some roster entry has this name", the lookup shared by addClient, bank removeClient and setClient |
| `Banks.WithoutName` | index.js:95-97 | the filtered roster holds only entries of the old roster whose name differs, keeps every such entry, and is no longer |
| `Banks.WithoutNameAppend` | index.js:95-97 | the filter distributes over concatenation, so the relative order of the kept entries is the old order |
| `Banks.WithoutAbsentName` | index.js:94-97 | filtering out a name that no entry has leaves the roster unchanged |
| `Banks.WithoutNameKeepsUnique` | index.js:93-98 | removing a name from a roster with unique names keeps the names unique, and the name is then absent |
| `Banks.WithoutNameDropsOne` | index.js:93-98 | in a roster with unique names, removing a present name drops exactly one entry |
| `Banks.AppendKeepsUnique` | index.js:80-90 | appending a client whose name is new keeps the names unique (both directions), and the name is then present |
| `Banks.Bank.constructor` | index.js:66-75 | a bank starts with the given name and roster |
| `Banks.Bank.AddClient` | index.js:76-92 | an absent candidate is refused, and so is a name already on the roster, both with the roster unchanged; otherwise the candidate is appended at the end; unique names stay unique |
| `Banks.Bank.RemoveClient` | index.js:93-105 | a name not on the roster is refused with the roster unchanged; otherwise every entry with that name is dropped (`WithoutName`); unique names stay unique |
| `Notes.NominalsShape` | index.js:130 | the eight denominations are positive and strictly decreasing, and the last (smallest) is 10 |
| `Notes.Totals` | index.js:162-169 | defines, per denomination, the total count deposited over all bundles, one entry per denomination |
| `Notes.DepositValue` | index.js:160-169 | defines the sum credited by a deposit: the face values of the bundles added bundle by bundle |
| `Notes.ForeignKeyIgnored` | index.js:163-167 | a bundle key that is not a denomination changes neither the counts deposited nor the value credited |
| `Notes.DepositValueIsWorthOfTotals` | index.js:160-169 | the sum accumulated bundle by bundle equals the value of the per-denomination totals |
| `Notes.DepositConservesValue` | index.js:162-171 | a deposit raises the inventory's value by exactly the amount credited to the client |
| `Notes.StepAt` | index.js:189-194 | defines the rule at one denomination: skip when nothing is owed or the note is larger than what is owed, otherwise take min(owed div face, notes on hand) |
| `Notes.StepAtBounds` | index.js:189-194 | a denomination is skipped exactly when nothing (or less than nothing) is owed or the note is larger than what is owed; otherwise the count is at most the notes on hand and its value at most what is owed, and all notes on hand are taken unless less than one note of that face is still owed; no count is negative when the stock is not |
| `Notes.Greedy` | index.js:186-197 | defines the whole pass, largest denomination first, as one step per denomination plus what is still owed; a request that is not positive is left owed in full |
| `Notes.GreedyConservation` | index.js:185-198 | what the pass still owes plus the value of the notes it took is the requested amount; a non-negative request is never overpaid |
| `Notes.GreedyWithinStock` | index.js:190-195 | with non-negative stock, each denomination gives between 0 and the notes on hand |
| `Notes.GreedyTrace` | index.js:186-197 | the step at each denomination is the one-denomination rule applied to the amount minus the value already taken at larger denominations |
| `Notes.GreedySkipsLarger` | index.js:189 | with non-negative stock, a note larger than the requested amount is never dispensed |
| `Notes.GreedyConserves` | index.js:190-195 | the pass never drives a non-negative inventory negative, and the inventory loses exactly the value dispensed |
| `Notes.PlanOf` | index.js:185-196 | defines the plan built along the pass: each step that was not a skip records its denomination and count |
| `Notes.PlanEntries` | index.js:196 | the plan has keys only among the denominations; a denomination is a key exactly when the pass did not skip it, and its entry is the count taken |
| `Notes.PlanValue` | index.js:196 | the plan's face value equals the value of the counts taken |
| `Bankomats.GiveMoneyOutcome` | index.js:174-205 | defines giveMoney as written for a bound client: answer, inventory left and balance left; the balance it leaves is always the balance it was given, and it pays only an amount within the balance and a multiple of 10 |
| `Bankomats.WithdrawOutcome` | index.js:174-205 | defines the corrected withdrawal: on any failure inventory and balance are as given, on success the balance is debited the amount, which lies between 0 and the balance |
| `Bankomats.GiveMoneyGuards` | index.js:178-183 | an amount above the balance, then an amount not a multiple of 10, is refused (each exactly when its condition holds), with inventory and balance unchanged |
| `Bankomats.GiveMoneySuccess` | index.js:185-204 | with non-negative stock, a successful giveMoney returns a plan worth exactly the amount; each count drops by the plan's entry and stays non-negative; the inventory loses exactly the amount in value; and the balance is NOT reduced |
| `Bankomats.GiveMoneyShortKeepsTakenNotes` | index.js:194-201 | a giveMoney that runs short fails yet leaves the inventory reduced by the notes its pass took, and the balance unchanged |
| `Bankomats.GiveMoneyShortPass` | index.js:185-201 | for any eight denominations ending in 50 and 10, a balance of 100 and a single 50 note, giveMoney(100) fails as short and the 50 note is gone |
| `Bankomats.GiveMoneyShortExample` | index.js:185-201 | on the ATM's denominations, all counts 0 except one 50 note, giveMoney(100) fails as short with the 50 slot emptied and the balance at 100 |
| `Bankomats.GiveMoneyPaidPass` | index.js:185-204 | for any eight denominations with 100 at index 5, a balance of 100 and a single 100 note, giveMoney(100) pays out that note as the plan `{100: 1}` (50 and 10 are skipped once nothing is owed), worth 100, and leaves the balance at 100 |
| `Bankomats.GiveMoneyPaidExample` | index.js:185-204 | on the ATM's denominations, all counts 0 except one 100 note, giveMoney(100) returns exactly the plan `{100: 1}`, worth 100, empties the 100 slot and leaves the balance at 100 |
| `Bankomats.WithdrawAnswersAsGiveMoney` | index.js:174-205 | the corrected withdrawal gives the same answer, success or error, as giveMoney |
| `Bankomats.WithdrawConserves` | index.js:174-205 | the corrected withdrawal keeps counts non-negative; on success the plan is worth the amount, the client is debited the amount and stays non-negative, and the inventory loses exactly that value; on any failure nothing changes |
| `Bankomats.Bankomat.constructor` | index.js:116-135 | a new ATM uses the eight denominations and the caller's inventory, is bound to the given bank, and has no session |
| `Bankomats.Bankomat.SetClient` | index.js:136-151 | succeeds exactly when no session is bound, the candidate is present and its name is on the bank's roster, and then binds that candidate; otherwise refuses and leaves the session as it was |
| `Bankomats.Bankomat.RemoveClient` | index.js:152-155 | always answers true and leaves no session, so a second call has the same effect as the first |
| `Bankomats.Bankomat.AddMoney` | index.js:156-173 | without a session it fails with the inventory unchanged; otherwise each count rises by its total over all bundles and the client's balance rises by the bundles' face value |
| `Bankomats.Bankomat.AddBundle` | index.js:163-168 | one bundle adds its count of each denomination to the inventory and returns its face value |
| `Bankomats.Bankomat.TakeNotes` | index.js:187-196 | at one denomination it takes exactly the count of the one-denomination rule from that inventory slot, leaves the other slots alone, and reduces what is owed by the value taken |
| `Bankomats.Bankomat.Advance` | index.js:186-197 | one iteration of the pass keeps the loop state in step with the greedy specification: steps, plan, counts taken and inventory |
| `Bankomats.Bankomat.Dispense` | index.js:185-198 | the in-place loop computes exactly the greedy specification: the remainder, the plan, the counts taken, and the inventory minus those counts |
| `Bankomats.Bankomat.GiveMoney` | index.js:174-205 | without a session it fails with nothing changed; otherwise answer, inventory and balance are exactly those of `GiveMoneyOutcome` (as written) |
| `Bankomats.Bankomat.Restock` | index.js:199-201 | puts counts back into the inventory: the corrected failure path of a short withdrawal |
| `Bankomats.Bankomat.Withdraw` | index.js:174-205 | without a session it fails with nothing changed; otherwise answer, inventory and balance are exactly those of `WithdrawOutcome` (corrected) |

## Left out

- The dynamic type checks (`typeof`, `Array.isArray`, the `hasOwnProperty` shape checks on the client and the bank) are left out. The model's types rule those inputs out, so `createClient`, `createBank` and `createBankomat` cannot fail, and `ValidateClient` reduces to "the candidate is present". `ValidateClient` therefore has no contract of its own.
- Error messages and their `JSON.stringify` text are not modelled. Each throw is an `Error` constructor.
- The default arguments (balance 0, an empty roster, an empty inventory) are not modelled. The model always passes explicit values.
- The `bind` value returned by `addMoney` is not modelled. `AddMoney` returns `Pass`.
- The rest-argument plumbing of `addMoney` is not modelled. The bundles are a `seq<map<int, int>>`.
- Floating-point `Number` arithmetic, `Math.trunc` and `parseInt` are not modelled. Every amount and count is an integer. JavaScript's `%` truncates and Dafny's is Euclidean, but the two agree on whether the remainder is zero, which is all `giveMoney` tests.
- An inventory missing one of the eight denominations is not modelled. In the source such an inventory produces NaN only when a deposit mentions the missing denomination or the withdrawal pass reaches it. The pass skips every denomination larger than what is still owed. For example, `{100: 5, 50: 0, 10: 10}` serves `giveMoney(150)` without reading the missing slots. The model's inventory is an array with one slot per denomination, so every denomination is always defined. Counts are not required to be non-negative. The properties that need non-negative counts say so.
- `Bankomats.Bankomat.SetClient`: an absent candidate is refused with `ClientNotAllowed`. On an empty roster the source does the same, because `some` never reads the candidate's name. On a non-empty roster the source instead fails with a TypeError when it reads the name of `undefined`.
- `Banks.Bank.RemoveClient`: the parameter is a present client, so removing `undefined` is not modelled. In the source it gives the ordinary "no such client" refusal on an empty roster, and a TypeError on a non-empty one.
- Client names are constant fields because the source never writes them.
- `Banks.Bank.constructor`: the roster is a `seq` value, so the model does not capture one aliasing effect. The source keeps the caller's array, and `addClient`'s `push` is visible to the caller through that array. The sharing lasts until the first `removeClient` replaces the array with a filtered copy.

## Findings

| source | as written | input that shows it | evidently intended | confidence | as-written member | corrected member |
|---|---|---|---|---|---|---|
| index.js:203 | after a successful pass the balance is reduced by the amount still owed, which is always 0 there | balance 100, all eight counts 0 except one 100 note, `giveMoney(100)` returns `{100: 1}` and the balance stays 100 | the balance is reduced by the amount paid out | not executed | `Bankomats.GiveMoneyPaidExample` | `Bankomats.WithdrawConserves` |
| index.js:194-201 | notes are taken out of the inventory during the pass, and when the pass ends short the error is raised without putting them back | balance 100, all eight counts 0 except one 50 note, `giveMoney(100)` fails and the 50 note is gone from the inventory | a failed withdrawal leaves the inventory as it was | not executed | `Bankomats.GiveMoneyShortExample` | `Bankomats.Bankomat.Withdraw` |
