# 2Cards memory game — a Dafny model of its game controller

2Cards is a browser memory game written as one React component (`src/App.tsx`).
It fetches a pool of image URLs and deals a deck of at most 20 face-down cards:
two copies each of up to ten pool entries, so each image occurs twice when the
fetched URLs are distinct. The player turns cards over two at a time. A pair
with equal images stays face up. Any other pair counts as a mistake
(`wrongPairs`) and flips back after 500 ms. Once every card is matched the game
is over and "Play again" deals a new deck.

This project models that game logic and proves properties about it. Four files:

- `deck.dfy`, module `Deck`: the deck builder `selectPairs`. Each
  `sort(() => Math.floor(Math.random() * 2 - 1))` becomes `Permute(s, picks)`.
  Here `picks` is an oracle that says which order the engine left the array in.
  This comparator only returns -1 or 0, so it is inconsistent, and ECMA-262
  (section 23.1.3.30, 2023 edition) leaves the order implementation-defined; it
  is still a permutation. `Permute` is proved to give a permutation. `PicksFor`
  proves the converse: every permutation comes from some `picks`.
  `SelectPairs` also returns the pool, because `cards.sort` reorders the
  caller's array in place.
- `game.dfy`, module `GameSpec`: the controller as a state machine on values.
  `State` holds the `useState` fields `loaded`, `cards`, `currentPairs`,
  `activeCards`, `wrongPairs` and `ended`. It also counts the pending
  `setTimeout` callbacks (`pendingClears`, `loadPending`). Each source function
  and effect is a function on `State`. So is each external event: the fetch
  resolving, a timer firing, a click, and "Play again". An event runs the
  setters and effects in the order React runs them. After a click, that is
  `selectCard`, then the `verifyPair` effect, then the `endGame` effect, the
  last one only when `selectPair` produced a new deck. The `Inv` predicate is
  proved to hold after every event. `Run` folds a sequence of events.
- `properties.dfy`, module `GameProperties`: lemmas about clicks, pair
  evaluation, rounds, the end of a game, and restart, plus a worked game on the
  deck A B A B.
- `controller.dfy`, module `Controller`: class `Game`. Its fields are the
  `useState` fields and its methods are the source's functions and event
  handlers. Each method's postcondition ties the new fields to the GameSpec
  function of the old fields (`Snapshot() == GameSpec.Click(old(Snapshot()), index)`),
  so the GameProperties lemmas hold for the object too.

Behaviour of the source that the model keeps as written:

- `activeCards` has no length limit. The guard at src/App.tsx:90-94 only
  compares an index with `activeCards[0]` and `activeCards[1]`. So a third card
  clicked during the 500 ms delay is appended. `verifyPair` then evaluates the
  same first two cards again, and a mismatch is counted twice
  (`ThirdClickReevaluates`). A card at position 3 or later can even be appended
  a second time (`GuardIgnoresLaterEntries`). So `activeCards` can grow
  past two entries, and a third click is not ignored.
- `restartGame` does not clear `activeCards` or cancel pending clear timers
  (`RestartResets`).
- A clear timer empties whatever `activeCards` holds when it fires. It does not
  check whether those are still the cards it was scheduled for.
- `endGame` runs only when `currentPairs` changes, not when `loaded` changes. So
  a deck completed before `loaded` is set would never end the game
  (`ClickEndsGameIff` asks for `s.loaded`). In the running app the loading
  overlay blocks clicks before `loaded`. The model does not assume that, and
  accepts clicks whenever a deck is on the table.

## Model

| member | source | states |
|---|---|---|
| `Deck.PairsOf` | src/App.tsx:15-17 | (predicate) the deck holds two copies of each of the first `min(10, n)` images of the pool, as multisets |
| `Deck.Permute` | src/App.tsx:15-16 | an engine's reordering of `s` under the oracle `picks`: same length, same multiset |
| `Deck.PicksFor` | src/App.tsx:15-16 | every permutation `t` of `s` is `Permute(s, picks)` for some valid `picks`, so the oracle covers every order `sort` can produce |
| `Deck.Take` | src/App.tsx:15 | `slice(0, n)` returns the first `min(n, length)` elements |
| `Deck.FaceDown` | src/App.tsx:17 | every image becomes a card with `selected == false`, in order |
| `Deck.SelectPairs` | src/App.tsx:14-18 | the reordered pool is a permutation of the input; for a pool of `n` images the deck has `2 * min(10, n)` cards, none selected; the deck's images are two copies of the first `min(10, n)` images of the reordered pool, as multisets (`PairsOf`) |
| `Deck.DealtFromPool` | src/App.tsx:15-16 | the dealt images are two copies of a size-`min(10, n)` sub-multiset of the input pool |
| `Deck.DistinctPoolGivesPairs` | src/App.tsx:15-16 | if the fetched URLs are distinct, every image in the deck occurs exactly twice |
| `GameSpec.AllSelected` | src/App.tsx:62 | (predicate) `currentPairs.every(pair => pair.selected)`: every card of the deck is selected |
| `GameSpec.IsActive` | src/App.tsx:90 | (predicate) `active`: the index equals `activeCards[0]` or `activeCards[1]`; later entries are not looked at |
| `GameSpec.Clickable` | src/App.tsx:94 | (predicate) the click guard `!active && !selected` for a card on the table |
| `GameSpec.IsMatch` | src/App.tsx:52-53 | (predicate) at least two active cards, and the first two show the same image |
| `GameSpec.LoadPairs` | src/App.tsx:33 | `loadPairs` leaves a permutation of the pool in `cards`, deals `DeckSize(n) = 2 * min(10, n)` unselected cards from a pool of `n` images, two copies of each of its first `min(10, n)` images (`PairsOf`), and changes no other field |
| `GameSpec.SelectCard` | src/App.tsx:42 | `selectCard` appends the index at the end of `activeCards`, whatever its length, and changes nothing else |
| `GameSpec.SelectPair` | src/App.tsx:44-49 | the copied deck has the same length and images; a card is selected iff it was already selected or sits at `indexes[0]` or `indexes[1]` |
| `GameSpec.VerifyPair` | src/App.tsx:51-59 | with at most one active card nothing changes; on equal images exactly the two active cards become selected and `wrongPairs` stays; on different images `wrongPairs` grows by 1 and no card changes; with two or more active cards one clear timer is scheduled |
| `GameSpec.EndGame` | src/App.tsx:61-63 | `ended` becomes true iff it was true or the deck is loaded and every card is selected; it is never reset; no other field changes |
| `GameSpec.RestartGame` | src/App.tsx:65-69 | the pool is reordered (a permutation of the old one) and a new unselected deck of `DeckSize(n)` cards for a pool of `n`, holding its pairs, is dealt, `wrongPairs == 0`, `ended == false`; `activeCards` and the timers untouched |
| `GameSpec.InitGame` | src/App.tsx:35-40 | an empty pool changes nothing; otherwise the pool is reordered (a permutation of the old one), a new unselected deck holding its pairs is dealt, and the loaded timer is scheduled |
| `GameSpec.Fetched` | src/App.tsx:35-40 | the fetch result installed as the pool, then `initGame` and `endGame`: keeps `Inv`, dealt deck unselected, not loaded, not ended, loaded timer pending iff the pool is non-empty; every other field, including `activeCards`, `wrongPairs` and the clear timers, is unchanged |
| `GameSpec.LoadedTimer` | src/App.tsx:38 | `setLoaded(true)` keeps `Inv` and the round; `loaded` becomes true, the loaded timer is no longer pending, and every other field is unchanged |
| `GameSpec.Click` | src/App.tsx:94 | keeps `Inv` and the round; a rejected click (first two active entries or selected card) changes nothing; an accepted one appends the index, and on an empty selection changes nothing else |
| `GameSpec.ClearTimer` | src/App.tsx:58 | after the delay `activeCards` is empty and one clear timer fewer is pending; every other field, the deck, `wrongPairs`, `loaded`, `ended` and `loadPending`, is unchanged |
| `GameSpec.Restart` | src/App.tsx:65-69 | "Play again" (`restartGame` then `endGame`) keeps `Inv` |
| `GameSpec.Step` | src/App.tsx:21-69 | every enabled event keeps `Inv` (valid indices, deck size `2 * min(10, n)` for a pool of `n` images, the deck holding two copies of each of the first `min(10, n)` pool images, `ended` only with a loaded, fully matched deck) |
| `GameSpec.Run` | src/App.tsx:21-69 | `Inv` holds after every sequence of events that can occur |
| `GameProperties.MismatchThenClear` | src/App.tsx:55-58 | a mismatching second click adds exactly 1 to `wrongPairs` and changes no card; after the delay event no card is active and the deck is as before |
| `GameProperties.MatchThenClear` | src/App.tsx:53-58 | a matching second click selects exactly those two cards, keeps images and `wrongPairs`; after the delay event no card is active |
| `GameProperties.ThirdClickReevaluates` | src/App.tsx:42-59 | a third click during the delay makes `activeCards` length 3, and the first two cards are evaluated again (a mismatch counts twice) |
| `GameProperties.GuardIgnoresLaterEntries` | src/App.tsx:90-94 | an index already at position 3 of `activeCards`, unselected, is appended again |
| `GameProperties.RoundIsMonotone` | src/App.tsx:42-63 | over any event sequence without a new pool or restart: same pool and images, `selected` only goes false to true, `wrongPairs` never decreases, `loaded` and `ended` never go back |
| `GameProperties.OnlyRestartResetsMismatches` | src/App.tsx:56-67 | over any event sequence without "Play again", `wrongPairs` never decreases |
| `GameProperties.InRoundKeepsImages` | src/App.tsx:33 | only `loadPairs` (fetch or restart) replaces the deck; every other event keeps its images |
| `GameProperties.EndedUntilRestart` | src/App.tsx:61-69 | once `ended`, only "Play again" sets it back to false |
| `GameProperties.ClickEndsGameIff` | src/App.tsx:61-63 | a click ends a running game iff the deck is loaded, was not complete, and is complete afterwards |
| `GameProperties.RestartResets` | src/App.tsx:65-69 | after "Play again": `wrongPairs == 0`, not ended, a fresh unselected deck of the same size holding two copies of each of the first `min(10, n)` images of the reordered pool, which is a permutation of the old one; `activeCards`, timers and `loaded` kept |
| `GameProperties.FirstPairFound` | src/App.tsx:42-59 | on A B A B, clicking 0 and 2 selects both A cards and schedules one clear |
| `GameProperties.SecondPairEndsGame` | src/App.tsx:42-63 | then, after the clear, clicking 1 and 3 ends the game with `wrongPairs == 0` |
| `GameProperties.PlayAgainAfterWin` | src/App.tsx:65-69 | "Play again" after that win gives a running game with no mistakes and a four-card deck |
| `Controller.Game.constructor` | src/App.tsx:21-27 | the `useState` initial values, which satisfy the invariant |
| `Controller.Game.LoadPairs` | src/App.tsx:33 | fields become `GameSpec.LoadPairs` of the old fields |
| `Controller.Game.SelectCard` | src/App.tsx:42 | fields become `GameSpec.SelectCard` of the old fields |
| `Controller.Game.SelectPair` | src/App.tsx:44-49 | the deck becomes `GameSpec.SelectPair` of the old deck, nothing else changes |
| `Controller.Game.VerifyPair` | src/App.tsx:51-59 | fields become `GameSpec.VerifyPair` of the old fields |
| `Controller.Game.EndGame` | src/App.tsx:61-63 | fields become `GameSpec.EndGame` of the old fields |
| `Controller.Game.RestartGame` | src/App.tsx:65-69 | fields become `GameSpec.RestartGame` of the old fields |
| `Controller.Game.InitGame` | src/App.tsx:35-40 | fields become `GameSpec.InitGame` of the old fields |
| `Controller.Game.ClickAllowed` | src/App.tsx:90-94 | true iff the card is neither `activeCards[0]` nor `activeCards[1]` and not selected |
| `Controller.Game.OnFetched` | src/App.tsx:35-40 | keeps `Valid()`; fields become `GameSpec.Fetched` of the old fields |
| `Controller.Game.OnLoadedTimer` | src/App.tsx:38 | keeps `Valid()`; fields become `GameSpec.LoadedTimer` of the old fields |
| `Controller.Game.OnClick` | src/App.tsx:94 | keeps `Valid()`; fields become `GameSpec.Click` of the old fields |
| `Controller.Game.OnClearTimer` | src/App.tsx:58 | keeps `Valid()`; fields become `GameSpec.ClearTimer` of the old fields |
| `Controller.Game.OnRestart` | src/App.tsx:84 | keeps `Valid()`; fields become `GameSpec.Restart` of the old fields |

## Left out

- `fetchCards` (src/App.tsx:4-12) is left out: a network request plus JSON parsing. The fetched pool is an input of `Fetched` / `OnFetched`. Left out with it: the `error` flag and its message, since no game logic reads them.
- The rendering (src/App.tsx:71-113) is left out. Only the click guard is kept, from `active` and `selected` (lines 90 and 94). Also left out: the overlays that cover the grid while loading or after the end; the model lets clicks happen whenever a deck is on the table.
- `Math.random` and the engine's sort algorithm are left out. Each sort is an arbitrary permutation chosen by the caller's `picks`. No fairness or distribution property is stated.
- Real time is left out. Each `setTimeout` is a pending callback, and it fires only as an explicit event. React's scheduling is fixed to the order described above.
- Object aliasing in `selectPair` is left out. `[...prevPairs]` is a shallow copy, so writing `selected = true` also changes the card objects of the old array. The old array is thrown away afterwards, so cards are modelled as values.
- The fetch is issued once on mount (src/App.tsx:29-31). The model lets a fetch result arrive whenever no pool is installed, so after an empty pool another one may arrive. This only adds behaviours; every property above still holds.
- "Play again" is not restricted to an ended game. The model does not require `ended`, although "Play again" is only shown when the game has ended (src/App.tsx:81-84). The properties hold for restarts in any state.
