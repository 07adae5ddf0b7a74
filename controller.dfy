/** The `App` component of src/App.tsx as an object: the `useState` fields become
    mutable fields, each setter call an assignment, each effect and handler a method.
    Every method is tied to its counterpart in GameSpec by
    `Snapshot() == GameSpec.X(old(Snapshot()), ...)`, so the properties proved there
    (GameProperties) hold of the object. */
module Controller {
  import opened Deck
  import GameSpec

  class Game {
    var loaded: bool
    var cards: seq<string>
    var currentPairs: seq<Card>
    var activeCards: seq<nat>
    var wrongPairs: nat
    var ended: bool
    // the `setTimeout(() => setActiveCards([]), 500)` callbacks not yet run
    var pendingClears: nat
    // the `setTimeout(() => setLoaded(true), 500)` callback not yet run
    var loadPending: bool

    /** The fields as a GameSpec state. */
    function Snapshot(): GameSpec.State
      reads this
    {
      GameSpec.State(loaded, cards, currentPairs, activeCards, wrongPairs, ended,
                     pendingClears, loadPending)
    }

    ghost predicate Valid()
      reads this
    {
      GameSpec.Inv(Snapshot())
    }

    /** Mounting `App`: every `useState` at its initial value, nothing scheduled. */
    constructor ()
      ensures Valid() && Snapshot() == GameSpec.INITIAL
    {
      loaded, cards, currentPairs, activeCards := false, [], [], [];
      wrongPairs, ended := 0, false;
      pendingClears, loadPending := 0, false;
    }

    // -------------------------------------------------------------------------
    // The source's functions

    /** `loadPairs`: `selectPairs(cards)` reorders `cards` in place and returns the deck. */
    method LoadPairs(first: seq<nat>, second: seq<nat>)
      requires IsPicks(|cards|, first) && IsPicks(DeckSize(|cards|), second)
      modifies this
      ensures Snapshot() == GameSpec.LoadPairs(old(Snapshot()), first, second)
    {
      var dealt := SelectPairs(cards, first, second);
      cards := dealt.pool;
      currentPairs := dealt.deck;
    }

    /** `selectCard(index)`. */
    method SelectCard(index: nat)
      modifies this
      ensures Snapshot() == GameSpec.SelectCard(old(Snapshot()), index)
    {
      activeCards := activeCards + [index];
    }

    /** `selectPair(indexes)`: copy the deck, mark two entries, install the copy. */
    method SelectPair(indexes: seq<nat>)
      requires |indexes| >= 2 && indexes[0] < |currentPairs| && indexes[1] < |currentPairs|
      modifies this
      ensures Snapshot() == old(Snapshot()).(currentPairs := GameSpec.SelectPair(old(currentPairs), indexes))
    {
      var newPairs := currentPairs;
      newPairs := newPairs[indexes[0] := newPairs[indexes[0]].(selected := true)];
      newPairs := newPairs[indexes[1] := newPairs[indexes[1]].(selected := true)];
      currentPairs := newPairs;
    }

    /** The `verifyPair` effect. */
    method VerifyPair()
      requires GameSpec.ActiveInDeck(Snapshot())
      modifies this
      ensures Snapshot() == GameSpec.VerifyPair(old(Snapshot()))
    {
      if |activeCards| <= 1 {
        return;
      }
      if currentPairs[activeCards[0]].image == currentPairs[activeCards[1]].image {
        SelectPair(activeCards);
      } else {
        wrongPairs := wrongPairs + 1;
      }
      pendingClears := pendingClears + 1;
    }

    /** The `endGame` effect. */
    method EndGame()
      modifies this
      ensures Snapshot() == GameSpec.EndGame(old(Snapshot()))
    {
      if loaded && GameSpec.AllSelected(currentPairs) {
        ended := true;
      }
    }

    /** `restartGame`. */
    method RestartGame(first: seq<nat>, second: seq<nat>)
      requires IsPicks(|cards|, first) && IsPicks(DeckSize(|cards|), second)
      modifies this
      ensures Snapshot() == GameSpec.RestartGame(old(Snapshot()), first, second)
    {
      LoadPairs(first, second);
      wrongPairs := 0;
      ended := false;
    }

    /** The `initGame` effect. */
    method InitGame(first: seq<nat>, second: seq<nat>)
      requires IsPicks(|cards|, first) && IsPicks(DeckSize(|cards|), second)
      modifies this
      ensures Snapshot() == GameSpec.InitGame(old(Snapshot()), first, second)
    {
      if |cards| > 0 {
        LoadPairs(first, second);
        loadPending := true;
      }
    }

    /** The click guard `!active && !selected` of a card on the table. */
    method ClickAllowed(index: nat) returns (allowed: bool)
      requires index < |currentPairs|
      ensures allowed <==> !GameSpec.IsActive(Snapshot(), index) && !currentPairs[index].selected
    {
      var active := (|activeCards| > 0 && activeCards[0] == index)
                    || (|activeCards| > 1 && activeCards[1] == index);
      allowed := !active && !currentPairs[index].selected;
    }

    // -------------------------------------------------------------------------
    // Events

    /** The fetch resolves with `pool`. */
    method OnFetched(pool: seq<string>, first: seq<nat>, second: seq<nat>)
      requires Valid() && cards == []
      requires IsPicks(|pool|, first) && IsPicks(DeckSize(|pool|), second)
      modifies this
      ensures Valid() && Snapshot() == GameSpec.Fetched(old(Snapshot()), pool, first, second)
    {
      cards := pool;
      InitGame(first, second);
      if |pool| > 0 {
        EndGame();
      }
    }

    /** The loaded timer fires. */
    method OnLoadedTimer()
      requires Valid() && loadPending
      modifies this
      ensures Valid() && Snapshot() == GameSpec.LoadedTimer(old(Snapshot()))
    {
      loaded := true;
      loadPending := false;
    }

    /** A click on the card at `index`. */
    method OnClick(index: nat)
      requires Valid() && index < |currentPairs|
      modifies this
      ensures Valid() && Snapshot() == GameSpec.Click(old(Snapshot()), index)
    {
      var allowed := ClickAllowed(index);
      if allowed {
        SelectCard(index);
        // `selectPair` hands React a new array exactly when the two images agree
        var deckChanges := GameSpec.IsMatch(Snapshot());
        VerifyPair();
        if deckChanges {
          EndGame();
        }
      }
    }

    /** A clear timer fires. */
    method OnClearTimer()
      requires Valid() && pendingClears > 0
      modifies this
      ensures Valid() && Snapshot() == GameSpec.ClearTimer(old(Snapshot()))
    {
      activeCards := [];
      pendingClears := pendingClears - 1;
    }

    /** "Play again" is pressed. */
    method OnRestart(first: seq<nat>, second: seq<nat>)
      requires Valid()
      requires IsPicks(|cards|, first) && IsPicks(DeckSize(|cards|), second)
      modifies this
      ensures Valid() && Snapshot() == GameSpec.Restart(old(Snapshot()), first, second)
    {
      RestartGame(first, second);
      EndGame();
    }
  }
}
