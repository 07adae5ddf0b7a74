/** The game controller of src/App.tsx as a state machine on values.

    `State` holds the `useState` fields of `App` (lines 21-27) that the game logic uses,
    plus the two kinds of pending `setTimeout` callbacks. Every source function
    (`loadPairs`, `selectCard`, `selectPair`, and the effects `initGame`, `verifyPair`,
    `endGame`, plus `restartGame`) is a function from state to state, and every
    external event (the fetch resolving, a timer firing, a click, "Play again") is
    the composition React runs for it. The class in controller.dfy is tied to these
    functions; the properties of the game are proved here. */
module GameSpec {
  import opened Deck

  datatype Option<T> = None | Some(value: T)

  datatype State = State(
    loaded: bool,              // `loaded`: the loading overlay is gone
    cards: seq<string>,        // `cards`: the fetched image pool
    currentPairs: seq<Card>,   // `currentPairs`: the deck on the table
    activeCards: seq<nat>,     // `activeCards`: indices clicked and not yet cleared
    wrongPairs: nat,           // `wrongPairs`: mismatches counted this round
    ended: bool,               // `ended`: the end-of-game overlay is shown
    pendingClears: nat,        // clear-selection timers scheduled and not yet fired
    loadPending: bool)         // the timer that sets `loaded` is scheduled and not yet fired

  /** The state when `App` mounts: the initial values of the `useState` calls. */
  const INITIAL := State(false, [], [], [], 0, false, 0, false)

  /** `currentPairs.every(pair => pair.selected)`. */
  predicate AllSelected(deck: seq<Card>) {
    forall i :: 0 <= i < |deck| ==> deck[i].selected
  }

  /** `activeCards[0] === index || activeCards[1] === index`: only the first two
      entries of `activeCards` count as face up. */
  predicate IsActive(s: State, index: nat) {
    (|s.activeCards| > 0 && s.activeCards[0] == index)
    || (|s.activeCards| > 1 && s.activeCards[1] == index)
  }

  /** The click guard `!active && !selected`. */
  predicate Clickable(s: State, index: nat)
    requires index < |s.currentPairs|
  {
    !IsActive(s, index) && !s.currentPairs[index].selected
  }

  /** The first two active indices, which `verifyPair` reads, lie in the deck. */
  predicate ActiveInDeck(s: State) {
    (|s.activeCards| > 0 ==> s.activeCards[0] < |s.currentPairs|)
    && (|s.activeCards| > 1 ==> s.activeCards[1] < |s.currentPairs|)
  }

  /** `verifyPair` finds its two cards showing the same image. */
  predicate IsMatch(s: State)
    requires ActiveInDeck(s)
  {
    |s.activeCards| >= 2
    && s.currentPairs[s.activeCards[0]].image == s.currentPairs[s.activeCards[1]].image
  }

  /** What every reachable state satisfies. */
  predicate Inv(s: State) {
    // the deck always has the size `selectPairs` deals from the pool
    |s.currentPairs| == DeckSize(|s.cards|)
    // and holds two copies of each of the first `min(10, n)` pool images
    && PairsOf(s.currentPairs, s.cards)
    // clicked indices are indices of the deck
    && (forall k :: 0 <= k < |s.activeCards| ==> s.activeCards[k] < |s.currentPairs|)
    // the pair `verifyPair` evaluates consists of two different cards
    && (|s.activeCards| >= 2 ==> s.activeCards[0] != s.activeCards[1])
    // the loaded timer is only started once a non-empty pool has arrived
    && ((s.loaded || s.loadPending) ==> |s.cards| > 0)
    // the game is only over once the deck is loaded and fully matched
    && (s.ended ==> s.loaded && AllSelected(s.currentPairs))
  }

  /** Indices below `n` can only exist when `n` is positive. */
  lemma IndicesNeedADeck(indices: seq<nat>, n: nat)
    requires forall k :: 0 <= k < |indices| ==> indices[k] < n
    ensures |indices| > 0 ==> n > 0
  {
    if |indices| > 0 {
      assert indices[0] < n;
    }
  }

  /** Round-preservation: `t` plays the same deck as `s`, no found pair is lost, the
      mismatch count has not gone down, and the lifecycle flags have not gone back. */
  predicate SameRound(s: State, t: State) {
    t.cards == s.cards
    && |t.currentPairs| == |s.currentPairs|
    && (forall i :: 0 <= i < |s.currentPairs| ==>
          t.currentPairs[i].image == s.currentPairs[i].image
          && (s.currentPairs[i].selected ==> t.currentPairs[i].selected))
    && t.wrongPairs >= s.wrongPairs
    && (s.loaded ==> t.loaded)
    && (s.ended ==> t.ended)
  }

  // ---------------------------------------------------------------------------
  // The source's functions

  /** `loadPairs`: deal a fresh deck from the pool, which `sort` reorders in place. */
  function LoadPairs(s: State, first: seq<nat>, second: seq<nat>): (t: State)
    requires IsPicks(|s.cards|, first) && IsPicks(DeckSize(|s.cards|), second)
    ensures multiset(t.cards) == multiset(s.cards)
    ensures |t.currentPairs| == DeckSize(|s.cards|) && !AnySelected(t.currentPairs)
    ensures PairsOf(t.currentPairs, t.cards)
    ensures t == s.(cards := t.cards, currentPairs := t.currentPairs)
  {
    var dealt := SelectPairs(s.cards, first, second);
    s.(cards := dealt.pool, currentPairs := dealt.deck)
  }

  predicate AnySelected(deck: seq<Card>) {
    exists i :: 0 <= i < |deck| && deck[i].selected
  }

  /** `selectCard(index)`: append the index to `activeCards`, without any bound. */
  function SelectCard(s: State, index: nat): (t: State)
    ensures |t.activeCards| == |s.activeCards| + 1
    ensures t.activeCards[..|s.activeCards|] == s.activeCards
    ensures t.activeCards[|s.activeCards|] == index
    ensures t == s.(activeCards := t.activeCards)
  {
    s.(activeCards := s.activeCards + [index])
  }

  /** `selectPair(indexes)`: a copy of the deck with the cards at `indexes[0]` and
      `indexes[1]` marked as found. */
  function SelectPair(pairs: seq<Card>, indexes: seq<nat>): (r: seq<Card>)
    requires |indexes| >= 2 && indexes[0] < |pairs| && indexes[1] < |pairs|
    ensures |r| == |pairs|
    ensures forall k :: 0 <= k < |r| ==>
              r[k].image == pairs[k].image
              && r[k].selected == (pairs[k].selected || k == indexes[0] || k == indexes[1])
    ensures Images(r) == Images(pairs)
  {
    var newPairs := pairs[indexes[0] := pairs[indexes[0]].(selected := true)];
    newPairs[indexes[1] := newPairs[indexes[1]].(selected := true)]
  }

  /** The `verifyPair` effect: with at least two active cards, compare the first two;
      on equal images mark that pair found, otherwise count a mismatch; either way
      schedule a timer that clears `activeCards`. */
  function VerifyPair(s: State): (t: State)
    requires ActiveInDeck(s)
    ensures |s.activeCards| <= 1 ==> t == s
    ensures |s.activeCards| >= 2 && IsMatch(s) ==>
              t == s.(currentPairs := t.currentPairs, pendingClears := s.pendingClears + 1)
              && |t.currentPairs| == |s.currentPairs|
              && forall k :: 0 <= k < |t.currentPairs| ==>
                   t.currentPairs[k].image == s.currentPairs[k].image
                   && t.currentPairs[k].selected ==
                        (s.currentPairs[k].selected || k == s.activeCards[0] || k == s.activeCards[1])
    ensures |s.activeCards| >= 2 && !IsMatch(s) ==>
              t == s.(wrongPairs := s.wrongPairs + 1, pendingClears := s.pendingClears + 1)
  {
    if |s.activeCards| <= 1 then s
    else
      var evaluated :=
        if IsMatch(s) then s.(currentPairs := SelectPair(s.currentPairs, s.activeCards))
        else s.(wrongPairs := s.wrongPairs + 1);
      evaluated.(pendingClears := s.pendingClears + 1)
  }

  /** The `endGame` effect: `ended` is set once the deck is loaded and fully matched,
      and is never set back to false here. */
  function EndGame(s: State): (t: State)
    ensures t.ended <==> s.ended || (s.loaded && AllSelected(s.currentPairs))
    ensures t == s.(ended := t.ended)
  {
    if s.loaded && AllSelected(s.currentPairs) then s.(ended := true) else s
  }

  /** `restartGame`: deal a new deck, reset the mismatch count and the end flag.
      `activeCards` and pending timers are left as they are. */
  function RestartGame(s: State, first: seq<nat>, second: seq<nat>): (t: State)
    requires IsPicks(|s.cards|, first) && IsPicks(DeckSize(|s.cards|), second)
    ensures t.wrongPairs == 0 && !t.ended
    ensures |t.currentPairs| == DeckSize(|s.cards|) && !AnySelected(t.currentPairs)
    ensures multiset(t.cards) == multiset(s.cards) && PairsOf(t.currentPairs, t.cards)
    ensures t == s.(cards := t.cards, currentPairs := t.currentPairs, wrongPairs := 0, ended := false)
  {
    LoadPairs(s, first, second).(wrongPairs := 0, ended := false)
  }

  /** The `initGame` effect: for a non-empty pool, deal the deck and start the timer
      that later sets `loaded`. */
  function InitGame(s: State, first: seq<nat>, second: seq<nat>): (t: State)
    requires IsPicks(|s.cards|, first) && IsPicks(DeckSize(|s.cards|), second)
    ensures |s.cards| == 0 ==> t == s
    ensures |s.cards| > 0 ==>
              t.loadPending && !AnySelected(t.currentPairs)
              && multiset(t.cards) == multiset(s.cards) && PairsOf(t.currentPairs, t.cards)
              && t == s.(cards := t.cards, currentPairs := t.currentPairs, loadPending := true)
  {
    if |s.cards| > 0 then LoadPairs(s, first, second).(loadPending := true) else s
  }

  // ---------------------------------------------------------------------------
  // Events

  /** The fetch resolves with `pool` (`setCards`), which triggers `initGame`, and, when
      that dealt a deck, the `endGame` effect on the new deck. The source fetches once,
      on mount; here the fetch may resolve whenever no pool is installed, so also again
      after an empty pool. */
  function Fetched(s: State, pool: seq<string>, first: seq<nat>, second: seq<nat>): (t: State)
    requires Inv(s) && s.cards == []
    requires IsPicks(|pool|, first) && IsPicks(DeckSize(|pool|), second)
    ensures Inv(t)
    ensures !t.loaded && !t.ended && t.activeCards == [] && t.wrongPairs == s.wrongPairs
    ensures multiset(t.cards) == multiset(pool) && !AnySelected(t.currentPairs)
    ensures t.loadPending <==> |pool| > 0
    ensures t == s.(cards := t.cards, currentPairs := t.currentPairs, loadPending := |pool| > 0)
  {
    assert !s.loaded && !s.loadPending && !s.ended;
    assert s.currentPairs == [];
    IndicesNeedADeck(s.activeCards, |s.currentPairs|);
    var s1 := s.(cards := pool);
    var s2 := InitGame(s1, first, second);
    assert !s2.loaded && !s2.ended && s2.activeCards == [];
    if |pool| > 0 then EndGame(s2) else s2
  }

  /** The timer started by `initGame` fires: `setLoaded(true)`. */
  function LoadedTimer(s: State): (t: State)
    requires Inv(s) && s.loadPending
    ensures Inv(t) && t.loaded && !t.loadPending
    ensures SameRound(s, t) && t.activeCards == s.activeCards && t.ended == s.ended
    ensures t == s.(loaded := true, loadPending := false)
  {
    s.(loaded := true, loadPending := false)
  }

  /** A click on the card at `index`: the guard, then `selectCard`, then the
      `verifyPair` effect, then the `endGame` effect when `selectPair` produced a new
      deck. */
  function Click(s: State, index: nat): (t: State)
    requires Inv(s) && index < |s.currentPairs|
    ensures Inv(t) && SameRound(s, t)
    ensures !Clickable(s, index) ==> t == s
    ensures Clickable(s, index) ==> t.activeCards == s.activeCards + [index]
    ensures Clickable(s, index) && s.activeCards == [] ==> t == s.(activeCards := [index])
    ensures t.loaded == s.loaded && t.loadPending == s.loadPending
  {
    if !Clickable(s, index) then s
    else
      var s1 := SelectCard(s, index);
      var s2 := VerifyPair(s1);
      if IsMatch(s1) then EndGame(s2) else s2
  }

  /** A clear timer scheduled by `verifyPair` fires: `setActiveCards([])`. The
      `verifyPair` effect that follows sees no active card and does nothing. */
  function ClearTimer(s: State): (t: State)
    requires Inv(s) && s.pendingClears > 0
    ensures Inv(t) && SameRound(s, t) && t.currentPairs == s.currentPairs
    ensures t.activeCards == [] && t.pendingClears == s.pendingClears - 1
    ensures t.ended == s.ended && t.loaded == s.loaded
    ensures t == s.(activeCards := [], pendingClears := s.pendingClears - 1)
  {
    s.(activeCards := [], pendingClears := s.pendingClears - 1)
  }

  /** "Play again": `restartGame`, then the `endGame` effect on the new deck. */
  function Restart(s: State, first: seq<nat>, second: seq<nat>): (t: State)
    requires Inv(s)
    requires IsPicks(|s.cards|, first) && IsPicks(DeckSize(|s.cards|), second)
    ensures Inv(t)
  {
    EndGame(RestartGame(s, first, second))
  }

  // ---------------------------------------------------------------------------
  // Event sequences

  datatype Event =
    | FetchResolved(pool: seq<string>, first: seq<nat>, second: seq<nat>)
    | LoadedTimerFired
    | CardClicked(index: nat)
    | ClearTimerFired
    | PlayAgain(first: seq<nat>, second: seq<nat>)

  /** Whether the event can occur in `s`: the fetch resolves while no pool is
      installed; a timer fires only when scheduled; only cards on the table can be
      clicked. */
  predicate Enabled(s: State, e: Event) {
    match e
    case FetchResolved(pool, first, second) =>
      s.cards == [] && IsPicks(|pool|, first) && IsPicks(DeckSize(|pool|), second)
    case LoadedTimerFired => s.loadPending
    case CardClicked(index) => index < |s.currentPairs|
    case ClearTimerFired => s.pendingClears > 0
    case PlayAgain(first, second) =>
      IsPicks(|s.cards|, first) && IsPicks(DeckSize(|s.cards|), second)
  }

  function Step(s: State, e: Event): (t: State)
    requires Inv(s) && Enabled(s, e)
    ensures Inv(t)
  {
    match e
    case FetchResolved(pool, first, second) => Fetched(s, pool, first, second)
    case LoadedTimerFired => LoadedTimer(s)
    case CardClicked(index) => Click(s, index)
    case ClearTimerFired => ClearTimer(s)
    case PlayAgain(first, second) => Restart(s, first, second)
  }

  /** The state after `events`, or None if one of them cannot occur where it comes. */
  function Run(s: State, events: seq<Event>): (r: Option<State>)
    requires Inv(s)
    ensures r.Some? ==> Inv(r.value)
    decreases |events|
  {
    if events == [] then Some(s)
    else if Enabled(s, events[0]) then Run(Step(s, events[0]), events[1..])
    else None
  }

  /** Events that keep the current round: everything but a new pool or "Play again". */
  predicate InRound(e: Event) {
    !e.FetchResolved? && !e.PlayAgain?
  }
}
