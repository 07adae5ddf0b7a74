/** Properties of the game controller modelled in GameSpec: what a click may change,
    how a pair is evaluated and cleared, what stays fixed within a round, when the
    game ends and what "Play again" resets. */
module GameProperties {
  import opened Deck
  import opened GameSpec

  // ---------------------------------------------------------------------------
  // Clicks and pair evaluation

  /** A click on a second card whose image differs from the first: one mismatch is
      counted, no card changes, and once the clear timer fires both cards are face
      down again. */
  lemma MismatchThenClear(s: State, index: nat)
    requires Inv(s) && index < |s.currentPairs| && |s.activeCards| == 1
    requires Clickable(s, index)
    requires s.currentPairs[s.activeCards[0]].image != s.currentPairs[index].image
    ensures var t := Click(s, index);
            t.pendingClears > 0
            && t.wrongPairs == s.wrongPairs + 1
            && t.currentPairs == s.currentPairs
            && |t.activeCards| == 2
            && var u := ClearTimer(t);
               u.activeCards == [] && u.currentPairs == s.currentPairs
               && u.wrongPairs == s.wrongPairs + 1 && u.pendingClears == s.pendingClears
  {
  }

  /** A click on a second card with the same image as the first: exactly those two
      cards become selected, every other card and the mismatch count stay as they
      are, and once the clear timer fires no card is face up. */
  lemma MatchThenClear(s: State, index: nat)
    requires Inv(s) && index < |s.currentPairs| && |s.activeCards| == 1
    requires Clickable(s, index)
    requires s.currentPairs[s.activeCards[0]].image == s.currentPairs[index].image
    ensures var t := Click(s, index);
            var u := ClearTimer(t);
            t.wrongPairs == s.wrongPairs
            && |t.currentPairs| == |s.currentPairs|
            && (forall k :: 0 <= k < |s.currentPairs| ==>
                  t.currentPairs[k].image == s.currentPairs[k].image
                  && t.currentPairs[k].selected ==
                       (s.currentPairs[k].selected || k == s.activeCards[0] || k == index))
            && u.activeCards == [] && u.currentPairs == t.currentPairs
            && u.wrongPairs == s.wrongPairs
  {
  }

  /** Nothing bounds `activeCards`: a third card clicked while the first two wait for
      their clear timer is appended, and `verifyPair` evaluates the same first two
      cards again, so a mismatch is counted a second time. */
  lemma ThirdClickReevaluates(s: State, index: nat)
    requires Inv(s) && index < |s.currentPairs| && |s.activeCards| == 2
    requires Clickable(s, index)
    ensures var t := Click(s, index);
            |t.activeCards| == 3
            && t.activeCards == s.activeCards + [index]
            && t.pendingClears == s.pendingClears + 1
            && (!IsMatch(s) ==> t.wrongPairs == s.wrongPairs + 1 && t.currentPairs == s.currentPairs)
            && (IsMatch(s) ==>
                  t.wrongPairs == s.wrongPairs
                  && forall k :: 0 <= k < |s.currentPairs| ==>
                       t.currentPairs[k].selected ==
                         (s.currentPairs[k].selected || k == s.activeCards[0] || k == s.activeCards[1]))
  {
  }

  /** The guard only looks at the first two entries of `activeCards`: a card that sits
      at a later position, unmatched, can be clicked again and is appended once more. */
  lemma GuardIgnoresLaterEntries(s: State)
    requires Inv(s) && |s.activeCards| >= 3
    requires s.activeCards[2] != s.activeCards[0] && s.activeCards[2] != s.activeCards[1]
    requires !s.currentPairs[s.activeCards[2]].selected
    ensures var index := s.activeCards[2];
            Click(s, index).activeCards == s.activeCards + [index]
  {
  }

  // ---------------------------------------------------------------------------
  // Rounds

  lemma SameRoundTransitive(a: State, b: State, c: State)
    requires SameRound(a, b) && SameRound(b, c)
    ensures SameRound(a, c)
  {
  }

  /** Within a round (no new pool, no "Play again"), whatever happens: the deck keeps
      its images, a found pair stays found, the mismatch count never goes down, and
      neither `loaded` nor `ended` goes back to false. */
  lemma {:induction false} RoundIsMonotone(s: State, events: seq<Event>)
    requires Inv(s)
    requires forall k :: 0 <= k < |events| ==> InRound(events[k])
    requires Run(s, events).Some?
    ensures SameRound(s, Run(s, events).value)
    decreases |events|
  {
    if events != [] {
      var t := Step(s, events[0]);
      assert forall k :: 0 <= k < |events| - 1 ==> InRound(events[1..][k]) by {
        forall k | 0 <= k < |events| - 1 ensures InRound(events[1..][k]) {
          assert events[1..][k] == events[k + 1];
        }
      }
      assert InRound(events[0]);
      RoundIsMonotone(t, events[1..]);
      SameRoundTransitive(s, t, Run(s, events).value);
    }
  }

  /** Only "Play again" lowers the mismatch count, and it lowers it to 0. */
  lemma {:induction false} OnlyRestartResetsMismatches(s: State, events: seq<Event>)
    requires Inv(s)
    requires forall k :: 0 <= k < |events| ==> !events[k].PlayAgain?
    requires Run(s, events).Some?
    ensures Run(s, events).value.wrongPairs >= s.wrongPairs
    decreases |events|
  {
    if events != [] {
      var t := Step(s, events[0]);
      assert t.wrongPairs >= s.wrongPairs by {
        assert !events[0].PlayAgain?;
      }
      assert forall k :: 0 <= k < |events| - 1 ==> !events[1..][k].PlayAgain? by {
        forall k | 0 <= k < |events| - 1 ensures !events[1..][k].PlayAgain? {
          assert events[1..][k] == events[k + 1];
        }
      }
      OnlyRestartResetsMismatches(t, events[1..]);
    }
  }

  /** Only a new pool or "Play again" replaces the deck: every other event leaves the
      images where they are. */
  lemma InRoundKeepsImages(s: State, e: Event)
    requires Inv(s) && Enabled(s, e) && InRound(e)
    ensures Images(Step(s, e).currentPairs) == Images(s.currentPairs)
  {
  }

  // ---------------------------------------------------------------------------
  // The end of a game

  /** Once over, a game stays over until "Play again". */
  lemma EndedUntilRestart(s: State, e: Event)
    requires Inv(s) && Enabled(s, e) && s.ended
    requires !e.PlayAgain?
    ensures Step(s, e).ended
  {
  }

  /** A click ends a running game exactly when the deck is loaded and the click found
      the last pair. */
  lemma ClickEndsGameIff(s: State, index: nat)
    requires Inv(s) && index < |s.currentPairs| && !s.ended
    ensures var t := Click(s, index);
            t.ended <==> s.loaded && !AllSelected(s.currentPairs) && AllSelected(t.currentPairs)
  {
  }

  /** "Play again" starts a new round: a fresh face-down deck of the same size taken
      from the same pool, no mismatches, the game not over. `activeCards` and the
      pending clear timers are kept as they were. */
  lemma RestartResets(s: State, first: seq<nat>, second: seq<nat>)
    requires Inv(s)
    requires IsPicks(|s.cards|, first) && IsPicks(DeckSize(|s.cards|), second)
    ensures var t := Restart(s, first, second);
            t.wrongPairs == 0 && !t.ended
            && |t.currentPairs| == |s.currentPairs|
            && (forall i :: 0 <= i < |t.currentPairs| ==> !t.currentPairs[i].selected)
            && multiset(t.cards) == multiset(s.cards)
            && PairsOf(t.currentPairs, t.cards)
            && t.activeCards == s.activeCards && t.pendingClears == s.pendingClears
            && t.loaded == s.loaded && t.loadPending == s.loadPending
  {
  }

  // ---------------------------------------------------------------------------
  // A whole game on the deck A B A B

  const A := Card("A", false)
  const B := Card("B", false)
  const FOUND_A := Card("A", true)
  const FOUND_B := Card("B", true)

  /** A deck showing A B A B holds the pairs of the pool A B. */
  lemma AbabIsPairsOf(deck: seq<Card>)
    requires Images(deck) == ["A", "B"] + ["A", "B"]
    ensures PairsOf(deck, ["A", "B"])
  {
    assert ["A", "B"][..Min(PAIR_LIMIT, 2)] == ["A", "B"];
  }

  /** The loaded deck A B A B, nothing face up. */
  const START := State(true, ["A", "B"], [A, B, A, B], [], 0, false, 0, false)

  /** Clicking 0 and then 2 finds the A pair and schedules one clear timer. */
  lemma FirstPairFound()
    ensures Inv(START)
    ensures Click(Click(START, 0), 2)
            == START.(currentPairs := [FOUND_A, B, FOUND_A, B], activeCards := [0, 2], pendingClears := 1)
  {
    assert DeckSize(2) == 4;
    assert Images(START.currentPairs) == ["A", "B"] + ["A", "B"];
    AbabIsPairsOf(START.currentPairs);
    var a := Click(START, 0);
    assert a == START.(activeCards := [0]);
    assert IsMatch(SelectCard(a, 2));
    var found := SelectPair([A, B, A, B], [0, 2]);
    assert found == [FOUND_A, B, FOUND_A, B];
    assert !found[1].selected;
  }

  const FIRST_FOUND := START.(currentPairs := [FOUND_A, B, FOUND_A, B], activeCards := [0, 2], pendingClears := 1)
  const CLEARED := START.(currentPairs := [FOUND_A, B, FOUND_A, B])

  /** After the clear timer, clicking 1 and then 3 finds the B pair, which ends the game
      with no mismatch counted. */
  lemma SecondPairEndsGame()
    ensures Inv(FIRST_FOUND) && ClearTimer(FIRST_FOUND) == CLEARED
    ensures Click(Click(CLEARED, 1), 3)
            == CLEARED.(currentPairs := [FOUND_A, FOUND_B, FOUND_A, FOUND_B], activeCards := [1, 3],
                        pendingClears := 1, ended := true)
  {
    assert Images(FIRST_FOUND.currentPairs) == ["A", "B"] + ["A", "B"];
    AbabIsPairsOf(FIRST_FOUND.currentPairs);
  }

  /** "Play again" after that game deals a fresh deck: running, no mismatch, four cards. */
  lemma PlayAgainAfterWin()
    ensures var won := CLEARED.(currentPairs := [FOUND_A, FOUND_B, FOUND_A, FOUND_B], activeCards := [1, 3],
                                pendingClears := 1, ended := true);
            Inv(won)
            && var t := Restart(won, [0, 0], [0, 0, 0, 0]);
               !t.ended && t.wrongPairs == 0 && |t.currentPairs| == 4 && t.activeCards == [1, 3]
  {
    assert DeckSize(2) == 4;
    var won := CLEARED.(currentPairs := [FOUND_A, FOUND_B, FOUND_A, FOUND_B], activeCards := [1, 3],
                        pendingClears := 1, ended := true);
    assert AllSelected(won.currentPairs);
    assert Images(won.currentPairs) == ["A", "B"] + ["A", "B"];
    AbabIsPairsOf(won.currentPairs);
    RestartResets(won, [0, 0], [0, 0, 0, 0]);
  }
}
