/**
  One round of "Higher or Lower" (App.tsx) as pure transitions on the game
  state. Every React setter is an immediate field update, the view is always
  mounted, and each `await` of a delay is a boundary at which the player sees
  the state so far. The picks of the shuffle stand in for `Math.random`.
 */
module Game {
  import opened Wrappers
  import opened Cards
  import opened CardService

  datatype Guess = Higher | Lower

  /** The eight pieces of component state, in the order they are declared. */
  datatype GameState = GameState(
    deck: seq<Card>,
    currentCard: Option<Card>,
    nextCard: Option<Card>,
    score: nat,
    highScore: nat,
    message: Message,
    gameOver: bool,
    revealing: bool)

  /** Number of cards `initializeGame` deals from. */
  const DeckSize: nat := 52

  /** The cards of the state: the deck, then the current and the next card. */
  function InPlay(s: GameState): seq<Card> {
    s.deck
    + (if s.currentCard.Some? then [s.currentCard.value] else [])
    + (if s.nextCard.Some? then [s.nextCard.value] else [])
  }

  /** Whether a guess is accepted rather than ignored. */
  predicate CanGuess(s: GameState) {
    !s.gameOver && !s.revealing && s.currentCard.Some?
  }

  /** The state on mount, before the first deal: `storedHighScore` is the
      high score kept from earlier sessions (0 when there is none). No guess is
      accepted before a card is dealt. */
  function Mounted(storedHighScore: nat): (s: GameState)
    ensures s.deck == [] && s.currentCard.None? && s.nextCard.None?
    ensures s.score == InitialScore && s.highScore == storedHighScore
    ensures s.message == DefaultMessage && !s.gameOver && !s.revealing
    ensures !CanGuess(s)
  {
    GameState([], None, None, InitialScore, storedHighScore, DefaultMessage, false, false)
  }

  /** `initializeGame`: shuffle a fresh deck, deal its last card as the
      current card and keep the other 51. The error branch for an empty deck
      is kept as written and is never taken. */
  function InitializeGame(s: GameState, js: seq<nat>): (r: GameState)
    requires ValidPicks(js, DeckSize)
    ensures !r.gameOver
    ensures |r.deck| == DeckSize - 1
    ensures r.currentCard == Some(ShuffleDeck(CreateDeck(), js)[DeckSize - 1])
    ensures r.deck + [r.currentCard.value] == ShuffleDeck(CreateDeck(), js)
    ensures r.nextCard.None? && r.score == InitialScore && !r.revealing
    ensures r.message == DefaultMessage
    ensures r.highScore == s.highScore
  {
    var shuffled := ShuffleDeck(CreateDeck(), js);
    if |shuffled| == 0 then
      s.(message := InitErrorMessage, gameOver := true)
    else
      var rest := shuffled[..|shuffled| - 1];
      var first := shuffled[|shuffled| - 1];
      assert shuffled == rest + [first];
      s.(deck := rest, currentCard := Some(first), nextCard := None,
         score := InitialScore, message := DefaultMessage, gameOver := false,
         revealing := false)
  }

  /** The high-score effect: after it the high score is the larger of the old
      high score and the score, and nothing else has changed. */
  function SyncHighScore(s: GameState): (r: GameState)
    ensures r.highScore >= s.highScore && r.highScore >= s.score
    ensures r.highScore == s.highScore || r.highScore == s.score
    ensures r == s.(highScore := r.highScore)
  {
    if s.score > s.highScore then s.(highScore := s.score) else s
  }

  /** `drawNextCard`: the state after the draw, and the card drawn if any. */
  datatype Draw = Draw(state: GameState, card: Option<Card>)

  /** `drawNextCard` takes the last card of a non-empty deck and changes
      nothing but the deck; on an empty deck it ends the game, clears both
      cards and the reveal, and draws nothing. */
  function DrawNextCard(s: GameState): (r: Draw)
    ensures r.card.None? <==> |s.deck| == 0
    ensures r.card.Some? ==>
      s.deck == r.state.deck + [r.card.value] && r.state == s.(deck := r.state.deck)
    ensures r.card.None? ==>
      r.state.gameOver && r.state.message == EmptyDeckMessage && !r.state.revealing
      && r.state.currentCard.None? && r.state.nextCard.None?
      && r.state == s.(message := r.state.message, gameOver := true, revealing := false,
                       currentCard := None, nextCard := None)
  {
    if |s.deck| == 0 then
      Draw(s.(message := EmptyDeckMessage, gameOver := true, revealing := false,
              currentCard := None, nextCard := None), None)
    else
      var last := |s.deck| - 1;
      assert s.deck == s.deck[..last] + [s.deck[last]];
      Draw(s.(deck := s.deck[..last]), Some(s.deck[last]))
  }

  /** Whether `guess` is right about `drawn` following `current`. */
  predicate Correct(guess: Guess, current: Card, drawn: Card)
    ensures Correct(guess, current, drawn) ==> drawn.value != current.value
  {
    match guess
    case Higher => drawn.value > current.value
    case Lower => drawn.value < current.value
  }

  /** A tie loses whichever way the player guessed; otherwise exactly one
      guess wins. */
  lemma CorrectExactlyOneUnlessTie(current: Card, drawn: Card)
    ensures drawn.value == current.value ==>
      !Correct(Higher, current, drawn) && !Correct(Lower, current, drawn)
    ensures drawn.value != current.value ==>
      Correct(Higher, current, drawn) != Correct(Lower, current, drawn)
  {
  }

  /** For cards of the deck, a tie is exactly a pair of equal ranks, and
      "higher" means a later rank in the value table. */
  lemma CorrectByRank(current: Card, drawn: Card)
    requires WellFormed(current) && WellFormed(drawn)
    ensures (!Correct(Higher, current, drawn) && !Correct(Lower, current, drawn))
            <==> current.rank == drawn.rank
    ensures Correct(Higher, current, drawn) <==> RankValue(drawn.rank) > RankValue(current.rank)
  {
    RankValueInjective(current.rank, drawn.rank);
  }

  /** The states the player sees during one accepted guess, one per `await`
      and then the final one: "drawing" with the reveal on; the drawn card
      shown; on a win the raised score (with the high score synced); then the
      next round or the end of the game. */
  function GuessTrace(s: GameState, g: Guess): (trace: seq<GameState>)
    ensures |trace| > 0 <==> CanGuess(s)
    ensures forall i :: 0 <= i < |trace| - 1 ==> trace[i].revealing && !trace[i].gameOver
    ensures |trace| > 0 ==> !trace[|trace| - 1].revealing
    ensures forall i :: 0 <= i < |trace| ==> trace[i].highScore >= s.highScore
  {
    if !CanGuess(s) then []
    else
      var waiting := s.(revealing := true, message := DrawingMessage);
      var draw := DrawNextCard(waiting);
      if draw.card.None? then
        [waiting, draw.state.(revealing := false)]
      else
        var drawn := draw.card.value;
        var shown := draw.state.(nextCard := Some(drawn));
        if Correct(g, s.currentCard.value, drawn) then
          var won := SyncHighScore(shown.(score := shown.score + 1, message := WinMessage));
          var next :=
            if |won.deck| > 0 then
              won.(currentCard := Some(drawn), nextCard := None,
                   message := DefaultMessage, revealing := false)
            else
              won.(message := EmptyDeckMessage, gameOver := true, revealing := false,
                   currentCard := None, nextCard := None);
          [waiting, shown, won, next]
        else
          [waiting, shown,
           shown.(message := LoseMessage, gameOver := true, revealing := false)]
  }

  /** `handleGuess`: the state once the guess has played out. */
  function HandleGuess(s: GameState, g: Guess): (r: GameState)
    // the guard: a guess while the game is over, while a card is being
    // revealed or before a card is dealt changes nothing
    ensures !CanGuess(s) ==> r == s
    // an accepted guess always ends with the reveal off and never lowers the
    // high score
    ensures !r.revealing || r == s
    ensures r.highScore >= s.highScore
    // nothing to draw
    ensures CanGuess(s) && |s.deck| == 0 ==>
      r == s.(message := EmptyDeckMessage, gameOver := true, revealing := false,
              currentCard := None, nextCard := None)
    // a card is drawn from the end of the deck
    ensures CanGuess(s) && |s.deck| > 0 ==> r.deck == s.deck[..|s.deck| - 1]
    // win, cards remain: the drawn card is the new current card
    ensures CanGuess(s) && |s.deck| > 1 && Correct(g, s.currentCard.value, s.deck[|s.deck| - 1]) ==>
      && r.score == s.score + 1
      && r.highScore == (if s.score + 1 > s.highScore then s.score + 1 else s.highScore)
      && r.currentCard == Some(s.deck[|s.deck| - 1]) && r.nextCard.None?
      && !r.gameOver && r.message == DefaultMessage
    // win with the last card: the game ends and both cards are cleared
    ensures CanGuess(s) && |s.deck| == 1 && Correct(g, s.currentCard.value, s.deck[0]) ==>
      && r.score == s.score + 1
      && r.highScore == (if s.score + 1 > s.highScore then s.score + 1 else s.highScore)
      && r.currentCard.None? && r.nextCard.None?
      && r.gameOver && r.message == EmptyDeckMessage
    // loss: the game ends showing both cards, the score unchanged
    ensures CanGuess(s) && |s.deck| > 0 && !Correct(g, s.currentCard.value, s.deck[|s.deck| - 1]) ==>
      && r.score == s.score && r.highScore == s.highScore
      && r.currentCard == s.currentCard && r.nextCard == Some(s.deck[|s.deck| - 1])
      && r.gameOver && r.message == LoseMessage
  {
    var trace := GuessTrace(s, g);
    if |trace| == 0 then s else trace[|trace| - 1]
  }

  /** The guard is exact: a guess leaves the state as it was precisely when
      the game is over, a card is being revealed or no card is dealt. */
  lemma GuessIgnoredIff(s: GameState, g: Guess)
    ensures HandleGuess(s, g) == s <==> !CanGuess(s)
  {
  }

  /** `handlePlayAgain`: a new game dealt from a freshly shuffled deck, ready
      for a guess, with the high score kept. */
  function HandlePlayAgain(s: GameState, js: seq<nat>): (r: GameState)
    requires ValidPicks(js, DeckSize)
    ensures r == InitializeGame(s, js)
    ensures CanGuess(r) && r.score == InitialScore && r.highScore == s.highScore
    ensures r.message == DefaultMessage && r.nextCard.None?
    ensures |r.deck| == DeckSize - 1
    ensures multiset(InPlay(r)) == multiset(CreateDeck())
  {
    InitializeGameDealsEveryCard(s, js);
    InitializeGame(s, js)
  }

  // ---------------------------------------------------------------------------
  // Properties of whole games
  // ---------------------------------------------------------------------------

  /** The state between guesses from the first deal on: no reveal in
      progress, the score within the high score, at most one point per card
      dealt, a running game has a current card and cards left to draw, and the
      cards in play are cards of the deck, none twice. */
  ghost predicate Settled(s: GameState) {
    && !s.revealing
    && s.score <= s.highScore
    && s.score + |s.deck| < DeckSize
    && (!s.gameOver ==> s.currentCard.Some? && s.nextCard.None? && 0 < |s.deck|)
    && (forall c :: c in InPlay(s) ==> WellFormed(c))
    && NoDuplicates(InPlay(s))
  }

  /** With no next card shown, the cards in play are the deck and then the
      current card. */
  lemma InPlayAfterDeal(r: GameState)
    requires r.currentCard.Some? && r.nextCard.None?
    ensures InPlay(r) == r.deck + [r.currentCard.value]
  {
  }

  /** A deal uses the whole shuffled deck: the cards in play are the 52 cards,
      each once. */
  lemma InitializeGameDealsEveryCard(s: GameState, js: seq<nat>)
    requires ValidPicks(js, DeckSize)
    ensures multiset(InPlay(InitializeGame(s, js))) == multiset(CreateDeck())
  {
    InPlayAfterDeal(InitializeGame(s, js));
  }

  /** Every deal starts a settled game. */
  lemma InitializeGameSettles(s: GameState, js: seq<nat>)
    requires ValidPicks(js, DeckSize)
    ensures Settled(InitializeGame(s, js))
  {
    var r := InitializeGame(s, js);
    InitializeGameDealsEveryCard(s, js);
    CreateDeckNoDuplicates();
    NoDuplicatesWithin(InPlay(r), CreateDeck());
    forall c | c in InPlay(r)
      ensures WellFormed(c)
    {
      assert c in multiset(CreateDeck());
    }
  }

  /** Any card of the deck can be the first card dealt. */
  lemma InitializeGameCanDealAnyCard(s: GameState, c: Card)
    requires WellFormed(c)
    ensures exists js :: ValidPicks(js, DeckSize) && InitializeGame(s, js).currentCard == Some(c)
  {
    CreateDeckHasEveryPair(c.suit, c.rank);
    assert MakeCard(c.suit, c.rank) == c;
    ShuffleCanEndWith(CreateDeck(), c);
    var js :| ValidPicks(js, DeckSize) && ShuffleDeck(CreateDeck(), js)[DeckSize - 1] == c;
    assert InitializeGame(s, js).currentCard == Some(c);
  }

  /** A guess never brings a card into play: the cards in play afterwards are
      among those in play before. */
  lemma HandleGuessKeepsCards(s: GameState, g: Guess)
    ensures multiset(InPlay(HandleGuess(s, g))) <= multiset(InPlay(s))
  {
    var r := HandleGuess(s, g);
    if CanGuess(s) && |s.deck| > 0 {
      var n := |s.deck| - 1;
      var drawn := s.deck[n];
      assert s.deck == s.deck[..n] + [drawn];
      if r.gameOver && r.message == LoseMessage {
        assert InPlay(r) == s.deck[..n] + [s.currentCard.value] + [drawn];
      } else if !r.gameOver {
        assert InPlay(r) == s.deck;
      } else {
        assert InPlay(r) == [];
      }
    }
  }

  /** A guess from a settled state leads to a settled state. */
  lemma HandleGuessKeepsSettled(s: GameState, g: Guess)
    requires Settled(s)
    ensures Settled(HandleGuess(s, g))
  {
    var r := HandleGuess(s, g);
    HandleGuessKeepsCards(s, g);
    NoDuplicatesWithin(InPlay(r), InPlay(s));
    forall c | c in InPlay(r)
      ensures WellFormed(c)
    {
      assert c in multiset(InPlay(s));
    }
  }

  /** In a settled game the deck is never empty when a guess is accepted, so
      the empty-deck branch of the draw is only reached from other states. */
  lemma SettledGuessDrawsACard(s: GameState)
    requires Settled(s) && CanGuess(s)
    ensures |s.deck| > 0 && DrawNextCard(s).card.Some?
  {
  }

  /** While a card is being revealed, any further guess is ignored. */
  lemma SecondGuessIgnored(s: GameState, g: Guess, g2: Guess, i: nat)
    requires i + 1 < |GuessTrace(s, g)|
    ensures HandleGuess(GuessTrace(s, g)[i], g2) == GuessTrace(s, g)[i]
  {
  }

  /** What the player does: guess, or start a new game with fresh picks. */
  datatype Action = Guessed(guess: Guess) | PlayedAgain(picks: seq<nat>)

  predicate ValidAction(a: Action) {
    a.PlayedAgain? ==> ValidPicks(a.picks, DeckSize)
  }

  function Step(s: GameState, a: Action): GameState
    requires ValidAction(a)
  {
    match a
    case Guessed(g) => HandleGuess(s, g)
    case PlayedAgain(js) => HandlePlayAgain(s, js)
  }

  /** One action keeps a settled game settled and the high score from
      dropping. */
  lemma StepKeepsSettled(s: GameState, a: Action)
    requires Settled(s) && ValidAction(a)
    ensures Settled(Step(s, a)) && Step(s, a).highScore >= s.highScore
  {
    match a
    case Guessed(g) => HandleGuessKeepsSettled(s, g);
    case PlayedAgain(js) => InitializeGameSettles(s, js);
  }

  /** The state after the player's actions, taken in order. */
  function Play(s: GameState, actions: seq<Action>): GameState
    requires forall i :: 0 <= i < |actions| ==> ValidAction(actions[i])
    decreases |actions|
  {
    if actions == [] then s else Play(Step(s, actions[0]), actions[1..])
  }

  /** Whatever the player does, a settled game stays settled, the high score
      never drops and the score never exceeds the 51 cards left after the
      deal. */
  lemma {:induction false} PlayKeepsSettled(s: GameState, actions: seq<Action>)
    requires Settled(s)
    requires forall i :: 0 <= i < |actions| ==> ValidAction(actions[i])
    ensures Settled(Play(s, actions))
    ensures Play(s, actions).highScore >= s.highScore
    ensures Play(s, actions).score < DeckSize
    decreases |actions|
  {
    if actions != [] {
      var t := Step(s, actions[0]);
      StepKeepsSettled(s, actions[0]);
      PlayKeepsSettled(t, actions[1..]);
      assert Play(s, actions) == Play(t, actions[1..]);
    }
  }

  /** From mounting, the first deal and any actions after it, the high score
      never falls below the stored one and the game stays settled. */
  lemma GameFromMount(storedHighScore: nat, js: seq<nat>, actions: seq<Action>)
    requires ValidPicks(js, DeckSize)
    requires forall i :: 0 <= i < |actions| ==> ValidAction(actions[i])
    ensures Settled(Play(InitializeGame(Mounted(storedHighScore), js), actions))
    ensures Play(InitializeGame(Mounted(storedHighScore), js), actions).highScore >= storedHighScore
  {
    InitializeGameSettles(Mounted(storedHighScore), js);
    PlayKeepsSettled(InitializeGame(Mounted(storedHighScore), js), actions);
  }
}
