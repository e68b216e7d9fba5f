# Higher or Lower — a Dafny model of the game core

The game deals from a shuffled 52-card deck. The player guesses whether the
next card is higher or lower than the current one. A right guess scores a
point and the drawn card becomes the current one. A wrong guess, or a tie,
ends the game. The best score is kept as the high score.

This project models three parts of that game and proves properties of them:

- `cards.dfy`, module `Cards`: the fixed tables of `constants.ts`. These are
  the four suits, the thirteen ranks with their values 2 to 14, the initial
  score and the messages. The module `Wrappers` holds the `Option` type that
  stands for the source's `Card | null`.
- `card_service.dfy`, module `CardService`: `createDeck` and `shuffleDeck` of
  `services/cardService.ts`.
  - The random index of each Fisher–Yates step is an input. `ValidPicks`
    defines the pick range of services/cardService.ts:32: one pick per
    position, and the pick for step `i` lies in `[0, i]`, the values
    `Math.floor(Math.random() * (i + 1))` can take.
  - `MakeCard` builds the record pushed at services/cardService.ts:13-17, with
    the value looked up in the table.
  - The shuffle is given twice. `ShuffleDeck` is a recursive function over
    the steps `i, i - 1, …, 1`. `ShuffleDeckInPlace` is the copy-then-swap
    array loop, proved to compute the same result.
- `game.dfy`, module `Game`: the round state machine of `App.tsx`
  (`initializeGame`, the high-score effect, `drawNextCard`, `handleGuess`,
  `handlePlayAgain`), written as pure transitions on a `GameState` record.
  - Each React setter is an immediate field update.
  - Each `await` of a delay is a boundary where the player sees the state.
    `GuessTrace` lists those states, and `HandleGuess` is the last one.
  - The high-score effect runs right after the score rises.

On top of the single operations, the model proves properties of whole games:

- `Settled` holds after every deal and after every guess. It says:
  - no card is in play twice;
  - every card carries its table value;
  - the score never exceeds the high score;
  - the score never exceeds the 51 cards left after the deal.
- `Play` runs any sequence of guesses and restarts, and the invariant holds
  throughout.

## Model

| member | source | states |
|---|---|---|
| Cards.CardSuits | constants.ts:3 | exactly four suits, pairwise distinct |
| Cards.EverySuitListed | constants.ts:3 | every suit appears in the suit list |
| Cards.RankValue | constants.ts:5-19 | every rank's value lies in 2..14 |
| Cards.CardRanks | constants.ts:5-19 | exactly 13 ranks, distinct, values strictly increasing in listed order, Two = 2 first and Ace = 14 last |
| Cards.EveryRankListed | constants.ts:5-19 | every rank is a key of the value table |
| Cards.RankValueInjective | constants.ts:6-18 | two ranks have the same value exactly when they are the same rank |
| Cards.RankValueExtremes | constants.ts:6-18 | Two has the lowest value and Ace the highest, and no other rank shares either |
| CardService.SuitRow | services/cardService.ts:11-19 | the inner loop pushes one card per rank key, all of the given suit, each with its table value |
| CardService.SuitRowCount | services/cardService.ts:11-19 | a suit's row holds each well-formed card of that suit and a listed rank exactly once, and no other card |
| CardService.DeckOf | services/cardService.ts:10-20 | the nested loops give 13 cards per suit, grouped in suit-list order (position i has suit i / 13), all with table values |
| CardService.DeckOfCount | services/cardService.ts:10-20 | the nested loops give each well-formed card of a listed suit and rank exactly once |
| CardService.CreateDeck | services/cardService.ts:8-22 | 52 cards, grouped by suit in suit-list order 13 per suit, every value the table entry for its rank |
| CardService.CreateDeckCount | services/cardService.ts:8-22 | the new deck contains every card whose value matches its rank exactly once, and no other card |
| CardService.CreateDeckNoDuplicates | services/cardService.ts:10-19 | no card occurs twice in the new deck |
| CardService.CreateDeckHasEveryPair | services/cardService.ts:10-19 | every (suit, rank) pair is in the new deck |
| CardService.CreateDeckPairsUnique | services/cardService.ts:10-19 | two positions of the new deck never hold the same (suit, rank) pair |
| CardService.NoDuplicatesIffDistinct | services/cardService.ts:10-19 | "no card occurs twice" counted by multiset holds exactly when the cards are pairwise distinct by position |
| CardService.DistinctHasNoDuplicates | services/cardService.ts:10-19 | pairwise distinct cards occur at most once each |
| CardService.Swap | services/cardService.ts:33 | the destructuring swap puts the card from j at i and the card from i at j, keeping the length |
| CardService.SwapKeepsOthers | services/cardService.ts:33 | a swap leaves every position other than i and j as it was |
| CardService.ShuffleDown | services/cardService.ts:31-34 | the loop from index i down to 1 keeps the length, and with i <= 0 it does nothing, as the test `i > 0` stops it |
| CardService.ShuffleDownKeepsTail | services/cardService.ts:31-34 | steps i down to 1 never touch a position above i, since each pick is at most its step index |
| CardService.SwapPermutes | services/cardService.ts:33 | one swap step keeps the same cards |
| CardService.ShuffleDownPermutes | services/cardService.ts:31-34 | the loop from index i down to 1 only rearranges the cards |
| CardService.ShuffleDeck | services/cardService.ts:29-36 | the shuffle keeps the length and the multiset of cards, and a deck of 0 or 1 card comes back unchanged |
| CardService.ShuffleDeckInPlace | services/cardService.ts:29-36 | the array loop on a fresh copy computes the same deck as the step-by-step definition, a permutation of its input |
| CardService.ShuffleDownAppend | services/cardService.ts:31-34 | steps i down to 1 never touch a card beyond position i |
| CardService.ShuffleLastStep | services/cardService.ts:31-34 | the shuffle is its first swap at the last index followed by a shuffle of the cards before it |
| CardService.ShuffleReaches | services/cardService.ts:29-36 | for every rearrangement of the input there are valid picks for which the shuffle produces it |
| CardService.ShuffleReachesEveryPermutation | services/cardService.ts:29-36 | every permutation of the deck is a possible outcome, the converse of the permutation property |
| CardService.ShuffleCanEndWith | services/cardService.ts:29-36 | any card of the deck can come out in the last position |
| CardService.ShuffleKeepsNoDuplicates | services/cardService.ts:29-36 | shuffling a deck without duplicates gives a deck without duplicates |
| Game.GuessIgnoredIff | App.tsx:81 | a guess is ignored exactly when the game is over, a card is being revealed, or there is no current card |
| Game.Mounted | App.tsx:8-18 | the state before the first deal: empty deck, no cards, score 0, the stored high score, and no guess accepted |
| Game.InitializeGame | App.tsx:29-47 | the deal: the current card is the last card of the shuffled fresh deck, the other 51 stay in order, score 0, no next card, not over, not revealing, high score untouched; the empty-deck error branch is never taken |
| Game.InitializeGameDealsEveryCard | App.tsx:29-41 | the deck and the current card together are exactly the 52 cards of a new deck |
| Game.InitializeGameSettles | App.tsx:29-41 | every deal produces a state satisfying the game invariant |
| Game.InitializeGameCanDealAnyCard | App.tsx:30-35 | every card can be the first one dealt |
| Game.SyncHighScore | App.tsx:55-60 | the high score becomes the larger of itself and the score, and nothing else changes |
| Game.DrawNextCard | App.tsx:62-78 | a non-empty deck yields its last card, leaves the prefix and changes nothing else; an empty deck yields no card, ends the game with the empty-deck message and clears the reveal and both cards |
| Game.Correct | App.tsx:115-120 | the correctness rule of the guess; a guess judged correct never involves a tie |
| Game.CorrectExactlyOneUnlessTie | App.tsx:115-120 | a tie is wrong for both guesses; otherwise exactly one of the two guesses is right |
| Game.CorrectByRank | App.tsx:115-120 | for deck cards a tie is exactly equal ranks, and "higher" wins exactly when the drawn rank comes later in the value table |
| Game.GuessTrace | App.tsx:80-149 | an accepted guess passes through states that are all revealing and not over, then ends with the reveal off; an ignored guess produces no state; the high score never drops on the way |
| Game.HandleGuess | App.tsx:80-149 | guard at line 81; draw from the end of the deck; win and continue; win with the deck exhausted; lose; empty deck |
| Game.HandlePlayAgain | App.tsx:151-155 | play again is exactly the deal of `initializeGame`: score 0, the default message, no next card, ready for a guess, 51 cards left, the high score kept, and the cards in play are the 52 cards of a new deck |
| Game.InPlayAfterDeal | App.tsx:29-41 | with no next card shown, the cards in play are the deck followed by the current card |
| Game.HandleGuessKeepsCards | App.tsx:80-149 | a guess never brings a card into play: the cards afterwards are a sub-multiset of those before |
| Game.HandleGuessKeepsSettled | App.tsx:80-149 | a guess from a settled state leads to a settled state |
| Game.SettledGuessDrawsACard | App.tsx:62-72 | in a settled game an accepted guess always finds a card to draw |
| Game.SecondGuessIgnored | App.tsx:81-84 | a second guess during any intermediate state of a guess changes nothing |
| Game.StepKeepsSettled | App.tsx:80-155 | one guess or restart keeps the game settled and the high score from dropping |
| Game.PlayKeepsSettled | App.tsx:80-155 | after any sequence of guesses and restarts the game stays settled, the high score has not dropped and the score is at most 51 |
| Game.GameFromMount | App.tsx:8-155 | from mounting through the first deal and any actions after it, the high score never falls below the stored one |

In `HandleGuess`, "win and continue" means: the score rises by 1, the high
score becomes the larger of the two, the drawn card becomes current, there
is no next card, and the game goes on with the default message. "Win with
the deck exhausted" means: the score rises by 1, the game ends with the
empty-deck message, and both cards are cleared. "Lose" means: the game ends
with the lose message, and the score, the high score and the current card
are untouched.

Two details of the code that the model keeps:

- After a wrong guess, `nextCard` holds the drawn card. The lose branch
  itself (App.tsx:142-147) does not touch the cards, but line 100 has
  already shown the drawn card.
- The empty-deck branch of `drawNextCard` (App.tsx:63-71) is kept. It is
  never reached from a game that started with a deal (`SettledGuessDrawsACard`),
  because a win on the last card already ends the game at App.tsx:134-141.

## Left out

- `components/CardDisplay.tsx` and the JSX of `App.tsx` (lines 157-213): rendering only. The `disabled` checks on the buttons repeat the guard of line 81.
- `Math.random` (services/cardService.ts:32): replaced by the pick sequence `js`; the uniformity of the shuffle is probabilistic and not modelled.
- The delays (App.tsx:87, 104, 128) and the interleaving of asynchronous callbacks: each delay is a boundary in `GuessTrace` and nothing else runs between the steps.
- The `mountedRef` checks (App.tsx:20-27 and every `mountedRef.current` guard): the view is taken as always mounted, so every guarded update happens.
- `localStorage` (App.tsx:13-14, 58): the stored high score is the parameter of `Mounted`; a stored text that `parseInt` cannot read or that is negative is not modelled, so the high score is a natural number.
- React's batching and stale closures: updates are immediate. The in-place `deck.pop()` is "drop the last card". The test `deck.length > 0` at line 129 sees the popped array, so it asks whether cards remain after the draw.
- The defensive branch at App.tsx:106-113 cannot be written in the model: once a card is drawn, both cards are present by construction.
- The key order of the `for...in` loop (services/cardService.ts:11) depends on the rank enum in a `types` module, which is not part of this model. The rank list is given explicitly, and the order within a suit is not stated in any contract.
- The input of `shuffleDeck` is never modified: sequences are values in Dafny, so this holds by construction and has no contract of its own.
- `Cards.MessageText` holds the six message texts; no property is stated about them.
