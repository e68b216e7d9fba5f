/** A value that may be absent: the model of the source's `Card | null`. */
module Wrappers {

  datatype Option<+T> = None | Some(value: T)
}

/**
  The fixed tables of the game (constants.ts): the four suits, the thirteen
  ranks with their values 2 through 14, the initial score and the messages
  shown to the player.
 */
module Cards {

  datatype Suit = Hearts | Diamonds | Clubs | Spades

  datatype Rank = Two | Three | Four | Five | Six | Seven | Eight | Nine | Ten
                | Jack | Queen | King | Ace

  /** A playing card. As in the source's record, `value` is stored beside
      `rank`; a card built by the deck service has `WellFormed` value. */
  datatype Card = Card(suit: Suit, rank: Rank, value: int)

  /** No element occurs twice. */
  predicate Distinct<T(==)>(s: seq<T>) {
    forall i, j :: 0 <= i < j < |s| ==> s[i] != s[j]
  }

  /** The suit list, in the order the deck is built. */
  function CardSuits(): (suits: seq<Suit>)
    ensures |suits| == 4
    ensures Distinct(suits)
  {
    [Hearts, Diamonds, Clubs, Spades]
  }

  /** Every suit is listed. */
  lemma EverySuitListed(s: Suit)
    ensures s in CardSuits()
  {
    match s
    case Hearts =>
    case Diamonds =>
    case Clubs =>
    case Spades =>
  }

  /** The value table: the value the deck service gives each rank. */
  function RankValue(r: Rank): (v: int)
    ensures 2 <= v <= 14
  {
    match r
    case Two => 2
    case Three => 3
    case Four => 4
    case Five => 5
    case Six => 6
    case Seven => 7
    case Eight => 8
    case Nine => 9
    case Ten => 10
    case Jack => 11
    case Queen => 12
    case King => 13
    case Ace => 14
  }

  /** The keys of the value table, in the order they are listed. */
  function CardRanks(): (ranks: seq<Rank>)
    ensures |ranks| == 13
    ensures Distinct(ranks)
    ensures forall i, j :: 0 <= i < j < |ranks| ==> RankValue(ranks[i]) < RankValue(ranks[j])
    ensures ranks[0] == Two && RankValue(ranks[0]) == 2
    ensures ranks[12] == Ace && RankValue(ranks[12]) == 14
  {
    [Two, Three, Four, Five, Six, Seven, Eight, Nine, Ten, Jack, Queen, King, Ace]
  }

  /** Every rank is a key of the value table. */
  lemma EveryRankListed(r: Rank)
    ensures r in CardRanks()
  {
    match r
    case Two => case Three => case Four => case Five => case Six =>
    case Seven => case Eight => case Nine => case Ten =>
    case Jack => case Queen => case King => case Ace =>
  }

  /** Distinct ranks have distinct values, so comparing values orders ranks. */
  lemma RankValueInjective(r1: Rank, r2: Rank)
    ensures RankValue(r1) == RankValue(r2) <==> r1 == r2
  {
    var ranks := CardRanks();
    EveryRankListed(r1);
    EveryRankListed(r2);
    var i :| 0 <= i < |ranks| && ranks[i] == r1;
    var j :| 0 <= j < |ranks| && ranks[j] == r2;
    if i < j {
      assert RankValue(r1) < RankValue(r2);
    } else if j < i {
      assert RankValue(r2) < RankValue(r1);
    }
  }

  /** Two is the lowest rank and Ace the highest. */
  lemma RankValueExtremes(r: Rank)
    ensures RankValue(Two) <= RankValue(r) <= RankValue(Ace)
    ensures RankValue(r) == RankValue(Two) ==> r == Two
    ensures RankValue(r) == RankValue(Ace) ==> r == Ace
  {
    var ranks := CardRanks();
    EveryRankListed(r);
    var i :| 0 <= i < |ranks| && ranks[i] == r;
    if 0 < i {
      assert RankValue(ranks[0]) < RankValue(ranks[i]);
    }
    if i < 12 {
      assert RankValue(ranks[i]) < RankValue(ranks[12]);
    }
  }

  /** A card whose value is the table entry for its rank. */
  predicate WellFormed(c: Card) {
    c.value == RankValue(c.rank)
  }

  /** The card the deck service builds for a (suit, rank) pair. */
  function MakeCard(suit: Suit, rank: Rank): Card {
    Card(suit, rank, RankValue(rank))
  }

  /** The score a new game starts from. */
  const InitialScore: nat := 0

  /** The messages shown to the player. */
  datatype Message =
    | DefaultMessage
    | WinMessage
    | LoseMessage
    | EmptyDeckMessage
    | DrawingMessage
    | InitErrorMessage

  function MessageText(m: Message): string {
    match m
    case DefaultMessage => "Guess Higher or Lower!"
    case WinMessage => "Correct! Keep going!"
    case LoseMessage => "Wrong guess! Game Over."
    case EmptyDeckMessage => "No more cards! Deck shuffled for a new game."
    case DrawingMessage => "Drawing next card..."
    case InitErrorMessage => "Error: Could not create initial deck."
  }
}
