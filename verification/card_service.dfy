/**
  The deck service (services/cardService.ts): building the standard 52-card
  deck and shuffling a copy of it with the Fisher-Yates (Knuth) algorithm.

  The random index drawn at step `i` of the shuffle is an input here: `js[i]`
  is the `j` that `Math.floor(Math.random() * (i + 1))` produced, so every
  pick lies in `[0, i]`. With the picks fixed the shuffle is a function.
 */
module CardService {

  import opened Cards

  /** No card occurs twice, counted through the multiset of the deck; it is
      equivalent to the positional `Distinct` (`NoDuplicatesIffDistinct`). */
  ghost predicate NoDuplicates(s: seq<Card>) {
    forall c :: multiset(s)[c] <= 1
  }

  /** The multiset form of "no card twice" is the positional `Distinct` of
      the tables: the two definitions agree. */
  lemma NoDuplicatesIffDistinct(s: seq<Card>)
    ensures NoDuplicates(s) <==> Distinct(s)
  {
    if NoDuplicates(s) {
      forall i, j | 0 <= i < j < |s|
        ensures s[i] != s[j]
      {
        NoDuplicatesAtPositions(s, i, j);
      }
    } else {
      assert !Distinct(s) by {
        if Distinct(s) {
          DistinctHasNoDuplicates(s);
        }
      }
    }
  }

  /** Pairwise distinct cards occur once each. */
  lemma {:induction false} DistinctHasNoDuplicates(s: seq<Card>)
    requires Distinct(s)
    ensures NoDuplicates(s)
  {
    if s != [] {
      var rest := s[1..];
      assert Distinct(rest) by {
        forall i, j | 0 <= i < j < |rest|
          ensures rest[i] != rest[j]
        {
          assert rest[i] == s[i + 1] && rest[j] == s[j + 1];
        }
      }
      DistinctHasNoDuplicates(rest);
      assert s == [s[0]] + rest;
      assert s[0] !in rest by {
        forall k | 0 <= k < |rest|
          ensures rest[k] != s[0]
        {
          assert rest[k] == s[k + 1];
        }
      }
      forall c
        ensures multiset(s)[c] <= 1
      {
        assert multiset(s)[c] == multiset([s[0]])[c] + multiset(rest)[c];
      }
    }
  }

  /** A part of a deck without duplicates has none either. */
  lemma NoDuplicatesWithin(a: seq<Card>, b: seq<Card>)
    requires multiset(a) <= multiset(b) && NoDuplicates(b)
    ensures NoDuplicates(a)
  {
  }

  /** Two positions holding the same card make it occur twice. */
  lemma NoDuplicatesAtPositions(s: seq<Card>, i: nat, j: nat)
    requires NoDuplicates(s)
    requires i < j < |s|
    ensures s[i] != s[j]
  {
    assert s == s[..j] + s[j..];
    assert s[i] in s[..j];
    assert s[j] in s[j..];
    assert multiset(s)[s[j]] == multiset(s[..j])[s[j]] + multiset(s[j..])[s[j]];
    assert s[j] !in s[..j];
  }

  // ---------------------------------------------------------------------------
  // createDeck
  // ---------------------------------------------------------------------------

  /** The inner loop of `createDeck`: one card of `suit` for each key of the
      value table, pushed in iteration order. Object keys never repeat. */
  function SuitRow(suit: Suit, ranks: seq<Rank>): (row: seq<Card>)
    requires Distinct(ranks)
    ensures |row| == |ranks|
    ensures forall c :: c in row ==> c.suit == suit && WellFormed(c)
  {
    seq(|ranks|, k requires 0 <= k < |ranks| => MakeCard(suit, ranks[k]))
  }

  /** A row holds each well-formed card of its suit and listed ranks once. */
  lemma {:induction false} SuitRowCount(suit: Suit, ranks: seq<Rank>, c: Card)
    requires Distinct(ranks)
    ensures multiset(SuitRow(suit, ranks))[c] ==
            (if c.suit == suit && c.rank in ranks && WellFormed(c) then 1 else 0)
  {
    if ranks != [] {
      SuitRowCount(suit, ranks[1..], c);
      assert SuitRow(suit, ranks) == [MakeCard(suit, ranks[0])] + SuitRow(suit, ranks[1..]);
      assert ranks == [ranks[0]] + ranks[1..];
      assert c.rank in ranks <==> c.rank == ranks[0] || c.rank in ranks[1..];
      assert ranks[0] !in ranks[1..];
    }
  }

  /** The outer loop of `createDeck`: one row per suit, in list order, each
      row over the thirteen keys of the value table. */
  function DeckOf(suits: seq<Suit>, ranks: seq<Rank>): (deck: seq<Card>)
    requires Distinct(suits) && Distinct(ranks) && |ranks| == 13
    ensures |deck| == 13 * |suits|
    ensures forall i :: 0 <= i < |deck| ==> deck[i].suit == suits[i / 13]
    ensures forall c :: c in deck ==> WellFormed(c)
  {
    if suits == [] then []
    else
      var row := SuitRow(suits[0], ranks);
      var rest := DeckOf(suits[1..], ranks);
      assert forall i :: 13 <= i < 13 * |suits| ==> (row + rest)[i] == rest[i - 13];
      row + rest
  }

  /** The rows together hold each well-formed card of the listed suits and
      ranks once. */
  lemma {:induction false} DeckOfCount(suits: seq<Suit>, ranks: seq<Rank>, c: Card)
    requires Distinct(suits) && Distinct(ranks) && |ranks| == 13
    ensures multiset(DeckOf(suits, ranks))[c] ==
            (if c.suit in suits && c.rank in ranks && WellFormed(c) then 1 else 0)
  {
    if suits != [] {
      DeckOfCount(suits[1..], ranks, c);
      SuitRowCount(suits[0], ranks, c);
      assert DeckOf(suits, ranks) == SuitRow(suits[0], ranks) + DeckOf(suits[1..], ranks);
      assert c.suit in suits <==> c.suit == suits[0] || c.suit in suits[1..] by {
        assert suits == [suits[0]] + suits[1..];
      }
      assert suits[0] !in suits[1..];
    }
  }

  /** `createDeck`: 52 well-formed cards, grouped by suit in the order of the
      suit list, thirteen per suit. The order within a suit follows the key
      order of the value table and is not stated. */
  function CreateDeck(): (deck: seq<Card>)
    ensures |deck| == 52
    ensures forall i :: 0 <= i < |deck| ==> deck[i].suit == CardSuits()[i / 13]
    ensures forall c :: c in deck ==> WellFormed(c)
  {
    DeckOf(CardSuits(), CardRanks())
  }

  /** The new deck holds every well-formed card exactly once, and nothing else. */
  lemma CreateDeckCount(c: Card)
    ensures multiset(CreateDeck())[c] == (if WellFormed(c) then 1 else 0)
  {
    DeckOfCount(CardSuits(), CardRanks(), c);
    EverySuitListed(c.suit);
    EveryRankListed(c.rank);
  }

  /** The new deck has no duplicates. */
  lemma CreateDeckNoDuplicates()
    ensures NoDuplicates(CreateDeck())
  {
    forall c ensures multiset(CreateDeck())[c] <= 1 {
      CreateDeckCount(c);
    }
  }

  /** Every (suit, rank) pair is in the new deck. */
  lemma CreateDeckHasEveryPair(suit: Suit, rank: Rank)
    ensures MakeCard(suit, rank) in CreateDeck()
  {
    CreateDeckCount(MakeCard(suit, rank));
  }

  /** No (suit, rank) pair is in the new deck twice. */
  lemma CreateDeckPairsUnique(i: nat, j: nat)
    requires i < j < |CreateDeck()|
    ensures CreateDeck()[i].suit != CreateDeck()[j].suit || CreateDeck()[i].rank != CreateDeck()[j].rank
  {
    var deck := CreateDeck();
    CreateDeckNoDuplicates();
    NoDuplicatesAtPositions(deck, i, j);
    assert deck[i] in deck && deck[j] in deck;
  }

  // ---------------------------------------------------------------------------
  // shuffleDeck
  // ---------------------------------------------------------------------------

  /** The swap of one Fisher-Yates step. */
  function Swap(a: seq<Card>, i: nat, j: nat): (b: seq<Card>)
    requires i < |a| && j < |a|
    ensures |b| == |a|
    ensures b[i] == a[j] && b[j] == a[i]
  {
    a[i := a[j]][j := a[i]]
  }

  /** A swap leaves every other position as it was. */
  lemma SwapKeepsOthers(a: seq<Card>, i: nat, j: nat, k: nat)
    requires i < |a| && j < |a| && k < |a| && k != i && k != j
    ensures Swap(a, i, j)[k] == a[k]
  {
  }

  /** A swap moves cards without adding or losing any. */
  lemma SwapPermutes(a: seq<Card>, i: nat, j: nat)
    requires i < |a| && j < |a|
    ensures multiset(Swap(a, i, j)) == multiset(a)
  {
  }

  /** The random picks of a shuffle of `n` cards: the pick for step `i` lies
      in `[0, i]`. The pick at position 0 is never used (the loop stops at 1). */
  predicate ValidPicks(js: seq<nat>, n: nat) {
    |js| == n && forall i :: 0 <= i < n ==> js[i] <= i
  }

  /** The steps `i, i - 1, ..., 1` of the shuffle loop, applied to `a`. */
  function ShuffleDown(a: seq<Card>, js: seq<nat>, i: int): (b: seq<Card>)
    requires ValidPicks(js, |a|) && -1 <= i < |a|
    ensures |b| == |a|
    ensures i <= 0 ==> b == a
    decreases i
  {
    if i <= 0 then a
    else ShuffleDown(Swap(a, i, js[i]), js, i - 1)
  }

  /** Steps `i` down to 1 never touch a position above `i`: each step swaps
      position `i` with a pick at most `i`. */
  lemma {:induction false} ShuffleDownKeepsTail(a: seq<Card>, js: seq<nat>, i: int, k: nat)
    requires ValidPicks(js, |a|) && -1 <= i < |a| && i < k < |a|
    ensures ShuffleDown(a, js, i)[k] == a[k]
    decreases i
  {
    if i > 0 {
      var b := Swap(a, i, js[i]);
      SwapKeepsOthers(a, i, js[i], k);
      ShuffleDownKeepsTail(b, js, i - 1, k);
      assert ShuffleDown(a, js, i) == ShuffleDown(b, js, i - 1);
    }
  }

  /** Every step of the loop is a swap, so the loop only rearranges cards. */
  lemma {:induction false} ShuffleDownPermutes(a: seq<Card>, js: seq<nat>, i: int)
    requires ValidPicks(js, |a|) && -1 <= i < |a|
    ensures multiset(ShuffleDown(a, js, i)) == multiset(a)
    decreases i
  {
    if i > 0 {
      var b := Swap(a, i, js[i]);
      assert multiset(b) == multiset(a) by {
        SwapPermutes(a, i, js[i]);
      }
      assert multiset(ShuffleDown(b, js, i - 1)) == multiset(b) by {
        ShuffleDownPermutes(b, js, i - 1);
      }
      assert ShuffleDown(a, js, i) == ShuffleDown(b, js, i - 1);
    }
  }

  /** `shuffleDeck`: the shuffled deck is a permutation of the input; a deck
      of zero or one card comes back as it was. */
  function ShuffleDeck(deck: seq<Card>, js: seq<nat>): (shuffled: seq<Card>)
    requires ValidPicks(js, |deck|)
    ensures |shuffled| == |deck|
    ensures multiset(shuffled) == multiset(deck)
    ensures |deck| <= 1 ==> shuffled == deck
  {
    ShuffleDownPermutes(deck, js, |deck| - 1);
    ShuffleDown(deck, js, |deck| - 1)
  }

  /** `shuffleDeck` as the source writes it: the input is copied into a new
      array, which the loop permutes in place from the last index down to 1. */
  method ShuffleDeckInPlace(deck: seq<Card>, js: seq<nat>) returns (shuffled: seq<Card>)
    requires ValidPicks(js, |deck|)
    ensures shuffled == ShuffleDeck(deck, js)
    ensures |shuffled| == |deck| && multiset(shuffled) == multiset(deck)
  {
    var a := new Card[|deck|](k requires 0 <= k < |deck| => deck[k]);
    assert a[..] == deck;
    var i := |deck| - 1;
    while i > 0
      invariant -1 <= i < |deck| && a.Length == |deck|
      invariant ShuffleDown(a[..], js, i) == ShuffleDeck(deck, js)
      decreases i
    {
      var j := js[i];
      ghost var before := a[..];
      ghost var after := Swap(before, i, j);
      assert ShuffleDown(before, js, i) == ShuffleDown(after, js, i - 1);
      a[i], a[j] := a[j], a[i];
      assert a[..] == after;
      i := i - 1;
    }
    shuffled := a[..];
  }

  /** A card appended after position `i` is untouched by steps `i` down to 1. */
  lemma {:induction false} ShuffleDownAppend(a: seq<Card>, x: Card, js: seq<nat>, y: nat, i: int)
    requires ValidPicks(js, |a|) && y <= |a| && -1 <= i < |a|
    ensures ValidPicks(js + [y], |a| + 1)
    ensures ShuffleDown(a + [x], js + [y], i) == ShuffleDown(a, js, i) + [x]
    decreases i
  {
    assert forall k :: 0 <= k < |a| ==> (js + [y])[k] == js[k];
    if i > 0 {
      var j := js[i];
      assert (js + [y])[i] == j;
      var b := Swap(a, i, j);
      assert Swap(a + [x], i, j) == b + [x];
      assert ShuffleDown(a + [x], js + [y], i) == ShuffleDown(b + [x], js + [y], i - 1);
      assert ShuffleDown(a, js, i) == ShuffleDown(b, js, i - 1);
      ShuffleDownAppend(b, x, js, y, i - 1);
    }
  }

  /** Decks of at most one card holding the same cards are equal. */
  lemma SameCardsShortDeck(a: seq<Card>, t: seq<Card>)
    requires multiset(a) == multiset(t) && |a| <= 1
    ensures a == t
  {
    assert |t| == |multiset(t)| == |multiset(a)| == |a|;
    if |a| == 1 {
      assert a == [a[0]] && t == [t[0]];
      assert a[0] in multiset(t);
    }
  }

  /** Two arrangements of the same cards that end in the same card hold the
      same cards before it. */
  lemma SameCardsBeforeLast(b: seq<Card>, t: seq<Card>)
    requires multiset(b) == multiset(t) && 0 < |b| == |t|
    requires b[|b| - 1] == t[|t| - 1]
    ensures multiset(b[..|b| - 1]) == multiset(t[..|t| - 1])
  {
    DropLast(b);
    DropLast(t);
  }

  /** Dropping the last card removes exactly that card. */
  lemma DropLast(s: seq<Card>)
    requires 0 < |s|
    ensures multiset(s[..|s| - 1]) == multiset(s) - multiset{s[|s| - 1]}
  {
    assert s == s[..|s| - 1] + [s[|s| - 1]];
  }

  /** Some card of `a` is the wanted last card; swapping it to the end leaves
      the same cards before it in both decks. */
  lemma PickForLast(a: seq<Card>, t: seq<Card>) returns (j: nat)
    requires multiset(a) == multiset(t) && 0 < |a|
    ensures |t| == |a|
    ensures j < |a| && a[j] == t[|t| - 1]
    ensures multiset(Swap(a, |a| - 1, j)[..|a| - 1]) == multiset(t[..|t| - 1])
  {
    assert |t| == |a| by {
      assert |multiset(t)| == |t| && |multiset(a)| == |a|;
    }
    assert t[|t| - 1] in a by {
      assert t[|t| - 1] in multiset(t);
    }
    j :| 0 <= j < |a| && a[j] == t[|t| - 1];
    SwapToEndKeepsRest(a, t, j);
  }

  /** Swapping the wanted last card to the end leaves the same cards before
      it in both decks. */
  lemma SwapToEndKeepsRest(a: seq<Card>, t: seq<Card>, j: nat)
    requires multiset(a) == multiset(t) && 0 < |a| == |t|
    requires j < |a| && a[j] == t[|t| - 1]
    ensures multiset(Swap(a, |a| - 1, j)[..|a| - 1]) == multiset(t[..|t| - 1])
  {
    var b := Swap(a, |a| - 1, j);
    SwapPermutes(a, |a| - 1, j);
    assert b[|b| - 1] == t[|t| - 1];
    SameCardsBeforeLast(b, t);
  }

  /** With at most one card there is nothing to shuffle. */
  lemma ShuffleReachesShortDeck(a: seq<Card>, t: seq<Card>) returns (js: seq<nat>)
    requires multiset(a) == multiset(t) && |a| <= 1
    ensures ValidPicks(js, |a|) && ShuffleDeck(a, js) == t
  {
    js := seq(|a|, k => 0);
    assert forall k :: 0 <= k < |js| ==> js[k] == 0;
    SameCardsShortDeck(a, t);
  }

  /** The shuffle is its first step (at the last index) followed by a shuffle
      of the cards before the last one: if that first step brings the wanted
      last card into place and the rest arranges the others, the whole
      shuffle produces the wanted deck. */
  lemma ShuffleLastStep(a: seq<Card>, t: seq<Card>, js: seq<nat>, j: nat)
    requires 1 < |a| == |t| && j < |a| && a[j] == t[|t| - 1]
    requires ValidPicks(js, |a| - 1)
    requires ShuffleDeck(Swap(a, |a| - 1, j)[..|a| - 1], js) == t[..|t| - 1]
    ensures ValidPicks(js + [j], |a|) && ShuffleDeck(a, js + [j]) == t
  {
    var n := |a| - 1;
    var b := Swap(a, n, j);
    ShuffleDownAppend(b[..n], b[n], js, j, n - 1);
    assert b == b[..n] + [b[n]];
    assert (js + [j])[n] == j;
    assert ShuffleDeck(a, js + [j]) == ShuffleDown(b, js + [j], n - 1);
    assert t == t[..n] + [t[n]];
  }

  /** The converse of the permutation property: any arrangement of the same
      cards is the result of some choice of picks, built from the last step. */
  lemma {:induction false} ShuffleReaches(a: seq<Card>, t: seq<Card>) returns (js: seq<nat>)
    requires multiset(a) == multiset(t)
    ensures ValidPicks(js, |a|) && ShuffleDeck(a, js) == t
    decreases |a|
  {
    if |a| <= 1 {
      js := ShuffleReachesShortDeck(a, t);
    } else {
      var j := PickForLast(a, t);
      var n := |a| - 1;
      var js' := ShuffleReaches(Swap(a, n, j)[..n], t[..n]);
      ShuffleLastStep(a, t, js', j);
      js := js' + [j];
    }
  }

  /** Every arrangement of the deck is a possible outcome of the shuffle. */
  lemma ShuffleReachesEveryPermutation(deck: seq<Card>, target: seq<Card>)
    requires multiset(target) == multiset(deck)
    ensures exists js :: ValidPicks(js, |deck|) && ShuffleDeck(deck, js) == target
  {
    var js := ShuffleReaches(deck, target);
  }

  /** Any card of the deck can come out last, where the game deals from. */
  lemma ShuffleCanEndWith(deck: seq<Card>, c: Card)
    requires c in deck
    ensures exists js :: ValidPicks(js, |deck|) && ShuffleDeck(deck, js)[|deck| - 1] == c
  {
    var k :| 0 <= k < |deck| && deck[k] == c;
    var target := deck[..k] + deck[k + 1..] + [c];
    assert multiset(target) == multiset(deck) by {
      assert deck == deck[..k] + [c] + deck[k + 1..];
    }
    var js := ShuffleReaches(deck, target);
    assert ShuffleDeck(deck, js)[|deck| - 1] == c;
  }

  /** A shuffle keeps a deck free of duplicates. */
  lemma ShuffleKeepsNoDuplicates(deck: seq<Card>, js: seq<nat>)
    requires ValidPicks(js, |deck|) && NoDuplicates(deck)
    ensures NoDuplicates(ShuffleDeck(deck, js))
  {
  }
}
