/**
  The `spades_high` sort key and what sorting the deck by it yields. The key
  packs a card's rank index and its suit weight into one integer, rank first,
  so that aces rank highest and, within a rank, spades beat hearts, hearts
  beat diamonds and diamonds beat clubs.
*/
module CardOrder {
  import opened Wrappers
  import PyList
  import opened DataModel

  /** The suit weights, as a dict from suit name to weight. */
  const SuitValues: map<string, int> := map["spades" := 3, "hearts" := 2, "diamonds" := 1, "clubs" := 0]

  /** The suits listed by increasing weight. */
  const SuitsByValue: seq<string> := ["clubs", "diamonds", "hearts", "spades"]

  /**
    `spades_high(card)`: the rank's position among the ranks times the number
    of suit weights, plus the suit's weight. A rank that is not one of the
    ranks raises ValueError (from `list.index`); otherwise a suit without a
    weight raises KeyError (from the dict lookup).
  */
  function SpadesHigh(card: Card): (r: Result<int>)
    ensures r.Ok? <==> card.rank in Ranks && card.suit in SuitValues
    ensures card.rank !in Ranks ==> r == Err(ValueError)
    ensures card.rank in Ranks && card.suit !in SuitValues ==> r == Err(KeyError)
    ensures r.Ok? ==> 0 <= r.value < |Ranks| * |SuitValues| == 52
  {
    match PyList.IndexOf(Ranks, card.rank)
    case Err(e) => Err(e)
    case Ok(rankIndex) =>
      var rankValue := rankIndex * |SuitValues|;
      if card.suit in SuitValues then
        SuitWeight(card.suit);
        PackBound(rankIndex, SuitValues[card.suit], |Ranks|, |SuitValues|);
        Ok(rankValue + SuitValues[card.suit])
      else
        Err(KeyError)
  }

  /** There are four suit weights, 0 to 3. */
  lemma SuitWeight(suit: string)
    requires suit in SuitValues
    ensures |SuitValues| == 4 && 0 <= SuitValues[suit] < 4
  {
  }

  /** Packing a row below n and a column below m gives a number below n * m. */
  lemma PackBound(row: nat, column: int, n: nat, m: nat)
    requires row < n && 0 <= column < m
    ensures 0 <= row * m + column < n * m
  {
    PyList.MulMonotone(row + 1, n, m);
    assert (row + 1) * m == row * m + m;
  }

  /** The position of a card's rank in the rank order. */
  function RankIndex(card: Card): (r: nat)
    requires card.rank in Ranks
    ensures r < |Ranks| && Ranks[r] == card.rank
  {
    PyList.IndexOf(Ranks, card.rank).value
  }

  /** Multiplying by the number of suit weights is multiplying by four. */
  lemma ScaleBySuitCount(n: int)
    ensures n * |SuitValues| == n * 4
  {
    assert |SuitValues| == 4;
  }

  /** A key is its card's rank index times four plus its suit weight. */
  lemma KeyParts(card: Card)
    requires SpadesHigh(card).Ok?
    ensures 0 <= SuitValues[card.suit] < 4
    ensures SpadesHigh(card).value == RankIndex(card) * 4 + SuitValues[card.suit]
  {
    SuitWeight(card.suit);
    ScaleBySuitCount(RankIndex(card));
  }

  /** A card whose rank sits at position row and whose suit weighs column has key k = row * 4 + column. */
  lemma KeyOfParts(card: Card, row: nat, column: int, k: int)
    requires PyList.IndexOf(Ranks, card.rank) == Ok(row)
    requires card.suit in SuitValues && SuitValues[card.suit] == column
    requires k == row * 4 + column
    ensures SpadesHigh(card) == Ok(k)
  {
    ScaleBySuitCount(row);
  }

  /** A row and a column below 4, packed as row * 4 + column, can be unpacked again. */
  lemma Unpack(row: int, column: int)
    requires 0 <= column < 4
    ensures (row * 4 + column) / 4 == row && (row * 4 + column) % 4 == column
  {
  }

  /** Packed pairs compare as the pairs do: by row first, then by column. */
  lemma ComparePacked(ra: int, ca: int, rb: int, cb: int)
    requires 0 <= ca < 4 && 0 <= cb < 4
    ensures ra * 4 + ca < rb * 4 + cb <==> ra < rb || (ra == rb && ca < cb)
  {
  }

  /** Different suits have different weights. */
  lemma WeightInjective(s: string, t: string)
    requires s in SuitValues && t in SuitValues && SuitValues[s] == SuitValues[t]
    ensures s == t
  {
  }

  /** Two cards that both have a key share it exactly when they are the same card. */
  lemma SpadesHighInjective(a: Card, b: Card)
    requires SpadesHigh(a).Ok? && SpadesHigh(b).Ok?
    ensures SpadesHigh(a) == SpadesHigh(b) <==> a == b
  {
    if SpadesHigh(a) == SpadesHigh(b) {
      var ra, wa, rb, wb := RankIndex(a), SuitValues[a.suit], RankIndex(b), SuitValues[b.suit];
      KeyParts(a);
      KeyParts(b);
      Unpack(ra, wa);
      Unpack(rb, wb);
      assert ra == rb && wa == wb;
      WeightInjective(a.suit, b.suit);
      assert a.rank == Ranks[ra] == b.rank;
    }
  }

  /** The key orders cards by rank first and, within a rank, by suit weight. */
  lemma SpadesHighLexicographic(a: Card, b: Card)
    requires SpadesHigh(a).Ok? && SpadesHigh(b).Ok?
    ensures SpadesHigh(a).value < SpadesHigh(b).value <==>
      RankIndex(a) < RankIndex(b) || (RankIndex(a) == RankIndex(b) && SuitValues[a.suit] < SuitValues[b.suit])
  {
    KeyParts(a);
    KeyParts(b);
    ComparePacked(RankIndex(a), SuitValues[a.suit], RankIndex(b), SuitValues[b.suit]);
  }

  /** Within a rank: clubs below diamonds below hearts below spades. */
  lemma SuitTieBreak(rank: string)
    requires rank in Ranks
    ensures SpadesHigh(Card(rank, "clubs")).value < SpadesHigh(Card(rank, "diamonds")).value
    ensures SpadesHigh(Card(rank, "diamonds")).value < SpadesHigh(Card(rank, "hearts")).value
    ensures SpadesHigh(Card(rank, "hearts")).value < SpadesHigh(Card(rank, "spades")).value
  {
    SpadesHighLexicographic(Card(rank, "clubs"), Card(rank, "diamonds"));
    SpadesHighLexicographic(Card(rank, "diamonds"), Card(rank, "hearts"));
    SpadesHighLexicographic(Card(rank, "hearts"), Card(rank, "spades"));
  }

  /** The suits with a weight are exactly the suits of the deck. */
  lemma WeightedSuits(suit: string)
    ensures suit in SuitValues <==> suit in Suits
  {
  }

  /** Within a full deck, the cards that have a key are exactly the deck's cards. */
  lemma HasKeyInDeck(deck: seq<Card>, c: Card)
    requires FullDeck(deck)
    ensures SpadesHigh(c).Ok? <==> c in deck
  {
    WeightedSuits(c.suit);
  }

  /** Every card of a full deck has a key in [0, 52), and different cards of it have different keys. */
  lemma DeckKeys(deck: seq<Card>, i: nat, j: nat)
    requires FullDeck(deck) && i < j < |deck|
    ensures SpadesHigh(deck[i]).Ok? && 0 <= SpadesHigh(deck[i]).value < 52
    ensures SpadesHigh(deck[i]) != SpadesHigh(deck[j])
  {
    HasKeyInDeck(deck, deck[i]);
    HasKeyInDeck(deck, deck[j]);
    SpadesHighInjective(deck[i], deck[j]);
  }

  // ---------------------------------------------------------------------------
  // sorted(deck, key=spades_high)
  // ---------------------------------------------------------------------------

  /** Every card has a key and the keys never decrease along the list. */
  ghost predicate SortedBySpadesHigh(s: seq<Card>)
  {
    && (forall i :: 0 <= i < |s| ==> SpadesHigh(s[i]).Ok?)
    && (forall i, j :: 0 <= i < j < |s| ==> SpadesHigh(s[i]).value <= SpadesHigh(s[j]).value)
  }

  /** What `sorted(input, key=spades_high)` returns: the same cards, rearranged so the keys never decrease. */
  ghost predicate IsSortedOf(input: seq<Card>, output: seq<Card>)
    ensures IsSortedOf(input, output) ==> |output| == |input|
  {
    assert |multiset(output)| == |output| && |multiset(input)| == |input|;
    multiset(output) == multiset(input) && SortedBySpadesHigh(output)
  }

  /** The card whose key is k: rank k / 4, suit of weight k % 4. */
  function CardOfKey(k: nat): (c: Card)
    requires k < 52
    ensures SpadesHigh(c) == Ok(k)
  {
    KeyOfRankAndWeight(k);
    Card(Ranks[k / 4], SuitsByValue[k % 4])
  }

  /** Rank number k / 4 with the suit of weight k % 4 has key k. */
  lemma KeyOfRankAndWeight(k: nat)
    requires k < 52
    ensures SpadesHigh(Card(Ranks[k / 4], SuitsByValue[k % 4])) == Ok(k)
  {
    var row, column := k / 4, k % 4;
    assert row * 4 + column == k;
    RanksDistinct();
    PyList.IndexOfDistinct(Ranks, row);
    WeightOfSuitsByValue(column);
    KeyOfParts(Card(Ranks[row], SuitsByValue[column]), row, column, k);
  }

  /** The suit listed at position w of the weight order has weight w. */
  lemma WeightOfSuitsByValue(w: nat)
    requires w < 4
    ensures SuitsByValue[w] in SuitValues && SuitValues[SuitsByValue[w]] == w
  {
  }

  /** The deck in increasing key order: the twos from clubs to spades, then the threes, up to the aces. */
  function SpadesHighOrder(): (r: seq<Card>)
    ensures |r| == 52
  {
    seq(52, k requires 0 <= k < 52 => CardOfKey(k))
  }

  /** Position k of the key order holds the card with key k. */
  lemma SpadesHighOrderKeys()
    ensures forall k :: 0 <= k < 52 ==> SpadesHigh(SpadesHighOrder()[k]) == Ok(k)
  {
  }

  /** The key order has no repeats and its keys never decrease. */
  lemma SpadesHighOrderSorted()
    ensures PyList.Distinct(SpadesHighOrder()) && SortedBySpadesHigh(SpadesHighOrder())
  {
    SpadesHighOrderKeys();
  }

  /** The key order holds exactly the cards of any full deck. */
  lemma SpadesHighOrderHoldsDeck(deck: seq<Card>)
    requires FullDeck(deck)
    ensures forall x :: x in deck <==> x in SpadesHighOrder()
  {
    var order := SpadesHighOrder();
    SpadesHighOrderKeys();
    forall x ensures x in deck <==> x in order {
      HasKeyInDeck(deck, x);
      if x in deck {
        var k := SpadesHigh(x).value;
        KeyDeterminesCard(x, k);
        assert order[k] == x;
      }
    }
  }

  /** The key order is a rearrangement of any full deck with increasing keys; so a full deck has 52 cards. */
  lemma SpadesHighOrderSortsDeck(deck: seq<Card>)
    requires FullDeck(deck)
    ensures IsSortedOf(deck, SpadesHighOrder())
    ensures |deck| == 52
  {
    var order := SpadesHighOrder();
    SpadesHighOrderSorted();
    SpadesHighOrderHoldsDeck(deck);
    PyList.SameElementsPermutation(deck, order);
    assert |deck| == |multiset(deck)| == |multiset(order)| == 52;
  }

  /** Every card has a key and the keys strictly increase along the list. */
  ghost predicate IncreasingKeys(s: seq<Card>)
  {
    && (forall i :: 0 <= i < |s| ==> SpadesHigh(s[i]).Ok?)
    && (forall i, j :: 0 <= i < j < |s| ==> SpadesHigh(s[i]).value < SpadesHigh(s[j]).value)
  }

  /** A rearrangement of a full deck with non-decreasing keys has 52 cards and strictly increasing keys. */
  lemma SortedDeckIncreasing(deck: seq<Card>, out: seq<Card>)
    requires FullDeck(deck) && IsSortedOf(deck, out)
    ensures |out| == 52 && IncreasingKeys(out)
  {
    SpadesHighOrderSortsDeck(deck);
    assert |out| == |multiset(out)| == |multiset(deck)| == 52;
    PyList.PermutationDistinct(deck, out);
    forall i, j | 0 <= i < j < |out| ensures SpadesHigh(out[i]).value < SpadesHigh(out[j]).value {
      SpadesHighInjective(out[i], out[j]);
    }
  }

  /** Strictly increasing numbers from 0 on: the one at position i is at least i ... */
  lemma {:induction false} IncreasingAtLeast(ks: seq<int>, i: nat)
    requires forall j :: 0 <= j < |ks| ==> ks[j] >= 0
    requires forall j :: 0 < j < |ks| ==> ks[j - 1] < ks[j]
    requires i < |ks|
    ensures ks[i] >= i
  {
    if i > 0 {
      IncreasingAtLeast(ks, i - 1);
    }
  }

  /** ... and, below |ks|, the one at position i is at most i; so it is i. */
  lemma {:induction false} IncreasingAtMost(ks: seq<int>, i: nat)
    requires forall j :: 0 <= j < |ks| ==> ks[j] < |ks|
    requires forall j :: 0 < j < |ks| ==> ks[j - 1] < ks[j]
    requires i < |ks|
    ensures ks[i] <= i
    decreases |ks| - i
  {
    if i < |ks| - 1 {
      IncreasingAtMost(ks, i + 1);
    }
  }

  /** In 52 cards with strictly increasing keys, position i holds key i. */
  lemma IncreasingKeysPosition(out: seq<Card>, i: nat)
    requires IncreasingKeys(out) && |out| == 52 && i < 52
    ensures SpadesHigh(out[i]) == Ok(i)
  {
    var ks := seq(52, j requires 0 <= j < 52 => if SpadesHigh(out[j]).Ok? then SpadesHigh(out[j]).value else 0);
    forall j | 0 <= j < 52 ensures 0 <= ks[j] < 52 {
      assert SpadesHigh(out[j]).Ok?;
    }
    forall j | 0 < j < 52 ensures ks[j - 1] < ks[j] {
      assert SpadesHigh(out[j - 1]).value < SpadesHigh(out[j]).value;
    }
    IncreasingAtLeast(ks, i);
    IncreasingAtMost(ks, i);
    assert SpadesHigh(out[i]).Ok? && SpadesHigh(out[i]).value == ks[i] == i;
  }

  /** A key below 52 belongs to exactly one card. */
  lemma KeyDeterminesCard(c: Card, k: nat)
    requires k < 52 && SpadesHigh(c) == Ok(k)
    ensures c == CardOfKey(k)
  {
    SpadesHighInjective(c, CardOfKey(k));
  }

  /** The key order starts with the two of clubs and ends with the ace of spades. */
  lemma SpadesHighOrderEnds()
    ensures SpadesHighOrder()[0] == Card("2", "clubs")
    ensures SpadesHighOrder()[51] == Card("A", "spades")
  {
  }

  /** Sorting a full deck by `spades_high` has one possible outcome: the key order. */
  lemma SortedDeckIsSpadesHighOrder(deck: seq<Card>, out: seq<Card>)
    requires FullDeck(deck) && IsSortedOf(deck, out)
    ensures out == SpadesHighOrder()
  {
    SortedDeckIncreasing(deck, out);
    forall i | 0 <= i < 52 ensures out[i] == SpadesHighOrder()[i] {
      IncreasingKeysPosition(out, i);
      KeyDeterminesCard(out[i], i);
    }
  }

  /** In the sorted deck every rank comes before the next, and within a rank the suits rise from clubs to spades. */
  lemma SortedDeckByRankThenSuit(deck: seq<Card>, out: seq<Card>, i: nat, j: nat)
    requires FullDeck(deck) && IsSortedOf(deck, out) && i < j < |out|
    ensures out[i].rank in Ranks && out[j].rank in Ranks
    ensures RankIndex(out[i]) < RankIndex(out[j])
      || (RankIndex(out[i]) == RankIndex(out[j]) && SuitValues[out[i].suit] < SuitValues[out[j].suit])
  {
    SortedDeckIncreasing(deck, out);
    SpadesHighLexicographic(out[i], out[j]);
  }

  /** Sorting an already sorted deck again changes nothing. */
  lemma SortIdempotent(deck: seq<Card>, out: seq<Card>, again: seq<Card>)
    requires FullDeck(deck) && IsSortedOf(deck, out) && IsSortedOf(out, again)
    ensures again == out
  {
    SortedDeckIsSpadesHighOrder(deck, out);
    SortedDeckIsSpadesHighOrder(deck, again);
  }

  /** `sorted(FrenchDeck(), key=spades_high)`: the key order is a sorted result, and the only one. */
  lemma SortedNewDeck()
    ensures IsSortedOf(NewDeck().cards, SpadesHighOrder())
    ensures forall out :: IsSortedOf(NewDeck().cards, out) ==> out == SpadesHighOrder()
  {
    NewDeckIsFull();
    SpadesHighOrderSortsDeck(NewDeck().cards);
    forall out | IsSortedOf(NewDeck().cards, out) ensures out == SpadesHighOrder() {
      SortedDeckIsSpadesHighOrder(NewDeck().cards, out);
    }
  }
}
