/**
  The playing-card deck: `Card` values and the `FrenchDeck` sequence object,
  which holds the 52 cards built once at construction and answers `len`,
  `deck[position]` and `in` by handing them to its list of cards.
*/
module DataModel {
  import opened Wrappers
  import PyList

  /** A card is a named pair; two cards are equal when their fields are. */
  datatype Card = Card(rank: string, suit: string)

  /** The thirteen ranks, lowest first, as the class attribute lists them. */
  const Ranks: seq<string> := ["2", "3", "4", "5", "6", "7", "8", "9", "10", "J", "Q", "K", "A"]

  /** The four suits, in the order the deck is built. */
  const Suits: seq<string> := ["spades", "diamonds", "clubs", "hearts"]

  /** One suit's run of cards: a card per rank, in rank order. */
  function Row(ranks: seq<string>, suit: string): (r: seq<Card>)
    ensures |r| == |ranks|
    ensures forall k :: 0 <= k < |ranks| ==> r[k] == Card(ranks[k], suit)
  {
    if ranks == [] then [] else [Card(ranks[0], suit)] + Row(ranks[1..], suit)
  }

  /** The comprehension that builds the deck: suits in the outer loop, ranks in the inner one. */
  function Build(ranks: seq<string>, suits: seq<string>): (r: seq<Card>)
    ensures |r| == |ranks| * |suits|
  {
    if suits == [] then [] else Row(ranks, suits[0]) + Build(ranks, suits[1..])
  }

  /** s rows of n cards, counted by adding one row at a time: s * n. */
  function Times(s: nat, n: nat): nat
  {
    if s == 0 then 0 else Times(s - 1, n) + n
  }

  lemma {:induction false} TimesIsProduct(s: nat, n: nat)
    ensures Times(s, n) == s * n
  {
    if s > 0 {
      TimesIsProduct(s - 1, n);
      assert s * n == (s - 1) * n + n;
    }
  }

  /** The card of suit s and rank k comes after s full rows of cards. */
  lemma {:induction false} BuildAtOffset(ranks: seq<string>, suits: seq<string>, s: nat, k: nat)
    requires s < |suits| && k < |ranks|
    ensures Times(s, |ranks|) + k < |Build(ranks, suits)|
    ensures Build(ranks, suits)[Times(s, |ranks|) + k] == Card(ranks[k], suits[s])
  {
    var row, rest := Row(ranks, suits[0]), Build(ranks, suits[1..]);
    assert Build(ranks, suits) == row + rest;
    if s > 0 {
      BuildAtOffset(ranks, suits[1..], s - 1, k);
      assert (row + rest)[|row| + Times(s - 1, |ranks|) + k] == rest[Times(s - 1, |ranks|) + k];
    }
  }

  /** Suit-major, rank-minor: the card of suit s and rank k sits at s * |ranks| + k. */
  lemma BuildAt(ranks: seq<string>, suits: seq<string>, s: nat, k: nat)
    requires s < |suits| && k < |ranks|
    ensures s * |ranks| + k < |Build(ranks, suits)|
    ensures Build(ranks, suits)[s * |ranks| + k] == Card(ranks[k], suits[s])
  {
    var b, i := Build(ranks, suits), Times(s, |ranks|) + k;
    BuildAtOffset(ranks, suits, s, k);
    TimesIsProduct(s, |ranks|);
    assert i < |b| && b[i] == Card(ranks[k], suits[s]);
  }

  /** A card is in a suit's run exactly when its rank is one of the ranks and its suit is that suit. */
  lemma RowMembership(ranks: seq<string>, suit: string, c: Card)
    ensures c in Row(ranks, suit) <==> c.rank in ranks && c.suit == suit
  {
    if c in Row(ranks, suit) {
      var k :| 0 <= k < |ranks| && Row(ranks, suit)[k] == c;
    }
    if c.rank in ranks && c.suit == suit {
      var k :| 0 <= k < |ranks| && ranks[k] == c.rank;
      assert Row(ranks, suit)[k] == c;
    }
  }

  /** A card is built exactly when its rank is one of the ranks and its suit one of the suits. */
  lemma {:induction false} BuildMembership(ranks: seq<string>, suits: seq<string>, c: Card)
    ensures c in Build(ranks, suits) <==> c.rank in ranks && c.suit in suits
  {
    if suits != [] {
      RowMembership(ranks, suits[0], c);
      BuildMembership(ranks, suits[1..], c);
      assert suits == [suits[0]] + suits[1..];
    }
  }

  /** Ranks and suits without repeats give a deck without repeats. */
  lemma {:induction false} BuildDistinct(ranks: seq<string>, suits: seq<string>)
    requires PyList.Distinct(ranks) && PyList.Distinct(suits)
    ensures PyList.Distinct(Build(ranks, suits))
  {
    if suits != [] {
      var row, rest := Row(ranks, suits[0]), Build(ranks, suits[1..]);
      assert PyList.Distinct(suits[1..]);
      BuildDistinct(ranks, suits[1..]);
      forall c | c in row ensures c !in rest {
        RowMembership(ranks, suits[0], c);
        BuildMembership(ranks, suits[1..], c);
      }
      PyList.DistinctConcat(row, rest);
    }
  }

  /** What `deck[...]` is given: an integer position or a slice with optional parts. */
  datatype Position =
    | Index(i: int)
    | Slice(start: Option<int>, stop: Option<int>, step: Option<int>)

  /** What `deck[...]` returns: one card for a position, a new list of cards for a slice. */
  datatype Item = One(card: Card) | Many(cards: seq<Card>)

  /**
    The deck. Its cards are set once by construction and never changed, so it
    is a value; every operation reads the card list and delegates to it.
  */
  datatype FrenchDeck = FrenchDeck(cards: seq<Card>)
  {
    /** `len(deck)`: the number of cards that iterating the deck yields. */
    function Len(): (n: nat)
      ensures n == |PyList.Iterate(cards)|
    {
      |cards|
    }

    /** `deck[position]`: list indexing and slicing on the card list. */
    function GetItem(p: Position): (r: Result<Item>)
      ensures p.Index? ==> (r.Ok? <==> -(Len() as int) <= p.i < Len())
      ensures p.Index? && r.Ok? ==> r.value == One(cards[if p.i < 0 then Len() + p.i else p.i])
      ensures p.Slice? ==> (r.Err? <==> p.step == Some(0))
      ensures p.Slice? && r.Ok? ==> r.value.Many? && |r.value.cards| <= Len()
      ensures r.Err? ==> r.error == (if p.Index? then IndexError else ValueError)
    {
      match p
      case Index(i) =>
        (match PyList.At(cards, i)
         case Ok(c) => Ok(One(c))
         case Err(e) => Err(e))
      case Slice(start, stop, step) =>
        (match PyList.Slice(cards, start, stop, step)
         case Ok(cs) => Ok(Many(cs))
         case Err(e) => Err(e))
    }

    /** `card in deck`: the scan of the card list. */
    function Contains(c: Card): (b: bool)
      ensures b <==> exists i :: 0 <= i < Len() && cards[i] == c
    {
      PyList.Contains(cards, c)
    }

    /** `for card in deck`: no `__iter__`, so Python calls deck[0], deck[1], … until IndexError. */
    function Iterate(): (r: seq<Card>)
      ensures |r| == Len()
      ensures forall i :: 0 <= i < Len() ==> GetItem(Index(i)) == Ok(One(r[i]))
    {
      PyList.Iterate(cards)
    }

    /** `reversed(deck)`: no `__reversed__`, so Python walks deck[len - 1] down to deck[0]. */
    function Reversed(): (r: seq<Card>)
      ensures |r| == Len()
      ensures forall i :: 0 <= i < Len() ==> GetItem(Index(Len() - 1 - i)) == Ok(One(r[i]))
    {
      PyList.Reversed(cards)
    }
  }

  /** `FrenchDeck()`. */
  function NewDeck(): (d: FrenchDeck)
    ensures d.Len() == |Ranks| * |Suits|
  {
    FrenchDeck(Build(Ranks, Suits))
  }

  /** Thirteen ranks, none repeated. */
  lemma RanksDistinct()
    ensures |Ranks| == 13 && PyList.Distinct(Ranks)
  {
  }

  /** Four suits, none repeated. */
  lemma SuitsDistinct()
    ensures |Suits| == 4 && PyList.Distinct(Suits)
  {
  }

  /** `len(deck)` is the number of ranks times the number of suits: 52. */
  lemma DeckLength()
    ensures NewDeck().Len() == |Ranks| * |Suits| == 52
  {
  }

  /** The construction order in closed form: position i holds rank i % 13 of suit i / 13. */
  ghost predicate SuitMajor(cards: seq<Card>)
  {
    && |cards| == |Ranks| * |Suits|
    && forall i :: 0 <= i < |cards| ==> cards[i] == Card(Ranks[i % |Ranks|], Suits[i / |Ranks|])
  }

  /** A new deck is laid out suit-major. */
  lemma NewDeckSuitMajor()
    ensures SuitMajor(NewDeck().cards)
  {
    forall i | 0 <= i < |NewDeck().cards| ensures NewDeck().cards[i] == Card(Ranks[i % 13], Suits[i / 13]) {
      BuildAt(Ranks, Suits, i / 13, i % 13);
    }
  }

  /** In a suit-major list the card at position s * 13 + k is rank k of suit s. */
  lemma SuitMajorAt(cards: seq<Card>, s: nat, k: nat)
    requires SuitMajor(cards) && s < |Suits| && k < |Ranks|
    ensures s * 13 + k < |cards| && cards[s * 13 + k] == Card(Ranks[k], Suits[s])
  {
    var i := s * 13 + k;
    assert i % 13 == k && i / 13 == s;
  }

  /** In a suit-major deck the card at position s * 13 + k is rank k of suit s, for every suit s and rank k. */
  lemma DeckOrder(d: FrenchDeck, s: nat, k: nat)
    requires SuitMajor(d.cards) && s < |Suits| && k < |Ranks|
    ensures d.GetItem(Index(s * 13 + k)) == Ok(One(Card(Ranks[k], Suits[s])))
  {
    SuitMajorAt(d.cards, s, k);
  }

  /** deck[13] is the two of diamonds; deck[-1] is the last card, the ace of hearts. */
  lemma DeckIndexExamples(d: FrenchDeck)
    requires SuitMajor(d.cards)
    ensures d.GetItem(Index(13)) == Ok(One(Card("2", "diamonds")))
    ensures d.GetItem(Index(-1)) == d.GetItem(Index(51)) == Ok(One(Card("A", "hearts")))
  {
    DeckOrder(d, 1, 0);
    DeckOrder(d, 3, 12);
  }

  /** Indexing follows list rules: negative positions count from the end, and positions past either end raise IndexError. */
  lemma DeckIndexing(d: FrenchDeck, i: int)
    requires |d.cards| == 52
    ensures -52 <= i < 0 ==> d.GetItem(Index(i)) == d.GetItem(Index(52 + i))
    ensures i >= 52 || i < -52 ==> d.GetItem(Index(i)) == Err(IndexError)
  {
    assert d.Len() == 52;
  }

  /** In any 52-card list, [0:3] is its first three elements. */
  lemma SliceHead(cards: seq<Card>)
    requires |cards| == 52
    ensures PyList.Slice(cards, Some(0), Some(3), None) == Ok([cards[0], cards[1], cards[2]])
  {
    var r := PyList.Slice(cards, Some(0), Some(3), None);
    assert |r.value| == 3;
    assert r.value == [cards[0], cards[1], cards[2]];
  }

  /** In any 52-card list, [12::13] is the last element of each run of 13. */
  lemma SliceEveryThirteenth(cards: seq<Card>)
    requires |cards| == 52
    ensures PyList.Slice(cards, Some(12), None, Some(13)) == Ok([cards[12], cards[25], cards[38], cards[51]])
  {
    var r := PyList.Slice(cards, Some(12), None, Some(13));
    assert |r.value| == 4;
    assert r.value == [cards[12], cards[25], cards[38], cards[51]];
  }

  /** For a deck laid out suit-major, deck[0:3] is the first three cards in order: the 2, 3 and 4 of spades. */
  lemma DeckSliceHead(d: FrenchDeck)
    requires SuitMajor(d.cards)
    ensures d.GetItem(Slice(Some(0), Some(3), None))
      == Ok(Many([Card("2", "spades"), Card("3", "spades"), Card("4", "spades")]))
  {
    SliceHead(d.cards);
    SuitMajorAt(d.cards, 0, 0);
    SuitMajorAt(d.cards, 0, 1);
    SuitMajorAt(d.cards, 0, 2);
  }

  /** For a deck laid out suit-major, deck[12::13] is the four aces, one per suit in build order: spades, diamonds, clubs, hearts. */
  lemma DeckSliceAces(d: FrenchDeck)
    requires SuitMajor(d.cards)
    ensures d.GetItem(Slice(Some(12), None, Some(13)))
      == Ok(Many([Card("A", "spades"), Card("A", "diamonds"), Card("A", "clubs"), Card("A", "hearts")]))
  {
    SliceEveryThirteenth(d.cards);
    SuitMajorAt(d.cards, 0, 12);
    SuitMajorAt(d.cards, 1, 12);
    SuitMajorAt(d.cards, 2, 12);
    SuitMajorAt(d.cards, 3, 12);
  }

  /** `card in deck` holds exactly for a card with one of the ranks and one of the suits. */
  lemma DeckMembership(c: Card)
    ensures NewDeck().Contains(c) <==> c.rank in Ranks && c.suit in Suits
  {
    BuildMembership(Ranks, Suits, c);
  }

  /** The queen of spades and the queen of clubs are in a full deck. */
  lemma DeckHasQueens(d: FrenchDeck)
    requires FullDeck(d.cards)
    ensures d.Contains(Card("Q", "spades"))
    ensures d.Contains(Card("Q", "clubs"))
  {
    assert Card("Q", "spades") in d.cards && Card("Q", "clubs") in d.cards;
  }

  /** A card whose suit is not one of the four, such as the queen of dogs, is not in a full deck. */
  lemma DeckLacksForeignSuit(d: FrenchDeck, c: Card)
    requires FullDeck(d.cards) && c.suit !in Suits
    ensures !d.Contains(c)
  {
    assert c !in d.cards;
  }

  /** Forward iteration yields deck[0], …, deck[51]; `reversed(deck)` yields the same cards back to front. */
  lemma DeckIteration(d: FrenchDeck)
    ensures |d.Iterate()| == d.Len()
    ensures forall i :: 0 <= i < d.Len() ==> d.GetItem(Index(i)) == Ok(One(d.Iterate()[i]))
    ensures d.Reversed() == PyList.Reverse(d.Iterate())
  {
    PyList.IterateIsInOrder(d.cards);
    PyList.ReversedIsReverseOfIterate(d.cards);
  }

  /** Every card with one of the ranks and one of the suits, each exactly once. */
  ghost predicate FullDeck(cards: seq<Card>)
  {
    && PyList.Distinct(cards)
    && forall c :: c in cards <==> c.rank in Ranks && c.suit in Suits
  }

  /** A new deck holds every card exactly once. */
  lemma NewDeckIsFull()
    ensures FullDeck(NewDeck().cards)
  {
    RanksDistinct();
    SuitsDistinct();
    BuildDistinct(Ranks, Suits);
    forall c ensures c in NewDeck().cards <==> c.rank in Ranks && c.suit in Suits {
      BuildMembership(Ranks, Suits, c);
    }
  }
}
