# French deck: a Dafny model of Python's sequence data model

This project models `chapter_1/data_model.py`. That file is an introduction to Python's data
model: a playing card is a named pair `Card(rank, suit)`. `FrenchDeck` builds the 52 cards
once, suit by suit and, within a suit, rank by rank. It answers `len(deck)`, `deck[position]`
and `card in deck` by handing each to its own list of cards. Python then derives forward
iteration and `reversed(deck)` from `__len__` and `__getitem__` alone. The `spades_high`
function turns a card into a sort key (rank first, then the suit weights of `suit_values`), and
`sorted(deck, key=spades_high)` orders the deck from the two of clubs up to the ace of spades.

The model has four modules:

- `Wrappers`: `Option`, `Result`, and the three exceptions the code can raise
  (`IndexError`, `ValueError`, `KeyError`).
- `PyList`: the behaviour of Python lists that the deck delegates to:
  - indexing with negative positions;
  - slicing, with bounds clamped the way CPython adjusts slice indices and a zero step
    rejected;
  - `list.index`;
  - the membership scan;
  - the iteration protocol that falls back to `__getitem__`, and `reversed()` through
    `__len__` and `__getitem__`.
- `DataModel`: `Card`, the rank and suit lists, the comprehension that builds the cards, and
  `FrenchDeck`. `FrenchDeck` is a value, because its cards never change after construction.
- `CardOrder`: `suit_values` and `spades_high`. `sorted()` is specified by its outcome: the
  same cards, rearranged so that keys never decrease.

`Card` (line 28) is a datatype, and the rank list, the suit list and `suit_values` (lines 32,
33 and 78) are constants; the lemmas `RanksDistinct`, `SuitsDistinct`, `SuitWeight` and
`WeightOfSuitsByValue` state what they hold.

The deck lemmas are proved for every card list that is laid out suit-major (`SuitMajor`) or
that holds every card once (`FullDeck`). `NewDeckSuitMajor` and `NewDeckIsFull` prove that
`FrenchDeck()` is such a deck.

## Model

| member | source | states |
|---|---|---|
| `PyList.At` | chapter_1/data_model.py:44-45 | `deck[i]` succeeds exactly when -len <= i < len. A non-negative i gives element i and a negative i gives element len + i. Any other i raises IndexError |
| `PyList.AtNegative` | chapter_1/data_model.py:44-45 | a negative position names the same element as the position len further on |
| `PyList.AtOutOfRange` | chapter_1/data_model.py:44-45 | the first positions past either end (len and -len - 1) raise IndexError |
| `PyList.ClampBound` | chapter_1/data_model.py:44-45 | a given slice bound inside the list is kept; a negative one is shifted by len first; one still below 0 becomes 0 (or -1 for a negative step), and one at or past len becomes len (or len - 1 for a negative step) |
| `PyList.Resolve` | chapter_1/data_model.py:44-45 | resolving start:stop:step keeps the step, visits at most len positions, and every visited position lies inside the list |
| `PyList.ResolveSpan` | chapter_1/data_model.py:44-45 | the resolved span starts at the clamped start, or at 0 (len - 1 for a negative step) when none is given, and stops at the clamped stop, or at len (-1) when none is given. Position k is visited exactly when start + k * step lies strictly before stop in the direction of the step |
| `PyList.Slice` | chapter_1/data_model.py:44-45 | a slice raises ValueError exactly when its step is 0. Otherwise it returns a list no longer than the original, whose k-th element is the element at the k-th position of the span that `Resolve` and `ResolveSpan` characterise. No out-of-range bound makes it fail |
| `PyList.SliceContiguous` | chapter_1/data_model.py:54 | with the default step, a slice is the run between the two clamped bounds (negative bounds count from the end), and it is empty when the bounds cross |
| `PyList.SliceReverse` | chapter_1/data_model.py:44-45 | `s[::-1]` is `s` back to front |
| `PyList.IndexOf` | chapter_1/data_model.py:96 | `list.index(x)` succeeds exactly when x is in the list and returns the first position holding x. Otherwise it raises ValueError |
| `PyList.IndexOfDistinct` | chapter_1/data_model.py:96 | in a list without repeats, `index` finds every element at its own position |
| `PyList.Contains` | chapter_1/data_model.py:38-39 | the list's `in` scan is true exactly when some element equals the item |
| `PyList.DistinctConcat` | chapter_1/data_model.py:36 | two lists without repeats and without a common element concatenate to a list without repeats |
| `PyList.SameElementsPermutation` | chapter_1/data_model.py:100 | two lists without repeats that hold the same elements are permutations of each other |
| `PyList.PermutationDistinct` | chapter_1/data_model.py:100 | a permutation of a list without repeats has no repeats |
| `PyList.Iterate` | chapter_1/data_model.py:57-59 | the `__getitem__` iteration protocol yields len items, and its i-th item is what `s[i]` returns |
| `PyList.Reversed` | chapter_1/data_model.py:60-61 | `reversed()` through `__len__` and `__getitem__` yields len items, and its i-th item is what `s[len - 1 - i]` returns |
| `PyList.IterateIsInOrder` | chapter_1/data_model.py:58-59 | the `__getitem__` iteration protocol yields exactly s[0], …, s[len - 1], and its i-th item is `s[i]` |
| `PyList.ReversedIsReverseOfIterate` | chapter_1/data_model.py:60-61 | `reversed()` through `__len__` and `__getitem__` yields the forward iteration back to front |
| `DataModel.RanksDistinct` | chapter_1/data_model.py:32 | there are thirteen ranks, "2" to "10" then "J", "Q", "K", "A", none repeated |
| `DataModel.SuitsDistinct` | chapter_1/data_model.py:33 | there are four suits, spades, diamonds, clubs and hearts, none repeated |
| `DataModel.Row` | chapter_1/data_model.py:36 | the inner loop of the comprehension yields one card per rank, in rank order, all of the given suit |
| `DataModel.Build` | chapter_1/data_model.py:36 | the comprehension yields `len(ranks) * len(suits)` cards |
| `DataModel.BuildAt` | chapter_1/data_model.py:36 | the card of suit s and rank k is at position s * len(ranks) + k |
| `DataModel.RowMembership` | chapter_1/data_model.py:36 | a card is in one suit's run exactly when its rank is a rank and its suit is that suit |
| `DataModel.BuildMembership` | chapter_1/data_model.py:36 | a card is built exactly when its rank is one of the ranks and its suit one of the suits |
| `DataModel.BuildDistinct` | chapter_1/data_model.py:36 | ranks and suits without repeats give cards without repeats |
| `DataModel.NewDeck` | chapter_1/data_model.py:35-36 | `FrenchDeck()` holds one card per rank and suit, 13 * 4 of them; its order and contents are stated by `NewDeckSuitMajor` and `NewDeckIsFull` |
| `DataModel.FrenchDeck.Len` | chapter_1/data_model.py:41-42 | `len(deck)` is the number of cards that iterating the deck yields |
| `DataModel.FrenchDeck.Iterate` | chapter_1/data_model.py:57-59 | `for card in deck` yields len(deck) cards, and its i-th card is what `deck[i]` returns |
| `DataModel.FrenchDeck.Reversed` | chapter_1/data_model.py:60-61 | `reversed(deck)` yields len(deck) cards, and its i-th card is what `deck[len - 1 - i]` returns |
| `DataModel.FrenchDeck.GetItem` | chapter_1/data_model.py:44-45 | an integer position succeeds exactly when -len <= i < len and gives the card counted from the front or the back. Otherwise it raises IndexError. A slice fails (ValueError) exactly when its step is 0 and otherwise gives at most len cards |
| `DataModel.FrenchDeck.Contains` | chapter_1/data_model.py:38-39 | `card in deck` holds exactly when some position of the deck holds that card |
| `DataModel.DeckLength` | chapter_1/data_model.py:41-42 | `len(FrenchDeck())` is 13 ranks times 4 suits, 52 |
| `DataModel.NewDeckSuitMajor` | chapter_1/data_model.py:35-36 | position i of a new deck holds rank i % 13 of suit i / 13 |
| `DataModel.SuitMajorAt` | chapter_1/data_model.py:35-36 | in a suit-major list, position s * 13 + k holds rank k of suit s |
| `DataModel.DeckOrder` | chapter_1/data_model.py:53 | `deck[s * 13 + k]` is rank k of suit s, for every suit and rank |
| `DataModel.DeckIndexExamples` | chapter_1/data_model.py:53 | `deck[13]` is the two of diamonds, and `deck[-1]` and `deck[51]` are both the ace of hearts |
| `DataModel.DeckIndexing` | chapter_1/data_model.py:44-45 | on any deck of 52 cards, negative positions down to -52 count from the end, and positions from 52 up or below -52 raise IndexError |
| `DataModel.SliceHead` | chapter_1/data_model.py:54 | in any 52-element list, `[0:3]` is its first three elements |
| `DataModel.SliceEveryThirteenth` | chapter_1/data_model.py:55 | in any 52-element list, `[12::13]` is the elements at 12, 25, 38 and 51 |
| `DataModel.DeckSliceHead` | chapter_1/data_model.py:54 | `deck[0:3]` is the 2, 3 and 4 of spades |
| `DataModel.DeckSliceAces` | chapter_1/data_model.py:55 | `deck[12::13]` is the four aces in build order: spades, diamonds, clubs, hearts |
| `DataModel.DeckMembership` | chapter_1/data_model.py:38-39 | `card in FrenchDeck()` holds exactly for a card whose rank is one of the ranks and whose suit is one of the suits |
| `DataModel.DeckHasQueens` | chapter_1/data_model.py:69-70 | the queen of spades and the queen of clubs (also asked at line 103) are in the deck |
| `DataModel.DeckLacksForeignSuit` | chapter_1/data_model.py:71-72 | a card whose suit is not one of the four, such as the queen of dogs, is not in the deck |
| `DataModel.DeckIteration` | chapter_1/data_model.py:57-61 | `for card in deck` yields `deck[0]` to `deck[len - 1]`, and `reversed(deck)` yields the same cards back to front |
| `DataModel.NewDeckIsFull` | chapter_1/data_model.py:35-36 | a new deck holds every card of a rank and a suit exactly once |
| `CardOrder.RankIndex` | chapter_1/data_model.py:96 | for a known rank, `ranks.index(rank)` is a position below 13 that holds that rank |
| `CardOrder.SpadesHigh` | chapter_1/data_model.py:80-98 | a key exists exactly when the rank is one of the ranks and the suit has a weight. An unknown rank raises ValueError. Otherwise an unknown suit raises KeyError. Every key lies in [0, 52) |
| `CardOrder.SuitWeight` | chapter_1/data_model.py:78 | there are four suit weights, each in 0..3 |
| `CardOrder.ScaleBySuitCount` | chapter_1/data_model.py:97 | multiplying by `len(suit_values)` is multiplying by four |
| `CardOrder.KeyParts` | chapter_1/data_model.py:96-98 | a key is its rank's index times four plus its suit's weight |
| `CardOrder.KeyOfParts` | chapter_1/data_model.py:96-98 | a card whose rank is at index row and whose suit weighs column has key row * 4 + column |
| `CardOrder.Unpack` | chapter_1/data_model.py:83-87 | a rank index and a weight packed as row * 4 + column can be recovered from the key |
| `CardOrder.ComparePacked` | chapter_1/data_model.py:83-87 | packed keys compare like (rank index, weight) pairs |
| `CardOrder.WeightInjective` | chapter_1/data_model.py:78 | different suits have different weights |
| `CardOrder.SpadesHighInjective` | chapter_1/data_model.py:82 | two cards that have keys share a key exactly when they are the same card |
| `CardOrder.SpadesHighLexicographic` | chapter_1/data_model.py:83-94 | one key is below another exactly when its rank index is lower, or the ranks are equal and its suit weight is lower |
| `CardOrder.SuitTieBreak` | chapter_1/data_model.py:75-76 | within a rank, clubs < diamonds < hearts < spades |
| `CardOrder.WeightedSuits` | chapter_1/data_model.py:78 | the suits with a weight are exactly the suits of the deck |
| `CardOrder.HasKeyInDeck` | chapter_1/data_model.py:96-98 | within a full deck, a card has a key exactly when it is one of the deck's cards |
| `CardOrder.DeckKeys` | chapter_1/data_model.py:82 | every card of a full deck has a key in [0, 52), and different cards have different keys |
| `CardOrder.CardOfKey` | chapter_1/data_model.py:88-94 | every number below 52 is the key of some card |
| `CardOrder.KeyOfRankAndWeight` | chapter_1/data_model.py:88-94 | rank k / 4 with the suit of weight k % 4 has key k |
| `CardOrder.WeightOfSuitsByValue` | chapter_1/data_model.py:78 | the suits listed as clubs, diamonds, hearts, spades have weights 0, 1, 2, 3 |
| `CardOrder.IsSortedOf` | chapter_1/data_model.py:100 | the outcome of `sorted(deck, key=spades_high)`: the same cards as a multiset, with keys that never decrease; such an outcome has as many cards as the input |
| `CardOrder.SpadesHighOrder` | chapter_1/data_model.py:100 | the reference order has 52 cards |
| `CardOrder.SpadesHighOrderKeys` | chapter_1/data_model.py:100 | position k of the reference order holds the card with key k |
| `CardOrder.SpadesHighOrderSorted` | chapter_1/data_model.py:100 | the reference order has no repeats and its keys never decrease |
| `CardOrder.SpadesHighOrderHoldsDeck` | chapter_1/data_model.py:100 | the reference order holds exactly the cards of any full deck |
| `CardOrder.SpadesHighOrderSortsDeck` | chapter_1/data_model.py:100 | the reference order is a permutation of any full deck, sorted by key, so a sorted result exists. A full deck has 52 cards |
| `CardOrder.SortedDeckIncreasing` | chapter_1/data_model.py:100 | any sorted permutation of a full deck has 52 cards whose keys strictly increase |
| `CardOrder.IncreasingKeysPosition` | chapter_1/data_model.py:100 | in 52 cards with strictly increasing keys, position i holds key i |
| `CardOrder.KeyDeterminesCard` | chapter_1/data_model.py:82 | a key below 52 belongs to exactly one card |
| `CardOrder.SpadesHighOrderEnds` | chapter_1/data_model.py:100-101 | the sorted order starts with the two of clubs and ends with the ace of spades |
| `CardOrder.SortedDeckIsSpadesHighOrder` | chapter_1/data_model.py:100 | sorting a full deck by `spades_high` has exactly one possible outcome: the reference order |
| `CardOrder.SortedDeckByRankThenSuit` | chapter_1/data_model.py:75-76 | in the sorted deck every earlier card has a lower rank, or the same rank and a lower suit weight |
| `CardOrder.SortIdempotent` | chapter_1/data_model.py:100 | sorting the sorted deck again changes nothing |
| `CardOrder.SortedNewDeck` | chapter_1/data_model.py:100-101 | the reference order is a sorted rearrangement of `FrenchDeck()`, and every sorted rearrangement of it equals the reference order |

## Left out

- The `print` calls and demonstration loops at lines 47-61, 69-72 and 100-103. The model
  states what they would print as lemmas (`DeckIndexExamples`, `DeckSliceHead`,
  `DeckSliceAces`, `DeckIteration`, `DeckHasQueens`, `DeckLacksForeignSuit`,
  `SortedNewDeck`), but it has no output.
- `chapter_1/object.py` is not part of this model. It holds explanatory prose only.
- The rank list is built by `str(n) for n in range(2, 11)` plus `list('JQKA')`. The model
  writes out the resulting thirteen strings.
- The interpreter's own fallback for `in` (through `__iter__` or `__getitem__` when
  `__contains__` is missing) is not modelled, because `FrenchDeck` defines `__contains__`.
  The identity check that Python's list `in` makes before comparing is left out. Cards are
  values, so equality decides.
- Membership and comparison with items that are not cards are left out. For example, a plain
  tuple equals a namedtuple in Python. The model types the item as `Card`.
- A position that is neither an integer nor a slice, which raises TypeError, is left out.
  So are integer-like objects with `__index__`.
- `sorted()` is specified by its outcome: a permutation whose keys never decrease. Timsort
  itself and its stability are left out. Stability makes no difference here because the keys
  of the deck's cards are all different (`DeckKeys`).
- The `namedtuple` machinery (`repr`, tuple unpacking, `_fields`) is left out. `Card` is a
  two-field value.
- `DataModel.FrenchDeck.GetItem`: for a slice its contract gives the error case and the length
  bound. The element-by-element content is stated by `PyList.Slice`, to which it delegates,
  and by `DeckSliceHead` and `DeckSliceAces`.
- `CardOrder.SpadesHighOrder`: its own contract states only the length. Its contents are
  stated by `SpadesHighOrderKeys`, `SpadesHighOrderSorted` and `SpadesHighOrderEnds`.
