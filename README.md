# Blackjack deck handling in Dafny

This project models the deck handling of a command-line Blackjack game, `blackjack.py`:

- `generate_deck` builds the 52 card strings: a rank followed by a one-letter suit, suit by suit.
- `shuffle_deck` shuffles that list in place with `random.shuffle` and returns the same list.
- `players_initial_draw` and `dealers_initial_draw` each pick two cards with `random.choices(deck, k = 2)`.
  They append that two-element list to a local hand, call `deck.remove` on it, and return the hand and the deck.

The model has three modules:

- `PyList` (`pylist.dfy`) holds the Python behaviour the code depends on:
  - a `Value` is either a `str` or a `list` of values, so datatype equality is Python's `==` on these values;
  - `IndexError` and `ValueError` appear as `Result`/`Status` values;
  - `list.remove` is the function `RemoveFirst`;
  - the in-place list object is the class `List`, whose `items` field its methods reassign.
- `PyRandom` (`pyrandom.dfy`) holds the two library calls, with the generator's output passed in as parameters:
  - `random.shuffle` is CPython's swap loop, driven by the successive results of `randbelow`;
  - `random.choices` is driven by the chosen positions.
- `Blackjack` (`blackjack.dfy`) holds the four functions of the game file.
  It also holds the draw the doc-comments describe: two distinct cards taken out of the deck (see "Findings").

Main results:

- The generated deck has 52 cards; the comprehension yields one card per suit and value in general.
- The card at position `13 * s + v` is `values[v] + suits[s]`.
- The cards are pairwise distinct, and the deck holds exactly the 52 rank-and-suit combinations.
- Shuffling keeps the multiset of the list and keeps it free of duplicates.
- `remove` deletes only the first equal element, or raises `ValueError` and leaves the list as it was.
- On a deck of card strings, each initial draw always raises, so the 50- and 48-card decks are never reached.

## Model

| member | source | states |
|---|---|---|
| PyList.RemoveFirst | blackjack.py:58 | `list.remove(x)` raises exactly when `x` is absent, and always with `ValueError`; otherwise the list is one element shorter |
| PyList.RemoveFirstAt | blackjack.py:58 | when the first occurrence of `x` is at position `i`, removing returns the list with only position `i` deleted; everything else stays in order |
| PyList.RemoveFirstMultiset | blackjack.py:58 | removing an element that occurs takes exactly one copy of it out of the multiset of the list |
| PyList.NoListInStrings | blackjack.py:58 | removing any list value from a list of strings raises `ValueError` |
| PyList.List.Index | blackjack.py:58 | the position the list search finds holds `x` with no earlier `x`; no position is found exactly when `x` is absent |
| PyList.List.Remove | blackjack.py:58 | in-place `remove` leaves the list as `RemoveFirst` describes; when that raises, the exception comes back and the list is unchanged |
| PyRandom.ShuffleFrom | blackjack.py:30 | the value-level `random.shuffle` from step `k` on: each step swaps the next position from the end with the chosen one, and the length is kept |
| PyRandom.Shuffled | blackjack.py:30 | the list `random.shuffle` produces from given generator results: all steps from the first, keeping the length |
| PyRandom.ShuffleFromPermutes | blackjack.py:30 | every run of the remaining swap steps of the shuffle keeps the multiset of the list |
| PyRandom.ShuffledPermutes | blackjack.py:30 | for every sequence of generator results, the shuffled list is a permutation of the original |
| PyRandom.ShuffleFromKeepsDistinct | blackjack.py:30 | the remaining swap steps keep a duplicate-free list duplicate-free |
| PyRandom.ShuffledKeepsDistinct | blackjack.py:30 | shuffling a duplicate-free list gives a duplicate-free list |
| PyRandom.ShuffledKeepsStrings | blackjack.py:30 | a shuffled list of strings is still a list of strings |
| PyRandom.Shuffle | blackjack.py:30 | the in-place swap loop leaves the list equal to `Shuffled` of the old list, with the same multiset |
| PyRandom.Choices | blackjack.py:56 | choosing `k` items gives `k` items; item `n` is the population's element at the `n`-th chosen position, so each is a member of the population; an empty population raises `IndexError` |
| PyRandom.ChoicesMayRepeat | blackjack.py:56 | choice is with replacement: the same card may be drawn twice |
| Blackjack.Row | blackjack.py:17 | the inner loop of the comprehension gives one card per value, in value order, each value followed by the suit |
| Blackjack.ComprehensionLength | blackjack.py:15-17 | the comprehension `Blackjack.Comprehension` (suits outer, values inner) yields one card for each suit and each value: the number of suits times the number of values |
| Blackjack.ComprehensionAt | blackjack.py:17 | with `n` values, the card at position `s * n + v` is `values[v] + suits[s]` (suit-major order) |
| Blackjack.ComprehensionCard | blackjack.py:17 | every card produced is some value followed by some suit |
| Blackjack.CardInComprehension | blackjack.py:17 | every value followed by every suit is produced |
| Blackjack.ComprehensionDistinct | blackjack.py:15-17 | distinct values and distinct one-letter suits give pairwise distinct cards |
| Blackjack.GenerateDeck | blackjack.py:9-18 | `generate_deck()` is the comprehension `Blackjack.Comprehension` over the two literal lists and returns 52 cards |
| Blackjack.GenerateDeckAt | blackjack.py:15-17 | the card at index `13 * s + v` is rank `v` of suit `s` |
| Blackjack.GenerateDeckIndex | blackjack.py:15-17 | each index `k` holds rank `k % 13` of suit `k / 13` |
| Blackjack.GenerateDeckDistinct | blackjack.py:15-17 | the 52 cards are pairwise distinct |
| Blackjack.GenerateDeckCards | blackjack.py:15-17 | a string is in the deck exactly when it is one of the 13 x 4 rank-and-suit combinations |
| Blackjack.Cards | blackjack.py:17 | the deck as a Python list holds the same cards as strings, in order, and keeps them distinct |
| Blackjack.ShuffleDeck | blackjack.py:21-31 | `shuffle_deck` returns the very list it was given, rearranged to `Shuffled` of its old contents; the multiset is the same; a duplicate-free deck stays duplicate-free |
| Blackjack.InitialDraw | blackjack.py:55-59 | an empty deck raises `IndexError`; otherwise the draw succeeds exactly when the two-card list is itself an element of the deck; on success the hand is the drawn pair and the deck left is exactly what `remove` of that pair returns (the first equal element deleted, so one element shorter); any other failure is `ValueError` |
| Blackjack.DrawOfCardsFails | blackjack.py:56-58 | on a deck of card strings the draw always raises: `IndexError` when the deck is empty, `ValueError` otherwise |
| Blackjack.GeneratedDeckDrawFails | blackjack.py:46-59 | the generated and shuffled 52-card deck makes the player's draw raise `ValueError`, whatever the shuffle and the choice |
| Blackjack.PlayersInitialDraw | blackjack.py:46-59 | `players_initial_draw` returns the drawn pair and the same list object, with the list as `InitialDraw` leaves it, or raises with the list unchanged; on a deck of strings it always raises |
| Blackjack.DealersInitialDraw | blackjack.py:62-78 | `dealers_initial_draw` does the same for the dealer |
| Blackjack.SampleDraw | blackjack.py:47 | the intended draw raises `ValueError` on fewer than two cards and otherwise leaves two fewer cards |
| Blackjack.SampleDrawTakesTwo | blackjack.py:47 | on two or more cards the intended draw succeeds; the hand is the two chosen cards, and exactly those two leave the multiset of the deck; from a duplicate-free deck neither card stays behind |
| Blackjack.SampleDrawKeepsDistinct | blackjack.py:47 | the intended draw keeps a duplicate-free deck duplicate-free |
| Blackjack.SampledDeal | blackjack.py:66-69 | the player's then the dealer's intended draw raise `ValueError` on fewer than four cards |
| Blackjack.TwoSampledDraws | blackjack.py:66-69 | on a duplicate-free deck of four or more, both intended draws succeed, four cards leave, and no drawn card remains; the dealer's cards differ from the player's |
| Blackjack.SampledDealLeaves48 | blackjack.py:66-69 | with the intended draws, the generated and shuffled deck leaves exactly 48 cards after both hands |

## Left out

- `begin_game` and all prompting (blackjack.py:34-43): interactive input.
- Console output: the debug `print`s in `dealers_initial_draw` (blackjack.py:74-75) and the `console.print` calls. They only produce output.
- The `__main__` block (blackjack.py:81-91): it only sequences the calls above with I/O. Its draw raises before any of its prints.
- The random number generator. The results of `randbelow` for the shuffle and the positions `random.choices` picks are parameters. No distribution or uniformity is modelled.
- PyRandom.Shuffle: CPython's `random` module is not part of this model. The method follows CPython's published swap loop for `random.shuffle`. Its permutation property holds for every sequence of generator results.
- PyRandom.Choices: it takes the chosen positions directly. How `random.choices` turns `random()` into positions is not modelled.
- Blackjack.PlayersInitialDraw: the local `players_hand` list is a local sequence. It is not a `List` object, because nothing else can see it. The same holds for `dealers_hand` in Blackjack.DealersInitialDraw.
- Scoring, turns and outcomes: they do not appear in the source.

## Findings

| source | as written | input that shows it | evidently intended | confidence | as-written member | corrected member |
|---|---|---|---|---|---|---|
| blackjack.py:56-58, blackjack.py:73-77 | `random.choices(deck, k = 2)` returns a two-element list, and `deck.remove` is then asked to remove that list from a list of card strings | the shuffled output of `generate_deck()`, with any shuffle and any two chosen positions: `remove` finds no element equal to the list and raises `ValueError`, so the 50-card deck the dealer's draw expects (line 66) and the 48-card deck it documents (line 69) are never produced | take two different cards and remove each of them from the deck, leaving 50 cards and then 48 | not executed | Blackjack.GeneratedDeckDrawFails | Blackjack.SampledDealLeaves48 |
