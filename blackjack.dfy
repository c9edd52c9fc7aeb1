/**
 The deck handling of the Blackjack game: building the 52-card deck,
 shuffling it in place, and the two-card initial draws of the player and
 the dealer.  Randomness enters as parameters: the results of `randbelow`
 for the shuffle and the two chosen positions for each draw.
 */
module Blackjack {
  import opened PyList
  import opened PyRandom

  /** The ranks, in the order the deck lists them. */
  const Values: seq<string> := ["A", "2", "3", "4", "5", "6", "7", "8", "9", "10", "J", "Q", "K"]

  /** The suits (hearts, diamonds, clubs, spades), one letter each. */
  const Suits: seq<string> := ["H", "D", "C", "S"]

  /** The inner loop of the comprehension: every value followed by `suit`. */
  function Row(values: seq<string>, suit: string): (row: seq<string>)
    ensures |row| == |values|
    ensures forall v :: 0 <= v < |values| ==> row[v] == values[v] + suit
  {
    if values == [] then [] else [values[0] + suit] + Row(values[1..], suit)
  }

  /** `[value + suit for suit in suits for value in values]`. */
  function Comprehension(values: seq<string>, suits: seq<string>): (deck: seq<string>)
  {
    if suits == [] then [] else Row(values, suits[0]) + Comprehension(values, suits[1..])
  }

  /** One card per value and suit. */
  lemma {:induction false} ComprehensionLength(values: seq<string>, suits: seq<string>)
    ensures |Comprehension(values, suits)| == |suits| * |values|
  {
    if suits != [] {
      ComprehensionLength(values, suits[1..]);
      MulSucc(|suits| - 1, |values|);
    }
  }

  /** Suit-major order: suit `s` occupies the `s`-th block of `|values|` cards,
      in the order of `values`. */
  lemma {:induction false} ComprehensionAt(values: seq<string>, suits: seq<string>, s: nat, v: nat, k: nat)
    requires s < |suits| && v < |values| && k == s * |values| + v
    ensures k < |Comprehension(values, suits)|
    ensures Comprehension(values, suits)[k] == values[v] + suits[s]
  {
    var n := |values|;
    var row := Row(values, suits[0]);
    var rest := Comprehension(values, suits[1..]);
    assert Comprehension(values, suits) == row + rest;
    if s > 0 {
      MulSucc(s - 1, n);
      ComprehensionAt(values, suits[1..], s - 1, v, k - n);
      assert (row + rest)[k] == rest[k - n];
    }
  }

  lemma MulSucc(a: nat, n: nat)
    ensures (a + 1) * n == a * n + n
  {
  }

  /** One trailing suit letter can be split off again. */
  lemma SplitCard(a: string, b: string, s: string, t: string)
    requires |s| == 1 && |t| == 1 && a + s == b + t
    ensures a == b && s == t
  {
    assert |a| == |b|;
    assert a == (a + s)[..|a|] && b == (b + t)[..|b|];
    assert s == (a + s)[|a|..] && t == (b + t)[|b|..];
  }

  lemma DistinctConcat<T>(a: seq<T>, b: seq<T>)
    requires Distinct(a) && Distinct(b)
    requires forall x :: x in a ==> x !in b
    ensures Distinct(a + b)
  {
    var c := a + b;
    forall p, q | 0 <= p < q < |c| ensures c[p] != c[q] {
      if p < |a| && q >= |a| {
        assert c[p] == a[p] && c[q] == b[q - |a|];
        assert a[p] in a;
      }
    }
  }

  /** Every generated card ends in one of the suits it was generated for. */
  lemma {:induction false} ComprehensionSuit(values: seq<string>, suits: seq<string>, c: string)
    requires forall s :: s in suits ==> |s| == 1
    requires c in Comprehension(values, suits)
    ensures |c| >= 1 && c[|c| - 1..] in suits
  {
    var row := Row(values, suits[0]);
    var rest := Comprehension(values, suits[1..]);
    assert Comprehension(values, suits) == row + rest;
    if c in row {
      var v :| 0 <= v < |row| && row[v] == c;
      assert c == values[v] + suits[0];
      assert suits[0] in suits;
      assert c[|c| - 1..] == suits[0];
    } else {
      assert forall s :: s in suits[1..] ==> s in suits;
      ComprehensionSuit(values, suits[1..], c);
      assert c[|c| - 1..] in suits[1..];
    }
  }

  /** Rank-plus-suit is injective, so distinct ranks and distinct one-letter
      suits give a deck without duplicates. */
  lemma {:induction false} ComprehensionDistinct(values: seq<string>, suits: seq<string>)
    requires Distinct(values) && Distinct(suits)
    requires forall s :: s in suits ==> |s| == 1
    ensures Distinct(Comprehension(values, suits))
  {
    if suits != [] {
      var suit := suits[0];
      var row := Row(values, suit);
      var rest := Comprehension(values, suits[1..]);
      forall a, b | 0 <= a < b < |row| ensures row[a] != row[b] {
        if row[a] == row[b] {
          SplitCard(values[a], values[b], suit, suit);
        }
      }
      assert forall s :: s in suits[1..] ==> s in suits;
      ComprehensionDistinct(values, suits[1..]);
      assert suit !in suits[1..] by {
        forall k | 0 <= k < |suits| - 1 ensures suits[1..][k] != suit {
          assert suits[1..][k] == suits[k + 1];
        }
      }
      forall c | c in rest ensures |c| >= 1 && c[|c| - 1..] in suits[1..] {
        ComprehensionSuit(values, suits[1..], c);
      }
      forall c | c in row ensures c !in rest {
        var v :| 0 <= v < |row| && row[v] == c;
        assert c[|c| - 1..] == suit;
      }
      DistinctConcat(row, rest);
    }
  }

  /** `generate_deck()`. */
  function GenerateDeck(): (deck: seq<string>)
    ensures |deck| == 52
  {
    ComprehensionLength(Values, Suits);
    Comprehension(Values, Suits)
  }

  /** `ComprehensionAt` for blocks of 13 values. */
  lemma ComprehensionAtBlock(values: seq<string>, suits: seq<string>, s: nat, v: nat)
    requires |values| == 13 && s < |suits| && v < 13
    ensures 13 * s + v < |Comprehension(values, suits)|
    ensures Comprehension(values, suits)[13 * s + v] == values[v] + suits[s]
  {
    assert s * |values| == 13 * s;
    ComprehensionAt(values, suits, s, v, 13 * s + v);
  }

  /** The card at position `13 * s + v` is rank `v` of suit `s`. */
  lemma GenerateDeckAt(s: nat, v: nat)
    requires s < 4 && v < 13
    ensures GenerateDeck()[13 * s + v] == Values[v] + Suits[s]
  {
    ComprehensionAtBlock(Values, Suits, s, v);
  }

  /** `ComprehensionAtBlock` read backwards: position `k` is in block `k / 13`. */
  lemma ComprehensionIndexBlock(values: seq<string>, suits: seq<string>, k: nat)
    requires |values| == 13 && k < 13 * |suits|
    ensures k < |Comprehension(values, suits)|
    ensures Comprehension(values, suits)[k] == values[k % 13] + suits[k / 13]
  {
    var s, v := k / 13, k % 13;
    assert k == 13 * s + v;
    ComprehensionAtBlock(values, suits, s, v);
  }

  /** Every position of the deck holds a known card. */
  lemma GenerateDeckIndex(k: nat)
    requires k < 52
    ensures GenerateDeck()[k] == Values[k % 13] + Suits[k / 13]
  {
    ComprehensionIndexBlock(Values, Suits, k);
  }

  lemma ValuesDistinct()
    ensures Distinct(Values)
  {
  }

  lemma SuitsDistinct()
    ensures Distinct(Suits)
    ensures forall s :: s in Suits ==> |s| == 1
  {
  }

  /** The 52 cards are pairwise distinct. */
  lemma GenerateDeckDistinct()
    ensures Distinct(GenerateDeck())
  {
    ValuesDistinct();
    SuitsDistinct();
    ComprehensionDistinct(Values, Suits);
  }

  /** `card` is one of the 13 x 4 rank-and-suit combinations. */
  predicate IsCard(card: string)
  {
    exists s, v :: 0 <= s < 4 && 0 <= v < 13 && card == Values[v] + Suits[s]
  }

  /** The deck holds every rank of every suit and nothing else. */
  lemma GenerateDeckCards(card: string)
    ensures card in GenerateDeck() <==> IsCard(card)
  {
    if card in GenerateDeck() {
      DeckCardIsCard(card);
    }
    if IsCard(card) {
      CardInDeck(card);
    }
  }

  lemma DeckCardIsCard(card: string)
    requires card in GenerateDeck()
    ensures IsCard(card)
  {
    ComprehensionCard(Values, Suits, card);
    var s, v :| 0 <= s < |Suits| && 0 <= v < |Values| && card == Values[v] + Suits[s];
    assert 0 <= s < 4 && 0 <= v < 13;
  }

  lemma CardInDeck(card: string)
    requires IsCard(card)
    ensures card in GenerateDeck()
  {
    var s, v :| 0 <= s < 4 && 0 <= v < 13 && card == Values[v] + Suits[s];
    CardInComprehension(Values, Suits, s, v);
  }

  /** Every card the comprehension produces is some value followed by some suit. */
  lemma {:induction false} ComprehensionCard(values: seq<string>, suits: seq<string>, c: string)
    requires c in Comprehension(values, suits)
    ensures exists s, v :: 0 <= s < |suits| && 0 <= v < |values| && c == values[v] + suits[s]
  {
    var row := Row(values, suits[0]);
    var rest := Comprehension(values, suits[1..]);
    assert Comprehension(values, suits) == row + rest;
    if c in row {
      var v :| 0 <= v < |row| && row[v] == c;
      assert c == values[v] + suits[0];
    } else {
      ComprehensionCard(values, suits[1..], c);
      var s, v :| 0 <= s < |suits| - 1 && 0 <= v < |values| && c == values[v] + suits[1..][s];
      assert c == values[v] + suits[s + 1];
    }
  }

  /** Every value followed by every suit is among the cards produced. */
  lemma {:induction false} CardInComprehension(values: seq<string>, suits: seq<string>, s: nat, v: nat)
    requires s < |suits| && v < |values|
    ensures values[v] + suits[s] in Comprehension(values, suits)
  {
    var row := Row(values, suits[0]);
    var rest := Comprehension(values, suits[1..]);
    assert Comprehension(values, suits) == row + rest;
    if s == 0 {
      assert row[v] == values[v] + suits[0];
    } else {
      CardInComprehension(values, suits[1..], s - 1, v);
      assert suits[1..][s - 1] == suits[s];
    }
  }

  /** The Python list of strings holding `cards`. */
  function Cards(cards: seq<string>): (r: seq<Value>)
    ensures |r| == |cards| && AllStrings(r)
    ensures forall k :: 0 <= k < |cards| ==> r[k] == Str(cards[k])
    ensures Distinct(cards) ==> Distinct(r)
  {
    seq(|cards|, k requires 0 <= k < |cards| => Str(cards[k]))
  }

  /** `shuffle_deck(deck)`: shuffles in place and returns the same list. */
  method ShuffleDeck(deck: List, picks: seq<nat>) returns (shuffled: List)
    requires ValidPicks(|deck.items|, picks)
    modifies deck
    ensures shuffled == deck
    ensures deck.items == Shuffled(old(deck.items), picks)
    ensures multiset(deck.items) == multiset(old(deck.items))
    ensures Distinct(old(deck.items)) ==> Distinct(deck.items)
  {
    ghost var distinct := Distinct(deck.items);
    if distinct {
      ShuffledKeepsDistinct(deck.items, picks);
    }
    Shuffle(deck, picks);
    shuffled := deck;
  }

  /** The hand an initial draw returns and the deck it leaves. */
  datatype Draw = Draw(hand: Value, deck: seq<Value>)

  /** What `players_initial_draw` and `dealers_initial_draw` compute, as
      written: choose two cards with replacement, then remove the two-element
      list from the deck. */
  function InitialDraw(deck: seq<Value>, i: nat, j: nat): (r: Result<Draw>)
    requires |deck| == 0 || (i < |deck| && j < |deck|)
    ensures |deck| == 0 ==> r == Err(IndexError)
    ensures r.Ok? ==> |deck| > 0 && r.value.hand == List([deck[i], deck[j]])
    ensures |deck| > 0 ==> (r.Ok? <==> List([deck[i], deck[j]]) in deck)
    ensures r.Ok? ==> |r.value.deck| == |deck| - 1
    ensures r.Ok? ==> RemoveFirst(deck, r.value.hand) == Ok(r.value.deck)
    ensures r.Err? && |deck| > 0 ==> r.error == ValueError
  {
    assert ValidChoices(|deck|, [i, j]);
    match Choices(deck, [i, j])
    case Err(e) => Err(e)
    case Ok(drawn) =>
      assert drawn == [deck[i], deck[j]];
      match RemoveFirst(deck, List(drawn))
      case Err(e) => Err(e)
      case Ok(rest) => Ok(Draw(List(drawn), rest))
  }

  /** On a deck of card strings the draw always raises: the two-card list
      equals no card, so `remove` finds nothing. */
  lemma DrawOfCardsFails(deck: seq<Value>, i: nat, j: nat)
    requires |deck| == 0 || (i < |deck| && j < |deck|)
    requires AllStrings(deck)
    ensures InitialDraw(deck, i, j) == Err(if |deck| == 0 then IndexError else ValueError)
  {
    if |deck| > 0 {
      NoListInStrings(deck, [deck[i], deck[j]]);
    }
  }

  /** The program's own path: the shuffled 52-card deck never yields the
      50-card deck the player's draw is documented to leave. */
  lemma GeneratedDeckDrawFails(picks: seq<nat>, i: nat, j: nat)
    requires ValidPicks(52, picks) && i < 52 && j < 52
    ensures InitialDraw(Shuffled(Cards(GenerateDeck()), picks), i, j) == Err(ValueError)
  {
    var deck := Shuffled(Cards(GenerateDeck()), picks);
    ShuffledKeepsStrings(Cards(GenerateDeck()), picks);
    DrawOfCardsFails(deck, i, j);
  }

  /** `players_initial_draw(shuffled_deck)`: returns the hand and the same
      list object, or raises; the random choice is the positions `i`, `j`. */
  method PlayersInitialDraw(shuffledDeck: List, i: nat, j: nat) returns (r: Result<(Value, List)>)
    requires |shuffledDeck.items| == 0 || (i < |shuffledDeck.items| && j < |shuffledDeck.items|)
    modifies shuffledDeck
    ensures match InitialDraw(old(shuffledDeck.items), i, j)
            case Ok(d) => r == Ok((d.hand, shuffledDeck)) && shuffledDeck.items == d.deck
            case Err(e) => r == Err(e) && shuffledDeck.items == old(shuffledDeck.items)
    ensures AllStrings(old(shuffledDeck.items)) ==> r.Err? && shuffledDeck.items == old(shuffledDeck.items)
  {
    ghost var cards := AllStrings(shuffledDeck.items);
    if cards {
      DrawOfCardsFails(shuffledDeck.items, i, j);
    }
    var playersHand: seq<Value> := [];
    var randomDraw := Choices(shuffledDeck.items, [i, j]);
    if randomDraw.Err? {
      return Err(randomDraw.error);
    }
    playersHand := playersHand + [List(randomDraw.value)];
    var status := shuffledDeck.Remove(List(randomDraw.value));
    if status.Raised? {
      return Err(status.error);
    }
    return Ok((playersHand[0], shuffledDeck));
  }

  /** `dealers_initial_draw(shuffled_deck)`: the same steps for the dealer. */
  method DealersInitialDraw(shuffledDeck: List, i: nat, j: nat) returns (r: Result<(Value, List)>)
    requires |shuffledDeck.items| == 0 || (i < |shuffledDeck.items| && j < |shuffledDeck.items|)
    modifies shuffledDeck
    ensures match InitialDraw(old(shuffledDeck.items), i, j)
            case Ok(d) => r == Ok((d.hand, shuffledDeck)) && shuffledDeck.items == d.deck
            case Err(e) => r == Err(e) && shuffledDeck.items == old(shuffledDeck.items)
    ensures AllStrings(old(shuffledDeck.items)) ==> r.Err? && shuffledDeck.items == old(shuffledDeck.items)
  {
    ghost var cards := AllStrings(shuffledDeck.items);
    if cards {
      DrawOfCardsFails(shuffledDeck.items, i, j);
    }
    var dealersHand: seq<Value> := [];
    var randomDraw := Choices(shuffledDeck.items, [i, j]);
    if randomDraw.Err? {
      return Err(randomDraw.error);
    }
    dealersHand := dealersHand + [List(randomDraw.value)];
    var status := shuffledDeck.Remove(List(randomDraw.value));
    if status.Raised? {
      return Err(status.error);
    }
    return Ok((dealersHand[0], shuffledDeck));
  }

  // The draw the doc-comments describe: two different cards leave the deck.

  /** Two different positions holding the same value occur twice in the multiset. */
  lemma TwoPositions<T>(s: seq<T>, a: nat, b: nat)
    requires a < |s| && b < |s| && a != b && s[a] == s[b]
    ensures multiset(s)[s[a]] >= 2
  {
    var lo, hi := if a < b then a else b, if a < b then b else a;
    assert s == s[..hi] + [s[hi]] + s[hi + 1..];
    assert s[..hi][lo] == s[lo];
    assert s[lo] in multiset(s[..hi]);
  }

  /** In a list without duplicates every value occurs at most once. */
  lemma {:induction false} DistinctCount<T>(s: seq<T>, x: T)
    requires Distinct(s)
    ensures multiset(s)[x] <= 1
  {
    if s != [] {
      assert s == [s[0]] + s[1..];
      assert Distinct(s[1..]) by {
        forall a, b | 0 <= a < b < |s| - 1 ensures s[1..][a] != s[1..][b] {
          assert s[1..][a] == s[a + 1] && s[1..][b] == s[b + 1];
        }
      }
      DistinctCount(s[1..], x);
      if x == s[0] {
        assert x !in s[1..] by {
          forall k | 0 <= k < |s| - 1 ensures s[1..][k] != x {
            assert s[1..][k] == s[k + 1];
          }
        }
      }
    }
  }

  /** The draw the doc-comments describe, with `random.sample(deck, 2)`
      choosing the two different positions `i` and `j` and each chosen card
      removed from the deck. */
  function SampleDraw(deck: seq<Value>, i: nat, j: nat): (r: Result<Draw>)
    requires |deck| < 2 || (i < |deck| && j < |deck| && i != j)
    ensures |deck| < 2 ==> r == Err(ValueError)
    ensures r.Ok? ==> |r.value.deck| == |deck| - 2
  {
    if |deck| < 2 then Err(ValueError)
    else
      match RemoveFirst(deck, deck[i])
      case Err(e) => Err(e)
      case Ok(rest) =>
        match RemoveFirst(rest, deck[j])
        case Err(e) => Err(e)
        case Ok(rest') => Ok(Draw(List([deck[i], deck[j]]), rest'))
  }

  /** A sampled draw always succeeds on a deck of two or more cards: the hand
      is the two chosen cards and the deck is two cards shorter, having lost
      exactly them.  On a deck without duplicates neither card stays behind. */
  lemma SampleDrawTakesTwo(deck: seq<Value>, i: nat, j: nat)
    requires 2 <= |deck| && i < |deck| && j < |deck| && i != j
    ensures SampleDraw(deck, i, j).Ok?
    ensures SampleDraw(deck, i, j).value.hand == List([deck[i], deck[j]])
    ensures |SampleDraw(deck, i, j).value.deck| == |deck| - 2
    ensures multiset(SampleDraw(deck, i, j).value.deck) + multiset{deck[i], deck[j]} == multiset(deck)
    ensures Distinct(deck) ==> deck[i] !in SampleDraw(deck, i, j).value.deck
    ensures Distinct(deck) ==> deck[j] !in SampleDraw(deck, i, j).value.deck
  {
    var a, b := deck[i], deck[j];
    var m := multiset(deck);
    assert a in deck && b in deck;
    RemoveFirstMultiset(deck, a);
    var rest := RemoveFirst(deck, a).value;
    assert m[b] >= (if a == b then 2 else 1) by {
      if a == b {
        TwoPositions(deck, i, j);
      }
    }
    assert b in multiset(rest);
    RemoveFirstMultiset(rest, b);
    var rest' := RemoveFirst(rest, b).value;
    assert SampleDraw(deck, i, j) == Ok(Draw(List([a, b]), rest'));
    RemoveTwo(m, a, b);
    if Distinct(deck) {
      DistinctCount(deck, a);
      DistinctCount(deck, b);
    }
  }

  lemma RemoveTwo<T>(m: multiset<T>, a: T, b: T)
    requires m[b] >= (if a == b then 2 else 1) && m[a] >= 1
    ensures m - multiset{a} - multiset{b} + multiset{a, b} == m
  {
  }

  /** A sampled draw from a deck without duplicates leaves a deck without
      duplicates. */
  lemma SampleDrawKeepsDistinct(deck: seq<Value>, i: nat, j: nat)
    requires 2 <= |deck| && i < |deck| && j < |deck| && i != j && Distinct(deck)
    ensures SampleDraw(deck, i, j).Ok? && Distinct(SampleDraw(deck, i, j).value.deck)
  {
    SampleDrawTakesTwo(deck, i, j);
    var rest := SampleDraw(deck, i, j).value.deck;
    assert multiset(rest) <= multiset(deck);
    forall x ensures multiset(rest)[x] <= 1 {
      DistinctCount(deck, x);
    }
    MultisetDistinct(rest);
  }

  /** The player's and the dealer's hands and the deck left after both. */
  datatype Deal = Deal(player: Value, dealer: Value, deck: seq<Value>)

  /** The opening of the game as the doc-comments describe it: the player's
      sampled draw from the shuffled deck, then the dealer's from what is left. */
  function SampledDeal(deck: seq<Value>, pi: nat, pj: nat, di: nat, dj: nat): (r: Result<Deal>)
    requires |deck| < 2 || (pi < |deck| && pj < |deck| && pi != pj)
    requires |deck| < 4 || (di < |deck| - 2 && dj < |deck| - 2 && di != dj)
    ensures |deck| < 4 ==> r == Err(ValueError)
  {
    match SampleDraw(deck, pi, pj)
    case Err(e) => Err(e)
    case Ok(player) =>
      match SampleDraw(player.deck, di, dj)
      case Err(e) => Err(e)
      case Ok(dealer) => Ok(Deal(player.hand, dealer.hand, dealer.deck))
  }

  /** Two sampled draws from a deck without duplicates take four cards out of
      it, and no drawn card stays in the deck. */
  lemma TwoSampledDraws(deck: seq<Value>, pi: nat, pj: nat, di: nat, dj: nat)
    requires Distinct(deck) && 4 <= |deck|
    requires pi < |deck| && pj < |deck| && pi != pj
    requires di < |deck| - 2 && dj < |deck| - 2 && di != dj
    ensures SampledDeal(deck, pi, pj, di, dj).Ok?
    ensures |SampledDeal(deck, pi, pj, di, dj).value.deck| == |deck| - 4
    ensures forall c :: c in SampledDeal(deck, pi, pj, di, dj).value.player.elems ==>
              c !in SampledDeal(deck, pi, pj, di, dj).value.deck
    ensures forall c :: c in SampledDeal(deck, pi, pj, di, dj).value.dealer.elems ==>
              c !in SampledDeal(deck, pi, pj, di, dj).value.deck
    ensures forall c :: c in SampledDeal(deck, pi, pj, di, dj).value.dealer.elems ==>
              c !in SampledDeal(deck, pi, pj, di, dj).value.player.elems
  {
    SampleDrawTakesTwo(deck, pi, pj);
    SampleDrawKeepsDistinct(deck, pi, pj);
    var player := SampleDraw(deck, pi, pj).value;
    SampleDrawTakesTwo(player.deck, di, dj);
    var dealer := SampleDraw(player.deck, di, dj).value;
    assert SampledDeal(deck, pi, pj, di, dj) == Ok(Deal(player.hand, dealer.hand, dealer.deck));
    forall c | c in player.hand.elems ensures c !in dealer.deck {
      assert c !in player.deck;
      NotInAfterDraw(player.deck, di, dj, c);
    }
    forall c | c in dealer.hand.elems ensures c !in player.hand.elems {
      assert c in player.deck;
    }
  }

  /** A sampled draw adds nothing to the deck. */
  lemma NotInAfterDraw(deck: seq<Value>, i: nat, j: nat, c: Value)
    requires 2 <= |deck| && i < |deck| && j < |deck| && i != j && c !in deck
    ensures SampleDraw(deck, i, j).Ok? && c !in SampleDraw(deck, i, j).value.deck
  {
    SampleDrawTakesTwo(deck, i, j);
    var rest := SampleDraw(deck, i, j).value.deck;
    assert multiset(rest) <= multiset(deck);
    assert multiset(rest)[c] == 0;
  }

  /** With sampled draws the game opens with 48 cards left in the deck, as
      the dealer's doc-comment says, and no drawn card stays in the deck. */
  lemma SampledDealLeaves48(picks: seq<nat>, pi: nat, pj: nat, di: nat, dj: nat)
    requires ValidPicks(52, picks)
    requires pi < 52 && pj < 52 && pi != pj
    requires di < 50 && dj < 50 && di != dj
    ensures SampledDeal(Shuffled(Cards(GenerateDeck()), picks), pi, pj, di, dj).Ok?
    ensures |SampledDeal(Shuffled(Cards(GenerateDeck()), picks), pi, pj, di, dj).value.deck| == 48
  {
    var cards := Cards(GenerateDeck());
    GenerateDeckDistinct();
    ShuffledKeepsDistinct(cards, picks);
    TwoSampledDraws(Shuffled(cards, picks), pi, pj, di, dj);
  }

  /** A list in which every value occurs at most once has no duplicates. */
  lemma MultisetDistinct<T>(s: seq<T>)
    requires forall x :: multiset(s)[x] <= 1
    ensures Distinct(s)
  {
    forall a, b | 0 <= a < b < |s| ensures s[a] != s[b] {
      if s[a] == s[b] {
        TwoPositions(s, a, b);
      }
    }
  }
}
