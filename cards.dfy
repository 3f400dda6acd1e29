/** Playing cards and the 52-card deck of poker_logic/cards.py. */
module Cards {
  import opened Wrappers

  /** The suit symbols, in the order the deck is built: spades, hearts, diamonds, clubs. */
  const Suits: seq<string> := ["♠", "♥", "♦", "♣"]
  /** The rank symbols from two up to ace; "T" stands for ten. */
  const Ranks: seq<string> := ["2", "3", "4", "5", "6", "7", "8", "9", "T", "J", "Q", "K", "A"]

  const Hearts: string := "♥"
  const Diamonds: string := "♦"

  /** Number of cards in a full deck: one per (suit, rank) pair. */
  const DeckSize: nat := 52

  /** A card is a rank symbol and a suit symbol; it is never changed after construction. */
  datatype Card = Card(rank: string, suit: string)

  /** The two ValueErrors the card constructor raises. */
  datatype CardError = InvalidRank(rank: string) | InvalidSuit(suit: string)

  predicate ValidCard(c: Card) {
    c.rank in Ranks && c.suit in Suits
  }

  predicate Distinct<T(==)>(s: seq<T>) {
    forall i, j :: 0 <= i < j < |s| ==> s[i] != s[j]
  }

  // ---------------------------------------------------------------------------
  // Card
  // ---------------------------------------------------------------------------

  /** Card(rank, suit): the rank is checked first, then the suit. */
  function NewCard(rank: string, suit: string): (r: Result<Card, CardError>)
    ensures r.Success? <==> rank in Ranks && suit in Suits
    ensures r.Success? ==> r.value.rank == rank && r.value.suit == suit && ValidCard(r.value)
    ensures rank !in Ranks ==> r == Failure(InvalidRank(rank))
    ensures rank in Ranks && suit !in Suits ==> r == Failure(InvalidSuit(suit))
  {
    if rank !in Ranks then Failure(InvalidRank(rank))
    else if suit !in Suits then Failure(InvalidSuit(suit))
    else Success(Card(rank, suit))
  }

  /** The plain-text form of a card: its rank symbol followed by its suit symbol. */
  function Repr(c: Card): string {
    c.rank + c.suit
  }

  lemma SymbolsAreSingleCharacters()
    ensures forall r :: r in Ranks ==> |r| == 1
    ensures forall s :: s in Suits ==> |s| == 1
  {
  }

  /** The text of a valid card is two characters, and splits back into its rank and its suit. */
  lemma {:induction false} ReprSplits(c: Card)
    requires ValidCard(c)
    ensures |Repr(c)| == 2
    ensures Repr(c)[..1] == c.rank && Repr(c)[1..] == c.suit
  {
    SymbolsAreSingleCharacters();
    assert |c.rank| == 1 && |c.suit| == 1;
    assert Repr(c)[..1] == c.rank;
  }

  /** Two valid cards have the same text exactly when they are the same card. */
  lemma {:induction false} ReprInjective(c1: Card, c2: Card)
    requires ValidCard(c1) && ValidCard(c2)
    ensures Repr(c1) == Repr(c2) <==> c1 == c2
  {
    ReprSplits(c1);
    ReprSplits(c2);
  }

  const SpanOpen: string := "<span style=\"color:"
  const SpanStyle: string := "; font-size: 1.2em;\">"
  const SpanClose: string := "</span>"

  predicate IsRedSuit(suit: string) {
    suit == Hearts || suit == Diamonds
  }

  /** The card as an HTML span coloured red for hearts and diamonds, black otherwise. */
  function ColoredMarkdown(c: Card): string {
    var color := if IsRedSuit(c.suit) then "red" else "black";
    SpanOpen + color + SpanStyle + Repr(c) + SpanClose
  }

  /**
   * Where the pieces sit in the markup: the colour directly after the opening
   * tag reads "red" exactly for a red suit and "black" exactly for the others,
   * and the card's text sits just before the closing tag.
   */
  lemma {:induction false} ColoredMarkdownLayout(c: Card)
    ensures var m := ColoredMarkdown(c);
      && |SpanOpen| + 5 + |Repr(c)| + |SpanClose| <= |m|
      && m[..|SpanOpen|] == SpanOpen
      && (IsRedSuit(c.suit) <==> m[|SpanOpen|..|SpanOpen| + 3] == "red")
      && (!IsRedSuit(c.suit) <==> m[|SpanOpen|..|SpanOpen| + 5] == "black")
      && m[|m| - |SpanClose| - |Repr(c)|..|m| - |SpanClose|] == Repr(c)
      && m[|m| - |SpanClose|..] == SpanClose
  {
    var color := if IsRedSuit(c.suit) then "red" else "black";
    var m := ColoredMarkdown(c);
    var head := SpanOpen + color + SpanStyle;
    assert m == head + Repr(c) + SpanClose;
    assert m[..|SpanOpen|] == SpanOpen;
    ColourSlot(c);
    assert m[|m| - |SpanClose|..] == SpanClose;
    assert m[|m| - |SpanClose| - |Repr(c)|..|m| - |SpanClose|] == Repr(c);
  }

  /** The five characters after the opening tag start with "red" for a red suit and are "black" otherwise. */
  lemma ColourSlot(c: Card)
    ensures var m := ColoredMarkdown(c);
      && |SpanOpen| + 5 <= |m|
      && (IsRedSuit(c.suit) <==> m[|SpanOpen|..|SpanOpen| + 3] == "red")
      && (!IsRedSuit(c.suit) <==> m[|SpanOpen|..|SpanOpen| + 5] == "black")
  {
    var color := if IsRedSuit(c.suit) then "red" else "black";
    var slot := color + SpanStyle;
    var rest := slot + (Repr(c) + SpanClose);
    var m := ColoredMarkdown(c);
    assert m == SpanOpen + rest;
    SliceAfterPrefix(SpanOpen, rest, 5);
    SliceAfterPrefix(SpanOpen, rest, 3);
    PrefixOfConcat(slot, Repr(c) + SpanClose, 5);
    PrefixOfConcat(slot, Repr(c) + SpanClose, 3);
    PrefixOfConcat(color, SpanStyle, 3);
    assert m[|SpanOpen|..|SpanOpen| + 5] == slot[..5];
    assert m[|SpanOpen|..|SpanOpen| + 3] == slot[..3] == color[..3];
    if IsRedSuit(c.suit) {
      assert slot[3] == SpanStyle[0] == ';';
      assert slot[..5][3] != "black"[3];
    } else {
      assert slot[..5] == "black";
      assert color[..3][0] != "red"[0];
    }
  }

  lemma SliceAfterPrefix<T>(a: seq<T>, b: seq<T>, n: nat)
    requires n <= |b|
    ensures (a + b)[|a|..|a| + n] == b[..n]
  {
  }

  lemma PrefixOfConcat<T>(a: seq<T>, b: seq<T>, n: nat)
    requires n <= |a|
    ensures (a + b)[..n] == a[..n]
  {
  }

  /** Two valid cards render to the same markup exactly when they are the same card. */
  lemma {:induction false} ColoredMarkdownInjective(c1: Card, c2: Card)
    requires ValidCard(c1) && ValidCard(c2)
    ensures ColoredMarkdown(c1) == ColoredMarkdown(c2) <==> c1 == c2
  {
    if ColoredMarkdown(c1) == ColoredMarkdown(c2) {
      ColoredMarkdownLayout(c1);
      ColoredMarkdownLayout(c2);
      ReprSplits(c1);
      ReprSplits(c2);
      ReprInjective(c1, c2);
    }
  }

  // ---------------------------------------------------------------------------
  // The fresh deck
  // ---------------------------------------------------------------------------

  /** The 52 cards in construction order: suit by suit, ranks ascending within each suit. */
  function FreshCards(): seq<Card> {
    seq(|Suits| * |Ranks|, i requires 0 <= i < |Suits| * |Ranks| => Card(Ranks[i % |Ranks|], Suits[i / |Ranks|]))
  }

  lemma RanksAreDistinct()
    ensures Distinct(Ranks)
  {
    forall i, j | 0 <= i < j < |Ranks| ensures Ranks[i] != Ranks[j] {
      assert Ranks[i][0] != Ranks[j][0];
    }
  }

  lemma SuitsAreDistinct()
    ensures Distinct(Suits)
  {
    forall i, j | 0 <= i < j < |Suits| ensures Suits[i] != Suits[j] {
      assert Suits[i][0] != Suits[j][0];
    }
  }

  /** A fresh deck holds 52 cards, every valid card exactly once and nothing else. */
  lemma FreshCardsAreEveryCardOnce()
    ensures |FreshCards()| == DeckSize
    ensures Distinct(FreshCards())
    ensures forall c :: c in FreshCards() <==> ValidCard(c)
  {
    var deck := FreshCards();
    RanksAreDistinct();
    SuitsAreDistinct();
    forall c | ValidCard(c) ensures c in deck {
      var a :| 0 <= a < |Ranks| && Ranks[a] == c.rank;
      var b :| 0 <= b < |Suits| && Suits[b] == c.suit;
      var i := b * 13 + a;
      assert i % 13 == a && i / 13 == b;
      assert deck[i] == c;
    }
  }

  /** A sequence has no repeated element exactly when no element occurs more than once in its multiset. */
  lemma {:induction false} DistinctIffSingleCounts<T>(s: seq<T>)
    ensures Distinct(s) <==> forall x :: multiset(s)[x] <= 1
  {
    if s != [] {
      var h, t := s[0], s[1..];
      assert s == [h] + t;
      DistinctIffSingleCounts(t);
      if Distinct(s) {
        assert Distinct(t) by {
          forall i, j | 0 <= i < j < |t| ensures t[i] != t[j] {
            assert t[i] == s[i + 1] && t[j] == s[j + 1];
          }
        }
        assert h !in t by {
          forall k | 0 <= k < |t| ensures t[k] != h {
            assert t[k] == s[k + 1];
          }
        }
        assert multiset(s) == multiset(t) + multiset{h};
      } else {
        var i, j :| 0 <= i < j < |s| && s[i] == s[j];
        if i == 0 {
          assert s[j] in t;
          assert multiset(s)[h] == multiset(t)[h] + 1;
        } else {
          assert t[i - 1] == t[j - 1];
          assert !Distinct(t);
          var x :| multiset(t)[x] > 1;
          assert multiset(s)[x] >= multiset(t)[x];
        }
      }
    }
  }

  /**
   * Conservation: when the cards still in a deck and the cards dealt from it
   * together form the fresh deck, there are 52 of them, each valid, none twice.
   */
  lemma ConservedCardsAreDistinct(remaining: seq<Card>, dealt: seq<Card>)
    requires multiset(remaining) + multiset(dealt) == multiset(FreshCards())
    ensures |remaining| + |dealt| == DeckSize
    ensures Distinct(remaining + dealt)
    ensures forall c :: c in remaining + dealt <==> ValidCard(c)
  {
    FreshCardsAreEveryCardOnce();
    var all := remaining + dealt;
    assert multiset(all) == multiset(FreshCards());
    assert |all| == |multiset(all)| == |multiset(FreshCards())|;
    DistinctIffSingleCounts(FreshCards());
    DistinctIffSingleCounts(all);
    forall c ensures c in all <==> ValidCard(c) {
      assert c in all <==> c in multiset(all);
      assert c in FreshCards() <==> c in multiset(FreshCards());
    }
  }

  /** In particular the cards dealt from a deck are valid and were never dealt twice. */
  lemma DealtCardsAreDistinct(remaining: seq<Card>, dealt: seq<Card>)
    requires multiset(remaining) + multiset(dealt) == multiset(FreshCards())
    ensures Distinct(dealt)
    ensures forall c :: c in dealt ==> ValidCard(c)
  {
    ConservedCardsAreDistinct(remaining, dealt);
    var all := remaining + dealt;
    forall i, j | 0 <= i < j < |dealt| ensures dealt[i] != dealt[j] {
      assert dealt[i] == all[|remaining| + i] && dealt[j] == all[|remaining| + j];
    }
  }

  // ---------------------------------------------------------------------------
  // Shuffling
  // ---------------------------------------------------------------------------

  function Swap<T>(s: seq<T>, i: nat, j: nat): seq<T>
    requires i < |s| && j < |s|
  {
    s[i := s[j]][j := s[i]]
  }

  lemma SwapPermutes<T>(s: seq<T>, i: nat, j: nat)
    requires i < |s| && j < |s|
    ensures |Swap(s, i, j)| == |s| && multiset(Swap(s, i, j)) == multiset(s)
  {
    var t := s[i := s[j]];
    assert multiset(t) == multiset(s) - multiset{s[i]} + multiset{s[j]};
  }

  /**
   * The passes of an in-place Fisher-Yates shuffle over positions i-1 down to 1:
   * position p is exchanged with position rand(p) % (p + 1). The random source is
   * the parameter rand.
   */
  function ShufflePasses<T>(s: seq<T>, i: nat, rand: nat -> nat): seq<T>
    requires i <= |s|
    decreases i
  {
    if i <= 1 then s else ShufflePasses(Swap(s, i - 1, rand(i - 1) % i), i - 1, rand)
  }

  /** Shuffling only permutes: whatever the random draws, the same cards come out. */
  lemma {:induction false} ShufflePassesPermutes<T>(s: seq<T>, i: nat, rand: nat -> nat)
    requires i <= |s|
    ensures |ShufflePasses(s, i, rand)| == |s|
    ensures multiset(ShufflePasses(s, i, rand)) == multiset(s)
    decreases i
  {
    if i > 1 {
      var j := rand(i - 1) % i;
      var t := Swap(s, i - 1, j);
      SwapPermutes(s, i - 1, j);
      ShufflePassesPermutes(t, i - 1, rand);
    }
  }

  // ---------------------------------------------------------------------------
  // Dealing
  // ---------------------------------------------------------------------------

  /** What deal returns: a single card for deal(1), a list of cards otherwise. */
  datatype Dealing = Single(card: Card) | Several(cards: seq<Card>) {
    function Cards(): seq<Card> {
      match this
      case Single(c) => [c]
      case Several(cs) => cs
    }
  }

  /** The ValueError deal raises when fewer cards remain than are asked for. */
  datatype DeckError = NotEnoughCards

  /** How many times Python's range(n) iterates. */
  function RangeLength(n: int): nat {
    if n < 0 then 0 else n
  }

  /** The top n cards of a deck (the end of the list) in the order they are popped. */
  function TopReversed(s: seq<Card>, n: nat): (r: seq<Card>)
    requires n <= |s|
    ensures |r| == n
  {
    seq(n, k requires 0 <= k < n => s[|s| - 1 - k])
  }

  lemma TopReversedStep(s: seq<Card>, k: nat)
    requires k < |s|
    ensures TopReversed(s, k + 1) == TopReversed(s, k) + [s[|s| - 1 - k]]
  {
  }

  /** Popping k cards and then m more pops the top k + m cards. */
  lemma TopReversedAppend(s: seq<Card>, k: nat, m: nat)
    requires k + m <= |s|
    ensures TopReversed(s, k) + TopReversed(s[..|s| - k], m) == TopReversed(s, k + m)
  {
    var t := s[..|s| - k];
    forall i | 0 <= i < m ensures TopReversed(t, m)[i] == s[|s| - 1 - (k + i)] {
    }
  }

  /** Removing the last card of a non-empty list moves it from the list to the popped cards. */
  lemma PopConserves(s: seq<Card>)
    requires s != []
    ensures multiset(s[..|s| - 1]) + multiset{s[|s| - 1]} == multiset(s)
  {
    assert s == s[..|s| - 1] + [s[|s| - 1]];
  }

  /** Puts dealt cards back on top of a deck, the last one dealt going back first. */
  function Restack(rest: seq<Card>, dealt: seq<Card>): (r: seq<Card>)
    ensures |r| == |rest| + |dealt|
    decreases |dealt|
  {
    if dealt == [] then rest
    else Restack(rest + [dealt[|dealt| - 1]], dealt[..|dealt| - 1])
  }

  /** Dealing n cards and putting them back gives the deck as it was. */
  lemma {:induction false} DealThenRestack(s: seq<Card>, n: nat)
    requires n <= |s|
    ensures Restack(s[..|s| - n], TopReversed(s, n)) == s
  {
    if n == 0 {
      assert s[..|s|] == s;
    } else {
      var t := TopReversed(s, n);
      assert t[..n - 1] == TopReversed(s, n - 1);
      assert t[n - 1] == s[|s| - n];
      assert s[..|s| - n] + [s[|s| - n]] == s[..|s| - (n - 1)];
      DealThenRestack(s, n - 1);
    }
  }

  /**
   * The deck: the remaining cards in a list whose end is the top, and, for the
   * proofs, the cards dealt so far in the order they left the deck.
   */
  class Deck {
    var cards: seq<Card>
    ghost var Dealt: seq<Card>

    /** The remaining and the dealt cards together are exactly the fresh deck. */
    ghost predicate Valid()
      reads this
    {
      multiset(cards) + multiset(Dealt) == multiset(FreshCards())
    }

    /** A fresh deck of the 52 cards, shuffled once. */
    constructor (rand: nat -> nat)
      ensures Valid() && Dealt == [] && |cards| == DeckSize
      ensures cards == ShufflePasses(FreshCards(), DeckSize, rand)
    {
      var newDeck := FreshCards();
      assert |newDeck| == DeckSize;
      cards := newDeck;
      Dealt := [];
      new;
      Shuffle(rand);
      ShufflePassesPermutes(newDeck, DeckSize, rand);
    }

    /** Shuffles the remaining cards in place. */
    method Shuffle(rand: nat -> nat)
      requires Valid()
      modifies this
      ensures Valid()
      ensures cards == ShufflePasses(old(cards), |old(cards)|, rand)
      ensures Dealt == old(Dealt)
    {
      var i: nat := |cards|;
      while i > 1
        invariant i <= |cards|
        invariant ShufflePasses(cards, i, rand) == ShufflePasses(old(cards), |old(cards)|, rand)
        invariant Dealt == old(Dealt)
      {
        var j := rand(i - 1) % i;
        cards := Swap(cards, i - 1, j);
        i := i - 1;
      }
      ShufflePassesPermutes(old(cards), |old(cards)|, rand);
    }

    /** Number of cards left: together with the dealt ones they are always the whole deck. */
    function Len(): (n: nat)
      reads this
      requires Valid()
      ensures n + |Dealt| == DeckSize
    {
      ConservedCardsAreDistinct(cards, Dealt);
      |cards|
    }

    /** list.pop(): removes the top card (the end of the list) and hands it out. */
    method Pop() returns (top: Card)
      requires Valid() && cards != []
      modifies this
      ensures Valid()
      ensures top == old(cards)[|old(cards)| - 1]
      ensures cards == old(cards)[..|old(cards)| - 1]
      ensures Dealt == old(Dealt) + [top]
    {
      top := cards[|cards| - 1];
      PopConserves(cards);
      cards := cards[..|cards| - 1];
      Dealt := Dealt + [top];
    }

    /** The loop of deal(n): pops count cards one at a time, collecting them in popping order. */
    method PopTop(count: nat) returns (dealtCards: seq<Card>)
      requires Valid() && count <= |cards|
      modifies this
      ensures Valid()
      ensures dealtCards == TopReversed(old(cards), count)
      ensures cards == old(cards)[..|old(cards)| - count]
      ensures Dealt == old(Dealt) + dealtCards
    {
      dealtCards := [];
      var k := 0;
      while k < count
        invariant 0 <= k <= count
        invariant cards == old(cards)[..|old(cards)| - k]
        invariant dealtCards == TopReversed(old(cards), k)
        invariant Dealt == old(Dealt) + dealtCards
        invariant Valid()
      {
        TopReversedStep(old(cards), k);
        var top := Pop();
        dealtCards := dealtCards + [top];
        k := k + 1;
      }
    }

    /**
     * deal(n): fails, changing nothing, when fewer than n cards remain; otherwise
     * pops n cards off the end (none for n <= 0), returning the card itself
     * for n == 1 and the list of popped cards otherwise.
     */
    method Deal(n: int := 1) returns (r: Result<Dealing, DeckError>)
      requires Valid()
      modifies this
      ensures Valid()
      ensures n > |old(cards)| ==>
        r == Failure(NotEnoughCards) && cards == old(cards) && Dealt == old(Dealt)
      ensures n <= |old(cards)| ==> r.Success?
      ensures r.Success? && n == 1 ==> r.value == Single(old(cards)[|old(cards)| - 1])
      ensures r.Success? && n != 1 ==> r.value.Several?
      ensures r.Success? ==>
        && RangeLength(n) <= |old(cards)|
        && r.value.Cards() == TopReversed(old(cards), RangeLength(n))
        && cards == old(cards)[..|old(cards)| - RangeLength(n)]
        && Dealt == old(Dealt) + r.value.Cards()
    {
      if |cards| < n {
        return Failure(NotEnoughCards);
      }
      if n == 1 {
        TopReversedStep(cards, 0);
        var top := Pop();
        return Success(Single(top));
      }
      var dealtCards := PopTop(RangeLength(n));
      return Success(Several(dealtCards));
    }
  }
}
