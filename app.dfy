/**
 * The quiz logic of app.py: dealing a round, finding every winner of the
 * showdown, checking the user's answer and naming the winners.
 */
module App {
  import opened Wrappers
  import opened Cards

  // ---------------------------------------------------------------------------
  // Dealing a round
  // ---------------------------------------------------------------------------

  /** The bounds of the "Número de Jugadores" slider. */
  const MinPlayers: nat := 2
  const MaxPlayers: nat := 9

  const BoardSize: nat := 5
  const HoleCards: nat := 2

  /** The hands one after the other. */
  function Flatten(hands: seq<seq<Card>>): seq<Card> {
    if hands == [] then [] else Flatten(hands[..|hands| - 1]) + hands[|hands| - 1]
  }

  /**
   * The "Repartir Siguiente Mano" button: a fresh shuffled deck, five board
   * cards, then two hole cards for each player. It fails exactly when the deck
   * runs out, which the slider's range of players never allows.
   */
  method DealRound(numPlayers: nat, rand: nat -> nat) returns (r: Result<(seq<Card>, seq<seq<Card>>), DeckError>)
    ensures r.Success? <==> BoardSize + HoleCards * numPlayers <= DeckSize
    ensures MinPlayers <= numPlayers <= MaxPlayers ==> r.Success?
    ensures r.Failure? ==> r.error == NotEnoughCards
    ensures r.Success? ==> |r.value.0| == BoardSize && |r.value.1| == numPlayers
    ensures r.Success? ==> forall p :: 0 <= p < |r.value.1| ==> |r.value.1[p]| == HoleCards
    ensures r.Success? ==> Distinct(r.value.0 + Flatten(r.value.1))
    ensures r.Success? ==> forall c :: c in r.value.0 + Flatten(r.value.1) ==> ValidCard(c)
  {
    var deck := new Deck(rand);
    var dealing := deck.Deal(BoardSize);
    var board := dealing.value.Cards();
    assert deck.Dealt == board;
    var dealt := DealHoleCards(deck, numPlayers);
    if dealt.Failure? {
      return Failure(dealt.error);
    }
    var hands := dealt.value;
    assert deck.Dealt == board + Flatten(hands);
    DealtCardsAreDistinct(deck.cards, deck.Dealt);
    r := Success((board, hands));
  }

  /** The loop appending deal(2) for each player, all from the one shared deck. */
  method DealHoleCards(deck: Deck, numPlayers: nat) returns (r: Result<seq<seq<Card>>, DeckError>)
    requires deck.Valid()
    modifies deck
    ensures deck.Valid()
    ensures r.Success? <==> HoleCards * numPlayers <= |old(deck.cards)|
    ensures r.Failure? ==> r.error == NotEnoughCards
    ensures r.Success? ==> |r.value| == numPlayers
    ensures r.Success? ==> forall p :: 0 <= p < |r.value| ==> |r.value[p]| == HoleCards
    ensures r.Success? ==>
      && Flatten(r.value) == TopReversed(old(deck.cards), HoleCards * numPlayers)
      && deck.cards == old(deck.cards)[..|old(deck.cards)| - HoleCards * numPlayers]
      && deck.Dealt == old(deck.Dealt) + Flatten(r.value)
  {
    ghost var cards0, dealt0 := deck.cards, deck.Dealt;
    var hands: seq<seq<Card>> := [];
    for p := 0 to numPlayers
      invariant deck.Valid()
      invariant |hands| == p
      invariant Dealing(cards0, dealt0, hands, deck.cards, deck.Dealt)
    {
      ghost var before, dealtBefore := deck.cards, deck.Dealt;
      var hand := DealHand(deck);
      if hand.Failure? {
        return Failure(hand.error);
      }
      DealingStep(cards0, dealt0, hands, before, dealtBefore, hand.value, deck.cards, deck.Dealt);
      hands := hands + [hand.value];
    }
    r := Success(hands);
  }

  /**
   * The bookkeeping of the hands loop: after dealing `hands` from a deck that
   * held `cards0`, every hand has two cards, together they are the top cards
   * of `cards0` in popping order, the deck holds what lies under them, and the
   * dealt history grew by exactly those cards.
   */
  ghost predicate Dealing(cards0: seq<Card>, dealt0: seq<Card>, hands: seq<seq<Card>>, cards: seq<Card>, dealt: seq<Card>)
  {
    && HoleCards * |hands| <= |cards0|
    && (forall q :: 0 <= q < |hands| ==> |hands[q]| == HoleCards)
    && cards == cards0[..|cards0| - HoleCards * |hands|]
    && Flatten(hands) == TopReversed(cards0, HoleCards * |hands|)
    && dealt == dealt0 + Flatten(hands)
  }

  /** One more deal(2) off the deck keeps the bookkeeping of the hands loop. */
  lemma DealingStep(cards0: seq<Card>, dealt0: seq<Card>, hands: seq<seq<Card>>, cards: seq<Card>, dealt: seq<Card>,
                    hand: seq<Card>, cards': seq<Card>, dealt': seq<Card>)
    requires Dealing(cards0, dealt0, hands, cards, dealt)
    requires HoleCards <= |cards|
    requires hand == TopReversed(cards, HoleCards)
    requires cards' == cards[..|cards| - HoleCards]
    requires dealt' == dealt + hand
    ensures Dealing(cards0, dealt0, hands + [hand], cards', dealt')
  {
    var taken := HoleCards * |hands|;
    assert HoleCards * |hands + [hand]| == taken + HoleCards;
    TopReversedAppend(cards0, taken, HoleCards);
    FlattenSnoc(hands, hand);
  }

  /** One player's deck.deal(2): the two top cards in popping order, or the error when fewer remain. */
  method DealHand(deck: Deck) returns (r: Result<seq<Card>, DeckError>)
    requires deck.Valid()
    modifies deck
    ensures deck.Valid()
    ensures r.Success? <==> HoleCards <= |old(deck.cards)|
    ensures r.Failure? ==> r.error == NotEnoughCards && deck.cards == old(deck.cards) && deck.Dealt == old(deck.Dealt)
    ensures r.Success? ==>
      && r.value == TopReversed(old(deck.cards), HoleCards)
      && deck.cards == old(deck.cards)[..|old(deck.cards)| - HoleCards]
      && deck.Dealt == old(deck.Dealt) + r.value
  {
    var hole := deck.Deal(HoleCards);
    if hole.Failure? {
      return Failure(hole.error);
    }
    return Success(hole.value.Cards());
  }

  lemma FlattenSnoc(hands: seq<seq<Card>>, hand: seq<Card>)
    ensures Flatten(hands + [hand]) == Flatten(hands) + hand
  {
    assert (hands + [hand])[..|hands|] == hands;
  }

  // ---------------------------------------------------------------------------
  // Finding the winners
  // ---------------------------------------------------------------------------

  /** What evaluate_hand gives for one hand: its score (lower is stronger) and the hand's name. */
  datatype Scored = Scored(score: int, name: string)

  /** What find_winner returns. */
  datatype Showdown = Showdown(winnerIndices: seq<nat>, winnerHandName: string, scores: seq<Scored>)

  /** The ValueError of min() over no hands at all. */
  datatype WinnerError = NoHands

  /** The hand evaluator, a library outside this model: (hole cards, board) to (score, name). */
  type Evaluator = (seq<Card>, seq<Card>) -> (int, string)

  function ScoreOf(evaluate: Evaluator, hand: seq<Card>, board: seq<Card>): Scored {
    Scored(evaluate(hand, board).0, evaluate(hand, board).1)
  }

  /** The lowest score of a non-empty list. */
  function MinScore(scores: seq<Scored>): (m: int)
    requires scores != []
    ensures exists i :: 0 <= i < |scores| && scores[i].score == m
    ensures forall i :: 0 <= i < |scores| ==> m <= scores[i].score
  {
    if |scores| == 1 then scores[0].score
    else
      var m := MinScore(scores[..|scores| - 1]);
      if scores[|scores| - 1].score < m then scores[|scores| - 1].score else m
  }

  /** Strictly increasing, hence without repeats. */
  predicate Increasing(s: seq<nat>) {
    forall k, l :: 0 <= k < l < |s| ==> s[k] < s[l]
  }

  /** The indices whose score is best, in increasing order. */
  function ScoreIndices(scores: seq<Scored>, best: int): (r: seq<nat>)
    ensures forall k :: 0 <= k < |r| ==> r[k] < |scores|
  {
    if scores == [] then []
    else
      var earlier := ScoreIndices(scores[..|scores| - 1], best);
      if scores[|scores| - 1].score == best then earlier + [|scores| - 1] else earlier
  }

  /** ScoreIndices lists, in increasing order, exactly the indices whose score is best. */
  lemma {:induction false} ScoreIndicesAreTheBest(scores: seq<Scored>, best: int)
    ensures forall k :: 0 <= k < |ScoreIndices(scores, best)| ==>
      scores[ScoreIndices(scores, best)[k]].score == best
    ensures forall i :: 0 <= i < |scores| && scores[i].score == best ==> i in ScoreIndices(scores, best)
    ensures Increasing(ScoreIndices(scores, best))
  {
    if scores != [] {
      var prefix := scores[..|scores| - 1];
      ScoreIndicesAreTheBest(prefix, best);
      var earlier := ScoreIndices(prefix, best);
      assert forall k :: 0 <= k < |earlier| ==> scores[earlier[k]] == prefix[earlier[k]];
    }
  }

  /** The names of the hands whose score is best, in order. */
  function ScoreNames(scores: seq<Scored>, best: int): seq<string> {
    if scores == [] then []
    else
      var earlier := ScoreNames(scores[..|scores| - 1], best);
      if scores[|scores| - 1].score == best then earlier + [scores[|scores| - 1].name] else earlier
  }

  /** The k-th name of a best hand belongs to the k-th index of a best hand. */
  lemma {:induction false} NamesFollowIndices(scores: seq<Scored>, best: int)
    ensures |ScoreNames(scores, best)| == |ScoreIndices(scores, best)|
    ensures forall k :: 0 <= k < |ScoreIndices(scores, best)| ==>
      ScoreNames(scores, best)[k] == scores[ScoreIndices(scores, best)[k]].name
  {
    if scores != [] {
      var prefix := scores[..|scores| - 1];
      var last := scores[|scores| - 1];
      var indices := ScoreIndices(prefix, best);
      var names := ScoreNames(prefix, best);
      NamesFollowIndices(prefix, best);
      ScoreIndicesAreTheBest(prefix, best);
      assert forall k :: 0 <= k < |indices| ==> scores[indices[k]] == prefix[indices[k]];
    }
  }

  /**
   * What a showdown result must be: a non-empty list of indices, in increasing
   * order, of exactly the hands whose score is the lowest of all, together with
   * the name of the first of those hands.
   */
  ghost predicate IsShowdownResult(scores: seq<Scored>, winners: seq<nat>, name: string) {
    && winners != []
    && (forall k :: 0 <= k < |winners| ==> winners[k] < |scores|)
    && (forall k, i :: 0 <= k < |winners| && 0 <= i < |scores| ==>
          scores[winners[k]].score <= scores[i].score)
    && (forall i :: 0 <= i < |scores| && scores[i].score == scores[winners[0]].score ==> i in winners)
    && Increasing(winners)
    && name == scores[winners[0]].name
  }

  /**
   * The part of find_winner after scoring: the lowest score, every index that
   * attains it and the first such hand's name; min() fails on an empty list.
   */
  function Resolve(scores: seq<Scored>): (r: Result<(seq<nat>, string), WinnerError>)
    ensures r.Failure? <==> scores == []
    ensures r.Failure? ==> r.error == NoHands
    ensures r.Success? ==> IsShowdownResult(scores, r.value.0, r.value.1)
  {
    if scores == [] then Failure(NoHands)
    else
      var best := MinScore(scores);
      BestHandsAreShowdownResult(scores);
      Success((ScoreIndices(scores, best), ScoreNames(scores, best)[0]))
  }

  /** The indices of the lowest score, with the first such hand's name, form the showdown result. */
  lemma BestHandsAreShowdownResult(scores: seq<Scored>)
    requires scores != []
    ensures |ScoreNames(scores, MinScore(scores))| == |ScoreIndices(scores, MinScore(scores))| > 0
    ensures IsShowdownResult(scores, ScoreIndices(scores, MinScore(scores)), ScoreNames(scores, MinScore(scores))[0])
  {
    var best := MinScore(scores);
    var winners := ScoreIndices(scores, best);
    ScoreIndicesAreTheBest(scores, best);
    NamesFollowIndices(scores, best);
    var i :| 0 <= i < |scores| && scores[i].score == best;
    assert i in winners;
    assert scores[winners[0]].score == best;
  }

  /** The tail of a strictly increasing list holds every element but the head. */
  lemma IncreasingTail(s: seq<nat>)
    requires Increasing(s) && s != []
    ensures Increasing(s[1..])
    ensures forall x :: x in s[1..] <==> x in s && x != s[0]
    ensures forall x :: x in s ==> s[0] <= x
  {
    assert forall k :: 0 <= k < |s[1..]| ==> s[1..][k] == s[k + 1];
  }

  /** Two non-empty sequences with the same head and the same tail are equal. */
  lemma HeadAndTailDetermine<T>(a: seq<T>, b: seq<T>)
    requires a != [] && b != [] && a[0] == b[0] && a[1..] == b[1..]
    ensures a == b
  {
    assert a == [a[0]] + a[1..];
    assert b == [b[0]] + b[1..];
  }

  /** Strictly increasing lists with the same elements are equal. */
  lemma {:induction false} IncreasingIsUnique(a: seq<nat>, b: seq<nat>)
    requires Increasing(a) && Increasing(b)
    requires forall x :: x in a <==> x in b
    ensures a == b
  {
    if a != [] && b != [] {
      IncreasingTail(a);
      IncreasingTail(b);
      assert a[0] in b && b[0] in a;
      IncreasingIsUnique(a[1..], b[1..]);
      HeadAndTailDetermine(a, b);
    } else {
      SameElementsBothEmpty(a, b);
    }
  }

  /** When two lists have the same elements and one is empty, so is the other. */
  lemma SameElementsBothEmpty<T>(a: seq<T>, b: seq<T>)
    requires forall x :: x in a <==> x in b
    requires a == [] || b == []
    ensures a == [] && b == []
  {
    EmptyIffNoMember(a);
    EmptyIffNoMember(b);
  }

  lemma EmptyIffNoMember<T>(s: seq<T>)
    ensures s == [] <==> forall x :: x !in s
  {
    if s != [] {
      assert s[0] in s;
    }
  }

  /** The scores determine the showdown result: there is only one. */
  lemma ShowdownResultIsUnique(scores: seq<Scored>, w1: seq<nat>, n1: string, w2: seq<nat>, n2: string)
    requires IsShowdownResult(scores, w1, n1) && IsShowdownResult(scores, w2, n2)
    ensures w1 == w2 && n1 == n2
  {
    var b1 := scores[w1[0]].score;
    var b2 := scores[w2[0]].score;
    assert b1 <= b2 && b2 <= b1;
    forall x ensures x in w1 <==> x in w2 {
      if x in w1 {
        var k :| 0 <= k < |w1| && w1[k] == x;
        assert scores[x].score <= b1;
      }
      if x in w2 {
        var k :| 0 <= k < |w2| && w2[k] == x;
        assert scores[x].score <= b2;
      }
    }
    IncreasingIsUnique(w1, w2);
  }

  /**
   * find_winner: scores every hand in order, then keeps every index whose
   * score is the lowest and the name of the first such hand.
   */
  method FindWinner(playerHands: seq<seq<Card>>, board: seq<Card>, evaluate: Evaluator)
    returns (r: Result<Showdown, WinnerError>)
    ensures r.Failure? <==> playerHands == []
    ensures r.Failure? ==> r.error == NoHands
    ensures r.Success? ==>
      && |r.value.scores| == |playerHands|
      && (forall i :: 0 <= i < |playerHands| ==> r.value.scores[i] == ScoreOf(evaluate, playerHands[i], board))
      && IsShowdownResult(r.value.scores, r.value.winnerIndices, r.value.winnerHandName)
  {
    var scores: seq<Scored> := [];
    for k := 0 to |playerHands|
      invariant |scores| == k
      invariant forall i :: 0 <= i < k ==> scores[i] == ScoreOf(evaluate, playerHands[i], board)
    {
      var (score, name) := evaluate(playerHands[k], board);
      scores := scores + [Scored(score, name)];
    }
    match Resolve(scores)
    case Failure(e) => r := Failure(e);
    case Success((winners, name)) => r := Success(Showdown(winners, name, scores));
  }

  // ---------------------------------------------------------------------------
  // Checking the user's answer
  // ---------------------------------------------------------------------------

  /** The checkbox states, as the dictionary's (player index, checked) items in insertion order. */
  type Selections = seq<(int, bool)>

  /** A dictionary never holds the same key twice. */
  predicate DistinctKeys(items: Selections) {
    forall a, b :: 0 <= a < b < |items| ==> items[a].0 != items[b].0
  }

  /** The indices of the checked boxes, in dictionary order. */
  function SelectedIndices(items: Selections): (r: seq<int>)
    ensures forall i :: i in r <==> (i, true) in items
    ensures DistinctKeys(items) ==> Distinct(r)
  {
    if items == [] then []
    else
      var earlier := SelectedIndices(items[..|items| - 1]);
      var (i, checked) := items[|items| - 1];
      assert forall j :: (j, true) in items <==> (j, true) in items[..|items| - 1] || (j, true) == items[|items| - 1];
      if checked then earlier + [i] else earlier
  }

  predicate SortedAsc(s: seq<int>) {
    forall i, j :: 0 <= i < j < |s| ==> s[i] <= s[j]
  }

  function Insert(x: int, s: seq<int>): (r: seq<int>)
    requires SortedAsc(s)
    ensures SortedAsc(r) && multiset(r) == multiset(s) + multiset{x}
  {
    if s == [] || x <= s[0] then [x] + s
    else
      var rest := Insert(x, s[1..]);
      assert s == [s[0]] + s[1..];
      HeadIsLeast(s[0], rest, s[1..], x);
      [s[0]] + rest
  }

  /** A value no larger than anything in a sorted multiset can go in front. */
  lemma HeadIsLeast(h: int, rest: seq<int>, tail: seq<int>, x: int)
    requires SortedAsc(rest) && h <= x && multiset(rest) == multiset(tail) + multiset{x}
    requires forall k :: 0 <= k < |tail| ==> h <= tail[k]
    ensures SortedAsc([h] + rest)
  {
    forall k | 0 <= k < |rest| ensures h <= rest[k] {
      assert rest[k] in multiset(rest);
      if rest[k] != x {
        assert rest[k] in multiset(tail);
        assert rest[k] in tail;
      }
    }
  }

  /** sorted(): the same values, in ascending order. */
  function Sort(s: seq<int>): (r: seq<int>)
    ensures SortedAsc(r) && multiset(r) == multiset(s)
  {
    if s == [] then []
    else
      assert s == [s[0]] + s[1..];
      Insert(s[0], Sort(s[1..]))
  }

  /** The tail of an ascending sequence is ascending and holds all but one copy of the head, the least value. */
  lemma SortedTail(s: seq<int>)
    requires SortedAsc(s) && s != []
    ensures SortedAsc(s[1..])
    ensures multiset(s[1..]) == multiset(s) - multiset{s[0]}
    ensures forall x :: x in s ==> s[0] <= x
  {
    assert s == [s[0]] + s[1..];
  }

  /** Two ascending sequences with the same elements are the same sequence. */
  lemma {:induction false} SortedIsUnique(a: seq<int>, b: seq<int>)
    requires SortedAsc(a) && SortedAsc(b) && multiset(a) == multiset(b)
    ensures a == b
  {
    assert |a| == |multiset(a)| == |multiset(b)| == |b|;
    if a != [] {
      SortedTail(a);
      SortedTail(b);
      assert a[0] in multiset(b) && b[0] in multiset(a);
      assert a[0] == b[0] by {
        assert a[0] in b && b[0] in a;
      }
      SortedIsUnique(a[1..], b[1..]);
      HeadAndTailDetermine(a, b);
    }
  }

  /** is_correct: the sorted selection is exactly the sorted list of winners. */
  function IsCorrect(selected: seq<int>, winners: seq<int>): bool {
    Sort(selected) == Sort(winners)
  }

  /** Comparing sorted lists is comparing the lists as multisets. */
  lemma IsCorrectIffSameElements(selected: seq<int>, winners: seq<int>)
    ensures IsCorrect(selected, winners) <==> multiset(selected) == multiset(winners)
  {
    if multiset(selected) == multiset(winners) {
      SortedIsUnique(Sort(selected), Sort(winners));
    }
  }

  lemma {:induction false} DistinctMultiplicity(s: seq<int>)
    requires Distinct(s)
    ensures forall x :: multiset(s)[x] == if x in s then 1 else 0
  {
    DistinctIffSingleCounts(s);
    forall x ensures multiset(s)[x] == if x in s then 1 else 0 {
      assert x in s <==> x in multiset(s);
    }
  }

  /**
   * The answer is judged correct exactly when the checked boxes are the
   * winners: every winner checked and no one else.
   */
  lemma IsCorrectIffExactlyTheWinners(items: Selections, winners: seq<nat>)
    requires DistinctKeys(items)
    requires Increasing(winners)
    ensures IsCorrect(SelectedIndices(items), winners) <==>
      forall i :: (i, true) in items <==> i in winners
  {
    var selected := SelectedIndices(items);
    var w: seq<int> := winners;
    IsCorrectIffSameElements(selected, w);
    DistinctMultiplicity(selected);
    DistinctMultiplicity(w);
    if forall i :: (i, true) in items <==> i in winners {
      assert forall x :: multiset(selected)[x] == multiset(w)[x];
      assert multiset(selected) == multiset(w);
    }
    if IsCorrect(selected, w) {
      forall i ensures (i, true) in items <==> i in winners {
        assert i in selected <==> i in multiset(selected);
        assert i in w <==> i in multiset(w);
      }
    }
  }

  // ---------------------------------------------------------------------------
  // Naming the winners
  // ---------------------------------------------------------------------------

  function DigitChar(d: nat): char
    requires d < 10
  {
    ('0' as int + d) as char
  }

  predicate AllDigits(s: string) {
    forall k :: 0 <= k < |s| ==> '0' <= s[k] <= '9'
  }

  /** The decimal text of a number, without leading zeros. */
  function DecimalString(n: nat): (s: string)
    ensures |s| >= 1 && AllDigits(s)
    ensures s[0] != '0' || n == 0
  {
    if n < 10 then [DigitChar(n)] else DecimalString(n / 10) + [DigitChar(n % 10)]
  }

  /** The number a string of decimal digits stands for. */
  function DecimalValue(s: string): nat
    requires AllDigits(s)
  {
    if s == [] then 0 else DecimalValue(s[..|s| - 1]) * 10 + (s[|s| - 1] as int - '0' as int)
  }

  /** Reading back the decimal text of a number gives the number. */
  lemma {:induction false} DecimalRoundTrip(n: nat)
    ensures DecimalValue(DecimalString(n)) == n
  {
    if n >= 10 {
      var s := DecimalString(n);
      assert s[..|s| - 1] == DecimalString(n / 10);
      DecimalRoundTrip(n / 10);
    }
  }

  const PlayerPrefix: string := "Jugador "

  /** The display name of the player at a 0-based index: "Jugador " and the 1-based number. */
  function PlayerName(i: nat): string {
    PlayerPrefix + DecimalString(i + 1)
  }

  /** Different players have different names. */
  lemma PlayerNameInjective(i: nat, j: nat)
    ensures PlayerName(i) == PlayerName(j) <==> i == j
  {
    if PlayerName(i) == PlayerName(j) {
      assert PlayerName(i)[|PlayerPrefix|..] == DecimalString(i + 1);
      assert PlayerName(j)[|PlayerPrefix|..] == DecimalString(j + 1);
      DecimalRoundTrip(i + 1);
      DecimalRoundTrip(j + 1);
    }
  }

  /** The display names of the given players, in order. */
  function PlayerNames(winners: seq<nat>): seq<string> {
    seq(|winners|, k requires 0 <= k < |winners| => PlayerName(winners[k]))
  }

  /** str.join: the parts with the separator between each two. */
  function Join(sep: string, parts: seq<string>): string {
    if parts == [] then ""
    else if |parts| == 1 then parts[0]
    else parts[0] + sep + Join(sep, parts[1..])
  }

  /** The winners' message: one name alone; otherwise all but the last joined by ", ", then " y " and the last. */
  function WinnerString(winners: seq<nat>): Option<string> {
    var names := PlayerNames(winners);
    if |names| > 1 then Some(Join(", ", names[..|names| - 1]) + " y " + names[|names| - 1])
    else if |names| == 1 then Some(names[0])
    else None
  }

  /** part occurs inside whole, starting at position i. */
  predicate OccursAt(part: string, whole: string, i: int) {
    0 <= i <= |whole| - |part| && whole[i..i + |part|] == part
  }

  /** part occurs somewhere inside whole. */
  ghost predicate Occurs(part: string, whole: string) {
    exists i :: OccursAt(part, whole, i)
  }

  lemma OccursInside(part: string, before: string, whole: string, after: string)
    requires Occurs(part, whole)
    ensures Occurs(part, before + whole + after)
  {
    var i :| OccursAt(part, whole, i);
    var all := before + whole + after;
    assert all[|before| + i..|before| + i + |part|] == whole[i..i + |part|];
    assert OccursAt(part, all, |before| + i);
  }

  lemma OccursSelf(s: string)
    ensures Occurs(s, s)
  {
    assert s[0..|s|] == s;
    assert OccursAt(s, s, 0);
  }

  /** Each part is found in the joined text. */
  lemma {:induction false} JoinContainsParts(sep: string, parts: seq<string>)
    ensures forall k :: 0 <= k < |parts| ==> Occurs(parts[k], Join(sep, parts))
  {
    if |parts| == 1 {
      OccursSelf(parts[0]);
    } else if |parts| > 1 {
      var rest := Join(sep, parts[1..]);
      JoinContainsParts(sep, parts[1..]);
      forall k | 0 <= k < |parts| ensures Occurs(parts[k], Join(sep, parts)) {
        if k == 0 {
          OccursSelf(parts[0]);
          OccursInside(parts[0], "", parts[0], sep + rest);
          assert "" + parts[0] + (sep + rest) == Join(sep, parts);
        } else {
          assert parts[k] == parts[1..][k - 1];
          OccursInside(parts[k], parts[0] + sep, rest, "");
          assert parts[0] + sep + rest + "" == Join(sep, parts);
        }
      }
    }
  }

  /**
   * The message exists exactly when there is a winner; it starts with the
   * first winner's name, is that name alone for a single winner, and ends
   * with " y " and the last winner's name when there are several.
   */
  lemma WinnerStringShape(winners: seq<nat>)
    ensures WinnerString(winners).Some? <==> winners != []
    ensures winners != [] ==>
      var s := WinnerString(winners).value;
      var first := PlayerName(winners[0]);
      var last := PlayerName(winners[|winners| - 1]);
      && |first| <= |s| && s[..|first|] == first
      && (|winners| == 1 ==> s == first)
      && (|winners| > 1 ==> |" y " + last| <= |s| && s[|s| - |" y " + last|..] == " y " + last)
  {
    WinnerStringIsListing(winners);
    if winners != [] {
      var names := PlayerNames(winners);
      ListingShape(names);
      assert |names| == |winners|;
      assert names[0] == PlayerName(winners[0]);
      assert names[|names| - 1] == PlayerName(winners[|winners| - 1]);
    }
  }

  /** A listing starts with the first name and, for two names or more, ends with " y " and the last name. */
  lemma {:induction false} ListingShape(names: seq<string>)
    requires names != []
    ensures |names[0]| <= |Listing(names)| && Listing(names)[..|names[0]|] == names[0]
    ensures |names| == 1 ==> Listing(names) == names[0]
    ensures |names| >= 2 ==>
      var tail := " y " + names[|names| - 1];
      |tail| <= |Listing(names)| && Listing(names)[|Listing(names)| - |tail|..] == tail
  {
    var l := Listing(names);
    if |names| == 2 {
      assert l == names[0] + (" y " + names[1]);
    } else if |names| > 2 {
      var rest := names[1..];
      var tail := " y " + names[|names| - 1];
      ListingShape(rest);
      assert rest[|rest| - 1] == names[|names| - 1];
      var r := Listing(rest);
      assert l == (names[0] + ", ") + r;
      assert l[|l| - |tail|..] == r[|r| - |tail|..];
    }
  }

  /** Every joined part, and the last part itself, occurs in the parts joined then " y " and the last part. */
  lemma JoinedWithLastContainsParts(init: seq<string>, last: string)
    ensures forall k :: 0 <= k < |init| ==> Occurs(init[k], Join(", ", init) + " y " + last)
    ensures Occurs(last, Join(", ", init) + " y " + last)
  {
    var joined := Join(", ", init);
    JoinContainsParts(", ", init);
    forall k | 0 <= k < |init| ensures Occurs(init[k], joined + " y " + last) {
      OccursBefore(init[k], joined, " y ");
      OccursBefore(init[k], joined + " y ", last);
    }
    OccursSelf(last);
    OccursInside(last, joined + " y ", last, "");
    assert joined + " y " + last + "" == joined + " y " + last;
  }

  lemma OccursBefore(part: string, whole: string, after: string)
    requires Occurs(part, whole)
    ensures Occurs(part, whole + after)
  {
    OccursInside(part, "", whole, after);
    assert "" + whole + after == whole + after;
  }

  /** Every winner's name appears in the message. */
  lemma WinnerStringNamesEveryWinner(winners: seq<nat>)
    requires winners != []
    ensures forall k :: 0 <= k < |winners| ==> Occurs(PlayerName(winners[k]), WinnerString(winners).value)
  {
    var names := PlayerNames(winners);
    if |winners| == 1 {
      OccursSelf(names[0]);
    } else {
      var init := names[..|names| - 1];
      JoinedWithLastContainsParts(init, names[|names| - 1]);
      assert forall k :: 0 <= k < |winners| - 1 ==> init[k] == PlayerName(winners[k]);
    }
  }

  /**
   * The intended reading of a list of names, built from the front: one name
   * alone, two names with " y " between them, and for more names the first,
   * ", " and the listing of the rest.
   */
  function Listing(names: seq<string>): string
    requires names != []
  {
    if |names| == 1 then names[0]
    else if |names| == 2 then names[0] + " y " + names[1]
    else names[0] + ", " + Listing(names[1..])
  }

  /** Joining all but the last name by ", " and adding " y " and the last name is the listing. */
  lemma {:induction false} JoinThenLastIsListing(names: seq<string>)
    requires |names| >= 2
    ensures Join(", ", names[..|names| - 1]) + " y " + names[|names| - 1] == Listing(names)
  {
    var init := names[..|names| - 1];
    var last := names[|names| - 1];
    if |names| == 2 {
      assert init == [names[0]];
    } else {
      var rest := names[1..];
      JoinThenLastIsListing(rest);
      assert rest[..|rest| - 1] == init[1..];
      assert rest[|rest| - 1] == last;
      var middle := Join(", ", init[1..]);
      assert Join(", ", init) == names[0] + ", " + middle;
      assert Listing(names) == names[0] + ", " + (middle + " y " + last);
      assert names[0] + ", " + middle + " y " + last == names[0] + ", " + (middle + " y " + last);
    }
  }

  /**
   * The winners' message is exactly the listing of the winners' names: every
   * name in order, ", " between all but the last two, " y " before the last.
   */
  lemma WinnerStringIsListing(winners: seq<nat>)
    ensures winners == [] ==> WinnerString(winners) == None
    ensures winners != [] ==> WinnerString(winners) == Some(Listing(PlayerNames(winners)))
  {
    if |winners| >= 2 {
      JoinThenLastIsListing(PlayerNames(winners));
    }
  }
}
