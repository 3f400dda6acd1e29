# Poker showdown trainer — a verified model of its core

The trainer deals a round of Texas Hold'em from a shuffled 52-card deck:
five board cards, then two hole cards for each of two to nine players. It
scores every hand with an external evaluator and finds every player tied for
the best score. It then checks whether the players the user ticked are
exactly the winners, and prints the winners as "Jugador 1, Jugador 3 y
Jugador 4".

This project models that core in Dafny:

- `wrappers.dfy` (module `Wrappers`): `Option` and `Result`. These stand in
  for Python's exceptions and for a missing value.
- `cards.dfy` (module `Cards`) models `poker_logic/cards.py`:
  - `Card` is an immutable value.
  - Its constructor checks the rank, then the suit.
  - It has a plain-text form and a coloured HTML form.
  - `Deck` is a class whose `cards` list is changed in place by shuffling and dealing. The end of the list is the top of the deck.
  - A ghost history `Dealt` records the cards dealt, in order. The class invariant `Valid()` says that the remaining cards plus the dealt cards are exactly the fresh deck, as multisets.
- `app.dfy` (module `App`) models the quiz logic of `app.py`:
  - the deal of a round;
  - `find_winner`;
  - the list of ticked players;
  - the `sorted(...) == sorted(...)` answer check;
  - the text naming the winners.

The hand evaluator is a parameter of type `Evaluator`. It maps hole cards and a board to a score and a hand name; lower scores are stronger. The random source of the shuffle is a parameter `rand: nat -> nat`.

## Model

| member | source | states |
|---|---|---|
| Cards.NewCard | poker_logic/cards.py:13-21 | A card is built exactly when the rank is one of the 13 rank symbols and the suit one of the 4 suit symbols, keeping both. A bad rank is reported as an invalid rank even when the suit is also bad. A good rank with a bad suit is reported as an invalid suit. |
| Cards.Repr | poker_logic/cards.py:23-27 | The plain text of a card: its rank, then its suit. What it means is stated by `ReprSplits` and `ReprInjective`. |
| Cards.ReprSplits | poker_logic/cards.py:23-27 | The text of a valid card has two characters: the first gives back the rank and the rest gives back the suit. |
| Cards.ReprInjective | poker_logic/cards.py:23-27 | Two valid cards have the same text if and only if they are the same card. |
| Cards.ColoredMarkdown | poker_logic/cards.py:29-43 | The markup of one card. What it looks like is stated by `ColoredMarkdownLayout` and `ColoredMarkdownInjective`. |
| Cards.ColoredMarkdownLayout | poker_logic/cards.py:29-43 | The markup opens with the span tag. The colour slot reads "red" if and only if the suit is hearts or diamonds. It reads "black" if and only if the suit is any other. The card's text is directly before the closing `</span>`, which ends the markup. |
| Cards.ColourSlot | poker_logic/cards.py:34-39 | Right after the opening tag, the markup spells "red" for a hearts or diamonds card and "black" for any other. |
| Cards.ColoredMarkdownInjective | poker_logic/cards.py:29-43 | Two valid cards render to the same markup if and only if they are the same card. |
| Cards.FreshCards | poker_logic/cards.py:52 | The list comprehension, suit by suit and rank by rank. Its length, its lack of repeats and its contents are stated by `FreshCardsAreEveryCardOnce`. |
| Cards.FreshCardsAreEveryCardOnce | poker_logic/cards.py:50-52 | The suit-by-suit, rank-by-rank list has 52 cards with no repeats. A card is in it if and only if it is a valid card. |
| Cards.ShufflePasses | poker_logic/cards.py:57 | The Fisher-Yates passes of `random.shuffle` over the top `i` positions. That they only reorder the cards is stated by `ShufflePassesPermutes`. |
| Cards.ShufflePassesPermutes | poker_logic/cards.py:55-57 | Whatever the random draws, the Fisher-Yates passes keep the length and the multiset of cards. |
| Cards.ConservedCardsAreDistinct | poker_logic/cards.py:46-79 | Whenever the remaining and the dealt cards together are the fresh deck, they number 52 and contain no repeat. They contain exactly the valid cards. |
| Cards.DealtCardsAreDistinct | poker_logic/cards.py:59-75 | Under the same invariant, the dealt cards are all valid and no card was dealt twice. |
| Cards.TopReversedAppend | poker_logic/cards.py:72-74 | Popping k cards and then m more from what is left gives the same cards, in the same order, as popping k + m cards at once. |
| Cards.DealThenRestack | poker_logic/cards.py:69-75 | Dealing n cards off the top and putting them back, last dealt first, gives back the deck as it was. |
| Cards.Deck.constructor | poker_logic/cards.py:50-53 | A new deck holds 52 cards and has dealt none. The invariant holds, and the list is the fresh list after one shuffle with the given draws. |
| Cards.Deck.Shuffle | poker_logic/cards.py:55-57 | The loop leaves the list equal to the Fisher-Yates passes over the old list, keeps the invariant, and leaves the dealt history alone. |
| Cards.Deck.Len | poker_logic/cards.py:77-79 | The cards left plus the cards dealt always make 52. |
| Cards.Deck.Pop | poker_logic/cards.py:70 | The last card of the list is removed, returned and added to the dealt history; the invariant is kept. |
| Cards.Deck.PopTop | poker_logic/cards.py:72-75 | The loop pops `count` cards, returns them in popping order, and shortens the list by exactly those cards. |
| Cards.Deck.Deal | poker_logic/cards.py:59-75 | Asking for more cards than remain fails and changes nothing. Otherwise the call succeeds. The count defaults to 1. `deal(1)` returns the single top card, and any other count returns a list. The list holds the top cards in popping order (none for a count of 0 or less). The deck loses exactly those cards, they are appended to the dealt history, and the invariant is kept. |
| App.DealRound | app.py:75-80 | A round succeeds if and only if 5 + 2·players ≤ 52, which always holds within the slider's 2 to 9 players. It yields a 5-card board and one 2-card hand per player. All its cards are valid and no card appears twice. |
| App.DealHoleCards | app.py:79-80 | The hands loop succeeds if and only if 2·players cards remain. It gives one 2-card hand per player. The hands, one after another, are the top 2·players cards of the old deck in popping order. The deck keeps exactly the cards under them, and the dealt history grows by the hands in order. |
| App.DealHand | app.py:80 | One player's `deck.deal(2)` succeeds if and only if two cards remain. It then returns the two top cards in popping order and takes them off the deck. On failure it reports the shortage and leaves the deck as it was. |
| App.MinScore | app.py:27 | The result is one of the scores, and no score is lower. |
| App.ScoreIndices | app.py:30 | The index comprehension. Every index it yields is a position in the score list; which indices it yields is stated by `ScoreIndicesAreTheBest`. |
| App.ScoreIndicesAreTheBest | app.py:30 | The list holds exactly the indices whose score equals the given score, in strictly increasing order. |
| App.ScoreNames | app.py:33 | The name comprehension. That it walks the same positions as the index comprehension is stated by `NamesFollowIndices`. |
| App.NamesFollowIndices | app.py:30-33 | The k-th name kept by the name comprehension belongs to the k-th index kept by the index comprehension. |
| App.Resolve | app.py:26-33 | It fails if and only if there are no scores, the `min()` of an empty list. Otherwise it returns a non-empty, strictly increasing list of in-range indices that holds every hand with the lowest score and only such hands. With the list comes the name of the first of those hands. |
| App.ShowdownResultIsUnique | app.py:26-33 | Any two answers that meet that description are equal, so the result is determined by the scores. |
| App.FindWinner | app.py:16-36 | It fails if and only if there are no hands. Otherwise the scores are the evaluator's results for each hand in order, and the winners and the hand name meet the description above. |
| App.SelectedIndices | app.py:137-139 | An index is listed if and only if its checkbox entry is ticked. With distinct keys, no index is listed twice. |
| App.Sort | app.py:142 | The result is ascending and a permutation of the input. |
| App.SortedIsUnique | app.py:142 | Two ascending sequences that are permutations of each other are equal. |
| App.IsCorrect | app.py:142 | The comparison of the two sorted lists. What it decides is stated by `IsCorrectIffSameElements` and `IsCorrectIffExactlyTheWinners`. |
| App.IsCorrectIffSameElements | app.py:142 | Comparing the sorted lists is the same as comparing the lists as multisets. |
| App.IsCorrectIffExactlyTheWinners | app.py:137-142 | With distinct checkbox keys and the strictly increasing winner list, the answer is correct if and only if the ticked players are exactly the winners. |
| App.DecimalString | app.py:159 | The decimal text of a number is non-empty and all digits. It has no leading zero unless the number is 0. |
| App.DecimalRoundTrip | app.py:159 | Reading back the decimal text gives the number. |
| App.PlayerName | app.py:159 | "Jugador " followed by the 1-based number. Distinct players get distinct names, by `PlayerNameInjective`. |
| App.PlayerNameInjective | app.py:159 | Two players' display names are equal if and only if they are the same player. |
| App.Join | app.py:163 | Python's `str.join`. Every part occurs in the result, by `JoinContainsParts`. The result followed by " y " and one more name is the spoken listing, by `JoinThenLastIsListing`. |
| App.JoinContainsParts | app.py:163 | Every part occurs in the joined text. |
| App.WinnerString | app.py:159-165 | The winner text. What it is equal to is stated by `WinnerStringIsListing`. |
| App.Listing | app.py:159-165 | The spoken listing, defined name by name: one name alone, two names joined by " y ", and otherwise the first name, ", " and the listing of the rest. |
| App.JoinThenLastIsListing | app.py:163 | For two or more names, joining all but the last with ", " and then adding " y " and the last gives exactly the spoken listing. |
| App.WinnerStringIsListing | app.py:159-165 | There is no message for no winners. Otherwise the message is exactly the spoken listing of the winners' names, in the order of the winner list. |
| App.ListingShape | app.py:162-165 | A listing starts with its first name. A single name is the whole listing. With two or more names it ends with " y " and the last name. |
| App.WinnerStringShape | app.py:159-165 | There is a message if and only if there is a winner, and it starts with the first winner's name. A single winner gives exactly that name. With several winners it ends with " y " and the last winner's name. |
| App.WinnerStringNamesEveryWinner | app.py:159-165 | Every winner's name occurs in the message. |

## Left out

- The hand evaluator (`evaluate_hand` and the `treys` library it wraps) is outside this model. It is the parameter `evaluate`, and nothing is assumed about its scores.
- The randomness of `random.shuffle` is the parameter `rand`:
  - Position p is swapped with position `rand(p) % (p + 1)`, the shape of CPython's shuffle loop.
  - The model proves only that a shuffle permutes the deck.
  - It does not prove that every ordering is equally likely.
- The Streamlit page is not modelled: the sidebar, buttons, checkboxes, messages, `session_state` and reruns. Only the values those parts compute are.
- The slider's range is modelled only as the bounds `MinPlayers` and `MaxPlayers` in `DealRound`'s contract. The widget itself is not modelled.
- The checkbox dictionary `user_selections` is modelled as its list of (key, ticked) items in insertion order. A Python dictionary cannot repeat a key, so the lemmas that need this take `DistinctKeys` as a precondition.
- `sorted()` is modelled as an insertion sort on integers. Its contract and `SortedIsUnique` make the choice of algorithm irrelevant to `IsCorrect`.
- Python's cards compare by identity. The model compares them by value. The fresh deck holds each (rank, suit) pair once, so the two agree on every deck the program builds.
- App.DealHoleCards: when a `ValueError` stops the dealing loop, cards already dealt stay off the deck. The contract says only that the loop fails. It does not describe the deck at that point; the only caller then discards the deck.
- App.WinnerString: an empty winner list is an `IndexError` in the source and `None` here. `find_winner` never returns an empty list, so this case is not reached.
- The comment next to the winner text gives the example "Jugador 1 y 3", but the code repeats the word for each winner ("Jugador 1 y Jugador 3"). The model follows the code.
- The styled markup is modelled as text. Nothing is said about how a browser renders it.
- Scores, indices and counts are unbounded integers, as they are in Python.
- poker_logic/evaluator.py is not part of this model; the evaluator is the `evaluate` parameter above. The manual mode, announced as coming later, is not part of this model either.
