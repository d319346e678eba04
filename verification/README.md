# Matching game engine in Dafny

A model of the game engine of a browser memory-matching card game (the
`Matching` React component in `src/matching/index.tsx`). The game uses a
deck of ten cards: five colours, each appearing twice. At the start of a
round the deck is shuffled. The player turns cards up by clicking them, and
two cards of the same colour clicked in a row score a pair. The round ends
when the 20-second countdown runs out or when five pairs have been scored.

The model has three modules:

- `Shuffle` (`shuffle.dfy`) covers the in-place Fisher–Yates `shuffle`. The
  `Math.random()` draws become an explicit sequence `draws`. Its only
  constraint is `0 <= draws[i] <= i`, which is the range that
  `Math.floor(Math.random() * (i + 1))` produces. `Shuffle` is the source's
  loop run on an array. `FisherYates` is the same computation as a function.
- `Deck` (`deck.dfy`) covers the palette `cardsSample` and the deck
  `cardsAll`, which is the palette concatenated with itself.
- `Game` (`game.dfy`) covers the round. The component state becomes one
  immutable `Round`. The CSS classes `reverse` and `stop` become two booleans
  per card:
  - `reverse`: the coloured side (`.side.back`) is turned up.
  - `stop`: the card is frozen.

  Each kind of asynchrony becomes an `Event`:
  - `StartButton(draws)`: the Start button is pressed.
  - `CardClick(i)`: card `i` is clicked.
  - `IntervalTick`: the one-second countdown interval fires.
  - `TimerFires(slot)`: one pending `setTimeout` callback runs.

  Pending callbacks are stored as data in `pending`, together with the indices
  their closures captured. They can fire in any order, which includes every
  order the browser can produce. `Step` handles one event and then applies
  the `useEffect` reactions to the new render:
  - START immediately becomes PLAYING and schedules `frontFace()`.
  - When time reaches 0 during PLAYING, the round ends.
  - When the score has just changed and now equals the palette size, the
    round ends.

Three consequences of the code as written:

- **Start and game over.** `start` and `gameOver` call `backFace()`, which
  adds both `reverse` and `stop` to every card. After Start every card
  therefore shows its colour and is frozen, the same flags a matched card
  carries, until the delayed `frontFace()` runs (`Game.Start`,
  `Game.StartResetsRound`).
- **Reset callback.** The reset callback of a non-matching click turns both
  of its cards face-down unconditionally; it does not check whether either
  was matched meanwhile (`Game.Fire`, `Game.MismatchTurnsDownBoth`).
- **Score counts clicks, not pairs.** Before the match callback freezes a
  pair, the pair can be clicked again and scored a second time
  (`Game.PairCanScoreTwice`). Reaching a score of five therefore does not
  mean that five distinct pairs were found. This race around the resolve
  delay is modelled as written.

## Model

| member | source | states |
|---|---|---|
| Shuffle.Swap | src/matching/index.tsx:24 | exchanges positions `i` and `j` and leaves every other position unchanged |
| Shuffle.Passes | src/matching/index.tsx:22-24 | the loop passes from counter `i` down to 1 keep the length, and every position above `i` is never touched again |
| Shuffle.PassesPermute | src/matching/index.tsx:21-26 | the passes only rearrange: the multiset of elements is unchanged |
| Shuffle.FisherYates | src/matching/index.tsx:21-26 | the shuffle returns a permutation of its input, with the same length and the same multiset |
| Shuffle.Shuffle | src/matching/index.tsx:21-26 | the in-place loop from `length - 1` down to 1 swaps only in-bounds indices `0 <= j <= i`; its loop invariant states that the remaining passes applied to the array give the `FisherYates` result, so it computes `FisherYates` and returns a permutation |
| Shuffle.EveryPermutationReachable | src/matching/index.tsx:22-23 | the draw range `0 <= j <= i` leaves out no permutation: every rearrangement of the input is produced by some in-range draws |
| Deck.DoubledPaletteIsPairs | src/matching/index.tsx:13 | a distinct palette concatenated with itself has twice as many cards, every palette value occurs exactly twice, and nothing else occurs |
| Deck.CardsAllIsPairs | src/matching/index.tsx:12-13 | the game's deck has 10 cards, there are 5 pairs, and each of the five colours occurs exactly twice |
| Game.BackFace | src/matching/index.tsx:38-40 | every card ends up with `reverse` and `stop` set |
| Game.FrontFace | src/matching/index.tsx:42-44 | every card ends up with both flags cleared |
| Game.Start | src/matching/index.tsx:46-54 | score 0, time `PLAY_TIME` (20), no selection and mode START; the deck becomes a permutation of the previous deck; every card shows its colour and is frozen; the pending callbacks are kept |
| Game.EnterPlaying | src/matching/index.tsx:100-106 | START becomes PLAYING and `frontFace()` is scheduled; nothing else changes |
| Game.GameOver | src/matching/index.tsx:56-59 | mode becomes END and every card shows its colour and is frozen; nothing else changes |
| Game.IsMatch | src/matching/index.tsx:72-76 | a click matches only when a selection exists that is a different card (never the clicked card itself) of the same colour, so a match needs its colour to occur at least twice in the deck |
| Game.HandleClick | src/matching/index.tsx:67-98 | outside PLAYING nothing changes. During PLAYING the clicked card is turned up. On a match (a selection exists, the index differs, the colours are equal) the score rises by one, the selection is cleared and the freeze callback is scheduled. Otherwise the score is unchanged, the click becomes the selection, and a reset of the click and the old selection is scheduled |
| Game.Fire | src/matching/index.tsx:42-104 | the match callback (lines 80-83) freezes both cards face up. The reset callback (lines 91-96) turns the clicked card and the old selection face-down without checking whether they were matched meanwhile. The `frontFace()` callback (lines 42-44, scheduled at 102-104) turns every card face-down. Only card flags change |
| Game.ScoreEffect | src/matching/index.tsx:127-131 | the round ends (mode END, every card up and frozen) exactly when it had already ended or the score has just changed to 5; otherwise nothing changes, and only mode and card flags ever change |
| Game.TimeEffect | src/matching/index.tsx:117-119 | the round ends (mode END, every card up and frozen) exactly when it had already ended or it is PLAYING with time 0; otherwise nothing changes, and only mode and card flags ever change |
| Game.Step | src/matching/index.tsx:46-131 | every event keeps every held index within the deck, and it keeps the deck a permutation of itself |
| Game.InitialInv | src/matching/index.tsx:29-34 | the mounted component (mode END, unshuffled deck, score 0, time 20) satisfies the round invariant |
| Game.StepPreservesInv | src/matching/index.tsx:46-131 | every event preserves the invariant: the deck is a permutation of the palette pairs, `0 <= score <= 5`, `0 <= time <= 20`, START is never left standing, and PLAYING implies time and pairs remain |
| Game.RunPreservesInv | src/matching/index.tsx:46-131 | any sequence of events from a state satisfying the invariant preserves it |
| Game.ReachableRounds | src/matching/index.tsx:12-131 | in every reachable state the deck holds each palette colour exactly twice and nothing else, and the score is at most 5 |
| Game.StartResetsRound | src/matching/index.tsx:46-106 | after Start the round is PLAYING with score 0, time 20 and no selection; the deck is a permutation of the previous one; every card shows its colour and is frozen; only `frontFace()` is newly scheduled |
| Game.EveryDealPossible | src/matching/index.tsx:46-48 | every arrangement of the current deck can be dealt by the Start button |
| Game.ClickIgnoredUnlessPlaying | src/matching/index.tsx:68 | a click outside PLAYING leaves the whole state unchanged |
| Game.ClickScoresExactlyOnMatch | src/matching/index.tsx:72-97 | during play, the score rises by exactly one if and only if the click is a match, and is otherwise unchanged. The selection is cleared if and only if there is a match; otherwise it becomes the clicked card |
| Game.ReclickNeverScores | src/matching/index.tsx:72-76 | clicking the selected card again never scores, and during play it stays selected |
| Game.MatchFreezesPair | src/matching/index.tsx:77-86 | after a match, when its delayed callback fires next, both cards of the pair show their colour and are frozen |
| Game.MismatchTurnsDownBoth | src/matching/index.tsx:87-96 | after a click that is not a match, when its delayed callback fires next, the clicked card and the old selection are face-down and unfrozen, and the score is unchanged |
| Game.LastPairEndsRound | src/matching/index.tsx:127-131 | the match that brings the score to 5 ends the round, and every card shows its colour and is frozen |
| Game.ClickEndsRoundOnlyOnLastPair | src/matching/index.tsx:127-131 | during play a click ends the round if and only if it is a match bringing the score to 5; every other click keeps the round PLAYING |
| Game.PendingCallbackAnyTime | src/matching/index.tsx:80-104 | whenever a pending callback fires, after any events in between, a freeze callback leaves both its cards up and frozen, a reset callback leaves its cards down, `frontFace()` turns every card down, and mode, score and selection are unchanged |
| Game.TickCountsDown | src/matching/index.tsx:61-119 | during PLAYING a tick lowers time by exactly 1, and the round ends exactly when time reaches 0. Outside PLAYING a tick changes nothing |
| Game.EndIsFinalUntilStart | src/matching/index.tsx:100-131 | only the Start button leaves END |
| Game.PairCanScoreTwice | src/matching/index.tsx:72-86 | one pair clicked twice before its freeze callback fires scores two points |

## Left out

- Rendering is not modelled: JSX, `useMemo` and the headings (lines 133-159) are presentation only.
- The actual delays are not modelled: `READY_TIME_MS`, the 1000 ms resolve delay and the one-second interval period. Time only moves through the events `IntervalTick` and `TimerFires`. Pending callbacks may fire in any order, which is more orders than the browser allows. Every property proved holds for all of these orders.
- The 2-second wait before the first countdown tick (lines 109-112) is not modelled. Neither are the extra intervals that can build up when that `setTimeout`, which is never cleared, fires after a restart. `IntervalTick` can be delivered in any mode; it changes nothing outside PLAYING and decrements the time once during PLAYING.
- Game.Enabled: blocking clicks on frozen cards is an assumption, not a proven property. The stylesheet `style.scss` that blocks them is not part of this model, so a click on a card with `stop` is treated as never delivered.
- Game.HandleClick: the model assumes that `e.target` is the card element itself. If a click landed on an inner `.side` element, the classes would go on that element; whether this happens depends on the stylesheet, which is not part of this model.
- Shuffle.Shuffle: the in-place update of the caller's array is not modelled. On the first Start that array is the module constant `cardsAll` itself (lines 29 and 47), so the source permanently shuffles `cardsAll` and a later mount of the component starts from that shuffled array. The model returns a new sequence, and `Initial` describes the first mount only.
- Shuffle.Shuffle: the uniform distribution of `Math.random()` is not modelled, so the shuffle is not proved uniform. Only the draw range is assumed. `EveryPermutationReachable` proves that every permutation can occur.
- Game.Step: `time` is an unbounded integer, not a JavaScript double. Within the proved range 0..20 the two agree.
