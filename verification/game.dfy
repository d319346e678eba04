/**
  The round state machine of the matching game (the `Matching` component of
  src/matching/index.tsx with React and the DOM taken away).

  The component's state (`mode`, `time`, `score`, `selectedIndex`,
  `cardsOrder`) becomes one immutable `Round`. The two CSS classes the code
  toggles on each card element become two booleans per card: `reverse` (the
  coloured side is turned up) and `stop` (the card is frozen, which is
  assumed to block clicks). Every source of asynchrony becomes an
  explicit event: the Start button, a click on a card, a tick of the
  one-second countdown interval, and the firing of one of the delayed
  callbacks that `setTimeout` scheduled. Scheduled callbacks are kept, with
  the values their closures captured, in `pending`; any one of them may fire
  next, which covers every order the browser's timer queue can produce.
 */
module Game {
  import opened Shuffle
  import opened Deck

  datatype Option<T> = None | Some(value: T)

  /** `MODE` in the source. */
  datatype Mode = START | PLAYING | END

  /** The two CSS classes of one card element. */
  datatype Card = Card(reverse: bool, stop: bool)

  /** A delayed callback scheduled by `setTimeout`, with what its closure
      captured:
      - `Reveal`: `frontFace()` after the ready delay when a round begins;
      - `Confirm(clicked, partner)`: the match callback, freezing both cards;
      - `Conceal(clicked, previous)`: the reset callback, turning down the
        clicked card and the selection it replaced, if any. */
  datatype Callback =
    | Reveal
    | Confirm(clicked: int, partner: int)
    | Conceal(clicked: int, previous: Option<int>)

  datatype Round = Round(
    mode: Mode,
    time: int,
    score: int,
    selected: Option<int>,
    deck: seq<string>,
    cards: seq<Card>,
    pending: seq<Callback>)

  /** Inputs of the state machine. `StartButton` carries the random draws of
      the shuffle; `TimerFires(slot)` runs the pending callback at `slot`. */
  datatype Event =
    | StartButton(draws: seq<int>)
    | CardClick(index: int)
    | IntervalTick
    | TimerFires(slot: int)

  /** `PLAY_TIME`: seconds in a round. */
  const PLAY_TIME: int := 20

  const FaceUpFrozen := Card(true, true)
  const FaceDown := Card(false, false)

  /** The component as first mounted: mode END, the unshuffled deck, each
      card rendered with class `reverse` only. (The source shuffles
      `cardsAll` itself in place, so only the first mount sees it
      unshuffled.) */
  const Initial: Round :=
    Round(END, PLAY_TIME, 0, None, CardsAll, seq(|CardsAll|, _ => Card(true, false)), [])

  predicate CallbackFits(c: Callback, n: int) {
    match c
    case Reveal => true
    case Confirm(a, b) => 0 <= a < n && 0 <= b < n
    case Conceal(i, prev) => 0 <= i < n && (prev.Some? ==> 0 <= prev.value < n)
  }

  /** Every index the state holds, directly or in a closure, names a card. */
  predicate Valid(s: Round) {
    && |s.cards| == |s.deck|
    && (s.selected.Some? ==> 0 <= s.selected.value < |s.deck|)
    && forall c :: c in s.pending ==> CallbackFits(c, |s.deck|)
  }

  /** `backFace()`: adds `reverse` and `stop` to every card. */
  function BackFace(cards: seq<Card>): (r: seq<Card>)
    ensures |r| == |cards|
    ensures forall k :: 0 <= k < |r| ==> r[k] == FaceUpFrozen
  {
    seq(|cards|, _ => FaceUpFrozen)
  }

  /** `frontFace()`: removes `reverse` and `stop` from every card. */
  function FrontFace(cards: seq<Card>): (r: seq<Card>)
    ensures |r| == |cards|
    ensures forall k :: 0 <= k < |r| ==> r[k] == FaceDown
  {
    seq(|cards|, _ => FaceDown)
  }

  /** `start()`: shuffles the current deck in place and resets the round. */
  function Start(s: Round, draws: seq<int>): (r: Round)
    requires Valid(s) && ValidDraws(draws, |s.deck|)
    ensures Valid(r)
    ensures r.mode == START && r.score == 0 && r.time == PLAY_TIME && r.selected == None
    ensures |r.deck| == |s.deck| && multiset(r.deck) == multiset(s.deck)
    ensures forall k :: 0 <= k < |r.cards| ==> r.cards[k] == FaceUpFrozen
    ensures r.pending == s.pending
  {
    s.(mode := START, time := PLAY_TIME, score := 0, selected := None,
       deck := FisherYates(s.deck, draws), cards := BackFace(s.cards))
  }

  /** The effect on entering START: switch to PLAYING at once and schedule
      `frontFace()` for after the ready delay. */
  function EnterPlaying(s: Round): (r: Round)
    requires Valid(s) && s.mode == START
    ensures Valid(r)
    ensures r.mode == PLAYING && r.pending == s.pending + [Reveal]
    ensures r.(mode := s.mode, pending := s.pending) == s
  {
    s.(mode := PLAYING, pending := s.pending + [Reveal])
  }

  /** `gameOver()`: mode END and every card turned up and frozen; nothing
      else changes. */
  function GameOver(s: Round): (r: Round)
    requires Valid(s)
    ensures Valid(r)
    ensures r.mode == END && |r.cards| == |s.cards|
    ensures forall k :: 0 <= k < |r.cards| ==> r.cards[k] == FaceUpFrozen
    ensures r.(mode := s.mode, cards := s.cards) == s
  {
    s.(mode := END, cards := BackFace(s.cards))
  }

  /** The three conditions under which a click scores: a selection exists,
      the click is on another card, and the two cards have the same colour.
      So a card never matches itself, and a match needs its colour to occur
      at least twice in the deck. */
  function IsMatch(s: Round, i: int): (m: bool)
    requires Valid(s) && 0 <= i < |s.deck|
    ensures m ==> s.selected.Some? && s.selected != Some(i)
    ensures m ==> multiset(s.deck)[s.deck[i]] >= 2
  {
    if s.selected.Some? && i != s.selected.value && s.deck[i] == s.deck[s.selected.value] then
      TwoPositionsTwice(s.deck, i, s.selected.value);
      true
    else
      false
  }

  /** `handleClick(e, index)`, its synchronous part: the clicked card is
      turned up, then either the match is booked or the click becomes the
      new selection; the matching delayed callback is scheduled. */
  function HandleClick(s: Round, i: int): (r: Round)
    requires Valid(s) && 0 <= i < |s.deck|
    ensures Valid(r)
    ensures s.mode != PLAYING ==> r == s
    ensures s.mode == PLAYING ==>
      && r.mode == s.mode && r.time == s.time && r.deck == s.deck
      && r.cards == s.cards[i := Card(true, s.cards[i].stop)]
    ensures s.mode == PLAYING && IsMatch(s, i) ==>
      && r.score == s.score + 1
      && r.selected == None
      && r.pending == s.pending + [Confirm(i, s.selected.value)]
    ensures s.mode == PLAYING && !IsMatch(s, i) ==>
      && r.score == s.score
      && r.selected == Some(i)
      && r.pending == s.pending + [Conceal(i, s.selected)]
  {
    if s.mode != PLAYING then s
    else
      var cards := s.cards[i := s.cards[i].(reverse := true)];
      if s.selected.Some? && i != s.selected.value && s.deck[i] == s.deck[s.selected.value] then
        s.(cards := cards, selected := None, score := s.score + 1,
           pending := s.pending + [Confirm(i, s.selected.value)])
      else
        s.(cards := cards, selected := Some(i),
           pending := s.pending + [Conceal(i, s.selected)])
  }

  /** The effect on `score`: reaching the number of pairs ends the round. It
      runs only when the score has just changed. */
  function ScoreEffect(before: Round, after: Round): (r: Round)
    requires Valid(after)
    ensures Valid(r)
    ensures r.(mode := after.mode, cards := after.cards) == after
    ensures r.mode == END <==>
      after.mode == END || (after.score != before.score && after.score == PaletteSize)
    ensures r.mode != END ==> r == after
    ensures after.score != before.score && after.score == PaletteSize ==>
      forall k :: 0 <= k < |r.cards| ==> r.cards[k] == FaceUpFrozen
  {
    if after.score != before.score && after.score == PaletteSize then GameOver(after) else after
  }

  /** The effect on `time` while PLAYING: time 0 ends the round. */
  function TimeEffect(s: Round): (r: Round)
    requires Valid(s)
    ensures Valid(r)
    ensures r.(mode := s.mode, cards := s.cards) == s
    ensures r.mode == END <==> s.mode == END || (s.mode == PLAYING && s.time == 0)
    ensures r.mode != END ==> r == s
    ensures s.mode == PLAYING && s.time == 0 ==>
      forall k :: 0 <= k < |r.cards| ==> r.cards[k] == FaceUpFrozen
  {
    if s.mode == PLAYING && s.time == 0 then GameOver(s) else s
  }

  /** Runs one delayed callback on the card flags. */
  function Fire(s: Round, c: Callback): (r: Round)
    requires Valid(s) && CallbackFits(c, |s.deck|)
    ensures Valid(r)
    ensures r.(cards := s.cards) == s && |r.cards| == |s.cards|
    ensures c.Reveal? ==> forall k :: 0 <= k < |r.cards| ==> r.cards[k] == FaceDown
    ensures c.Confirm? ==>
      && r.cards[c.clicked] == FaceUpFrozen && r.cards[c.partner] == FaceUpFrozen
      && forall k :: 0 <= k < |r.cards| && k != c.clicked && k != c.partner ==> r.cards[k] == s.cards[k]
    ensures c.Conceal? ==>
      && r.cards[c.clicked] == FaceDown
      && (c.previous.Some? ==> r.cards[c.previous.value] == FaceDown)
      && forall k :: 0 <= k < |r.cards| && k != c.clicked && c.previous != Some(k) ==> r.cards[k] == s.cards[k]
  {
    match c
    case Reveal => s.(cards := FrontFace(s.cards))
    case Confirm(a, b) => s.(cards := s.cards[a := FaceUpFrozen][b := FaceUpFrozen])
    case Conceal(i, prev) =>
      var cards := s.cards[i := FaceDown];
      s.(cards := if prev.Some? then cards[prev.value := FaceDown] else cards)
  }

  /** Removes the callback at `slot` from the queue. */
  function Without(q: seq<Callback>, slot: int): (r: seq<Callback>)
    requires 0 <= slot < |q|
    ensures |r| == |q| - 1
    ensures forall c :: c in r ==> c in q
  {
    q[..slot] + q[slot + 1..]
  }

  /** Whether the page can deliver the event at all. A click needs a card
      without `stop`: the stylesheet is assumed to block clicks on frozen
      cards. A timer can only fire a callback that is pending. */
  predicate Enabled(s: Round, e: Event) {
    match e
    case StartButton(draws) => ValidDraws(draws, |s.deck|)
    case CardClick(i) => 0 <= i < |s.deck| && i < |s.cards| && !s.cards[i].stop
    case IntervalTick => true
    case TimerFires(slot) => 0 <= slot < |s.pending|
  }

  /** One event, followed by the effects React runs after the render it
      causes. The countdown interval only exists while PLAYING. */
  function Step(s: Round, e: Event): (r: Round)
    requires Valid(s) && Enabled(s, e)
    ensures Valid(r)
    ensures |r.deck| == |s.deck| && multiset(r.deck) == multiset(s.deck)
  {
    match e
    case StartButton(draws) => EnterPlaying(Start(s, draws))
    case CardClick(i) => ScoreEffect(s, HandleClick(s, i))
    case IntervalTick =>
      if s.mode == PLAYING then TimeEffect(s.(time := s.time - 1)) else s
    case TimerFires(slot) =>
      Fire(s.(pending := Without(s.pending, slot)), s.pending[slot])
  }

  /** Runs a sequence of events; `None` when one of them cannot be
      delivered in the state it meets. */
  function Run(s: Round, events: seq<Event>): (r: Option<Round>)
    requires Valid(s)
    ensures r.Some? ==> Valid(r.value)
    decreases |events|
  {
    if events == [] then Some(s)
    else if !Enabled(s, events[0]) then None
    else Run(Step(s, events[0]), events[1..])
  }

  /** The invariant of every state the game can reach: the deck is always a
      rearrangement of the palette pairs, score and time stay in range, START
      is never observed between events, and a round in play has time and
      pairs left. */
  predicate Inv(s: Round) {
    && Valid(s)
    && multiset(s.deck) == multiset(CardsAll)
    && 0 <= s.score <= PaletteSize
    && 0 <= s.time <= PLAY_TIME
    && s.mode != START
    && (s.mode == PLAYING ==> s.time > 0 && s.score < PaletteSize)
  }

  lemma InitialInv()
    ensures Inv(Initial) && Initial.mode == END
  {
  }

  /** Every event keeps the invariant. */
  lemma StepPreservesInv(s: Round, e: Event)
    requires Inv(s) && Enabled(s, e)
    ensures Inv(Step(s, e))
  {
  }

  /** Every state reached from one satisfying the invariant satisfies it. */
  lemma {:induction false} RunPreservesInv(s: Round, events: seq<Event>)
    requires Inv(s)
    ensures Run(s, events).Some? ==> Inv(Run(s, events).value)
    decreases |events|
  {
    if events != [] && Enabled(s, events[0]) {
      StepPreservesInv(s, events[0]);
      RunPreservesInv(Step(s, events[0]), events[1..]);
    }
  }

  /** In every reachable state the deck holds each palette colour exactly
      twice and nothing else, and the score never exceeds the number of
      pairs. */
  lemma ReachableRounds(events: seq<Event>)
    ensures Run(Initial, events).Some? ==>
      var t := Run(Initial, events).value;
      && |t.deck| == 2 * PaletteSize
      && (forall c :: multiset(t.deck)[c] == if c in Palette then 2 else 0)
      && 0 <= t.score <= PaletteSize
  {
    InitialInv();
    RunPreservesInv(Initial, events);
    CardsAllIsPairs();
  }

  /** Pressing Start resets the round and the deck becomes a rearrangement
      of the previous one; the round is PLAYING by the next event, every card
      is turned up and frozen, and only `frontFace()` is newly scheduled. */
  lemma StartResetsRound(s: Round, draws: seq<int>)
    requires Valid(s) && ValidDraws(draws, |s.deck|)
    ensures var r := Step(s, StartButton(draws));
      && r.mode == PLAYING && r.score == 0 && r.time == PLAY_TIME && r.selected == None
      && multiset(r.deck) == multiset(s.deck)
      && |r.cards| == |s.cards| && (forall k :: 0 <= k < |r.cards| ==> r.cards[k] == FaceUpFrozen)
      && r.pending == s.pending + [Reveal]
  {
  }

  /** Every arrangement of the deck can come out of the Start button. */
  lemma EveryDealPossible(s: Round, p: seq<string>) returns (draws: seq<int>)
    requires Valid(s) && multiset(p) == multiset(s.deck)
    ensures ValidDraws(draws, |s.deck|)
    ensures Step(s, StartButton(draws)).deck == p
  {
    draws := EveryPermutationReachable(s.deck, p);
  }

  /** Clicks outside PLAYING change nothing at all. */
  lemma ClickIgnoredUnlessPlaying(s: Round, i: int)
    requires Valid(s) && Enabled(s, CardClick(i)) && s.mode != PLAYING
    ensures Step(s, CardClick(i)) == s
  {
  }

  /** During play a click raises the score by exactly one when it is a
      match and leaves it unchanged otherwise; a match clears the selection,
      anything else makes the clicked card the selection. */
  lemma ClickScoresExactlyOnMatch(s: Round, i: int)
    requires Inv(s) && Enabled(s, CardClick(i)) && s.mode == PLAYING
    ensures var r := Step(s, CardClick(i));
      && (r.score == s.score + 1 <==> IsMatch(s, i))
      && (r.score == s.score <==> !IsMatch(s, i))
      && (r.selected == None <==> IsMatch(s, i))
      && (!IsMatch(s, i) ==> r.selected == Some(i))
  {
  }

  /** Clicking the selected card again is never a match with itself. */
  lemma ReclickNeverScores(s: Round, i: int)
    requires Valid(s) && Enabled(s, CardClick(i)) && s.selected == Some(i)
    ensures Step(s, CardClick(i)).score == s.score
    ensures s.mode == PLAYING ==> Step(s, CardClick(i)).selected == Some(i)
  {
  }

  /** A match, when its delayed callback fires next, leaves both cards
      turned up and frozen. */
  lemma MatchFreezesPair(s: Round, i: int)
    requires Inv(s) && Enabled(s, CardClick(i)) && s.mode == PLAYING && IsMatch(s, i)
    ensures var r := Step(s, CardClick(i));
      && |r.pending| > 0
      && var t := Step(r, TimerFires(|r.pending| - 1));
      && t.cards[i] == FaceUpFrozen && t.cards[s.selected.value] == FaceUpFrozen
  {
  }

  /** A click that does not match, when its delayed callback fires next,
      leaves the clicked card and the selection it replaced turned down and
      clickable. */
  lemma MismatchTurnsDownBoth(s: Round, i: int)
    requires Inv(s) && Enabled(s, CardClick(i)) && s.mode == PLAYING && !IsMatch(s, i)
    ensures var r := Step(s, CardClick(i));
      && |r.pending| > 0
      && var t := Step(r, TimerFires(|r.pending| - 1));
      && t.cards[i] == FaceDown
      && (s.selected.Some? ==> t.cards[s.selected.value] == FaceDown)
      && t.score == s.score
  {
  }

  /** The match that completes the last pair ends the round with every card
      turned up and frozen. */
  lemma LastPairEndsRound(s: Round, i: int)
    requires Inv(s) && Enabled(s, CardClick(i)) && s.mode == PLAYING
    requires IsMatch(s, i) && s.score == PaletteSize - 1
    ensures var r := Step(s, CardClick(i));
      && r.mode == END && r.score == PaletteSize
      && forall k :: 0 <= k < |r.cards| ==> r.cards[k] == FaceUpFrozen
  {
  }

  /** Conversely, during play a click ends the round only when it is the
      match that completes the last pair; any other click keeps PLAYING. */
  lemma ClickEndsRoundOnlyOnLastPair(s: Round, i: int)
    requires Inv(s) && Enabled(s, CardClick(i)) && s.mode == PLAYING
    ensures Step(s, CardClick(i)).mode == END <==> IsMatch(s, i) && s.score == PaletteSize - 1
    ensures Step(s, CardClick(i)).mode != END ==> Step(s, CardClick(i)).mode == PLAYING
  {
  }

  /** A pending callback has the same effect whenever it fires, whatever
      events came in between: a freeze callback leaves both its cards turned
      up and frozen, a reset callback leaves its cards turned down. */
  lemma PendingCallbackAnyTime(t: Round, slot: int)
    requires Valid(t) && 0 <= slot < |t.pending|
    ensures var c := t.pending[slot];
      var r := Step(t, TimerFires(slot));
      && |r.cards| == |t.deck| && CallbackFits(c, |t.deck|)
      && (c.Confirm? ==> r.cards[c.clicked] == FaceUpFrozen && r.cards[c.partner] == FaceUpFrozen)
      && (c.Conceal? ==> r.cards[c.clicked] == FaceDown
                         && (c.previous.Some? ==> r.cards[c.previous.value] == FaceDown))
      && (c.Reveal? ==> forall k :: 0 <= k < |r.cards| ==> r.cards[k] == FaceDown)
      && r.mode == t.mode && r.score == t.score && r.selected == t.selected
  {
  }

  /** While PLAYING each tick takes exactly one second off, and the tick
      that reaches 0 ends the round; outside PLAYING there is no interval and
      a tick changes nothing. */
  lemma TickCountsDown(s: Round)
    requires Inv(s)
    ensures var r := Step(s, IntervalTick);
      && (s.mode != PLAYING ==> r == s)
      && (s.mode == PLAYING ==> r.time == s.time - 1 && r.score == s.score)
      && (s.mode == PLAYING ==> (r.mode == END <==> r.time == 0))
      && (s.mode == PLAYING && r.time > 0 ==> r.mode == PLAYING)
  {
  }

  /** Only the Start button leaves END. */
  lemma EndIsFinalUntilStart(s: Round, e: Event)
    requires Valid(s) && Enabled(s, e) && s.mode == END && !e.StartButton?
    ensures Step(s, e).mode == END
  {
  }

  /** The resolve delay lets one pair score twice: the two cards of a pair
      are clicked, and before the match callback freezes them they are
      clicked again, which is booked as a second match. The score counts
      matching clicks, not distinct pairs. */
  lemma PairCanScoreTwice(s: Round, a: int, b: int)
    requires Inv(s) && s.mode == PLAYING && s.selected == None && s.score + 2 < PaletteSize
    requires 0 <= a < |s.deck| && 0 <= b < |s.deck| && a != b && s.deck[a] == s.deck[b]
    requires !s.cards[a].stop && !s.cards[b].stop
    ensures var r := Run(s, [CardClick(a), CardClick(b), CardClick(a), CardClick(b)]);
      r.Some? && r.value.score == s.score + 2 && r.value.mode == PLAYING
  {
    var s1 := Step(s, CardClick(a));
    assert s1.cards[b] == s.cards[b] && s1.selected == Some(a);
    var s2 := Step(s1, CardClick(b));
    assert s2.cards[a].stop == s.cards[a].stop && s2.selected == None;
    var s3 := Step(s2, CardClick(a));
    assert s3.cards[b].stop == s.cards[b].stop && s3.selected == Some(a);
    var s4 := Step(s3, CardClick(b));
    assert Run(s3, [CardClick(b)]) == Some(s4);
    assert Run(s2, [CardClick(a), CardClick(b)]) == Some(s4);
    assert Run(s1, [CardClick(b), CardClick(a), CardClick(b)]) == Some(s4);
  }
}
