# Phishing-spotting game engine, modelled in Dafny

The repository is a small web game that teaches people to spot phishing
emails. The email body is split into tokens. In **hard** mode the player
clicks the suspicious tokens. In **easy** mode the player gives one verdict,
"phishing" or "legit", for the whole message. Points, lives, floating
"+10"/"-5" markers and sounds follow each move. A second component, the
**annotator**, lets a player toggle tokens and then submit. It reports hits,
false flags and misses against the level's ground-truth token indices.

The project models this engine:

- `tokenizer.dfy` (module `Tokenizer`): the split expression
  `text.split(/(\s+|https?:\/\/[^\s]+|[^\s]+)/g).filter(Boolean)` used by both
  components. The model follows the regular expression alternative by
  alternative (JavaScript's `\s` class is written out). It models the array
  `split` builds from a capturing pattern, including its empty pieces, and
  the filter that drops them. The result is proved equal to the maximal
  whitespace / non-whitespace runs of the text. It is also proved to be the
  only well-formed split of the text.
- `round.dfy` (module `Round`): the game component's state as a value. Each
  handler is a transition function: token click, easy verdict, next level,
  reset, mode buttons, marker expiry, the game-over effect and the heart row.
  A fold over event sequences proves the invariants: score never negative,
  lives within `[0, maxLives]` when `maxLives >= 0` (a negative `maxLives`
  is never changed), selection within the rendered tokens,
  fresh and ordered marker ids, and the one-shot game-over sound.
- `spot_game.dfy` (module `SpotGame`): class `Game`. Its fields are the
  component's state, and its methods update them step by step in the
  component's order. Each method except `PlaySound` is proved to reach the
  state the matching `Round` function gives, and each handler also to keep
  the invariant.
- `annotator.dfy` (module `Annotator`): the selection toggle, the counting
  loops of `submit` (as the method `Score`), and class `Annotator` with the
  toggle, submit and reset-button handlers.
- `ground_truth.dfy` (module `GroundTruth`): the ground-truth index list as
  a set, shared by both components.
- `option.dfy` (module `Optional`): the `Option` type for nullable state.

Where the code differs from what one might expect, the model follows the
code:

- `resetGame` resets selection, score, lives, markers and the game-over
  latch only. Mode, level index, the completion flag and the easy choice
  stay as they were.
- The game-over sound is played by an effect that depends on `lives`. The
  effect runs on mount and then only when `lives` changes. So with
  `maxLives <= 0`, the mount plays the sound once. After a reset, `lives`
  does not change, so the sound does not play again.
- No ground-truth matcher and no level sequencer exist in the code. Ground
  truth is the list of token indices passed in. "Next level" only clears the
  round and increments the index.
- A wrong hard-mode click does `lives - 1` without a floor. The guard
  `lives <= 0` makes a floor unnecessary. A wrong easy verdict uses
  `Math.max(0, lives - 1)`. Both are modelled as written.

## Model

| member | source | states |
|---|---|---|
| GroundTruth.TruthSet | my-app/components/EmailSpotGame.tsx:30 | `new Set(groundTruthIndices)` has at most as many elements as the list, and is empty exactly when the list is |
| Tokenizer.RunLength | my-app/components/EmailSpotGame.tsx:26 | a greedy `\s+` / `[^\s]+` match is the longest prefix of one kind: every character before it is of that kind, and the next one is not |
| Tokenizer.UrlMatch | my-app/components/EmailSpotGame.tsx:26 | the URL alternative matches only at an `http://` or `https://` scheme, takes more than the scheme, stays within the text and matches no whitespace |
| Tokenizer.AlternationMatch | my-app/components/EmailSpotGame.tsx:26 | at every position of a non-empty text some alternative of the pattern matches at least one character |
| Tokenizer.AlternationIsRun | my-app/components/EmailSpotGame.tsx:26 | the alternation matches exactly the maximal run of the first character's kind; the URL alternative never changes what is matched |
| Tokenizer.SplitPieces | my-app/components/EmailSpotGame.tsx:26 | `split` with a capturing pattern gives an odd number of pieces: the pieces between matches (all empty, since a match starts at every position) at even places, the captured non-empty matches at odd places |
| Tokenizer.NonEmpty | my-app/components/EmailSpotGame.tsx:26 | `filter(Boolean)` keeps no empty string and never lengthens the array |
| Tokenizer.Tokenize | my-app/components/EmailSpotGame.tsx:26 | no token is empty, and the empty text has no tokens |
| Tokenizer.TokenizeIsRuns | my-app/components/EmailSpotGame.tsx:26 | split-then-filter equals the sequence of maximal whitespace and non-whitespace runs |
| Tokenizer.TokenizeRoundTrip | my-app/components/EmailAnnotator.tsx:15 | concatenating the tokens reproduces the text exactly |
| Tokenizer.TokenizeWellFormed | my-app/components/EmailSpotGame.tsx:26 | every token is non-empty and all whitespace or all non-whitespace; adjacent tokens differ in kind; there are no tokens exactly when the text is empty |
| Tokenizer.RunsUnique | my-app/components/EmailAnnotator.tsx:15 | any split of the text into uniform pieces with alternating kinds is the run sequence |
| Tokenizer.TokenizeCharacterised | my-app/components/EmailAnnotator.tsx:15 | a sequence is the tokenization of a text if and only if it concatenates to the text and is well formed |
| Round.IsPhishing | my-app/components/EmailSpotGame.tsx:173 | the easy-mode heuristic calls an email phishing exactly when its ground-truth set is non-empty |
| Round.Max0 | my-app/components/EmailSpotGame.tsx:144 | `Math.max(0, x)` is non-negative, at least `x`, and either 0 or `x` |
| Round.WithoutId | my-app/components/EmailSpotGame.tsx:123 | the filtered marker list holds exactly the markers of the old list whose id differs |
| Round.Hearts | my-app/components/EmailSpotGame.tsx:264 | the heart row has `maxLives` entries, or none when `maxLives` is negative |
| Round.HeartsShape | my-app/components/EmailSpotGame.tsx:264 | with lives in range, `lives` hearts are full, all at the front, and the rest are empty |
| Round.Initial | my-app/components/EmailSpotGame.tsx:33-66 | the first render is hard mode with score 0, `maxLives` lives, no selection, no markers, no easy choice, level 0 not yet completed and the marker counter at 0, and satisfies the invariant; the mount effect plays the game-over sound and sets the latch exactly when `maxLives <= 0` |
| Round.PushFeedback | my-app/components/EmailSpotGame.tsx:116-119 | one marker of the given kind and caption is appended after the existing ones, nothing but the marker list and the id counter changes, and marker ids stay increasing and below the counter |
| Round.Expire | my-app/components/EmailSpotGame.tsx:122-124 | only the marker list changes; it loses the markers with that id and gains none |
| Round.GameOverEffect | my-app/components/EmailSpotGame.tsx:246-252 | once latched the effect does nothing; afterwards the latch is set exactly when it was set or the lives are gone; the game-over sound is appended exactly when the latch is newly set; nothing else changes |
| Round.Commit | my-app/components/EmailSpotGame.tsx:246-252 | the lives effect does nothing when `lives` did not change; when it changed to 0 or below the latch ends up set; the latch is never set while lives remain unless it was set before |
| Round.Click | my-app/components/EmailSpotGame.tsx:128-152 | a click either changes nothing or, with lives left and the token unselected, adds the token to the selection; mode, easy choice and level are untouched; the invariant is kept |
| Round.Choose | my-app/components/EmailSpotGame.tsx:159-196 | a verdict either changes nothing or, with lives left and the level open, completes the level and clears the easy choice; mode, selection and level index are untouched; the invariant is kept |
| Round.NextLevel | my-app/components/EmailSpotGame.tsx:42-52 | moving to the next level keeps the invariant for any props |
| Round.Reset | my-app/components/EmailSpotGame.tsx:255-262 | from any state, even one that breaks the invariant, reset lands in a state that satisfies it |
| Round.SetMode | my-app/components/EmailSpotGame.tsx:405-422 | a mode button sets the mode and changes nothing else |
| Round.Apply | my-app/components/EmailSpotGame.tsx:128-262 | an event whose control is not on screen changes nothing; only clicks, verdicts and reset change score or lives; only the mode buttons change the mode |
| Round.ExpireValid | my-app/components/EmailSpotGame.tsx:122-124 | removing a marker keeps the invariant |
| Round.ExpireRemovesOnly | my-app/components/EmailSpotGame.tsx:122-124 | expiring a marker's id removes that marker only and keeps the others in order |
| Round.ExpireMissing | my-app/components/EmailSpotGame.tsx:123 | expiring an id no marker carries leaves the list unchanged |
| Round.ApplyValid | my-app/components/EmailSpotGame.tsx:128-196 | every enabled event keeps the invariant: score >= 0, lives in range, selection within the tokens, fresh ordered ids, latch set once lives are gone |
| Round.RunValid | my-app/components/EmailSpotGame.tsx:130-262 | across any sequence of clicks, verdicts, level changes, resets, mode changes and expiries, score stays >= 0 and, when `maxLives >= 0`, lives stay in `[0, maxLives]`; a negative `maxLives` is never changed |
| Round.ReachableValid | my-app/components/EmailSpotGame.tsx:55-58 | every state reachable from the first render satisfies the invariant |
| Round.ClickIgnored | my-app/components/EmailSpotGame.tsx:130-131 | a click with no lives left or on a selected token changes nothing |
| Round.ClickAccepted | my-app/components/EmailSpotGame.tsx:136-148 | an accepted click selects the token; a ground-truth token gives +10, keeps lives, plays the bingo sound and shows a "+10" marker; any other token costs one life and 5 points (floored at 0), plays the wrong sound and shows a "-5" marker; the marker's id is fresh; the game-over sound follows exactly when the latch gets set; mode, easy choice and level are unchanged |
| Round.ClickIdempotent | my-app/components/EmailSpotGame.tsx:131-136 | clicking the same token twice has the same effect as clicking it once |
| Round.ClickUnreachableInEasyMode | my-app/components/EmailSpotGame.tsx:472-484 | in easy mode a token click changes nothing |
| Round.ChooseIgnored | my-app/components/EmailSpotGame.tsx:160 | a verdict with no lives left or after the level is completed changes nothing |
| Round.ChooseJudged | my-app/components/EmailSpotGame.tsx:173-193 | a judged verdict is correct if and only if "phishing" matches "ground-truth list non-empty"; correct gives +10, plays the bingo sound and shows a "+10" marker; wrong costs a life and 5 points (both floored at 0), plays the wrong sound and shows a "-5" marker; the marker's id is fresh; the game-over sound follows exactly when the latch gets set; the level is completed either way |
| Round.NextLevelEffect | my-app/components/EmailSpotGame.tsx:42-50 | the next level empties selection and markers, clears the easy choice and the completion flag, and adds 1 to the level index; score, lives, mode and sounds are unchanged |
| Round.ResetEffect | my-app/components/EmailSpotGame.tsx:255-262 | reset empties selection and markers, zeroes the score, restores `maxLives` lives and clears the latch without playing a sound; mode, level index, completion flag and easy choice are kept |
| Round.ApplyGameOverCue | my-app/components/EmailSpotGame.tsx:246-252 | any event except reset only appends sounds, never clears the latch, and plays the game-over sound exactly when it sets the latch |
| Round.GameOverCueOnce | my-app/components/EmailSpotGame.tsx:246-250 | over any reset-free run of events the game-over sound plays once if the latch went from clear to set, and otherwise not at all |
| Round.GameOverCueNotRepeated | my-app/components/EmailSpotGame.tsx:75 | once the latch is set, no further events before a reset play the game-over sound |
| SpotGame.Game.constructor | my-app/components/EmailSpotGame.tsx:19-75 | mounting yields the initial state of the round and the invariant |
| SpotGame.Game.PlaySound | my-app/components/EmailSpotGame.tsx:100-113 | a sound request appends one cue and changes nothing else |
| SpotGame.Game.PushFeedback | my-app/components/EmailSpotGame.tsx:116-119 | one marker with the counter's id is appended and the counter advances |
| SpotGame.Game.ExpireFeedback | my-app/components/EmailSpotGame.tsx:122-124 | the timer callback leaves the state `Round.Expire` gives and keeps the invariant |
| SpotGame.Game.GameOverEffect | my-app/components/EmailSpotGame.tsx:246-252 | with lives gone and the latch clear, plays the game-over sound and sets the latch; otherwise changes nothing |
| SpotGame.Game.HandleTokenClick | my-app/components/EmailSpotGame.tsx:128-152 | the field-by-field click handler reaches the state `Round.Click` gives and keeps the invariant |
| SpotGame.Game.HandleEasyChoice | my-app/components/EmailSpotGame.tsx:159-196 | the verdict handler reaches the state `Round.Choose` gives and keeps the invariant |
| SpotGame.Game.OnNextLevel | my-app/components/EmailSpotGame.tsx:42-52 | the next-level handler reaches the state `Round.NextLevel` gives and keeps the invariant |
| SpotGame.Game.ResetGame | my-app/components/EmailSpotGame.tsx:255-262 | the reset handler reaches the state `Round.Reset` gives and keeps the invariant |
| SpotGame.Game.SetMode | my-app/components/EmailSpotGame.tsx:405-422 | the mode buttons change the mode only |
| Annotator.Toggle | my-app/components/EmailAnnotator.tsx:24-29 | toggling flips the membership of `idx` and keeps every other index's membership |
| Annotator.ToggleTwice | my-app/components/EmailAnnotator.tsx:24-29 | toggling the same index twice restores the selection |
| Annotator.Score | my-app/components/EmailAnnotator.tsx:33-42 | the counting loops give `correct` = selected indices in the truth set, `incorrect` = selected indices outside it, with `correct + incorrect` = selection size, and `missed` = unselected entries of the ground-truth list, counted per entry |
| Annotator.Missed | my-app/components/EmailAnnotator.tsx:41-42 | the miss count is at most the length of the ground-truth list, and zero exactly when every listed index is selected |
| Annotator.HitsPlusMissed | my-app/components/EmailAnnotator.tsx:41-42 | with no duplicates in the ground-truth list, `correct + missed` is the length of the list |
| Annotator.Annotator.constructor | my-app/components/EmailAnnotator.tsx:10-20 | the annotator starts with no selection and no feedback |
| Annotator.Annotator.ToggleToken | my-app/components/EmailAnnotator.tsx:22-30 | `toggle` clears the feedback and flips one index of the selection |
| Annotator.Annotator.Submit | my-app/components/EmailAnnotator.tsx:32-46 | `submit` keeps the selection, shows the counts, and hands the same counts to `onSubmit` |
| Annotator.Annotator.ResetSelection | my-app/components/EmailAnnotator.tsx:87-91 | the reset button empties the selection and clears the feedback |

## Left out

- Rendering: the JSX markup, inline CSS keyframes, the magnifier cursor SVG,
  the cursor toggle and the mouse and touch listeners. They are presentation
  only.
- Audio elements, preloading and `playSound`'s swallowed promise failures.
  Sounds are a log of requested cues. `muted` is never set to true in the
  component, so every request is logged.
- `setTimeout`. Marker expiry is an explicit event carrying the marker's id,
  and it can arrive at any time. The message-clear timers are not modelled.
- Marker ids from `Date.now()` and `Math.random()`. They are replaced by a
  counter, so an id is fresh by construction. Random ids could collide; a
  counter cannot.
- The `msg` strings. Only the numeric deltas are modelled. The easy-mode
  messages say "+20" and "-10", but the score changes by +10 and -5.
- Coordinates are integers. The browser gives floating-point pixels. They
  are only carried into markers.
- `maxLives` is an integer. A non-integer prop is not modelled.
- Props are fixed for the life of a mounted component (`const` fields, one
  `Props` value per run of events); the only caller passes constants. A
  parent re-rendering with a new `text`, ground truth or `maxLives` would
  get new tokens and truth set while keeping the old `selected` and `lives`,
  so the invariant's "selection within the tokens" and "lives at most
  `maxLives`" are not promised across such a change.
- React scheduling: each handler is one atomic step, and batching and
  stale `useCallback` closures are not modelled.
- Tokens are sequences of Unicode scalar values. JavaScript strings are
  UTF-16 code units. Every `\s` character is a single code unit, so the
  token boundaries are the same.
- `onSubmit` is optional. The model records every submission whether or not
  a callback is given.
- The level catalogue (`my-app/services/levels.ts`), the pages under
  `my-app/app/` and `homepage-app/src/App.js` are static content, routing and
  a demo. Keyword ground truth in the catalogue is not consumed by any code,
  so no matcher is modelled. Loading the next level's content is unwritten
  in the component.
