/** The `EmailSpotGame` component as an object: its state values are fields,
    and each handler updates them step by step in the order the component
    does. Every method except `PlaySound` is proved to land on the state the
    matching `Round` function describes, and each handler also to keep
    `Round.Valid`. */
module SpotGame {
  import R = Round
  import opened Optional
  import opened GroundTruth

  class Game {
    const props: R.Props
    /** `useMemo` over the text and over the ground-truth list. */
    const tokens: seq<string>
    const truthSet: set<int>

    var selected: set<int>
    var score: int
    var lives: int
    var mode: R.Mode
    var easyChoice: Option<R.Verdict>
    var levelCompleted: bool
    var levelIndex: int
    var feedbacks: seq<R.Feedback>
    /** Stands for the `Date.now()` / `Math.random()` feedback ids. */
    var nextId: nat
    /** `gameoverPlayedRef.current` */
    var gameoverPlayed: bool
    /** Every sound requested so far. */
    var cues: seq<R.Cue>

    /** The fields as a `Round.State` value. */
    function Snapshot(): R.State
      reads this
    {
      R.State(selected, score, lives, mode, easyChoice, levelCompleted, levelIndex,
              feedbacks, nextId, gameoverPlayed, cues)
    }

    ghost predicate Valid()
      reads this
    {
      tokens == R.Tokens(props) && truthSet == TruthSet(props.groundTruthIndices) && R.Valid(props, Snapshot())
    }

    /** Mounting the component: initial state, then the lives effect once. */
    constructor (text: string, groundTruthIndices: seq<int>, maxLives: int)
      ensures props == R.Props(text, groundTruthIndices, maxLives)
      ensures Valid()
      ensures Snapshot() == R.Initial(props)
    {
      props := R.Props(text, groundTruthIndices, maxLives);
      tokens := R.Tokens(R.Props(text, groundTruthIndices, maxLives));
      truthSet := set i | i in groundTruthIndices;
      selected := {};
      score := 0;
      lives := maxLives;
      mode := R.Hard;
      easyChoice := None;
      levelCompleted := false;
      levelIndex := 0;
      feedbacks := [];
      nextId := 0;
      gameoverPlayed := false;
      cues := [];
      new;
      GameOverEffect();
    }

    /** `playSound(key)`; the component is never muted. */
    method PlaySound(c: R.Cue)
      modifies this
      ensures Snapshot() == old(Snapshot()).(cues := old(cues) + [c])
    {
      cues := cues + [c];
    }

    /** `pushFeedback(x, y, kind, caption)` */
    method PushFeedback(x: int, y: int, kind: R.FeedbackKind, caption: string)
      modifies this
      ensures Snapshot() == R.PushFeedback(old(Snapshot()), x, y, kind, caption)
    {
      feedbacks := feedbacks + [R.Feedback(nextId, x, y, kind, caption)];
      nextId := nextId + 1;
    }

    /** The timer callback of `pushFeedback`: drop the marker with that id. */
    method ExpireFeedback(id: nat)
      requires Valid()
      modifies this
      ensures Valid()
      ensures Snapshot() == R.Expire(old(Snapshot()), id)
    {
      ghost var s0 := Snapshot();
      feedbacks := R.WithoutId(feedbacks, id);
      R.ExpireValid(props, s0, id);
    }

    /** The effect on `lives`: play the game-over sound once and latch. */
    method GameOverEffect()
      modifies this
      ensures Snapshot() == R.GameOverEffect(old(Snapshot()))
    {
      if lives <= 0 && !gameoverPlayed {
        PlaySound(R.GameOverCue);
        gameoverPlayed := true;
      }
    }

    /** `handleTokenClick(idx, e)`, reachable only from a rendered token in
        hard mode. */
    method HandleTokenClick(idx: int, x: int, y: int)
      requires Valid()
      requires mode == R.Hard && 0 <= idx < |tokens|
      modifies this
      ensures Valid()
      ensures Snapshot() == R.Click(props, old(Snapshot()), idx, x, y)
    {
      if lives <= 0 {
        return;
      }
      if idx in selected {
        return;
      }
      var livesBefore := lives;
      selected := selected + {idx};
      if idx in truthSet {
        score := score + R.Reward;
        PlaySound(R.BingoCue);
        PushFeedback(x, y, R.Correct, "+10");
      } else {
        lives := lives - 1;
        score := R.Max0(score - R.Penalty);
        PlaySound(R.WrongCue);
        PushFeedback(x, y, R.Wrong, "-5");
      }
      if lives != livesBefore {
        GameOverEffect();
      }
    }

    /** `handleEasyChoice(choice)`, reachable only in easy mode; `(x, y)` is
        the centre of the reading area. */
    method HandleEasyChoice(choice: R.Verdict, x: int, y: int)
      requires Valid()
      requires mode == R.Easy
      modifies this
      ensures Valid()
      ensures Snapshot() == R.Choose(props, old(Snapshot()), choice, x, y)
    {
      if lives <= 0 || levelCompleted {
        return;
      }
      var livesBefore := lives;
      var isPhishing := |props.groundTruthIndices| > 0;
      var pickedPhishing := choice == R.Phishing;
      var correct := pickedPhishing == isPhishing;
      if correct {
        score := score + R.Reward;
        PlaySound(R.BingoCue);
        PushFeedback(x, y, R.Correct, "+10");
      } else {
        lives := R.Max0(lives - 1);
        score := R.Max0(score - R.Penalty);
        PlaySound(R.WrongCue);
        PushFeedback(x, y, R.Wrong, "-5");
      }
      levelCompleted := true;
      easyChoice := None;
      ghost var s1 := Snapshot();
      if lives != livesBefore {
        GameOverEffect();
      }
      assert Snapshot() == R.Commit(livesBefore, s1);
    }

    /** `onNextLevel`, reachable only once the level is completed. */
    method OnNextLevel()
      requires Valid()
      requires levelCompleted
      modifies this
      ensures Valid()
      ensures Snapshot() == R.NextLevel(old(Snapshot()))
    {
      selected := {};
      feedbacks := [];
      easyChoice := None;
      levelCompleted := false;
      levelIndex := levelIndex + 1;
    }

    /** `resetGame` */
    method ResetGame()
      requires Valid()
      modifies this
      ensures Valid()
      ensures Snapshot() == R.Reset(props, old(Snapshot()))
    {
      var livesBefore := lives;
      selected := {};
      score := 0;
      lives := props.maxLives;
      feedbacks := [];
      gameoverPlayed := false;
      if lives != livesBefore {
        GameOverEffect();
      }
    }

    /** The Easy and Hard buttons. */
    method SetMode(m: R.Mode)
      requires Valid()
      modifies this
      ensures Valid()
      ensures Snapshot() == R.SetMode(old(Snapshot()), m)
    {
      mode := m;
    }
  }
}
