/** The round state of the phishing-spotting game (`EmailSpotGame`) as a value,
    and each handler of the component as a transition on that value. The
    class `SpotGame.Game` performs the same updates field by field and is
    proved against these functions; the properties of the game are proved
    here, once, about the functions. */
module Round {
  import T = Tokenizer
  import opened Optional
  import opened GroundTruth

  datatype Mode = Easy | Hard
  datatype Verdict = Phishing | Legit
  datatype FeedbackKind = Correct | Wrong

  /** A floating "+10" / "-5" marker at viewport coordinates. Its id comes
      from a counter, so that freshness is provable. */
  datatype Feedback = Feedback(id: nat, x: int, y: int, kind: FeedbackKind, caption: string)

  /** The sounds the component asks to play, in order. */
  datatype Cue = BingoCue | WrongCue | GameOverCue

  /** The component's props: the email text, the ground-truth token indices
      (default `[]`) and the number of lives (default 5). */
  datatype Props = Props(text: string, groundTruthIndices: seq<int>, maxLives: int)

  const Reward: int := 10
  const Penalty: int := 5

  /** The component's state: its `useState` values, the feedback list, the
      counter standing for the random feedback ids, the `gameoverPlayedRef`
      latch, and the log of played sounds. */
  datatype State = State(
    selected: set<int>,
    score: int,
    lives: int,
    mode: Mode,
    easyChoice: Option<Verdict>,
    levelCompleted: bool,
    levelIndex: int,
    feedbacks: seq<Feedback>,
    nextId: nat,
    gameoverPlayed: bool,
    cues: seq<Cue>)

  function Tokens(p: Props): seq<string> {
    T.Tokenize(p.text)
  }

  /** The easy-mode heuristic: an email with any ground-truth index is
      phishing. */
  predicate IsPhishing(p: Props): (b: bool)
    ensures b <==> TruthSet(p.groundTruthIndices) != {}
  {
    assert |p.groundTruthIndices| > 0 ==> p.groundTruthIndices[0] in TruthSet(p.groundTruthIndices);
    |p.groundTruthIndices| > 0
  }

  /** `Math.max(0, x)` */
  function Max0(x: int): (r: int)
    ensures r >= 0 && r >= x && (r == 0 || r == x)
  {
    if x < 0 then 0 else x
  }

  // ---------------------------------------------------------------------
  // Feedback list

  predicate IdsIncreasing(fs: seq<Feedback>) {
    forall i, j :: 0 <= i < j < |fs| ==> fs[i].id < fs[j].id
  }

  predicate IdsBelow(fs: seq<Feedback>, n: nat) {
    forall i :: 0 <= i < |fs| ==> fs[i].id < n
  }

  /** `pushFeedback`: append one marker with the next id. */
  function PushFeedback(s: State, x: int, y: int, kind: FeedbackKind, caption: string): (r: State)
    ensures r.(feedbacks := s.feedbacks, nextId := s.nextId) == s
    ensures |r.feedbacks| == |s.feedbacks| + 1 && r.feedbacks[..|s.feedbacks|] == s.feedbacks
    ensures r.feedbacks[|s.feedbacks|].kind == kind && r.feedbacks[|s.feedbacks|].caption == caption
    ensures IdsIncreasing(s.feedbacks) && IdsBelow(s.feedbacks, s.nextId) ==>
              IdsIncreasing(r.feedbacks) && IdsBelow(r.feedbacks, r.nextId)
  {
    s.(feedbacks := s.feedbacks + [Feedback(s.nextId, x, y, kind, caption)], nextId := s.nextId + 1)
  }

  /** `arr.filter((f) => f.id !== id)` */
  function WithoutId(fs: seq<Feedback>, id: nat): (r: seq<Feedback>)
    ensures forall f :: f in r ==> f in fs && f.id != id
    ensures forall f :: f in fs && f.id != id ==> f in r
    ensures |r| <= |fs|
  {
    if fs == [] then []
    else if fs[0].id == id then WithoutId(fs[1..], id)
    else [fs[0]] + WithoutId(fs[1..], id)
  }

  /** The timed removal of the marker with id `id`. */
  function Expire(s: State, id: nat): (r: State)
    ensures r.(feedbacks := s.feedbacks) == s
    ensures forall f :: f in r.feedbacks ==> f in s.feedbacks && f.id != id
    ensures |r.feedbacks| <= |s.feedbacks|
  {
    s.(feedbacks := WithoutId(s.feedbacks, id))
  }

  // ---------------------------------------------------------------------
  // The game-over cue

  /** The effect body: play the game-over sound once and set the latch. */
  function GameOverEffect(s: State): (r: State)
    ensures s.gameoverPlayed ==> r == s
    ensures r.gameoverPlayed <==> s.gameoverPlayed || s.lives <= 0
    ensures r.cues == s.cues + (if r.gameoverPlayed && !s.gameoverPlayed then [GameOverCue] else [])
    ensures r.(cues := s.cues, gameoverPlayed := s.gameoverPlayed) == s
  {
    if s.lives <= 0 && !s.gameoverPlayed then
      s.(cues := s.cues + [GameOverCue], gameoverPlayed := true)
    else s
  }

  /** After a handler: the effect depends on `lives`, so it runs only when
      `lives` differs from its value before the handler. */
  function Commit(livesBefore: int, s: State): (r: State)
    ensures s.lives == livesBefore ==> r == s
    ensures s.lives != livesBefore && s.lives <= 0 ==> r.gameoverPlayed
    ensures r.gameoverPlayed ==> s.gameoverPlayed || s.lives <= 0
    ensures r.(cues := s.cues, gameoverPlayed := s.gameoverPlayed) == s
  {
    if s.lives != livesBefore then GameOverEffect(s) else s
  }

  // ---------------------------------------------------------------------
  // Handlers

  /** The first render: hard mode, nothing selected, full lives; the effect
      runs once on mount. */
  function Initial(p: Props): (r: State)
    ensures Valid(p, r)
    ensures r.score == 0 && r.lives == p.maxLives && r.selected == {} && r.feedbacks == [] && r.mode == Hard
    ensures !r.levelCompleted && r.levelIndex == 0 && r.easyChoice == None && r.nextId == 0
    ensures r.gameoverPlayed <==> p.maxLives <= 0
    ensures r.cues == if p.maxLives <= 0 then [GameOverCue] else []
  {
    GameOverEffect(State({}, 0, p.maxLives, Hard, None, false, 0, [], 0, false, []))
  }

  /** `handleTokenClick(idx)`: only rendered tokens are clickable, and only in
      hard mode. */
  function Click(p: Props, s: State, idx: int, x: int, y: int): (r: State)
    requires s.mode == Hard && 0 <= idx < |Tokens(p)|
    ensures r == s || (s.lives > 0 && idx !in s.selected && r.selected == s.selected + {idx})
    ensures r.mode == s.mode && r.easyChoice == s.easyChoice
    ensures r.levelCompleted == s.levelCompleted && r.levelIndex == s.levelIndex
    ensures Valid(p, s) ==> Valid(p, r)
  {
    if s.lives <= 0 || idx in s.selected then s
    else
      var s1 := s.(selected := s.selected + {idx});
      var s2 :=
        if idx in TruthSet(p.groundTruthIndices) then
          PushFeedback(s1.(score := s.score + Reward, cues := s.cues + [BingoCue]), x, y, Correct, "+10")
        else
          PushFeedback(s1.(lives := s.lives - 1, score := Max0(s.score - Penalty), cues := s.cues + [WrongCue]),
                       x, y, Wrong, "-5");
      Commit(s.lives, s2)
  }

  /** `handleEasyChoice(choice)`: the verdict buttons exist only in easy mode.
      The feedback appears at the centre of the reading area, `(x, y)`. */
  function Choose(p: Props, s: State, choice: Verdict, x: int, y: int): (r: State)
    requires s.mode == Easy
    ensures r == s || (s.lives > 0 && !s.levelCompleted && r.levelCompleted && r.easyChoice == None)
    ensures r.mode == s.mode && r.selected == s.selected && r.levelIndex == s.levelIndex
    ensures Valid(p, s) ==> Valid(p, r)
  {
    if s.lives <= 0 || s.levelCompleted then s
    else
      var correct := (choice == Phishing) == IsPhishing(p);
      var s1 :=
        if correct then
          PushFeedback(s.(score := s.score + Reward, cues := s.cues + [BingoCue]), x, y, Correct, "+10")
        else
          PushFeedback(s.(lives := Max0(s.lives - 1), score := Max0(s.score - Penalty), cues := s.cues + [WrongCue]),
                       x, y, Wrong, "-5");
      Commit(s.lives, s1.(levelCompleted := true, easyChoice := None))
  }

  /** `onNextLevel`: the button exists only once the level is completed. */
  function NextLevel(s: State): (r: State)
    requires s.levelCompleted
    ensures forall p :: Valid(p, s) ==> Valid(p, r)
  {
    s.(selected := {}, feedbacks := [], easyChoice := None, levelCompleted := false,
       levelIndex := s.levelIndex + 1)
  }

  /** `resetGame` */
  function Reset(p: Props, s: State): (r: State)
    ensures Valid(p, r)
  {
    Commit(s.lives, s.(selected := {}, score := 0, lives := p.maxLives, feedbacks := [], gameoverPlayed := false))
  }

  /** The Easy / Hard buttons. */
  function SetMode(s: State, m: Mode): (r: State)
    ensures r.mode == m && r.(mode := s.mode) == s
  {
    s.(mode := m)
  }

  /** `hearts`: `Array.from({ length: maxLives }, (_, i) => i < lives)`; a
      negative length counts as 0. */
  function Hearts(maxLives: int, lives: int): (h: seq<bool>)
    ensures |h| == Max0(maxLives)
  {
    seq(Max0(maxLives), i => i < lives)
  }

  // ---------------------------------------------------------------------
  // Sequences of user and timer events

  datatype Event =
    | TokenClick(idx: int, x: int, y: int)
    | EasyChoice(choice: Verdict, x: int, y: int)
    | NextLevelPressed
    | ResetPressed
    | ModePressed(mode: Mode)
    | FeedbackExpired(id: nat)

  /** Whether the control that raises the event is on screen. */
  predicate Enabled(p: Props, s: State, e: Event) {
    match e
    case TokenClick(idx, _, _) => s.mode == Hard && 0 <= idx < |Tokens(p)|
    case EasyChoice(_, _, _) => s.mode == Easy
    case NextLevelPressed => s.levelCompleted
    case _ => true
  }

  /** One event; an event whose control is not on screen cannot happen and
      changes nothing. */
  function Apply(p: Props, s: State, e: Event): (r: State)
    ensures !Enabled(p, s, e) ==> r == s
    ensures r.score != s.score || r.lives != s.lives ==> e.TokenClick? || e.EasyChoice? || e.ResetPressed?
    ensures r.mode != s.mode ==> e.ModePressed?
  {
    if !Enabled(p, s, e) then s
    else match e
      case TokenClick(idx, x, y) => Click(p, s, idx, x, y)
      case EasyChoice(c, x, y) => Choose(p, s, c, x, y)
      case NextLevelPressed => NextLevel(s)
      case ResetPressed => Reset(p, s)
      case ModePressed(m) => SetMode(s, m)
      case FeedbackExpired(id) => Expire(s, id)
  }

  function Run(p: Props, s: State, es: seq<Event>): State
    decreases |es|
  {
    if es == [] then s else Run(p, Apply(p, s, es[0]), es[1..])
  }

  // ---------------------------------------------------------------------
  // The invariant

  /** Score never negative; lives within `[0, maxLives]` (a non-positive
      `maxLives` is never changed, since every losing move needs a live);
      only rendered tokens selected; feedback ids fresh and in order; and once
      the lives are gone the game-over cue has been played. */
  predicate Valid(p: Props, s: State) {
    && s.score >= 0
    && (0 <= s.lives <= p.maxLives || s.lives == p.maxLives)
    && (forall i :: i in s.selected ==> 0 <= i < |Tokens(p)|)
    && IdsIncreasing(s.feedbacks)
    && IdsBelow(s.feedbacks, s.nextId)
    && (p.maxLives > 0 && s.lives <= 0 ==> s.gameoverPlayed)
  }

  lemma {:induction false} WithoutIdIncreasing(fs: seq<Feedback>, id: nat)
    requires IdsIncreasing(fs)
    ensures IdsIncreasing(WithoutId(fs, id))
  {
    if fs != [] {
      var rest := fs[1..];
      IncreasingTail(fs);
      WithoutIdIncreasing(rest, id);
      if fs[0].id != id {
        var r := WithoutId(rest, id);
        forall f | f in r ensures fs[0].id < f.id {
          var k :| 0 <= k < |rest| && rest[k] == f;
        }
        PrependIncreasing(fs[0], r);
      }
    }
  }

  lemma PrependIncreasing(f: Feedback, r: seq<Feedback>)
    requires IdsIncreasing(r)
    requires forall g :: g in r ==> f.id < g.id
    ensures IdsIncreasing([f] + r)
  {
    var q := [f] + r;
    forall i, j | 0 <= i < j < |q| ensures q[i].id < q[j].id {
      assert q[j] == r[j - 1];
      if i > 0 {
        assert q[i] == r[i - 1];
      }
    }
  }

  lemma ExpireValid(p: Props, s: State, id: nat)
    requires Valid(p, s)
    ensures Valid(p, Expire(s, id))
  {
    WithoutIdIncreasing(s.feedbacks, id);
    var r := WithoutId(s.feedbacks, id);
    forall i | 0 <= i < |r| ensures r[i].id < s.nextId {
      assert r[i] in r;
    }
  }

  /** Every enabled event keeps the invariant. */
  lemma ApplyValid(p: Props, s: State, e: Event)
    requires Valid(p, s)
    ensures Valid(p, Apply(p, s, e))
  {
    if Enabled(p, s, e) {
      match e
      case FeedbackExpired(id) =>
        ExpireValid(p, s, id);
      case _ =>
    }
  }

  /** Across any sequence of clicks, verdicts, level changes, resets, mode
      changes and expiries, the score stays non-negative and the lives stay in
      `[0, maxLives]`. */
  lemma {:induction false} RunValid(p: Props, s: State, es: seq<Event>)
    requires Valid(p, s)
    ensures Valid(p, Run(p, s, es))
    ensures Run(p, s, es).score >= 0
    ensures p.maxLives >= 0 ==> 0 <= Run(p, s, es).lives <= p.maxLives
    decreases |es|
  {
    if es != [] {
      ApplyValid(p, s, es[0]);
      RunValid(p, Apply(p, s, es[0]), es[1..]);
    }
  }

  /** Every state reachable from the first render is valid. */
  lemma ReachableValid(p: Props, es: seq<Event>)
    ensures Valid(p, Run(p, Initial(p), es))
  {
    RunValid(p, Initial(p), es);
  }

  // ---------------------------------------------------------------------
  // Token clicks

  /** A click is ignored once the lives are gone or when the token is already
      selected. */
  lemma ClickIgnored(p: Props, s: State, idx: int, x: int, y: int)
    requires s.mode == Hard && 0 <= idx < |Tokens(p)|
    requires s.lives <= 0 || idx in s.selected
    ensures Click(p, s, idx, x, y) == s
  {
  }

  /** An accepted click selects the token; a ground-truth token earns 10
      points, plays the bingo sound and shows a "+10" marker, any other token
      costs one life and 5 points (never below 0), plays the wrong sound and
      shows a "-5" marker. The marker gets a fresh id; the game-over sound
      follows when the click took the last life. The mode, the easy choice and
      the level are untouched. */
  lemma ClickAccepted(p: Props, s: State, idx: int, x: int, y: int)
    requires IdsBelow(s.feedbacks, s.nextId)
    requires s.mode == Hard && 0 <= idx < |Tokens(p)|
    requires s.lives > 0 && idx !in s.selected
    ensures var t := Click(p, s, idx, x, y);
      var hit := idx in p.groundTruthIndices;
      && t.selected == s.selected + {idx}
      && (hit ==> t.score == s.score + Reward && t.lives == s.lives)
      && (!hit ==> t.score == Max0(s.score - Penalty) && t.lives == s.lives - 1)
      && |t.feedbacks| == |s.feedbacks| + 1
      && t.feedbacks[..|s.feedbacks|] == s.feedbacks
      && t.feedbacks[|s.feedbacks|] ==
           (if hit then Feedback(s.nextId, x, y, Correct, "+10") else Feedback(s.nextId, x, y, Wrong, "-5"))
      && (forall f :: f in s.feedbacks ==> f.id != t.feedbacks[|s.feedbacks|].id)
      && t.nextId == s.nextId + 1
      && (t.gameoverPlayed <==> s.gameoverPlayed || t.lives <= 0)
      && t.cues == s.cues + [if hit then BingoCue else WrongCue]
                   + (if t.gameoverPlayed && !s.gameoverPlayed then [GameOverCue] else [])
      && t.mode == s.mode && t.easyChoice == s.easyChoice
      && t.levelCompleted == s.levelCompleted && t.levelIndex == s.levelIndex
  {
    var t := Click(p, s, idx, x, y);
    forall f | f in s.feedbacks ensures f.id != t.feedbacks[|s.feedbacks|].id {
      var k :| 0 <= k < |s.feedbacks| && s.feedbacks[k] == f;
    }
  }

  /** Clicking the same token twice has the effect of clicking it once. */
  lemma ClickIdempotent(p: Props, s: State, idx: int, x: int, y: int, x': int, y': int)
    requires s.mode == Hard && 0 <= idx < |Tokens(p)|
    ensures Click(p, Click(p, s, idx, x, y), idx, x', y') == Click(p, s, idx, x, y)
  {
    var t := Click(p, s, idx, x, y);
    assert t.lives <= 0 || idx in t.selected;
  }

  /** Token clicks are not events of easy mode: a click there changes nothing. */
  lemma ClickUnreachableInEasyMode(p: Props, s: State, idx: int, x: int, y: int)
    requires s.mode == Easy
    ensures Apply(p, s, TokenClick(idx, x, y)) == s
  {
  }

  // ---------------------------------------------------------------------
  // Easy-mode verdicts

  /** A verdict is ignored once the lives are gone or the level is done. */
  lemma ChooseIgnored(p: Props, s: State, choice: Verdict, x: int, y: int)
    requires s.mode == Easy
    requires s.lives <= 0 || s.levelCompleted
    ensures Choose(p, s, choice, x, y) == s
  {
  }

  /** A judged verdict is correct exactly when "phishing" was picked for an
      email with ground truth, or "legit" for one without. A correct verdict
      earns 10 points, plays the bingo sound and shows a "+10" marker; a wrong
      one costs a life and 5 points, neither going below 0, plays the wrong
      sound and shows a "-5" marker. The marker gets a fresh id; the game-over
      sound follows when the verdict took the last life. Either way the level
      is completed. */
  lemma ChooseJudged(p: Props, s: State, choice: Verdict, x: int, y: int)
    requires IdsBelow(s.feedbacks, s.nextId)
    requires s.mode == Easy && s.lives > 0 && !s.levelCompleted
    ensures var t := Choose(p, s, choice, x, y);
      var correct := (choice == Phishing) == (|p.groundTruthIndices| > 0);
      && t.levelCompleted && t.easyChoice == None
      && t.selected == s.selected && t.levelIndex == s.levelIndex && t.mode == s.mode
      && (correct ==> t.score == s.score + Reward && t.lives == s.lives)
      && (!correct ==> t.score == Max0(s.score - Penalty) && t.lives == Max0(s.lives - 1))
      && |t.feedbacks| == |s.feedbacks| + 1
      && t.feedbacks[..|s.feedbacks|] == s.feedbacks
      && t.feedbacks[|s.feedbacks|] ==
           (if correct then Feedback(s.nextId, x, y, Correct, "+10") else Feedback(s.nextId, x, y, Wrong, "-5"))
      && (forall f :: f in s.feedbacks ==> f.id != t.feedbacks[|s.feedbacks|].id)
      && t.nextId == s.nextId + 1
      && (t.gameoverPlayed <==> s.gameoverPlayed || t.lives <= 0)
      && t.cues == s.cues + [if correct then BingoCue else WrongCue]
                   + (if t.gameoverPlayed && !s.gameoverPlayed then [GameOverCue] else [])
  {
    var t := Choose(p, s, choice, x, y);
    forall f | f in s.feedbacks ensures f.id != t.feedbacks[|s.feedbacks|].id {
      var k :| 0 <= k < |s.feedbacks| && s.feedbacks[k] == f;
    }
  }

  // ---------------------------------------------------------------------
  // Level change and reset

  /** The next level starts with nothing selected, no markers and the level
      not completed, one index further; score, lives and mode carry over. */
  lemma NextLevelEffect(s: State)
    requires s.levelCompleted
    ensures var t := NextLevel(s);
      && t.selected == {} && t.feedbacks == [] && t.easyChoice == None
      && !t.levelCompleted && t.levelIndex == s.levelIndex + 1
      && t.score == s.score && t.lives == s.lives && t.mode == s.mode
      && t.gameoverPlayed == s.gameoverPlayed && t.cues == s.cues
  {
  }

  /** Reset empties the selection and the markers, zeroes the score, restores
      the lives and re-arms the game-over latch without playing anything. The
      mode, the level index and the completion flag are left as they were. */
  lemma ResetEffect(p: Props, s: State)
    requires Valid(p, s)
    ensures var t := Reset(p, s);
      && t.selected == {} && t.score == 0 && t.lives == p.maxLives && t.feedbacks == []
      && !t.gameoverPlayed && t.cues == s.cues
      && t.mode == s.mode && t.levelIndex == s.levelIndex && t.levelCompleted == s.levelCompleted
      && t.easyChoice == s.easyChoice
  {
  }

  // ---------------------------------------------------------------------
  // Feedback markers

  /** Expiry removes exactly the marker with that id and keeps the others in
      order. */
  lemma {:induction false} ExpireRemovesOnly(fs: seq<Feedback>, k: nat)
    requires IdsIncreasing(fs) && k < |fs|
    ensures WithoutId(fs, fs[k].id) == fs[..k] + fs[k + 1..]
  {
    var rest := fs[1..];
    var id := fs[k].id;
    IncreasingTail(fs);
    if k == 0 {
      ExpireMissing(rest, id);
      assert fs[..0] + fs[1..] == rest;
    } else {
      assert rest[k - 1] == fs[k];
      ExpireRemovesOnly(rest, k - 1);
      var r := WithoutId(rest, id);
      assert r == rest[..k - 1] + rest[k..];
      assert fs[0].id != id by {
        assert fs[0].id < fs[k].id;
      }
      assert WithoutId(fs, id) == [fs[0]] + r;
      SplitAround(fs, k);
    }
  }

  lemma SplitAround(fs: seq<Feedback>, k: nat)
    requires 0 < k < |fs|
    ensures fs[..k] + fs[k + 1..] == [fs[0]] + (fs[1..][..k - 1] + fs[1..][k..])
  {
    assert fs[..k] == [fs[0]] + fs[1..][..k - 1];
    assert fs[k + 1..] == fs[1..][k..];
  }

  lemma IncreasingTail(fs: seq<Feedback>)
    requires IdsIncreasing(fs) && fs != []
    ensures IdsIncreasing(fs[1..])
    ensures forall i :: 0 <= i < |fs| - 1 ==> fs[1..][i].id > fs[0].id
  {
    var rest := fs[1..];
    forall i, j | 0 <= i < j < |rest| ensures rest[i].id < rest[j].id {
      assert rest[i] == fs[i + 1] && rest[j] == fs[j + 1];
    }
    forall i | 0 <= i < |rest| ensures rest[i].id > fs[0].id {
      assert rest[i] == fs[i + 1];
    }
  }

  /** Expiring an id that no marker carries changes nothing. */
  lemma {:induction false} ExpireMissing(fs: seq<Feedback>, id: nat)
    requires forall i :: 0 <= i < |fs| ==> fs[i].id != id
    ensures WithoutId(fs, id) == fs
  {
    if fs != [] {
      ExpireMissing(fs[1..], id);
      assert [fs[0]] + fs[1..] == fs;
    }
  }

  // ---------------------------------------------------------------------
  // The game-over cue

  function GameOverCount(cues: seq<Cue>): nat {
    if cues == [] then 0
    else GameOverCount(cues[..|cues| - 1]) + (if cues[|cues| - 1] == GameOverCue then 1 else 0)
  }

  lemma GameOverCountAppend(cues: seq<Cue>, c: Cue)
    ensures GameOverCount(cues + [c]) == GameOverCount(cues) + (if c == GameOverCue then 1 else 0)
  {
    assert (cues + [c])[..|cues|] == cues;
  }

  /** Apart from a reset, an event plays the game-over sound exactly when it
      sets the latch, and never clears the latch: new sounds are only
      appended. */
  lemma ApplyGameOverCue(p: Props, s: State, e: Event)
    requires !e.ResetPressed?
    ensures var t := Apply(p, s, e);
      && s.cues <= t.cues
      && (s.gameoverPlayed ==> t.gameoverPlayed)
      && GameOverCount(t.cues) == GameOverCount(s.cues) + (if t.gameoverPlayed && !s.gameoverPlayed then 1 else 0)
  {
    if Enabled(p, s, e) {
      match e
      case TokenClick(idx, x, y) =>
        ClickGameOverCue(p, s, idx, x, y);
      case EasyChoice(choice, x, y) =>
        ChooseGameOverCue(p, s, choice, x, y);
      case _ =>
    }
  }

  lemma ClickGameOverCue(p: Props, s: State, idx: int, x: int, y: int)
    requires s.mode == Hard && 0 <= idx < |Tokens(p)|
    ensures var t := Click(p, s, idx, x, y);
      && s.cues <= t.cues
      && (s.gameoverPlayed ==> t.gameoverPlayed)
      && GameOverCount(t.cues) == GameOverCount(s.cues) + (if t.gameoverPlayed && !s.gameoverPlayed then 1 else 0)
  {
    if s.lives > 0 && idx !in s.selected {
      var s1 := s.(selected := s.selected + {idx});
      if idx in TruthSet(p.groundTruthIndices) {
        CommitCue(s.lives, s,
          PushFeedback(s1.(score := s.score + Reward, cues := s.cues + [BingoCue]), x, y, Correct, "+10"),
          BingoCue);
      } else {
        CommitCue(s.lives, s,
          PushFeedback(s1.(lives := s.lives - 1, score := Max0(s.score - Penalty), cues := s.cues + [WrongCue]),
                       x, y, Wrong, "-5"),
          WrongCue);
      }
    }
  }

  lemma ChooseGameOverCue(p: Props, s: State, choice: Verdict, x: int, y: int)
    requires s.mode == Easy
    ensures var t := Choose(p, s, choice, x, y);
      && s.cues <= t.cues
      && (s.gameoverPlayed ==> t.gameoverPlayed)
      && GameOverCount(t.cues) == GameOverCount(s.cues) + (if t.gameoverPlayed && !s.gameoverPlayed then 1 else 0)
  {
    if s.lives > 0 && !s.levelCompleted {
      if (choice == Phishing) == IsPhishing(p) {
        CommitCue(s.lives, s,
          PushFeedback(s.(score := s.score + Reward, cues := s.cues + [BingoCue]), x, y, Correct, "+10")
            .(levelCompleted := true, easyChoice := None),
          BingoCue);
      } else {
        CommitCue(s.lives, s,
          PushFeedback(s.(lives := Max0(s.lives - 1), score := Max0(s.score - Penalty), cues := s.cues + [WrongCue]),
                       x, y, Wrong, "-5").(levelCompleted := true, easyChoice := None),
          WrongCue);
      }
    }
  }

  /** A handler that requested one ordinary sound and then let the effect
      run. */
  lemma CommitCue(livesBefore: int, s: State, s2: State, c: Cue)
    requires c != GameOverCue
    requires s2.cues == s.cues + [c] && s2.gameoverPlayed == s.gameoverPlayed
    ensures var t := Commit(livesBefore, s2);
      && s.cues <= t.cues
      && (s.gameoverPlayed ==> t.gameoverPlayed)
      && GameOverCount(t.cues) == GameOverCount(s.cues) + (if t.gameoverPlayed && !s.gameoverPlayed then 1 else 0)
  {
    GameOverCountAppend(s.cues, c);
    var t := Commit(livesBefore, s2);
    if t.gameoverPlayed && !s.gameoverPlayed {
      assert t.cues == s.cues + [c] + [GameOverCue];
      GameOverCountAppend(s.cues + [c], GameOverCue);
    }
  }

  /** Between two resets the game-over sound plays at most once: exactly once
      if the latch went from clear to set, and not at all otherwise. */
  lemma {:induction false} GameOverCueOnce(p: Props, s: State, es: seq<Event>)
    requires forall k :: 0 <= k < |es| ==> !es[k].ResetPressed?
    ensures var t := Run(p, s, es);
      && s.cues <= t.cues
      && (s.gameoverPlayed ==> t.gameoverPlayed)
      && GameOverCount(t.cues) == GameOverCount(s.cues) + (if t.gameoverPlayed && !s.gameoverPlayed then 1 else 0)
    decreases |es|
  {
    if es != [] {
      var s1 := Apply(p, s, es[0]);
      ApplyGameOverCue(p, s, es[0]);
      GameOverCueOnce(p, s1, es[1..]);
    }
  }

  /** Once the latch is set (and until a reset), nothing plays the cue again,
      however many further events arrive. */
  lemma GameOverCueNotRepeated(p: Props, s: State, es: seq<Event>)
    requires s.gameoverPlayed
    requires forall k :: 0 <= k < |es| ==> !es[k].ResetPressed?
    ensures GameOverCount(Run(p, s, es).cues) == GameOverCount(s.cues)
  {
    GameOverCueOnce(p, s, es);
  }

  // ---------------------------------------------------------------------
  // Hearts

  function CountTrue(h: seq<bool>): nat {
    if h == [] then 0 else CountTrue(h[..|h| - 1]) + (if h[|h| - 1] then 1 else 0)
  }

  /** With lives in range there are `maxLives` hearts, the first `lives` of
      them full and the rest empty. */
  lemma {:induction false} HeartsShape(maxLives: int, lives: int)
    requires 0 <= lives <= maxLives
    ensures var h := Hearts(maxLives, lives);
      && |h| == maxLives
      && CountTrue(h) == lives
      && (forall i :: 0 <= i < |h| ==> (h[i] <==> i < lives))
    decreases maxLives
  {
    var h := Hearts(maxLives, lives);
    if maxLives > 0 {
      if lives == maxLives {
        HeartsShape(maxLives - 1, lives - 1);
        var g := Hearts(maxLives - 1, lives - 1);
        assert h[..maxLives - 1] == g;
      } else {
        HeartsShape(maxLives - 1, lives);
        assert h[..maxLives - 1] == Hearts(maxLives - 1, lives);
      }
    }
  }
}
