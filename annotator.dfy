/** The `EmailAnnotator` component: tokens are toggled in and out of a
    selection, and a submission counts hits, false flags and misses against
    the ground-truth index list. */
module Annotator {
  import T = Tokenizer
  import opened Optional
  import opened GroundTruth

  /** The three counts `submit` reports. */
  datatype Tally = Tally(correct: nat, incorrect: nat, missed: nat)

  /** The selection after `toggle(idx)`: `idx` flips, every other index keeps
      its membership. */
  function Toggle(selected: set<int>, idx: int): (r: set<int>)
    ensures idx in r <==> idx !in selected
    ensures forall i :: i != idx ==> (i in r <==> i in selected)
  {
    if idx in selected then selected - {idx} else selected + {idx}
  }

  /** Toggling the same index twice restores the selection. */
  lemma ToggleTwice(selected: set<int>, idx: int)
    ensures Toggle(Toggle(selected, idx), idx) == selected
  {
  }

  /** Entries of the ground-truth list that are not selected, counted per
      entry: an index listed twice and not selected is missed twice. */
  function Missed(groundTruthIndices: seq<int>, selected: set<int>): (r: nat)
    ensures r <= |groundTruthIndices|
    ensures r == 0 <==> forall i :: 0 <= i < |groundTruthIndices| ==> groundTruthIndices[i] in selected
  {
    if groundTruthIndices == [] then 0
    else
      var last := |groundTruthIndices| - 1;
      Missed(groundTruthIndices[..last], selected) + (if groundTruthIndices[last] in selected then 0 else 1)
  }

  predicate NoDuplicates(s: seq<int>) {
    forall i, j :: 0 <= i < j < |s| ==> s[i] != s[j]
  }

  /** Adding one fresh element to a set adds one to whichever side of the
      split by `truth` it falls on. */
  lemma CountStep(done: set<int>, truth: set<int>, x: int)
    requires x !in done
    ensures |(done + {x}) * truth| == |done * truth| + (if x in truth then 1 else 0)
    ensures |(done + {x}) - truth| == |done - truth| + (if x in truth then 0 else 1)
  {
    if x in truth {
      assert (done + {x}) * truth == done * truth + {x};
      assert (done + {x}) - truth == done - truth;
    } else {
      assert (done + {x}) * truth == done * truth;
      assert (done + {x}) - truth == (done - truth) + {x};
    }
  }

  lemma HasElement(a: set<int>)
    requires a != {}
    ensures exists x :: x in a
  {
    if forall x :: x !in a {
      assert false;
    }
  }

  lemma SplitSize(a: set<int>, truth: set<int>)
    ensures |a * truth| + |a - truth| == |a|
  {
    assert a == (a * truth) + (a - truth);
    assert (a * truth) !! (a - truth);
  }

  lemma TruthSetSnoc(g: seq<int>)
    requires g != []
    ensures TruthSet(g) == TruthSet(g[..|g| - 1]) + {g[|g| - 1]}
  {
    var init := g[..|g| - 1];
    forall i | i in TruthSet(g) ensures i in TruthSet(init) + {g[|g| - 1]} {
      var k :| 0 <= k < |g| && g[k] == i;
      if k < |g| - 1 {
        assert init[k] == i;
      }
    }
    forall i | i in TruthSet(init) ensures i in TruthSet(g) {
      var k :| 0 <= k < |init| && init[k] == i;
      assert g[k] == i;
    }
  }

  /** One more distinct ground-truth index is one more hit if it is
      selected. */
  lemma HitStep(selected: set<int>, truth: set<int>, x: int)
    requires x !in truth
    ensures |selected * (truth + {x})| == |selected * truth| + (if x in selected then 1 else 0)
  {
    if x in selected {
      assert selected * (truth + {x}) == selected * truth + {x};
    } else {
      assert selected * (truth + {x}) == selected * truth;
    }
  }

  lemma LastIsNew(g: seq<int>)
    requires NoDuplicates(g) && g != []
    ensures NoDuplicates(g[..|g| - 1])
    ensures g[|g| - 1] !in TruthSet(g[..|g| - 1])
  {
    var init := g[..|g| - 1];
    forall i, j | 0 <= i < j < |init| ensures init[i] != init[j] {
      assert init[i] == g[i] && init[j] == g[j];
    }
    forall k | 0 <= k < |init| ensures init[k] != g[|g| - 1] {
      assert init[k] == g[k];
    }
  }

  /** When the ground-truth list has no duplicates, every entry is either hit
      or missed: hits plus misses is the length of the list. */
  lemma {:induction false} HitsPlusMissed(groundTruthIndices: seq<int>, selected: set<int>)
    requires NoDuplicates(groundTruthIndices)
    ensures |selected * TruthSet(groundTruthIndices)| + Missed(groundTruthIndices, selected) == |groundTruthIndices|
    decreases |groundTruthIndices|
  {
    var g := groundTruthIndices;
    if g != [] {
      var init := g[..|g| - 1];
      var x := g[|g| - 1];
      LastIsNew(g);
      HitsPlusMissed(init, selected);
      TruthSetSnoc(g);
      HitStep(selected, TruthSet(init), x);
    }
  }

  /** The counting loops of `submit`: `correct` and `incorrect` split the
      selection by membership in the ground truth, `missed` counts unselected
      entries of the ground-truth list. The selection is walked in whatever
      order `Array.from` gives. */
  method Score(selected: set<int>, groundTruthIndices: seq<int>) returns (t: Tally)
    ensures t.correct == |selected * TruthSet(groundTruthIndices)|
    ensures t.incorrect == |selected - TruthSet(groundTruthIndices)|
    ensures t.correct + t.incorrect == |selected|
    ensures t.missed == Missed(groundTruthIndices, selected)
  {
    var truthSet := TruthSet(groundTruthIndices);
    var correct, incorrect := 0, 0;
    var rest := selected;
    while rest != {}
      invariant rest <= selected
      invariant correct == |(selected - rest) * truthSet|
      invariant incorrect == |(selected - rest) - truthSet|
      decreases |rest|
    {
      HasElement(rest);
      var s :| s in rest;
      ghost var done := selected - rest;
      assert selected - (rest - {s}) == done + {s};
      CountStep(done, truthSet, s);
      if s in truthSet {
        correct := correct + 1;
      } else {
        incorrect := incorrect + 1;
      }
      rest := rest - {s};
    }
    assert selected - rest == selected;
    SplitSize(selected, truthSet);
    var missed := 0;
    for i := 0 to |groundTruthIndices|
      invariant missed == Missed(groundTruthIndices[..i], selected)
    {
      assert groundTruthIndices[..i + 1][..i] == groundTruthIndices[..i];
      if groundTruthIndices[i] !in selected {
        missed := missed + 1;
      }
    }
    assert groundTruthIndices[..|groundTruthIndices|] == groundTruthIndices;
    t := Tally(correct, incorrect, missed);
  }

  class Annotator {
    const text: string
    const groundTruthIndices: seq<int>
    /** `useMemo` over the text. */
    const tokens: seq<string>

    var selected: set<int>
    /** The feedback line, built from the three counts of the last submission. */
    var feedback: Option<Tally>
    /** Every result handed to `onSubmit`, in order. */
    var submissions: seq<Tally>

    ghost predicate Valid()
      reads this
    {
      tokens == T.Tokenize(text) && forall i :: i in selected ==> 0 <= i < |tokens|
    }

    constructor (text: string, groundTruthIndices: seq<int>)
      ensures Valid()
      ensures this.text == text && this.groundTruthIndices == groundTruthIndices
      ensures selected == {} && feedback == None && submissions == []
    {
      this.text := text;
      this.groundTruthIndices := groundTruthIndices;
      tokens := T.Tokenize(text);
      selected := {};
      feedback := None;
      submissions := [];
    }

    /** `toggle(idx)`, reachable from a rendered token: clears the feedback
        and flips the token's membership. */
    method ToggleToken(idx: int)
      requires Valid()
      requires 0 <= idx < |tokens|
      modifies this
      ensures Valid()
      ensures feedback == None
      ensures selected == Toggle(old(selected), idx)
      ensures submissions == old(submissions)
    {
      feedback := None;
      if idx in selected {
        selected := selected - {idx};
      } else {
        selected := selected + {idx};
      }
    }

    /** `submit`: counts, shows the counts, and hands the same counts to
        `onSubmit`; the selection is left as it is. */
    method Submit()
      requires Valid()
      modifies this
      ensures Valid()
      ensures selected == old(selected)
      ensures |submissions| == |old(submissions)| + 1
      ensures submissions[..|old(submissions)|] == old(submissions)
      ensures feedback == Some(submissions[|old(submissions)|])
      ensures var t := submissions[|old(submissions)|];
        && t.correct == |selected * TruthSet(groundTruthIndices)|
        && t.incorrect == |selected - TruthSet(groundTruthIndices)|
        && t.missed == Missed(groundTruthIndices, selected)
    {
      var t := Score(selected, groundTruthIndices);
      feedback := Some(t);
      submissions := submissions + [t];
    }

    /** The reset button. */
    method ResetSelection()
      requires Valid()
      modifies this
      ensures Valid()
      ensures selected == {} && feedback == None
      ensures submissions == old(submissions)
    {
      selected := {};
      feedback := None;
    }
  }
}
