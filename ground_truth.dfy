/** The ground truth both components score against: a list of token indices,
    turned into a set by `new Set(groundTruthIndices)`. */
module GroundTruth {
  function TruthSet(groundTruthIndices: seq<int>): (r: set<int>)
    ensures |r| <= |groundTruthIndices|
    ensures r == {} <==> groundTruthIndices == []
  {
    var r := set i | i in groundTruthIndices;
    DistinctAtMost(groundTruthIndices, r);
    assert groundTruthIndices != [] ==> groundTruthIndices[0] in r;
    r
  }

  /** A list has at most as many distinct elements as entries. */
  lemma {:induction false} DistinctAtMost(g: seq<int>, r: set<int>)
    requires forall i :: i in r <==> i in g
    ensures |r| <= |g|
    decreases |g|
  {
    if g != [] {
      var init := g[..|g| - 1];
      var front := set i | i in init;
      DistinctAtMost(init, front);
      forall i | i in r ensures i in front + {g[|g| - 1]} {
        var k :| 0 <= k < |g| && g[k] == i;
        if k < |g| - 1 {
          assert init[k] == i;
        }
      }
      var x := g[|g| - 1];
      forall i | i in front + {x} ensures i in r {
        if i in front {
          var k :| 0 <= k < |init| && init[k] == i;
          assert g[k] == i;
        } else {
          assert g[|g| - 1] == i;
        }
      }
      assert r == front + {x};
    } else {
      forall i | i in r ensures i in g {
      }
      assert r == {};
    }
  }
}
