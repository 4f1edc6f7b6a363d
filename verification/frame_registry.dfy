/** The process-wide list of frame pools in mp3/cont_frame_pool.C: every pool
    the constructor builds is appended at the tail, and the static
    release_frames finds the owner of a frame by its number alone. */
module FrameRegistry {
  import opened Common
  import opened ContFramePool

  /** No frame belongs to two pools. */
  ghost predicate Disjoint(pools: seq<Pool>) {
    forall i, j :: 0 <= i < j < |pools| ==>
      pools[i].base + |pools[i].states| <= pools[j].base
      || pools[j].base + |pools[j].states| <= pools[i].base
  }

  ghost predicate AllValid(pools: seq<Pool>) {
    forall i :: 0 <= i < |pools| ==> Valid(pools[i])
  }

  /** The constructor of a pool, together with its registration at the tail
      of the list. */
  function NewPool(pools: seq<Pool>, base: nat, nFrames: nat, infoFrame: nat,
                   nInfoFrames: nat): (r: seq<Pool>)
    requires nFrames % 8 == 0
    ensures |r| == |pools| + 1 && r[..|pools|] == pools
    ensures r[|pools|] == New(base, nFrames, infoFrame, nInfoFrames)
  {
    pools + [New(base, nFrames, infoFrame, nInfoFrames)]
  }

  /** release_frames: every pool whose range holds the frame releases it (the
      walk does not stop at the first owner); the others are untouched. */
  function ReleaseFrames(pools: seq<Pool>, frame: nat): (r: seq<Pool>)
    ensures |r| == |pools|
    ensures forall i :: 0 <= i < |pools| && !InPool(pools[i], frame) ==> r[i] == pools[i]
    ensures forall i :: 0 <= i < |pools| && InPool(pools[i], frame) ==>
              r[i] == ReleaseFrame(pools[i], frame)
  {
    if |pools| == 0 then []
    else
      var first := if InPool(pools[0], frame) then ReleaseFrame(pools[0], frame) else pools[0];
      [first] + ReleaseFrames(pools[1..], frame)
  }

  /** A frame that no pool owns is ignored. */
  lemma ReleaseUnownedFrame(pools: seq<Pool>, frame: nat)
    requires forall i :: 0 <= i < |pools| ==> !InPool(pools[i], frame)
    ensures ReleaseFrames(pools, frame) == pools
  {
  }

  /** release_frames keeps every pool's invariant. */
  lemma ReleaseFramesPreservesValid(pools: seq<Pool>, frame: nat)
    requires AllValid(pools)
    ensures AllValid(ReleaseFrames(pools, frame))
  {
    var r := ReleaseFrames(pools, frame);
    forall i | 0 <= i < |pools| ensures Valid(r[i]) {
      if InPool(pools[i], frame) {
        ReleaseFramePreservesValid(pools[i], frame);
      }
    }
  }

  /** Taking a run from one registered pool and handing its first frame back
      to the registry restores every pool exactly. */
  lemma {:induction false} GetThenReleaseFrames(pools: seq<Pool>, i: nat, n: nat)
    requires Disjoint(pools) && i < |pools| && Valid(pools[i]) && 1 <= n
    requires GetFrames(pools[i], n).frame.Some?
    ensures ReleaseFrames(pools[i := GetFrames(pools[i], n).pool],
                          GetFrames(pools[i], n).frame.value) == pools
  {
    var g := GetFrames(pools[i], n);
    var f := g.frame.value;
    var after := pools[i := g.pool];
    GetThenRelease(pools[i], n);
    var r := ReleaseFrames(after, f);
    forall j | 0 <= j < |pools| ensures r[j] == pools[j] {
      if j != i {
        assert !InPool(after[j], f) by {
          assert InPool(pools[i], f);
          if j < i {
            assert pools[j].base + |pools[j].states| <= pools[i].base
                   || pools[i].base + |pools[i].states| <= pools[j].base;
          } else {
            assert pools[i].base + |pools[i].states| <= pools[j].base
                   || pools[j].base + |pools[j].states| <= pools[i].base;
          }
        }
      }
    }
  }
}
