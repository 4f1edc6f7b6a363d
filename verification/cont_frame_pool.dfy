/** The contiguous frame allocator of mp3/cont_frame_pool.C: a pool owns the
    physical frames [base, base + nFrames), keeps one state per frame and a
    count of the Free ones, hands out runs of contiguous frames first-fit and
    takes a run back through the frame at its head. */
module ContFramePool {
  import opened Common

  /** The state of one frame. An allocated run is one Head frame followed by
      Allocated continuation frames. */
  datatype State = Free | Allocated | Head

  /** The byte the source stores for each state (one byte per frame). */
  function Code(s: State): bv8 {
    match s
    case Free => 0xFF
    case Allocated => 0x7F
    case Head => 0x3F
  }

  /** The bit tricks the source relies on: XOR with 0xC0 turns a Free byte
      into the Head byte and XOR with 0x80 into the Allocated byte; the test
      `(b & 0xC0) != 0` that guards marking admits exactly the non-Head
      states; and the release guard, which parses as `b ^ (0xFF == 0x80)`,
      that is `b ^ 0`, is true of every state. */
  lemma CodeFacts()
    ensures Code(Free) ^ 0xC0 == Code(Head)
    ensures Code(Free) ^ 0x80 == Code(Allocated)
    ensures forall s: State :: (Code(s) & 0xC0 != 0) <==> s != Head
    ensures forall s: State :: Code(s) ^ 0 != 0
  {
  }

  /** mark_inaccessible on one byte, as written: the assertion rejects a Head
      byte, and anything else is XORed with 0xC0. */
  function MarkByteAsWritten(b: bv8): (r: Option<bv8>)
    ensures r.None? <==> b & 0xC0 == 0
    ensures r.Some? ==> r.value ^ 0xC0 == b
  {
    if b & 0xC0 == 0 then None else Some(b ^ 0xC0)
  }

  /** Marking an Allocated frame passes the assertion and leaves the byte 0xBF,
      which encodes no state at all. */
  lemma MarkAllocatedByteAsWritten()
    ensures MarkByteAsWritten(Code(Allocated)) == Some(0xBF)
    ensures forall s: State :: Code(s) != 0xBF
  {
  }

  datatype Pool = Pool(base: nat, states: seq<State>, freeCount: int,
                       infoFrame: nat, nInfoFrames: nat)

  /** n frames, all in state x. */
  function Run(n: nat, x: State): (r: seq<State>)
    ensures |r| == n && forall k :: 0 <= k < n ==> r[k] == x
  {
    seq(n, _ => x)
  }

  /** The number of Free frames in a state sequence. */
  function CountFree(st: seq<State>): nat {
    if |st| == 0 then 0
    else CountFree(st[..|st| - 1]) + (if st[|st| - 1] == Free then 1 else 0)
  }

  /** The count of a concatenation is the sum of the counts. */
  lemma {:induction false} CountConcat(a: seq<State>, b: seq<State>)
    ensures CountFree(a + b) == CountFree(a) + CountFree(b)
    decreases |b|
  {
    if |b| == 0 {
      assert a + b == a;
    } else {
      assert (a + b)[..|a + b| - 1] == a + b[..|b| - 1];
      CountConcat(a, b[..|b| - 1]);
    }
  }

  /** A Free frame is counted. */
  lemma FreeCounted(st: seq<State>, k: nat)
    requires k < |st| && st[k] == Free
    ensures CountFree(st) >= 1
  {
    assert st == st[..k + 1] + st[k + 1..];
    assert st[..k + 1][..k] == st[..k];
    CountConcat(st[..k + 1], st[k + 1..]);
  }

  /** Every Allocated frame, except possibly the very first frame of the
      pool, continues a run: the frame before it is taken too. */
  ghost predicate RunsFormed(st: seq<State>) {
    forall k :: 0 < k < |st| ==> Continues(st, k)
  }

  /** Frame k, when Allocated, follows a taken frame. */
  ghost predicate Continues(st: seq<State>, k: nat)
    requires 0 < k < |st|
  {
    st[k] == Allocated ==> st[k - 1] != Free
  }

  /** The pool invariant: the counter equals the number of Free frames, and
      runs are well formed. */
  ghost predicate Valid(p: Pool) {
    p.freeCount == CountFree(p.states) && RunsFormed(p.states)
  }

  predicate InPool(p: Pool, frame: nat) {
    p.base <= frame < p.base + |p.states|
  }

  lemma AllFreeCount(x: seq<State>)
    requires forall k :: 0 <= k < |x| ==> x[k] == Free
    ensures CountFree(x) == |x|
  {
    if |x| > 0 {
      assert x == x[..|x| - 1] + [x[|x| - 1]];
      AllFreeCount(x[..|x| - 1]);
    }
  }

  lemma NoneFreeCount(x: seq<State>)
    requires forall k :: 0 <= k < |x| ==> x[k] != Free
    ensures CountFree(x) == 0
  {
    if |x| > 0 {
      assert x == x[..|x| - 1] + [x[|x| - 1]];
      NoneFreeCount(x[..|x| - 1]);
    }
  }

  /** Replacing the slice [i, e) of st by y changes the Free count by the
      difference of the two slices' Free counts. */
  lemma SpliceCount(st: seq<State>, i: nat, e: nat, y: seq<State>)
    requires i <= e <= |st| && |y| == e - i
    ensures CountFree(st[..i] + y + st[e..])
            == CountFree(st) - CountFree(st[i..e]) + CountFree(y)
  {
    assert st == st[..i] + st[i..e] + st[e..];
    CountConcat(st[..i], st[i..e]);
    CountConcat(st[..i] + st[i..e], st[e..]);
    CountConcat(st[..i], y);
    CountConcat(st[..i] + y, st[e..]);
  }

  /** Filling the slice [i, e) with Free frames adds the slice's non-Free
      frames to the count. */
  lemma FillFreeCount(st: seq<State>, i: nat, e: nat)
    requires i <= e <= |st|
    ensures CountFree(Fill(st, i, e, Free)) == CountFree(st) - CountFree(st[i..e]) + (e - i)
  {
    SpliceCount(st, i, e, Run(e - i, Free));
    AllFreeCount(Run(e - i, Free));
  }

  /** The pool constructor. The source asserts that the number of frames
      fills the bitmap's bytes. With no info frame the bookkeeping lives in
      the pool's own first frame, which is marked Allocated (not Head) and
      is not counted as free. */
  function New(base: nat, nFrames: nat, infoFrame: nat, nInfoFrames: nat): (p: Pool)
    requires nFrames % 8 == 0
    ensures p.base == base && |p.states| == nFrames
    ensures p.infoFrame == infoFrame && p.nInfoFrames == nInfoFrames
    ensures forall k :: 0 <= k < nFrames ==>
              p.states[k] == (if k == 0 && infoFrame == 0 then Allocated else Free)
    ensures p.freeCount == if infoFrame == 0 then nFrames - 1 else nFrames
    ensures infoFrame != 0 || nFrames > 0 ==> Valid(p)
  {
    var all := Run(nFrames, Free);
    AllFreeCount(all);
    if infoFrame == 0 then
      var st := if nFrames == 0 then all else all[0 := Allocated];
      assert nFrames > 0 ==> CountFree(st) == nFrames - 1 by {
        if nFrames > 0 {
          SpliceCount(all, 0, 1, [Allocated]);
          assert all[0..1] == [Free];
          assert st == all[..0] + [Allocated] + all[1..];
        }
      }
      Pool(base, st, nFrames - 1, infoFrame, nInfoFrames)
    else
      Pool(base, all, nFrames, infoFrame, nInfoFrames)
  }

  /** needed_info_frames as written: it counts 8n bytes for n frames, as if
      each frame's 8 bits took 8 bytes, and rounds up to whole frames. */
  function NeededInfoFramesAsWritten(n: nat): (r: nat)
    ensures r * PageSize >= 8 * n
    ensures r > 0 ==> (r - 1) * PageSize < 8 * n
  {
    (n * 8) / 4096 + (if (n * 8) % 4096 > 0 then 1 else 0)
  }

  /** needed_info_frames as the header comment at mp3/cont_frame_pool.C:72-74
      says: one byte per frame, so one info frame for every 4096 frames,
      rounded up. */
  function NeededInfoFrames(n: nat): (r: nat)
    ensures r * PageSize >= n
    ensures r > 0 ==> (r - 1) * PageSize < n
  {
    n / 4096 + (if n % 4096 > 0 then 1 else 0)
  }

  /** More frames never need fewer info frames. */
  lemma NeededInfoFramesMonotone(m: nat, n: nat)
    requires m <= n
    ensures NeededInfoFrames(m) <= NeededInfoFrames(n)
  {
  }

  /** The as-written count is never short, but for 4096 frames it reserves
      eight info frames where one holds the whole bitmap. */
  lemma NeededInfoFramesAsWrittenOverReserves(n: nat)
    ensures NeededInfoFrames(n) <= NeededInfoFramesAsWritten(n)
    ensures NeededInfoFramesAsWritten(4096) == 8 && NeededInfoFrames(4096) == 1
  {
    var r, w := NeededInfoFrames(n), NeededInfoFramesAsWritten(n);
    if r > 0 {
      assert (r - 1) * PageSize < w * PageSize;
      FewerPages(r - 1, w);
    }
  }

  lemma FewerPages(k: nat, m: nat)
    requires k * PageSize < m * PageSize
    ensures k < m
  {
  }

  /*
   * get_frames
   */

  /** A run of n frames can start at index s: frames s .. s+n-1 are Free,
      and so is frame s itself when it exists (the source's scan only ever
      stops on a frame that is not taken, even for a request of zero). */
  predicate Fits(st: seq<State>, s: nat, n: nat) {
    && s + n <= |st|
    && (forall k :: s <= k < s + n ==> st[k] == Free)
    && (s < |st| ==> st[s] == Free)
  }

  /** s is the first place a run of n frames fits. */
  ghost predicate FirstFit(st: seq<State>, n: nat, s: nat) {
    Fits(st, s, n) && forall t :: 0 <= t < s ==> !Fits(st, t, n)
  }

  /** The lookup loop: skip frames that are taken. It is unbounded in the
      source; here it stops at the end of the pool. */
  function SkipTaken(st: seq<State>, i: nat): (j: nat)
    requires i <= |st|
    ensures i <= j <= |st|
    ensures j < |st| ==> st[j] == Free
    ensures forall k :: i <= k < j ==> st[k] != Free
    decreases |st| - i
  {
    if i == |st| || st[i] == Free then i else SkipTaken(st, i + 1)
  }

  /** The first frame in [j, e) that is taken, if any. */
  function FirstTaken(st: seq<State>, j: nat, e: nat): (r: Option<nat>)
    requires j <= e <= |st|
    ensures r.None? ==> forall k :: j <= k < e ==> st[k] == Free
    ensures r.Some? ==> j <= r.value < e && st[r.value] != Free
    decreases e - j
  {
    if j == e then None
    else if st[j] != Free then Some(j)
    else FirstTaken(st, j + 1, e)
  }

  /** The search of get_frames from index i: skip taken frames, give up when
      the run would pass the end of the pool, and restart from the first
      taken frame inside the candidate run. */
  function Scan(st: seq<State>, n: nat, i: nat): (r: Option<nat>)
    requires i <= |st|
    ensures r.Some? ==> i <= r.value && Fits(st, r.value, n)
    ensures r.Some? ==> forall t :: i <= t < r.value ==> !Fits(st, t, n)
    ensures r.None? ==> forall t :: i <= t <= |st| ==> !Fits(st, t, n)
    decreases |st| - i
  {
    var j := SkipTaken(st, i);
    assert forall t :: i <= t < j ==> !Fits(st, t, n) by {
      forall t | i <= t < j ensures !Fits(st, t, n) {
        assert st[t] != Free;
      }
    }
    if n == 0 then Some(j)
    else if j + n > |st| then None
    else match FirstTaken(st, j, j + n)
      case None => Some(j)
      case Some(k) =>
        assert forall t :: j <= t <= k ==> !Fits(st, t, n) by {
          forall t | j <= t <= k ensures !Fits(st, t, n) {
            assert t <= k < t + n && st[k] != Free;
          }
        }
        Scan(st, n, k)
  }

  /** The states after taking the run of n frames at s: the first becomes
      Head and the other n-1 become Allocated. */
  function Claim(st: seq<State>, s: nat, n: nat): (c: seq<State>)
    requires 1 <= n && s + n <= |st|
    ensures |c| == |st|
    ensures forall k :: 0 <= k < |st| ==>
              c[k] == (if k == s then Head else if s < k < s + n then Allocated else st[k])
  {
    st[..s] + [Head] + Run(n - 1, Allocated) + st[s + n..]
  }

  /** Result of get_frames: the first frame number of the run (None where the
      source returns 0) and the pool afterwards. */
  datatype Grant = Grant(frame: Option<nat>, pool: Pool)

  /** get_frames(n). */
  function GetFrames(p: Pool, n: nat): (g: Grant)
    ensures n > p.freeCount || n > |p.states| ==> g == Grant(None, p)
    ensures g.frame.None? ==> g.pool == p
    ensures g.frame.None? && n <= p.freeCount && n <= |p.states| ==>
              forall t :: 0 <= t <= |p.states| ==> !Fits(p.states, t, n)
    ensures g.frame.Some? ==>
              && p.base <= g.frame.value
              && FirstFit(p.states, n, g.frame.value - p.base)
              && n <= p.freeCount
    ensures g.frame.Some? ==>
              var s := g.frame.value - p.base;
              && g.pool.base == p.base
              && g.pool.infoFrame == p.infoFrame && g.pool.nInfoFrames == p.nInfoFrames
              && g.pool.freeCount == p.freeCount - n
              && |g.pool.states| == |p.states|
              && forall k :: 0 <= k < |p.states| ==>
                   g.pool.states[k] == (if k == s && n > 0 then Head
                                        else if s < k < s + n then Allocated
                                        else p.states[k])
  {
    if n > p.freeCount || n > |p.states| then Grant(None, p)
    else match Scan(p.states, n, 0)
      case None => Grant(None, p)
      case Some(s) =>
        if n == 0 then Grant(Some(p.base + s), p)
        else Grant(Some(p.base + s),
                   p.(states := Claim(p.states, s, n), freeCount := p.freeCount - n))
  }

  lemma ClaimCount(st: seq<State>, s: nat, n: nat)
    requires 1 <= n && Fits(st, s, n)
    ensures CountFree(Claim(st, s, n)) == CountFree(st) - n
  {
    var y := [Head] + Run(n - 1, Allocated);
    assert Claim(st, s, n) == st[..s] + y + st[s + n..];
    SpliceCount(st, s, s + n, y);
    AllFreeCount(st[s..s + n]);
    NoneFreeCount(y);
  }

  /** get_frames keeps the pool invariant. */
  lemma {:induction false} GetFramesPreservesValid(p: Pool, n: nat)
    requires Valid(p)
    ensures Valid(GetFrames(p, n).pool)
  {
    var g := GetFrames(p, n);
    if g.frame.Some? && n > 0 {
      var s := g.frame.value - p.base;
      assert Fits(p.states, s, n);
      ClaimCount(p.states, s, n);
      SeqExt(g.pool.states, Claim(p.states, s, n));
      ClaimRunsFormed(p.states, s, n);
    }
  }

  lemma SeqExt(a: seq<State>, b: seq<State>)
    requires |a| == |b| && forall k :: 0 <= k < |a| ==> a[k] == b[k]
    ensures a == b
  {
  }

  lemma ClaimRunsFormed(st: seq<State>, s: nat, n: nat)
    requires RunsFormed(st) && 1 <= n && Fits(st, s, n)
    ensures RunsFormed(Claim(st, s, n))
  {
    var c := Claim(st, s, n);
    if s + n < |st| {
      assert st[s + n - 1] == Free && Continues(st, s + n);
    }
    forall k | 0 < k < |c| ensures Continues(c, k) {
      if k < s || k > s + n {
        assert Continues(st, k);
      } else if k != s + n {
        assert c[k - 1] != Free || c[k] != Allocated;
      }
    }
  }

  /*
   * release_frame
   */

  /** The first index at or after i that is not Allocated: where a run that
      reaches i ends. */
  function RunEnd(st: seq<State>, i: nat): (e: nat)
    requires i <= |st|
    ensures i <= e <= |st|
    ensures forall k :: i <= k < e ==> st[k] == Allocated
    ensures e < |st| ==> st[e] != Allocated
    decreases |st| - i
  {
    if i < |st| && st[i] == Allocated then RunEnd(st, i + 1) else i
  }

  /** The frames [i, e) of `st` set to `x`, the others kept. */
  function Fill(st: seq<State>, i: nat, e: nat, x: State): (r: seq<State>)
    requires i <= e <= |st|
    ensures |r| == |st|
    ensures forall k :: 0 <= k < |st| ==> r[k] == (if i <= k < e then x else st[k])
  {
    st[..i] + Run(e - i, x) + st[e..]
  }

  /** release_frame, by the rule documented in the source: a frame that is
      not a Head is left alone; a Head frame is freed together with the
      Allocated frames that follow it, up to the first Free or Head frame,
      and the counter grows by one per frame freed. */
  function ReleaseFrame(p: Pool, frame: nat): (q: Pool)
    requires InPool(p, frame)
    ensures p.states[frame - p.base] != Head ==> q == p
    ensures p.states[frame - p.base] == Head ==>
              var i := frame - p.base;
              var e := RunEnd(p.states, i + 1);
              && q == p.(states := q.states, freeCount := p.freeCount + (e - i))
              && |q.states| == |p.states|
              && forall k :: 0 <= k < |p.states| ==>
                   q.states[k] == (if i <= k < e then Free else p.states[k])
  {
    var i := frame - p.base;
    if p.states[i] != Head then p
    else
      var e := RunEnd(p.states, i + 1);
      p.(states := Fill(p.states, i, e, Free),
         freeCount := p.freeCount + (e - i))
  }

  /** release_frame keeps the pool invariant. */
  lemma {:induction false} ReleaseFramePreservesValid(p: Pool, frame: nat)
    requires Valid(p) && InPool(p, frame)
    ensures Valid(ReleaseFrame(p, frame))
  {
    var i := frame - p.base;
    if p.states[i] == Head {
      var e := RunEnd(p.states, i + 1);
      var q := ReleaseFrame(p, frame);
      assert q.states == Fill(p.states, i, e, Free);
      ReleaseCount(p.states, i, e);
      ReleaseRunsFormed(p.states, i, e);
      assert q.freeCount == p.freeCount + (e - i);
    } else {
      assert ReleaseFrame(p, frame) == p;
    }
  }

  lemma ReleaseRunsFormed(st: seq<State>, i: nat, e: nat)
    requires RunsFormed(st) && i < |st| && st[i] == Head && e == RunEnd(st, i + 1)
    ensures RunsFormed(Fill(st, i, e, Free))
  {
    var q := Fill(st, i, e, Free);
    forall k | 0 < k < |q| ensures Continues(q, k) {
      if q[k] == Allocated {
        assert Continues(st, k);
        assert k - 1 < i || e <= k - 1;
      }
    }
  }

  lemma ReleaseCount(st: seq<State>, i: nat, e: nat)
    requires i < |st| && st[i] == Head && e == RunEnd(st, i + 1)
    ensures CountFree(Fill(st, i, e, Free)) == CountFree(st) + (e - i)
  {
    FillFreeCount(st, i, e);
    var run := st[i..e];
    forall k | 0 <= k < |run| ensures run[k] != Free {
      assert run[k] == st[i + k];
    }
    NoneFreeCount(run);
  }

  /** A run that is Allocated on [i, e) and not continued at e ends at e. */
  lemma {:induction false} RunEndIs(st: seq<State>, i: nat, e: nat)
    requires i <= e <= |st|
    requires forall k :: i <= k < e ==> st[k] == Allocated
    requires e < |st| ==> st[e] != Allocated
    ensures RunEnd(st, i) == e
    decreases e - i
  {
    if i < e {
      RunEndIs(st, i + 1, e);
    }
  }

  /** get_frames(n) followed by release of the frame it returned gives back
      exactly the pool it started from. */
  lemma {:induction false} GetThenRelease(p: Pool, n: nat)
    requires Valid(p) && 1 <= n
    requires GetFrames(p, n).frame.Some?
    ensures InPool(GetFrames(p, n).pool, GetFrames(p, n).frame.value)
    ensures ReleaseFrame(GetFrames(p, n).pool, GetFrames(p, n).frame.value) == p
  {
    assert Scan(p.states, n, 0).Some?;
    var s := Scan(p.states, n, 0).value;
    var q := p.(states := Claim(p.states, s, n), freeCount := p.freeCount - n);
    assert GetFrames(p, n) == Grant(Some(p.base + s), q);
    ReleaseClaimed(p, s, n);
  }

  /** The pool after a claim of n frames at index s, released through the
      claimed Head, is the pool before. */
  lemma ReleaseClaimed(p: Pool, s: nat, n: nat)
    requires RunsFormed(p.states) && 1 <= n && Fits(p.states, s, n)
    ensures var q := p.(states := Claim(p.states, s, n), freeCount := p.freeCount - n);
            ReleaseFrame(q, p.base + s) == p
  {
    var q := p.(states := Claim(p.states, s, n), freeCount := p.freeCount - n);
    ClaimThenFill(p.states, s, n);
    ReleaseFrameAt(q, s);
    var e := RunEnd(q.states, s + 1);
    assert e == s + n;
    assert Fill(q.states, s, e, Free) == p.states;
    assert q.freeCount + (e - s) == p.freeCount;
  }

  /** release_frame of the frame at index i of a pool, when it is a Head. */
  lemma ReleaseFrameAt(p: Pool, i: nat)
    requires i < |p.states| && p.states[i] == Head
    ensures var e := RunEnd(p.states, i + 1);
            ReleaseFrame(p, p.base + i)
            == p.(states := Fill(p.states, i, e, Free), freeCount := p.freeCount + (e - i))
  {
  }

  /** Freeing the run that starts at a freshly claimed Head gives back the
      states from before the claim. */
  lemma ClaimThenFill(st: seq<State>, s: nat, n: nat)
    requires RunsFormed(st) && 1 <= n && Fits(st, s, n)
    ensures var c := Claim(st, s, n);
            && c[s] == Head
            && RunEnd(c, s + 1) == s + n
            && Fill(c, s, RunEnd(c, s + 1), Free) == st
  {
    var c := Claim(st, s, n);
    ReleaseClaim(st, c, s, n);
    var f := Fill(c, s, s + n, Free);
    forall k | 0 <= k < |st| ensures f[k] == st[k] {
      if s <= k < s + n {
        assert st[k] == Free;
      }
    }
    SeqExt(f, st);
  }

  /** Freeing from the head of a freshly claimed run stops exactly at its end. */
  lemma ReleaseClaim(st: seq<State>, st': seq<State>, s: nat, n: nat)
    requires RunsFormed(st) && 1 <= n && Fits(st, s, n)
    requires |st'| == |st|
    requires forall k :: 0 <= k < |st| ==>
               st'[k] == (if k == s then Head else if s < k < s + n then Allocated else st[k])
    ensures RunEnd(st', s + 1) == s + n
  {
    if s + n < |st| {
      assert st[s + n - 1] == Free && Continues(st, s + n);
      assert st'[s + n] == st[s + n];
    }
    RunEndIs(st', s + 1, s + n);
  }

  /** release_frame as written. Because `==` binds tighter than `^`, the loop
      guard `i ^ 0xFF == 0x80` is `i ^ 0`, true for every i > 0, and so is
      the inner test: every frame from the head to the end of the pool is set
      Free and counted, whatever its state. */
  function ReleaseFrameAsWritten(p: Pool, frame: nat): (q: Pool)
    requires InPool(p, frame)
    ensures p.states[frame - p.base] != Head ==> q == p
    ensures p.states[frame - p.base] == Head ==>
              && |q.states| == |p.states|
              && q.freeCount == p.freeCount + (|p.states| - (frame - p.base))
              && forall k :: frame - p.base <= k < |p.states| ==> q.states[k] == Free
    ensures p.states[frame - p.base] == Head ==>
              && q == p.(states := q.states, freeCount := q.freeCount)
              && forall k :: 0 <= k < frame - p.base ==> q.states[k] == p.states[k]
  {
    var i := frame - p.base;
    if p.states[i] != Head then p
    else p.(states := Fill(p.states, i, |p.states|, Free),
            freeCount := p.freeCount + (|p.states| - i))
  }

  /** Two single-frame runs side by side: releasing the first, as written,
      also frees the second and counts two frames, while the documented rule
      stops at the second Head. */
  lemma ReleaseFrameAsWrittenOverruns()
    ensures var p := Pool(0, [Head, Head], 0, 1, 1);
            && Valid(p)
            && ReleaseFrameAsWritten(p, 0) == Pool(0, [Free, Free], 2, 1, 1)
            && ReleaseFrame(p, 0) == Pool(0, [Free, Head], 1, 1, 1)
  {
    var p := Pool(0, [Head, Head], 0, 1, 1);
    NoneFreeCount(p.states);
    assert RunEnd(p.states, 1) == 1;
    assert Fill(p.states, 0, 1, Free) == [Free, Head];
    assert Fill(p.states, 0, 2, Free) == [Free, Free];
  }

  /*
   * mark_inaccessible
   */

  /** The range test of the one-frame mark_inaccessible as written: it lets
      through the frame base + nFrames, one past the end of the pool. */
  function AcceptsFrameAsWritten(p: Pool, frame: nat): (r: bool)
    ensures r <==> InPool(p, frame) || frame == p.base + |p.states|
  {
    !(frame < p.base || frame > p.base + |p.states|)
  }

  /** The frame just past the pool passes the as-written test, yet it has no
      state in the pool: the source then reads and writes one byte beyond the
      bitmap. */
  lemma AcceptsFrameAsWrittenOffByOne(p: Pool)
    ensures AcceptsFrameAsWritten(p, p.base + |p.states|)
    ensures !InPool(p, p.base + |p.states|)
  {
  }

  /** mark_inaccessible(frame) as written, on the model's states. A frame the
      range test rejects, and the frame one past the pool (whose byte lies
      beyond the bitmap), leave the states alone. Inside the pool a Head frame
      fails the assertion, and an Allocated frame passes it and becomes the
      byte 0xBF, which is no state: both give None. A Free frame becomes a
      Head frame. */
  function MarkOneAsWritten(p: Pool, frame: nat): (r: Option<Pool>)
    ensures !InPool(p, frame) ==> r == Some(p)
    ensures InPool(p, frame) ==> (r.Some? <==> p.states[frame - p.base] == Free)
    ensures InPool(p, frame) && r.Some? ==>
              r.value == p.(states := p.states[frame - p.base := Head])
  {
    if !AcceptsFrameAsWritten(p, frame) || frame == p.base + |p.states| then Some(p)
    else if p.states[frame - p.base] != Free then None
    else Some(p.(states := p.states[frame - p.base := Head]))
  }

  /** The loop of the two-argument mark_inaccessible as written: the
      one-frame version on first, first + 1, ..., first + n - 1. It gets
      through exactly when every target inside the pool is Free, and then
      every such target is a Head frame; targets outside the pool are
      skipped. */
  function MarkLoopAsWritten(p: Pool, first: nat, n: nat): (r: Option<Pool>)
    ensures r.Some? <==>
              forall k :: 0 <= k < |p.states| && first <= p.base + k < first + n ==>
                p.states[k] == Free
    ensures r.Some? ==>
              && r.value == p.(states := r.value.states)
              && |r.value.states| == |p.states|
              && forall k :: 0 <= k < |p.states| ==>
                   r.value.states[k] ==
                     (if first <= p.base + k < first + n then Head else p.states[k])
    decreases n
  {
    if n == 0 then Some(p)
    else match MarkOneAsWritten(p, first)
      case None =>
        assert p.states[first - p.base] != Free;
        None
      case Some(q) =>
        assert forall k :: 0 <= k < |p.states| && p.base + k != first ==> q.states[k] == p.states[k];
        MarkLoopAsWritten(q, first + 1, n - 1)
  }

  /** mark_inaccessible(first, n) as written: the loop, then the counter
      drops by n whether or not the range test skipped some targets. */
  function MarkInaccessibleAsWritten(p: Pool, first: nat, n: nat): (r: Option<Pool>)
    ensures r.Some? <==>
              forall k :: 0 <= k < |p.states| && first <= p.base + k < first + n ==>
                p.states[k] == Free
    ensures r.Some? ==>
              && r.value == p.(states := r.value.states, freeCount := p.freeCount - n)
              && |r.value.states| == |p.states|
              && forall k :: 0 <= k < |p.states| ==>
                   r.value.states[k] ==
                     (if first <= p.base + k < first + n then Head else p.states[k])
  {
    match MarkLoopAsWritten(p, first, n)
    case None => None
    case Some(q) => Some(q.(freeCount := p.freeCount - n))
  }

  /** A reservation that lies wholly past the pool changes no frame, yet the
      counter still drops by n, so a valid pool stops being valid. */
  lemma MarkInaccessibleAsWrittenPastPool(p: Pool, first: nat, n: nat)
    requires p.base + |p.states| <= first
    ensures MarkInaccessibleAsWritten(p, first, n) == Some(p.(freeCount := p.freeCount - n))
    ensures Valid(p) && n > 0 ==> !Valid(MarkInaccessibleAsWritten(p, first, n).value)
  {
    var q := MarkInaccessibleAsWritten(p, first, n).value;
    SeqExt(q.states, p.states);
  }

  /** Eight Free frames at base 0, and mark_inaccessible(9, 1): the range
      test skips frame 9, but the counter drops to 7 with eight frames Free. */
  lemma MarkInaccessibleAsWrittenSkewsCount()
    ensures var p := Pool(0, Run(8, Free), 8, 1, 1);
            && Valid(p)
            && !AcceptsFrameAsWritten(p, 9)
            && MarkInaccessibleAsWritten(p, 9, 1) == Some(p.(freeCount := 7))
            && CountFree(p.states) == 8
  {
    var p := Pool(0, Run(8, Free), 8, 1, 1);
    AllFreeCount(p.states);
    MarkInaccessibleAsWrittenPastPool(p, 9, 1);
  }

  /** As written every target becomes a Head frame, where the header comment at
      mp3/cont_frame_pool.C:67-70 asks for one Head followed by Allocated
      frames: releasing the first frame of a
      reservation of two or more then frees that frame alone and leaves the
      next one a Head. */
  lemma MarkAsWrittenReleasesOnlyFirst(p: Pool, first: nat, n: nat)
    requires 2 <= n && p.base <= first && first + n <= p.base + |p.states|
    requires MarkInaccessibleAsWritten(p, first, n).Some?
    ensures var q := MarkInaccessibleAsWritten(p, first, n).value;
            && InPool(q, first)
            && ReleaseFrame(q, first).states[first - p.base + 1] == Head
  {
    var q := MarkInaccessibleAsWritten(p, first, n).value;
    var i := first - p.base;
    assert q.states[i] == Head && q.states[i + 1] == Head;
    assert RunEnd(q.states, i + 1) == i + 1;
  }

  /** mark_inaccessible(first, n), with the range test corrected and the
      marking the header comment at mp3/cont_frame_pool.C:67-70 describes:
      the frames [first, first + n) must lie in
      the pool and be Free; the first then becomes a Head frame and the rest
      Allocated frames, and the counter drops by n. A request that fails
      either test changes nothing. */
  function MarkInaccessible(p: Pool, first: nat, n: nat): (r: Result<Pool>)
    ensures r.Err? <==>
              !(p.base <= first && first + n <= p.base + |p.states|)
              || exists k :: 0 <= k < |p.states| && first <= p.base + k < first + n
                             && p.states[k] != Free
    ensures r.Err? && !(p.base <= first && first + n <= p.base + |p.states|) ==>
              r.error == OutOfRange
    ensures r.Err? && p.base <= first && first + n <= p.base + |p.states| ==>
              r.error == NotFree
    ensures r.Ok? ==>
              && r.value == p.(states := r.value.states, freeCount := p.freeCount - n)
              && |r.value.states| == |p.states|
              && forall k :: 0 <= k < |p.states| ==>
                   r.value.states[k] ==
                     (if p.base + k == first && n > 0 then Head
                      else if first < p.base + k < first + n then Allocated
                      else p.states[k])
  {
    if !(p.base <= first && first + n <= p.base + |p.states|) then Err(OutOfRange)
    else
      var i := first - p.base;
      match FirstTaken(p.states, i, i + n)
      case Some(k) =>
        assert first <= p.base + k < first + n && p.states[k] != Free;
        Err(NotFree)
      case None =>
        if n == 0 then Ok(p)
        else Ok(p.(states := Claim(p.states, i, n), freeCount := p.freeCount - n))
  }

  /** A successful mark_inaccessible of n >= 1 frames is a claim of the run
      at first - base, which fits there. */
  lemma MarkIsClaim(p: Pool, first: nat, n: nat)
    requires 1 <= n && MarkInaccessible(p, first, n).Ok?
    ensures p.base <= first && Fits(p.states, first - p.base, n)
    ensures MarkInaccessible(p, first, n).value
            == p.(states := Claim(p.states, first - p.base, n), freeCount := p.freeCount - n)
  {
    var i := first - p.base;
    assert p.base <= first && first + n <= p.base + |p.states|;
    assert FirstTaken(p.states, i, i + n).None?;
    forall k | i <= k < i + n ensures p.states[k] == Free {
      assert first <= p.base + k < first + n;
    }
  }

  /** mark_inaccessible keeps the pool invariant. */
  lemma {:induction false} MarkInaccessiblePreservesValid(p: Pool, first: nat, n: nat)
    requires Valid(p)
    requires MarkInaccessible(p, first, n).Ok?
    ensures Valid(MarkInaccessible(p, first, n).value)
  {
    if n > 0 {
      MarkIsClaim(p, first, n);
      ClaimCount(p.states, first - p.base, n);
      ClaimRunsFormed(p.states, first - p.base, n);
    }
  }

  /** Releasing the first frame of a reservation gives back the pool from
      before it, as the rule for release_frames in the header comment at
      mp3/cont_frame_pool.C:62-65 promises. */
  lemma {:induction false} MarkThenRelease(p: Pool, first: nat, n: nat)
    requires Valid(p) && 1 <= n
    requires MarkInaccessible(p, first, n).Ok?
    ensures InPool(MarkInaccessible(p, first, n).value, first)
    ensures ReleaseFrame(MarkInaccessible(p, first, n).value, first) == p
  {
    MarkIsClaim(p, first, n);
    ReleaseClaimedAt(p, first, n);
  }

  /** ReleaseClaimed, for the frame number rather than the index. */
  lemma ReleaseClaimedAt(p: Pool, first: nat, n: nat)
    requires RunsFormed(p.states) && 1 <= n
    requires p.base <= first && Fits(p.states, first - p.base, n)
    ensures var q := p.(states := Claim(p.states, first - p.base, n), freeCount := p.freeCount - n);
            InPool(q, first) && ReleaseFrame(q, first) == p
  {
    ReleaseClaimed(p, first - p.base, n);
  }

  /** A frame that is already reserved cannot be reserved again. */
  lemma MarkInaccessibleRejectsTaken(p: Pool, first: nat, n: nat)
    requires MarkInaccessible(p, first, n).Ok? && 1 <= n
    ensures MarkInaccessible(MarkInaccessible(p, first, n).value, first, n) == Err(NotFree)
  {
    var q := MarkInaccessible(p, first, n).value;
    assert q.states[first - p.base] == Head;
    assert first <= first < first + n && q.states[first - q.base] != Free;
  }
}
