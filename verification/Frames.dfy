/** `BootInfoFrameAllocator`: physical frames handed out of the memory map in one upward sweep. */
module Frames {
  import opened Wrappers

  const PAGE_SIZE: nat := 4096

  /** A range of frame numbers, as the boot loader describes it. */
  datatype Region = Region(first: nat, end: nat, usable: bool) {
    function StartAddr(): nat { first * 4096 }
    function EndAddr(): nat { end * 4096 }
  }

  ghost predicate InRegion(r: Region, f: nat) {
    r.usable && r.first <= f < r.end
  }

  ghost predicate IsUsable(regions: seq<Region>, f: nat) {
    exists i :: 0 <= i < |regions| && InRegion(regions[i], f)
  }

  /** Region `i` holds frame `f`, no earlier one does, and no earlier usable region reaches beyond
      it: the sweep cannot have passed `f` before it comes to region `i`. */
  ghost predicate ServedBy(regions: seq<Region>, i: nat, f: nat) {
    && i < |regions| && InRegion(regions[i], f)
    && forall k :: 0 <= k < i && regions[k].usable && regions[k].first < regions[k].end ==> regions[k].end <= f
  }

  /** The frames that are ever handed out. */
  ghost predicate Served(regions: seq<Region>, f: nat) {
    exists i: nat :: ServedBy(regions, i, f)
  }

  /** What one call returns when the sweep stands at frame `next`: the least served frame from there. */
  ghost predicate IsNext(regions: seq<Region>, next: nat, r: Option<nat>) {
    match r
    case Some(f) => Served(regions, f) && next <= f && forall g: nat :: next <= g < f ==> !Served(regions, g)
    case None => forall g: nat :: next <= g ==> !Served(regions, g)
  }

  class FrameAllocator {
    const regions: seq<Region>
    var nextAddr: nat

    constructor (regions: seq<Region>)
      ensures this.regions == regions && nextAddr == 0
    {
      this.regions := regions;
      nextAddr := 0;
    }

    ghost predicate Valid()
      reads this
    {
      nextAddr % 4096 == 0
    }

    ghost function Sweep(): nat
      reads this
    {
      nextAddr / 4096
    }

    /** `allocate_frame`; the result is the number of the frame at the chosen address. */
    method AllocateFrame() returns (r: Option<nat>)
      requires Valid()
      modifies this
      ensures Valid() && IsNext(regions, old(Sweep()), r)
      ensures Sweep() == if r.Some? then r.value + 1 else old(Sweep())
      ensures r.Some? ==>
        && old(Sweep()) <= r.value
        && exists i :: 0 <= i < |regions| && regions[i].usable && regions[i].first <= r.value < regions[i].end
      ensures nextAddr == if r.Some? then 4096 * r.value + 4096 else old(nextAddr)
    {
      ghost var next := Sweep();
      for i := 0 to |regions|
        invariant Valid() && Sweep() == next && nextAddr == old(nextAddr)
        invariant forall k :: 0 <= k < i && regions[k].usable ==>
          regions[k].end <= next || regions[k].end <= regions[k].first
      {
        var region := regions[i];
        if region.usable {
          var addr := if nextAddr >= region.StartAddr() then nextAddr else region.StartAddr();
          if addr < region.EndAddr() {
            nextAddr := addr + PAGE_SIZE;
            FirstWithRoomIsNext(regions, next, i, addr / 4096);
            return Some(addr / PAGE_SIZE);
          }
        }
      }
      NoRoomIsNone(regions, next);
      r := None;
    }
  }

  lemma FirstWithRoomIsNext(regions: seq<Region>, next: nat, i: nat, f: nat)
    requires i < |regions| && InRegion(regions[i], f)
    requires f == if next >= regions[i].first then next else regions[i].first
    requires forall k :: 0 <= k < i && regions[k].usable ==>
      regions[k].end <= next || regions[k].end <= regions[k].first
    ensures IsNext(regions, next, Some(f))
  {
    assert ServedBy(regions, i, f);
    forall g: nat | next <= g < f ensures !Served(regions, g) {
      forall j: nat ensures !ServedBy(regions, j, g) {
      }
    }
  }

  lemma NoRoomIsNone(regions: seq<Region>, next: nat)
    requires forall k :: 0 <= k < |regions| && regions[k].usable ==>
      regions[k].end <= next || regions[k].end <= regions[k].first
    ensures IsNext(regions, next, None)
  {
    forall g: nat | next <= g ensures !Served(regions, g) {
      forall j: nat ensures !ServedBy(regions, j, g) {
      }
    }
  }

  ghost predicate CanServe(r: Region) {
    r.usable && r.first < r.end
  }

  /** Region `i` stands before region `j` in the map but behind its frame `f` in memory. */
  ghost predicate Overtakes(regions: seq<Region>, i: nat, j: nat, f: nat) {
    i < j < |regions| && CanServe(regions[i]) && InRegion(regions[j], f) && f < regions[i].first
  }

  /** Whenever a region overtakes a frame, some region before it has the frame as well. */
  ghost predicate NothingOvertaken(regions: seq<Region>) {
    forall i: nat, j: nat, f: nat :: Overtakes(regions, i, j, f) ==> exists k: nat :: k < i && InRegion(regions[k], f)
  }

  /** Every usable frame is served exactly when none is overtaken. */
  lemma {:induction false} ServesAllIff(regions: seq<Region>)
    ensures (forall f: nat :: IsUsable(regions, f) ==> Served(regions, f)) <==> NothingOvertaken(regions)
  {
    if NothingOvertaken(regions) {
      forall f: nat | IsUsable(regions, f) ensures Served(regions, f) {
        var i: nat :| i < |regions| && InRegion(regions[i], f);
        FirstHolderServes(regions, f, i);
      }
    }
    if i: nat, j: nat, f: nat :| Overtakes(regions, i, j, f) && !exists k: nat :: k < i && InRegion(regions[k], f) {
      assert IsUsable(regions, f);
      forall h: nat ensures !ServedBy(regions, h, f) {
      }
    }
  }

  lemma {:induction false} FirstHolderServes(regions: seq<Region>, f: nat, i: nat)
    requires NothingOvertaken(regions) && i < |regions| && InRegion(regions[i], f)
    ensures Served(regions, f)
  {
    if k: nat :| k < i && InRegion(regions[k], f) {
      FirstHolderServes(regions, f, k);
    } else {
      forall k: nat | k < i && regions[k].usable && regions[k].first < regions[k].end ensures regions[k].end <= f {
        assert !Overtakes(regions, k, i, f);
      }
      assert ServedBy(regions, i, f);
    }
  }

  ghost predicate Ascend(regions: seq<Region>) {
    forall i, j :: 0 <= i < j < |regions| && CanServe(regions[i]) && CanServe(regions[j]) ==>
      regions[i].first <= regions[j].first
  }

  ghost predicate DoNotOverlap(regions: seq<Region>) {
    forall i: nat, j: nat, f: nat :: i < j < |regions| && InRegion(regions[i], f) ==> !InRegion(regions[j], f)
  }

  /** It is enough that the usable, non-empty regions are in order ... */
  lemma {:induction false} SortedMapServesAll(regions: seq<Region>, f: nat)
    requires Ascend(regions)
    ensures Served(regions, f) <==> IsUsable(regions, f)
  {
    assert NothingOvertaken(regions);
    ServesAllIff(regions);
    if Served(regions, f) {
      var i: nat :| ServedBy(regions, i, f);
      assert InRegion(regions[i], f);
    }
  }

  /** ... and where usable regions do not overlap, it is necessary. */
  lemma {:induction false} DisjointMapServesAllIff(regions: seq<Region>)
    requires DoNotOverlap(regions)
    ensures (forall f: nat :: IsUsable(regions, f) ==> Served(regions, f)) <==> Ascend(regions)
  {
    ServesAllIff(regions);
    if NothingOvertaken(regions) {
      forall i, j | 0 <= i < j < |regions| && CanServe(regions[i]) && CanServe(regions[j])
        ensures regions[i].first <= regions[j].first
      {
        assert InRegion(regions[j], regions[j].first);
        assert !Overtakes(regions, i, j, regions[j].first);
      }
    }
  }

  /** A map that loses three usable frames, and one that is out of order and loses none. */
  lemma {:induction false} UnsortedMapLosesFrames()
    ensures var regions := [Region(10, 20, true), Region(0, 5, true)];
            IsUsable(regions, 3) && !Served(regions, 3)
    ensures var regions := [Region(0, 100, true), Region(50, 60, true), Region(20, 30, true)];
            !Ascend(regions) && forall f: nat :: IsUsable(regions, f) ==> Served(regions, f)
  {
    var regions := [Region(10, 20, true), Region(0, 5, true)];
    assert InRegion(regions[1], 3);
    forall i: nat ensures !ServedBy(regions, i, 3) {
      assert regions[0].end == 20;
    }
    var unsorted := [Region(0, 100, true), Region(50, 60, true), Region(20, 30, true)];
    assert CanServe(unsorted[1]) && CanServe(unsorted[2]) && unsorted[1].first > unsorted[2].first;
    forall f: nat | IsUsable(unsorted, f) ensures Served(unsorted, f) {
      assert InRegion(unsorted[0], f) && ServedBy(unsorted, 0, f);
    }
  }

  // ---------- whole runs ----------

  /** The answers of successive calls from sweep position `next`. */
  ghost predicate AreAnswers(regions: seq<Region>, next: nat, answers: seq<Option<nat>>)
    decreases |answers|
  {
    answers == [] ||
    (IsNext(regions, next, answers[0])
     && AreAnswers(regions, if answers[0].Some? then answers[0].value + 1 else next, answers[1..]))
  }

  /** Any number of calls in a row. */
  method AllocateMany(a: FrameAllocator, n: nat) returns (answers: seq<Option<nat>>)
    requires a.Valid()
    modifies a
    ensures |answers| == n && AreAnswers(a.regions, old(a.Sweep()), answers)
  {
    if n == 0 { return []; }
    var first := a.AllocateFrame();
    var rest := AllocateMany(a, n - 1);
    answers := [first] + rest;
  }

  /** Over any run the frames come in strictly ascending order, so no frame is handed out twice, and
      a call that finds nothing is the last to matter. */
  lemma {:induction false} AnswersAscend(regions: seq<Region>, next: nat, answers: seq<Option<nat>>, i: nat, j: nat)
    requires AreAnswers(regions, next, answers) && i < j < |answers|
    ensures answers[i].Some? ==> Served(regions, answers[i].value) && next <= answers[i].value
    ensures answers[i].None? ==> answers[j].None?
    ensures answers[i].Some? && answers[j].Some? ==> answers[i].value < answers[j].value
    decreases |answers|
  {
    var next' := if answers[0].Some? then answers[0].value + 1 else next;
    if i > 0 {
      AnswersAscend(regions, next', answers[1..], i - 1, j - 1);
    } else {
      AnswerBeyond(regions, next', answers[1..], j - 1);
    }
  }

  lemma {:induction false} AnswerBeyond(regions: seq<Region>, next: nat, answers: seq<Option<nat>>, j: nat)
    requires AreAnswers(regions, next, answers) && j < |answers|
    ensures answers[j].Some? ==> Served(regions, answers[j].value) && next <= answers[j].value
    decreases |answers|
  {
    if j > 0 {
      AnswerBeyond(regions, if answers[0].Some? then answers[0].value + 1 else next, answers[1..], j - 1);
    }
  }

  /** Nothing is skipped: every served frame below an answer was an earlier answer, and once a call
      returns None every served frame has been handed out. */
  lemma {:induction false} NothingIsSkipped(regions: seq<Region>, next: nat, answers: seq<Option<nat>>, j: nat, f: nat)
    requires AreAnswers(regions, next, answers) && j < |answers|
    requires Served(regions, f) && next <= f && (answers[j].Some? ==> f < answers[j].value)
    ensures exists i :: 0 <= i < j && answers[i] == Some(f)
    decreases |answers|
  {
    if answers[0] != Some(f) {
      NothingIsSkipped(regions, if answers[0].Some? then answers[0].value + 1 else next, answers[1..], j - 1, f);
      var i :| 0 <= i < j - 1 && answers[1..][i] == Some(f);
      assert answers[i + 1] == Some(f);
    } else {
      assert j > 0;
    }
  }

  // ---------- the k-th call ----------

  /** How many served frames lie from `next` on below `f`. */
  ghost function Rank(regions: seq<Region>, next: nat, f: nat): nat
    decreases f
  {
    if f <= next then 0 else Rank(regions, next, f - 1) + if Served(regions, f - 1) then 1 else 0
  }

  lemma {:induction false} RankSplits(regions: seq<Region>, next: nat, mid: nat, f: nat)
    requires next <= mid <= f
    ensures Rank(regions, next, f) == Rank(regions, next, mid) + Rank(regions, mid, f)
    decreases f
  {
    hide Served;
    if mid < f {
      RankSplits(regions, next, mid, f - 1);
    }
  }

  lemma {:induction false} RankOfNone(regions: seq<Region>, next: nat, f: nat)
    requires forall g: nat :: next <= g < f ==> !Served(regions, g)
    ensures Rank(regions, next, f) == 0
    decreases f
  {
    hide Served;
    if next < f {
      RankOfNone(regions, next, f - 1);
    }
  }

  /** Behind a call that returned frame `first`, every later frame has one rank less. */
  lemma RankAfter(regions: seq<Region>, next: nat, first: nat, f: nat)
    requires IsNext(regions, next, Some(first)) && first < f
    ensures Rank(regions, next, f) == 1 + Rank(regions, first + 1, f)
  {
    hide Served;
    RankOfNone(regions, next, first);
    RankSplits(regions, next, first + 1, f);
    assert Rank(regions, next, first + 1) == (if first < next then 0 else Rank(regions, next, first) + 1);
  }

  /** The k-th call returns the k-th served frame in address order, counted from 0, and None exactly
      if there are not so many. */
  lemma {:induction false} KthCallReturnsKthFrame(regions: seq<Region>, next: nat, answers: seq<Option<nat>>, k: nat)
    requires AreAnswers(regions, next, answers) && k < |answers|
    ensures forall f: nat :: answers[k] == Some(f) <==> next <= f && Served(regions, f) && Rank(regions, next, f) == k
    ensures answers[k] == None <==> forall f: nat :: next <= f && Served(regions, f) ==> Rank(regions, next, f) < k
    decreases |answers|
  {
    hide Served;
    match answers[0] {
      case None =>
        if k > 0 { KthCallReturnsKthFrame(regions, next, answers[1..], k - 1); }
      case Some(first) =>
        RankOfNone(regions, next, first);
        if k > 0 { KthCallReturnsKthFrame(regions, first + 1, answers[1..], k - 1); }
        forall f: nat | next <= f && Served(regions, f)
          ensures first <= f && Rank(regions, next, f) == if f == first then 0 else 1 + Rank(regions, first + 1, f)
        {
          if first < f { RankAfter(regions, next, first, f); }
        }
    }
  }
}
