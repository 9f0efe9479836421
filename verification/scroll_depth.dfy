/** Scroll-depth tracking: a high-water mark of the scroll depth (in whole percent)
    and the 'scroll_depth' events emitted when it rises. The depth arrives already
    rounded; computing it from the window geometry is not part of this model. */
module ScrollDepth {
  import opened Common
  import opened Effects

  /** The depths, in percent, that are reported when first passed. */
  const Milestones: seq<nat> := [25, 50, 75, 90]

  /** The milestone reported for a depth: the largest milestone that the depth
      reaches, and none below the first. */
  function MilestoneOf(depth: int): (m: Option<nat>)
    ensures m.Some? <==> depth >= Milestones[0]
    ensures m.Some? ==> m.value in Milestones && m.value <= depth
    ensures m.Some? ==> forall k :: 0 <= k < |Milestones| && Milestones[k] <= depth ==> Milestones[k] <= m.value
  {
    if depth >= 25 && depth < 50 then Some(25)
    else if depth >= 50 && depth < 75 then Some(50)
    else if depth >= 75 && depth < 90 then Some(75)
    else if depth >= 90 then Some(90)
    else None
  }

  /** The `depth` field of a milestone's event. */
  function DepthLabel(m: nat): string {
    if m == 25 then "25%" else if m == 50 then "50%" else if m == 75 then "75%" else "90%"
  }

  /** The milestone an emitted event stands for (0 for events of other kinds). */
  function Rank(e: Event): nat {
    match e
    case ScrollDepth(d) =>
      if d == "25%" then 25 else if d == "50%" then 50 else if d == "75%" then 75
      else if d == "90%" then 90 else 0
    case _ => 0
  }

  /** The milestone a depth has reached, 0 below the first one. */
  function Bucket(depth: int): nat {
    MilestoneOf(depth).GetOr(0)
  }

  /** The tracker's whole state: the high-water mark and the events emitted so far. */
  datatype Tracker = Tracker(maxDepth: int, log: seq<Event>)

  /** One (debounced) scroll event at `depth`. */
  function Step(t: Tracker, depth: int): (t': Tracker)
    ensures t'.maxDepth >= t.maxDepth && t'.maxDepth >= depth
    ensures t'.maxDepth == t.maxDepth || t'.maxDepth == depth
    ensures t.log <= t'.log && |t'.log| <= |t.log| + 1
    ensures |t'.log| == |t.log| + 1 <==> depth > t.maxDepth && depth >= 25
    ensures |t'.log| == |t.log| + 1 ==> t'.log[|t.log|] == ScrollDepth(DepthLabel(Bucket(depth)))
  {
    if depth > t.maxDepth then
      match MilestoneOf(depth)
      case Some(m) => Tracker(depth, t.log + [ScrollDepth(DepthLabel(m))])
      case None => Tracker(depth, t.log)
    else t
  }

  function Run(t: Tracker, depths: seq<int>): Tracker
    decreases |depths|
  {
    if depths == [] then t else Run(Step(t, depths[0]), depths[1..])
  }

  /** The log lists milestones in non-decreasing order, none beyond the high-water mark's. */
  ghost predicate Consistent(t: Tracker) {
    && (forall i, j :: 0 <= i < j < |t.log| ==> Rank(t.log[i]) <= Rank(t.log[j]))
    && (forall i :: 0 <= i < |t.log| ==> Rank(t.log[i]) <= Bucket(t.maxDepth))
  }

  lemma BucketMonotone(a: int, b: int)
    requires a <= b
    ensures Bucket(a) <= Bucket(b)
  {
  }

  lemma StepKeepsConsistent(t: Tracker, depth: int)
    requires Consistent(t)
    ensures Consistent(Step(t, depth))
  {
    var t' := Step(t, depth);
    if |t'.log| == |t.log| + 1 {
      BucketMonotone(t.maxDepth, depth);
      assert Rank(t'.log[|t.log|]) == Bucket(depth);
    }
  }

  /** Over any sequence of scroll events, starting from a consistent state (such as
      the initial mark 0 with no events): the mark never decreases and ends at or
      above every depth seen, events are only ever appended, and the milestones
      reported never go down. */
  lemma {:induction false} RunIsMonotone(t: Tracker, depths: seq<int>)
    requires Consistent(t)
    ensures Consistent(Run(t, depths))
    ensures Run(t, depths).maxDepth >= t.maxDepth
    ensures forall i :: 0 <= i < |depths| ==> Run(t, depths).maxDepth >= depths[i]
    ensures t.log <= Run(t, depths).log
    decreases |depths|
  {
    if depths != [] {
      var t' := Step(t, depths[0]);
      StepKeepsConsistent(t, depths[0]);
      RunIsMonotone(t', depths[1..]);
      forall i | 0 <= i < |depths| ensures Run(t, depths).maxDepth >= depths[i] {
        if i > 0 {
          assert depths[i] == depths[1..][i - 1];
        }
      }
    }
  }

  /** No deduplication: two rises within the same bucket report that bucket twice. */
  lemma SameBucketReportedTwice()
    ensures Run(Tracker(0, []), [30, 40]).log == [ScrollDepth("25%"), ScrollDepth("25%")]
  {
    assert Step(Tracker(0, []), 30) == Tracker(30, [ScrollDepth("25%")]);
    assert [30, 40][1..] == [40];
  }

  /** Scrolling back up and down again to a depth already reached reports nothing. */
  lemma NoEventWithoutNewMaximum(t: Tracker, depth: int)
    requires depth <= t.maxDepth
    ensures Step(t, depth) == t
  {
  }

  /** The page's tracker: the module-level `maxScrollDepth` and the tracked events. */
  class ScrollDepthTracker {
    var maxScrollDepth: int
    var events: seq<Event>

    ghost function State(): Tracker
      reads this
    {
      Tracker(maxScrollDepth, events)
    }

    constructor ()
      ensures State() == Tracker(0, []) && Consistent(State())
    {
      maxScrollDepth := 0;
      events := [];
    }

    /** The debounced scroll handler, given the rounded depth in percent. */
    method OnScroll(depth: int)
      modifies this
      ensures State() == Step(old(State()), depth)
      ensures maxScrollDepth == if depth > old(maxScrollDepth) then depth else old(maxScrollDepth)
      ensures old(Consistent(State())) ==> Consistent(State())
    {
      if depth > maxScrollDepth {
        maxScrollDepth := depth;
        var milestone := MilestoneOf(maxScrollDepth);
        if milestone.Some? {
          events := events + [ScrollDepth(DepthLabel(milestone.value))];
        }
      }
      if old(Consistent(State())) {
        StepKeepsConsistent(old(State()), depth);
      }
    }
  }
}
