/** The spatial memory puzzle: five distinct cells of a 4x4 grid are revealed for a
    while, then the player clicks cells; a cell outside the targets restarts the
    round, and clicking as many cells as there are targets completes it. */
module MemoryClick {
  import opened Seqs
  import opened Effects

  const GridSize: int := 16
  const TargetCount: nat := 5

  predicate InGrid(p: int) {
    0 <= p < GridSize
  }

  /** `Math.floor(Math.random() * 16)`, one value per loop iteration. */
  predicate ValidDraws(draws: seq<int>) {
    forall k :: 0 <= k < |draws| ==> InGrid(draws[k])
  }

  predicate ValidTargets(t: seq<int>) {
    |t| == TargetCount && Distinct(t) && forall k :: 0 <= k < |t| ==> InGrid(t[k])
  }

  /** The values of `xs` in order of first occurrence. */
  function Dedup(xs: seq<int>): (r: seq<int>)
    ensures Distinct(r)
    ensures forall v :: v in r <==> v in xs
    ensures |r| <= |xs|
  {
    if |xs| == 0 then []
    else
      var d := Dedup(xs[..|xs| - 1]);
      var last := xs[|xs| - 1];
      assert forall v :: v in xs <==> v in xs[..|xs| - 1] || v == last by {
        assert xs == xs[..|xs| - 1] + [last];
      }
      if last in d then d else d + [last]
  }

  /** Taking one more value never shortens the list of distinct values. */
  lemma {:induction false} DedupGrows(xs: seq<int>, k: nat)
    requires k <= |xs|
    ensures |Dedup(xs[..k])| <= |Dedup(xs)|
    decreases |xs| - k
  {
    if k < |xs| {
      DedupGrows(xs, k + 1);
      assert xs[..k + 1][..k] == xs[..k];
    } else {
      assert xs[..k] == xs;
    }
  }

  /** One more draw: kept when new, dropped when already seen. */
  lemma DedupNext(xs: seq<int>, k: nat)
    requires k < |xs|
    ensures Dedup(xs[..k + 1]) ==
              if xs[k] in Dedup(xs[..k]) then Dedup(xs[..k]) else Dedup(xs[..k]) + [xs[k]]
    ensures xs[..k + 1][..k] == xs[..k]
  {
    assert xs[..k + 1][..k] == xs[..k];
  }

  /** The rejection-sampling loop: a draw already chosen is thrown away, a new one is
      kept, until five cells are chosen. `used` is how many draws it consumed. */
  method GenerateTargets(draws: seq<int>) returns (positions: seq<int>, used: nat)
    requires ValidDraws(draws)
    requires |Dedup(draws)| >= TargetCount
    ensures ValidTargets(positions)
    ensures 0 < used <= |draws| && positions == Dedup(draws[..used])
    ensures |Dedup(draws[..used - 1])| < TargetCount
  {
    positions := [];
    used := 0;
    while |positions| < TargetCount
      invariant used <= |draws|
      invariant positions == Dedup(draws[..used])
      invariant |positions| <= TargetCount
      invariant used > 0 ==> |Dedup(draws[..used - 1])| < TargetCount
      invariant forall k :: 0 <= k < |positions| ==> InGrid(positions[k])
      decreases |draws| - used
    {
      DedupGrows(draws, used);
      assert used < |draws| by {
        assert draws[..|draws|] == draws;
      }
      var pos := draws[used];
      DedupNext(draws, used);
      if pos !in positions {
        positions := positions + [pos];
      }
      used := used + 1;
    }
  }

  datatype RecallState = RecallState(targets: seq<int>, clicked: seq<int>,
                                     showing: bool, canClick: bool)

  /** Before the first targets are drawn. */
  const Mounted: RecallState := RecallState([], [], false, false)

  /** New targets are in place; their reveal is scheduled. */
  function Regenerate(s: RecallState, targets: seq<int>): (r: Step<RecallState>)
    requires ValidTargets(targets)
    ensures r.state == s.(targets := targets) && r.effects == [ScheduleShow]
  {
    Step(s.(targets := targets), [ScheduleShow])
  }

  /** The reveal window opens. */
  function BeginReveal(s: RecallState): (r: RecallState)
    ensures r.showing && r.canClick == s.canClick
    ensures r.targets == s.targets && r.clicked == s.clicked
  {
    s.(showing := true)
  }

  /** The reveal window closes and input is enabled. */
  function EndReveal(s: RecallState): (r: RecallState)
    ensures !r.showing && r.canClick
    ensures r.targets == s.targets && r.clicked == s.clicked
  {
    s.(showing := false, canClick := true)
  }

  /** The delayed restart after a wrong cell: clicks cleared, input disabled, fresh
      targets drawn. */
  function Reset(s: RecallState, targets: seq<int>): (r: Step<RecallState>)
    requires ValidTargets(targets)
    ensures r.state.clicked == [] && !r.state.canClick && r.state.targets == targets
    ensures r.state.showing == s.showing
    ensures r.effects == [ScheduleShow]
  {
    Regenerate(s.(clicked := [], canClick := false), targets)
  }

  const WrongText: string := "¡Esa no era! Intenta de nuevo"
  const DoneText: string := "¡Excelente memoria! " + Brain

  /** A click on cell `pos`. Ignored while input is disabled or when the cell was
      already clicked; otherwise recorded, then checked. Nothing disables input
      between a wrong click and the restart. */
  function Click(s: RecallState, pos: int): (r: Step<RecallState>)
    ensures !s.canClick || pos in s.clicked ==> r == Step(s, [])
    ensures s.canClick && pos !in s.clicked ==>
              && r.state.clicked == s.clicked + [pos]
              && r.state.targets == s.targets
              && r.state.showing == s.showing && r.state.canClick == s.canClick
              && (ScheduleRestart in r.effects <==> pos !in s.targets)
              && (ScheduleComplete in r.effects <==>
                    pos in s.targets && |s.clicked| + 1 == |s.targets|)
    ensures s.canClick && pos !in s.clicked && pos !in s.targets ==>
              r.effects == [Notify(Error, WrongText), ScheduleRestart]
    ensures s.canClick && pos !in s.clicked && pos in s.targets ==>
              r.effects == if |s.clicked| + 1 == |s.targets|
                           then [Notify(Success, DoneText), ScheduleComplete]
                           else []
    ensures Distinct(s.clicked) ==> Distinct(r.state.clicked)
  {
    if !s.canClick || pos in s.clicked then Step(s, [])
    else
      var next := s.(clicked := s.clicked + [pos]);
      if pos !in s.targets then Step(next, [Notify(Error, WrongText), ScheduleRestart])
      else if |next.clicked| == |s.targets| then Step(next, [Notify(Success, DoneText), ScheduleComplete])
      else Step(next, [])
  }

  /** Input stays disabled through the reveal that follows a mount or a reset. */
  lemma RevealIgnoresClicks(s: RecallState, pos: int)
    requires !s.canClick
    ensures Click(BeginReveal(s), pos) == Step(BeginReveal(s), [])
  {
  }

  /** Every round, the first after mounting or one after a restart, opens the same
      way: clicks are ignored until the reveal has closed, and then the player faces
      the new targets with nothing clicked and input enabled. */
  lemma EveryRoundStartsFresh(s: RecallState, targets: seq<int>, pos: int)
    requires ValidTargets(targets)
    ensures var round := RecallState(targets, [], false, true);
            && EndReveal(BeginReveal(Regenerate(Mounted, targets).state)) == round
            && EndReveal(BeginReveal(Reset(s, targets).state)) == round
    ensures var r := Reset(s, targets).state;
            && Click(r, pos) == Step(r, [])
            && Click(BeginReveal(r), pos) == Step(BeginReveal(r), [])
  {
  }

  /** When every cell clicked since the reset was a target, the click that completes
      the round leaves exactly the targets clicked. */
  lemma CompletionMeansAllFound(s: RecallState, pos: int)
    requires ValidTargets(s.targets) && Distinct(s.clicked)
    requires forall k :: 0 <= k < |s.clicked| ==> s.clicked[k] in s.targets
    requires ScheduleComplete in Click(s, pos).effects
    ensures Elements(Click(s, pos).state.clicked) == Elements(s.targets)
  {
    var c := Click(s, pos).state.clicked;
    assert forall k :: 0 <= k < |c| ==> c[k] in s.targets;
    SameLengthSubsetIsEqual(c, s.targets);
  }

  /** A wrong cell leaves input enabled until the restart fires: with targets
      0..4, the clicks 5, 0, 1, 2, 3 report the error and then complete. */
  lemma WrongClickDoesNotLockInput(s: RecallState)
    requires s.targets == [0, 1, 2, 3, 4] && s.clicked == [] && s.canClick
    ensures ScheduleRestart in Click(s, 5).effects
    ensures var s1 := Click(s, 5).state;
            var s2 := Click(s1, 0).state;
            var s3 := Click(s2, 1).state;
            var s4 := Click(s3, 2).state;
            ScheduleComplete in Click(s4, 3).effects
  {
    var s1 := s.(clicked := [5]);
    assert 5 !in s.targets && s.clicked + [5] == [5];
    assert Click(s, 5) == Step(s1, [Notify(Error, WrongText), ScheduleRestart]);
    var s2 := s.(clicked := [5, 0]);
    assert 0 !in s1.clicked && 0 in s1.targets && s1.clicked + [0] == [5, 0];
    assert Click(s1, 0) == Step(s2, []);
    var s3 := s.(clicked := [5, 0, 1]);
    assert 1 !in s2.clicked && 1 in s2.targets && s2.clicked + [1] == [5, 0, 1];
    assert Click(s2, 1) == Step(s3, []);
    var s4 := s.(clicked := [5, 0, 1, 2]);
    assert 2 !in s3.clicked && 2 in s3.targets && s3.clicked + [2] == [5, 0, 1, 2];
    assert Click(s3, 2) == Step(s4, []);
    assert 3 !in s4.clicked && 3 in s4.targets;
    assert Click(s4, 3).effects == [Notify(Success, DoneText), ScheduleComplete];
  }
}
