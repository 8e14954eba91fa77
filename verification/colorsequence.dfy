/** The "Simon says" puzzle: four colour tokens are drawn, played back one by one
    while input is locked, and the player repeats them; every click is checked
    against the token at the position the player has reached. */
module ColorSequence {
  import opened Effects

  /** Tokens are the colour ids 1..4. */
  const TokenCount: nat := 4
  const TargetLength: nat := 4

  predicate IsToken(t: int) {
    1 <= t <= TokenCount
  }

  /** `Math.floor(Math.random() * 4)`, once per position: each roll is in 0..3. */
  predicate ValidRolls(rolls: seq<int>) {
    |rolls| == TargetLength && forall k :: 0 <= k < |rolls| ==> 0 <= rolls[k] < TokenCount
  }

  /** A fresh target drawn with replacement from the rolls. */
  function NewTarget(rolls: seq<int>): (target: seq<int>)
    requires ValidRolls(rolls)
    ensures |target| == TargetLength
    ensures forall k :: 0 <= k < |target| ==> IsToken(target[k])
  {
    seq(TargetLength, k requires 0 <= k < TargetLength => rolls[k] + 1)
  }

  /** Every target of four tokens, repeats included, can be drawn. */
  lemma EveryTargetIsReachable(target: seq<int>)
    requires |target| == TargetLength && forall k :: 0 <= k < |target| ==> IsToken(target[k])
    ensures exists rolls :: ValidRolls(rolls) && NewTarget(rolls) == target
  {
    var rolls := seq(TargetLength, k requires 0 <= k < TargetLength => target[k] - 1);
    assert NewTarget(rolls) == target;
  }

  /** Where the playback loop is: before showing `tokens[step]` (`lit` false) or
      while showing it (`lit` true). */
  datatype Playback = Stopped | Playing(tokens: seq<int>, step: nat, lit: bool)

  datatype SeqState = SeqState(target: seq<int>, progress: seq<int>, showing: bool,
                               playback: Playback)

  /** Before the first target is drawn. */
  const Mounted: SeqState := SeqState([], [], false, Stopped)

  /** Draws a new target and schedules the playback of that very sequence; progress
      and the lock are left as they are until the playback starts. */
  function Generate(s: SeqState, rolls: seq<int>): (r: Step<SeqState>)
    requires ValidRolls(rolls)
    ensures r.state.target == NewTarget(rolls)
    ensures r.state.progress == s.progress && r.state.showing == s.showing
    ensures r.state.playback == s.playback
    ensures r.effects == [ScheduleShowOf(r.state.target)]
  {
    var target := NewTarget(rolls);
    Step(s.(target := target), [ScheduleShowOf(target)])
  }

  /** Playback starts: input is locked and progress cleared. An empty sequence has
      nothing to show, so the lock is released at once. */
  function StartShow(s: SeqState, tokens: seq<int>): (r: SeqState)
    ensures r.progress == [] && r.target == s.target
    ensures r.showing <==> |tokens| > 0
    ensures |tokens| > 0 ==> r.playback == Playing(tokens, 0, false)
  {
    if |tokens| == 0 then s.(showing := false, progress := [], playback := Stopped)
    else s.(showing := true, progress := [], playback := Playing(tokens, 0, false))
  }

  /** One timer firing of the playback loop: light the next token, or put it out and
      move on; putting out the last one releases the lock. */
  function Tick(s: SeqState): (r: SeqState)
    ensures r.target == s.target && r.progress == s.progress
  {
    match s.playback
    case Stopped => s
    case Playing(tokens, step, lit) =>
      if !lit && step < |tokens| then s.(playback := Playing(tokens, step, true))
      else if lit && step + 1 < |tokens| then s.(playback := Playing(tokens, step + 1, false))
      else s.(showing := false, playback := Stopped)
  }

  /** The token lit in this state, if any, as a list of at most one. */
  function Lit(s: SeqState): seq<int> {
    match s.playback
    case Stopped => []
    case Playing(tokens, step, lit) => if lit && step < |tokens| then [tokens[step]] else []
  }

  function Ticks(s: SeqState, k: nat): SeqState
    decreases k
  {
    if k == 0 then s else Ticks(Tick(s), k - 1)
  }

  /** The tokens lit, in order, over the next `k` firings. */
  function Trace(s: SeqState, k: nat): seq<int>
    decreases k
  {
    if k == 0 then [] else Lit(Tick(s)) + Trace(Tick(s), k - 1)
  }

  /** Playback of n tokens: the lock holds for the first 2n - 1 firings, the tokens
      light up in target order, and the 2n-th firing releases the lock with progress
      still empty. */
  lemma PlaybackShowsTargetThenUnlocks(s: SeqState, tokens: seq<int>)
    requires |tokens| > 0
    ensures var s0 := StartShow(s, tokens);
            var n := 2 * |tokens|;
            && (forall k :: 0 <= k < n ==> Ticks(s0, k).showing)
            && !Ticks(s0, n).showing
            && Trace(s0, n) == tokens
            && Ticks(s0, n).progress == [] && Ticks(s0, n).target == s.target
  {
    PlayFrom(StartShow(s, tokens), tokens, 0);
  }

  lemma {:induction false} PlayFrom(s: SeqState, tokens: seq<int>, i: nat)
    requires i < |tokens| && s.showing && s.playback == Playing(tokens, i, false)
    ensures var n := 2 * (|tokens| - i);
            && (forall k :: 0 <= k < n ==> Ticks(s, k).showing)
            && !Ticks(s, n).showing && Ticks(s, n).playback == Stopped
            && Trace(s, n) == tokens[i..]
            && Ticks(s, n).progress == s.progress && Ticks(s, n).target == s.target
    decreases |tokens| - i
  {
    var n := 2 * (|tokens| - i);
    var s1 := Tick(s);
    var s2 := Tick(s1);
    assert s1.showing && s1.playback == Playing(tokens, i, true) && Lit(s1) == [tokens[i]];
    assert Ticks(s, n) == Ticks(s2, n - 2) by {
      assert Ticks(s, n) == Ticks(s1, n - 1);
    }
    assert Trace(s, n) == [tokens[i]] + Lit(s2) + Trace(s2, n - 2);
    if i + 1 < |tokens| {
      assert s2.showing && s2.playback == Playing(tokens, i + 1, false) && Lit(s2) == [];
      PlayFrom(s2, tokens, i + 1);
      assert tokens[i..] == [tokens[i]] + tokens[i + 1..];
      forall k | 0 <= k < n ensures Ticks(s, k).showing {
        if k >= 2 {
          assert Ticks(s, k) == Ticks(s2, k - 2) by {
            assert Ticks(s, k) == Ticks(s1, k - 1);
          }
        } else if k == 1 {
          assert Ticks(s, 1) == Ticks(s1, 0);
        }
      }
    } else {
      assert !s2.showing && s2.playback == Stopped && Lit(s2) == [];
      assert n == 2;
      assert Ticks(s, 1) == Ticks(s1, 0);
      assert Ticks(s2, 0) == s2 && Trace(s2, 0) == [];
    }
  }

  /** Whether a click on `color` disagrees with the target at the position the
      player has reached; past the target's end every click disagrees. While the
      progress is a prefix of the target, a click mismatches exactly when appending
      it would break that. */
  predicate Mismatch(s: SeqState, color: int)
    ensures IsPrefix(s.progress, s.target) ==>
              (Mismatch(s, color) <==> !IsPrefix(s.progress + [color], s.target))
  {
    PrefixExtends(s.progress, s.target, color);
    var at := |s.progress|;
    at >= |s.target| || s.target[at] != color
  }

  /** A prefix stays one after appending `c` exactly when `c` is the next element. */
  lemma PrefixExtends(p: seq<int>, t: seq<int>, c: int)
    ensures IsPrefix(p, t) ==>
              (IsPrefix(p + [c], t) <==> |p| < |t| && t[|p|] == c)
  {
    if IsPrefix(p, t) && |p| < |t| {
      assert t[..|p| + 1] == t[..|p|] + [t[|p|]];
    }
  }

  const WrongText: string := "¡Incorrecto! Intenta de nuevo"
  const DoneText: string := "¡Perfecto! Secuencia completada " + PartyPopper

  /** A click on a colour. Nothing guards the time between a wrong click and the
      scheduled restart: clicks in that window are recorded and checked as usual. */
  function Click(s: SeqState, color: int): (r: Step<SeqState>)
    ensures s.showing ==> r == Step(s, [])
    ensures !s.showing ==>
              && r.state.progress == s.progress + [color]
              && r.state.target == s.target && r.state.showing == s.showing
              && r.state.playback == s.playback
    ensures !s.showing ==> (ScheduleRestart in r.effects <==> Mismatch(s, color))
    ensures !s.showing ==>
              (ScheduleComplete in r.effects <==>
                 !Mismatch(s, color) && |s.progress| + 1 == |s.target|)
    ensures !s.showing && Mismatch(s, color) ==>
              r.effects == [Notify(Error, WrongText), ScheduleRestart]
    ensures !s.showing && !Mismatch(s, color) && |s.progress| + 1 == |s.target| ==>
              r.effects == [Notify(Success, DoneText), ScheduleComplete]
    ensures !s.showing && !Mismatch(s, color) && |s.progress| + 1 != |s.target| ==>
              r.effects == []
  {
    if s.showing then Step(s, [])
    else
      var at := |s.progress|;
      var next := s.(progress := s.progress + [color]);
      if at >= |s.target| || s.target[at] != color then
        Step(next, [Notify(Error, WrongText), ScheduleRestart])
      else if |next.progress| == |s.target| then
        Step(next, [Notify(Success, DoneText), ScheduleComplete])
      else
        Step(next, [])
  }

  predicate IsPrefix(p: seq<int>, t: seq<int>) {
    |p| <= |t| && p == t[..|p|]
  }

  /** A click that matches keeps progress a prefix of the target, and the one that
      completes makes progress the whole target. */
  lemma ClickKeepsPrefix(s: SeqState, color: int)
    requires IsPrefix(s.progress, s.target)
    requires ScheduleRestart !in Click(s, color).effects
    ensures IsPrefix(Click(s, color).state.progress, s.target)
    ensures ScheduleComplete in Click(s, color).effects ==> Click(s, color).state.progress == s.target
  {
    if !s.showing {
      PrefixExtends(s.progress, s.target, color);
    }
  }

  /** Clicks applied in order, effects collected in order. */
  function Clicks(s: SeqState, colors: seq<int>): (r: Step<SeqState>)
    ensures r.state.target == s.target
    decreases |colors|
  {
    if |colors| == 0 then Step(s, [])
    else
      var first := Click(s, colors[0]);
      var rest := Clicks(first.state, colors[1..]);
      Step(rest.state, first.effects + rest.effects)
  }

  /** As long as no click since the playback mismatched, progress is a prefix of
      the target, so a completion can only follow the full target. */
  lemma {:induction false} NoMismatchKeepsPrefix(s: SeqState, colors: seq<int>)
    requires IsPrefix(s.progress, s.target)
    requires ScheduleRestart !in Clicks(s, colors).effects
    ensures IsPrefix(Clicks(s, colors).state.progress, s.target)
    decreases |colors|
  {
    if |colors| > 0 {
      var first := Click(s, colors[0]);
      assert ScheduleRestart !in first.effects;
      ClickKeepsPrefix(s, colors[0]);
      NoMismatchKeepsPrefix(first.state, colors[1..]);
    }
  }

  /** A wrong click schedules a second draw before the first draw's playback has
      fired. That playback still plays the sequence it was scheduled with, which is
      no longer the target the clicks are checked against. */
  lemma EarlierShowPlaysReplacedTarget(s: SeqState, first: seq<int>, second: seq<int>)
    requires ValidRolls(first) && ValidRolls(second) && NewTarget(first) != NewTarget(second)
    ensures var g1 := Generate(s, first);
            var g2 := Generate(g1.state, second);
            var shown := StartShow(g2.state, NewTarget(first));
            && g1.effects == [ScheduleShowOf(NewTarget(first))]
            && Trace(shown, 2 * TargetLength) == NewTarget(first)
            && shown.target == NewTarget(second)
  {
    var g2 := Generate(Generate(s, first).state, second);
    PlaybackShowsTargetThenUnlocks(g2.state, NewTarget(first));
  }

  /** Target 1,2,3,4 and input 1,2,4: the first two clicks pass silently and the
      third, at index 2, schedules the restart. */
  lemma MismatchAtThirdClick(s: SeqState)
    requires s.target == [1, 2, 3, 4] && s.progress == [] && !s.showing
    ensures var after := Clicks(s, [1, 2]);
            after.effects == [] && after.state.progress == [1, 2]
            && ScheduleRestart in Click(after.state, 4).effects
            && ScheduleComplete !in Click(after.state, 4).effects
  {
    var a1 := Click(s, 1);
    var a2 := Click(a1.state, 2);
    assert a1.effects == [] && a2.effects == [];
    assert [1, 2][1..] == [2];
    assert Clicks(a2.state, []) == Step(a2.state, []);
    assert Clicks(a1.state, [2]) == Step(a2.state, []);
  }

  /** Against target 1,2,3,4 the input 2,2,3,4 starts with a wrong click, yet the
      clicks that follow before the restart fires are checked against positions
      1, 2, 3 and complete the puzzle. */
  lemma WrongClickDoesNotLockInput(s: SeqState)
    requires s.target == [1, 2, 3, 4] && s.progress == [] && !s.showing
    ensures ScheduleRestart in Click(s, 2).effects
    ensures var s1 := Click(s, 2).state;
            var s2 := Click(s1, 2).state;
            var s3 := Click(s2, 3).state;
            ScheduleComplete in Click(s3, 4).effects
            && Click(s3, 4).state.progress == [2, 2, 3, 4] != s.target
  {
    var s1 := Click(s, 2).state;
    assert s1.progress == [2];
    var s2 := Click(s1, 2).state;
    assert s2.progress == [2, 2];
    var s3 := Click(s2, 3).state;
    assert s3.progress == [2, 2, 3];
    assert !Mismatch(s3, 4);
  }
}
