/** The counting puzzle: the numbers 1..9 are laid out in a shuffled 3x3 grid and
    the player clicks them in increasing order. The grid never changes; only the
    list of numbers clicked so far grows. */
module NumberPattern {
  import opened Seqs
  import opened Decimal
  import opened Effects

  const BoardSize: nat := 9

  datatype PatternState = PatternState(board: seq<int>, clicked: seq<int>)

  /** The puzzle as first shown: 1..9 shuffled, nothing clicked. */
  function Mount(shuffle: seq<Transposition>): (s: PatternState)
    requires FitsIn(shuffle, BoardSize)
    ensures IsPermutation(s.board, BoardSize) && s.clicked == []
  {
    PatternState(Shuffled(BoardSize, shuffle), [])
  }

  /** Every arrangement of 1..9 can be the grid. */
  lemma EveryBoardIsPossible(board: seq<int>)
    requires IsPermutation(board, BoardSize)
    ensures exists shuffle :: FitsIn(shuffle, BoardSize) && Mount(shuffle).board == board
  {
    EveryPermutationIsShuffled(board, BoardSize);
  }

  /** The clicked numbers so far are exactly 1, 2, ..., k. */
  predicate Counting(clicked: seq<int>) {
    forall i :: 0 <= i < |clicked| ==> clicked[i] == i + 1
  }

  /** The number the player must click next: while the clicked list counts up from
      1, the smallest positive number not yet clicked. */
  function NextNumber(s: PatternState): (n: nat)
    ensures Counting(s.clicked) ==> n !in s.clicked
    ensures Counting(s.clicked) ==> forall v :: 1 <= v < n ==> v in s.clicked
  {
    CountingHoldsOneToLength(s.clicked);
    |s.clicked| + 1
  }

  /** A counting list holds 1..k and nothing larger. */
  lemma CountingHoldsOneToLength(clicked: seq<int>)
    ensures Counting(clicked) ==> |clicked| + 1 !in clicked
    ensures Counting(clicked) ==> forall v :: 1 <= v <= |clicked| ==> v in clicked
  {
    if Counting(clicked) {
      forall v | 1 <= v <= |clicked| ensures v in clicked {
        assert clicked[v - 1] == v;
      }
    }
  }

  const HintLead: string := "¡Correcto! Ahora busca el "
  const ErrorLead: string := "¡No! Debes clickear el "
  const DoneText: string := "¡Perfecto! Todos los números en orden " + DirectHit

  /** The success hint: the lead text, then the number to look for, which reads back
      from the digits after the lead. */
  function Hint(n: nat): (text: string)
    ensures |text| > |HintLead| && text[..|HintLead|] == HintLead
    ensures AllDigits(text[|HintLead|..]) && ParseNat(text[|HintLead|..]) == n
  {
    ParseRender(n);
    var text := HintLead + NatToString(n);
    assert text[..|HintLead|] == HintLead && text[|HintLead|..] == NatToString(n);
    text
  }

  /** The error text: the lead text, then the number that must be clicked, which
      reads back from the digits after the lead. */
  function MustClick(n: nat): (text: string)
    ensures |text| > |ErrorLead| && text[..|ErrorLead|] == ErrorLead
    ensures AllDigits(text[|ErrorLead|..]) && ParseNat(text[|ErrorLead|..]) == n
  {
    ParseRender(n);
    var text := ErrorLead + NatToString(n);
    assert text[..|ErrorLead|] == ErrorLead && text[|ErrorLead|..] == NatToString(n);
    text
  }

  /** Different numbers give different hints and different error texts. */
  lemma MessagesNameTheirNumber(m: nat, n: nat)
    ensures Hint(m) == Hint(n) ==> m == n
    ensures MustClick(m) == MustClick(n) ==> m == n
  {
  }

  /** A click on the number `num`. The expected number is appended; any other number
      changes nothing and names the expected one. */
  function Click(s: PatternState, num: int): (r: Step<PatternState>)
    ensures r.state.board == s.board
    ensures num == NextNumber(s) ==> r.state.clicked == s.clicked + [num]
    ensures num != NextNumber(s) ==>
              r.state == s && r.effects == [Notify(Error, MustClick(NextNumber(s)))]
    ensures ScheduleComplete in r.effects <==> num == NextNumber(s) == BoardSize
    ensures num == NextNumber(s) != BoardSize ==>
              r.effects == [Notify(Success, Hint(NextNumber(s) + 1))]
    ensures Counting(s.clicked) ==> Counting(r.state.clicked)
  {
    var next := NextNumber(s);
    if num == next then
      var clicked := s.clicked + [num];
      if |clicked| == BoardSize then
        Step(s.(clicked := clicked), [Notify(Success, DoneText), ScheduleComplete])
      else
        Step(s.(clicked := clicked), [Notify(Success, Hint(next + 1))])
    else
      Step(s, [Notify(Error, MustClick(next))])
  }

  /** Clicks on numbers of the grid never take the clicked list past nine entries. */
  lemma BoardClicksStayWithinNine(s: PatternState, num: int)
    requires IsPermutation(s.board, BoardSize) && |s.clicked| <= BoardSize
    requires num in s.board
    ensures |Click(s, num).state.clicked| <= BoardSize
  {
  }

  /** Once all nine are clicked, every number of the grid is refused, so completion
      is never scheduled twice. */
  lemma NothingAfterCompletion(s: PatternState, num: int)
    requires IsPermutation(s.board, BoardSize) && |s.clicked| == BoardSize
    requires num in s.board
    ensures Click(s, num).state == s
    ensures ScheduleComplete !in Click(s, num).effects
  {
  }

  /** Clicks applied in order, effects collected in order. */
  function Clicks(s: PatternState, nums: seq<int>): (r: Step<PatternState>)
    ensures r.state.board == s.board
    decreases |nums|
  {
    if |nums| == 0 then Step(s, [])
    else
      var first := Click(s, nums[0]);
      var rest := Clicks(first.state, nums[1..]);
      Step(rest.state, first.effects + rest.effects)
  }

  /** Clicking 1..9 in order with nothing clicked yet clicks them all and schedules the
      completion exactly once. */
  lemma InOrderCompletesOnce(s: PatternState)
    requires s.clicked == []
    ensures var r := Clicks(s, Range(1, BoardSize + 1));
            r.state.clicked == Range(1, BoardSize + 1)
            && Count(r.effects, ScheduleComplete) == 1
  {
    InOrderFrom(s, 0);
  }

  lemma {:induction false} InOrderFrom(s: PatternState, k: nat)
    requires k <= BoardSize && |s.clicked| == k && Counting(s.clicked)
    ensures var r := Clicks(s, Range(k + 1, BoardSize + 1));
            r.state.clicked == Range(1, BoardSize + 1)
            && Count(r.effects, ScheduleComplete) == (if k < BoardSize then 1 else 0)
    decreases BoardSize - k
  {
    var nums := Range(k + 1, BoardSize + 1);
    if k == BoardSize {
      assert s.clicked == Range(1, BoardSize + 1);
    } else {
      var first := Click(s, k + 1);
      assert nums[0] == k + 1 && nums[1..] == Range(k + 2, BoardSize + 1);
      ClickNextCounts(s);
      InOrderFrom(first.state, k + 1);
      var rest := Clicks(first.state, nums[1..]);
      CountAppend(first.effects, rest.effects, ScheduleComplete);
    }
  }

  /** The expected click schedules completion once when it is the ninth, else never. */
  lemma ClickNextCounts(s: PatternState)
    requires |s.clicked| < BoardSize && Counting(s.clicked)
    ensures var first := Click(s, NextNumber(s));
            && first.state.clicked == s.clicked + [NextNumber(s)]
            && Counting(first.state.clicked)
            && Count(first.effects, ScheduleComplete)
                 == (if NextNumber(s) == BoardSize then 1 else 0)
  {
    var first := Click(s, NextNumber(s));
    if NextNumber(s) == BoardSize {
      assert first.effects == [Notify(Success, DoneText), ScheduleComplete];
      assert first.effects[1..] == [ScheduleComplete];
      assert first.effects[1..][1..] == [];
    }
  }
}
