/** The swap puzzle: the numbers 1..6 start shuffled; clicking one number selects
    it, clicking it again cancels, and clicking another exchanges the two. The
    puzzle is solved when the exchange leaves every number at its own place. */
module Sorting {
  import opened Seqs
  import opened Effects

  const Size: nat := 6

  /** Position i holds the number i + 1: the numbers are the list 1..n. */
  predicate IsOrdered(numbers: seq<int>)
    ensures IsOrdered(numbers) <==> numbers == Range(1, |numbers| + 1)
  {
    forall i :: 0 <= i < |numbers| ==> numbers[i] == i + 1
  }

  /** Every pair of positions is in increasing order. */
  predicate Increasing(numbers: seq<int>) {
    forall i, j :: 0 <= i < j < |numbers| ==> numbers[i] < numbers[j]
  }

  /** For an arrangement of 1..n, being in place and being sorted are the same. */
  lemma OrderedIffIncreasing(numbers: seq<int>, n: nat)
    requires IsPermutation(numbers, n)
    ensures IsOrdered(numbers) <==> Increasing(numbers)
  {
    if Increasing(numbers) {
      forall i | 0 <= i < |numbers| ensures numbers[i] == i + 1 {
        LowerBound(numbers, i);
        UpperBound(numbers, n, i);
      }
    }
  }

  lemma {:induction false} LowerBound(numbers: seq<int>, i: nat)
    requires Increasing(numbers) && i < |numbers|
    requires forall k :: 0 <= k < |numbers| ==> 1 <= numbers[k]
    ensures numbers[i] >= i + 1
  {
    if i > 0 {
      LowerBound(numbers, i - 1);
    }
  }

  lemma {:induction false} UpperBound(numbers: seq<int>, n: nat, i: nat)
    requires Increasing(numbers) && i < |numbers| == n
    requires forall k :: 0 <= k < |numbers| ==> numbers[k] <= n
    ensures numbers[i] <= i + 1
    decreases n - i
  {
    if i + 1 < n {
      UpperBound(numbers, n, i + 1);
    }
  }

  datatype Selection = NoSelection | Selected(index: nat)

  datatype SortState = SortState(numbers: seq<int>, selection: Selection)

  predicate Valid(s: SortState) {
    IsPermutation(s.numbers, Size) && (s.selection.Selected? ==> s.selection.index < Size)
  }

  /** The puzzle as first shown: a shuffle of 1..6, nothing selected. */
  function Mount(shuffle: seq<Transposition>): (s: SortState)
    requires FitsIn(shuffle, Size)
    ensures Valid(s) && s.selection == NoSelection
    ensures multiset(s.numbers) == multiset(Range(1, Size + 1))
  {
    SortState(Shuffled(Size, shuffle), NoSelection)
  }

  /** Every arrangement of 1..6 can be the starting one. */
  lemma EveryStartIsPossible(numbers: seq<int>)
    requires IsPermutation(numbers, Size)
    ensures exists shuffle :: FitsIn(shuffle, Size) && Mount(shuffle).numbers == numbers
  {
    EveryPermutationIsShuffled(numbers, Size);
  }

  const PickAnother: string := "Ahora selecciona otro número para intercambiar"
  const Cancelled: string := "Selección cancelada"
  const DoneText: string := "¡Perfecto! Ordenamiento completado " + DirectHit

  /** A click on the number at `index`. Nothing stops clicks once the numbers are in
      order, so the puzzle can be solved, and reported, more than once. */
  function HandleClick(s: SortState, index: nat): (r: Step<SortState>)
    requires Valid(s) && index < |s.numbers|
    ensures Valid(r.state)
    ensures multiset(r.state.numbers) == multiset(s.numbers)
    ensures s.selection == NoSelection ==>
              r.state == s.(selection := Selected(index))
              && r.effects == [Notify(Info, PickAnother)]
    ensures s.selection == Selected(index) ==>
              r.state == s.(selection := NoSelection)
              && r.effects == [Notify(Info, Cancelled)]
    ensures s.selection.Selected? && s.selection.index != index ==>
              var j := s.selection.index;
              && r.state.selection == NoSelection
              && r.state.numbers[j] == s.numbers[index]
              && r.state.numbers[index] == s.numbers[j]
              && (forall k :: 0 <= k < |s.numbers| && k != j && k != index ==>
                    r.state.numbers[k] == s.numbers[k])
              && (ScheduleComplete in r.effects <==> IsOrdered(r.state.numbers))
              && (r.effects == [] <==> !IsOrdered(r.state.numbers))
  {
    match s.selection
    case NoSelection => Step(s.(selection := Selected(index)), [Notify(Info, PickAnother)])
    case Selected(j) =>
      if j == index then Step(s.(selection := NoSelection), [Notify(Info, Cancelled)])
      else
        var swapped := Swap(s.numbers, j, index);
        SwapKeepsDistinct(s.numbers, j, index);
        var next := SortState(swapped, NoSelection);
        if IsOrdered(swapped) then Step(next, [Notify(Success, DoneText), ScheduleComplete])
        else Step(next, [])
  }

  /** Exchanging the same two positions twice puts the numbers back as they were. */
  lemma SwapBackRestores(s: SortState, i: nat, j: nat)
    requires Valid(s) && s.selection == NoSelection
    requires i < Size && j < Size && i != j
    ensures var s1 := HandleClick(s, i).state;
            var s2 := HandleClick(s1, j).state;
            var s3 := HandleClick(s2, i).state;
            var s4 := HandleClick(s3, j).state;
            s4 == s
  {
    var s1 := HandleClick(s, i).state;
    var s2 := HandleClick(s1, j).state;
    assert s2.numbers == Swap(s.numbers, i, j);
    var s3 := HandleClick(s2, i).state;
    var s4 := HandleClick(s3, j).state;
    assert s4.numbers == Swap(Swap(s.numbers, i, j), i, j);
    SwapTwiceRestores(s.numbers, i, j);
  }

  /** A solved board still takes clicks: swapping the first two numbers away and back
      schedules the completion callback a second time. */
  lemma SolvedBoardCompletesAgain(s: SortState)
    requires Valid(s) && s.selection == NoSelection && IsOrdered(s.numbers)
    ensures var s1 := HandleClick(s, 0);
            var s2 := HandleClick(s1.state, 1);
            var s3 := HandleClick(s2.state, 0);
            var s4 := HandleClick(s3.state, 1);
            && ScheduleComplete !in s2.effects
            && ScheduleComplete in s4.effects
  {
    var s2 := HandleClick(HandleClick(s, 0).state, 1);
    assert s2.state.numbers[0] == 2;
    var s4 := HandleClick(HandleClick(s2.state, 0).state, 1);
    SwapBackRestores(s, 0, 1);
  }
}
