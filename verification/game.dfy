/** The page that runs the five puzzles in a fixed order, moves to the next one
    whenever the current one reports completion, and stops the clock after the last. */
module Game {

  datatype PuzzleKind = ColorSequence | NumberPattern | MemoryClick | Sorting | ColorCode

  datatype Puzzle = Puzzle(id: nat, kind: PuzzleKind, name: string)

  /** The puzzles, in the order they are played. */
  const Puzzles: seq<Puzzle> := [
    Puzzle(1, ColorSequence, "Secuencia de Colores"),
    Puzzle(2, NumberPattern, "Patrón Numérico"),
    Puzzle(3, MemoryClick, "Memoria de Clicks"),
    Puzzle(4, Sorting, "Ordenamiento"),
    Puzzle(5, ColorCode, "Código de Colores")
  ]

  lemma PuzzleList()
    ensures |Puzzles| == 5
    ensures forall i :: 0 <= i < |Puzzles| ==> Puzzles[i].id == i + 1
    ensures Puzzles[0].kind == ColorSequence && Puzzles[1].kind == NumberPattern
    ensures Puzzles[2].kind == MemoryClick && Puzzles[3].kind == Sorting
    ensures Puzzles[4].kind == ColorCode
  {
  }

  /** The session: index of the puzzle on screen, the start instant and, once the
      game is over, the whole seconds it took. Instants are integer milliseconds. */
  datatype Session = Session(index: nat, startMs: int, totalTime: int, completed: bool)

  /** The index names a puzzle, and only the last puzzle can be the finished one. */
  predicate Valid(g: Session) {
    g.index < |Puzzles| && (g.completed ==> g.index == |Puzzles| - 1)
  }

  function Start(nowMs: int): (g: Session)
    ensures Valid(g) && g.index == 0 && !g.completed && g.startMs == nowMs
  {
    Session(0, nowMs, 0, false)
  }

  /** Whole seconds between two instants, rounded down. */
  function ElapsedSeconds(startMs: int, endMs: int): (secs: int)
    ensures secs * 1000 <= endMs - startMs < (secs + 1) * 1000
    ensures endMs >= startMs ==> secs >= 0
  {
    (endMs - startMs) / 1000
  }

  /** The completion callback every puzzle is given. */
  function PuzzleCompleted(g: Session, nowMs: int): (r: Session)
    requires Valid(g)
    ensures Valid(r) && r.startMs == g.startMs
    ensures g.index == |Puzzles| - 1 ==>
              r.index == g.index && r.completed
              && r.totalTime == ElapsedSeconds(g.startMs, nowMs)
    ensures g.index < |Puzzles| - 1 ==>
              r.index == g.index + 1 && !r.completed && r.totalTime == g.totalTime
  {
    if g.index == |Puzzles| - 1 then
      g.(totalTime := ElapsedSeconds(g.startMs, nowMs), completed := true)
    else
      g.(index := g.index + 1)
  }

  function CurrentPuzzle(g: Session): (p: Puzzle)
    requires Valid(g)
    ensures p.id == g.index + 1
  {
    PuzzleList();
    Puzzles[g.index]
  }

  /** Completions reported at the given instants, in order. */
  function Run(g: Session, instants: seq<int>): (r: Session)
    requires Valid(g)
    ensures Valid(r)
    decreases |instants|
  {
    if |instants| == 0 then g else Run(PuzzleCompleted(g, instants[0]), instants[1..])
  }

  /** From the start, four completions walk through the first four puzzles and the
      fifth ends the game with the time taken until that fifth report. */
  lemma {:induction false} FiveCompletionsFinish(t0: int, instants: seq<int>)
    requires |instants| == 5
    ensures var r := Run(Start(t0), instants);
            r.completed && r.index == 4 && r.totalTime == ElapsedSeconds(t0, instants[4])
  {
    var g0 := Start(t0);
    var g1 := PuzzleCompleted(g0, instants[0]);
    var g2 := PuzzleCompleted(g1, instants[1]);
    var g3 := PuzzleCompleted(g2, instants[2]);
    var g4 := PuzzleCompleted(g3, instants[3]);
    var g5 := PuzzleCompleted(g4, instants[4]);
    assert g4.index == 4 && !g4.completed;
    RunStep(g4, instants, 4);
    RunStep(g3, instants, 3);
    RunStep(g2, instants, 2);
    RunStep(g1, instants, 1);
    RunStep(g0, instants, 0);
    assert instants[0..] == instants;
  }

  /** One report, then the rest. */
  lemma RunStep(g: Session, ts: seq<int>, k: nat)
    requires Valid(g) && k < |ts|
    ensures Run(g, ts[k..]) == Run(PuzzleCompleted(g, ts[k]), ts[k + 1..])
  {
    assert ts[k..][1..] == ts[k + 1..];
  }

  /** The game stays on the last puzzle once complete; a further completion report
      (a puzzle may fire its callback twice) takes the time again, at that report. */
  lemma LateReportRetakesTime(g: Session, nowMs: int)
    requires Valid(g) && g.completed && g.index == |Puzzles| - 1
    ensures PuzzleCompleted(g, nowMs).totalTime == ElapsedSeconds(g.startMs, nowMs)
    ensures PuzzleCompleted(g, nowMs).index == g.index
  {
  }

  datatype Dot = Done | Active | Pending

  /** How the progress bar draws the dot of puzzle `i`. */
  function DotAt(i: nat, current: nat): (d: Dot)
    ensures d == Done <==> i < current
    ensures d == Active <==> i == current
    ensures d == Pending <==> i > current
  {
    if i == current then Active else if i < current then Done else Pending
  }

  function Dots(current: nat): (ds: seq<Dot>)
    ensures |ds| == |Puzzles|
    ensures forall i :: 0 <= i < |ds| ==> ds[i] == DotAt(i, current)
  {
    seq(|Puzzles|, i requires 0 <= i => DotAt(i, current))
  }

  function CountActive(ds: seq<Dot>): nat {
    if |ds| == 0 then 0 else (if ds[0] == Active then 1 else 0) + CountActive(ds[1..])
  }

  /** On a valid session exactly one dot is active: the current puzzle's. */
  lemma OneActiveDot(g: Session)
    requires Valid(g)
    ensures CountActive(Dots(g.index)) == 1
  {
    ActiveCount(Dots(g.index), 0, g.index);
  }

  lemma {:induction false} ActiveCount(ds: seq<Dot>, offset: nat, current: nat)
    requires forall i :: 0 <= i < |ds| ==> ds[i] == DotAt(offset + i, current)
    ensures CountActive(ds) == (if offset <= current < offset + |ds| then 1 else 0)
    decreases |ds|
  {
    if |ds| > 0 {
      ActiveCount(ds[1..], offset + 1, current);
    }
  }
}
