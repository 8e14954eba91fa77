/** The code-breaking puzzle: a hidden code of four colours drawn from a palette of
    six, a guess entered colour by colour, and a scorer that reports how many slots
    are right (exact) and how many further colours occur elsewhere in the code. */
module ColorCode {
  import opened Seqs
  import opened Decimal
  import opened Effects

  datatype Color = Red | Blue | Green | Yellow | Purple | Orange

  /** The palette in the order the puzzle offers it. */
  const Palette: seq<Color> := [Red, Blue, Green, Yellow, Purple, Orange]

  const CodeLength: nat := 4

  /** The value the scorer writes over a slot it has already credited. */
  const UsedMark: string := "used"

  /** The identifier the puzzle stores for a colour. */
  function Id(c: Color): string {
    match c
    case Red => "red"
    case Blue => "blue"
    case Green => "green"
    case Yellow => "yellow"
    case Purple => "purple"
    case Orange => "orange"
  }

  function Ids(cs: seq<Color>): (r: seq<string>)
    ensures |r| == |cs|
    ensures forall k :: 0 <= k < |cs| ==> r[k] == Id(cs[k])
  {
    seq(|cs|, k requires 0 <= k < |cs| => Id(cs[k]))
  }

  /** Identifiers tell colours apart, and none of them is the "used" mark, so the
      mark can never be mistaken for a colour. */
  lemma IdsAreDistinctAndUnmarked()
    ensures forall c: Color, d: Color :: Id(c) == Id(d) ==> c == d
    ensures forall c: Color :: Id(c) != UsedMark
  {
    forall c: Color, d: Color | Id(c) == Id(d)
      ensures c == d
    {
      assert Id(c)[0] == Id(d)[0];
      assert |Id(c)| == |Id(d)|;
    }
  }

  lemma PaletteListsEveryColorOnce()
    ensures |Palette| == 6 && Distinct(Palette)
    ensures forall c: Color :: c in Palette
  {
    forall c: Color ensures c in Palette {
      match c
      case Red => assert Palette[0] == c;
      case Blue => assert Palette[1] == c;
      case Green => assert Palette[2] == c;
      case Yellow => assert Palette[3] == c;
      case Purple => assert Palette[4] == c;
      case Orange => assert Palette[5] == c;
    }
  }

  // ---------------------------------------------------------------------------
  // Secret code

  /** The secret: the palette shuffled (the transpositions stand for the random
      comparator), then its first four colours. */
  function Secret(shuffle: seq<Transposition>): (secret: seq<Color>)
    requires FitsIn(shuffle, |Palette|)
    ensures |secret| == CodeLength
    ensures Distinct(secret)
    ensures forall k :: 0 <= k < |secret| ==> Id(secret[k]) != UsedMark
  {
    PaletteListsEveryColorOnce();
    IdsAreDistinctAndUnmarked();
    ApplySwapsKeepsDistinct(Palette, shuffle);
    ApplySwaps(Palette, shuffle)[..CodeLength]
  }

  /** Every four distinct colours, in every order, can be the secret. */
  lemma {:induction false} EverySecretIsReachable(code: seq<Color>)
    requires |code| == CodeLength && Distinct(code)
    ensures exists shuffle :: FitsIn(shuffle, |Palette|) && Secret(shuffle) == code
  {
    PaletteListsEveryColorOnce();
    var shuffle := Arrange(Palette, code, 0);
    assert Secret(shuffle) == code;
  }

  // ---------------------------------------------------------------------------
  // Scoring

  /** Number of positions at which `a` and `b` agree. */
  function ExactCount<T(==)>(a: seq<T>, b: seq<T>): (n: nat)
    requires |a| == |b|
    ensures n <= |a|
  {
    if |a| == 0 then 0 else (if a[0] == b[0] then 1 else 0) + ExactCount(a[1..], b[1..])
  }

  lemma {:induction false} AllExactMeansEqual<T>(a: seq<T>, b: seq<T>)
    requires |a| == |b|
    ensures ExactCount(a, b) == |a| <==> a == b
  {
    if |a| > 0 {
      AllExactMeansEqual(a[1..], b[1..]);
      if a[1..] == b[1..] && a[0] == b[0] {
        assert a == [a[0]] + a[1..];
        assert b == [b[0]] + b[1..];
      }
    }
  }

  /** The entries of `a` at the positions where `b` differs. */
  function Unmatched<T(==)>(a: seq<T>, b: seq<T>): (r: seq<T>)
    requires |a| == |b|
    ensures |r| == |a| - ExactCount(a, b)
  {
    if |a| == 0 then []
    else (if a[0] == b[0] then [] else [a[0]]) + Unmatched(a[1..], b[1..])
  }

  /** For every value of `vs`, how many of its occurrences in `xs` can be paired with
      occurrences in `ys`, summed. */
  function Shared<T(==)>(xs: seq<T>, ys: seq<T>, vs: seq<T>): nat {
    if |vs| == 0 then 0
    else Min(Count(xs, vs[0]), Count(ys, vs[0])) + Shared(xs, ys, vs[1..])
  }

  function Min(a: nat, b: nat): nat {
    if a <= b then a else b
  }

  /** The colour matches Mastermind reports: among the slots that are not exact,
      for each colour the smaller of its count in the code and in the guess. */
  function CommonColors(secret: seq<Color>, attempt: seq<Color>): nat
    requires |secret| == |attempt|
  {
    Shared(Unmatched(secret, attempt), Unmatched(attempt, secret), Palette)
  }

  /** Position of the first `v` in `xs`, or -1 (JavaScript's `indexOf`). */
  function IndexOf<T(==)>(xs: seq<T>, v: T): (r: int)
    ensures r == -1 <==> v !in xs
    ensures r != -1 ==> 0 <= r < |xs| && xs[r] == v && v !in xs[..r]
  {
    if |xs| == 0 then -1
    else if xs[0] == v then 0
    else
      var k := IndexOf(xs[1..], v);
      assert xs[1..] == xs[1..][..|xs| - 1];
      if k == -1 then -1 else (assert xs[..k + 1] == [xs[0]] + xs[1..][..k]; k + 1)
  }

  datatype Marked = Marked(secret: seq<string>, attempt: seq<string>, exact: nat)

  /** First pass over slots i..: an exact slot is counted and overwritten with the
      "used" mark in both working copies. */
  function ExactPass(sc: seq<string>, ac: seq<string>, i: nat): (m: Marked)
    requires |sc| == |ac| && i <= |sc|
    ensures |m.secret| == |sc| && |m.attempt| == |ac|
    ensures m.exact == ExactCount(sc[i..], ac[i..])
    ensures forall k :: 0 <= k < |sc| ==>
              m.secret[k] == (if i <= k && sc[k] == ac[k] then UsedMark else sc[k])
    ensures forall k :: 0 <= k < |ac| ==>
              m.attempt[k] == (if i <= k && sc[k] == ac[k] then UsedMark else ac[k])
    decreases |sc| - i
  {
    if i == |sc| then Marked(sc, ac, 0)
    else
      assert sc[i..][1..] == sc[i + 1..] && ac[i..][1..] == ac[i + 1..];
      if ac[i] == sc[i] then
        var m := ExactPass(sc[i := UsedMark], ac[i := UsedMark], i + 1);
        assert sc[i := UsedMark][i + 1..] == sc[i + 1..];
        assert ac[i := UsedMark][i + 1..] == ac[i + 1..];
        Marked(m.secret, m.attempt, m.exact + 1)
      else
        ExactPass(sc, ac, i + 1)
  }

  datatype Credited = Credited(secret: seq<string>, color: nat)

  /** Second pass over slots i..: an attempt slot not yet used is credited as a
      colour match when its colour is still unused somewhere in the secret copy,
      and the first such secret slot is then marked used. */
  function PartialPass(sc: seq<string>, ac: seq<string>, i: nat): (p: Credited)
    requires i <= |ac|
    ensures |p.secret| == |sc|
    ensures p.color <= |ac| - i - Count(ac[i..], UsedMark)
    decreases |ac| - i
  {
    if i == |ac| then Credited(sc, 0)
    else
      assert ac[i..] == [ac[i]] + ac[i + 1..];
      CountAppend([ac[i]], ac[i + 1..], UsedMark);
      if ac[i] != UsedMark then
        var idx := IndexOf(sc, ac[i]);
        if idx != -1 then
          var p := PartialPass(sc[idx := UsedMark], ac, i + 1);
          Credited(p.secret, p.color + 1)
        else
          PartialPass(sc, ac, i + 1)
      else
        PartialPass(sc, ac, i + 1)
  }

  datatype Tally = Tally(exact: nat, color: nat)

  /** Scores an attempt against the secret with the two passes. */
  function Score(secret: seq<Color>, attempt: seq<Color>): (t: Tally)
    requires |secret| == CodeLength && |attempt| == CodeLength
    ensures t.exact == ExactCount(secret, attempt)
    ensures t.exact == CodeLength <==> attempt == secret
    ensures t.color == CommonColors(secret, attempt)
    ensures t.exact + t.color <= CodeLength
  {
    var m := ExactPass(Ids(secret), Ids(attempt), 0);
    var p := PartialPass(m.secret, m.attempt, 0);
    FirstPassMarks(secret, attempt, m);
    SecondPassMeaning(secret, attempt, m, p);
    AllExactMeansEqual(secret, attempt);
    Tally(m.exact, p.color)
  }

  /** The first pass counts the exact slots and leaves two marked copies. */
  lemma FirstPassMarks(secret: seq<Color>, attempt: seq<Color>, m: Marked)
    requires |secret| == |attempt|
    requires m == ExactPass(Ids(secret), Ids(attempt), 0)
    ensures m.exact == ExactCount(secret, attempt)
    ensures MarkedCopy(secret, attempt, m.secret) && MarkedCopy(attempt, secret, m.attempt)
  {
    assert Ids(secret)[0..] == Ids(secret) && Ids(attempt)[0..] == Ids(attempt);
    ExactCountOfIds(secret, attempt);
    forall k | 0 <= k < |secret| ensures Ids(secret)[k] == Ids(attempt)[k] <==> secret[k] == attempt[k] {
      IdEquality(secret[k], attempt[k]);
    }
  }

  /** The second pass, run on the marked copies, credits the reference's colour
      matches, which leave room for the exact ones. */
  lemma SecondPassMeaning(secret: seq<Color>, attempt: seq<Color>, m: Marked, p: Credited)
    requires MarkedCopy(secret, attempt, m.secret) && MarkedCopy(attempt, secret, m.attempt)
    requires p == PartialPass(m.secret, m.attempt, 0)
    ensures p.color == CommonColors(secret, attempt)
    ensures ExactCount(secret, attempt) + p.color <= |secret|
  {
    assert m.attempt[0..] == m.attempt;
    PaletteListsEveryColorOnce();
    IdsAreDistinctAndUnmarked();
    assert Distinct(Ids(Palette));
    MarkedInPalette(attempt, secret, m.attempt);
    PartialPassIsShared(m.secret, m.attempt, 0, Ids(Palette));
    SharedOfMarked(secret, attempt, m.secret, m.attempt, Palette);
    MarkedUsedCount(attempt, secret, m.attempt);
    ExactCountSymmetric(secret, attempt);
  }

  lemma {:induction false} ExactCountOfIds(a: seq<Color>, b: seq<Color>)
    requires |a| == |b|
    ensures ExactCount(Ids(a), Ids(b)) == ExactCount(a, b)
  {
    IdsAreDistinctAndUnmarked();
    if |a| > 0 {
      assert Ids(a)[1..] == Ids(a[1..]) && Ids(b)[1..] == Ids(b[1..]);
      ExactCountOfIds(a[1..], b[1..]);
    }
  }

  lemma {:induction false} ExactCountSymmetric<T>(a: seq<T>, b: seq<T>)
    requires |a| == |b|
    ensures ExactCount(a, b) == ExactCount(b, a)
  {
    if |a| > 0 {
      ExactCountSymmetric(a[1..], b[1..]);
    }
  }

  /** Identifiers compare as their colours do. */
  lemma IdEquality(c: Color, d: Color)
    ensures Id(c) == Id(d) <==> c == d
  {
    IdsAreDistinctAndUnmarked();
  }

  /** Marks, slot by slot, what the first pass leaves in a working copy: "used" on
      the exact slots, the slot's own identifier elsewhere. */
  predicate MarkedCopy(own: seq<Color>, other: seq<Color>, m: seq<string>) {
    && |own| == |other| == |m|
    && forall k :: 0 <= k < |m| ==> m[k] == (if own[k] == other[k] then UsedMark else Id(own[k]))
  }

  /** A marked copy holds the "used" mark once per exact slot. */
  lemma {:induction false} MarkedUsedCount(own: seq<Color>, other: seq<Color>, m: seq<string>)
    requires MarkedCopy(own, other, m)
    ensures Count(m, UsedMark) == ExactCount(own, other)
  {
    if |m| > 0 {
      IdsAreDistinctAndUnmarked();
      assert MarkedCopy(own[1..], other[1..], m[1..]);
      MarkedUsedCount(own[1..], other[1..], m[1..]);
    }
  }

  /** A marked copy holds each colour as often as the unmatched slots do. */
  lemma {:induction false} MarkedColorCount(own: seq<Color>, other: seq<Color>, m: seq<string>,
                                            c: Color)
    requires MarkedCopy(own, other, m)
    ensures Count(m, Id(c)) == Count(Unmatched(own, other), c)
  {
    if |m| > 0 {
      IdsAreDistinctAndUnmarked();
      assert MarkedCopy(own[1..], other[1..], m[1..]);
      MarkedColorCount(own[1..], other[1..], m[1..], c);
      var head := if own[0] == other[0] then [] else [own[0]];
      CountAppend(head, Unmatched(own[1..], other[1..]), c);
    }
  }

  /** Every slot of a marked copy is "used" or a palette identifier. */
  lemma MarkedInPalette(own: seq<Color>, other: seq<Color>, m: seq<string>)
    requires MarkedCopy(own, other, m)
    ensures forall k :: 0 <= k < |m| ==> m[k] == UsedMark || m[k] in Ids(Palette)
  {
    PaletteListsEveryColorOnce();
    forall k | 0 <= k < |m| ensures m[k] == UsedMark || m[k] in Ids(Palette) {
      var at := Position(Palette, own[k]);
      assert Ids(Palette)[at] == Id(own[k]);
    }
  }

  /** The second pass credits exactly the pairs the reference counts. */
  lemma {:induction false} PartialPassIsShared(sc: seq<string>, ac: seq<string>, i: nat,
                                               vs: seq<string>)
    requires i <= |ac|
    requires Distinct(vs) && UsedMark !in vs
    requires forall k :: i <= k < |ac| ==> ac[k] == UsedMark || ac[k] in vs
    ensures PartialPass(sc, ac, i).color == Shared(sc, ac[i..], vs)
    decreases |ac| - i
  {
    if i == |ac| {
      SharedWithEmpty(sc, vs);
    } else {
      var v := ac[i];
      assert ac[i..] == [v] + ac[i + 1..];
      forall w | w in vs
        ensures Count(ac[i..], w) == Count(ac[i + 1..], w) + (if w == v then 1 else 0)
      {
        CountAppend([v], ac[i + 1..], w);
      }
      PartialPassIsShared(sc, ac, i + 1, vs);
      if v == UsedMark {
        SharedDiff(sc, ac[i..], sc, ac[i + 1..], vs, v, 0);
      } else {
        var idx := IndexOf(sc, v);
        if idx != -1 {
          var sc' := sc[idx := UsedMark];
          PartialPassIsShared(sc', ac, i + 1, vs);
          forall w | w in vs
            ensures Count(sc, w) == Count(sc', w) + (if w == v then 1 else 0)
          {
            CountUpdate(sc, idx, UsedMark, w);
          }
          SharedDiff(sc, ac[i..], sc', ac[i + 1..], vs, v, 1);
        } else {
          SharedDiff(sc, ac[i..], sc, ac[i + 1..], vs, v, 0);
        }
      }
    }
  }

  lemma {:induction false} SharedWithEmpty<T>(xs: seq<T>, vs: seq<T>)
    ensures Shared(xs, [], vs) == 0
  {
    if |vs| > 0 {
      SharedWithEmpty(xs, vs[1..]);
    }
  }

  /** Two sums of pairings that agree on every value but `v`, and differ by `d`
      on `v`, differ by `d` when `v` is summed over. */
  lemma {:induction false} SharedDiff<T>(x1: seq<T>, y1: seq<T>, x2: seq<T>, y2: seq<T>,
                                          vs: seq<T>, v: T, d: nat)
    requires Distinct(vs)
    requires forall w :: w in vs && w != v ==>
               Count(x1, w) == Count(x2, w) && Count(y1, w) == Count(y2, w)
    requires v in vs ==> Min(Count(x1, v), Count(y1, v)) == Min(Count(x2, v), Count(y2, v)) + d
    ensures Shared(x1, y1, vs) == Shared(x2, y2, vs) + (if v in vs then d else 0)
  {
    if |vs| > 0 {
      assert Distinct(vs[1..]);
      assert v in vs[1..] ==> vs[0] != v;
      SharedDiff(x1, y1, x2, y2, vs[1..], v, d);
    }
  }

  /** Summing over the palette's identifiers in the marked copies gives the colour
      reference over the unmatched slots. */
  lemma {:induction false} SharedOfMarked(secret: seq<Color>, attempt: seq<Color>,
                                          ms: seq<string>, ma: seq<string>, cs: seq<Color>)
    requires MarkedCopy(secret, attempt, ms) && MarkedCopy(attempt, secret, ma)
    ensures Shared(ms, ma, Ids(cs)) ==
            Shared(Unmatched(secret, attempt), Unmatched(attempt, secret), cs)
  {
    if |cs| > 0 {
      assert Ids(cs)[1..] == Ids(cs[1..]);
      MarkedColorCount(secret, attempt, ms, cs[0]);
      MarkedColorCount(attempt, secret, ma, cs[0]);
      SharedOfMarked(secret, attempt, ms, ma, cs[1..]);
    }
  }

  /** Worked examples. Against red, blue, green, yellow the guess blue, blue, green,
      red has two exact slots (blue and green in the middle) and one colour match
      (red); blue is not credited a second time for the guess's first slot. */
  lemma ScoreExamples()
    ensures Score([Red, Blue, Green, Yellow], [Blue, Blue, Green, Red]) == Tally(2, 1)
    ensures Score([Red, Blue, Green, Yellow], [Red, Blue, Green, Yellow]) == Tally(4, 0)
  {
    var secret := [Red, Blue, Green, Yellow];
    var guess := [Blue, Blue, Green, Red];
    assert secret[1..] == [Blue, Green, Yellow] && guess[1..] == [Blue, Green, Red];
    assert secret[2..] == [Green, Yellow] && guess[2..] == [Green, Red];
    assert secret[3..] == [Yellow] && guess[3..] == [Red];
    assert ExactCount(secret[3..], guess[3..]) == 0;
    assert ExactCount(secret[2..], guess[2..]) == 1;
    assert ExactCount(secret[1..], guess[1..]) == 2;
    assert ExactCount(secret, guess) == 2;
    assert Unmatched(secret[3..], guess[3..]) == [Yellow];
    assert Unmatched(secret, guess) == [Red, Yellow];
    assert Unmatched(guess[3..], secret[3..]) == [Red];
    assert Unmatched(guess, secret) == [Blue, Red];
    SharedExample();
    AllExactMeansEqual(secret, secret);
    assert Unmatched(secret, secret) == [] by {
      assert |Unmatched(secret, secret)| == 0;
    }
    SharedWithEmpty([], Palette);
  }

  lemma SharedExample()
    ensures Shared([Red, Yellow], [Blue, Red], Palette) == 1
  {
    var xs, ys := [Red, Yellow], [Blue, Red];
    var tail := [Blue, Green, Yellow, Purple, Orange];
    assert Palette[1..] == tail;
    assert xs[1..] == [Yellow];
    assert Count(xs, Red) == 1 && Count(ys, Red) == 1;
    SharedZero(xs, ys, tail);
  }

  lemma {:induction false} SharedZero<T>(xs: seq<T>, ys: seq<T>, vs: seq<T>)
    requires forall k :: 0 <= k < |vs| ==> vs[k] !in xs || vs[k] !in ys
    ensures Shared(xs, ys, vs) == 0
  {
    if |vs| > 0 {
      SharedZero(xs, ys, vs[1..]);
    }
  }

  // ---------------------------------------------------------------------------
  // Feedback

  /** The message for a guess that is not a win: "{e} exacto[s], {c} color[es]
      correcto[s]", plural whenever the count is not one. */
  function Feedback(exact: nat, color: nat): (text: string)
    ensures text ==
              NatToString(exact) + (if exact == 1 then " exacto, " else " exactos, ")
              + NatToString(color) + (if color == 1 then " color correcto" else " colores correctos")
  {
    WordsByCount(exact, color);
    NatToString(exact) + ExactWords(exact) + NatToString(color) + ColorWords(color)
  }

  function ExactWords(exact: nat): (w: string)
    ensures |w| > 0 && !IsDigit(w[0])
  {
    " exacto" + (if exact != 1 then "s" else "") + ", "
  }

  function ColorWords(color: nat): (w: string)
    ensures |w| > 0 && !IsDigit(w[0])
  {
    " color" + (if color != 1 then "es" else "") + " correcto" + (if color != 1 then "s" else "")
  }

  /** Singular and plural wording on the worked example of the scorer. */
  lemma FeedbackExamples()
    ensures Feedback(1, 2) == "1 exacto, 2 colores correctos"
    ensures Feedback(2, 1) == "2 exactos, 1 color correcto"
  {
    FeedbackOneTwo();
    FeedbackTwoOne();
  }

  lemma FeedbackOneTwo()
    ensures Feedback(1, 2) == "1 exacto, 2 colores correctos"
  {
    SmallNumbers();
    SingularAndPluralWords();
    assert Feedback(1, 2) == "1" + " exacto, " + "2" + " colores correctos";
    JoinOneTwo();
  }

  lemma FeedbackTwoOne()
    ensures Feedback(2, 1) == "2 exactos, 1 color correcto"
  {
    SmallNumbers();
    SingularAndPluralWords();
    assert Feedback(2, 1) == "2" + " exactos, " + "1" + " color correcto";
    JoinTwoOne();
  }

  lemma SmallNumbers()
    ensures NatToString(1) == "1" && NatToString(2) == "2"
  {
  }

  lemma SingularAndPluralWords()
    ensures ExactWords(1) == " exacto, " && ExactWords(2) == " exactos, "
    ensures ColorWords(1) == " color correcto" && ColorWords(2) == " colores correctos"
  {
  }

  lemma JoinOneTwo()
    ensures "1" + " exacto, " + "2" + " colores correctos" == "1 exacto, 2 colores correctos"
  {
  }

  lemma JoinTwoOne()
    ensures "2" + " exactos, " + "1" + " color correcto" == "2 exactos, 1 color correcto"
  {
  }

  /** Each count is followed by the singular words exactly when it is one. */
  lemma WordsByCount(exact: nat, color: nat)
    ensures ExactWords(exact) == if exact == 1 then " exacto, " else " exactos, "
    ensures ColorWords(color) == if color == 1 then " color correcto" else " colores correctos"
  {
    SingularAndPluralWords();
    if exact != 1 {
      assert ExactWords(exact) == ExactWords(2);
    }
    if color != 1 {
      assert ColorWords(color) == ColorWords(2);
    }
  }

  /** The message determines both counts. */
  lemma FeedbackDeterminesCounts(e1: nat, c1: nat, e2: nat, c2: nat)
    requires Feedback(e1, c1) == Feedback(e2, c2)
    ensures e1 == e2 && c1 == c2
  {
    var t1, t2 := NatToString(c1) + ColorWords(c1), NatToString(c2) + ColorWords(c2);
    var r1, r2 := ExactWords(e1) + t1, ExactWords(e2) + t2;
    FeedbackSplits(e1, c1);
    FeedbackSplits(e2, c2);
    SplitAfterNumber(e1, r1, e2, r2);
    CancelPrefix(ExactWords(e1), t1, t2);
    SplitAfterNumber(c1, ColorWords(c1), c2, ColorWords(c2));
  }

  lemma FeedbackSplits(e: nat, c: nat)
    ensures var r := ExactWords(e) + (NatToString(c) + ColorWords(c));
            Feedback(e, c) == NatToString(e) + r && |r| > 0 && !IsDigit(r[0])
  {
    var r := ExactWords(e) + (NatToString(c) + ColorWords(c));
    assert r[0] == ExactWords(e)[0];
  }

  // ---------------------------------------------------------------------------
  // Puzzle state and handlers

  datatype CodeState = CodeState(secret: seq<Color>, attempts: seq<seq<Color>>, current: seq<Color>)

  predicate Valid(s: CodeState) {
    && |s.secret| == CodeLength
    && Distinct(s.secret)
    && |s.current| <= CodeLength
    && forall k :: 0 <= k < |s.attempts| ==> |s.attempts[k]| == CodeLength
  }

  /** A fresh puzzle: secret drawn, no attempts, nothing entered. */
  function Init(shuffle: seq<Transposition>): (s: CodeState)
    requires FitsIn(shuffle, |Palette|)
    ensures Valid(s) && s.attempts == [] && s.current == []
    ensures forall k :: 0 <= k < |s.secret| ==> Id(s.secret[k]) != UsedMark
  {
    CodeState(Secret(shuffle), [], [])
  }

  /** Appends a colour to the attempt being entered, unless it is already full. */
  function AddColor(s: CodeState, c: Color): (r: CodeState)
    ensures r.secret == s.secret && r.attempts == s.attempts
    ensures |s.current| < CodeLength ==> r.current == s.current + [c]
    ensures |s.current| >= CodeLength ==> r == s
    ensures Valid(s) ==> Valid(r)
  {
    if |s.current| < CodeLength then s.(current := s.current + [c]) else s
  }

  /** Drops the last colour entered; an empty attempt stays empty. */
  function RemoveLastColor(s: CodeState): (r: CodeState)
    ensures r.secret == s.secret && r.attempts == s.attempts
    ensures |s.current| == 0 ==> r.current == []
    ensures |s.current| > 0 ==> r.current + [s.current[|s.current| - 1]] == s.current
    ensures Valid(s) ==> Valid(r)
  {
    if |s.current| == 0 then s else s.(current := s.current[..|s.current| - 1])
  }

  lemma RemoveUndoesAdd(s: CodeState, c: Color)
    requires |s.current| < CodeLength
    ensures RemoveLastColor(AddColor(s, c)) == s
  {
    assert (s.current + [c])[..|s.current|] == s.current;
  }

  const NeedFourColors: string := "Debes seleccionar 4 colores"
  const Cracked: string := "¡Código descifrado! " + PartyPopper

  /** The attempt being entered moves to the history. */
  function Submit(s: CodeState): (r: CodeState)
    requires Valid(s) && |s.current| == CodeLength
    ensures Valid(r) && r.secret == s.secret && r.current == []
    ensures |r.attempts| == |s.attempts| + 1
    ensures r.attempts[..|s.attempts|] == s.attempts && r.attempts[|s.attempts|] == s.current
  {
    s.(attempts := s.attempts + [s.current], current := [])
  }

  /** Submits the attempt being entered. */
  function CheckCode(s: CodeState): (r: Step<CodeState>)
    requires Valid(s)
    ensures Valid(r.state)
    ensures |s.current| != CodeLength ==>
              r.state == s && r.effects == [Notify(Error, NeedFourColors)]
    ensures |s.current| == CodeLength ==>
              && r.state.secret == s.secret
              && r.state.attempts == s.attempts + [s.current]
              && r.state.current == []
    ensures |s.current| == CodeLength && s.current == s.secret ==>
              r.effects == [Notify(Success, Cracked), ScheduleComplete]
    ensures |s.current| == CodeLength && s.current != s.secret ==>
              r.effects == [Notify(Info, Feedback(ExactCount(s.secret, s.current),
                                                  CommonColors(s.secret, s.current)))]
  {
    if |s.current| != CodeLength then Step(s, [Notify(Error, NeedFourColors)])
    else
      var t := Score(s.secret, s.current);
      var next := Submit(s);
      if t.exact == CodeLength then Step(next, [Notify(Success, Cracked), ScheduleComplete])
      else Step(next, [Notify(Info, Feedback(t.exact, t.color))])
  }

  /** Earlier attempts are never altered: each submission only appends. */
  lemma HistoryOnlyGrows(s: CodeState)
    requires Valid(s)
    ensures var r := CheckCode(s).state;
            |r.attempts| >= |s.attempts| && r.attempts[..|s.attempts|] == s.attempts
  {
  }

  /** Nothing stops a second solve while the first completion is still pending:
      entering the secret again and submitting schedules the completion again. */
  lemma SolvingTwiceSchedulesTwice(s: CodeState)
    requires Valid(s) && s.current == s.secret
    ensures var s1 := CheckCode(s).state;
            var e := s.secret;
            var s2 := AddColor(AddColor(AddColor(AddColor(s1, e[0]), e[1]), e[2]), e[3]);
            ScheduleComplete in CheckCode(s).effects && ScheduleComplete in CheckCode(s2).effects
  {
    var s1 := CheckCode(s).state;
    var e := s.secret;
    assert ScheduleComplete in CheckCode(s).effects;
    var s2 := AddColor(AddColor(AddColor(AddColor(s1, e[0]), e[1]), e[2]), e[3]);
    EnterFour(s1, e);
    assert ScheduleComplete in CheckCode(s2).effects;
  }

  /** Entering four colours into an empty attempt yields exactly those four. */
  lemma EnterFour(s: CodeState, e: seq<Color>)
    requires Valid(s) && s.current == [] && |e| == CodeLength
    ensures var r := AddColor(AddColor(AddColor(AddColor(s, e[0]), e[1]), e[2]), e[3]);
            Valid(r) && r.current == e && r.secret == s.secret
  {
    var a1 := AddColor(s, e[0]);
    var a2 := AddColor(a1, e[1]);
    var a3 := AddColor(a2, e[2]);
    var a4 := AddColor(a3, e[3]);
    assert a4.current == [e[0], e[1], e[2], e[3]];
  }
}
