/** The addition problems of the data pipeline: the line format
    `a+b=<c>`, the generator that writes every sampled pair in both orders
    (`足し算の文字列生成`), and the exhaustive drill (`足し算ドリルを生成`). */
module AdditionText {
  import opened Wrappers
  import opened Strings
  import opened Decimal
  import DigitSampler

  /** `bs_tok`, opening the answer span. */
  const Bos: char := '<'
  /** `es_tok`, closing the answer span. */
  const Eos: char := '>'
  /** Largest `|S1| * |S2|` the generator accepts. */
  const MaxSamples: nat := 10000

  /** An ordered pair of operands `(a, b)`, written `a+b=<a+b>`. */
  type Pair = (nat, nat)

  datatype GenError = TooManySamples(sampleNum: nat)   // the ValueError of line 103

  /** The answer part `f"{bs_tok}{c}{es_tok}"`. */
  function Answer(c: nat): string
  {
    [Bos] + NatToString(c) + [Eos]
  }

  /** One equation line without its newline: `f"{a}+{b}="` then the answer
      part for `a+b`. */
  function Line(a: nat, b: nat): string
  {
    NatToString(a) + ['+'] + (NatToString(b) + ['='] + Answer(a + b))
  }

  /** The lines written for a list of equations, one per equation. */
  function Lines(eqs: seq<Pair>): (r: seq<string>)
    ensures |r| == |eqs|
  {
    seq(|eqs|, k requires 0 <= k < |eqs| => Line(eqs[k].0, eqs[k].1))
  }

  /** The text written for a list of equations: each line followed by a
      newline. */
  function Render(eqs: seq<Pair>): string
  {
    Unlines(Lines(eqs))
  }

  /** The pairs of the generator's inner loop for one `i`: `(i, j)` then
      `(j, i)` for each `j` of `s2` in order. */
  function RowPairs(i: nat, s2: seq<nat>): seq<Pair>
  {
    if |s2| == 0 then []
    else
      var j := s2[|s2| - 1];
      RowPairs(i, s2[..|s2| - 1]) + [(i, j), (j, i)]
  }

  /** The pairs of the generator's two loops, `s1` outside and `s2` inside. */
  function CommutedPairs(s1: seq<nat>, s2: seq<nat>): seq<Pair>
  {
    if |s1| == 0 then []
    else CommutedPairs(s1[..|s1| - 1], s2) + RowPairs(s1[|s1| - 1], s2)
  }

  /** The pairs of the drill's inner loop for row `i`: `(i, 0) .. (i, n-1)`. */
  function DrillRow(i: nat, n: nat): seq<Pair>
  {
    if n == 0 then [] else DrillRow(i, n - 1) + [(i, n - 1)]
  }

  /** Rows `0 .. rows-1` of the drill of width `limit`. */
  function DrillRows(rows: nat, limit: nat): seq<Pair>
  {
    if rows == 0 then [] else DrillRows(rows - 1, limit) + DrillRow(rows - 1, limit)
  }

  /** The pairs `for i in range(limit) for j in range(limit)`. */
  function DrillPairs(limit: int): seq<Pair>
  {
    if limit <= 0 then [] else DrillRows(limit, limit)
  }

  /** Reads a line `a+b=<c>` back into `(a, b, c)`; None for anything else. */
  function ParseEquation(line: string): Option<(nat, nat, nat)>
  {
    match IndexOf(line, '+')
    case None => None
    case Some(p) =>
      var a, rest := line[..p], line[p + 1..];
      match IndexOf(rest, '=')
      case None => None
      case Some(q) =>
        var b, ans := rest[..q], rest[q + 1..];
        if |ans| >= 2 && ans[0] == Bos && ans[|ans| - 1] == Eos then
          var c := ans[1..|ans| - 1];
          if IsDecimal(a) && IsDecimal(b) && IsDecimal(c) then
            Some((ParseNat(a), ParseNat(b), ParseNat(c)))
          else None
        else None
  }

  // ---------------------------------------------------------------------
  // Rendering

  lemma RenderAppend(x: seq<Pair>, y: seq<Pair>)
    ensures Render(x + y) == Render(x) + Render(y)
  {
    assert Lines(x + y) == Lines(x) + Lines(y);
    UnlinesAppend(Lines(x), Lines(y));
  }

  /** Writing one more equation appends its line and a newline. */
  lemma RenderSnoc(eqs: seq<Pair>, a: nat, b: nat)
    ensures Render(eqs + [(a, b)]) == Render(eqs) + (Line(a, b) + "\n")
  {
    assert Lines(eqs + [(a, b)]) == Lines(eqs) + [Line(a, b)];
    UnlinesSnoc(Lines(eqs), Line(a, b));
  }

  /** Decimal text holds no character of the line syntax. */
  lemma DecimalHasNoMarkup(s: string)
    requires IsDecimal(s)
    ensures '+' !in s && '=' !in s && Bos !in s && Eos !in s && '\n' !in s
  {
    forall i | 0 <= i < |s| ensures s[i] != '+' && s[i] != '=' && s[i] != Bos && s[i] != Eos && s[i] != '\n' {
      assert IsDigit(s[i]);
    }
  }

  lemma LineHasNoNewline(a: nat, b: nat)
    ensures '\n' !in Line(a, b)
  {
    DecimalHasNoMarkup(NatToString(a));
    DecimalHasNoMarkup(NatToString(b));
    DecimalHasNoMarkup(NatToString(a + b));
  }

  /** Splitting rendered text on newlines gives back its lines, then the
      empty piece after the final newline. */
  lemma SplitRender(eqs: seq<Pair>)
    ensures Split(Render(eqs), "\n") == Lines(eqs) + [""]
  {
    forall k | 0 <= k < |eqs| ensures '\n' !in Lines(eqs)[k] {
      LineHasNoNewline(eqs[k].0, eqs[k].1);
    }
    SplitUnlines(Lines(eqs));
  }

  /** In `s == x + [c] + y` with no `c` in `x`, the first `c` is at `|x|`. */
  lemma FirstAtCut(s: string, x: string, c: char, y: string)
    requires c !in x && s == x + [c] + y
    ensures IndexOf(s, c) == Some(|x|)
  {
    var cy := [c] + y;
    assert s == x + cy;
    assert cy[0] == c;
    assert IndexOf(cy, c) == Some(0);
    IndexOfAfter(x, cy, c);
  }

  /** Cutting `s == x + [c] + y` at its first `c` gives back `x` and `y`. */
  lemma CutAtFirst(s: string, x: string, c: char, y: string)
    requires c !in x && s == x + [c] + y
    ensures IndexOf(s, c) == Some(|x|) && s[..|x|] == x && s[|x| + 1..] == y
  {
    FirstAtCut(s, x, c, y);
    assert s[..|x|] == x;
    assert s[|x| + 1..] == y;
  }

  /** Every line the pipeline writes reads back as its operands and their
      sum. */
  lemma ParseLine(a: nat, b: nat)
    ensures ParseEquation(Line(a, b)) == Some((a, b, a + b))
  {
    ParseLineDigits(a, b);
    ParsePrinted(a);
    ParsePrinted(b);
    ParsePrinted(a + b);
  }

  /** ParseLine before the printed numbers are read back. */
  lemma ParseLineDigits(a: nat, b: nat)
    ensures ParseEquation(Line(a, b))
      == Some((ParseNat(NatToString(a)), ParseNat(NatToString(b)), ParseNat(NatToString(a + b))))
  {
    ParseDecimalLine(Line(a, b), NatToString(a), NatToString(b), NatToString(a + b));
  }

  /** `ParseEquation` reads the three decimals of `A+B=<C>` back. */
  lemma ParseDecimalLine(line: string, sa: string, sb: string, sc: string)
    requires IsDecimal(sa) && IsDecimal(sb) && IsDecimal(sc)
    requires line == sa + ['+'] + (sb + ['='] + ([Bos] + sc + [Eos]))
    ensures ParseEquation(line) == Some((ParseNat(sa), ParseNat(sb), ParseNat(sc)))
  {
    var ans := [Bos] + sc + [Eos];
    var rest := sb + ['='] + ans;
    DecimalHasNoMarkup(sa);
    DecimalHasNoMarkup(sb);
    CutAtFirst(line, sa, '+', rest);
    CutAtFirst(rest, sb, '=', ans);
    assert ans[1..|ans| - 1] == sc;
  }

  // ---------------------------------------------------------------------
  // The generator

  lemma {:induction false} RowPairsAt(i: nat, s2: seq<nat>)
    ensures |RowPairs(i, s2)| == 2 * |s2|
    ensures forall m :: 0 <= m < |s2| ==>
      RowPairs(i, s2)[2 * m] == (i, s2[m]) && RowPairs(i, s2)[2 * m + 1] == (s2[m], i)
    decreases |s2|
  {
    if |s2| > 0 {
      RowPairsAt(i, s2[..|s2| - 1]);
    }
  }

  /** The position of cell `(k, m)` in a grid `width` cells wide, read row
      by row. */
  function RowMajor(k: nat, m: nat, width: nat): nat
  {
    k * width + m
  }

  lemma PrevRow(k: nat, n: nat)
    requires k > 0
    ensures k * n == (k - 1) * n + n
  {
  }

  /** Row-major positions stay below the size of the grid. */
  lemma {:induction false} RowMajorBound(k: nat, m: nat, n: nat, rows: nat)
    requires k < rows && m < n
    ensures RowMajor(k, m, n) < rows * n
    decreases rows
  {
    if k + 1 < rows {
      RowMajorBound(k, m, n, rows - 1);
      DigitSampler.NextRow(rows - 1, n);
    } else {
      DigitSampler.NextRow(k, n);
    }
  }

  lemma {:induction false} CommutedPairsLength(s1: seq<nat>, s2: seq<nat>)
    ensures |CommutedPairs(s1, s2)| == 2 * (|s1| * |s2|)
    decreases |s1|
  {
    if |s1| > 0 {
      CommutedPairsLength(s1[..|s1| - 1], s2);
      RowPairsAt(s1[|s1| - 1], s2);
      DigitSampler.NextRow(|s1| - 1, |s2|);
    }
  }

  /** The generator's pairs: `2*|s1|*|s2|` of them, and for the `k`-th value
      of `s1` and the `m`-th of `s2`, the pair `(s1[k], s2[m])` at position
      `2*(k*|s2| + m)` directly followed by its swap `(s2[m], s1[k])`. */
  lemma CommutedPairsAt(s1: seq<nat>, s2: seq<nat>)
    ensures |CommutedPairs(s1, s2)| == 2 * (|s1| * |s2|)
    ensures forall k, m :: 0 <= k < |s1| && 0 <= m < |s2| ==>
      && 2 * RowMajor(k, m, |s2|) + 1 < |CommutedPairs(s1, s2)|
      && CommutedPairs(s1, s2)[2 * RowMajor(k, m, |s2|)] == (s1[k], s2[m])
      && CommutedPairs(s1, s2)[2 * RowMajor(k, m, |s2|) + 1] == (s2[m], s1[k])
  {
    CommutedPairsLength(s1, s2);
    forall k, m | 0 <= k < |s1| && 0 <= m < |s2|
      ensures 2 * RowMajor(k, m, |s2|) + 1 < |CommutedPairs(s1, s2)|
      ensures CommutedPairs(s1, s2)[2 * RowMajor(k, m, |s2|)] == (s1[k], s2[m])
      ensures CommutedPairs(s1, s2)[2 * RowMajor(k, m, |s2|) + 1] == (s2[m], s1[k])
    {
      CommutedPairAt(s1, s2, k, m);
    }
  }

  /** One cell of CommutedPairsAt, by induction on the outer list. */
  lemma {:induction false} CommutedPairAt(s1: seq<nat>, s2: seq<nat>, k: nat, m: nat)
    requires k < |s1| && m < |s2|
    ensures 2 * RowMajor(k, m, |s2|) + 1 < |CommutedPairs(s1, s2)|
    ensures CommutedPairs(s1, s2)[2 * RowMajor(k, m, |s2|)] == (s1[k], s2[m])
    ensures CommutedPairs(s1, s2)[2 * RowMajor(k, m, |s2|) + 1] == (s2[m], s1[k])
    decreases |s1|
  {
    var init := s1[..|s1| - 1];
    var n := |s2|;
    var x := 2 * RowMajor(k, m, n);
    var front := CommutedPairs(init, s2);
    var row := RowPairs(s1[|s1| - 1], s2);
    assert CommutedPairs(s1, s2) == front + row;
    CommutedPairsLength(s1, s2);
    CommutedPairsLength(init, s2);
    if k < |init| {
      CommutedPairAt(init, s2, k, m);
      assert init[k] == s1[k];
    } else {
      RowPairsAt(s1[|s1| - 1], s2);
      assert x == |front| + 2 * m;
    }
  }

  /** `足し算の文字列生成` over the two sampled lists: ValueError when
      `|s1| * |s2|` exceeds the cap, otherwise every pair of the two loops
      written in both orders, one line each. */
  method AdditionStrings(s1: seq<nat>, s2: seq<nat>) returns (r: Result<string, GenError>)
    ensures r.Err? <==> |s1| * |s2| > MaxSamples
    ensures r.Err? ==> r.error == TooManySamples(|s1| * |s2|)
    ensures r.Ok? ==> r.value == Render(CommutedPairs(s1, s2))
  {
    var sampleNum := |s1| * |s2|;
    if sampleNum > MaxSamples {
      return Err(TooManySamples(sampleNum));
    }
    var text := "";
    ghost var eqs: seq<Pair> := [];
    for a := 0 to |s1|
      invariant eqs == CommutedPairs(s1[..a], s2)
      invariant text == Render(eqs)
    {
      var i := s1[a];
      for b := 0 to |s2|
        invariant eqs == CommutedPairs(s1[..a], s2) + RowPairs(i, s2[..b])
        invariant text == Render(eqs)
      {
        var j := s2[b];
        PairStep(CommutedPairs(s1[..a], s2), i, s2, b);
        RenderSnoc(eqs, i, j);
        text := text + (Line(i, j) + "\n");
        eqs := eqs + [(i, j)];
        // the swapped pair, so that commutativity is seen explicitly
        RenderSnoc(eqs, j, i);
        text := text + (Line(j, i) + "\n");
        eqs := eqs + [(j, i)];
      }
      RowStep(s1, s2, a);
    }
    assert s1[..|s1|] == s1;
    return Ok(text);
  }

  /** One turn of the inner loop appends the pair and its swap. */
  lemma PairStep(front: seq<Pair>, i: nat, s2: seq<nat>, b: nat)
    requires b < |s2|
    ensures front + RowPairs(i, s2[..b]) + [(i, s2[b])] + [(s2[b], i)]
      == front + RowPairs(i, s2[..b + 1])
  {
    assert s2[..b + 1][..b] == s2[..b];
  }

  /** One turn of the outer loop appends the row of `s1[a]`. */
  lemma RowStep(s1: seq<nat>, s2: seq<nat>, a: nat)
    requires a < |s1|
    ensures CommutedPairs(s1[..a], s2) + RowPairs(s1[a], s2[..|s2|])
      == CommutedPairs(s1[..a + 1], s2)
  {
    assert s2[..|s2|] == s2;
    assert s1[..a + 1][..a] == s1[..a];
  }

  /** The generated text, split at newlines, holds one line per pair and an
      empty tail; for the `k`-th value of `s1` and the `m`-th of `s2` the line
      at `2*(k*|s2| + m)` is the equation `s1[k]+s2[m]=<..>` and the line after
      it the swapped one, `s2[m]+s1[k]=<..>`. */
  lemma GeneratedLines(s1: seq<nat>, s2: seq<nat>)
    ensures |Split(Render(CommutedPairs(s1, s2)), "\n")| == 2 * (|s1| * |s2|) + 1
    ensures Split(Render(CommutedPairs(s1, s2)), "\n")[2 * (|s1| * |s2|)] == ""
    ensures forall k, m :: 0 <= k < |s1| && 0 <= m < |s2| ==>
      && 2 * RowMajor(k, m, |s2|) + 1 < 2 * (|s1| * |s2|)
      && Split(Render(CommutedPairs(s1, s2)), "\n")[2 * RowMajor(k, m, |s2|)] == Line(s1[k], s2[m])
      && Split(Render(CommutedPairs(s1, s2)), "\n")[2 * RowMajor(k, m, |s2|) + 1] == Line(s2[m], s1[k])
  {
    var eqs := CommutedPairs(s1, s2);
    CommutedPairsLength(s1, s2);
    SplitRender(eqs);
    assert Split(Render(eqs), "\n")[|eqs|] == "";
    forall k, m | 0 <= k < |s1| && 0 <= m < |s2|
      ensures 2 * RowMajor(k, m, |s2|) + 1 < 2 * (|s1| * |s2|)
      ensures Split(Render(eqs), "\n")[2 * RowMajor(k, m, |s2|)] == Line(s1[k], s2[m])
      ensures Split(Render(eqs), "\n")[2 * RowMajor(k, m, |s2|) + 1] == Line(s2[m], s1[k])
    {
      GeneratedCell(s1, s2, k, m);
    }
  }

  /** One cell of GeneratedLines. */
  lemma GeneratedCell(s1: seq<nat>, s2: seq<nat>, k: nat, m: nat)
    requires k < |s1| && m < |s2|
    ensures 2 * RowMajor(k, m, |s2|) + 1 < |CommutedPairs(s1, s2)|
    ensures 2 * RowMajor(k, m, |s2|) + 1 < |Split(Render(CommutedPairs(s1, s2)), "\n")|
    ensures Split(Render(CommutedPairs(s1, s2)), "\n")[2 * RowMajor(k, m, |s2|)] == Line(s1[k], s2[m])
    ensures Split(Render(CommutedPairs(s1, s2)), "\n")[2 * RowMajor(k, m, |s2|) + 1] == Line(s2[m], s1[k])
  {
    var eqs := CommutedPairs(s1, s2);
    var x := 2 * RowMajor(k, m, |s2|);
    CommutedPairAt(s1, s2, k, m);
    RenderedLine(eqs, x);
    RenderedLine(eqs, x + 1);
  }

  /** Rendered equations split back into one parsable line per equation,
      then the empty piece after the final newline. */
  lemma RenderedLinesParse(eqs: seq<Pair>)
    ensures var lines := Split(Render(eqs), "\n");
      && |lines| == |eqs| + 1
      && lines[|eqs|] == ""
      && forall x :: 0 <= x < |eqs| ==>
        ParseEquation(lines[x]) == Some((eqs[x].0, eqs[x].1, eqs[x].0 + eqs[x].1))
  {
    SplitRender(eqs);
    forall x | 0 <= x < |eqs|
      ensures ParseEquation(Split(Render(eqs), "\n")[x]) == Some((eqs[x].0, eqs[x].1, eqs[x].0 + eqs[x].1))
    {
      RenderedLineParses(eqs, x);
    }
  }

  /** One line of RenderedLinesParse. */
  lemma RenderedLineParses(eqs: seq<Pair>, x: nat)
    requires x < |eqs|
    ensures x < |Split(Render(eqs), "\n")|
    ensures ParseEquation(Split(Render(eqs), "\n")[x]) == Some((eqs[x].0, eqs[x].1, eqs[x].0 + eqs[x].1))
  {
    RenderedLine(eqs, x);
    ParseLine(eqs[x].0, eqs[x].1);
  }

  /** The `x`-th line of the rendered text is the `x`-th equation. */
  lemma RenderedLine(eqs: seq<Pair>, x: nat)
    requires x < |eqs|
    ensures x < |Split(Render(eqs), "\n")|
    ensures Split(Render(eqs), "\n")[x] == Line(eqs[x].0, eqs[x].1)
  {
    SplitRender(eqs);
  }

  /** The problem parameters of one generated file
      (`足し算生成桁数と確率`). */
  datatype AdditionConfig = AdditionConfig(
    digit1: nat, digit2: nat, rate1: DigitSampler.Rate, rate2: DigitSampler.Rate)

  predicate ValidConfig(cfg: AdditionConfig) {
    && cfg.digit1 >= 1 && cfg.digit2 >= 1
    && DigitSampler.ValidRate(cfg.rate1) && DigitSampler.ValidRate(cfg.rate2)
    && DigitSampler.TargetCount(cfg.digit1, cfg.rate1) <= DigitSampler.RangeSize(cfg.digit1)
    && DigitSampler.TargetCount(cfg.digit2, cfg.rate2) <= DigitSampler.RangeSize(cfg.digit2)
  }

  function SampleCount(nDigit: nat, rate: DigitSampler.Rate): nat
    requires nDigit >= 1 && DigitSampler.ValidRate(rate)
  {
    var c := DigitSampler.TargetCount(nDigit, rate);
    if c < 0 then 0 else c
  }

  /** `足し算の文字列生成(data)`: samples both operand lists, then writes
      every pair in both orders. It fails exactly when the product of the
      two sample counts exceeds the cap. */
  method AdditionProblems(cfg: AdditionConfig) returns (r: Result<string, GenError>)
    requires ValidConfig(cfg)
    ensures var n1, n2 := SampleCount(cfg.digit1, cfg.rate1), SampleCount(cfg.digit2, cfg.rate2);
      r.Err? <==> n1 * n2 > MaxSamples
    ensures r.Ok? ==> exists s1, s2 ::
      && |s1| == SampleCount(cfg.digit1, cfg.rate1) && |s2| == SampleCount(cfg.digit2, cfg.rate2)
      && DigitSampler.Distinct(s1) && DigitSampler.InRange(cfg.digit1, s1)
      && DigitSampler.Distinct(s2) && DigitSampler.InRange(cfg.digit2, s2)
      && r.value == Render(CommutedPairs(s1, s2))
  {
    var s1 := DigitSampler.GetUniqueRandints(cfg.digit1, cfg.rate1);
    var s2 := DigitSampler.GetUniqueRandints(cfg.digit2, cfg.rate2);
    r := AdditionStrings(s1, s2);
  }

  // ---------------------------------------------------------------------
  // The drill

  lemma {:induction false} DrillRowAt(i: nat, n: nat)
    ensures |DrillRow(i, n)| == n
    ensures forall j :: 0 <= j < n ==> DrillRow(i, n)[j] == (i, j)
  {
    if n > 0 {
      DrillRowAt(i, n - 1);
    }
  }

  lemma {:induction false} DrillRowsLength(rows: nat, limit: nat)
    ensures |DrillRows(rows, limit)| == rows * limit
    decreases rows
  {
    if rows > 0 {
      DrillRowsLength(rows - 1, limit);
      DrillRowAt(rows - 1, limit);
      PrevRow(rows, limit);
    }
  }

  /** One cell of DrillPairsAt, by induction on the number of rows. */
  lemma {:induction false} DrillCellAt(rows: nat, limit: nat, i: nat, j: nat)
    requires i < rows && j < limit
    ensures RowMajor(i, j, limit) < |DrillRows(rows, limit)|
    ensures DrillRows(rows, limit)[RowMajor(i, j, limit)] == (i, j)
    decreases rows
  {
    var front := DrillRows(rows - 1, limit);
    DrillRowsLength(rows - 1, limit);
    DrillRowsLength(rows, limit);
    RowMajorBound(i, j, limit, rows);
    if i < rows - 1 {
      DrillCellAt(rows - 1, limit, i, j);
    } else {
      DrillRowAt(i, limit);
      assert RowMajor(i, j, limit) == |front| + j;
    }
  }

  /** The drill holds `limit²` pairs in row-major order: `(i, j)` at position
      `i*limit + j`, so every ordered pair, `i == j` included, appears once. */
  lemma DrillPairsAt(limit: int)
    ensures |DrillPairs(limit)| == if limit <= 0 then 0 else limit * limit
    ensures forall i, j :: 0 <= i < limit && 0 <= j < limit ==>
      && RowMajor(i, j, limit) < |DrillPairs(limit)|
      && DrillPairs(limit)[RowMajor(i, j, limit)] == (i, j)
  {
    if limit > 0 {
      DrillRowsLength(limit, limit);
      forall i, j | 0 <= i < limit && 0 <= j < limit
        ensures RowMajor(i, j, limit) < |DrillPairs(limit)|
        ensures DrillPairs(limit)[RowMajor(i, j, limit)] == (i, j)
      {
        DrillCellAt(limit, limit, i, j);
      }
    }
  }

  /** `足し算ドリルを生成(dir_path, limit_num)`, with the file replaced by the
      text written to it. */
  method DrillText(limit: int) returns (text: string)
    ensures text == Render(DrillPairs(limit))
  {
    // `range(limit)` is empty for a negative limit
    var n: nat := if limit < 0 then 0 else limit;
    text := "";
    ghost var eqs: seq<Pair> := [];
    var i := 0;
    while i < n
      invariant 0 <= i <= n
      invariant eqs == DrillRows(i, n)
      invariant text == Render(eqs)
    {
      var j := 0;
      while j < n
        invariant 0 <= j <= n
        invariant eqs == DrillRows(i, n) + DrillRow(i, j)
        invariant text == Render(eqs)
      {
        RenderSnoc(eqs, i, j);
        CellStep(DrillRows(i, n), i, j);
        text := text + (Line(i, j) + "\n");
        eqs := eqs + [(i, j)];
        j := j + 1;
      }
      i := i + 1;
    }
    assert Lines([]) == [];
  }

  /** One turn of the drill's inner loop appends the next cell of row `i`. */
  lemma CellStep(front: seq<Pair>, i: nat, j: nat)
    ensures front + DrillRow(i, j) + [(i, j)] == front + DrillRow(i, j + 1)
  {
  }

  /** The drill's text, split at newlines: `limit²` lines and an empty tail,
      the line at `i*limit + j` being the equation `i+j=<i+j>`. */
  lemma DrillLines(limit: int)
    ensures |Split(Render(DrillPairs(limit)), "\n")| == |DrillPairs(limit)| + 1
    ensures Split(Render(DrillPairs(limit)), "\n")[|DrillPairs(limit)|] == ""
    ensures forall i, j :: 0 <= i < limit && 0 <= j < limit ==>
      && RowMajor(i, j, limit) < |DrillPairs(limit)|
      && Split(Render(DrillPairs(limit)), "\n")[RowMajor(i, j, limit)] == Line(i, j)
  {
    DrillPairsAt(limit);
    SplitRender(DrillPairs(limit));
  }
}
