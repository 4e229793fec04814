/** The curriculum of the addition drill: `make_causal_text`, which turns one
    equation `q=<ans>` into the texts that reveal the answer one character at
    a time, and the flattening of a whole drill file into those texts
    (`足し算ドリル.__init__`). */
module Curriculum {
  import opened Wrappers
  import opened Strings
  import opened Decimal
  import opened AdditionText

  /** The ValueError of `str.index` when a marker is absent. */
  datatype CausalTextError = MissingToken(token: char)

  /** The prefixes `text[:from+1]`, `text[:from+2]`, .., `text[:to]`; none
      when `to <= from`. */
  function Prefixes(text: string, from: nat, to: nat): seq<string>
    requires to <= |text|
  {
    seq(if from < to then to - from else 0, k requires 0 <= k < to - from => text[..from + k + 1])
  }

  /** What `make_causal_text(text)` returns: with `bs` one past the first
      `<` and `es` one past the first `>`, the prefixes of `text` ending at
      `bs+1 .. es`. */
  function CausalPrefixes(text: string): Result<seq<string>, CausalTextError>
  {
    match IndexOf(text, Bos)
    case None => Err(MissingToken(Bos))
    case Some(p) =>
      match IndexOf(text, Eos)
      case None => Err(MissingToken(Eos))
      case Some(q) => Ok(Prefixes(text, p + 1, q + 1))
  }

  /** `make_causal_text(text)`: the question part `text[:bs]` followed by
      ever longer heads of the answer part `text[bs:es]`. */
  method MakeCausalText(text: string) returns (r: Result<seq<string>, CausalTextError>)
    ensures r == CausalPrefixes(text)
  {
    var bsIndex := IndexOf(text, Bos);
    if bsIndex.None? {
      return Err(MissingToken(Bos));
    }
    var esIndex := IndexOf(text, Eos);
    if esIndex.None? {
      return Err(MissingToken(Eos));
    }
    var bs, es := bsIndex.value + 1, esIndex.value + 1;
    var qPart := text[..bs];
    // Python's `text[bs:es]` is empty when `es <= bs`
    var aPart := if bs < es then text[bs..es] else "";
    var textList: seq<string> := [];
    for i := 0 to |aPart|
      invariant |textList| == i
      invariant forall k :: 0 <= k < i ==> textList[k] == text[..bs + k + 1]
    {
      assert aPart[..i + 1] == text[bs..bs + i + 1];
      assert qPart + aPart[..i + 1] == text[..bs + i + 1];
      textList := textList + [qPart + aPart[..i + 1]];
    }
    assert textList == Prefixes(text, bs, es);
    return Ok(textList);
  }

  /** The prefixes grow one character at a time: the first ends one past
      `from`, each next one extends the previous by the following character
      of `text`, and the last is `text[:to]`. */
  lemma PrefixesGrow(text: string, from: nat, to: nat)
    requires from < to <= |text|
    ensures var ps := Prefixes(text, from, to);
      && |ps| == to - from
      && ps[0] == text[..from + 1]
      && (forall k :: 0 <= k < |ps| - 1 ==> ps[k + 1] == ps[k] + [text[from + k + 1]])
      && ps[|ps| - 1] == text[..to]
  {
    var ps := Prefixes(text, from, to);
    forall k | 0 <= k < |ps| - 1 ensures ps[k + 1] == ps[k] + [text[from + k + 1]] {
      assert text[..from + k + 2] == text[..from + k + 1] + [text[from + k + 1]];
    }
  }

  /** make_causal_text fails exactly when one of the two markers is absent,
      naming `<` first. */
  lemma CausalPrefixesFail(text: string)
    ensures CausalPrefixes(text).Err? <==> Bos !in text || Eos !in text
    ensures Bos !in text ==> CausalPrefixes(text) == Err(MissingToken(Bos))
    ensures Bos in text && Eos !in text ==> CausalPrefixes(text) == Err(MissingToken(Eos))
  {
  }

  /** The example of the source: `"1+2=<3>"` gives `["1+2=<3", "1+2=<3>"]`. */
  lemma CausalTextExample()
    ensures CausalPrefixes("1+2=<3>") == Ok(["1+2=<3", "1+2=<3>"])
  {
    ExampleMarkers();
    ExamplePrefixes();
  }

  lemma ExampleMarkers()
    ensures IndexOf("1+2=<3>", Bos) == Some(4) && IndexOf("1+2=<3>", Eos) == Some(6)
  {
    ExampleBos();
    ExampleEos();
  }

  lemma ExampleBos()
    ensures IndexOf("1+2=<3>", Bos) == Some(4)
  {
    FirstAtCut("1+2=<3>", "1+2=", Bos, "3>");
  }

  lemma ExampleEos()
    ensures IndexOf("1+2=<3>", Eos) == Some(6)
  {
    FirstAtCut("1+2=<3>", "1+2=<3", Eos, "");
  }

  lemma ExamplePrefixes()
    ensures Prefixes("1+2=<3>", 5, 7) == ["1+2=<3", "1+2=<3>"]
  {
    var text := "1+2=<3>";
    var ps := Prefixes(text, 5, 7);
    assert ps[0] == "1+2=<3" by { assert ps[0] == text[..6]; }
    assert ps[1] == "1+2=<3>" by { assert ps[1] == text[..7]; }
  }

  /** Where the markers sit in an equation line whose numbers hold no
      marker: `<` right after `=`, `>` at the very end. */
  lemma MarkersOfLine(line: string, sa: string, sb: string, sc: string)
    requires Bos !in sa && Bos !in sb && Eos !in sa && Eos !in sb && Eos !in sc
    requires line == sa + ['+'] + (sb + ['='] + ([Bos] + sc + [Eos]))
    ensures |line| == |sa| + |sb| + |sc| + 4
    ensures IndexOf(line, Bos) == Some(|sa| + |sb| + 2)
    ensures IndexOf(line, Eos) == Some(|line| - 1)
  {
    BosOfLine(line, sa, sb, sc);
    EosOfLine(line, sa, sb, sc);
  }

  lemma BosOfLine(line: string, sa: string, sb: string, sc: string)
    requires Bos !in sa && Bos !in sb
    requires line == sa + ['+'] + (sb + ['='] + ([Bos] + sc + [Eos]))
    ensures IndexOf(line, Bos) == Some(|sa| + |sb| + 2)
  {
    var question := sa + ['+'] + sb + ['='];
    LineShape(line, sa, sb, sc);
    FirstAtCut(line, question, Bos, sc + [Eos]);
  }

  lemma EosOfLine(line: string, sa: string, sb: string, sc: string)
    requires Eos !in sa && Eos !in sb && Eos !in sc
    requires line == sa + ['+'] + (sb + ['='] + ([Bos] + sc + [Eos]))
    ensures IndexOf(line, Eos) == Some(|line| - 1)
  {
    var body := sa + ['+'] + sb + ['='] + [Bos] + sc;
    LineShape(line, sa, sb, sc);
    FirstAtEnd(line, body, Eos);
  }

  /** A character first seen at the very end. */
  lemma FirstAtEnd(s: string, x: string, c: char)
    requires c !in x && s == x + [c]
    ensures IndexOf(s, c) == Some(|s| - 1)
  {
    FirstAtCut(s, x, c, []);
  }

  /** The line cut before `<` and before `>`. */
  lemma LineShape(line: string, sa: string, sb: string, sc: string)
    requires line == sa + ['+'] + (sb + ['='] + ([Bos] + sc + [Eos]))
    ensures line == (sa + ['+'] + sb + ['=']) + [Bos] + (sc + [Eos])
    ensures line == (sa + ['+'] + sb + ['='] + [Bos] + sc) + [Eos]
  {
  }

  /** The texts one equation line contributes. */
  function EquationPrefixes(a: nat, b: nat): seq<string>
  {
    Prefixes(Line(a, b), |NatToString(a)| + |NatToString(b)| + 3, |Line(a, b)|)
  }

  /** One equation `a+b=<c>` of the generated files yields `|str(c)| + 1`
      texts: the question with the first digit of the answer, then one more
      character each time, the last being the whole line. */
  lemma EquationSteps(a: nat, b: nat)
    ensures CausalPrefixes(Line(a, b)) == Ok(EquationPrefixes(a, b))
    ensures |EquationPrefixes(a, b)| == |NatToString(a + b)| + 1
    ensures EquationPrefixes(a, b)[|EquationPrefixes(a, b)| - 1] == Line(a, b)
  {
    DecimalSteps(Line(a, b), NatToString(a), NatToString(b), NatToString(a + b));
  }

  /** EquationSteps for any decimal texts in place of the printed numbers. */
  lemma DecimalSteps(line: string, sa: string, sb: string, sc: string)
    requires IsDecimal(sa) && IsDecimal(sb) && IsDecimal(sc)
    requires line == sa + ['+'] + (sb + ['='] + ([Bos] + sc + [Eos]))
    ensures |line| == |sa| + |sb| + |sc| + 4
    ensures CausalPrefixes(line) == Ok(Prefixes(line, |sa| + |sb| + 3, |line|))
    ensures |Prefixes(line, |sa| + |sb| + 3, |line|)| == |sc| + 1
    ensures Prefixes(line, |sa| + |sb| + 3, |line|)[|sc|] == line
  {
    DecimalMarkers(line, sa, sb, sc);
    StepsOfLine(line, |sa| + |sb|, |sc|);
  }

  /** make_causal_text on any line with `<` after `q + 2` characters and
      `>` last, `c` characters between them. */
  lemma StepsOfLine(line: string, q: nat, c: nat)
    requires |line| == q + c + 4
    requires IndexOf(line, Bos) == Some(q + 2) && IndexOf(line, Eos) == Some(|line| - 1)
    ensures CausalPrefixes(line) == Ok(Prefixes(line, q + 3, |line|))
    ensures |Prefixes(line, q + 3, |line|)| == c + 1
    ensures Prefixes(line, q + 3, |line|)[c] == line
  {
    PrefixesGrow(line, q + 3, |line|);
  }

  lemma DecimalMarkers(line: string, sa: string, sb: string, sc: string)
    requires IsDecimal(sa) && IsDecimal(sb) && IsDecimal(sc)
    requires line == sa + ['+'] + (sb + ['='] + ([Bos] + sc + [Eos]))
    ensures |line| == |sa| + |sb| + |sc| + 4
    ensures IndexOf(line, Bos) == Some(|sa| + |sb| + 2)
    ensures IndexOf(line, Eos) == Some(|line| - 1)
  {
    DecimalHasNoMarkup(sa);
    DecimalHasNoMarkup(sb);
    DecimalHasNoMarkup(sc);
    MarkersOfLine(line, sa, sb, sc);
  }



  /** What `足し算ドリル.__init__` collects from the lines of its file:
      empty lines skipped, every other line expanded by make_causal_text,
      the first failure propagated. */
  function FlattenLines(lines: seq<string>): Result<seq<string>, CausalTextError>
  {
    if |lines| == 0 then Ok([])
    else
      match FlattenLines(lines[..|lines| - 1])
      case Err(e) => Err(e)
      case Ok(dataset) =>
        var text := lines[|lines| - 1];
        if text == "" then Ok(dataset)
        else
          match CausalPrefixes(text)
          case Err(e) => Err(e)
          case Ok(texts) => Ok(dataset + texts)
  }

  /** The loop of `足し算ドリル.__init__` over `original_text.split("\n")`. */
  method FlattenDataset(originalText: string) returns (r: Result<seq<string>, CausalTextError>)
    ensures r == FlattenLines(Split(originalText, "\n"))
  {
    var textList := Split(originalText, "\n");
    var dataset: seq<string> := [];
    for i := 0 to |textList|
      invariant FlattenLines(textList[..i]) == Ok(dataset)
    {
      var text := textList[i];
      assert textList[..i + 1][..i] == textList[..i];
      if text == "" {
        continue;
      }
      var texts := MakeCausalText(text);
      if texts.Err? {
        FlattenFails(textList, i + 1);
        return Err(texts.error);
      }
      dataset := dataset + texts.value;
    }
    assert textList[..|textList|] == textList;
    return Ok(dataset);
  }

  /** Once a prefix of the lines fails, the whole list fails the same way. */
  lemma {:induction false} FlattenFails(lines: seq<string>, n: nat)
    requires n <= |lines|
    requires FlattenLines(lines[..n]).Err?
    ensures FlattenLines(lines) == FlattenLines(lines[..n])
    decreases |lines| - n
  {
    if n < |lines| {
      assert lines[..n + 1][..n] == lines[..n];
      FlattenFails(lines, n + 1);
    } else {
      assert lines[..n] == lines;
    }
  }

  /** The texts the drill dataset holds for a list of equations: each
      equation's texts, in the order of the lines. */
  function EquationsPrefixes(eqs: seq<Pair>): seq<string>
  {
    if |eqs| == 0 then []
    else
      var last := eqs[|eqs| - 1];
      EquationsPrefixes(eqs[..|eqs| - 1]) + EquationPrefixes(last.0, last.1)
  }

  /** Flattening the lines of rendered equations (the trailing empty piece
      included) never fails and yields each equation's texts in turn. */
  lemma {:induction false} FlattenEquationLines(eqs: seq<Pair>)
    ensures FlattenLines(Lines(eqs) + [""]) == Ok(EquationsPrefixes(eqs))
    decreases |eqs|
  {
    var lines := Lines(eqs) + [""];
    assert lines[..|lines| - 1] == Lines(eqs);
    FlattenEquations(eqs);
  }

  lemma {:induction false} FlattenEquations(eqs: seq<Pair>)
    ensures FlattenLines(Lines(eqs)) == Ok(EquationsPrefixes(eqs))
    decreases |eqs|
  {
    if |eqs| > 0 {
      var init, last := eqs[..|eqs| - 1], eqs[|eqs| - 1];
      assert Lines(eqs)[..|eqs| - 1] == Lines(init);
      FlattenEquations(init);
      EquationSteps(last.0, last.1);
      assert Lines(eqs)[|eqs| - 1] == Line(last.0, last.1);
      assert Line(last.0, last.1) != "";
    }
  }

  /** The drill dataset built from a rendered file: never a failure, and
      exactly the texts of its equations, line by line. */
  lemma DatasetOfRendered(eqs: seq<Pair>)
    ensures FlattenLines(Split(Render(eqs), "\n")) == Ok(EquationsPrefixes(eqs))
  {
    SplitRender(eqs);
    FlattenEquationLines(eqs);
  }
}
