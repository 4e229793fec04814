/** The character-level `Tokenizer` of the addition data pipeline: one id per
    distinct corpus character in sorted order, then the pad symbol, and the
    fixed-width (token ids, mask, targets) triple built for causal training. */
module CharTokenizer {
  import opened Wrappers

  /** The pad symbol U+25A1 (white square). */
  const Pad: char := '\U{25A1}'

  /** The loss-ignore value written into every unsupervised target. */
  const IgnoreIndex: int := -100

  datatype TokenError =
    | UnknownChar(c: char)    // KeyError from `str_to_int[c]`
    | UnknownId(id: int)      // KeyError from `int_to_str[i]`
    | IndexOutOfRange         // IndexError in `make_causal_data`

  predicate StrictlySorted(s: seq<char>) {
    forall i, j :: 0 <= i < j < |s| ==> s[i] < s[j]
  }

  /** Adds `c` to a strictly sorted sequence, keeping it strictly sorted. */
  function Insert(s: seq<char>, c: char): (r: seq<char>)
    requires StrictlySorted(s)
    ensures StrictlySorted(r)
    ensures forall x :: x in r <==> x in s || x == c
  {
    if |s| == 0 then [c]
    else if c == s[0] then s
    else if c < s[0] then [c] + s
    else
      var rest := Insert(s[1..], c);
      assert forall x :: x in s <==> x == s[0] || x in s[1..];
      assert forall j :: 0 <= j < |rest| ==> s[0] < rest[j] by {
        forall j | 0 <= j < |rest| ensures s[0] < rest[j] {
          assert rest[j] in rest;
        }
      }
      [s[0]] + rest
  }

  /** `sorted(list(set(text)))`. */
  function SortedChars(text: string): (r: seq<char>)
    ensures StrictlySorted(r)
    ensures forall x :: x in r <==> x in text
  {
    if |text| == 0 then []
    else
      var init := text[..|text| - 1];
      assert forall x :: x in text <==> x in init || x == text[|text| - 1];
      Insert(SortedChars(init), text[|text| - 1])
  }

  /** What `Tokenizer.__init__` stores. */
  datatype Tokenizer = Tokenizer(
    chars: seq<char>,
    strToInt: map<char, int>,
    intToStr: map<int, char>,
    vocabSize: int)

  /** `Tokenizer(text)`: the sorted distinct characters get ids 0..k-1 and
      the pad symbol gets id k. The source checks no collision between the
      pad symbol and the corpus; the `update` calls then simply overwrite. */
  function Build(text: string): Tokenizer
  {
    var chars := SortedChars(text);
    var k := |chars|;
    Tokenizer(chars, StrToInt(chars), IntToStr(chars), k + 1)
  }

  /** `encode`: one id per character; a character outside the vocabulary
      fails with its KeyError. */
  function Encode(t: Tokenizer, s: string): (r: Result<seq<int>, TokenError>)
    ensures r.Ok? <==> forall i :: 0 <= i < |s| ==> s[i] in t.strToInt
    ensures r.Ok? ==> |r.value| == |s|
    ensures r.Ok? ==> forall i :: 0 <= i < |s| ==> r.value[i] == t.strToInt[s[i]]
    ensures r.Err? ==> r.error.UnknownChar? && r.error.c in s && r.error.c !in t.strToInt
  {
    if |s| == 0 then Ok([])
    else if s[0] !in t.strToInt then Err(UnknownChar(s[0]))
    else match Encode(t, s[1..])
      case Err(e) => Err(e)
      case Ok(ids) => Ok([t.strToInt[s[0]]] + ids)
  }

  /** `decode`: one character per id; an id outside the vocabulary fails
      with its KeyError. */
  function Decode(t: Tokenizer, ids: seq<int>): (r: Result<string, TokenError>)
    ensures r.Ok? <==> forall i :: 0 <= i < |ids| ==> ids[i] in t.intToStr
    ensures r.Ok? ==> |r.value| == |ids|
    ensures r.Ok? ==> forall i :: 0 <= i < |ids| ==> r.value[i] == t.intToStr[ids[i]]
    ensures r.Err? ==> r.error.UnknownId? && r.error.id in ids && r.error.id !in t.intToStr
  {
    if |ids| == 0 then Ok([])
    else if ids[0] !in t.intToStr then Err(UnknownId(ids[0]))
    else match Decode(t, ids[1..])
      case Err(e) => Err(e)
      case Ok(s) => Ok([t.intToStr[ids[0]]] + s)
  }

  /** A strictly sorted sequence has as many elements as its set. */
  lemma {:induction false} DistinctCount(s: seq<char>)
    requires StrictlySorted(s)
    ensures |set x | x in s| == |s|
  {
    if |s| > 0 {
      var rest := s[1..];
      DistinctCount(rest);
      assert (set x | x in s) == {s[0]} + (set x | x in rest);
      assert s[0] !in rest;
    }
  }

  /** Two strictly sorted sequences holding the same characters are equal:
      `Build` stores exactly `sorted(set(text))`, whatever order it used. */
  lemma {:induction false} SortedUnique(a: seq<char>, b: seq<char>)
    requires StrictlySorted(a) && StrictlySorted(b)
    requires forall x :: x in a <==> x in b
    ensures a == b
  {
    if |a| > 0 {
      assert a[0] in b;
    }
    if |b| > 0 {
      assert b[0] in a;
    }
    if |a| > 0 {
      assert a[0] == b[0] by {
        var i :| 0 <= i < |a| && a[i] == b[0];
        var j :| 0 <= j < |b| && b[j] == a[0];
        assert a[0] <= a[i];
        assert b[0] <= b[j];
      }
      assert forall x :: x in a[1..] <==> x in a && x != a[0];
      assert forall x :: x in b[1..] <==> x in b && x != b[0];
      SortedUnique(a[1..], b[1..]);
      assert a == [a[0]] + a[1..] && b == [b[0]] + b[1..];
    }
  }

  /** `str_to_int` for the sorted characters `chars`. */
  function StrToInt(chars: seq<char>): map<char, int>
    requires StrictlySorted(chars)
  {
    (map i | 0 <= i < |chars| :: chars[i] := i)[Pad := |chars|]
  }

  /** `int_to_str` for the sorted characters `chars`. */
  function IntToStr(chars: seq<char>): map<int, char>
  {
    (map i | 0 <= i < |chars| :: chars[i])[|chars| := Pad]
  }

  /** The two maps of a pad-free alphabet: ids 0..k-1 in order, the pad
      symbol at k, and each map undoes the other. */
  lemma IdMaps(chars: seq<char>)
    requires StrictlySorted(chars) && Pad !in chars
    ensures var s2i := StrToInt(chars); var i2s := IntToStr(chars); var k := |chars|;
      && (forall c :: c in s2i <==> c in chars || c == Pad)
      && (forall i :: i in i2s <==> 0 <= i <= k)
      && (forall i :: 0 <= i < k ==> s2i[chars[i]] == i && i2s[i] == chars[i])
      && s2i[Pad] == k && i2s[k] == Pad
      && (forall c :: c in s2i ==> s2i[c] in i2s && i2s[s2i[c]] == c)
      && (forall i :: i in i2s ==> i2s[i] in s2i && s2i[i2s[i]] == i)
  {
    var s2i := StrToInt(chars);
    var i2s := IntToStr(chars);
    var k := |chars|;
    StrToIntEntries(chars);
    IntToStrEntries(chars);
    forall c | c in s2i ensures s2i[c] in i2s && i2s[s2i[c]] == c {
      if c != Pad {
        var i :| 0 <= i < k && chars[i] == c;
        assert s2i[c] == i;
      }
    }
  }

  /** The entries of `str_to_int`. */
  lemma StrToIntEntries(chars: seq<char>)
    requires StrictlySorted(chars) && Pad !in chars
    ensures forall c :: c in StrToInt(chars) <==> c in chars || c == Pad
    ensures forall i :: 0 <= i < |chars| ==> StrToInt(chars)[chars[i]] == i
    ensures StrToInt(chars)[Pad] == |chars|
  {
    var s2i := StrToInt(chars);
    forall c | c in chars ensures c in s2i {
      var i :| 0 <= i < |chars| && chars[i] == c;
    }
  }

  /** The entries of `int_to_str`. */
  lemma IntToStrEntries(chars: seq<char>)
    ensures forall i :: i in IntToStr(chars) <==> 0 <= i <= |chars|
    ensures forall i :: 0 <= i < |chars| ==> IntToStr(chars)[i] == chars[i]
    ensures IntToStr(chars)[|chars|] == Pad
  {
  }

  /** The vocabulary of a corpus without the pad symbol: ids 0..k-1 go to
      the distinct characters in sorted order, the pad symbol gets id k,
      the two maps are inverse to each other, and the vocabulary size is
      the number of distinct characters plus one. */
  lemma VocabularyIds(text: string)
    requires Pad !in text
    ensures var t := Build(text); var k := |t.chars|;
      && k == |set c | c in text|
      && t.vocabSize == k + 1
      && t.chars == SortedChars(text)
      && (forall c :: c in t.strToInt <==> c in text || c == Pad)
      && (forall i :: i in t.intToStr <==> 0 <= i <= k)
      && (forall i :: 0 <= i < k ==> t.strToInt[t.chars[i]] == i && t.intToStr[i] == t.chars[i])
      && t.strToInt[Pad] == k && t.intToStr[k] == Pad
      && (forall c :: c in t.strToInt ==> t.strToInt[c] in t.intToStr && t.intToStr[t.strToInt[c]] == c)
      && (forall i :: i in t.intToStr ==> t.intToStr[i] in t.strToInt && t.strToInt[t.intToStr[i]] == i)
  {
    var chars := SortedChars(text);
    DistinctCount(chars);
    assert (set x | x in chars) == (set c | c in text);
    IdMaps(chars);
  }

  /** Decoding undoes encoding for every text over the corpus characters
      and the pad symbol; any other character makes `encode` fail. */
  lemma RoundTrip(text: string, s: string)
    requires Pad !in text
    ensures var t := Build(text);
      && (Encode(t, s).Ok? <==> forall i :: 0 <= i < |s| ==> s[i] in text || s[i] == Pad)
      && (Encode(t, s).Ok? ==> Decode(t, Encode(t, s).value) == Ok(s))
  {
    var t := Build(text);
    VocabularyIds(text);
    var e := Encode(t, s);
    if e.Ok? {
      var d := Decode(t, e.value);
      assert d.Ok?;
      assert d.value == s;
    }
  }

  /** Decoding fails exactly on an id outside 0..k. */
  lemma DecodeRange(text: string, ids: seq<int>)
    requires Pad !in text
    ensures var t := Build(text);
      Decode(t, ids).Ok? <==> forall i :: 0 <= i < |ids| ==> 0 <= ids[i] < t.vocabSize
  {
    VocabularyIds(text);
  }

  /** What `make_causal_data` returns: three tensors of width `seq_len`. */
  datatype CausalData = CausalData(tokenIds: seq<int>, mask: seq<bool>, targets: seq<int>)

  /** `make_causal_data(token_ids, seq_len)`. With `n` ids and
      `1 <= n <= seq_len` it succeeds: the first `n-1` ids followed by pad
      ids, a mask true exactly on `[0, n-1)`, and targets that ignore every
      position but `n-1`, which holds the last id. Otherwise the write of
      the last id (or the read of it, for no ids) is out of range. */
  method MakeCausalData(t: Tokenizer, tokenIds: seq<int>, seqLen: int)
    returns (r: Result<CausalData, TokenError>)
    requires Pad in t.strToInt
    ensures r.Err? <==> !(1 <= |tokenIds| <= seqLen)
    ensures r.Err? ==> r.error == IndexOutOfRange
    ensures r.Ok? ==> var d := r.value; var n := |tokenIds|;
      && |d.tokenIds| == seqLen && |d.mask| == seqLen && |d.targets| == seqLen
      && d.tokenIds[..n - 1] == tokenIds[..n - 1]
      && (forall i :: n - 1 <= i < seqLen ==> d.tokenIds[i] == t.strToInt[Pad])
      && (forall i :: 0 <= i < seqLen ==> (d.mask[i] <==> i < n - 1))
      && d.targets[n - 1] == tokenIds[n - 1]
      && (forall i :: 0 <= i < seqLen && i != n - 1 ==> d.targets[i] == IgnoreIndex)
  {
    var n := |tokenIds|;
    if n < 1 || seqLen < n {
      return Err(IndexOutOfRange);
    }
    var padId := t.strToInt[Pad];
    // the last token is dropped and the rest right-padded to seq_len
    var x := tokenIds[..n - 1] + seq(seqLen - n + 1, _ => padId);

    var mask := new bool[seqLen](_ => false);
    // the slice assignment `mask[:n-1] = 1`
    forall j | 0 <= j < n - 1 {
      mask[j] := true;
    }

    var target := new int[seqLen](_ => IgnoreIndex);
    target[n - 1] := tokenIds[n - 1];

    return Ok(CausalData(x, mask[..], target[..]));
  }
}
