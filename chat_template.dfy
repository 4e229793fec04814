/** The chat-format preparation of the English-to-Spanish fine-tuning data:
    EOS/BOS markers are put around each turn of a "### Human:" /
    "### Assistant:" dialogue, and the labels of the tokenised dialogue are
    masked so that only the assistant's turns count towards the loss. */
module ChatTemplate {
  import opened Strings

  const InstructionTemplate: string := "\n\n### Human:"
  const ResponseTemplate: string := "\n\n### Assistant:"

  /** The label value the loss ignores. */
  const MaskTokenId: int := -100

  // ---------------------------------------------------------------------
  // add_special_tokens

  /** Both replacements: EOS in front of every human template, BOS after
      every assistant template. */
  function InsertMarkers(text: string, bos: string, eos: string): string
  {
    ReplaceAll(ReplaceAll(text, InstructionTemplate, eos + InstructionTemplate),
               ResponseTemplate, ResponseTemplate + bos)
  }

  /** The replacements keep every piece of the text between the templates
      and change only the separators: the human template becomes EOS plus
      the template, and then the assistant template becomes the template
      plus BOS. */
  lemma InsertMarkersPieces(text: string, bos: string, eos: string)
    ensures Join(Split(text, InstructionTemplate), InstructionTemplate) == text
    ensures var mid := Join(Split(text, InstructionTemplate), eos + InstructionTemplate);
      && Join(Split(mid, ResponseTemplate), ResponseTemplate) == mid
      && InsertMarkers(text, bos, eos) == Join(Split(mid, ResponseTemplate), ResponseTemplate + bos)
  {
    JoinSplit(text, InstructionTemplate);
    ReplaceIsJoinOfSplit(text, InstructionTemplate, eos + InstructionTemplate);
    var mid := ReplaceAll(text, InstructionTemplate, eos + InstructionTemplate);
    JoinSplit(mid, ResponseTemplate);
    ReplaceIsJoinOfSplit(mid, ResponseTemplate, ResponseTemplate + bos);
  }

  /** The text with EOS appended unless it already ends with EOS. */
  function WithTrailingEos(s: string, eos: string): (r: string)
    ensures EndsWith(r, eos)
    ensures r == s || r == s + eos
    ensures EndsWith(s, eos) ==> r == s
  {
    if EndsWith(s, eos) then s
    else
      assert (s + eos)[|s + eos| - |eos|..] == eos;
      s + eos
  }

  /** `k` copies of `s`, one after another. */
  function Repeat(s: string, k: nat): string
  {
    if k == 0 then "" else Repeat(s, k - 1) + s
  }

  /** The text after the markers are inserted and the trailing EOS is
      ensured; the strip loop then removes its leading copies of EOS. */
  function MarkedText(text: string, bos: string, eos: string): string
  {
    WithTrailingEos(InsertMarkers(text, bos, eos), eos)
  }

  /** `add_special_tokens`: insert the turn markers, make sure the text
      ends with EOS, then remove every leading copy of EOS. The result is
      what is left of the marked text after a run of whole EOS copies, and
      it no longer starts with EOS. The source loops forever on an empty
      EOS string, hence the precondition. */
  method AddSpecialTokens(text: string, bos: string, eos: string) returns (r: string)
    requires |eos| > 0
    ensures exists k: nat :: MarkedText(text, bos, eos) == Repeat(eos, k) + r
    ensures !StartsWith(r, eos)
  {
    var t := InsertMarkers(text, bos, eos);
    if !EndsWith(t, eos) {
      t := t + eos;
    }
    ghost var marked := t;
    ghost var k: nat := 0;
    while StartsWith(t, eos)
      invariant marked == Repeat(eos, k) + t
      decreases |t|
    {
      var rest := t[|eos|..];
      RepeatStep(eos, k, t);
      t := rest;
      k := k + 1;
    }
    r := t;
  }

  /** Moving one leading copy from the text into the run of copies. */
  lemma RepeatStep(s: string, k: nat, t: string)
    requires StartsWith(t, s)
    ensures Repeat(s, k) + t == Repeat(s, k + 1) + t[|s|..]
  {
    assert t == s + t[|s|..];
    assert Repeat(s, k + 1) + t[|s|..] == Repeat(s, k) + (s + t[|s|..]);
  }

  // ---------------------------------------------------------------------
  // create_special_mask

  /** The labels after the masking pass over `labels`, starting in the human
      state `human`, together with the state it ends in. In the human state
      every label is masked, and a BOS id switches to the assistant state;
      in the assistant state labels are kept, and an EOS id (kept too)
      switches back to the human state. */
  function Scan(labels: seq<int>, human: bool, bosId: int, eosId: int): (r: (seq<int>, bool))
    ensures |r.0| == |labels|
    ensures forall i :: 0 <= i < |labels| ==> r.0[i] == labels[i] || r.0[i] == MaskTokenId
    decreases |labels|
  {
    if |labels| == 0 then ([], human)
    else
      var prev := Scan(labels[..|labels| - 1], human, bosId, eosId);
      var tok := labels[|labels| - 1];
      if prev.1 then (prev.0 + [MaskTokenId], tok != bosId)
      else (prev.0 + [tok], tok == eosId)
  }

  /** The masked labels of a whole example, which always starts with a
      human turn. */
  function SpecialMask(labels: seq<int>, bosId: int, eosId: int): seq<int>
  {
    Scan(labels, true, bosId, eosId).0
  }

  function Masked(n: nat): seq<int>
  {
    seq(n, _ => MaskTokenId)
  }

  /** `create_special_mask`, in place on the label array: afterwards the
      array holds the masked labels of its old contents. */
  method CreateSpecialMask(labels: array<int>, bosId: int, eosId: int)
    modifies labels
    ensures labels[..] == SpecialMask(old(labels[..]), bosId, eosId)
  {
    ghost var orig := labels[..];
    var human := true;
    var idx := 0;
    while idx < labels.Length
      invariant 0 <= idx <= labels.Length
      invariant labels[idx..] == orig[idx..]
      invariant (labels[..idx], human) == Scan(orig[..idx], true, bosId, eosId)
    {
      var tok := labels[idx];
      ghost var done := labels[..idx];
      assert tok == orig[idx];
      assert orig[..idx + 1][..idx] == orig[..idx];
      assert orig[..idx + 1][idx] == tok;
      if human {
        labels[idx] := MaskTokenId;
        if tok == bosId {
          human := false;
        }
      } else if tok == eosId {
        human := true;
      }
      assert labels[..idx + 1] == done + [labels[idx]];
      idx := idx + 1;
    }
    assert orig[..labels.Length] == orig;
    assert labels[..labels.Length] == labels[..];
  }

  /** Masking a concatenation masks the first part and carries on with the
      second from the state the first part ended in. */
  lemma {:induction false} ScanAppend(x: seq<int>, y: seq<int>, human: bool, bosId: int, eosId: int)
    ensures var first := Scan(x, human, bosId, eosId);
      Scan(x + y, human, bosId, eosId)
        == (first.0 + Scan(y, first.1, bosId, eosId).0, Scan(y, first.1, bosId, eosId).1)
    decreases |y|
  {
    if |y| == 0 {
      assert x + y == x;
      var first := Scan(x, human, bosId, eosId);
      assert first.0 + [] == first.0;
    } else {
      var init, tok := y[..|y| - 1], y[|y| - 1];
      assert (x + y)[..|x + y| - 1] == x + init;
      assert (x + y)[|x + y| - 1] == tok;
      ScanAppend(x, init, human, bosId, eosId);
      var first := Scan(x, human, bosId, eosId);
      var mid := Scan(init, first.1, bosId, eosId);
      assert Scan(x + init, human, bosId, eosId) == (first.0 + mid.0, mid.1);
      if mid.1 {
        assert first.0 + mid.0 + [MaskTokenId] == first.0 + (mid.0 + [MaskTokenId]);
      } else {
        assert first.0 + mid.0 + [tok] == first.0 + (mid.0 + [tok]);
      }
    }
  }

  /** A human turn without a BOS id is masked throughout and leaves the
      pass in the human state; in particular an example with no BOS id at
      all is masked entirely. */
  lemma {:induction false} HumanSpan(x: seq<int>, bosId: int, eosId: int)
    requires bosId !in x
    ensures Scan(x, true, bosId, eosId) == (Masked(|x|), true)
    decreases |x|
  {
    if |x| > 0 {
      var init := x[..|x| - 1];
      assert bosId !in init by { assert forall t | t in init :: t in x; }
      HumanSpan(init, bosId, eosId);
      assert x[|x| - 1] != bosId;
      assert Scan(x, true, bosId, eosId) == (Masked(|init|) + [MaskTokenId], true);
      assert Masked(|init|) + [MaskTokenId] == Masked(|x|);
    } else {
      assert Masked(0) == [];
    }
  }

  /** An assistant turn without an EOS id is kept as it is and leaves the
      pass in the assistant state. */
  lemma {:induction false} AssistantSpan(y: seq<int>, bosId: int, eosId: int)
    requires eosId !in y
    ensures Scan(y, false, bosId, eosId) == (y, false)
    decreases |y|
  {
    if |y| > 0 {
      var init := y[..|y| - 1];
      assert eosId !in init by { assert forall t | t in init :: t in y; }
      AssistantSpan(init, bosId, eosId);
      assert init + [y[|y| - 1]] == y;
    }
  }

  /** The human turn ends with its BOS id, which is masked too; the pass
      then switches to the assistant state. */
  lemma HumanTurn(x: seq<int>, bosId: int, eosId: int)
    requires bosId !in x
    ensures Scan(x + [bosId], true, bosId, eosId) == (Masked(|x| + 1), false)
  {
    HumanSpan(x, bosId, eosId);
    ScanAppend(x, [bosId], true, bosId, eosId);
    assert [bosId][..0] == [];
    assert Masked(|x|) + [MaskTokenId] == Masked(|x| + 1);
  }

  /** The assistant turn ends with its EOS id, which is kept; the pass then
      switches back to the human state. */
  lemma AssistantTurn(y: seq<int>, bosId: int, eosId: int)
    requires eosId !in y
    ensures Scan(y + [eosId], false, bosId, eosId) == (y + [eosId], true)
  {
    AssistantSpan(y, bosId, eosId);
    ScanAppend(y, [eosId], false, bosId, eosId);
    assert [eosId][..0] == [];
  }

  /** One human turn (up to and including BOS) is masked, the following
      assistant turn (up to and including EOS) is kept, and the rest of the
      example is masked afresh as if it were a new example. */
  lemma TurnMask(x: seq<int>, y: seq<int>, rest: seq<int>, bosId: int, eosId: int)
    requires bosId !in x && eosId !in y
    ensures SpecialMask(x + [bosId] + y + [eosId] + rest, bosId, eosId)
      == Masked(|x| + 1) + y + [eosId] + SpecialMask(rest, bosId, eosId)
  {
    var turn, reply := x + [bosId], y + [eosId];
    assert turn[..|turn| - 1] == x;
    assert reply[..|reply| - 1] == y;
    Exchange(turn, reply, bosId, eosId);
    ScanAppend(turn + reply, rest, true, bosId, eosId);
    assert x + [bosId] + y + [eosId] + rest == (turn + reply) + rest;
    assert Masked(|x| + 1) + y + [eosId] + SpecialMask(rest, bosId, eosId)
      == (Masked(|turn|) + reply) + SpecialMask(rest, bosId, eosId);
  }

  /** A human turn followed by an assistant turn leaves the pass in the
      human state, with only the human turn masked. */
  lemma Exchange(turn: seq<int>, reply: seq<int>, bosId: int, eosId: int)
    requires |turn| > 0 && turn[|turn| - 1] == bosId && bosId !in turn[..|turn| - 1]
    requires |reply| > 0 && reply[|reply| - 1] == eosId && eosId !in reply[..|reply| - 1]
    ensures Scan(turn + reply, true, bosId, eosId) == (Masked(|turn|) + reply, true)
  {
    var x, y := turn[..|turn| - 1], reply[..|reply| - 1];
    assert turn == x + [bosId];
    assert reply == y + [eosId];
    HumanTurn(x, bosId, eosId);
    AssistantTurn(y, bosId, eosId);
    ScanAppend(turn, reply, true, bosId, eosId);
  }

  /** Every label from the start up to and including the first BOS id is
      masked. */
  lemma MaskedThroughFirstBos(x: seq<int>, rest: seq<int>, bosId: int, eosId: int)
    requires bosId !in x
    ensures |SpecialMask(x + [bosId] + rest, bosId, eosId)| == |x| + 1 + |rest|
    ensures SpecialMask(x + [bosId] + rest, bosId, eosId)[..|x| + 1] == Masked(|x| + 1)
  {
    HumanTurn(x, bosId, eosId);
    ScanAppend(x + [bosId], rest, true, bosId, eosId);
  }

  /** Without a BOS id every label is masked. */
  lemma NoBosAllMasked(labels: seq<int>, bosId: int, eosId: int)
    requires bosId !in labels
    ensures SpecialMask(labels, bosId, eosId) == Masked(|labels|)
  {
    HumanSpan(labels, bosId, eosId);
  }
}
