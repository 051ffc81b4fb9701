/** What a sequence of operations does to the hardware beside reading it: the references taken and
    dropped and the words written, in order. */
module Effects {
  import opened Bits
  import opened Forcewake

  function EffectsOf(ops: seq<Op>): seq<Op> {
    if ops == [] then []
    else EffectsOf(ops[..|ops| - 1]) + if ops[|ops| - 1].Read? then [] else [ops[|ops| - 1]]
  }

  /** The last word written to a register, -1 if there is none. */
  function LastWord(ops: seq<Op>, reg: nat): int {
    if ops == [] then -1
    else
      var op := ops[|ops| - 1];
      if op.Write? && op.reg == reg then op.word else LastWord(ops[..|ops| - 1], reg)
  }

  /** How often a register is written. */
  function WriteCount(ops: seq<Op>, reg: nat): nat {
    if ops == [] then 0
    else
      var op := ops[|ops| - 1];
      WriteCount(ops[..|ops| - 1], reg) + if op.Write? && op.reg == reg then 1 else 0
  }

  lemma {:induction false} EffectsAppend(a: seq<Op>, b: seq<Op>)
    ensures EffectsOf(a + b) == EffectsOf(a) + EffectsOf(b)
    decreases |b|
  {
    if b == [] {
      assert a + b == a;
    } else {
      var n := |b| - 1;
      EffectsAppend(a, b[..n]);
      assert (a + b)[..|a + b| - 1] == a + b[..n];
    }
  }

  lemma {:induction false} EffectsOfReads(ops: seq<Op>)
    requires forall op :: op in ops ==> op.Read?
    ensures EffectsOf(ops) == []
  {
    if ops != [] {
      var n := |ops| - 1;
      assert ops[n] in ops;
      EffectsOfReads(ops[..n]);
    }
  }

  lemma {:induction false} EffectsOfWrites(ops: seq<Op>)
    requires forall op :: op in ops ==> !op.Read?
    ensures EffectsOf(ops) == ops
  {
    if ops != [] {
      var n := |ops| - 1;
      assert ops[n] in ops && ops == ops[..n] + [ops[n]];
      EffectsOfWrites(ops[..n]);
    }
  }

  lemma WordSnoc(ops: seq<Op>, op: Op, reg: nat)
    ensures LastWord(ops + [op], reg) == if op.Write? && op.reg == reg then op.word else LastWord(ops, reg)
    ensures WriteCount(ops + [op], reg) == WriteCount(ops, reg) + if op.Write? && op.reg == reg then 1 else 0
  {
    assert (ops + [op])[..|ops|] == ops;
  }

  lemma {:induction false} NoWord(ops: seq<Op>, reg: nat)
    requires forall op :: op in ops ==> !(op.Write? && op.reg == reg)
    ensures LastWord(ops, reg) == -1 && WriteCount(ops, reg) == 0
  {
    if ops != [] {
      assert ops[|ops| - 1] in ops;
      NoWord(ops[..|ops| - 1], reg);
    }
  }

  /** Behind a word, others that leave its register alone. */
  lemma WordThenOthers(a: seq<Op>, reg: nat, word: U32, b: seq<Op>)
    requires forall op :: op in b ==> !(op.Write? && op.reg == reg)
    ensures LastWord(a + [Write(reg, word)] + b, reg) == word
  {
    WordSnoc(a, Write(reg, word), reg);
    NoWord(b, reg);
    hide LastWord, WriteCount;
    WordAppend(a + [Write(reg, word)], b, reg);
  }

  /** Words and counts are those of the effects. */
  lemma {:induction false} WordOfEffects(ops: seq<Op>, reg: nat)
    ensures LastWord(ops, reg) == LastWord(EffectsOf(ops), reg)
    ensures WriteCount(ops, reg) == WriteCount(EffectsOf(ops), reg)
  {
    if ops != [] {
      var n := |ops| - 1;
      WordOfEffects(ops[..n], reg);
      if ops[n].Read? {
        assert EffectsOf(ops) == EffectsOf(ops[..n]);
      } else {
        assert EffectsOf(ops) == EffectsOf(ops[..n]) + [ops[n]];
        WordSnoc(EffectsOf(ops[..n]), ops[n], reg);
      }
    }
  }

  lemma {:induction false} WordAppend(a: seq<Op>, b: seq<Op>, reg: nat)
    ensures LastWord(a + b, reg) == if LastWord(b, reg) >= 0 then LastWord(b, reg) else LastWord(a, reg)
    ensures WriteCount(a + b, reg) == WriteCount(a, reg) + WriteCount(b, reg)
    decreases |b|
  {
    if b == [] {
      assert a + b == a;
    } else {
      var n := |b| - 1;
      WordAppend(a, b[..n], reg);
      assert (a + b)[..|a + b| - 1] == a + b[..n];
    }
  }
}
