/** A run over a buffer that holds only a stretch of a chunk is the run over the chunk, for as long as it keeps
    to the stretch; and if it leaves the chunk, the chunk is corrupt however it is delivered. */
module LzmaPieces {
  import opened Bytes
  import opened RangeCoder
  import opened Consumption
  import opened LzmaModel
  import opened LzmaChunk

  function At0(s: Lz, pos: nat): Lz {
    s.(c := MovedTo(s.c, pos))
  }

  /** n bytes of x from i on are those of the chunk from pos on; they end with the chunk or with x. */
  ghost predicate Stretch(x: seq<Byte>, i: nat, chunk: seq<Byte>, pos: nat, n: nat) {
    && i + n <= |x| && pos + n <= |chunk|
    && Agree(x, i, chunk, pos, n)
    && (i + n == |x| || pos + n == |chunk|)
  }

  lemma StretchDrop(x: seq<Byte>, i: nat, chunk: seq<Byte>, pos: nat, n: nat, d: nat)
    requires Stretch(x, i, chunk, pos, n) && d <= n
    ensures Stretch(x, i + d, chunk, pos + d, n - d)
  {
    AgreeDrop(x, i, chunk, pos, n, d);
  }

  /** The next symbol is read inside the input, but its distance is bad. */
  ghost predicate BadDistance(inp: seq<Byte>, props: Props, dictSize: nat, s: Lz) {
    && props.Valid() && s.Valid()
    && var (a, m, c) := Symbol(inp, s.c, s.m, props, s.hist);
    a.Copy? && !ValidDistance(s.hist, m.rep0, dictSize) && Normalize(inp, c).pos <= |inp|
  }

  /** Symbol and closing normalisation, on x and on the chunk. */
  lemma SymbolTransfer(x: seq<Byte>, i: nat, chunk: seq<Byte>, props: Props, s: Lz, n: nat)
    requires props.Valid() && s.Valid() && Stretch(x, i, chunk, s.c.pos, n)
    ensures var (a, m, e) := Symbol(x, MovedTo(s.c, i), s.m, props, s.hist);
            var (a', m', e') := Symbol(chunk, s.c, s.m, props, s.hist);
            var (f, f') := (Normalize(x, e), Normalize(chunk, e'));
            if f.pos <= i + n then i <= f.pos && a' == a && m' == m && f' == MovedTo(f, s.c.pos + (f.pos - i))
            else f'.pos > s.c.pos + n
  {
    hide Symbol, Agree;
    var c := MovedTo(s.c, i);
    var (a, m, e) := Symbol(x, c, s.m, props, s.hist);
    var (a', m', e') := Symbol(chunk, s.c, s.m, props, s.hist);
    SymbolConsumption(x, c, s.m, props, s.hist);
    SymbolConsumption(chunk, s.c, s.m, props, s.hist);
    SymbolOverruns(x, i, chunk, s.c, s.m, props, s.hist, n);
    if e'.pos <= s.c.pos + n {
      SymbolLocal(x, i, chunk, s.c, s.m, props, s.hist, n);
      var used := e'.pos - s.c.pos;
      AgreeDrop(x, i, chunk, s.c.pos, n, used);
      if Normalize(chunk, e').pos <= s.c.pos + n {
        LocalNormalize(x, i + used, chunk, e', n - used);
      }
    }
  }

  /** What a run over the stretch says about the chunk: the same state, or corruption once it left the chunk. */
  function OnChunk(z: Lz, i: nat, pos: nat, n: nat): Outcome {
    if i <= z.c.pos <= i + n then Good(At0(z, pos + (z.c.pos - i))) else Corrupt
  }

  lemma StepTransfer(x: seq<Byte>, i: nat, chunk: seq<Byte>, props: Props, dictSize: nat, s: Lz, n: nat)
    requires props.Valid() && s.Valid() && Stretch(x, i, chunk, s.c.pos, n)
    ensures BadDistance(x, props, dictSize, At0(s, i)) ==> Step(chunk, props, dictSize, s).Corrupt?
    ensures var r := Step(x, props, dictSize, At0(s, i));
            r.Good? ==>
              i <= r.lz.c.pos && Step(chunk, props, dictSize, s) == OnChunk(r.lz, i, s.c.pos, n)
  {
    hide Symbol, Stretch, Normalize;
    StretchEnds(x, i, chunk, s.c.pos, n);
    SymbolTransfer(x, i, chunk, props, s, n);
    SymbolConsumption(x, MovedTo(s.c, i), s.m, props, s.hist);
    NormalizeForward(x, Symbol(x, MovedTo(s.c, i), s.m, props, s.hist).2);
  }

  lemma StretchEnds(x: seq<Byte>, i: nat, chunk: seq<Byte>, pos: nat, n: nat)
    requires Stretch(x, i, chunk, pos, n)
    ensures i + n <= |x| && pos + n <= |chunk| && (i + n == |x| || pos + n == |chunk|)
  {
  }

  lemma NormalizeForward(inp: seq<Byte>, c: Coder)
    ensures c.pos <= Normalize(inp, c).pos
  {
  }

  lemma StepForward(inp: seq<Byte>, props: Props, dictSize: nat, s: Lz)
    requires props.Valid() && s.Valid() && Step(inp, props, dictSize, s).Good?
    ensures s.c.pos <= Step(inp, props, dictSize, s).lz.c.pos
  {
    hide Symbol, Normalize;
    SymbolConsumption(inp, s.c, s.m, props, s.hist);
    NormalizeForward(inp, Symbol(inp, s.c, s.m, props, s.hist).2);
  }

  lemma {:induction false} RunForward(inp: seq<Byte>, props: Props, dictSize: nat, s: Lz, k: nat)
    requires props.Valid() && s.Valid() && Run(inp, props, dictSize, s, k).Good?
    ensures s.c.pos <= Run(inp, props, dictSize, s, k).lz.c.pos
    decreases k
  {
    hide Step;
    if k == 0 {
    } else {
      StepForward(inp, props, dictSize, s);
      RunForward(inp, props, dictSize, Step(inp, props, dictSize, s).lz, k - 1);
    }
  }

  /** k symbols decoded from the stretch are k symbols of the chunk, or the chunk is corrupt. */
  lemma {:induction false} RunTransfer(x: seq<Byte>, i: nat, chunk: seq<Byte>, props: Props, dictSize: nat, s: Lz, n: nat, k: nat)
    requires props.Valid() && s.Valid() && Stretch(x, i, chunk, s.c.pos, n)
    requires Run(x, props, dictSize, At0(s, i), k).Good?
    ensures var z := Run(x, props, dictSize, At0(s, i), k).lz;
            i <= z.c.pos && Run(chunk, props, dictSize, s, k) == OnChunk(z, i, s.c.pos, n)
    decreases k, 1
  {
    hide Step, Stretch, Run, At0, MovedTo, OnChunk, Lz.Valid, Props.Valid;
    Moved(s, i, s.c.pos);
    RunUnfold(x, props, dictSize, At0(s, i), k);
    if k == 0 {
      RunUnfold(chunk, props, dictSize, s, k);
      OnChunkHere(s, i, n);
    } else {
      StepTransfer(x, i, chunk, props, dictSize, s, n);
      var z1 := Step(x, props, dictSize, At0(s, i)).lz;
      RunForward(x, props, dictSize, z1, k - 1);
      if z1.c.pos <= i + n {
        StretchDrop(x, i, chunk, s.c.pos, n, z1.c.pos - i);
        RestTransfer(x, chunk, props, dictSize, z1, s.c.pos + (z1.c.pos - i), n - (z1.c.pos - i), k - 1);
      }
      TransferStep(chunk, props, dictSize, s, z1, Run(x, props, dictSize, z1, k - 1).lz, i, n, k);
    }
  }

  /** The same, from a state of the run over x that stands for position pos of the chunk. */
  lemma RestTransfer(x: seq<Byte>, chunk: seq<Byte>, props: Props, dictSize: nat, z1: Lz, pos: nat, n: nat, k: nat)
    requires props.Valid() && z1.Valid() && Stretch(x, z1.c.pos, chunk, pos, n)
    requires Run(x, props, dictSize, z1, k).Good?
    ensures Run(chunk, props, dictSize, At0(z1, pos), k) == OnChunk(Run(x, props, dictSize, z1, k).lz, z1.c.pos, pos, n)
    decreases k, 2
  {
    hide Step, Stretch, Run, OnChunk;
    assert At0(At0(z1, pos), z1.c.pos) == z1;
    RunTransfer(x, z1.c.pos, chunk, props, dictSize, At0(z1, pos), n, k);
  }

  /** After one more step on the chunk, the rest of the run is what the rest of the stretch says. */
  lemma TransferStep(chunk: seq<Byte>, props: Props, dictSize: nat, s: Lz, z1: Lz, z: Lz, i: nat, n: nat, k: nat)
    requires props.Valid() && s.Valid() && z1.Valid() && k > 0 && i <= z1.c.pos <= z.c.pos
    requires Step(chunk, props, dictSize, s) == OnChunk(z1, i, s.c.pos, n)
    requires z1.c.pos <= i + n ==>
             Run(chunk, props, dictSize, At0(z1, s.c.pos + (z1.c.pos - i)), k - 1)
             == OnChunk(z, z1.c.pos, s.c.pos + (z1.c.pos - i), n - (z1.c.pos - i))
    ensures Run(chunk, props, dictSize, s, k) == OnChunk(z, i, s.c.pos, n)
  {
    hide Step;
    RunUnfold(chunk, props, dictSize, s, k);
  }

  lemma OnChunkHere(s: Lz, i: nat, n: nat)
    ensures OnChunk(At0(s, i), i, s.c.pos, n) == Good(s)
  {
  }

  lemma Moved(s: Lz, a: nat, b: nat)
    ensures At0(s, a).c.pos == a && At0(At0(s, a), b) == At0(s, b) && At0(s, s.c.pos) == s
    ensures s.Valid() ==> At0(s, a).Valid()
  {
  }

  lemma RunUnfold(inp: seq<Byte>, props: Props, dictSize: nat, s: Lz, k: nat)
    requires props.Valid() && s.Valid()
    ensures Run(inp, props, dictSize, s, k)
         == if k == 0 then Good(s) else
              var r := Step(inp, props, dictSize, s);
              if r.Corrupt? then Corrupt else Run(inp, props, dictSize, r.lz, k - 1)
  {
  }

  /** A bad distance met after k symbols of the stretch makes the chunk corrupt. */
  lemma FailureTransfer(x: seq<Byte>, i: nat, chunk: seq<Byte>, props: Props, dictSize: nat, s: Lz, n: nat, k: nat)
    requires props.Valid() && s.Valid() && Stretch(x, i, chunk, s.c.pos, n)
    requires Run(x, props, dictSize, At0(s, i), k).Good?
    requires BadDistance(x, props, dictSize, Run(x, props, dictSize, At0(s, i), k).lz)
    ensures Run(chunk, props, dictSize, s, k + 1).Corrupt?
  {
    hide Step, Stretch, BadDistance, Run;
    var z := Run(x, props, dictSize, At0(s, i), k).lz;
    RunTransfer(x, i, chunk, props, dictSize, s, n, k);
    RunSplit(chunk, props, dictSize, s, k, 1);
    if z.c.pos <= i + n {
      var used := z.c.pos - i;
      var s1 := At0(z, s.c.pos + used);
      StretchDrop(x, i, chunk, s.c.pos, n, used);
      assert At0(s1, i + used) == z;
      StepTransfer(x, i + used, chunk, props, dictSize, s1, n - used);
      RunOne(chunk, props, dictSize, s1);
    }
  }

  lemma RunOne(chunk: seq<Byte>, props: Props, dictSize: nat, s: Lz)
    requires props.Valid() && s.Valid()
    ensures Run(chunk, props, dictSize, s, 1) == Step(chunk, props, dictSize, s)
  {
  }

  /** No state of the run before the k-th has reached the size. */
  ghost predicate Below(inp: seq<Byte>, props: Props, dictSize: nat, s: Lz, k: nat, size: int)
    requires props.Valid() && s.Valid()
  {
    forall j :: 0 <= j < k && Run(inp, props, dictSize, s, j).Good? ==> |Run(inp, props, dictSize, s, j).lz.hist| < size
  }

  lemma BelowNext(inp: seq<Byte>, props: Props, dictSize: nat, s: Lz, k: nat, size: int)
    requires props.Valid() && s.Valid() && Below(inp, props, dictSize, s, k, size)
    requires Run(inp, props, dictSize, s, k).Good? ==> |Run(inp, props, dictSize, s, k).lz.hist| < size
    ensures Below(inp, props, dictSize, s, k + 1, size)
  {
  }

  lemma BelowNone(inp: seq<Byte>, props: Props, dictSize: nat, s: Lz, size: int)
    requires props.Valid() && s.Valid()
    ensures Below(inp, props, dictSize, s, 0, size)
  {
  }

  lemma RunGoodBefore(inp: seq<Byte>, props: Props, dictSize: nat, s: Lz, j: nat, k: nat)
    requires props.Valid() && s.Valid() && j <= k && Run(inp, props, dictSize, s, k).Good?
    ensures Run(inp, props, dictSize, s, j).Good?
  {
    hide Step, Run;
    RunSplit(inp, props, dictSize, s, j, k - j);
  }

  lemma BelowTransfer(x: seq<Byte>, i: nat, chunk: seq<Byte>, props: Props, dictSize: nat, s: Lz, n: nat, k: nat, size: int)
    requires props.Valid() && s.Valid() && Stretch(x, i, chunk, s.c.pos, n)
    requires k > 0 ==> Run(x, props, dictSize, At0(s, i), k - 1).Good?
    requires Below(x, props, dictSize, At0(s, i), k, size)
    ensures Below(chunk, props, dictSize, s, k, size)
  {
    hide Step, Run, Stretch;
    forall j | 0 <= j < k && Run(chunk, props, dictSize, s, j).Good?
      ensures |Run(chunk, props, dictSize, s, j).lz.hist| < size
    {
      RunGoodBefore(x, props, dictSize, At0(s, i), j, k - 1);
      RunTransfer(x, i, chunk, props, dictSize, s, n, j);
    }
  }

  lemma BelowAppend(inp: seq<Byte>, props: Props, dictSize: nat, s: Lz, a: nat, s1: Lz, b: nat, size: int)
    requires props.Valid() && s.Valid() && Run(inp, props, dictSize, s, a) == Good(s1)
    requires Below(inp, props, dictSize, s, a, size) && Below(inp, props, dictSize, s1, b, size)
    ensures Below(inp, props, dictSize, s, a + b, size)
  {
    hide Step, Run;
    forall j | 0 <= j < a + b && Run(inp, props, dictSize, s, j).Good?
      ensures |Run(inp, props, dictSize, s, j).lz.hist| < size
    {
      if j >= a {
        RunSplit(inp, props, dictSize, s, a, j - a);
      }
    }
  }
}
