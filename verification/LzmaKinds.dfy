/** What the state of the symbol layer stands for: the kinds of the latest symbols. */
module LzmaKinds {
  import opened LzmaModel
  import opened LzmaEncoding

  datatype Kind = Lit | Mat | ShortRepeat | LongRepeat

  function KindOf(ch: Choice): Kind {
    match ch
    case Literal(_) => Lit
    case Match(_, _) => Mat
    case ShortRep => ShortRepeat
    case LongRep(_, _) => LongRepeat
  }

  function Kinds(chs: seq<Choice>): (ks: seq<Kind>)
    ensures |ks| == |chs|
  {
    seq(|chs|, i requires 0 <= i < |chs| => KindOf(chs[i]))
  }

  /** The model after some symbols. */
  function Then(m: Model, chs: seq<Choice>): Model {
    if chs == [] then m else After(Then(m, chs[..|chs| - 1]), chs[|chs| - 1])
  }

  /** The symbol i places before the last one; before the first one everything counts as a literal. */
  function Ago(ks: seq<Kind>, i: nat): Kind {
    if i < |ks| then ks[|ks| - 1 - i] else Lit
  }

  /** The kind of the symbol i places back, as far as it still matters after literals: a match, a short repeat after a
      literal, or any other repeat. */
  predicate MatchAt(ks: seq<Kind>, i: nat) {
    Ago(ks, i) == Mat
  }

  predicate ShortAt(ks: seq<Kind>, i: nat) {
    Ago(ks, i) == ShortRepeat && Ago(ks, i + 1) == Lit
  }

  predicate RepeatAt(ks: seq<Kind>, i: nat) {
    Ago(ks, i) == LongRepeat || (Ago(ks, i) == ShortRepeat && Ago(ks, i + 1) != Lit)
  }

  /** For every list of symbols the state is the code of the latest kinds. */
  lemma {:induction false} StateTells(chs: seq<Choice>)
    ensures var (ks, s) := (Kinds(chs), Then(FreshModel, chs).state);
            && (s == 0 <==> Ago(ks, 0) == Ago(ks, 1) == Lit && (Ago(ks, 2) == Lit))
            && (s == 1 <==> Ago(ks, 0) == Ago(ks, 1) == Lit && MatchAt(ks, 2))
            && (s == 2 <==> Ago(ks, 0) == Ago(ks, 1) == Lit && RepeatAt(ks, 2))
            && (s == 3 <==> Ago(ks, 0) == Ago(ks, 1) == Lit && ShortAt(ks, 2))
            && (s == 4 <==> Ago(ks, 0) == Lit && MatchAt(ks, 1))
            && (s == 5 <==> Ago(ks, 0) == Lit && RepeatAt(ks, 1))
            && (s == 6 <==> Ago(ks, 0) == Lit && ShortAt(ks, 1))
            && (s == 7 <==> Ago(ks, 0) == Mat && Ago(ks, 1) == Lit)
            && (s == 8 <==> Ago(ks, 0) == LongRepeat && Ago(ks, 1) == Lit)
            && (s == 9 <==> Ago(ks, 0) == ShortRepeat && Ago(ks, 1) == Lit)
            && (s == 10 <==> Ago(ks, 0) == Mat && Ago(ks, 1) != Lit)
            && (s == 11 <==> Ago(ks, 0) in {ShortRepeat, LongRepeat} && Ago(ks, 1) != Lit)
    decreases |chs|
  {
    hide Kinds, Ago;
    if chs == [] {
      NoKinds();
    } else {
      var front := chs[..|chs| - 1];
      StateTells(front);
      Shifted(chs);
    }
  }

  lemma NoKinds()
    ensures forall i: nat :: Ago(Kinds([]), i) == Lit
  {
  }

  /** One symbol more: the others are one place further back. */
  lemma Shifted(chs: seq<Choice>)
    requires chs != []
    ensures var (ks, before) := (Kinds(chs), Kinds(chs[..|chs| - 1]));
            && Ago(ks, 0) == KindOf(chs[|chs| - 1]) && Ago(ks, 1) == Ago(before, 0) && Ago(ks, 2) == Ago(before, 1)
            && Ago(ks, 3) == Ago(before, 2)
  {
  }
}
