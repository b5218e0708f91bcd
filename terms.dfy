/**
 * The six game terms that the term-alignment and mixed-term scripts look for in English and Chinese
 * text, in the order in which their `TERM_PATTERNS` dictionaries list them.
 */
module Terms {
  import opened Seqs

  datatype Term = Brace | Immobilize | Bruise | Knockback | Poison | Thorns

  /** The iteration order of `TERM_PATTERNS.items()` (dictionary insertion order). */
  const TermOrder: seq<Term> := [Brace, Immobilize, Bruise, Knockback, Poison, Thorns]

  /** `TERM_TO_ZH[t]` / `TERM_REPLACEMENTS[t]`: the Simplified Chinese rendering of a term. */
  function ZhTerm(t: Term): (r: string)
    ensures |r| == 2
  {
    match t
    case Brace => "护甲"
    case Immobilize => "定身"
    case Bruise => "挫伤"
    case Knockback => "击退"
    case Poison => "中毒"
    case Thorns => "荆棘"
  }

  /** The order lists every term exactly once. */
  lemma TermOrderComplete()
    ensures NoDuplicates(TermOrder)
    ensures forall t: Term :: t in TermOrder
  {
    forall t: Term ensures t in TermOrder {
      match t
      case Brace => assert TermOrder[0] == t;
      case Immobilize => assert TermOrder[1] == t;
      case Bruise => assert TermOrder[2] == t;
      case Knockback => assert TermOrder[3] == t;
      case Poison => assert TermOrder[4] == t;
      case Thorns => assert TermOrder[5] == t;
    }
  }

  /** Distinct terms have distinct Chinese renderings. */
  lemma ZhTermInjective(a: Term, b: Term)
    ensures ZhTerm(a) == ZhTerm(b) ==> a == b
  {
    if ZhTerm(a) == ZhTerm(b) {
      assert ZhTerm(a)[0] == ZhTerm(b)[0];
    }
  }
}
