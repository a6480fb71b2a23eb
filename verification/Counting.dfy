/** How moving one element in or out of a finite set moves its size. */
module Counting {
  function Bit(b: bool): int { if b then 1 else 0 }

  lemma CountOne<T>(before: set<T>, after: set<T>, t: T)
    requires before - {t} == after - {t}
    ensures |after| == |before| - Bit(t in before) + Bit(t in after)
  {
    var rest := before - {t};
    assert before == if t in before then rest + {t} else rest;
    assert after == if t in after then rest + {t} else rest;
  }
}
