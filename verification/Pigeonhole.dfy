/** The pigeonhole principle, used for free cells of the table and for member names of two objects. */
module Pigeonhole {

  lemma {:induction false} InjectionFits(f: seq<nat>, m: nat)
    requires forall i :: 0 <= i < |f| ==> f[i] < m
    requires forall i, j :: 0 <= i < j < |f| ==> f[i] != f[j]
    ensures |f| <= m
    decreases m
  {
    assert |f| > 0 ==> f[0] < m;
    if m > 0 {
      if i :| 0 <= i < |f| && f[i] == m - 1 {
        var last := |f| - 1;
        InjectionFits(f[i := f[last]][..last], m - 1);
      } else {
        InjectionFits(f, m - 1);
      }
    }
  }

  /** An injection from a set of `m` indices into itself hits every index. */
  lemma InjectionHits(f: seq<nat>, y: nat)
    requires forall i :: 0 <= i < |f| ==> f[i] < |f|
    requires forall i, j :: 0 <= i < j < |f| ==> f[i] != f[j]
    requires y < |f|
    ensures exists i :: 0 <= i < |f| && f[i] == y
  {
    if forall i :: 0 <= i < |f| ==> f[i] != y {
      var last := |f| - 1;
      var g := seq(|f|, i requires 0 <= i < |f| => if f[i] == last then y else f[i]);
      InjectionFits(g, last);
    }
  }
}
