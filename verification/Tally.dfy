/** Sums of per-thread weights. The counting arguments of the thread models all reduce to these lemmas. */
module Tally {

  function Sum(ws: seq<nat>): nat {
    if |ws| == 0 then 0 else ws[0] + Sum(ws[1..])
  }

  /** Changing one weight changes the sum by the difference. */
  lemma {:induction false} SumUpdate(ws: seq<nat>, i: nat, w: nat)
    requires i < |ws|
    ensures Sum(ws[i := w]) + ws[i] == Sum(ws) + w
  {
    if i == 0 {
      assert ws[i := w][1..] == ws[1..];
    } else {
      SumUpdate(ws[1..], i - 1, w);
      assert ws[i := w][1..] == ws[1..][i - 1 := w];
    }
  }

  /** If no weight grows by more than c, the sum grows by at most c per entry. */
  lemma {:induction false} SumShift(a: seq<nat>, b: seq<nat>, c: nat)
    requires |a| == |b|
    requires forall i :: 0 <= i < |a| ==> b[i] <= a[i] + c
    ensures Sum(b) <= Sum(a) + c * |a|
  {
    if |a| > 0 {
      SumShift(a[1..], b[1..], c);
    }
  }

  /** A sum whose entries do not shrink, with one that grows, grows. */
  lemma {:induction false} SumGrows(a: seq<nat>, b: seq<nat>, i: nat)
    requires |a| == |b| && i < |a|
    requires forall j :: 0 <= j < |a| ==> a[j] <= b[j]
    requires a[i] < b[i]
    ensures Sum(a) < Sum(b)
  {
    if i == 0 {
      SumShift(b[1..], a[1..], 0);
    } else {
      SumGrows(a[1..], b[1..], i - 1);
    }
  }

  /** A sum is at least each of its entries, and is zero when all of them are. */
  lemma {:induction false} SumEntry(ws: seq<nat>, i: nat)
    requires i < |ws|
    ensures ws[i] <= Sum(ws)
  {
    if i > 0 {
      SumEntry(ws[1..], i - 1);
    }
  }

  lemma {:induction false} SumZero(ws: seq<nat>)
    requires forall i :: 0 <= i < |ws| ==> ws[i] == 0
    ensures Sum(ws) == 0
  {
    if |ws| > 0 {
      SumZero(ws[1..]);
    }
  }

  // ---------------------------------------------------------------- sums of a gauge over threads

  function Weights<X>(xs: seq<X>, gauge: X -> nat): seq<nat> {
    seq(|xs|, i requires 0 <= i < |xs| => gauge(xs[i]))
  }

  function Total<X>(xs: seq<X>, gauge: X -> nat): nat {
    Sum(Weights(xs, gauge))
  }

  lemma TotalUpdate<X>(xs: seq<X>, i: nat, x: X, gauge: X -> nat)
    requires i < |xs|
    ensures Total(xs[i := x], gauge) + gauge(xs[i]) == Total(xs, gauge) + gauge(x)
  {
    SumUpdate(Weights(xs, gauge), i, gauge(x));
    assert Weights(xs[i := x], gauge) == Weights(xs, gauge)[i := gauge(x)];
  }
}
