/** Tumbling windows: amounts recorded into windows that restart, at the earliest, one span
    after they started. Bounds per window give bounds over every sliding interval. */
module Windows {

  /** An amount, when it was admitted, and the start of the window it was counted in. */
  datatype Rec = Rec(time: nat, start: nat, amount: nat)

  function Total(h: seq<Rec>): nat {
    if h == [] then 0 else Total(h[..|h| - 1]) + h[|h| - 1].amount
  }

  /** Amounts counted in the window that started at `start`. */
  function InWindow(h: seq<Rec>, start: nat): nat {
    if h == [] then 0
    else InWindow(h[..|h| - 1], start) + if h[|h| - 1].start == start then h[|h| - 1].amount else 0
  }

  /** Amounts admitted in the half-open interval `[from, from + span)`. */
  function InInterval(h: seq<Rec>, from: nat, span: nat): nat {
    if h == [] then 0
    else
      InInterval(h[..|h| - 1], from, span) +
      if from <= h[|h| - 1].time < from + span then h[|h| - 1].amount else 0
  }

  /** Admission times lie in their windows, windows do not overlap and come in order, and no
      window counts more than `cap`. */
  ghost predicate Tumbling(h: seq<Rec>, span: nat, cap: nat) {
    && (forall i :: 0 <= i < |h| ==> h[i].start <= h[i].time < h[i].start + span)
    && (forall i, j :: 0 <= i < j < |h| ==> h[i].start == h[j].start || h[i].start + span <= h[j].start)
    && (forall i :: 0 <= i < |h| ==> InWindow(h, h[i].start) <= cap)
  }

  lemma SumsExtend(h: seq<Rec>, r: Rec, start: nat)
    ensures Total(h + [r]) == Total(h) + r.amount
    ensures InWindow(h + [r], start) == InWindow(h, start) + if r.start == start then r.amount else 0
    ensures forall from: nat, span: nat :: InInterval(h + [r], from, span) ==
                                 InInterval(h, from, span) + if from <= r.time < from + span then r.amount else 0
  {
    assert (h + [r])[..|h|] == h;
  }

  /** Adding a record to the newest window, or opening a later one. */
  lemma TumblingExtend(h: seq<Rec>, r: Rec, span: nat, cap: nat)
    requires Tumbling(h, span, cap)
    requires r.start <= r.time < r.start + span
    requires forall i :: 0 <= i < |h| ==> h[i].start == r.start || h[i].start + span <= r.start
    requires InWindow(h, r.start) + r.amount <= cap
    ensures Tumbling(h + [r], span, cap)
    ensures Total(h + [r]) == Total(h) + r.amount
    ensures InWindow(h + [r], r.start) == InWindow(h, r.start) + r.amount
  {
    var g := h + [r];
    SumsExtend(h, r, r.start);
    forall i | 0 <= i < |g|
      ensures InWindow(g, g[i].start) <= cap
    {
      SumsExtend(h, r, g[i].start);
      if i < |h| {
        assert g[i] == h[i];
      }
    }
  }

  lemma {:induction false} OnlyOneWindow(h: seq<Rec>, start: nat, from: nat, span: nat)
    requires forall i :: 0 <= i < |h| && from <= h[i].time < from + span ==> h[i].start == start
    ensures InInterval(h, from, span) <= InWindow(h, start)
  {
    if h != [] {
      OnlyOneWindow(h[..|h| - 1], start, from, span);
    }
  }

  lemma WithinCap(h: seq<Rec>, span: nat, cap: nat, start: nat)
    requires Tumbling(h, span, cap)
    ensures InWindow(h, start) <= cap
  {
    if i :| 0 <= i < |h| && h[i].start == start {
      assert InWindow(h, h[i].start) <= cap;
    } else {
      EmptyWindow(h, start);
    }
  }

  /** An interval that meets one window only counts at most one cap. */
  lemma OneWindowBound(h: seq<Rec>, span: nat, cap: nat, start: nat, from: nat)
    requires Tumbling(h, span, cap)
    requires forall i :: 0 <= i < |h| && from <= h[i].time < from + span ==> h[i].start == start
    ensures InInterval(h, from, span) <= cap
  {
    OnlyOneWindow(h, start, from, span);
    WithinCap(h, span, cap, start);
  }

  lemma {:induction false} InIntervalConcat(a: seq<Rec>, b: seq<Rec>, from: nat, span: nat)
    ensures InInterval(a + b, from, span) == InInterval(a, from, span) + InInterval(b, from, span)
  {
    if b == [] {
      assert a + b == a;
    } else {
      InIntervalConcat(a, b[..|b| - 1], from, span);
      assert (a + b)[..|a + b| - 1] == a + b[..|b| - 1];
    }
  }

  lemma {:induction false} EmptyWindow(h: seq<Rec>, start: nat)
    requires forall i :: 0 <= i < |h| ==> h[i].start != start
    ensures InWindow(h, start) == 0
  {
    if h != [] {
      EmptyWindow(h[..|h| - 1], start);
    }
  }

  lemma {:induction false} TwoWindows(h: seq<Rec>, a: nat, b: nat, from: nat, span: nat)
    requires a != b
    requires forall i :: 0 <= i < |h| && from <= h[i].time < from + span ==> h[i].start == a || h[i].start == b
    ensures InInterval(h, from, span) <= InWindow(h, a) + InWindow(h, b)
  {
    if h != [] {
      TwoWindows(h[..|h| - 1], a, b, from, span);
    }
  }

  /** Every sliding interval as long as a window counts at most two caps. */
  lemma SlidingBound(h: seq<Rec>, span: nat, cap: nat, from: nat)
    requires Tumbling(h, span, cap)
    ensures InInterval(h, from, span) <= 2 * cap
  {
    if i :| 0 <= i < |h| && from <= h[i].time < from + span {
      var a := h[i].start;
      if j :| 0 <= j < |h| && from <= h[j].time < from + span && h[j].start != a {
        TwoWindows(h, a, h[j].start, from, span);
      } else {
        OnlyOneWindow(h, a, from, span);
      }
    } else {
      OnlyOneWindow(h, 0, from, span);
      NothingInside(h, from, span);
    }
  }

  lemma {:induction false} NothingInside(h: seq<Rec>, from: nat, span: nat)
    requires forall i :: 0 <= i < |h| ==> !(from <= h[i].time < from + span)
    ensures InInterval(h, from, span) == 0
  {
    if h != [] {
      NothingInside(h[..|h| - 1], from, span);
    }
  }

  /** If the records of a window are those made during its span, its sum is that of the interval. */
  lemma {:induction false} WindowIsInterval(h: seq<Rec>, start: nat, span: nat)
    requires forall i :: 0 <= i < |h| ==> (h[i].start == start <==> start <= h[i].time < start + span)
    ensures InWindow(h, start) == InInterval(h, start, span)
  {
    if h != [] {
      WindowIsInterval(h[..|h| - 1], start, span);
    }
  }

  lemma {:induction false} AllInside(h: seq<Rec>, span: nat)
    requires forall i :: 0 <= i < |h| ==> h[i].time < span
    ensures Total(h) == InInterval(h, 0, span)
  {
    if h != [] {
      AllInside(h[..|h| - 1], span);
    }
  }

  lemma SingleRecord(h: seq<Rec>, from: nat, span: nat)
    requires |h| <= 1 && forall i :: 0 <= i < |h| ==> h[i].amount == 1
    ensures InInterval(h, from, span) <= 1
  {
    if h != [] {
      NothingInside([], from, span);
      assert h[..0] == [];
    }
  }
}
