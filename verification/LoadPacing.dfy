/** The open-loop CPU load: which of `n` slots are busy so that `p` of them are, evenly spread. */
module LoadPacing {

  function Clamp(percent: int, n: nat): nat {
    if percent < 0 then 0 else if percent > n then n else percent
  }

  /** The error accumulator before slot `i`, and the slots' states so far. */
  function ErrorAt(p: nat, n: nat, i: nat): int
  {
    if i == 0 then 2 * p - n
    else var e := ErrorAt(p, n, i - 1); if e > 0 then e + 2 * (p - n) else e + 2 * p
  }

  predicate Busy(p: nat, n: nat, i: nat) { ErrorAt(p, n, i) > 0 }

  /** Busy slots among the first `i`. */
  function BusyCount(p: nat, n: nat, i: nat): (c: nat)
    ensures c <= i
  {
    if i == 0 then 0 else BusyCount(p, n, i - 1) + (if Busy(p, n, i - 1) then 1 else 0)
  }

  function CountTrue(slots: seq<bool>): nat {
    if slots == [] then 0 else CountTrue(slots[..|slots| - 1]) + (if slots[|slots| - 1] then 1 else 0)
  }

  lemma Distribute(a: int, b: int)
    ensures a * (b + 1) == a * b + a
  {
  }

  /** The accumulator is the distance between the ideal line and the staircase of busy slots, and stays within
      one step of it. */
  lemma {:induction false} ErrorIsDistance(p: nat, n: nat, i: nat)
    requires 0 < n && p <= n
    ensures ErrorAt(p, n, i) == p * (2 * i) + 2 * p - n - n * (2 * BusyCount(p, n, i))
    ensures 2 * p - 2 * n < ErrorAt(p, n, i) <= 2 * p
  {
    if i > 0 {
      ErrorIsDistance(p, n, i - 1);
      var c := BusyCount(p, n, i - 1);
      Distribute(p, 2 * (i - 1));
      Distribute(p, 2 * (i - 1) + 1);
      Distribute(n, 2 * c);
      Distribute(n, 2 * c + 1);
    }
  }

  /** After i slots the busy count c satisfies 2pi - n <= 2nc < 2pi + n. */
  lemma EvenPacing(p: nat, n: nat, i: nat)
    requires 0 < n && p <= n
    ensures p * (2 * i) - n <= n * (2 * BusyCount(p, n, i)) < p * (2 * i) + n
  {
    ErrorIsDistance(p, n, i);
  }

  lemma Between(n: nat, c: nat, p: nat)
    requires 0 < n && n * (2 * p) - n <= n * (2 * c) < n * (2 * p) + n
    ensures c == p
  {
    if c >= p + 1 { Multiples(n, 2 * c, 2 * p + 2); Distribute(n, 2 * p); Distribute(n, 2 * p + 1); }
    if p >= c + 1 { Multiples(n, 2 * p, 2 * c + 2); Distribute(n, 2 * c); Distribute(n, 2 * c + 1); }
  }

  lemma Multiples(n: nat, a: nat, b: nat)
    requires a >= b
    ensures n * a >= n * b
  {
  }

  /** A full cycle has exactly p busy slots, and leaves the accumulator where it started. */
  lemma FullCycle(p: nat, n: nat)
    requires 0 < n && p <= n
    ensures BusyCount(p, n, n) == p
    ensures ErrorAt(p, n, n) == 2 * p - n
  {
    EvenPacing(p, n, n);
    assert p * (2 * n) == n * (2 * p);
    Between(n, BusyCount(p, n, n), p);
    ErrorIsDistance(p, n, n);
  }

  /** So back-to-back calls go on as one unending cycle. */
  lemma {:induction false} CyclesJoin(p: nat, n: nat, i: nat)
    requires 0 < n && p <= n
    ensures ErrorAt(p, n, n + i) == ErrorAt(p, n, i)
    ensures BusyCount(p, n, n + i) == p + BusyCount(p, n, i)
  {
    FullCycle(p, n);
    if i > 0 { CyclesJoin(p, n, i - 1); }
  }

  lemma Split(a: int, b: int, c: int)
    ensures a * (2 * (b + c)) == a * (2 * b) + 2 * (a * c)
  {
  }

  /** Every window of w slots, wherever it starts, has pw/n busy slots rounded down or up. */
  lemma EveryWindow(p: nat, n: nat, start: nat, w: nat)
    requires 0 < n && p <= n
    ensures var busy := BusyCount(p, n, start + w) - BusyCount(p, n, start);
            p * w / n <= busy <= (p * w + n - 1) / n
  {
    EvenPacing(p, n, start);
    EvenPacing(p, n, start + w);
    var busy := BusyCount(p, n, start + w) - BusyCount(p, n, start);
    Split(p, start, w);
    Split(n, BusyCount(p, n, start), busy);
    FloorCeiling(n, busy, p * w);
  }

  lemma FloorCeiling(n: nat, d: int, x: nat)
    requires 0 < n && x - n < n * d < x + n
    ensures x / n <= d <= (x + n - 1) / n
  {
    var f, c := x / n, (x + n - 1) / n;
    assert n * f <= x && x + n - 1 < n * (c + 1) by { assert x == n * f + x % n; assert x + n - 1 == n * c + (x + n - 1) % n; }
    if d <= f - 1 { Distribute(n, f - 1); MultiplesInt(n, f - 1, d); }
    if d >= c + 1 { MultiplesInt(n, d, c + 1); }
  }

  lemma MultiplesInt(n: nat, a: int, b: int)
    requires a >= b
    ensures n * a >= n * b
  {
  }

  /** `load`, with the constant 100 as `n`. Each turn publishes one slot. The count the source asserts at the end
      is the percentage where that is 0 to n, and the nearer of the two where it is not. */
  method Load(percent: int, n: nat) returns (slots: seq<bool>, count: nat)
    requires 0 < n
    ensures |slots| == n && count == CountTrue(slots)
    ensures count == if percent < 0 then 0 else if percent > n then n else percent
    ensures forall i :: 0 <= i < n ==> slots[i] == Busy(Clamp(percent, n), n, i)
  {
    var p := if percent < 0 then 0 else percent;
    p := if p > n then n else p;
    var err := 2 * p - n;
    count := 0;
    slots := [];
    for i := 0 to n
      invariant err == ErrorAt(p, n, i) && count == BusyCount(p, n, i) == CountTrue(slots)
      invariant |slots| == i && forall j :: 0 <= j < i ==> slots[j] == Busy(p, n, j)
    {
      var busy := false;
      if err > 0 {
        busy := true;
        err := err + 2 * (p - n);
        count := count + 1;
      } else {
        err := err + 2 * p;
      }
      assert (slots + [busy])[..i] == slots;
      slots := slots + [busy];
    }
    FullCycle(p, n);
  }
}
