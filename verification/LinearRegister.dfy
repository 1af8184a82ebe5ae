/** Shift registers with linear feedback, over any type of register: what linearity,
    invertibility and parity say about the register after a stream of bits. */
module LinearRegister {

  // One clock of the register, the sum of two registers, the empty register, and the place
  // where a message bit enters.
  datatype Register<!T> = Register(step: T -> T, plus: (T, T) -> T, zero: T, top: T)

  // The sum is that of a vector space over the two-element field.
  ghost predicate GroupAt<T>(r: Register<T>, x: T, y: T, z: T) {
    && r.plus(x, y) == r.plus(y, x)
    && r.plus(r.plus(x, y), z) == r.plus(x, r.plus(y, z))
    && r.plus(x, r.zero) == x
    && r.plus(x, x) == r.zero
  }

  ghost predicate Group<T(!new)>(r: Register<T>) { forall x, y, z :: GroupAt(r, x, y, z) }

  ghost predicate Linear<T(!new)>(r: Register<T>) {
    forall x, y :: r.step(r.plus(x, y)) == r.plus(r.step(x), r.step(y))
  }

  ghost predicate Injective<T(!new)>(r: Register<T>) {
    forall x, y :: r.step(x) == r.step(y) ==> x == y
  }

  function Steps<T>(r: Register<T>, c: T, n: nat): T {
    if n == 0 then c else r.step(Steps(r, c, n - 1))
  }

  function Feed<T>(r: Register<T>, c: T, x: bool): T {
    r.step(if x then r.plus(c, r.top) else c)
  }

  function Run<T>(r: Register<T>, c: T, bits: seq<bool>): T {
    if |bits| == 0 then c else Feed(r, Run(r, c, bits[..|bits| - 1]), bits[|bits| - 1])
  }

  lemma {:induction false} RunConcat<T>(r: Register<T>, c: T, a: seq<bool>, b: seq<bool>)
    ensures Run(r, c, a + b) == Run(r, Run(r, c, a), b)
  {
    if |b| == 0 {
      assert a + b == a;
    } else {
      RunConcat(r, c, a, b[..|b| - 1]);
      assert (a + b)[..|a + b| - 1] == a + b[..|b| - 1];
    }
  }

  lemma {:induction false} StepsConcat<T>(r: Register<T>, c: T, m: nat, n: nat)
    ensures Steps(r, c, m + n) == Steps(r, Steps(r, c, m), n)
  {
    if n > 0 {
      StepsConcat(r, c, m, n - 1);
    }
  }

  // ------------------------------------------------------------- linearity

  lemma {:induction false} StepsLinear<T(!new)>(r: Register<T>, x: T, y: T, n: nat)
    requires Linear(r)
    ensures Steps(r, r.plus(x, y), n) == r.plus(Steps(r, x, n), Steps(r, y, n))
  {
    if n > 0 {
      StepsLinear(r, x, y, n - 1);
    }
  }

  function Differences(a: seq<bool>, b: seq<bool>): (d: seq<bool>)
    requires |a| == |b|
    ensures |d| == |a| && forall i | 0 <= i < |d| :: d[i] == (a[i] != b[i])
  {
    seq(|a|, i requires 0 <= i < |a| => a[i] != b[i])
  }

  lemma {:induction false} Regroup<T(!new)>(r: Register<T>, x: T, y: T, t: T)
    requires Group(r)
    ensures r.plus(r.plus(x, t), y) == r.plus(r.plus(x, y), t)
    ensures r.plus(x, r.plus(y, t)) == r.plus(r.plus(x, y), t)
    ensures r.plus(r.plus(x, t), r.plus(y, t)) == r.plus(x, y)
  {
    assert GroupAt(r, x, t, y) && GroupAt(r, t, y, t) && GroupAt(r, x, y, t);
    assert GroupAt(r, r.plus(x, t), y, t) && GroupAt(r, r.plus(x, y), t, t) && GroupAt(r, t, t, t);
    assert GroupAt(r, r.plus(x, y), r.zero, t);
  }

  lemma {:induction false} FeedLinear<T(!new)>(r: Register<T>, x: T, y: T, p: bool, q: bool)
    requires Linear(r)
    requires r.plus(r.plus(x, r.top), y) == r.plus(r.plus(x, y), r.top)
    requires r.plus(x, r.plus(y, r.top)) == r.plus(r.plus(x, y), r.top)
    requires r.plus(r.plus(x, r.top), r.plus(y, r.top)) == r.plus(x, y)
    ensures Feed(r, r.plus(x, y), p != q) == r.plus(Feed(r, x, p), Feed(r, y, q))
  {
  }

  // The sum of the registers of two messages is the register of their difference.
  lemma {:induction false} RunLinear<T(!new)>(r: Register<T>, x: T, y: T, a: seq<bool>, b: seq<bool>)
    requires Group(r) && Linear(r) && |a| == |b|
    ensures Run(r, r.plus(x, y), Differences(a, b)) == r.plus(Run(r, x, a), Run(r, y, b))
  {
    if |a| > 0 {
      var n := |a| - 1;
      RunLinear(r, x, y, a[..n], b[..n]);
      assert Differences(a, b)[..n] == Differences(a[..n], b[..n]);
      Regroup(r, Run(r, x, a[..n]), Run(r, y, b[..n]), r.top);
      FeedLinear(r, Run(r, x, a[..n]), Run(r, y, b[..n]), a[n], b[n]);
    }
  }

  // The sum of the registers of two messages is what their difference leaves of the empty one.
  lemma {:induction false} SumIsSyndrome<T(!new)>(r: Register<T>, c: T, a: seq<bool>, b: seq<bool>)
    requires Group(r) && Linear(r) && |a| == |b|
    ensures r.plus(Run(r, c, a), Run(r, c, b)) == Run(r, r.zero, Differences(a, b))
  {
    RunLinear(r, c, c, a, b);
    assert GroupAt(r, c, c, c);
  }

  // So two messages share their register exactly when their difference leaves it empty.
  lemma {:induction false} SharedIffSyndromeZero<T(!new)>(r: Register<T>, c: T, a: seq<bool>, b: seq<bool>)
    requires Group(r) && Linear(r) && |a| == |b|
    ensures Run(r, c, a) == Run(r, c, b) <==> Run(r, r.zero, Differences(a, b)) == r.zero
  {
    SumIsSyndrome(r, c, a, b);
    var x, y := Run(r, c, a), Run(r, c, b);
    assert GroupAt(r, x, y, y) && GroupAt(r, y, y, y) && GroupAt(r, r.zero, y, y) && GroupAt(r, x, x, x);
  }

  // ------------------------------------------------------------- bursts

  // Units: the register values that reach the top after 0, 1, 2, .. clocks.
  ghost predicate Chain<T>(r: Register<T>, units: seq<T>) {
    && (|units| > 0 ==> units[0] == r.top)
    && forall i | 0 <= i < |units| - 1 :: r.step(units[i + 1]) == units[i]
  }

  lemma {:induction false} StepsOfUnit<T>(r: Register<T>, units: seq<T>, k: nat)
    requires Chain(r, units) && k < |units|
    ensures Steps(r, units[k], k) == r.top
  {
    if k > 0 {
      StepsConcat(r, units[k], 1, k - 1);
      assert Steps(r, units[k], 1) == r.step(Steps(r, units[k], 0));
      StepsOfUnit(r, units, k - 1);
    }
  }

  // A bit pattern laid into the register.
  function Laid<T>(r: Register<T>, units: seq<T>, bits: seq<bool>): T
    requires |bits| <= |units|
  {
    if |bits| == 0 then r.zero
    else
      var k := |bits| - 1;
      var rest := Laid(r, units, bits[..k]);
      if bits[k] then r.plus(rest, units[k]) else rest
  }

  // Feeding bits one by one is adding their pattern at once and clocking.
  lemma {:induction false} RunIsSteps<T(!new)>(r: Register<T>, units: seq<T>, c: T, bits: seq<bool>)
    requires Group(r) && Linear(r) && Chain(r, units) && |bits| <= |units|
    ensures Run(r, c, bits) == Steps(r, r.plus(c, Laid(r, units, bits)), |bits|)
  {
    if |bits| == 0 {
      assert GroupAt(r, c, c, c);
    } else {
      var k := |bits| - 1;
      RunIsSteps(r, units, c, bits[..k]);
      if bits[k] {
        var rest := Laid(r, units, bits[..k]);
        StepsOfUnit(r, units, k);
        StepsLinear(r, r.plus(c, rest), units[k], k);
        Regroup(r, c, rest, units[k]);
      }
    }
  }

  ghost predicate Independent<T>(r: Register<T>, units: seq<T>) {
    forall bits: seq<bool> :: |bits| <= |units| && Laid(r, units, bits) == r.zero ==> true !in bits
  }

  // Each unit is seen by its own probe and by no other.
  ghost predicate Probed<T(!new)>(r: Register<T>, units: seq<T>, probe: (nat, T) -> bool) {
    && (forall i, x, y :: probe(i, r.plus(x, y)) == (probe(i, x) != probe(i, y)))
    && (forall i :: !probe(i, r.zero))
    && (forall i, j | 0 <= j < |units| :: probe(i, units[j]) == (i == j))
  }

  lemma {:induction false} LaidProbed<T(!new)>(
    r: Register<T>, units: seq<T>, probe: (nat, T) -> bool, bits: seq<bool>, i: nat)
    requires Probed(r, units, probe) && |bits| <= |units|
    ensures probe(i, Laid(r, units, bits)) == (i < |bits| && bits[i])
  {
    if |bits| > 0 {
      LaidProbed(r, units, probe, bits[..|bits| - 1], i);
    }
  }

  lemma {:induction false} ProbedIndependent<T(!new)>(r: Register<T>, units: seq<T>, probe: (nat, T) -> bool)
    requires Probed(r, units, probe)
    ensures Independent(r, units)
  {
    forall bits: seq<bool> | |bits| <= |units| && Laid(r, units, bits) == r.zero
      ensures true !in bits
    {
      forall i: nat | i < |bits|
        ensures !bits[i]
      {
        LaidProbed(r, units, probe, bits, i);
      }
    }
  }

  lemma {:induction false} StepsInjective<T(!new)>(r: Register<T>, x: T, y: T, n: nat)
    requires Injective(r) && Steps(r, x, n) == Steps(r, y, n)
    ensures x == y
  {
    if n > 0 {
      StepsInjective(r, x, y, n - 1);
    }
  }

  lemma {:induction false} ZeroStays<T(!new)>(r: Register<T>)
    requires Group(r) && Linear(r)
    ensures r.step(r.zero) == r.zero
  {
    var z := r.step(r.zero);
    assert GroupAt(r, r.zero, r.zero, r.zero) && GroupAt(r, z, z, z);
    assert r.plus(z, z) == z;
  }

  // Zero bits keep zero zero and nonzero nonzero.
  lemma {:induction false} RunOfZeros<T(!new)>(r: Register<T>, c: T, bits: seq<bool>)
    requires Group(r) && Linear(r) && Injective(r) && true !in bits
    ensures Run(r, c, bits) == r.zero <==> c == r.zero
  {
    ZeroStays(r);
    if |bits| > 0 {
      RunOfZeros(r, c, bits[..|bits| - 1]);
    }
  }

  // The ones of d lie in a window no longer than the register, and there is one.
  ghost predicate IsBurst(d: seq<bool>, from: nat, to: nat, width: nat) {
    && from <= to <= |d| && to - from <= width
    && true !in d[..from] && true in d[from..to] && true !in d[to..]
  }

  lemma {:induction false} BurstLeavesTrace<T(!new)>(r: Register<T>, units: seq<T>, d: seq<bool>, from: nat, to: nat)
    requires Group(r) && Linear(r) && Injective(r) && Chain(r, units) && Independent(r, units)
    requires IsBurst(d, from, to, |units|)
    ensures Run(r, r.zero, d) != r.zero
  {
    var window := d[from..to];
    assert d == d[..from] + window + d[to..];
    RunConcat(r, r.zero, d[..from] + window, d[to..]);
    RunConcat(r, r.zero, d[..from], window);
    RunOfZeros(r, r.zero, d[..from]);
    RunIsSteps(r, units, r.zero, window);
    var laid := Laid(r, units, window);
    assert GroupAt(r, laid, r.zero, r.zero);
    if Run(r, r.zero, window) == r.zero {
      ZeroSteps(r, |window|);
      StepsInjective(r, laid, r.zero, |window|);
    }
    RunOfZeros(r, Run(r, r.zero, window), d[to..]);
  }

  lemma {:induction false} ZeroSteps<T(!new)>(r: Register<T>, n: nat)
    requires Group(r) && Linear(r)
    ensures Steps(r, r.zero, n) == r.zero
  {
    ZeroStays(r);
    if n > 0 {
      ZeroSteps(r, n - 1);
    }
  }

  // ------------------------------------------------------------- parity

  // Whether the number of ones is odd.
  predicate Odd(bits: seq<bool>) {
    |bits| > 0 && Odd(bits[..|bits| - 1]) != bits[|bits| - 1]
  }

  // Looking at the place k below the top by shifting it there, and the parity of the first k
  // places.
  predicate Probe<T>(shift: T -> T, top: T -> bool, k: nat, x: T) {
    if k == 0 then top(x) else Probe(shift, top, k - 1, shift(x))
  }

  predicate ParityOf<T>(shift: T -> T, top: T -> bool, x: T, k: nat) {
    k > 0 && ParityOf(shift, top, x, k - 1) != Probe(shift, top, k - 1, x)
  }

  ghost predicate AddsAt<T>(plus: (T, T) -> T, shift: T -> T, top: T -> bool, x: T, y: T) {
    shift(plus(x, y)) == plus(shift(x), shift(y)) && top(plus(x, y)) == (top(x) != top(y))
  }

  ghost predicate Adds<T(!new)>(plus: (T, T) -> T, shift: T -> T, top: T -> bool) {
    forall x, y :: AddsAt(plus, shift, top, x, y)
  }

  lemma {:induction false} ProbeAdds<T(!new)>(plus: (T, T) -> T, shift: T -> T, top: T -> bool, k: nat, x: T, y: T)
    requires Adds(plus, shift, top)
    ensures Probe(shift, top, k, plus(x, y)) == (Probe(shift, top, k, x) != Probe(shift, top, k, y))
  {
    assert AddsAt(plus, shift, top, x, y);
    if k > 0 {
      ProbeAdds(plus, shift, top, k - 1, shift(x), shift(y));
    }
  }

  lemma {:induction false} ParityAdds<T(!new)>(plus: (T, T) -> T, shift: T -> T, top: T -> bool, x: T, y: T, k: nat)
    requires Adds(plus, shift, top)
    ensures ParityOf(shift, top, plus(x, y), k) == (ParityOf(shift, top, x, k) != ParityOf(shift, top, y, k))
  {
    if k > 0 {
      ParityAdds(plus, shift, top, x, y, k - 1);
      ProbeAdds(plus, shift, top, k - 1, x, y);
    }
  }

  lemma {:induction false} ParityShifts<T>(shift: T -> T, top: T -> bool, x: T, k: nat)
    ensures ParityOf(shift, top, shift(x), k) == (ParityOf(shift, top, x, k + 1) != top(x))
  {
    if k > 0 {
      ParityShifts(shift, top, x, k - 1);
    }
  }

  // A parity of registers that the sum adds and a clock keeps.
  ghost predicate ParityKept<T(!new)>(r: Register<T>, parity: T -> bool) {
    && (forall x, y :: parity(r.plus(x, y)) == (parity(x) != parity(y)))
    && (forall x :: parity(r.step(x)) == parity(x))
    && parity(r.top)
  }

  lemma {:induction false} RunParity<T(!new)>(r: Register<T>, parity: T -> bool, c: T, bits: seq<bool>)
    requires ParityKept(r, parity)
    ensures parity(Run(r, c, bits)) == (parity(c) != Odd(bits))
  {
    if |bits| > 0 {
      RunParity(r, parity, c, bits[..|bits| - 1]);
    }
  }
}
