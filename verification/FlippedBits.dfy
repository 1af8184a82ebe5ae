/** Few flipped bits and linear registers: what one or two ones in a difference leave of the empty
    register. */
module FlippedBits {
  import opened LinearRegister

  function Ones(bits: seq<bool>): nat {
    if |bits| == 0 then 0 else Ones(bits[..|bits| - 1]) + if bits[|bits| - 1] then 1 else 0
  }

  lemma {:induction false} OddIsOnes(bits: seq<bool>)
    ensures Odd(bits) <==> Ones(bits) % 2 == 1
  {
    if |bits| > 0 {
      OddIsOnes(bits[..|bits| - 1]);
    }
  }

  lemma {:induction false} OnesConcat(a: seq<bool>, b: seq<bool>)
    ensures Ones(a + b) == Ones(a) + Ones(b)
  {
    if |b| == 0 {
      assert a + b == a;
    } else {
      var n := |b| - 1;
      OnesConcat(a, b[..n]);
      assert (a + b)[..|a| + n] == a + b[..n];
    }
  }

  // ------------------------------------------------------------- where the ones are

  predicate OnlyAt(d: seq<bool>, i: nat) { i < |d| && forall k | 0 <= k < |d| :: d[k] <==> k == i }

  predicate BothAt(d: seq<bool>, i: nat, j: nat) {
    i < j < |d| && forall k | 0 <= k < |d| :: d[k] <==> k == i || k == j
  }

  lemma {:induction false} NoneIsNowhere(d: seq<bool>)
    requires Ones(d) == 0
    ensures forall k | 0 <= k < |d| :: !d[k]
  {
    if |d| > 0 {
      var n := |d| - 1;
      NoneIsNowhere(d[..n]);
      assert forall k | 0 <= k < n :: d[k] == d[..n][k];
    }
  }

  lemma {:induction false} OneIsSomewhere(d: seq<bool>)
    requires Ones(d) == 1
    ensures exists i: nat :: OnlyAt(d, i)
  {
    var n := |d| - 1;
    assert forall k | 0 <= k < n :: d[k] == d[..n][k];
    if d[n] {
      NoneIsNowhere(d[..n]);
      assert OnlyAt(d, n);
    } else {
      OneIsSomewhere(d[..n]);
      var i: nat :| OnlyAt(d[..n], i);
      assert OnlyAt(d, i);
    }
  }

  lemma {:induction false} TwoAreSomewhere(d: seq<bool>)
    requires Ones(d) == 2
    ensures exists i: nat, j: nat :: BothAt(d, i, j)
  {
    var n := |d| - 1;
    assert forall k | 0 <= k < n :: d[k] == d[..n][k];
    if d[n] {
      OneIsSomewhere(d[..n]);
      var i: nat :| OnlyAt(d[..n], i);
      assert BothAt(d, i, n);
    } else {
      TwoAreSomewhere(d[..n]);
      var i: nat, j: nat :| BothAt(d[..n], i, j);
      assert BothAt(d, i, j);
    }
  }

  // ------------------------------------------------------------- what they leave

  lemma {:induction false} ZerosLeaveZero<T(!new)>(r: Register<T>, d: seq<bool>)
    requires Group(r) && Linear(r) && forall k | 0 <= k < |d| :: !d[k]
    ensures Run(r, r.zero, d) == r.zero
  {
    if |d| > 0 {
      ZerosLeaveZero(r, d[..|d| - 1]);
      ZeroStays(r);
    }
  }

  lemma {:induction false} OnlyAtFront(d: seq<bool>, i: nat)
    requires OnlyAt(d, i)
    ensures if i == |d| - 1 then d[i] && (forall k | 0 <= k < i :: !d[..i][k])
            else !d[|d| - 1] && OnlyAt(d[..|d| - 1], i)
  {
    var front := d[..|d| - 1];
    assert forall k | 0 <= k < |front| :: front[k] == d[k];
  }

  lemma {:induction false} EnterTop<T(!new)>(r: Register<T>)
    requires Group(r)
    ensures Feed(r, r.zero, true) == Steps(r, r.top, 1)
  {
    assert GroupAt(r, r.zero, r.top, r.top) && GroupAt(r, r.top, r.zero, r.zero);
    assert Steps(r, r.top, 0) == r.top;
  }

  // A single one leaves the top, clocked once for itself and once for every bit behind it.
  lemma {:induction false} OneLeaves<T(!new)>(r: Register<T>, d: seq<bool>, i: nat)
    requires Group(r) && Linear(r) && OnlyAt(d, i)
    ensures Run(r, r.zero, d) == Steps(r, r.top, |d| - i)
  {
    var front := d[..|d| - 1];
    OnlyAtFront(d, i);
    if i == |d| - 1 {
      ZerosLeaveZero(r, front);
      EnterTop(r);
    } else {
      OneLeaves(r, front, i);
    }
  }

  function OneOf(n: nat, i: nat): (d: seq<bool>)
    requires i < n
    ensures |d| == n && OnlyAt(d, i)
  {
    seq(n, k => k == i)
  }

  lemma {:induction false} BothAsDifference(d: seq<bool>, i: nat, j: nat)
    requires BothAt(d, i, j)
    ensures Differences(OneOf(|d|, i), OneOf(|d|, j)) == d
  {
  }

  // Two ones cancel only if as many clocks as lie between them bring the top back to itself.
  lemma {:induction false} TwoLeave<T(!new)>(r: Register<T>, d: seq<bool>, i: nat, j: nat)
    requires Group(r) && Linear(r) && Injective(r) && BothAt(d, i, j)
    ensures Run(r, r.zero, d) == r.zero ==> Steps(r, r.top, j - i) == r.top
  {
    BothAsDifference(d, i, j);
    OneLeaves(r, OneOf(|d|, i), i);
    OneLeaves(r, OneOf(|d|, j), j);
    SumIsSyndrome(r, r.zero, OneOf(|d|, i), OneOf(|d|, j));
    if Run(r, r.zero, d) == r.zero {
      SumZero(r, Steps(r, r.top, |d| - i), Steps(r, r.top, |d| - j));
      ClockedApart(r, r.top, r.top, |d| - j, j - i);
    }
  }

  // Clocks after which two registers agree do not matter.
  lemma {:induction false} ClockedApart<T(!new)>(r: Register<T>, x: T, y: T, m: nat, n: nat)
    requires Injective(r) && Steps(r, x, n + m) == Steps(r, y, m)
    ensures Steps(r, x, n) == y
  {
    StepsConcat(r, x, n, m);
    StepsInjective(r, Steps(r, x, n), y, m);
  }

  // Clocks one after another.
  lemma {:induction false} Onward<T>(r: Register<T>, c: T, m: nat, x: T, n: nat, y: T)
    requires Steps(r, c, m) == x && Steps(r, x, n) == y
    ensures Steps(r, c, m + n) == y
  {
    StepsConcat(r, c, m, n);
  }

  // Values that lie the same number of clocks apart.
  lemma {:induction false} Strides<T(!new)>(r: Register<T>, f: nat -> T, k: nat, n: nat, a: nat)
    requires (forall b: nat | b < n :: Steps(r, f(b), k) == f(b + 1)) && a <= n
    ensures Steps(r, f(0), k * a) == f(a)
  {
    if a > 0 {
      Strides(r, f, k, n, a - 1);
      assert k * a == k * (a - 1) + k;
      Onward(r, f(0), k * (a - 1), f(a - 1), k, f(a));
    } else {
      assert k * a == 0;
    }
  }

  // A register that came back after n clocks would go on as it began.
  lemma {:induction false} NotBack<T>(r: Register<T>, c: T, n: nat, b: nat, early: T, late: T)
    requires Steps(r, c, b) == early && Steps(r, c, n + b) == late && early != late
    ensures Steps(r, c, n) != c
  {
    StepsConcat(r, c, n, b);
  }

  lemma {:induction false} SumZero<T(!new)>(r: Register<T>, x: T, y: T)
    requires Group(r) && r.plus(x, y) == r.zero
    ensures x == y
  {
    assert GroupAt(r, x, y, y) && GroupAt(r, y, y, y) && GroupAt(r, r.zero, y, y) && GroupAt(r, y, r.zero, y);
  }
}
