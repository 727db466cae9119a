/** Polynomials over GF(2), and the shift register that divides by one. */
module Gf2 {
  import opened Bits

  /**
   One shift of a register of |g| bits; g holds the generator's coefficients below its leading
   term.  Bit 0 of a register is its highest coefficient.
   */
  function Step(g: Bits, r: Bits): (s: Bits)
    requires |r| == |g| > 0
    ensures |s| == |g|
  {
    if r[0] then Add(r[1..] + [false], g) else r[1..] + [false]
  }

  function Steps(g: Bits, r: Bits, k: nat): (s: Bits)
    requires |r| == |g| > 0
    ensures |s| == |g|
    decreases k
  {
    if k == 0 then r else Steps(g, Step(g, r), k - 1)
  }

  /** r with a message bit added to its bit 0. */
  function Feed(r: Bits, bit: bool): (s: Bits)
    requires |r| > 0
    ensures |s| == |r|
  {
    [r[0] != bit] + r[1..]
  }

  /** The bit-serial register: feed a message bit, shift, repeat. */
  function Shift(g: Bits, r: Bits, message: Bits): (s: Bits)
    requires |r| == |g| > 0
    ensures |s| == |g|
    decreases |message|
  {
    if message == [] then r else Shift(g, Step(g, Feed(r, message[0])), message[1..])
  }

  lemma StepLinear(g: Bits, a: Bits, b: Bits)
    requires |a| == |b| == |g| > 0
    ensures Step(g, Add(a, b)) == Add(Step(g, a), Step(g, b))
  {
    var c := Add(a, b);
    assert c[1..] + [false] == Add(a[1..] + [false], b[1..] + [false]);
  }

  lemma {:induction false} StepsLinear(g: Bits, a: Bits, b: Bits, k: nat)
    requires |a| == |b| == |g| > 0
    ensures Steps(g, Add(a, b), k) == Add(Steps(g, a, k), Steps(g, b, k))
    decreases k
  {
    if k > 0 {
      StepLinear(g, a, b);
      StepsLinear(g, Step(g, a), Step(g, b), k - 1);
    }
  }

  /** Shifting loses nothing when the generator has a constant term. */
  lemma StepInjective(g: Bits, a: Bits, b: Bits)
    requires |a| == |b| == |g| > 0 && g[|g| - 1]
    requires Step(g, a) == Step(g, b)
    ensures a == b
  {
    var n := |g|;
    var x, y := a[1..] + [false], b[1..] + [false];
    assert !x[n - 1] && !y[n - 1];
    assert Step(g, a)[n - 1] == a[0] && Step(g, b)[n - 1] == b[0];
    forall i | 0 < i < n
      ensures a[i] == b[i]
    {
      assert Step(g, a)[i - 1] == Step(g, b)[i - 1];
      assert x[i - 1] == a[i] && y[i - 1] == b[i];
    }
  }

  lemma {:induction false} StepsInjective(g: Bits, a: Bits, b: Bits, k: nat)
    requires |a| == |b| == |g| > 0 && g[|g| - 1]
    requires Steps(g, a, k) == Steps(g, b, k)
    ensures a == b
    decreases k
  {
    if k > 0 {
      StepsInjective(g, Step(g, a), Step(g, b), k - 1);
      StepInjective(g, a, b);
    }
  }

  lemma FeedInjective(a: Bits, b: Bits, bit: bool)
    requires |a| == |b| > 0 && Feed(a, bit) == Feed(b, bit)
    ensures a == b
  {
    assert Feed(a, bit)[0] == Feed(b, bit)[0];
    assert a[1..] == Feed(a, bit)[1..] == Feed(b, bit)[1..] == b[1..];
    assert a == [a[0]] + a[1..] && b == [b[0]] + b[1..];
  }

  lemma {:induction false} ShiftInjective(g: Bits, a: Bits, b: Bits, message: Bits)
    requires |a| == |b| == |g| > 0 && g[|g| - 1]
    requires Shift(g, a, message) == Shift(g, b, message)
    ensures a == b
    decreases |message|
  {
    if message != [] {
      var x, y := Feed(a, message[0]), Feed(b, message[0]);
      ShiftInjective(g, Step(g, x), Step(g, y), message[1..]);
      StepInjective(g, x, y);
      FeedInjective(a, b, message[0]);
    }
  }

  lemma {:induction false} ShiftConcat(g: Bits, r: Bits, s: Bits, t: Bits)
    requires |r| == |g| > 0
    ensures Shift(g, r, s + t) == Shift(g, Shift(g, r, s), t)
    decreases |s|
  {
    if s == [] {
      assert s + t == t;
    } else {
      assert (s + t)[1..] == s[1..] + t;
      ShiftConcat(g, Step(g, Feed(r, s[0])), s[1..], t);
    }
  }

  /** Message bits above the lowest one only move down one place. */
  lemma SplitLowBit(g: Bits, r: Bits, u: Bits)
    requires |r| == |g| && 0 < |u| <= |g|
    ensures
      Step(g, Add(r, u + Zeros(|g| - |u|))) ==
      Add(Step(g, Feed(r, u[0])), u[1..] + Zeros(|g| - |u[1..]|))
  {
    var low, high := Feed(r, u[0]), [false] + u[1..] + Zeros(|g| - |u|);
    assert Add(r, u + Zeros(|g| - |u|)) == Add(low, high);
    StepLinear(g, low, high);
    assert Step(g, high) == high[1..] + [false] == u[1..] + Zeros(|g| - |u[1..]|);
  }

  /**
   Up to |g| message bits can be added to the register at once: feeding them one by one equals
   that many shifts of the register plus the word they form.
   */
  lemma {:induction false} ShiftWord(g: Bits, r: Bits, u: Bits)
    requires |r| == |g| > 0 && |u| <= |g|
    ensures Shift(g, r, u) == Steps(g, Add(r, u + Zeros(|g| - |u|)), |u|)
    decreases |u|
  {
    if u == [] {
      assert Add(r, u + Zeros(|g|)) == r;
    } else {
      SplitLowBit(g, r, u);
      ShiftWord(g, Step(g, Feed(r, u[0])), u[1..]);
    }
  }

  /** Two messages that differ only inside one window of at most |g| bits never share a register. */
  lemma BurstChangesRegister(g: Bits, r: Bits, prefix: Bits, u: Bits, v: Bits, suffix: Bits)
    requires |r| == |g| > 0 && g[|g| - 1] && |u| == |v| <= |g|
    ensures Shift(g, r, prefix + u + suffix) == Shift(g, r, prefix + v + suffix) <==> u == v
  {
    ShiftThree(g, r, prefix, u, suffix);
    ShiftThree(g, r, prefix, v, suffix);
    var s := Shift(g, r, prefix);
    if Shift(g, Shift(g, s, u), suffix) == Shift(g, Shift(g, s, v), suffix) {
      ShiftInjective(g, Shift(g, s, u), Shift(g, s, v), suffix);
      WordDetermined(g, s, u, v);
    }
  }

  lemma ShiftThree(g: Bits, r: Bits, s: Bits, t: Bits, u: Bits)
    requires |r| == |g| > 0
    ensures Shift(g, r, s + t + u) == Shift(g, Shift(g, Shift(g, r, s), t), u)
  {
    ShiftConcat(g, r, s + t, u);
    ShiftConcat(g, r, s, t);
  }

  lemma WordDetermined(g: Bits, s: Bits, u: Bits, v: Bits)
    requires |s| == |g| > 0 && g[|g| - 1] && |u| == |v| <= |g|
    requires Shift(g, s, u) == Shift(g, s, v)
    ensures u == v
  {
    ShiftWord(g, s, u);
    ShiftWord(g, s, v);
    var x, y := u + Zeros(|g| - |u|), v + Zeros(|g| - |v|);
    StepsInjective(g, Add(s, x), Add(s, y), |u|);
    AddCancel(s, x, y);
    assert u == x[..|u|] && v == y[..|v|];
  }

  lemma AddCancel(a: Bits, b: Bits, c: Bits)
    requires |a| == |b| == |c| && Add(a, b) == Add(a, c)
    ensures b == c
  {
    forall i | 0 <= i < |a| ensures b[i] == c[i] {
      assert Add(a, b)[i] == Add(a, c)[i];
    }
  }

  // ----- division -----

  /** a with h added to its leading coefficients. */
  function AddPrefix(a: Bits, h: Bits): (c: Bits)
    requires |h| <= |a|
    ensures |c| == |a|
  {
    Add(a, h + Zeros(|a| - |h|))
  }

  /** Product of the polynomial q, highest degree first, with the generator x^|g| + g. */
  function Times(g: Bits, q: Bits): (p: Bits)
    ensures |p| == |q| + |g|
  {
    if q == [] then Zeros(|g|)
    else if q[0] then AddPrefix([false] + Times(g, q[1..]), [true] + g)
    else [false] + Times(g, q[1..])
  }

  /** q * generator + r */
  function Recombine(g: Bits, q: Bits, r: Bits): (a: Bits)
    requires |r| == |g|
    ensures |a| == |q| + |g|
  {
    Add(Times(g, q), Zeros(|q|) + r)
  }

  /** a = q * generator + r for some polynomial q, with r of degree below the generator's. */
  ghost predicate IsRemainder(g: Bits, a: Bits, r: Bits) {
    |r| == |g| <= |a| &&
    exists q: Bits :: |q| == |a| - |g| && a == Recombine(g, q, r)
  }

  lemma AddSwap(a: Bits, b: Bits, c: Bits)
    requires |a| == |b| == |c|
    ensures Add(Add(a, b), c) == Add(Add(a, c), b)
  {}

  /** One more quotient bit in front is one more line of the long division. */
  lemma RecombineStep(g: Bits, q: Bits, r: Bits)
    requires q != [] && |r| == |g|
    ensures
      Recombine(g, q, r) ==
      if q[0] then AddPrefix([false] + Recombine(g, q[1..], r), [true] + g)
      else [false] + Recombine(g, q[1..], r)
  {
    var t := [false] + Times(g, q[1..]);
    var z := Zeros(|q|) + r;
    assert [false] + Recombine(g, q[1..], r) == Add(t, z);
    if q[0] {
      AddSwap(t, [true] + g + Zeros(|q| - 1), z);
    }
  }

  lemma {:induction false} RecombineInjective(g: Bits, q: Bits, r: Bits, p: Bits, s: Bits)
    requires |q| == |p| && |r| == |s| == |g|
    requires Recombine(g, q, r) == Recombine(g, p, s)
    ensures q == p && r == s
  {
    if q == [] {
      var x, y := Recombine(g, q, r), Recombine(g, p, s);
      forall i | 0 <= i < |g| ensures r[i] == s[i] {
        assert x[i] == y[i];
      }
    } else {
      RecombineStep(g, q, r);
      RecombineStep(g, p, s);
      var x, y := [false] + Recombine(g, q[1..], r), [false] + Recombine(g, p[1..], s);
      var h := [true] + g + Zeros(|q| - 1);
      SamePrefixSum(x, y, h, q[0], p[0]);
      assert x[1..] == y[1..];
      RecombineInjective(g, q[1..], r, p[1..], s);
      assert q == [q[0]] + q[1..] && p == [p[0]] + p[1..];
    }
  }

  lemma SamePrefixSum(x: Bits, y: Bits, h: Bits, i: bool, j: bool)
    requires |x| == |y| == |h| > 0 && !x[0] && !y[0] && h[0]
    requires (if i then Add(x, h) else x) == (if j then Add(y, h) else y)
    ensures i == j && x == y
  {
    var a, b := if i then Add(x, h) else x, if j then Add(y, h) else y;
    assert a[0] == i && b[0] == j;
    forall k | 0 <= k < |x| ensures x[k] == y[k] {
      assert a[k] == b[k];
    }
  }

  /** The message followed by |r| zero bits, with r added to its first |r| bits. */
  function Augmented(r: Bits, message: Bits): (a: Bits)
    ensures |a| == |message| + |r|
  {
    AddPrefix(message + Zeros(|r|), r)
  }

  /** One register step is one line of the long division of the augmented message. */
  lemma AugmentedStep(g: Bits, r: Bits, message: Bits)
    requires |r| == |g| > 0 && message != []
    ensures
      var rest := [false] + Augmented(Step(g, Feed(r, message[0])), message[1..]);
      Augmented(r, message) == if Feed(r, message[0])[0] then AddPrefix(rest, [true] + g) else rest
  {
    var f := Feed(r, message[0]);
    var n, m := |g|, |message|;
    assert f[1..] == r[1..];
    var s := r[1..] + [false];
    var plain := [false] + Augmented(s, message[1..]);
    assert Augmented(r, message) == [f[0]] + Augmented(s, message[1..]) by {
      AugmentedHead(r, message);
    }
    if f[0] {
      var z := message[1..] + Zeros(n);
      AddSwap(z, s + Zeros(m - 1), g + Zeros(m - 1));
      assert Add(s, g) + Zeros(m - 1) == Add(s + Zeros(m - 1), g + Zeros(m - 1));
      var next := Augmented(Add(s, g), message[1..]);
      AddAssoc(z, s + Zeros(m - 1), g + Zeros(m - 1));
      assert next == Add(Augmented(s, message[1..]), g + Zeros(m - 1));
      AddTwice(Augmented(s, message[1..]), g + Zeros(m - 1));
      assert [true] + g + Zeros(m - 1) == [true] + (g + Zeros(m - 1));
      assert AddPrefix([false] + next, [true] + g) == [true] + Add(next, g + Zeros(m - 1));
    }
  }

  lemma AddAssoc(a: Bits, b: Bits, c: Bits)
    requires |a| == |b| == |c|
    ensures Add(a, Add(b, c)) == Add(Add(a, b), c)
  {}

  lemma AddTwice(a: Bits, b: Bits)
    requires |a| == |b|
    ensures Add(Add(a, b), b) == a
  {}

  lemma AugmentedHead(r: Bits, message: Bits)
    requires r != [] && message != []
    ensures Augmented(r, message) == [r[0] != message[0]] + Augmented(r[1..] + [false], message[1..])
  {
    var s, m := r[1..] + [false], |message|;
    var x := message + Zeros(|r|);
    assert x == [message[0]] + (message[1..] + Zeros(|r|));
    assert r + Zeros(m) == [r[0]] + (s + Zeros(m - 1));
  }

  lemma NothingToDivide(g: Bits, r: Bits)
    requires |r| == |g| > 0
    ensures IsRemainder(g, Augmented(r, []), r)
  {
    var q: Bits := [];
    assert Augmented(r, []) == r == Recombine(g, q, r);
  }

  /** The register holds a remainder of the augmented message. */
  lemma {:induction false} ShiftIsRemainder(g: Bits, r: Bits, message: Bits)
    requires |r| == |g| > 0
    ensures IsRemainder(g, Augmented(r, message), Shift(g, r, message))
    decreases |message|
  {
    hide Step, Feed, Augmented, Recombine, AddPrefix, Add;
    if message == [] {
      NothingToDivide(g, r);
    } else {
      var f := Feed(r, message[0]);
      var r' := Step(g, f);
      ShiftIsRemainder(g, r', message[1..]);
      var a, s := Augmented(r', message[1..]), Shift(g, r', message[1..]);
      var q' :| |q'| == |a| - |g| && a == Recombine(g, q', s);
      AugmentedStep(g, r, message);
      var q := [f[0]] + q';
      assert q[1..] == q';
      RecombineStep(g, q, s);
    }
  }

  /** Division with remainder: the register is the only remainder there is. */
  lemma RegisterIsTheRemainder(g: Bits, r: Bits, message: Bits, s: Bits)
    requires |r| == |g| > 0
    ensures IsRemainder(g, Augmented(r, message), s) <==> s == Shift(g, r, message)
  {
    var a, t := Augmented(r, message), Shift(g, r, message);
    ShiftIsRemainder(g, r, message);
    if IsRemainder(g, a, s) {
      var q :| |q| == |a| - |g| && a == Recombine(g, q, s);
      var p :| |p| == |a| - |g| && a == Recombine(g, p, t);
      RecombineInjective(g, q, s, p, t);
    }
  }
}
