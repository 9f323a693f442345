/** The linear congruential engine of PCG: stepping, jumping ahead and back, and measuring the
    distance between states. */
module Pcg {
  import opened Words

  // ----- the exact affine map of n steps

  /** What `n` steps add to the multiple of the state. */
  function Offset(a: nat, c: nat, n: nat): nat {
    if n == 0 then 0 else a * Offset(a, c, n - 1) + c
  }

  /** Taking `m` steps and then `n` more. */
  lemma {:induction false} OffsetAdd(a: nat, c: nat, m: nat, n: nat)
    ensures Offset(a, c, m + n) == Offset(a, c, m) * Power(a, n) + Offset(a, c, n)
    decreases n
  {
    if n > 0 {
      var x := Offset(a, c, m);
      OffsetAdd(a, c, m, n - 1);
      Distribute(a, x * Power(a, n - 1), Offset(a, c, n - 1));
      Associate(a, x, Power(a, n - 1));
    }
  }

  // ----- the machine's steps

  /** One step, in wrapping arithmetic. */
  function Bump(w: nat, a: nat, c: nat, state: nat): nat { Wrap(w, state * a + c) }

  function Steps(w: nat, a: nat, c: nat, state: nat, n: nat): nat {
    if n == 0 then state else Bump(w, a, c, Steps(w, a, c, state, n - 1))
  }

  lemma WrapProduct(w: nat, x: int, y: int)
    ensures Wrap(w, Wrap(w, x) * y) == Wrap(w, x * y)
    ensures Wrap(w, Wrap(w, x) * Wrap(w, y)) == Wrap(w, x * y)
  {
    WrapFactor(w, x, y);
    WrapFactor(w, y, Wrap(w, x));
    assert Wrap(w, x) * Wrap(w, y) == Wrap(w, y) * Wrap(w, x);
    assert y * Wrap(w, x) == Wrap(w, x) * y;
  }

  lemma WrapAffine(w: nat, x: int, y: int, z: int)
    ensures Wrap(w, Wrap(w, x) * Wrap(w, y) + Wrap(w, z)) == Wrap(w, x * y + z)
  {
    WrapProduct(w, x, y);
    WrapSum(w, Wrap(w, x) * Wrap(w, y), Wrap(w, z));
    WrapSum(w, x * y, Wrap(w, z));
    WrapSum(w, z, x * y);
  }

  /** The steps are the affine map, wrapped once at the end. */
  lemma {:induction false} StepsAffine(w: nat, a: nat, c: nat, state: nat, n: nat)
    requires state < Pow2(w)
    ensures Steps(w, a, c, state, n) == Wrap(w, state * Power(a, n) + Offset(a, c, n))
  {
    if n == 0 {
      WrapSmall(w, state);
    } else {
      StepsAffine(w, a, c, state, n - 1);
      var x := state * Power(a, n - 1) + Offset(a, c, n - 1);
      WrapFactor(w, x, a);
      WrapSum(w, Wrap(w, x) * a, c);
      WrapSum(w, x * a, c);
      Distribute(a, state * Power(a, n - 1), Offset(a, c, n - 1));
      Associate(a, state, Power(a, n - 1));
    }
  }

  lemma {:induction false} StepsAdd(w: nat, a: nat, c: nat, state: nat, m: nat, n: nat)
    ensures Steps(w, a, c, state, m + n) == Steps(w, a, c, Steps(w, a, c, state, m), n)
    decreases n
  {
    if n > 0 { StepsAdd(w, a, c, state, m, n - 1); }
  }

  // ----- jumping ahead

  /** `mult, plus` is the wrapped affine map of `n` steps. */
  ghost predicate IsJump(w: nat, a: nat, c: nat, n: nat, mult: nat, plus: nat) {
    mult == Wrap(w, Power(a, n)) && plus == Wrap(w, Offset(a, c, n))
  }

  lemma JumpsCompose(w: nat, a: nat, c: nat, m: nat, n: nat, mult: nat, plus: nat, mult': nat, plus': nat)
    requires IsJump(w, a, c, m, mult, plus) && IsJump(w, a, c, n, mult', plus')
    ensures IsJump(w, a, c, m + n, Wrap(w, mult * mult'), Wrap(w, plus * mult' + plus'))
  {
    PowerAdd(a, m, n);
    OffsetAdd(a, c, m, n);
    WrapProduct(w, Power(a, m), Power(a, n));
    WrapAffine(w, Offset(a, c, m), Power(a, n), Offset(a, c, n));
  }

  /** Squaring the map, as the loop does it. */
  lemma JumpDoubles(w: nat, a: nat, c: nat, n: nat, mult: nat, plus: nat)
    requires IsJump(w, a, c, n, mult, plus)
    ensures IsJump(w, a, c, n + n, Wrap(w, mult * mult), Wrap(w, Wrap(w, mult + 1) * plus))
  {
    JumpsCompose(w, a, c, n, n, mult, plus, mult, plus);
    WrapProduct(w, mult + 1, plus);
    Distribute(plus, mult, 1);
    WrapFactor(w, mult + 1, plus);
  }

  lemma JumpApplies(w: nat, a: nat, c: nat, n: nat, mult: nat, plus: nat, state: nat)
    requires IsJump(w, a, c, n, mult, plus) && state < Pow2(w)
    ensures Wrap(w, mult * state + plus) == Steps(w, a, c, state, n)
  {
    StepsAffine(w, a, c, state, n);
    WrapSmall(w, state);
    WrapAffine(w, Power(a, n), state, Offset(a, c, n));
  }

  lemma JumpsStart(w: nat, a: nat, c: nat)
    requires a < Pow2(w) && c < Pow2(w)
    ensures IsJump(w, a, c, 0, Wrap(w, 1), 0) && IsJump(w, a, c, 1, a, c)
  {
    assert Power(a, 1) == a * Power(a, 0) && Offset(a, c, 1) == a * Offset(a, c, 0) + c;
    WrapSmall(w, a);
    WrapSmall(w, c);
    WrapSmall(w, 0);
  }

  lemma HalveRest(rest: nat, stride: nat)
    ensures rest * stride == (rest / 2) * (stride + stride) + (if rest % 2 == 1 then stride else 0)
  {
  }

  lemma NothingLeft(rest: nat, stride: nat)
    requires rest == 0
    ensures rest * stride == 0
  {
  }

  /** Advances by `delta` steps in as many iterations as `delta` has bits. */
  method Advance(w: nat, state: nat, delta: nat, mult: nat, plus: nat) returns (state': nat)
    requires state < Pow2(w) && mult < Pow2(w) && plus < Pow2(w)
    ensures state' == Steps(w, mult, plus, state, delta)
  {
    var accMult: nat, accPlus: nat := Wrap(w, 1), 0;
    var curMult, curPlus := mult, plus;
    var rest: nat := delta;
    ghost var taken: nat, stride: nat := 0, 1;
    JumpsStart(w, mult, plus);
    while rest > 0
      invariant delta == rest * stride + taken
      invariant IsJump(w, mult, plus, taken, accMult, accPlus)
      invariant IsJump(w, mult, plus, stride, curMult, curPlus)
    {
      HalveRest(rest, stride);
      if rest % 2 == 1 {
        JumpsCompose(w, mult, plus, taken, stride, accMult, accPlus, curMult, curPlus);
        accMult, accPlus := Wrap(w, accMult * curMult), Wrap(w, accPlus * curMult + curPlus);
        taken := taken + stride;
      }
      JumpDoubles(w, mult, plus, stride, curMult, curPlus);
      curPlus := Wrap(w, Wrap(w, curMult + 1) * curPlus);
      curMult := Wrap(w, curMult * curMult);
      stride := stride + stride;
      rest := rest / 2;
    }
    NothingLeft(rest, stride);
    JumpApplies(w, mult, plus, taken, accMult, accPlus, state);
    state' := Wrap(w, accMult * state + accPlus);
  }

  // ----- the period

  lemma {:induction false} PowerOdd(a: nat, n: nat)
    requires a % 2 == 1
    ensures Power(a, n) % 2 == 1
  {
    if n > 0 {
      PowerOdd(a, n - 1);
      OddProduct(a, Power(a, n - 1) / 2);
    }
  }

  lemma DoubledJump(a: nat, c: nat, n: nat)
    ensures Power(a, n + n) == 1 + (Power(a, n) - 1) * (Power(a, n) + 1)
    ensures Offset(a, c, n + n) == Offset(a, c, n) * (Power(a, n) + 1)
  {
    PowerAdd(a, n, n);
    OffsetAdd(a, c, n, n);
  }

  /** `2^j` steps with an odd multiplier change nothing below bit `j`. */
  lemma {:induction false} PeriodOfLowBits(a: nat, c: nat, j: nat) returns (p: int, o: int)
    requires a % 2 == 1
    ensures Power(a, Pow2(j)) == 1 + p * Pow2(j) && Offset(a, c, Pow2(j)) == o * Pow2(j)
  {
    if j == 0 {
      assert Pow2(0) == 1;
      assert Power(a, 1) == a * Power(a, 0) && Offset(a, c, 1) == a * Offset(a, c, 0) + c;
      p, o := a - 1, c;
    } else {
      var t := Pow2(j - 1);
      var p', o' := PeriodOfLowBits(a, c, j - 1);
      p, o := PeriodDoubles(a, c, t, p', o');
    }
  }

  lemma PeriodDoubles(a: nat, c: nat, t: nat, p: int, o: int) returns (p': int, o': int)
    requires a % 2 == 1 && Power(a, t) == 1 + p * t && Offset(a, c, t) == o * t
    ensures Power(a, 2 * t) == 1 + p' * (2 * t) && Offset(a, c, 2 * t) == o' * (2 * t)
  {
    DoubledJump(a, c, t);
    var h := HalfOfSuccessor(a, t);
    p', o' := p * h, o * h;
    DoubledPeriod(Power(a, t), Offset(a, c, t), p, o, t, h);
  }

  lemma HalfOfSuccessor(a: nat, t: nat) returns (h: nat)
    requires a % 2 == 1
    ensures Power(a, t) + 1 == 2 * h
  {
    PowerOdd(a, t);
    h := (Power(a, t) + 1) / 2;
  }

  lemma DoubledPeriod(x: int, y: int, p: int, o: int, t: int, h: int)
    requires x == 1 + p * t && y == o * t && x + 1 == 2 * h
    ensures 1 + (x - 1) * (x + 1) == 1 + (p * h) * (2 * t)
    ensures y * (x + 1) == (o * h) * (2 * t)
  {
  }

  lemma RegroupDoubled(x: int, t: int, h: int)
    ensures (x * t) * (2 * h) == (x * h) * (2 * t)
  {
  }

  /** With an odd multiplier the engine returns to its state after `2^w` steps. */
  lemma PeriodDivides(w: nat, a: nat, c: nat, state: nat)
    requires a % 2 == 1 && state < Pow2(w)
    ensures Steps(w, a, c, state, Pow2(w)) == state
  {
    var m := Pow2(w);
    var p, o := PeriodOfLowBits(a, c, w);
    StepsAffine(w, a, c, state, m);
    Distribute(state, 1, p * m);
    Associate(state, p, m);
    Distribute(m, state * p, o);
    WrapShift(w, state, state * p + o);
    WrapSmall(w, state);
  }

  /** Going back by going the long way round: `-delta` as a word. */
  function Backward(w: nat, delta: nat): nat {
    var d: int := delta;
    Wrap(w, -d)
  }

  lemma BackwardIs(w: nat, delta: nat)
    requires delta < Pow2(w)
    ensures Backward(w, delta) == if delta == 0 then 0 else Pow2(w) - delta
  {
    if delta == 0 {
      WrapSmall(w, 0);
    } else {
      DivModUnique(0 - delta, Pow2(w), -1, Pow2(w) - delta);
    }
  }

  /** Steps that add up to a period. */
  lemma WayRound(w: nat, a: nat, c: nat, state: nat, m: nat, n: nat)
    requires a % 2 == 1 && state < Pow2(w) && m + n == Pow2(w)
    ensures Steps(w, a, c, Steps(w, a, c, state, m), n) == state
  {
    StepsAdd(w, a, c, state, m, n);
    PeriodDivides(w, a, c, state);
  }

  /** Advancing and stepping back as much undo each other. */
  lemma BackstepUndoes(w: nat, a: nat, c: nat, state: nat, delta: nat)
    requires a % 2 == 1 && state < Pow2(w) && delta < Pow2(w)
    ensures Steps(w, a, c, Steps(w, a, c, state, delta), Backward(w, delta)) == state
    ensures Steps(w, a, c, Steps(w, a, c, state, Backward(w, delta)), delta) == state
  {
    BackwardIs(w, delta);
    if delta > 0 {
      WayRound(w, a, c, state, delta, Backward(w, delta));
      WayRound(w, a, c, state, Backward(w, delta), delta);
    }
  }

  /** With an even multiplier two states step to the same one, so nothing can undo a step. */
  lemma EvenMultiplierCollides(w: nat, a: nat, c: nat)
    requires w > 0 && a % 2 == 0
    ensures 0 != Pow2(w - 1) < Pow2(w) && Bump(w, a, c, 0) == Bump(w, a, c, Pow2(w - 1))
  {
    var h := Pow2(w - 1);
    assert h * a == (a / 2) * (2 * h);
    WrapShift(w, c, a / 2);
  }

  // ----- distance

  /** The engine has full period: multiplier 1 modulo 4, odd increment. */
  predicate FullPeriod(a: nat, c: nat) { a % 4 == 1 && c % 2 == 1 }

  /** `2^j` steps then add an odd multiple of `2^j`, and multiply by 1 modulo `4 * 2^j`. */
  lemma {:induction false} StrideMap(a: nat, c: nat, j: nat) returns (p: int, o: int)
    requires FullPeriod(a, c)
    ensures Power(a, Pow2(j)) == 1 + 4 * (p * Pow2(j)) && Offset(a, c, Pow2(j)) == o * Pow2(j) && o % 2 == 1
  {
    if j == 0 {
      assert Pow2(0) == 1;
      assert Power(a, 1) == a * Power(a, 0) && Offset(a, c, 1) == a * Offset(a, c, 0) + c;
      p, o := a / 4, c;
    } else {
      var t := Pow2(j - 1);
      var p', o' := StrideMap(a, c, j - 1);
      DoubledJump(a, c, t);
      var h := 1 + 2 * (p' * t);
      p, o := p' * h, o' * h;
      RegroupDoubled(p', t, h);
      RegroupDoubled(o', t, h);
      Associate(4, p' * t, 2 * h);
      OddProduct(o', p' * t);
    }
  }

  lemma OddProduct(o: int, k: int)
    requires o % 2 == 1
    ensures (o * (1 + 2 * k)) % 2 == 1
  {
    assert o * (1 + 2 * k) == o + 2 * (o * k) by {
      Distribute(o, 1, 2 * k);
      Associate(o, 2, k);
    }
    ModShift(o, 2, o * k);
  }

  /** Wrapping keeps the low bits. */
  lemma LowBitsOfWrap(w: nat, k: nat, x: int)
    requires k <= w
    ensures Wrap(w, x) % Pow2(k) == x % Pow2(k)
  {
    Pow2Add(w - k, k);
    DivModForm(x, Pow2(w));
    var q := x / Pow2(w);
    Associate(q, Pow2(w - k), Pow2(k));
    ModShift(Wrap(w, x), Pow2(k), q * Pow2(w - k));
  }

  /** A stride of `2^i` steps adds `2^i` as far as the bits up to `i` can tell. */
  lemma StrideFlips(w: nat, a: nat, c: nat, state: nat, i: nat)
    requires FullPeriod(a, c) && i < w && state < Pow2(w)
    ensures Steps(w, a, c, state, Pow2(i)) % Pow2(i + 1) == (state + Pow2(i)) % Pow2(i + 1)
  {
    var t := Pow2(i);
    var p, o := StrideMap(a, c, i);
    StepsAffine(w, a, c, state, t);
    LowBitsOfWrap(w, i + 1, state * Power(a, t) + Offset(a, c, t));
    StrideSum(state, t, p, o);
    ModShift(state + t, 2 * t, 2 * (p * state) + o / 2);
  }

  lemma StrideSum(x: int, t: int, p: int, o: int)
    requires o % 2 == 1
    ensures x * (1 + 4 * (p * t)) + o * t == (x + t) + (2 * (p * x) + o / 2) * (2 * t)
  {
  }

  /** Two numbers agree in their low `i` bits. */
  ghost predicate Agree(x: nat, y: nat, i: nat) { x % Pow2(i) == y % Pow2(i) }

  lemma NextBit(x: nat, i: nat)
    ensures x % Pow2(i + 1) == x % Pow2(i) + if Bit(x, i) then Pow2(i) else 0
  {
    var p := Pow2(i);
    var q, r := x / p, x % p;
    DivModForm(x, p);
    Distribute(p, 2 * (q / 2), q % 2);
    var low := r + if Bit(x, i) then p else 0;
    assert x == (q / 2) * (2 * p) + low;
    DivModUnique(x, 2 * p, q / 2, low);
  }

  lemma AgreeNext(x: nat, y: nat, i: nat)
    requires Agree(x, y, i)
    ensures (Bit(x, i) <==> Bit(y, i)) <==> Agree(x, y, i + 1)
  {
    NextBit(x, i);
    NextBit(y, i);
  }

  /** Adding `2^i` flips bit `i` and leaves the bits below. */
  lemma FlipBit(x: nat, i: nat)
    ensures Agree(x + Pow2(i), x, i) && (Bit(x + Pow2(i), i) <==> !Bit(x, i))
  {
    var p := Pow2(i);
    ModShift(x, p, 1);
    DivModForm(x, p);
    Distribute(p, x / p, 1);
    DivModUnique(x + p, p, x / p + 1, x % p);
  }

  lemma AgreeDown(x: nat, y: nat, i: nat)
    requires Agree(x, y, i + 1)
    ensures Agree(x, y, i) && (Bit(x, i) <==> Bit(y, i))
  {
    NextBit(x, i);
    NextBit(y, i);
    DivModForm(x, Pow2(i));
    DivModForm(y, Pow2(i));
  }

  /** A stride taken where bit `i` differs makes the states agree in one more bit. */
  lemma StrideAgrees(w: nat, a: nat, c: nat, state: nat, target: nat, i: nat)
    requires FullPeriod(a, c) && i < w && state < Pow2(w) && Agree(state, target, i) && Bit(state, i) != Bit(target, i)
    ensures Agree(Steps(w, a, c, state, Pow2(i)), target, i + 1)
  {
    StrideFlips(w, a, c, state, i);
    var next := Steps(w, a, c, state, Pow2(i));
    AgreeDown(next, state + Pow2(i), i);
    FlipBit(state, i);
    AgreeNext(next, target, i);
  }

  lemma {:induction false} StepsRange(w: nat, a: nat, c: nat, state: nat, n: nat)
    requires state < Pow2(w)
    ensures Steps(w, a, c, state, n) < Pow2(w)
  {
  }

  /** The states of the loop: `cur` is `distance` steps on and agrees with the target in `i` bits. */
  ghost predicate Approaching(w: nat, a: nat, c: nat, start: nat, target: nat, i: nat, cur: nat, distance: nat,
                              mult: nat, plus: nat) {
    && cur < Pow2(w) && distance < Pow2(i)
    && cur == Steps(w, a, c, start, distance) && Agree(cur, target, i)
    && IsJump(w, a, c, Pow2(i), mult, plus)
  }

  /** Whether a stride is due, decided by the bit being looked at, and its effect. */
  lemma StrideTaken(w: nat, a: nat, c: nat, start: nat, target: nat, i: nat, cur: nat, distance: nat, mult: nat,
                    plus: nat)
    requires FullPeriod(a, c) && i < w && start < Pow2(w)
    requires Approaching(w, a, c, start, target, i, cur, distance, mult, plus)
    requires Bit(cur, i) != Bit(target, i)
    ensures var next := Wrap(w, cur * mult + plus);
            && Or(distance, Pow2(i)) == distance + Pow2(i) < Pow2(i + 1) && Agree(next, target, i + 1)
            && next == Steps(w, a, c, start, distance + Pow2(i))
  {
    JumpApplies(w, a, c, Pow2(i), mult, plus, cur);
    assert mult * cur == cur * mult;
    StepsAdd(w, a, c, start, distance, Pow2(i));
    StrideAgrees(w, a, c, cur, target, i);
    OrCommutes(distance, Pow2(i));
    OrDisjoint(1, distance, i);
  }

  /** The single bit moves up and, past the top, out of the word. */
  lemma BitMovesUp(w: nat, i: nat)
    requires i < w
    ensures Shl(w, Pow2(i), 1) == if i + 1 < w then Pow2(i + 1) else 0
  {
    assert Pow2(1) == 2;
    if i + 1 < w {
      Pow2Monotone(i + 1, w);
      WrapSmall(w, Pow2(i + 1));
    } else {
      WrapShift(w, 0, 1);
      WrapSmall(w, 0);
    }
  }

  /** One round of the loop: a stride if the bit differs, then the doubled stride. */
  method DistanceRound(w: nat, ghost a: nat, ghost c: nat, ghost start: nat, target: nat, ghost i: nat,
                       cur: nat, distance: nat, mult: nat, plus: nat, theBit: nat)
      returns (cur': nat, distance': nat, mult': nat, plus': nat)
    requires FullPeriod(a, c) && i < w && start < Pow2(w) && theBit == Pow2(i)
    requires Approaching(w, a, c, start, target, i, cur, distance, mult, plus)
    ensures Approaching(w, a, c, start, target, i + 1, cur', distance', mult', plus')
  {
    cur', distance' := cur, distance;
    AndBit(cur, i);
    AndBit(target, i);
    AgreeNext(cur, target, i);
    if And(cur, theBit) != And(target, theBit) {
      StrideTaken(w, a, c, start, target, i, cur, distance, mult, plus);
      cur' := Wrap(w, cur * mult + plus);
      distance' := Or(distance, theBit);
    }
    assert And(cur', theBit) == And(target, theBit) by {
      AndBit(cur', i);
      AgreeDown(cur', target, i);
    }
    JumpDoubles(w, a, c, Pow2(i), mult, plus);
    plus' := Wrap(w, Wrap(w, mult + 1) * plus);
    mult' := Wrap(w, mult * mult);
  }

  /** A mask sees only the bits it has. */
  lemma {:induction false} MaskSees(x: nat, mask: nat, k: nat)
    requires mask < Pow2(k)
    ensures And(x, mask) == And(x % Pow2(k), mask)
    decreases k
  {
    if k > 0 {
      HalvedResidue(x, Pow2(k - 1));
      MaskSees(x / 2, mask / 2, k - 1);
      AndUnfold(x, mask);
      AndUnfold(x % Pow2(k), mask);
    }
  }

  /** States that agree in as many bits as the mask has agree under it. */
  lemma AgreeUnderMask(x: nat, y: nat, mask: nat, k: nat)
    requires mask < Pow2(k) && Agree(x, y, k)
    ensures And(x, mask) == And(y, mask)
  {
    MaskSees(x, mask, k);
    MaskSees(y, mask, k);
  }

  /** The number of steps from one state to another, found bit by bit. `mask` selects the bits that have to
      match; with a full mask the result leads to the state itself. */
  method Distance(w: nat, curState: nat, newState: nat, mult: nat, plus: nat, mask: nat)
      returns (distance: nat, ghost rounds: nat)
    requires FullPeriod(mult, plus) && curState < Pow2(w) && mult < Pow2(w) && plus < Pow2(w) && mask < Pow2(w)
    ensures rounds <= BitLength(mask) <= w && distance < Pow2(rounds)
    ensures Agree(Steps(w, mult, plus, curState, distance), newState, rounds)
    ensures And(Steps(w, mult, plus, curState, distance), mask) == And(newState, mask)
  {
    var cur: nat, curMult: nat, curPlus: nat := curState, mult, plus;
    var theBit: nat := Shl(w, 1, 0);
    distance, rounds := 0, 0;
    DistanceStarts(w, mult, plus, curState, newState);
    BitLengthWithin(mask, w);
    assert mask < Pow2(BitLength(mask)) by { if mask > 0 { BitLengthBrackets(mask); } }
    while And(cur, mask) != And(newState, mask)
      invariant rounds <= BitLength(mask) && theBit == (if rounds < w then Pow2(rounds) else 0)
      invariant Approaching(w, mult, plus, curState, newState, rounds, cur, distance, curMult, curPlus)
      decreases BitLength(mask) - rounds
    {
      if rounds == BitLength(mask) { AgreeUnderMask(cur, newState, mask, rounds); }
      BitMovesUp(w, rounds);
      cur, distance, curMult, curPlus :=
        DistanceRound(w, mult, plus, curState, newState, rounds, cur, distance, curMult, curPlus, theBit);
      theBit := Shl(w, theBit, 1);
      rounds := rounds + 1;
    }
  }

  lemma DistanceStarts(w: nat, a: nat, c: nat, start: nat, target: nat)
    requires a < Pow2(w) && c < Pow2(w) && start < Pow2(w)
    ensures Shl(w, 1, 0) == if w > 0 then Pow2(0) else 0
    ensures Approaching(w, a, c, start, target, 0, start, 0, a, c)
  {
    assert Pow2(0) == 1;
    JumpsStart(w, a, c);
    if w > 0 {
      Pow2Monotone(0, w);
      WrapSmall(w, 1);
    }
  }

  // ----- every state is visited, once

  /** Some number of steps below `2^i` makes the low `i` bits those of any target. */
  lemma {:induction false} Reaches(w: nat, a: nat, c: nat, start: nat, target: nat, i: nat) returns (d: nat)
    requires FullPeriod(a, c) && start < Pow2(w) && i <= w
    ensures d < Pow2(i) && Agree(Steps(w, a, c, start, d), target, i)
  {
    if i == 0 {
      assert Pow2(0) == 1;
      d := 0;
    } else {
      d := Reaches(w, a, c, start, target, i - 1);
      var cur := Steps(w, a, c, start, d);
      StepsRange(w, a, c, start, d);
      AgreeNext(cur, target, i - 1);
      if Bit(cur, i - 1) != Bit(target, i - 1) {
        StrideAgrees(w, a, c, cur, target, i - 1);
        StepsAdd(w, a, c, start, d, Pow2(i - 1));
        d := d + Pow2(i - 1);
      }
    }
  }

  /** From any state every state is reached in fewer than `2^w` steps. */
  lemma VisitsEveryState(w: nat, a: nat, c: nat, start: nat, target: nat)
    requires FullPeriod(a, c) && start < Pow2(w) && target < Pow2(w)
    ensures exists d :: 0 <= d < Pow2(w) && Steps(w, a, c, start, d) == target
  {
    var d := Reaches(w, a, c, start, target, w);
    StepsRange(w, a, c, start, d);
    WrapSmall(w, target);
    WrapSmall(w, Steps(w, a, c, start, d));
  }

  /** `t` strides of `2^i` add `t * 2^i` as far as the bits up to `i` can tell. */
  lemma {:induction false} StridesAdd(w: nat, a: nat, c: nat, state: nat, i: nat, t: nat)
    requires FullPeriod(a, c) && i < w && state < Pow2(w)
    ensures Agree(Steps(w, a, c, state, t * Pow2(i)), state + t * Pow2(i), i + 1)
  {
    if t > 0 {
      StridesAdd(w, a, c, state, i, t - 1);
      Distribute(Pow2(i), t, -1);
      OneMoreStride(w, a, c, state, i, (t - 1) * Pow2(i));
    }
  }

  lemma OneMoreStride(w: nat, a: nat, c: nat, state: nat, i: nat, n: nat)
    requires FullPeriod(a, c) && i < w && state < Pow2(w)
    requires Agree(Steps(w, a, c, state, n), state + n, i + 1)
    ensures Agree(Steps(w, a, c, state, n + Pow2(i)), state + n + Pow2(i), i + 1)
  {
    var p := Pow2(i);
    var mid := Steps(w, a, c, state, n);
    StepsRange(w, a, c, state, n);
    StepsAdd(w, a, c, state, n, p);
    StrideFlips(w, a, c, mid, i);
    SumsAgree(mid, state + n, p, 2 * p);
  }

  lemma SumsAgree(x: int, y: int, d: int, m: int)
    requires m > 0 && x % m == y % m
    ensures (x + d) % m == (y + d) % m
  {
    DivModForm(x, m);
    DivModForm(y, m);
    ModShift(x % m + d, m, x / m);
    ModShift(y % m + d, m, y / m);
  }

  /** Reaching the same state after two numbers of steps makes their low bits agree. */
  lemma {:induction false} DistancesAgree(w: nat, a: nat, c: nat, start: nat, d: nat, e: nat, i: nat)
    requires FullPeriod(a, c) && start < Pow2(w) && i <= w && d <= e
    requires Steps(w, a, c, start, d) == Steps(w, a, c, start, e)
    ensures Agree(d, e, i)
  {
    if i == 0 {
      assert Pow2(0) == 1;
    } else {
      DistancesAgree(w, a, c, start, d, e, i - 1);
      var p := Pow2(i - 1);
      var t := MultipleBetween(d, e, p);
      var state := Steps(w, a, c, start, d);
      StepsRange(w, a, c, start, d);
      StepsAdd(w, a, c, start, d, t * p);
      StridesAdd(w, a, c, state, i - 1, t);
      EvenStrides(state, d, p, t);
    }
  }

  lemma MultipleBetween(d: nat, e: nat, p: nat) returns (t: nat)
    requires p > 0 && d <= e && d % p == e % p
    ensures e == d + t * p
  {
    DivModForm(d, p);
    DivModForm(e, p);
    Distribute(p, e / p, -(d / p));
    if e / p < d / p { MulMonotone(p, e / p + 1, d / p); Distribute(p, e / p, 1); }
    t := e / p - d / p;
  }

  lemma EvenStrides(x: int, d: int, p: int, t: int)
    requires p > 0 && x % (2 * p) == (x + t * p) % (2 * p)
    ensures d % (2 * p) == (d + t * p) % (2 * p)
  {
    SumsAgree(x, x + t * p, d - x, 2 * p);
  }

  /** No state is visited twice within `2^w` steps. */
  lemma VisitsOnce(w: nat, a: nat, c: nat, start: nat, d: nat, e: nat)
    requires FullPeriod(a, c) && start < Pow2(w) && d < Pow2(w) && e < Pow2(w)
    requires Steps(w, a, c, start, d) == Steps(w, a, c, start, e)
    ensures d == e
  {
    DistancesAgree(w, a, c, start, if d <= e then d else e, if d <= e then e else d, w);
    WrapSmall(w, d);
    WrapSmall(w, e);
  }

  // ----- the engine

  /** An engine with a stream of its own; the increment is always odd. */
  class Engine {
    const w: nat
    const multiplier: nat
    var inc: nat
    var state: nat

    ghost predicate Valid()
      reads this
    {
      w > 0 && multiplier < Pow2(w) && inc < Pow2(w) && inc % 2 == 1 && state < Pow2(w)
    }

    /** Seeding takes one step from the seed plus the increment. */
    constructor (w: nat, multiplier: nat, seed: nat, stream: nat)
      requires w > 0 && multiplier < Pow2(w) && seed < Pow2(w) && stream < Pow2(w)
      ensures Valid() && this.w == w && this.multiplier == multiplier && inc == 2 * (stream % Pow2(w - 1)) + 1
      ensures state == Seeded(w, multiplier, inc, seed)
    {
      StreamIncrementIs(w, stream);
      this.w, this.multiplier := w, multiplier;
      var increment := StreamIncrement(w, stream);
      inc := increment;
      state := Bump(w, multiplier, increment, Wrap(w, seed + increment));
      SeededIs(w, multiplier, increment, seed);
    }

    method SetStream(stream: nat)
      requires Valid() && stream < Pow2(w)
      modifies `inc
      ensures Valid() && inc == 2 * (stream % Pow2(w - 1)) + 1
    {
      StreamIncrementIs(w, stream);
      inc := StreamIncrement(w, stream);
    }

    /** The stream that was set, without the top bit that the shift lost. */
    method Stream() returns (stream: nat)
      requires Valid()
      ensures stream < Pow2(w - 1) && inc == 2 * stream + 1
    {
      assert Pow2(1) == 2;
      stream := Shr(inc, 1);
    }

    method Generate() returns (previous: nat)
      requires Valid()
      modifies `state
      ensures Valid() && previous == old(state) && state == Steps(w, multiplier, inc, old(state), 1)
    {
      previous := state;
      assert Steps(w, multiplier, inc, state, 0) == state;
      state := Bump(w, multiplier, inc, state);
    }

    method AdvanceBy(delta: nat)
      requires Valid() && delta < Pow2(w)
      modifies `state
      ensures Valid() && state == Steps(w, multiplier, inc, old(state), delta)
    {
      StepsRange(w, multiplier, inc, state, delta);
      state := Advance(w, state, delta, multiplier, inc);
    }

    method Backstep(delta: nat)
      requires Valid() && delta < Pow2(w)
      modifies `state
      ensures Valid() && state == Steps(w, multiplier, inc, old(state), Backward(w, delta))
      ensures multiplier % 2 == 1 ==> Steps(w, multiplier, inc, state, delta) == old(state)
    {
      if multiplier % 2 == 1 { BackstepUndoes(w, multiplier, inc, state, delta); }
      AdvanceBy(Backward(w, delta));
    }

    /** The steps from the present state to another. */
    method DistanceTo(newState: nat) returns (distance: nat)
      requires Valid() && newState < Pow2(w) && multiplier % 4 == 1
      ensures distance < Pow2(w) && Steps(w, multiplier, inc, state, distance) == newState
    {
      ghost var rounds;
      distance, rounds := Distance(w, state, newState, multiplier, inc, Pow2(w) - 1);
      Pow2Monotone(rounds, w);
      StepsRange(w, multiplier, inc, state, distance);
      AndMask(newState, w);
      AndMask(Steps(w, multiplier, inc, state, distance), w);
      WrapSmall(w, newState);
      WrapSmall(w, Steps(w, multiplier, inc, state, distance));
    }
  }

  /** The first state of an engine. */
  function Seeded(w: nat, a: nat, c: nat, seed: nat): nat { Steps(w, a, c, Wrap(w, seed + c), 1) }

  lemma SeededIs(w: nat, a: nat, c: nat, seed: nat)
    ensures Seeded(w, a, c, seed) == Bump(w, a, c, Wrap(w, seed + c))
  {
    assert Steps(w, a, c, Wrap(w, seed + c), 0) == Wrap(w, seed + c);
  }

  lemma WrapTranslates(w: nat, x: nat, y: nat, c: nat)
    requires x < Pow2(w) && y < Pow2(w) && Wrap(w, x + c) == Wrap(w, y + c)
    ensures x == y
  {
    SumsAgree(x + c, y + c, 0 - c, Pow2(w));
    WrapSmall(w, x);
    WrapSmall(w, y);
  }

  /** With an odd multiplier different seeds start an engine in different states, so every state is a seed's. */
  lemma SeedsDiffer(w: nat, a: nat, c: nat, seed: nat, other: nat)
    requires w > 0 && a % 2 == 1 && seed < Pow2(w) && other < Pow2(w)
    requires Seeded(w, a, c, seed) == Seeded(w, a, c, other)
    ensures seed == other
  {
    Pow2Monotone(0, w);
    BackstepUndoes(w, a, c, Wrap(w, seed + c), 1);
    BackstepUndoes(w, a, c, Wrap(w, other + c), 1);
    WrapTranslates(w, seed, other, c);
  }

  /** The increment that selects a stream. */
  function StreamIncrement(w: nat, stream: nat): nat { Or(Shl(w, stream, 1), 1) }

  /** It is odd, and the stream is what is left when it is halved, as far as it fits. */
  lemma StreamIncrementIs(w: nat, stream: nat)
    requires w > 0
    ensures StreamIncrement(w, stream) == 2 * (stream % Pow2(w - 1)) + 1 < Pow2(w)
  {
    assert Pow2(1) == 2 && Pow2(w) == 2 * Pow2(w - 1);
    DoubledResidue(stream, Pow2(w - 1));
    OrOne(2 * (stream % Pow2(w - 1)));
  }

  lemma DoubledResidue(x: nat, p: nat)
    requires p > 0
    ensures (x * 2) % (2 * p) == 2 * (x % p) < 2 * p - 1
  {
    HalvedResidue(2 * x, p);
  }

  /** Different streams have different increments. */
  lemma StreamsDiffer(w: nat, stream: nat, other: nat)
    requires w > 0 && stream < Pow2(w - 1) && other < Pow2(w - 1)
    requires StreamIncrement(w, stream) == StreamIncrement(w, other)
    ensures stream == other
  {
    StreamIncrementIs(w, stream);
    StreamIncrementIs(w, other);
    DivModUnique(stream, Pow2(w - 1), 0, stream);
    DivModUnique(other, Pow2(w - 1), 0, other);
  }

  lemma OrOne(x: nat)
    requires x % 2 == 0
    ensures Or(x, 1) == x + 1
  {
    assert Pow2(1) == 2;
    OrDisjoint(x / 2, 1, 1);
  }

  /** The default generators visit every state. */
  lemma DefaultsVisitEveryState(w: nat, a: nat, c: nat, start: nat, target: nat)
    requires || (w == 8 && a == 141 && c == 77)
             || (w == 16 && a == 12829 && c == 47989)
             || (w == 32 && a == 747796405 && c == 2891336453)
             || (w == 64 && a == 6364136223846793005 && c == 1442695040888963407)
    requires start < Pow2(w) && target < Pow2(w)
    ensures exists d :: 0 <= d < Pow2(w) && Steps(w, a, c, start, d) == target
  {
    VisitsEveryState(w, a, c, start, target);
  }
}
