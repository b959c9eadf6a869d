/**
 How many input bytes one symbol can take.  A modelled bit divides the range by
 less than 67 and a direct bit by less than 2.01, so 22 and 26 of them leave room
 for 20 byte shifts at most.
 */
module ByteBound {
  import opened Bytes
  import opened RangeCoder
  import opened Symbols
  import opened Decoding

  const REQUIRED_INPUT_MAX := 20

  function Power(b: nat, n: nat): nat
  {
    if n == 0 then 1 else b * Power(b, n - 1)
  }

  /** 100^26, the denominator that keeps the cost of direct bits whole. */
  const H := 10000000000000000000000000000000000000000000000000000

  /** The most that `m` modelled and `d` direct bits can divide the range by, times 100^26. */
  function Cost(m: nat, d: nat): nat
    requires d <= 26
    decreases m + d
  {
    if m > 0 then 67 * Cost(m - 1, d)
    else Power(201, d) * Power(100, 26 - d)
  }

  lemma DirectStep(d: nat)
    requires d < 26
    ensures Cost(0, d + 1) * 100 == Cost(0, d) * 201
  {
    var a, b := Power(201, d), Power(100, 25 - d);
    assert Power(201, d + 1) == 201 * a && Power(100, 26 - d) == 100 * b;
    assert (201 * a) * b * 100 == a * (100 * b) * 201;
  }

  lemma {:induction false} CostStep(m: nat, d: nat)
    requires d < 26
    ensures Cost(m, d + 1) * 100 == Cost(m, d) * 201
  {
    if m == 0 {
      DirectStep(d);
    } else {
      CostStep(m - 1, d);
    }
  }

  lemma {:induction false} CostMono(m: nat, d: nat, m': nat, d': nat)
    requires m <= m' && d <= d' <= 26
    ensures Cost(m, d) <= Cost(m', d')
    decreases m' + d'
  {
    if d < d' {
      CostMono(m, d, m', d' - 1);
      CostStep(m', d' - 1);
    } else if m < m' {
      CostMono(m, d, m' - 1, d');
    }
  }

  /** All 26 direct bits together cost more than a modelled one. */
  lemma {:induction false} DirectWorthOne(m: nat)
    ensures 67 * Cost(m, 0) <= Cost(m, 26)
  {
    if m == 0 {
      Literals();
    } else {
      DirectWorthOne(m - 1);
    }
  }

  lemma {:induction false} PowerSum(b: nat, m: nat, n: nat)
    ensures Power(b, m + n) == Power(b, m) * Power(b, n)
  {
    if m > 0 {
      PowerSum(b, m - 1, n);
      Assoc(b, Power(b, m - 1), Power(b, n));
    }
  }

  lemma Literals()
    ensures Power(100, 0) == 1 && Power(100, 26) == H
    ensures Power(201, 0) == 1 && Power(201, 26) == 764007273092176420933524184336236482241458595793540813005201
    ensures Cost(0, 0) == H
  {
    assert Power(100, 1) == 100 && Power(201, 1) == 201;
    PowerSum(100, 1, 1);
    PowerSum(100, 2, 1);
    PowerSum(100, 3, 3);
    PowerSum(100, 6, 6);
    PowerSum(100, 12, 1);
    PowerSum(100, 13, 13);
    PowerSum(201, 1, 1);
    PowerSum(201, 2, 1);
    PowerSum(201, 3, 3);
    PowerSum(201, 6, 6);
    PowerSum(201, 12, 1);
    PowerSum(201, 13, 13);
  }

  lemma ModelledNarrow(range: nat, p: Prob)
    requires TOP <= range < WORD
    ensures range <= 67 * Bound(range, p) && range <= 67 * (range - Bound(range, p))
  {
    var k := range / 2048;
    assert k * 31 <= k * p <= k * 2017;
  }

  lemma NarrowBy(q: Ctl, env: Env, rc: Rc, probs: Probs, buf: seq<Byte>)
    requires EnvOk(env, |probs|) && Wf(q, env) && !AskAt(q, env).Stop? && Sane(rc)
    ensures ReadBit(q, env, rc, probs, buf).1.pos == Refill(rc, buf).pos
    ensures q.AtDirect? ==> Refill(rc, buf).range * 100 <= 201 * ReadBit(q, env, rc, probs, buf).1.range
    ensures !q.AtDirect? ==> Refill(rc, buf).range <= 67 * ReadBit(q, env, rc, probs, buf).1.range
  {
    AskInside(q, env, |probs|);
    if AskAt(q, env).Cell? {
      ModelledNarrow(Refill(rc, buf).range, probs[AskAt(q, env).index]);
    }
  }

  /** The bits still to come, as a divisor of the range. */
  ghost function CostOf(q: Ctl, env: Env): nat
    requires Wf(q, env)
  {
    DirectLeftSmall(q, env);
    Cost(ModelledLeft(q), DirectLeft(q))
  }

  lemma DirectLeftSmall(q: Ctl, env: Env)
    requires Wf(q, env)
    ensures DirectLeft(q) <= 26
  {
  }

  lemma CostPaid(q: Ctl, env: Env, bit: Bit)
    requires Wf(q, env) && !AskAt(q, env).Stop?
    ensures Wf(Next(q, env, bit), env)
    ensures q.AtDirect? ==> 201 * CostOf(Next(q, env, bit), env) <= 100 * CostOf(q, env)
    ensures !q.AtDirect? ==> 67 * CostOf(Next(q, env, bit), env) <= CostOf(q, env)
  {
    NextWf(q, env, bit);
    var n := Next(q, env, bit);
    var m, d := ModelledLeft(q), DirectLeft(q);
    DirectLeftSmall(q, env);
    DirectLeftSmall(n, env);
    if q.AtDirect? {
      PlainCost(q, env, bit);
      CostMono(ModelledLeft(n), DirectLeft(n), m, d - 1);
      CostStep(m, d - 1);
    } else {
      CellCost(q, env, bit);
      if ModelledLeft(n) + 1 <= m && DirectLeft(n) <= d {
        CostMono(ModelledLeft(n), DirectLeft(n), m - 1, d);
      } else {
        CostMono(ModelledLeft(n), DirectLeft(n), m, 0);
        DirectWorthOne(m);
      }
    }
  }

  /** What the rest of a symbol does to the range. */
  lemma {:induction false} RangeLost(q: Ctl, env: Env, rc: Rc, probs: Probs, buf: seq<Byte>)
    requires EnvOk(env, |probs|) && Wf(q, env) && Sane(rc)
    ensures var n, f := Refill(rc, buf), Refill(Real(q, env, rc, probs, buf).rc, buf);
            n.pos <= f.pos && n.range * (Pow256(f.pos - n.pos) * H) <= f.range * CostOf(q, env)
    decreases Left(q, env)
  {
    hide Cost, Pow256, CostOf, AskAt, Next, Wf;
    var n, f := Refill(rc, buf), Refill(Real(q, env, rc, probs, buf).rc, buf);
    if AskAt(q, env).Stop? {
      NothingLost(q, env, n.range);
    } else {
      var (bit, rc') := ReadBit(q, env, rc, probs, buf);
      StepCost(q, env, bit);
      CostPaid(q, env, bit);
      NarrowBy(q, env, rc, probs, buf);
      RangeLost(Next(q, env, bit), env, rc', Learn(q, env, probs, bit), buf);
      RefillScale(rc', buf, f.pos);
      Chain(n.range, rc'.range, Pow256(f.pos - n.pos) * H, f.range,
            CostOf(Next(q, env, bit), env), CostOf(q, env), q.AtDirect?);
    }
  }

  lemma NothingLost(q: Ctl, env: Env, r: nat)
    requires Wf(q, env)
    ensures r * (Pow256(0) * H) <= r * CostOf(q, env)
  {
    DirectLeftSmall(q, env);
    CostMono(0, 0, ModelledLeft(q), DirectLeft(q));
    Literals();
    TimesMono(H, CostOf(q, env), r);
  }

  lemma RefillScale(rc: Rc, buf: seq<Byte>, end: nat)
    requires Refill(rc, buf).pos <= end
    ensures var n := Refill(rc, buf);
            n.range * (Pow256(end - n.pos) * H) == rc.range * (Pow256(end - rc.pos) * H)
  {
    if rc.range < TOP {
      var w := Pow256(end - rc.pos - 1);
      assert Pow256(end - rc.pos) == 256 * w;
      Regroup(rc.range, w, H);
    }
  }

  lemma Regroup(r: nat, w: nat, h: nat)
    ensures (r * 256) * (w * h) == r * ((256 * w) * h)
  {
  }

  lemma TimesMono(a: nat, b: nat, w: nat)
    requires a <= b
    ensures w * a <= w * b
  {
  }

  lemma Chain(r: nat, r': nat, x: nat, f: nat, c': nat, c: nat, direct: bool)
    requires r' * x <= f * c'
    requires if direct then r * 100 <= 201 * r' && 201 * c' <= 100 * c else r <= 67 * r' && 67 * c' <= c
    ensures r * x <= f * c
  {
    if direct {
      TimesMono(r * 100, 201 * r', x);
      TimesMono(201 * c', 100 * c, f);
    } else {
      TimesMono(r, 67 * r', x);
      TimesMono(67 * c', c, f);
    }
  }

  /**
   One symbol takes at most 20 bytes counted from the normalised start to the
   normalised end, whatever the input and the cells are.
   */
  lemma SymbolBytes(env: Env, rc: Rc, probs: Probs, buf: seq<Byte>)
    requires EnvOk(env, |probs|) && Sane(rc)
    ensures Refill(Real(AtIsMatch, env, rc, probs, buf).rc, buf).pos
            <= Refill(rc, buf).pos + REQUIRED_INPUT_MAX
  {
    hide Cost, Pow256, Real;
    var n, f := Refill(rc, buf), Refill(Real(AtIsMatch, env, rc, probs, buf).rc, buf);
    RangeLost(AtIsMatch, env, rc, probs, buf);
    if f.pos > n.pos + 20 {
      PowMono(21, f.pos - n.pos);
      TooFar(n.range, f.range, Pow256(f.pos - n.pos), Cost(22, 26));
    }
  }

  lemma {:induction false} PowMono(m: nat, n: nat)
    requires m <= n
    ensures Pow256(m) <= Pow256(n)
    decreases n
  {
    if m < n {
      PowMono(m, n - 1);
    }
  }

  /** 21 shifts would need more range than there is. */
  lemma TooFar(r: nat, f: nat, w: nat, c: nat)
    requires TOP <= r && f < WORD && w >= Pow256(21) && c == Cost(22, 26)
    ensures r * (w * H) > f * c
  {
    assert Pow256(21) == 374144419156711147060143317175368453031918731001856 by {
      assert Pow256(1) == 256;
      PowSum(1, 1);
      PowSum(2, 1);
      PowSum(3, 3);
      PowSum(6, 1);
      PowSum(7, 7);
      PowSum(14, 7);
    }
    assert c == 11395756277391717945172160738833587680058067081557212986387568753052749699619698217584745378847051689
    by { CostLiteral(); }
    TimesMono(Pow256(21) * H, w * H, r);
    assert r * (Pow256(21) * H) >= TOP * (Pow256(21) * H);
    assert f * c < WORD * c;
  }

  lemma CostLiteral()
    ensures Cost(22, 26)
            == 11395756277391717945172160738833587680058067081557212986387568753052749699619698217584745378847051689
  {
    assert Power(67, 22) == 14915769363385151583217201855136979828889 by {
      assert Power(67, 1) == 67;
      PowerSum(67, 1, 1);
      PowerSum(67, 2, 1);
      PowerSum(67, 3, 2);
      PowerSum(67, 5, 1);
      PowerSum(67, 6, 5);
      PowerSum(67, 11, 11);
    }
    assert Cost(0, 26) == 764007273092176420933524184336236482241458595793540813005201 by { Literals(); }
    CostPower(22);
  }

  lemma {:induction false} CostPower(m: nat)
    ensures Cost(m, 26) == Power(67, m) * Cost(0, 26)
  {
    if m > 0 {
      CostPower(m - 1);
      Assoc(67, Power(67, m - 1), Cost(0, 26));
    }
  }

  lemma Assoc(a: nat, b: nat, c: nat)
    ensures a * (b * c) == (a * b) * c
  {
  }
}
