/**
 The adaptive binary range coder as arithmetic on one unbounded number.

 The coder keeps an interval [low, low + range) scaled by 256^shifts.  Each
 decision keeps a part of it, and one byte shift restores range >= 2^24.  The
 encoded stream is the final `low` written in base 256.  RangeEncoder.dfy holds
 the encoder that emits bytes with a bounded `low` and deferred carries.
 */
module RangeCoder {
  import opened Bytes
  import opened Lists

  const TOP := 0x100_0000
  const WORD := 0x1_0000_0000
  const INIT_RANGE := 0xFFFF_FFFF

  type Bit = b: int | 0 <= b <= 1

  /** An 11-bit probability of a zero bit; adaptation never leaves [31, 2017]. */
  type Prob = p: int | 31 <= p <= 2017 witness 1024

  const PROB_INIT: Prob := 1024

  function Adapt(p: Prob, bit: Bit): Prob
  {
    if bit == 0 then p + (2048 - p) / 32 else p - p / 32
  }

  /**
   A bit moves the probability by a 32nd of what is left on its side; more likely
   stays more likely, and zeros and ones are treated alike.
   */
  lemma AdaptIs(p: Prob, q: Prob, bit: Bit)
    ensures var moved := if bit == 0 then Adapt(p, bit) - p else p - Adapt(p, bit);
            32 * moved <= (if bit == 0 then 2048 - p else p) < 32 * moved + 32
    ensures p <= q ==> Adapt(p, bit) <= Adapt(q, bit)
    ensures Adapt(2048 - p, 1 - bit) == 2048 - Adapt(p, bit)
  {
  }

  /** One decision put through the coder. */
  datatype Choice = Modelled(p: Prob, bit: Bit) | Direct(bit: Bit)

  datatype Interval = Interval(low: nat, range: nat, shifts: nat)

  const START := Interval(0, INIT_RANGE, 0)

  predicate Normal(s: Interval)
  {
    TOP <= s.range < WORD
  }

  function Bound(range: nat, p: Prob): nat
  {
    (range / 2048) * p
  }

  function Narrow(s: Interval, c: Choice): Interval
    requires Normal(s)
    ensures 0x1_0000 <= Narrow(s, c).range < s.range
    ensures s.low <= Narrow(s, c).low
    ensures Narrow(s, c).low + Narrow(s, c).range <= s.low + s.range
  {
    match c
    case Modelled(p, bit) =>
      BoundInside(s.range, p);
      if bit == 0 then s.(range := Bound(s.range, p))
      else s.(low := s.low + Bound(s.range, p), range := s.range - Bound(s.range, p))
    case Direct(bit) => s.(low := s.low + (if bit == 0 then 0 else s.range / 2), range := s.range / 2)
  }

  lemma BoundInside(range: nat, p: Prob)
    requires TOP <= range < WORD
    ensures 0x1_0000 <= Bound(range, p) <= range - 0x1_0000
  {
    var q := range / 2048;
    assert q * 31 <= q * p <= q * 2017;
  }

  /** A zero gets its share of the range, rounded down; at first that is one half. */
  lemma BoundShare(range: nat, p: Prob)
    ensures 2048 * Bound(range, p) <= range * p < 2048 * (Bound(range, p) + p)
    ensures 2 * Bound(range, PROB_INIT) <= range < 2 * Bound(range, PROB_INIT) + 2048
  {
    Shared(range / 2048, range % 2048, p);
  }

  lemma Shared(q: nat, r: nat, p: nat)
    requires r < 2048 && p > 0
    ensures 2048 * (q * p) <= (2048 * q + r) * p < 2048 * (q * p + p)
  {
    MulMono(r, 2047, p);
    assert (2048 * q + r) * p == 2048 * (q * p) + r * p;
  }

  function Normalise(s: Interval): Interval
  {
    if s.range < TOP then Interval(s.low * 256, s.range * 256, s.shifts + 1) else s
  }

  function Step(s: Interval, c: Choice): (t: Interval)
    requires Normal(s)
    ensures Normal(t)
  {
    Normalise(Narrow(s, c))
  }

  function Run(s: Interval, cs: List<Choice>): (t: Interval)
    requires Normal(s)
    ensures Normal(t) && t.shifts >= s.shifts
    decreases cs
  {
    match cs
    case Nil => s
    case Cons(c, rest) => Run(Step(s, c), rest)
  }

  /** The stream for `cs`: the low end of the last interval, in base 256. */
  function Encoded(cs: List<Choice>): (out: seq<Byte>)
    ensures |out| == Run(START, cs).shifts + 5
  {
    Digits(Run(START, cs).low, Run(START, cs).shifts + 5)
  }

  /** The final interval lies inside every earlier one, in the earlier one's scale. */
  ghost predicate Inside(t: Interval, s: Interval)
    requires t.shifts >= s.shifts
  {
    var w := Pow256(t.shifts - s.shifts);
    s.low * w <= t.low && t.low + t.range <= (s.low + s.range) * w
  }

  lemma InsideRenormalised(t: Interval, u: Interval)
    requires t.shifts >= Normalise(u).shifts && Inside(t, Normalise(u))
    ensures Inside(t, u)
  {
    if u.range < TOP {
      var w := Pow256(t.shifts - u.shifts);
      var w' := Pow256(t.shifts - u.shifts - 1);
      assert w == 256 * w';
      assert (u.low * 256) * w' == u.low * w;
      assert (u.low * 256 + u.range * 256) * w' == (u.low + u.range) * w;
    }
  }

  lemma InsideWider(t: Interval, u: Interval, s: Interval)
    requires t.shifts >= u.shifts == s.shifts && Inside(t, u)
    requires s.low <= u.low && u.low + u.range <= s.low + s.range
    ensures Inside(t, s)
  {
    var w := Pow256(t.shifts - s.shifts);
    MulMono(s.low, u.low, w);
    MulMono(u.low + u.range, s.low + s.range, w);
  }

  lemma {:induction false} Nested(s: Interval, cs: List<Choice>)
    requires Normal(s)
    ensures Inside(Run(s, cs), s)
    decreases cs
  {
    match cs
    case Nil =>
    case Cons(c, rest) =>
      var u := Narrow(s, c);
      Nested(Normalise(u), rest);
      InsideRenormalised(Run(s, cs), u);
      InsideWider(Run(s, cs), u, s);
  }

  lemma MulMono(a: nat, b: nat, w: nat)
    requires a <= b
    ensures a * w <= b * w
  {
  }

  /** The value fits: the stream starts with a zero byte and loses no digit. */
  lemma EncodedValue(cs: List<Choice>)
    ensures Value(Encoded(cs)) == Run(START, cs).low
    ensures Encoded(cs)[0] == 0
  {
    var t := Run(START, cs);
    Nested(START, cs);
    var w := Pow256(t.shifts);
    assert t.low < WORD * w;
    assert Pow256(4) == WORD by {
      assert Pow256(1) == 256 && Pow256(2) == 0x1_0000;
    }
    PowSum(4, t.shifts);
    PowSum(1, t.shifts + 4);
    ValueDigits(t.low, t.shifts + 5);
    var out := Encoded(cs);
    ValuePrefix(out, 1);
    if out[0] > 0 {
      assert Value(out[..1]) == Value(out[..1][..0]) * 256 + out[0];
      MulMono(1, Value(out[..1]), Pow256(t.shifts + 4));
      assert false;
    }
  }

  // ------------------------------------------------------------ decoding

  /** The decoder's registers and its place in the input. */
  datatype Rc = Rc(range: nat, code: nat, pos: nat)

  predicate Sane(d: Rc)
  {
    0x1_0000 <= d.range < WORD && d.code < WORD
  }

  function Refill(d: Rc, buf: seq<Byte>): Rc
  {
    if d.range < TOP
    then Rc(d.range * 256, (d.code * 256 + ByteAt(buf, d.pos)) % WORD, d.pos + 1)
    else d
  }

  function GetModelled(d: Rc, p: Prob, buf: seq<Byte>): (r: (Bit, Rc))
    requires Sane(d)
    ensures Sane(r.1) && d.pos <= r.1.pos <= d.pos + 1
  {
    var n := Refill(d, buf);
    BoundInside(n.range, p);
    var bound := Bound(n.range, p);
    if n.code < bound then (0, n.(range := bound))
    else (1, n.(range := n.range - bound, code := n.code - bound))
  }

  function Add32(a: nat, b: nat): nat
    requires a < WORD && b < WORD
    ensures Add32(a, b) < WORD
  {
    if a + b < WORD then a + b else a + b - WORD
  }

  function Sub32(a: nat, b: nat): nat
    requires a < WORD && b < WORD
    ensures Sub32(a, b) < WORD
  {
    if a >= b then a - b else a + WORD - b
  }

  /** A bit without a model, with the sign trick on 32-bit words that the decoder uses. */
  function GetDirect(d: Rc, buf: seq<Byte>): (r: (Bit, Rc))
    requires Sane(d)
    ensures Sane(r.1) && d.pos <= r.1.pos <= d.pos + 1
  {
    var n := Refill(d, buf);
    var range := n.range / 2;
    var code := Sub32(n.code, range);
    var t := Sub32(0, code / 0x8000_0000);
    (Add32(t, 1), Rc(range, if t == 0 then code else Add32(code, range), n.pos))
  }

  /** The decoder's start: byte 0 is skipped and the next four are the code. */
  function InitRc(buf: seq<Byte>): Rc
  {
    Rc(INIT_RANGE, Value([ByteAt(buf, 1), ByteAt(buf, 2), ByteAt(buf, 3), ByteAt(buf, 4)]), 5)
  }

  /**
   `d`, once refilled, is where the decoder of `out` stands when the encoder's
   interval is `s`: same range, and code is the distance of the stream from low.
   */
  predicate AtInterval(d: Rc, s: Interval, out: seq<Byte>)
    requires 5 + s.shifts <= |out|
  {
    var n := Refill(d, out);
    && n.range == s.range
    && n.pos == 5 + s.shifts
    && n.code == Value(out[..n.pos]) - s.low
  }

  /** `out` is the stream of an encoder that is at `s` and still has `cs` to code. */
  predicate Finishes(s: Interval, cs: List<Choice>, out: seq<Byte>)
    requires Normal(s)
  {
    && |out| == Run(s, cs).shifts + 5
    && Value(out) == Run(s, cs).low
  }

  /** The stream stays inside the interval that the next decision keeps. */
  lemma StreamInside(s: Interval, c: Choice, rest: List<Choice>, out: seq<Byte>)
    requires Normal(s) && Finishes(s, Cons(c, rest), out)
    ensures var u := Narrow(s, c);
            u.low <= Value(out[..5 + s.shifts]) < u.low + u.range
  {
    Nested(Step(s, c), rest);
    InsideRenormalised(Run(Step(s, c), rest), Narrow(s, c));
    PrefixInside(Run(Step(s, c), rest), Narrow(s, c), out);
  }

  /** A number inside a scaled interval has its leading digits inside the unscaled one. */
  lemma PrefixInside(t: Interval, u: Interval, out: seq<Byte>)
    requires t.shifts >= u.shifts && t.range > 0 && Inside(t, u)
    requires |out| == t.shifts + 5 && Value(out) == t.low
    ensures u.low <= Value(out[..5 + u.shifts]) < u.low + u.range
  {
    var n := 5 + u.shifts;
    var w := Pow256(t.shifts - u.shifts);
    ValuePrefix(out, n);
    Cancel(u.low, Value(out[..n]) + 1, w, t.low);
    Cancel(Value(out[..n]), u.low + u.range, w, t.low);
  }

  lemma Cancel(a: nat, b: nat, w: nat, x: nat)
    requires a * w <= x < b * w
    ensures a < b
  {
    if b <= a {
      MulMono(b, a, w);
      assert false;
    }
  }

  /** After the registers are narrowed the way `c` says, the decoder is at the next interval. */
  lemma AdvanceTo(d: Rc, s: Interval, c: Choice, rest: List<Choice>, out: seq<Byte>)
    requires Normal(s) && Finishes(s, Cons(c, rest), out)
    requires d.range == Narrow(s, c).range
    requires d.pos == 5 + s.shifts
    requires d.code == Value(out[..d.pos]) - Narrow(s, c).low
    ensures Finishes(Step(s, c), rest, out)
    ensures AtInterval(d, Step(s, c), out)
  {
    StreamInside(s, c, rest, out);
    RefillFollows(d, Narrow(s, c), out);
  }

  /** Refilling the decoder follows the encoder's normalisation. */
  lemma RefillFollows(d: Rc, u: Interval, out: seq<Byte>)
    requires 5 + Normalise(u).shifts <= |out|
    requires d.range == u.range && d.pos == 5 + u.shifts
    requires d.code == Value(out[..d.pos]) - u.low < u.range
    ensures AtInterval(d, Normalise(u), out)
  {
    if u.range < TOP {
      ValueSnoc(out, d.pos);
      assert d.code * 256 + out[d.pos] < WORD;
    }
  }

  /** A modelled bit decodes to the bit that was coded. */
  lemma ModelledMatches(d: Rc, s: Interval, p: Prob, bit: Bit, rest: List<Choice>, out: seq<Byte>)
    requires Sane(d) && Normal(s) && Finishes(s, Cons(Modelled(p, bit), rest), out)
    requires AtInterval(d, s, out)
    ensures GetModelled(d, p, out).0 == bit
    ensures Finishes(Step(s, Modelled(p, bit)), rest, out)
    ensures AtInterval(GetModelled(d, p, out).1, Step(s, Modelled(p, bit)), out)
  {
    StreamInside(s, Modelled(p, bit), rest, out);
    AdvanceTo(GetModelled(d, p, out).1, s, Modelled(p, bit), rest, out);
  }

  /** So does a direct bit, through the wrapping subtraction. */
  lemma DirectMatches(d: Rc, s: Interval, bit: Bit, rest: List<Choice>, out: seq<Byte>)
    requires Sane(d) && Normal(s) && Finishes(s, Cons(Direct(bit), rest), out)
    requires AtInterval(d, s, out)
    ensures GetDirect(d, out).0 == bit
    ensures Finishes(Step(s, Direct(bit)), rest, out)
    ensures AtInterval(GetDirect(d, out).1, Step(s, Direct(bit)), out)
  {
    StreamInside(s, Direct(bit), rest, out);
    AdvanceTo(GetDirect(d, out).1, s, Direct(bit), rest, out);
  }

  /** A fresh decoder on the stream of `cs` stands at the encoder's start. */
  lemma StartsAt(cs: List<Choice>)
    ensures Sane(InitRc(Encoded(cs)))
    ensures Finishes(START, cs, Encoded(cs))
    ensures AtInterval(InitRc(Encoded(cs)), START, Encoded(cs))
  {
    var out := Encoded(cs);
    EncodedValue(cs);
    var code := [out[1], out[2], out[3], out[4]];
    assert out[..5] == [0] + code;
    ValueConcat([0], code);
    ValueBound(code);
    assert Pow256(4) == WORD by {
      assert Pow256(1) == 256 && Pow256(2) == 0x1_0000;
    }
    assert Value([0]) == 0 by {
      var z: seq<Byte> := [0];
      assert z[..0] == [];
    }
    assert 0 <= |out| - 5;
    assert START.low == 0;
  }

  /** At the end the stream is spent and the code register is zero. */
  lemma EndsAtZero(d: Rc, s: Interval, out: seq<Byte>)
    requires Normal(s) && Finishes(s, Nil, out) && AtInterval(d, s, out)
    ensures Refill(d, out).code == 0 && Refill(d, out).pos == |out|
  {
    assert out[..|out|] == out;
  }
}
