/**
 Encoder and decoder in lockstep: when the encoder's decisions follow a path of
 the decoder's automaton, decoding the stream walks the same path, with equal
 probabilities after every bit.
 */
module Lockstep {
  import opened Bytes
  import opened Lists
  import opened RangeCoder
  import opened Layout
  import opened Symbols
  import opened Decoding

  /** One decision of the encoder. */
  datatype Event = Coded(cell: EncCell, bit: Bit) | Raw(bit: Bit)

  /** The encoder's arithmetic state and its probabilities. */
  datatype Enc = Enc(s: Interval, probs: EncProbs)

  const ENC_START := Enc(START, map[])

  function ChoiceOf(probs: EncProbs, ev: Event): Choice
  {
    match ev
    case Coded(c, bit) => Modelled(Get(probs, c), bit)
    case Raw(bit) => Direct(bit)
  }

  function ProbsAfter(probs: EncProbs, ev: Event): EncProbs
  {
    match ev
    case Coded(c, bit) => probs[c := Adapt(Get(probs, c), bit)]
    case Raw(_) => probs
  }

  function EncStep(e: Enc, ev: Event): (r: Enc)
    requires Normal(e.s)
    ensures Normal(r.s)
  {
    Enc(Step(e.s, ChoiceOf(e.probs, ev)), ProbsAfter(e.probs, ev))
  }

  function EncRun(e: Enc, evs: List<Event>): (r: Enc)
    requires Normal(e.s)
    ensures Normal(r.s)
    decreases evs
  {
    match evs
    case Nil => e
    case Cons(ev, rest) => EncRun(EncStep(e, ev), rest)
  }

  function Choices(probs: EncProbs, evs: List<Event>): List<Choice>
    decreases evs
  {
    match evs
    case Nil => Nil
    case Cons(ev, rest) => Cons(ChoiceOf(probs, ev), Choices(ProbsAfter(probs, ev), rest))
  }

  /** The bytes the encoder writes for `evs`. */
  function Stream(evs: List<Event>): seq<Byte>
  {
    Encoded(Choices(map[], evs))
  }

  lemma {:induction false} EncRunConcat(e: Enc, a: List<Event>, b: List<Event>)
    requires Normal(e.s)
    ensures EncRun(EncRun(e, a), b) == EncRun(e, Append(a, b))
    decreases a
  {
    match a
    case Nil =>
    case Cons(ev, rest) => EncRunConcat(EncStep(e, ev), rest, b);
  }

  lemma {:induction false} EncRunIsRun(e: Enc, evs: List<Event>)
    requires Normal(e.s)
    ensures EncRun(e, evs).s == Run(e.s, Choices(e.probs, evs))
    decreases evs
  {
    match evs
    case Nil =>
    case Cons(ev, rest) => EncRunIsRun(EncStep(e, ev), rest);
  }

  /**
   The decoder of `out` has read exactly what the encoder had coded when it was
   at `e`, with `todo` still to be coded.
   */
  ghost predicate Sync(rc: Rc, probs: Probs, e: Enc, todo: List<Event>, out: seq<Byte>)
  {
    && Sane(rc) && Normal(e.s)
    && Agree(e.probs, probs)
    && Finishes(e.s, Choices(e.probs, todo), out)
    && AtInterval(rc, e.s, out)
  }

  /** A cell of the tables of fixed size, or a literal cell. */
  predicate Proper(c: EncCell)
  {
    c.LitProb? || CellOk(c, 0)
  }

  /** The control point asks for the cell that the event codes with. */
  predicate Asks(q: Ctl, env: Env, ev: Event)
    requires Wf(q, env)
  {
    match AskAt(q, env)
    case Cell(i) => ev.Coded? && Proper(ev.cell) && Index(ev.cell) == i
    case Plain => ev.Raw?
    case Stop => false
  }

  /** The events lead the automaton from `q` to `r`. */
  predicate Follows(q: Ctl, env: Env, evs: List<Event>, r: Ctl)
    requires Wf(q, env)
    decreases evs
  {
    match evs
    case Nil => q == r
    case Cons(ev, rest) =>
      && Asks(q, env, ev)
      && (NextWf(q, env, ev.bit); Follows(Next(q, env, ev.bit), env, rest, r))
  }

  lemma {:induction false} FollowsConcat(q: Ctl, env: Env, a: List<Event>, m: Ctl, b: List<Event>, r: Ctl)
    requires Wf(q, env) && Wf(m, env) && Follows(q, env, a, m) && Follows(m, env, b, r)
    ensures Follows(q, env, Append(a, b), r)
    decreases a
  {
    match a
    case Nil =>
    case Cons(ev, rest) =>
      NextWf(q, env, ev.bit);
      FollowsConcat(Next(q, env, ev.bit), env, rest, m, b, r);
  }

  /** One step of the lockstep. */
  lemma BitSync(q: Ctl, env: Env, rc: Rc, probs: Probs, e: Enc, ev: Event, rest: List<Event>, out: seq<Byte>)
    requires EnvOk(env, |probs|) && Wf(q, env) && Asks(q, env, ev)
    requires Sync(rc, probs, e, Cons(ev, rest), out)
    ensures var (bit, rc') := ReadBit(q, env, rc, probs, out);
            bit == ev.bit && Sync(rc', Learn(q, env, probs, bit), EncStep(e, ev), rest, out)
  {
    AskInside(q, env, |probs|);
    var cs := Choices(ProbsAfter(e.probs, ev), rest);
    match ev {
      case Coded(c, bit) =>
        assert CellOk(c, |probs| - LITERAL);
        assert AgreeAt(e.probs, probs, c);
        ModelledMatches(rc, e.s, Get(e.probs, c), bit, cs, out);
        AgreeAdapted(e.probs, probs, c, Adapt(Get(e.probs, c), bit));
      case Raw(bit) =>
        DirectMatches(rc, e.s, bit, cs, out);
    }
  }

  /** A path of events decodes to the control point it leads to. */
  lemma {:induction false} PathSync(q: Ctl, env: Env, rc: Rc, probs: Probs, e: Enc, evs: List<Event>, rest: List<Event>,
                                    r: Ctl, out: seq<Byte>)
    requires EnvOk(env, |probs|) && Wf(q, env)
    requires Sync(rc, probs, e, Append(evs, rest), out)
    requires Follows(q, env, evs, r) && (r.Done? || r.Failed?)
    ensures var o := Real(q, env, rc, probs, out);
            o.end == r && Sync(o.rc, o.probs, EncRun(e, evs), rest, out)
    decreases evs
  {
    match evs
    case Nil =>
    case Cons(ev, more) =>
      BitSync(q, env, rc, probs, e, ev, Append(more, rest), out);
      var (bit, rc') := ReadBit(q, env, rc, probs, out);
      StepCost(q, env, bit);
      PathSync(Next(q, env, bit), env, rc', Learn(q, env, probs, bit), EncStep(e, ev), more, rest, r, out);
  }

  lemma FreshCell(probs: Probs, c: EncCell)
    requires |probs| >= LITERAL && CellOk(c, |probs| - LITERAL) && forall i | 0 <= i < |probs| :: probs[i] == PROB_INIT
    ensures AgreeAt(map[], probs, c)
  {
    hide Index, CellOk;
    IndexInverse(c, |probs| - LITERAL);
  }

  /** Fresh cells agree on both sides. */
  lemma FreshCells(probs: Probs)
    requires |probs| >= LITERAL && forall i | 0 <= i < |probs| :: probs[i] == PROB_INIT
    ensures Agree(map[], probs)
  {
    hide AgreeAt, CellOk;
    forall c | CellOk(c, |probs| - LITERAL)
      ensures AgreeAt(map[], probs, c)
    {
      FreshCell(probs, c);
    }
  }

  /** A fresh decoder is in lockstep with a fresh encoder. */
  lemma StartSync(evs: List<Event>, probs: Probs)
    requires |probs| >= LITERAL && forall i | 0 <= i < |probs| :: probs[i] == PROB_INIT
    ensures Sane(InitRc(Stream(evs))) && Sync(InitRc(Stream(evs)), probs, ENC_START, evs, Stream(evs))
  {
    hide Choices, AtInterval, Agree;
    StartsAt(Choices(map[], evs));
    FreshCells(probs);
  }

  /** When everything is read, the input is used up and the code register is zero. */
  lemma EndSync(rc: Rc, probs: Probs, e: Enc, out: seq<Byte>)
    requires Sync(rc, probs, e, Nil, out)
    ensures Refill(rc, out).code == 0 && Refill(rc, out).pos == |out|
  {
    EndsAtZero(rc, e.s, out);
  }
}
