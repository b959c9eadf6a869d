/**
 Decoding one symbol from the range coder: the real decode, which adapts the
 cells it reads, and the dry run, which does not.
 */
module Decoding {
  import opened Bytes
  import opened RangeCoder
  import opened Symbols

  type Probs = seq<Prob>

  ghost function Left(q: Ctl, env: Env): nat
    requires Wf(q, env)
  {
    ModelledLeft(q) + DirectLeft(q)
  }

  /** The next bit, as the control point asks for it. */
  function ReadBit(q: Ctl, env: Env, rc: Rc, probs: Probs, buf: seq<Byte>): (r: (Bit, Rc))
    requires EnvOk(env, |probs|) && Wf(q, env) && !AskAt(q, env).Stop? && Sane(rc)
    ensures Sane(r.1) && rc.pos <= r.1.pos <= rc.pos + 1
  {
    AskInside(q, env, |probs|);
    match AskAt(q, env)
    case Cell(i) => GetModelled(rc, probs[i], buf)
    case Plain => GetDirect(rc, buf)
  }

  function Learn(q: Ctl, env: Env, probs: Probs, bit: Bit): (r: Probs)
    requires EnvOk(env, |probs|) && Wf(q, env)
    ensures |r| == |probs|
  {
    AskInside(q, env, |probs|);
    match AskAt(q, env)
    case Cell(i) => probs[i := Adapt(probs[i], bit)]
    case _ => probs
  }

  datatype Outcome = Outcome(end: Ctl, rc: Rc, probs: Probs)

  /** The real decode of the rest of a symbol. */
  function Real(q: Ctl, env: Env, rc: Rc, probs: Probs, buf: seq<Byte>): (r: Outcome)
    requires EnvOk(env, |probs|) && Wf(q, env) && Sane(rc)
    ensures Wf(r.end, env) && AskAt(r.end, env).Stop?
    ensures Sane(r.rc) && rc.pos <= r.rc.pos && |r.probs| == |probs|
    decreases Left(q, env)
  {
    if AskAt(q, env).Stop? then Outcome(q, rc, probs)
    else
      var (bit, rc') := ReadBit(q, env, rc, probs, buf);
      StepCost(q, env, bit);
      Real(Next(q, env, bit), env, rc', Learn(q, env, probs, bit), buf)
  }

  /** The dry run: same walk, but the cells keep their values. */
  function Dry(q: Ctl, env: Env, rc: Rc, probs: Probs, buf: seq<Byte>): (r: (Ctl, Rc))
    requires EnvOk(env, |probs|) && Wf(q, env) && Sane(rc)
    ensures Wf(r.0, env) && AskAt(r.0, env).Stop?
    ensures Sane(r.1) && rc.pos <= r.1.pos
    decreases Left(q, env)
  {
    if AskAt(q, env).Stop? then (q, rc)
    else
      var (bit, rc') := ReadBit(q, env, rc, probs, buf);
      StepCost(q, env, bit);
      Dry(Next(q, env, bit), env, rc', probs, buf)
  }

  // ------------------------------------------------------------ no cell twice

  /** Cells in the order a symbol can reach them. */
  ghost function Rank(index: nat): nat
  {
    if POS_SLOT <= index < LEN_CODER then index + LITERAL
    else if index < LITERAL then index
    else 2 * LITERAL + (index - LITERAL) % 256
  }

  ghost function RankAt(q: Ctl, env: Env): nat
    requires Wf(q, env)
  {
    match AskAt(q, env)
    case Cell(i) => Rank(i)
    case Plain => LITERAL + SPEC_POS
    case Stop => 3 * LITERAL
  }

  lemma LiteralRank(lit: nat, off: nat, sym: nat)
    requires LITERAL <= lit && (lit - LITERAL) % LIT_SIZE == 0
    requires off % 256 == 0 && sym < 256
    ensures Rank(lit + off + sym) == 2 * LITERAL + sym
  {
    var k, j := (lit - LITERAL) / LIT_SIZE, off / 256;
    DivModUnique(lit + off + sym - LITERAL, 256, 3 * k + j, sym);
  }

  lemma LiteralRankAt(q: Ctl, env: Env, numProbs: nat)
    requires EnvOk(env, numProbs) && Wf(q, env) && (q.AtLit? || q.AtMatched?)
    ensures RankAt(q, env) == 2 * LITERAL + q.sym
  {
    LiteralRank(env.lit, if q.AtLit? then 0 else q.offs + MatchBit(q.offs, q.mb), q.sym);
  }

  /** Where the other control points read, as a rank. */
  ghost function MatchRank(q: Ctl, env: Env): nat
    requires Wf(q, env)
  {
    match q
    case AtSlot(len, i) => LITERAL + POS_SLOT + (if len < 4 then len else 3) * 64 + i
    case AtSpec(_, slot, _, _, i, _) => LITERAL + SpecBase(slot) + i
    case AtAlign(_, _, _, i) => LITERAL + ALIGN + i
    case AtDirect(_, _, _) => LITERAL + SPEC_POS
    case Done(_) => 3 * LITERAL
    case Failed => 3 * LITERAL
    case _ => AskAt(q, env).index
  }

  lemma MatchRankAt(q: Ctl, env: Env)
    requires Wf(q, env) && env.state < 12 && env.posState < 16 && !q.AtLit? && !q.AtMatched?
    ensures RankAt(q, env) == MatchRank(q, env)
    ensures q.AtSpec? ==> LITERAL + SPEC_POS <= MatchRank(q, env) < LITERAL + ALIGN
  {
    if q.AtSpec? {
      SpecInside(q.slot);
    }
  }

  lemma HeadRankGrows(q: Ctl, env: Env, bit: Bit)
    requires Wf(q, env) && env.state < 12 && env.posState < 16 && !AskAt(q, env).Stop?
    requires !q.AtLit? && !q.AtMatched? && !InDistance(q)
    requires Wf(Next(q, env, bit), env)
    requires !Next(q, env, bit).AtLit? && !Next(q, env, bit).AtMatched?
    ensures MatchRank(q, env) < MatchRank(Next(q, env, bit), env)
  {
  }

  predicate InDistance(q: Ctl)
  {
    q.AtSlot? || q.AtSpec? || q.AtDirect? || q.AtAlign?
  }

  lemma DistanceRankGrows(q: Ctl, env: Env, bit: Bit)
    requires Wf(q, env) && InDistance(q) && Wf(Next(q, env, bit), env)
    requires q.AtSpec? ==> LITERAL + SPEC_POS <= MatchRank(q, env) < LITERAL + ALIGN
    requires Next(q, env, bit).AtSpec? ==> LITERAL + SPEC_POS <= MatchRank(Next(q, env, bit), env)
    ensures AskAt(q, env).Cell? ==> MatchRank(q, env) < MatchRank(Next(q, env, bit), env)
    ensures MatchRank(q, env) <= MatchRank(Next(q, env, bit), env)
  {
  }

  /** Ranks only grow along a symbol, so no cell is read twice. */
  lemma RankGrows(q: Ctl, env: Env, bit: Bit, numProbs: nat)
    requires EnvOk(env, numProbs) && Wf(q, env) && !AskAt(q, env).Stop?
    ensures Wf(Next(q, env, bit), env)
    ensures AskAt(q, env).Cell? ==> RankAt(q, env) < RankAt(Next(q, env, bit), env)
    ensures RankAt(q, env) <= RankAt(Next(q, env, bit), env)
  {
    NextWf(q, env, bit);
    var n := Next(q, env, bit);
    if n.AtLit? || n.AtMatched? {
      LiteralRankAt(n, env, numProbs);
    } else {
      MatchRankAt(n, env);
    }
    if q.AtLit? || q.AtMatched? {
      LiteralRankAt(q, env, numProbs);
    } else {
      MatchRankAt(q, env);
      if InDistance(q) {
        DistanceRankGrows(q, env, bit);
      } else if !n.AtLit? && !n.AtMatched? {
        HeadRankGrows(q, env, bit);
      }
    }
  }

  /** The cells that can still be read are the same in both arrays. */
  ghost predicate SameAhead(p: Probs, p': Probs, rank: nat)
  {
    |p| == |p'| && forall i :: 0 <= i < |p| && Rank(i) >= rank ==> p[i] == p'[i]
  }

  /** The dry run takes the same branches and the same bytes as the real decode. */
  lemma {:induction false} DryIsReal(q: Ctl, env: Env, rc: Rc, probs: Probs, dry: Probs, buf: seq<Byte>)
    requires EnvOk(env, |probs|) && Wf(q, env) && Sane(rc)
    requires SameAhead(probs, dry, RankAt(q, env))
    ensures var r := Real(q, env, rc, probs, buf);
            Dry(q, env, rc, dry, buf) == (r.end, r.rc)
    decreases Left(q, env)
  {
    if !AskAt(q, env).Stop? {
      AskInside(q, env, |probs|);
      var (bit, rc') := ReadBit(q, env, rc, probs, buf);
      StepCost(q, env, bit);
      RankGrows(q, env, bit, |probs|);
      DryIsReal(Next(q, env, bit), env, rc', Learn(q, env, probs, bit), dry, buf);
    }
  }
}
