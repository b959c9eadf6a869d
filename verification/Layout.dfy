/**
 The encoder keeps its probabilities in separate tables; the decoder keeps all
 of them in one array.  This module names the encoder's cells and shows that the
 decoder's layout gives each of them a place of its own.
 */
module Layout {
  import opened Bytes
  import opened RangeCoder
  import S = Symbols

  datatype EncCell =
    | IsMatch(state: nat, posState: nat)
    | IsRep(state: nat)
    | IsRepG0(state: nat)
    | IsRepG1(state: nat)
    | IsRepG2(state: nat)
    | IsRep0Long(state: nat, posState: nat)
    | PosSlotEncoder(lenState: nat, i: nat)
    | PosEncoder(i: nat)
    | PosAlignEncoder(i: nat)
    | LenChoice(rep: bool)
    | LenChoice2(rep: bool)
    | LenLow(rep: bool, i: nat)
    | LenMid(rep: bool, i: nat)
    | LenHigh(rep: bool, i: nat)
    | LitProb(i: nat)

  /** The cells that exist, with `lits` literal cells. */
  predicate CellOk(c: EncCell, lits: nat)
  {
    match c
    case IsMatch(state, posState) => state < 12 && posState < 16
    case IsRep(state) => state < 12
    case IsRepG0(state) => state < 12
    case IsRepG1(state) => state < 12
    case IsRepG2(state) => state < 12
    case IsRep0Long(state, posState) => state < 12 && posState < 16
    case PosSlotEncoder(lenState, i) => lenState < 4 && i < 64
    case PosEncoder(i) => i < 114
    case PosAlignEncoder(i) => i < 16
    case LenChoice(_) => true
    case LenChoice2(_) => true
    case LenLow(_, i) => i < 128
    case LenMid(_, i) => i < 128
    case LenHigh(_, i) => i < 256
    case LitProb(i) => i < lits
  }

  function LenBase(rep: bool): nat
  {
    if rep then S.REP_LEN_CODER else S.LEN_CODER
  }

  /** Where the decoder keeps the encoder's cell. */
  function Index(c: EncCell): nat
  {
    match c
    case IsMatch(state, posState) => S.IS_MATCH + state * 16 + posState
    case IsRep(state) => S.IS_REP + state
    case IsRepG0(state) => S.IS_REP_G0 + state
    case IsRepG1(state) => S.IS_REP_G1 + state
    case IsRepG2(state) => S.IS_REP_G2 + state
    case IsRep0Long(state, posState) => S.IS_REP0_LONG + state * 16 + posState
    case PosSlotEncoder(lenState, i) => S.POS_SLOT + lenState * 64 + i
    case PosEncoder(i) => S.SPEC_POS + i
    case PosAlignEncoder(i) => S.ALIGN + i
    case LenChoice(rep) => LenBase(rep)
    case LenChoice2(rep) => LenBase(rep) + S.LEN_CHOICE2
    case LenLow(rep, i) => LenBase(rep) + S.LEN_LOW + i
    case LenMid(rep, i) => LenBase(rep) + S.LEN_MID + i
    case LenHigh(rep, i) => LenBase(rep) + S.LEN_HIGH + i
    case LitProb(i) => S.LITERAL + i
  }

  /** Reads the layout backwards. */
  ghost function CellAt(k: nat): EncCell
  {
    if k < S.IS_REP then IsMatch(k / 16, k % 16)
    else if k < S.IS_REP_G0 then IsRep(k - S.IS_REP)
    else if k < S.IS_REP_G1 then IsRepG0(k - S.IS_REP_G0)
    else if k < S.IS_REP_G2 then IsRepG1(k - S.IS_REP_G1)
    else if k < S.IS_REP0_LONG then IsRepG2(k - S.IS_REP_G2)
    else if k < S.POS_SLOT then IsRep0Long((k - S.IS_REP0_LONG) / 16, (k - S.IS_REP0_LONG) % 16)
    else if k < S.SPEC_POS then PosSlotEncoder((k - S.POS_SLOT) / 64, (k - S.POS_SLOT) % 64)
    else if k < S.ALIGN then PosEncoder(k - S.SPEC_POS)
    else if k < S.LEN_CODER then PosAlignEncoder(k - S.ALIGN)
    else if k < S.REP_LEN_CODER then LenCellAt(false, k - S.LEN_CODER)
    else if k < S.LITERAL then LenCellAt(true, k - S.REP_LEN_CODER)
    else LitProb(k - S.LITERAL)
  }

  ghost function LenCellAt(rep: bool, k: nat): EncCell
  {
    if k == 0 then LenChoice(rep)
    else if k < S.LEN_LOW then LenChoice2(rep)
    else if k < S.LEN_MID then LenLow(rep, k - S.LEN_LOW)
    else if k < S.LEN_HIGH then LenMid(rep, k - S.LEN_MID)
    else LenHigh(rep, k - S.LEN_HIGH)
  }

  /** The layout is faithful: the cell can be recovered from its place. */
  lemma IndexInverse(c: EncCell, lits: nat)
    requires CellOk(c, lits)
    ensures CellAt(Index(c)) == c && Index(c) < S.LITERAL + lits
  {
    match c
    case IsMatch(state, posState) => DivModUnique(Index(c), 16, state, posState);
    case IsRep0Long(state, posState) => DivModUnique(Index(c) - S.IS_REP0_LONG, 16, state, posState);
    case PosSlotEncoder(lenState, i) => DivModUnique(Index(c) - S.POS_SLOT, 64, lenState, i);
    case _ =>
  }

  /** Encoder probabilities; a cell that was never used still has its initial value. */
  type EncProbs = map<EncCell, Prob>

  function Get(probs: EncProbs, c: EncCell): Prob
  {
    if c in probs then probs[c] else PROB_INIT
  }

  /** Both sides have learned the same. */
  ghost predicate Agree(enc: EncProbs, dec: seq<Prob>)
  {
    && |dec| >= S.LITERAL
    && forall c | CellOk(c, |dec| - S.LITERAL) :: AgreeAt(enc, dec, c)
  }

  ghost predicate AgreeAt(enc: EncProbs, dec: seq<Prob>, c: EncCell)
    requires |dec| >= S.LITERAL && CellOk(c, |dec| - S.LITERAL)
  {
    IndexInverse(c, |dec| - S.LITERAL);
    dec[Index(c)] == Get(enc, c)
  }

  /** Adapting one cell on both sides keeps all the others in agreement. */
  lemma AgreeAdapted(enc: EncProbs, dec: seq<Prob>, c: EncCell, p: Prob)
    requires Agree(enc, dec) && CellOk(c, |dec| - S.LITERAL)
    requires Index(c) < |dec|
    ensures Agree(enc[c := p], dec[Index(c) := p])
  {
    var dec', lits := dec[Index(c) := p], |dec| - S.LITERAL;
    forall d | CellOk(d, lits)
      ensures AgreeAt(enc[c := p], dec', d)
    {
      IndexInverse(c, |dec| - S.LITERAL);
      IndexInverse(d, |dec| - S.LITERAL);
      assert AgreeAt(enc, dec, d);
    }
  }
}
