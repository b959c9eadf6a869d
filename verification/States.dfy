/**
 The packet states.  The encoder and the decoder keep one number between packets
 and step it by tables of their own; it tells the kinds of the last packets.
 */
module States {
  const NUM_STATES := 12
  const NUM_LIT_STATES := 7

  datatype Kind = Lit | Match | Rep | ShortRep

  /** The encoder's tables. */
  const LITERAL_NEXT_STATES: seq<nat> := [0, 0, 0, 0, 1, 2, 3, 4, 5, 6, 4, 5]
  const MATCH_NEXT_STATES: seq<nat> := [7, 7, 7, 7, 7, 7, 7, 10, 10, 10, 10, 10]
  const REP_NEXT_STATES: seq<nat> := [8, 8, 8, 8, 8, 8, 8, 11, 11, 11, 11, 11]
  const SHORT_REP_NEXT_STATES: seq<nat> := [9, 9, 9, 9, 9, 9, 9, 11, 11, 11, 11, 11]

  /** The decoder's table: after a literal, and in the second half after a match. */
  const DECODER_NEXT_STATES: seq<nat> :=
    [0, 0, 0, 0, 1, 2, 3, 4, 5, 6, 4, 5,
     7, 7, 7, 7, 7, 7, 7, 10, 10, 10, 10, 10]

  function LiteralNext(state: nat): nat
  {
    if state < 4 then 0 else if state < 10 then state - 3 else state - 6
  }

  function MatchNext(state: nat): nat { if state < 7 then 7 else 10 }

  function RepNext(state: nat): nat { if state < 7 then 8 else 11 }

  function ShortRepNext(state: nat): nat { if state < 7 then 9 else 11 }

  function NextState(state: nat, kind: Kind): nat
  {
    match kind
    case Lit => LiteralNext(state)
    case Match => MatchNext(state)
    case Rep => RepNext(state)
    case ShortRep => ShortRepNext(state)
  }

  /** Both sides step alike. */
  lemma TablesAgree(state: nat)
    requires state < NUM_STATES
    ensures LITERAL_NEXT_STATES[state] == DECODER_NEXT_STATES[state] == LiteralNext(state) < NUM_STATES
    ensures MATCH_NEXT_STATES[state] == DECODER_NEXT_STATES[NUM_STATES + state] == MatchNext(state) < NUM_STATES
    ensures REP_NEXT_STATES[state] == RepNext(state) < NUM_STATES
    ensures SHORT_REP_NEXT_STATES[state] == ShortRepNext(state) < NUM_STATES
  {
  }

  // ------------------------------------------------------------ what a state tells

  /** The packet `back` places before the last one; before the first it is as if there were literals. */
  ghost function Recent(kinds: seq<Kind>, back: nat): Kind
  {
    if back < |kinds| then kinds[|kinds| - 1 - back] else Lit
  }

  /** The state that the last packets put the coder in. */
  ghost function StateOf(kinds: seq<Kind>): (state: nat)
    ensures state < NUM_STATES
  {
    var last, second, third, fourth := Recent(kinds, 0), Recent(kinds, 1), Recent(kinds, 2), Recent(kinds, 3);
    if last.Lit? && second.Lit? && third.Lit? then 0
    else if last.Lit? && second.Lit? then 1 + Before(third, fourth)
    else if last.Lit? then 4 + Before(second, third)
    else if second.Lit? then 7 + (if last.Match? then 0 else if last.Rep? then 1 else 2)
    else if last.Match? then 10
    else 11
  }

  /** How the packet before one or two literals counts: a short repeat does so only behind a literal. */
  ghost function Before(packet: Kind, earlier: Kind): nat
  {
    if packet.Match? then 0 else if packet.ShortRep? && earlier.Lit? then 2 else 1
  }

  lemma RecentNext(kinds: seq<Kind>, kind: Kind, back: nat)
    ensures Recent(kinds + [kind], back) == if back == 0 then kind else Recent(kinds, back - 1)
  {
  }

  /** The step of the tables is that to the state of one more packet, whatever came before. */
  lemma StateStep(kinds: seq<Kind>, kind: Kind)
    ensures StateOf(kinds + [kind]) == NextState(StateOf(kinds), kind)
  {
    hide Recent;
    RecentNext(kinds, kind, 0);
    RecentNext(kinds, kind, 1);
    RecentNext(kinds, kind, 2);
    RecentNext(kinds, kind, 3);
  }

  /** The number of literals at the end. */
  ghost function Literals(kinds: seq<Kind>): nat
  {
    if kinds == [] || !kinds[|kinds| - 1].Lit? then 0 else 1 + Literals(kinds[..|kinds| - 1])
  }

  /** Where the last packet is that is no literal, and how many literals follow. */
  lemma {:induction false} LiteralsAt(kinds: seq<Kind>)
    ensures Literals(kinds) <= |kinds|
    ensures forall back | 0 <= back < Literals(kinds) :: Recent(kinds, back).Lit?
    ensures Literals(kinds) < |kinds| ==> !Recent(kinds, Literals(kinds)).Lit?
  {
    if kinds != [] && kinds[|kinds| - 1].Lit? {
      var front := kinds[..|kinds| - 1];
      LiteralsAt(front);
      assert kinds == front + [Lit];
      forall back | 0 <= back < Literals(kinds)
        ensures Recent(kinds, back).Lit?
      {
        RecentNext(front, Lit, back);
      }
    }
  }

  /**
   A literal state means that the last packet was a literal or that there was
   none; state 0 that no other packet was among the last three; and the state of
   a coder with one or two literals behind another packet tells which kind that was.
   */
  lemma StateTells(kinds: seq<Kind>)
    ensures StateOf(kinds) < NUM_LIT_STATES <==> kinds == [] || kinds[|kinds| - 1].Lit?
    ensures StateOf(kinds) == 0 <==> Literals(kinds) == |kinds| || Literals(kinds) >= 3
    ensures Literals(kinds) < |kinds| && 1 <= Literals(kinds) <= 2 ==>
              var n := Literals(kinds);
              var packet := kinds[|kinds| - 1 - n];
              && StateOf(kinds) == (if n == 1 then 4 else 1) + Before(packet, Recent(kinds, n + 1))
              && (packet.Match? <==> StateOf(kinds) == if n == 1 then 4 else 1)
  {
    LiteralsAt(kinds);
    var n := Literals(kinds);
    assert n >= 3 ==> Recent(kinds, 0).Lit? && Recent(kinds, 1).Lit? && Recent(kinds, 2).Lit?;
    assert n >= 1 ==> Recent(kinds, 0).Lit?;
    assert n >= 2 ==> Recent(kinds, 1).Lit?;
    assert n < |kinds| ==> !Recent(kinds, n).Lit?;
  }
}
