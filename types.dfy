/** The data model of the simulator: directions, states, transitions and
    machine definitions, with the well-formedness conditions of the TM file
    grammar (turing.h). */
module Types {

  /** Head shift of one transition. */
  datatype Direction = Left | Right

  /** The signed unit each direction is encoded as: LEFT = -1, RIGHT = +1. */
  function DirValue(d: Direction): (v: int)
    ensures v == -1 || v == 1
    ensures v == -1 <==> d == Left
  {
    match d
    case Left => -1
    case Right => 1
  }

  /** The head return of an undo record: the direction whose encoding is the
      negation of d's. */
  function Opposite(d: Direction): (r: Direction)
    ensures DirValue(r) == -DirValue(d)
    ensures r != d
  {
    match d
    case Left => Right
    case Right => Left
  }

  /** A machine state; HALT is the terminal sentinel, not a row of the table. */
  type State = int

  const HALT: State := -1

  /** Whether s indexes a row of a table with numStates rows. */
  function IsStateIndex(s: State, numStates: nat): (b: bool)
    ensures b ==> s != HALT
  {
    0 <= s < numStates
  }

  /** Index of a symbol in the alphabet. */
  type SymbolId = nat

  /** The first alphabet symbol, index 0, fills the tape. */
  const BLANK: SymbolId := 0

  /** One transition: printed symbol, head shift, new state. */
  datatype Step = Step(sym: SymbolId, dir: Direction, ns: State)

  /** An undo record reuses Step as {erased symbol, head return, former state}. */
  type Backstep = Step

  /** SYM lies in [0;AS[ and NS in [0;NS[ (or is HALT). */
  predicate ValidStep(st: Step, numStates: nat, alphSize: nat)
  {
    st.sym < alphSize && (st.ns == HALT || IsStateIndex(st.ns, numStates))
  }

  /** NS rows of AS well-formed transitions each. */
  predicate WellFormedTable(tf: seq<seq<Step>>, numStates: nat, alphSize: nat)
  {
    |tf| == numStates &&
    forall i :: 0 <= i < |tf| ==>
      |tf[i]| == alphSize && forall j :: 0 <= j < |tf[i]| ==> ValidStep(tf[i][j], numStates, alphSize)
  }

  /** What a TM file defines: state count, alphabet size, alphabet and
      transition function. */
  datatype Definition = Definition(numStates: nat, alphSize: nat, alph: seq<char>, tf: seq<seq<Step>>)

  /** A definition that obeys the grammar's ranges; the blank symbol must be
      a symbol of the alphabet, so AS is positive. */
  predicate WellFormed(d: Definition)
  {
    |d.alph| == d.alphSize && BLANK < d.alphSize && WellFormedTable(d.tf, d.numStates, d.alphSize)
  }

  /** The transition for state s reading symbol a: tf[s][a]. */
  function Lookup(d: Definition, s: State, a: SymbolId): (st: Step)
    requires WellFormed(d) && IsStateIndex(s, d.numStates) && a < d.alphSize
    ensures ValidStep(st, d.numStates, d.alphSize)
    ensures st in d.tf[s]
  {
    d.tf[s][a]
  }
}
