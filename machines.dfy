/** The machine: forward steps driven by the transition table, undo records
    kept in a doubling history, and backward steps that replay them
    (turing.c, new_machine, do_step and do_bstep). */
module Machines {
  import opened Types
  import opened Tapes

  /** The value of a running machine: tape buffer, head offset and state. */
  datatype Config = Config(cells: seq<SymbolId>, head: int, state: State)

  /** Invariant of a configuration of a machine defined by d: an even,
      nonempty buffer holding alphabet symbols, the head inside it, and a
      state that is a row of the table or HALT. */
  predicate ConfigOk(d: Definition, c: Config)
  {
    |c.cells| % 2 == 0 && 0 < |c.cells| && 0 <= c.head < |c.cells| &&
    (c.state == HALT || IsStateIndex(c.state, d.numStates)) &&
    forall i :: 0 <= i < |c.cells| ==> c.cells[i] < d.alphSize
  }

  /** Everything a forward step needs to be defined. */
  predicate Steppable(d: Definition, blank: SymbolId, c: Config)
  {
    WellFormed(d) && blank < d.alphSize && ConfigOk(d, c)
  }

  /** The transition that fires in c: tf[s][contents[head]]. */
  function NextStep(d: Definition, c: Config): Step
    requires WellFormed(d) && ConfigOk(d, c) && c.state != HALT
  {
    Lookup(d, c.state, c.cells[c.head])
  }

  /** Whether the step taken in c moves the head out of the buffer. */
  predicate LeavesBuffer(d: Definition, c: Config)
    requires WellFormed(d) && ConfigOk(d, c)
  {
    c.state != HALT && !(0 <= c.head + DirValue(NextStep(d, c).dir) < |c.cells|)
  }

  /** The configuration after expand: doubled buffer, head moved by Shift. */
  function Grow(c: Config, blank: SymbolId): (r: Config)
    ensures |r.cells| == 2 * |c.cells| && r.state == c.state
  {
    Config(Expanded(c.cells, blank), c.head + Shift(|c.cells|), c.state)
  }

  /** c grown e times. */
  function GrowTimes(c: Config, blank: SymbolId, e: nat): Config
    decreases e
  {
    if e == 0 then c else GrowTimes(Grow(c, blank), blank, e - 1)
  }

  /** The undo record a forward step in c logs:
      {erased symbol, opposite of the move, former state}. */
  function BackRecord(d: Definition, c: Config): (rec: Backstep)
    requires WellFormed(d) && ConfigOk(d, c) && c.state != HALT
    ensures rec.sym < d.alphSize && IsStateIndex(rec.ns, d.numStates)
    ensures DirValue(rec.dir) == -DirValue(NextStep(d, c).dir)
  {
    Step(c.cells[c.head], Opposite(NextStep(d, c).dir), c.state)
  }

  /** One forward step: nothing in HALT; otherwise write, move, change state
      and expand the tape if the head left the buffer. */
  function Forward(d: Definition, blank: SymbolId, c: Config): (r: Config)
    requires Steppable(d, blank, c)
    ensures ConfigOk(d, r)
  {
    if c.state == HALT then c
    else
      var next := NextStep(d, c);
      var written := Config(c.cells[c.head := next.sym], c.head + DirValue(next.dir), next.ns);
      if 0 <= written.head < |written.cells| then written
      else
        Grow(written, blank)
  }

  /** Whether replaying rec from c keeps the head inside the buffer. */
  predicate Returns(c: Config, rec: Backstep)
  {
    0 <= c.head + DirValue(rec.dir) < |c.cells|
  }

  /** One backward step: restore the former state, move the head back and
      put the erased symbol there. */
  function Backward(c: Config, rec: Backstep): (r: Config)
    requires Returns(c, rec)
    ensures |r.cells| == |c.cells| && 0 <= r.head < |r.cells|
  {
    var h := c.head + DirValue(rec.dir);
    Config(c.cells[h := rec.sym], h, rec.ns)
  }

  /** A history recs can be undone from c, record after record, each one
      a well-formed record that brings the head back inside the buffer. */
  ghost predicate Replayable(d: Definition, c: Config, recs: seq<Backstep>)
    decreases |recs|
  {
    recs == [] ||
    var rec := recs[|recs| - 1];
    rec.sym < d.alphSize && IsStateIndex(rec.ns, d.numStates) &&
    Returns(c, rec) && Replayable(d, Backward(c, rec), recs[..|recs| - 1])
  }

  /** The configuration reached by undoing every record of recs, last first. */
  ghost function Undo(d: Definition, c: Config, recs: seq<Backstep>): Config
    requires Replayable(d, c, recs)
    decreases |recs|
  {
    if recs == [] then c
    else Undo(d, Backward(c, recs[|recs| - 1]), recs[..|recs| - 1])
  }

  /** k forward steps from c with a history attached: the final
      configuration and the records logged. */
  function Run(d: Definition, blank: SymbolId, c: Config, k: nat): (r: (Config, seq<Backstep>))
    requires Steppable(d, blank, c)
    ensures ConfigOk(d, r.0) && |r.1| <= k
  {
    if k == 0 then (c, [])
    else
      var (prev, recs) := Run(d, blank, c, k - 1);
      if prev.state == HALT then (prev, recs)
      else (Forward(d, blank, prev), recs + [BackRecord(d, prev)])
  }

  // ---------------------------------------------------------------------
  // Properties of the forward and backward steps

  /** Where the head goes: it always ends inside the buffer; a left move
      from offset 0 or a right move from the last offset expands the tape,
      leaving the head just before or just after the copied region; any
      other move changes the head by the move alone. */
  lemma ForwardHead(d: Definition, blank: SymbolId, c: Config)
    requires Steppable(d, blank, c) && c.state != HALT
    ensures var r, dir, k := Forward(d, blank, c), NextStep(d, c).dir, Shift(|c.cells|);
      0 <= r.head < |r.cells| &&
      (c.head == 0 && dir == Left ==> LeavesBuffer(d, c) && |r.cells| == 2 * |c.cells| && r.head == k - 1) &&
      (c.head == |c.cells| - 1 && dir == Right ==> LeavesBuffer(d, c) && |r.cells| == 2 * |c.cells| && r.head == 3 * k) &&
      (!LeavesBuffer(d, c) ==> |r.cells| == |c.cells| && r.head == c.head + DirValue(dir))
  {
  }

  /** What a forward step does to the line the tape stands for: the state
      becomes the transition's new state, the cell under the old head holds
      the printed symbol, the head moved by one, every other cell is as
      before; positions are offset by Shift when the tape grew. */
  lemma {:induction false} ForwardEffect(d: Definition, blank: SymbolId, c: Config, i: int)
    requires Steppable(d, blank, c) && c.state != HALT
    ensures var r, next := Forward(d, blank, c), NextStep(d, c);
      var off := if LeavesBuffer(d, c) then Shift(|c.cells|) else 0;
      r.state == next.ns &&
      r.head == c.head + DirValue(next.dir) + off &&
      Read(r.cells, blank, i + off) == (if i == c.head then next.sym else Read(c.cells, blank, i))
  {
    var next := NextStep(d, c);
    var w := c.cells[c.head := next.sym];
    if LeavesBuffer(d, c) {
      ExpandKeepsCell(w, blank, i);
    }
  }

  /** Once in HALT, any number of forward steps change nothing and log nothing. */
  lemma {:induction false} HaltIsFixed(d: Definition, blank: SymbolId, c: Config, k: nat)
    requires Steppable(d, blank, c) && c.state == HALT
    ensures Run(d, blank, c, k) == (c, [])
  {
    if k > 0 {
      HaltIsFixed(d, blank, c, k - 1);
    }
  }

  /** Expanding commutes with a backward step on an even buffer. */
  lemma {:induction false} GrowThenBackward(c: Config, blank: SymbolId, rec: Backstep)
    requires |c.cells| % 2 == 0 && Returns(c, rec)
    ensures Returns(Grow(c, blank), rec)
    ensures Backward(Grow(c, blank), rec) == Grow(Backward(c, rec), blank)
  {
    var g := Grow(c, blank);
    var k := Shift(|c.cells|);
    var h := c.head + DirValue(rec.dir);
    var lhs := Expanded(c.cells, blank)[h + k := rec.sym];
    var rhs := Expanded(c.cells[h := rec.sym], blank);
    assert |lhs| == |rhs|;
    forall j | 0 <= j < |lhs|
      ensures lhs[j] == rhs[j]
    {
    }
    assert lhs == rhs;
  }

  /** Undoing a history commutes with expanding on an even buffer. */
  lemma {:induction false} GrowThenUndo(d: Definition, c: Config, blank: SymbolId, recs: seq<Backstep>)
    requires |c.cells| % 2 == 0 && Replayable(d, c, recs)
    ensures Replayable(d, Grow(c, blank), recs)
    ensures Undo(d, Grow(c, blank), recs) == Grow(Undo(d, c, recs), blank)
    decreases |recs|
  {
    if recs != [] {
      var rec, rest := recs[|recs| - 1], recs[..|recs| - 1];
      GrowThenBackward(c, blank, rec);
      GrowThenUndo(d, Backward(c, rec), blank, rest);
    }
  }

  /** Undoing a history commutes with any number of expansions. */
  lemma {:induction false} GrowTimesThenUndo(d: Definition, c: Config, blank: SymbolId, recs: seq<Backstep>, e: nat)
    requires |c.cells| % 2 == 0 && Replayable(d, c, recs)
    ensures Replayable(d, GrowTimes(c, blank, e), recs)
    ensures Undo(d, GrowTimes(c, blank, e), recs) == GrowTimes(Undo(d, c, recs), blank, e)
    decreases e
  {
    if e > 0 {
      GrowThenUndo(d, c, blank, recs);
      UndoKeepsSize(d, c, recs);
      GrowTimesThenUndo(d, Grow(c, blank), blank, recs, e - 1);
    }
  }

  /** Undoing never changes the buffer's size. */
  lemma {:induction false} UndoKeepsSize(d: Definition, c: Config, recs: seq<Backstep>)
    requires Replayable(d, c, recs)
    ensures |Undo(d, c, recs).cells| == |c.cells|
    decreases |recs|
  {
    if recs != [] {
      UndoKeepsSize(d, Backward(c, recs[|recs| - 1]), recs[..|recs| - 1]);
    }
  }

  /** Growing a times and then b times is growing a + b times. */
  lemma {:induction false} GrowTimesAdd(c: Config, blank: SymbolId, a: nat, b: nat)
    ensures GrowTimes(GrowTimes(c, blank, a), blank, b) == GrowTimes(c, blank, a + b)
    decreases a
  {
    if a > 0 {
      GrowTimesAdd(Grow(c, blank), blank, a - 1, b);
    }
  }

  /** Step then back-step: replaying the logged record after a forward step
      gives back the former configuration, expanded once if the step grew
      the tape. */
  lemma {:induction false} StepBackStep(d: Definition, blank: SymbolId, c: Config)
    requires Steppable(d, blank, c) && c.state != HALT
    ensures var r, rec := Forward(d, blank, c), BackRecord(d, c);
      Returns(r, rec) &&
      Backward(r, rec) == (if LeavesBuffer(d, c) then Grow(c, blank) else c)
  {
    var next := NextStep(d, c);
    var rec := BackRecord(d, c);
    var w := Config(c.cells[c.head := next.sym], c.head + DirValue(next.dir), next.ns);
    if LeavesBuffer(d, c) {
      var g := Grow(c, blank);
      var k := Shift(|c.cells|);
      var lhs := Expanded(w.cells, blank)[c.head + k := c.cells[c.head]];
      assert |lhs| == |g.cells|;
      forall j | 0 <= j < |lhs|
        ensures lhs[j] == g.cells[j]
      {
      }
      assert lhs == g.cells;
    } else {
      assert w.cells[c.head := c.cells[c.head]] == c.cells;
    }
  }

  /** A forward step keeps a history replayable once its own record is
      appended, and undoing the longer history from the new configuration
      ends where undoing the old one did, expanded if the tape grew. */
  lemma {:induction false} StepKeepsReplayable(d: Definition, blank: SymbolId, c: Config, recs: seq<Backstep>)
    requires Steppable(d, blank, c) && c.state != HALT && Replayable(d, c, recs)
    ensures var r, more := Forward(d, blank, c), recs + [BackRecord(d, c)];
      Replayable(d, r, more) &&
      Undo(d, r, more) == (if LeavesBuffer(d, c) then Grow(Undo(d, c, recs), blank) else Undo(d, c, recs))
  {
    var r, rec := Forward(d, blank, c), BackRecord(d, c);
    var more := recs + [rec];
    assert more[..|more| - 1] == recs && more[|more| - 1] == rec;
    StepBackStep(d, blank, c);
    if LeavesBuffer(d, c) {
      GrowThenUndo(d, c, blank, recs);
    }
  }

  /** Reversibility: after any number of forward steps from c, undoing
      every logged record gives back c, up to the expansions that
      happened on the way. */
  lemma {:induction false} Reversible(d: Definition, blank: SymbolId, c: Config, k: nat) returns (e: nat)
    requires Steppable(d, blank, c)
    ensures var (r, recs) := Run(d, blank, c, k);
      Replayable(d, r, recs) && Undo(d, r, recs) == GrowTimes(c, blank, e)
  {
    if k == 0 {
      e := 0;
    } else {
      var (prev, recs) := Run(d, blank, c, k - 1);
      var e0 := Reversible(d, blank, c, k - 1);
      if prev.state == HALT {
        e := e0;
      } else {
        StepKeepsReplayable(d, blank, prev, recs);
        if LeavesBuffer(d, prev) {
          e := e0 + 1;
          GrowTimesAdd(c, blank, e0, 1);
        } else {
          e := e0;
        }
      }
    }
  }

  /** Growth is invisible: after any number of expansions the state is the
      same and every cell at a given distance from the head reads the same. */
  lemma {:induction false} GrowTimesKeepsView(c: Config, blank: SymbolId, e: nat, i: int)
    requires |c.cells| % 2 == 0
    ensures var g := GrowTimes(c, blank, e);
      g.state == c.state && Read(g.cells, blank, g.head + i) == Read(c.cells, blank, c.head + i)
    decreases e
  {
    if e > 0 {
      ExpandKeepsCell(c.cells, blank, c.head + i);
      GrowTimesKeepsView(Grow(c, blank), blank, e - 1, i);
    }
  }

  /** A well-formed configuration stays well-formed under a backward step
      that replays a well-formed record. */
  lemma BackwardKeepsOk(d: Definition, c: Config, rec: Backstep)
    requires ConfigOk(d, c) && Returns(c, rec)
    requires rec.sym < d.alphSize && IsStateIndex(rec.ns, d.numStates)
    ensures ConfigOk(d, Backward(c, rec))
  {
  }

  // ---------------------------------------------------------------------
  // The mutable machine and its history

  /** The undo log: records hist[0..n), in a buffer of capacity size that
      doubles once it is full. */
  class History {
    var hist: array<Backstep>
    var size: nat
    var n: nat

    /** The buffer is size records long and always has a free slot. */
    ghost predicate Valid()
      reads this
    {
      size == hist.Length && n < size
    }

    /** The records that can currently be undone, oldest first. */
    ghost function Records(): seq<Backstep>
      reads this, hist
      requires Valid()
    {
      hist[..n]
    }

    /** An empty history with room for capacity records. */
    constructor (capacity: nat)
      requires capacity > 0
      ensures Valid() && fresh(hist) && size == capacity && Records() == []
    {
      hist := new Backstep[capacity];
      size := capacity;
      n := 0;
    }

    /** Logs rec in the free slot; when that fills the buffer, its capacity
        doubles and the records are carried over. */
    method Push(rec: Backstep)
      requires Valid()
      modifies this, hist
      ensures Valid() && (hist == old(hist) || fresh(hist))
      ensures Records() == old(Records()) + [rec]
      ensures size == if old(n) + 1 == old(size) then 2 * old(size) else old(size)
    {
      hist[n] := rec;
      n := n + 1;
      if n == size {
        size := 2 * size;
        var grown := new Backstep[size];
        for i := 0 to n
          modifies grown
          invariant forall j :: 0 <= j < i ==> grown[j] == hist[j]
        {
          grown[i] := hist[i];
        }
        hist := grown;
      }
    }
  }

  /** A machine: alphabet, transition function, current state and tape. */
  class Machine {
    const alphabet: seq<char>
    const alphabetSize: nat
    const stateCount: nat
    const table: seq<seq<Step>>
    var state: State
    const tape: Tape

    /** The definition the machine was built from. */
    function Def(): Definition
    {
      Definition(stateCount, alphabetSize, alphabet, table)
    }

    /** The current configuration. */
    ghost function Cfg(): Config
      reads this, tape, tape.contents
    {
      Config(tape.contents[..], tape.head, state)
    }

    /** The machine can step: the tape invariant holds, the definition obeys
        the grammar's ranges and the configuration stays inside them. */
    ghost predicate Ready()
      reads this, tape, tape.contents
    {
      tape.Valid() && Steppable(Def(), tape.blank, Cfg())
    }

    /** A machine on a fresh tape of 42 blank cells, head in the middle. */
    constructor (alph: seq<char>, alphSize: nat, numStates: nat, instructions: seq<seq<Step>>, start: State)
      ensures alphabet == alph && alphabetSize == alphSize && stateCount == numStates
      ensures table == instructions && state == start
      ensures fresh(tape) && fresh(tape.contents) && tape.Valid()
      ensures tape.size == INITIAL_SIZE && tape.head == INITIAL_SIZE / 2 && tape.blank == BLANK
      ensures forall i :: 0 <= i < tape.size ==> tape.contents[i] == BLANK
      ensures WellFormed(Def()) && (start == HALT || IsStateIndex(start, numStates)) ==> Ready()
    {
      var ts := INITIAL_SIZE;
      var tc := new SymbolId[ts];
      for i := 0 to ts
        modifies tc
        invariant forall j :: 0 <= j < i ==> tc[j] == 0
      {
        tc[i] := 0;
      }
      tape := new Tape(tc, ts, ts / 2, 0);
      alphabet := alph;
      alphabetSize := alphSize;
      stateCount := numStates;
      table := instructions;
      state := start;
    }

    /** One forward step, logged in h unless h is null. In HALT nothing
        happens; otherwise the record {erased symbol, opposite move, former
        state} is logged, the transition's symbol written, the head moved,
        the state changed, and the tape expanded if the head left it. */
    method DoStep(h: History?)
      requires Ready()
      requires h != null ==> h.Valid()
      requires LeavesBuffer(Def(), Cfg()) ==> 2 * tape.size < INT_MAX
      modifies this, tape, tape.contents
      modifies if h == null then {} else {h, h.hist}
      ensures Ready() && (tape.contents == old(tape.contents) || fresh(tape.contents))
      ensures Cfg() == Forward(Def(), tape.blank, old(Cfg()))
      ensures old(state) == HALT ==> tape.contents == old(tape.contents) && tape.size == old(tape.size)
      ensures h != null ==> h.Valid() && (h.hist == old(h.hist) || fresh(h.hist))
      ensures h != null && old(state) == HALT ==> h.hist == old(h.hist) && h.size == old(h.size)
      ensures h != null ==>
        h.Records() == old(h.Records()) + if old(state) == HALT then [] else [BackRecord(Def(), old(Cfg()))]
      ensures h != null && old(state) != HALT ==>
        h.size == if old(h.n) + 1 == old(h.size) then 2 * old(h.size) else old(h.size)
      ensures h != null && old(Replayable(Def(), Cfg(), h.Records())) ==> Replayable(Def(), Cfg(), h.Records())
    {
      if state == HALT {
        return;
      }
      ghost var c := Cfg();
      ghost var recs := if h != null then h.Records() else [];
      var erased := tape.contents[tape.head];
      var next := table[state][erased];
      assert next == NextStep(Def(), c);
      if h != null {
        h.Push(Step(erased, Opposite(next.dir), state));
        assert h.Records() == recs + [BackRecord(Def(), c)];
      }
      Advance();
      if h != null && Replayable(Def(), c, recs) {
        StepKeepsReplayable(Def(), tape.blank, c, recs);
      }
    }

    /** The tape half of a forward step outside HALT: the transition's
        symbol is written under the head, the head moved, the state changed,
        and the tape expanded if the head left it. */
    method Advance()
      requires Ready() && state != HALT
      requires LeavesBuffer(Def(), Cfg()) ==> 2 * tape.size < INT_MAX
      modifies this, tape, tape.contents
      ensures Ready() && (tape.contents == old(tape.contents) || fresh(tape.contents))
      ensures Cfg() == Forward(Def(), tape.blank, old(Cfg()))
    {
      ghost var c := Cfg();
      var next := table[state][tape.contents[tape.head]];
      assert next == NextStep(Def(), c);
      assert tape.contents[..] == c.cells;
      tape.contents[tape.head] := next.sym;
      tape.head := tape.head + DirValue(next.dir);
      state := next.ns;
      ghost var w := Config(c.cells[c.head := next.sym], c.head + DirValue(next.dir), next.ns);
      assert Cfg() == w;
      if !(0 <= tape.head < tape.size) {
        tape.Expand();
        assert Cfg() == Grow(w, tape.blank);
      }
    }

    /** One backward step: nothing when the history is empty; otherwise the
        last record is popped, its former state restored, the head moved by
        its return direction and the erased symbol written back there. The
        tape never grows. */
    method DoBStep(h: History)
      requires tape.Valid() && h.Valid()
      requires h.n > 0 ==> Returns(Cfg(), h.hist[h.n - 1])
      modifies this, tape, tape.contents, h
      ensures h.Valid() && h.hist == old(h.hist) && h.size == old(h.size)
      ensures tape.Valid() && tape.contents == old(tape.contents) && tape.size == old(tape.size)
      ensures old(h.n) == 0 ==> h.n == 0 && Cfg() == old(Cfg())
      ensures old(h.n) > 0 ==> h.Records() == old(h.Records())[..old(h.n) - 1]
      ensures old(h.n) > 0 ==> Cfg() == Backward(old(Cfg()), old(h.Records())[old(h.n) - 1])
      ensures old(Ready() && Replayable(Def(), Cfg(), h.Records())) ==> Ready() && Replayable(Def(), Cfg(), h.Records())
    {
      if h.n == 0 {
        return;
      }
      ghost var c := Cfg();
      ghost var recs := h.Records();
      ghost var wasReady := Ready();
      h.n := h.n - 1;
      var back := h.hist[h.n];
      state := back.ns;
      tape.head := tape.head + DirValue(back.dir);
      tape.contents[tape.head] := back.sym;
      assert recs[|recs| - 1] == back && recs[..|recs| - 1] == h.Records();
      if wasReady && Replayable(Def(), c, recs) {
        BackwardKeepsOk(Def(), c, back);
      }
    }
  }
}
