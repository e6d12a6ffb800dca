/** The tape: a finite, blank-filled buffer with a head offset that doubles
    and re-centres itself whenever the head leaves it (turing.c, expand). */
module Tapes {
  import opened Types

  /** INT_MAX of the C implementation; every size must stay below it. */
  const INT_MAX: int := 0x7fff_ffff

  /** Size of a fresh tape; it must be even. */
  const INITIAL_SIZE: nat := 42

  /** One quarter of the doubled size: where expand puts the old first cell. */
  function Shift(oldSize: nat): (k: nat)
    ensures 2 * k <= oldSize <= 2 * k + 1
    ensures oldSize % 2 == 0 ==> 2 * k == oldSize
  {
    (2 * oldSize) / 4
  }

  /** The buffer expand builds from cells: twice as long, cells copied into
      [shift, 3 * shift) and blank everywhere else. */
  function Expanded(cells: seq<SymbolId>, blank: SymbolId): (r: seq<SymbolId>)
    ensures |r| == 2 * |cells|
  {
    var shift := Shift(|cells|);
    seq(2 * |cells|, i requires 0 <= i < 2 * |cells| =>
      if shift <= i < 3 * shift then cells[i - shift] else blank)
  }

  /** The symbol at physical offset i of the infinite line the buffer stands
      for: outside the buffer the line is blank. */
  function Read(cells: seq<SymbolId>, blank: SymbolId, i: int): (a: SymbolId)
    ensures a == blank || a in cells
  {
    if 0 <= i < |cells| then cells[i] else blank
  }

  /** An even tape survives expansion: the new buffer is even, its middle
      half holds the old buffer in order and its outer quarters are blank. */
  lemma {:induction false} ExpandKeepsEvenTape(cells: seq<SymbolId>, blank: SymbolId)
    requires |cells| % 2 == 0
    ensures var r, k := Expanded(cells, blank), Shift(|cells|);
      |r| % 2 == 0 && 2 * k == |cells| &&
      (forall i :: 0 <= i < |cells| ==> r[k + i] == cells[i]) &&
      (forall i :: 0 <= i < |r| && !(k <= i < k + |cells|) ==> r[i] == blank)
  {
    var r, k := Expanded(cells, blank), Shift(|cells|);
    assert 2 * k == |cells|;
    forall i | 0 <= i < |cells|
      ensures r[k + i] == cells[i]
    {
    }
    forall i | 0 <= i < |r| && !(k <= i < k + |cells|)
      ensures r[i] == blank
    {
    }
  }

  /** On an odd tape expansion loses the last cell: the copied region holds
      every cell but the last one, and the place the last cell should take
      is blank. */
  lemma {:induction false} ExpandDropsLastOddCell(cells: seq<SymbolId>, blank: SymbolId)
    requires |cells| % 2 == 1
    ensures var r, k := Expanded(cells, blank), Shift(|cells|);
      2 * k == |cells| - 1 &&
      (forall i :: 0 <= i < |cells| - 1 ==> r[k + i] == cells[i]) &&
      Read(r, blank, k + |cells| - 1) == blank
  {
    var r, k := Expanded(cells, blank), Shift(|cells|);
    assert 2 * k + 1 == |cells|;
    forall i | 0 <= i < |cells| - 1
      ensures r[k + i] == cells[i]
    {
    }
  }

  /** Expansion is invisible on an even tape: every cell of the line, read
      Shift places further right in the new buffer, is unchanged. */
  lemma ExpandKeepsCell(cells: seq<SymbolId>, blank: SymbolId, i: int)
    requires |cells| % 2 == 0
    ensures Read(Expanded(cells, blank), blank, i + Shift(|cells|)) == Read(cells, blank, i)
  {
  }

  /** Tape state: contents, physical size, head offset and fill symbol. */
  class Tape {
    var contents: array<SymbolId>
    var size: nat
    var head: int
    const blank: SymbolId

    /** The tape invariant: the buffer is size cells long, size is even,
        positive and below INT_MAX, and the head lies inside the buffer. */
    ghost predicate Valid()
      reads this
    {
      size == contents.Length && size % 2 == 0 && 0 < size < INT_MAX && 0 <= head < size
    }

    /** Builds the tape record {tc, ts, h, b}. */
    constructor (tc: array<SymbolId>, ts: nat, h: int, b: SymbolId)
      ensures contents == tc && size == ts && head == h && blank == b
    {
      contents, size, head, blank := tc, ts, h, b;
    }

    /** Doubles the buffer, copies the old contents into its middle half and
        moves the head by the same quarter of the new size. */
    method Expand()
      requires size == contents.Length
      requires 2 * size < INT_MAX
      modifies this
      ensures fresh(contents)
      ensures size == 2 * old(size) && size == contents.Length
      ensures contents[..] == Expanded(old(contents[..]), blank)
      ensures head == old(head) + Shift(old(size))
      ensures old(size) % 2 == 0 && 0 < old(size) && -1 <= old(head) <= old(size) ==> Valid()
    {
      ghost var was := contents[..];
      size := 2 * size;
      var ntape := new SymbolId[size];
      var shift := size / 4;
      assert shift == Shift(|was|);
      for i := 0 to size
        modifies ntape
        invariant forall j :: 0 <= j < i ==> ntape[j] == Expanded(was, blank)[j]
      {
        if i >= shift && i < 3 * shift {
          ntape[i] := contents[i - shift];
        } else {
          ntape[i] := blank;
        }
      }
      contents := ntape;
      head := head + shift;
    }
  }
}
