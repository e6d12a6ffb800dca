/** Reading a machine definition from the text of a TM file (turing.c,
    load_machine). The text is walked with a cursor as the C code walks its
    buffer: unsigned decimals for NS and AS, one skipped separator,
    AS raw alphabet characters, then NS rows of AS cells "SYM DIR NEXT". */
module Loader {
  import opened Types
  import opened Tapes
  import opened Machines

  datatype Option<T> = None | Some(value: T)

  /** The white-space characters of the C locale. */
  predicate IsSpace(ch: char)
  {
    ch == ' ' || ch == '\t' || ch == '\n' || ch == '\U{B}' || ch == '\U{C}' || ch == '\r'
  }

  predicate IsDigit(ch: char)
  {
    '0' <= ch <= '9'
  }

  /** The value of a decimal digit character (0 for any other character). */
  function DigitValue(ch: char): (v: nat)
    ensures v < 10
    ensures IsDigit(ch) ==> v == (ch as int) - ('0' as int)
  {
    if IsDigit(ch) then (ch as int) - ('0' as int) else 0
  }

  /** text[lo..hi] is white space. */
  predicate AllSpaces(text: seq<char>, lo: nat, hi: nat)
    requires lo <= hi <= |text|
  {
    forall q :: lo <= q < hi ==> IsSpace(text[q])
  }

  /** text[lo..hi] is digits. */
  predicate AllDigits(text: seq<char>, lo: nat, hi: nat)
    requires lo <= hi <= |text|
  {
    forall q :: lo <= q < hi ==> IsDigit(text[q])
  }

  /** The first offset at or after pos that is not white space. */
  function SkipSpaces(text: seq<char>, pos: nat): (p: nat)
    requires pos <= |text|
    ensures pos <= p <= |text|
    ensures p < |text| ==> !IsSpace(text[p])
    decreases |text| - pos
  {
    if pos < |text| && IsSpace(text[pos]) then SkipSpaces(text, pos + 1) else pos
  }

  /** The end of the run of digits that starts at pos. */
  function DigitsEnd(text: seq<char>, pos: nat): (p: nat)
    requires pos <= |text|
    ensures pos <= p <= |text|
    ensures p < |text| ==> !IsDigit(text[p])
    ensures pos < p ==> IsDigit(text[p - 1])
    decreases |text| - pos
  {
    if pos < |text| && IsDigit(text[pos]) then DigitsEnd(text, pos + 1) else pos
  }

  /** The value of the decimal numeral text[lo..hi], most significant
      digit first. */
  function DecimalValue(text: seq<char>, lo: nat, hi: nat): nat
    requires lo <= hi <= |text|
    decreases hi - lo
  {
    if lo == hi then 0 else 10 * DecimalValue(text, lo, hi - 1) + DigitValue(text[hi - 1])
  }

  /** strtoul(text + pos, &end, 10): skip white space and read digits; the
      value and the cursor after the digits, or 0 and the cursor unmoved
      when no digit follows the white space. The end of the text plays the
      part of the terminating NUL. */
  function ReadUnsigned(text: seq<char>, pos: nat): (r: (nat, nat))
    requires pos <= |text|
    ensures pos <= r.1 <= |text|
    ensures r.1 == pos ==> r.0 == 0
    ensures pos < r.1 ==> IsDigit(text[r.1 - 1]) && (r.1 == |text| || !IsDigit(text[r.1]))
    ensures var s := SkipSpaces(text, pos);
      (s < |text| && IsDigit(text[s]) ==> pos < r.1) &&
      (s == |text| || !IsDigit(text[s]) ==> r == (0, pos))
  {
    var start := SkipSpaces(text, pos);
    var end := DigitsEnd(text, start);
    if end == start then (0, pos) else (DecimalValue(text, start, end), end)
  }

  /** strtol(text + pos, &end, 10): as ReadUnsigned, with an optional sign
      before the digits. */
  function ReadSigned(text: seq<char>, pos: nat): (r: (int, nat))
    requires pos <= |text|
    ensures pos <= r.1 <= |text|
    ensures r.1 == pos ==> r.0 == 0
    ensures pos < r.1 ==> IsDigit(text[r.1 - 1]) && (r.1 == |text| || !IsDigit(text[r.1]))
    ensures var s := SkipSpaces(text, pos);
      var d := if s < |text| && (text[s] == '-' || text[s] == '+') then s + 1 else s;
      (d < |text| && IsDigit(text[d]) ==> pos < r.1) &&
      (d == |text| || !IsDigit(text[d]) ==> r == (0, pos))
  {
    var start := SkipSpaces(text, pos);
    var signed := start < |text| && (text[start] == '-' || text[start] == '+');
    var digits := if signed then start + 1 else start;
    var end := DigitsEnd(text, digits);
    if end == digits then (0, pos)
    else
      var v: int := DecimalValue(text, digits, end);
      (if signed && text[start] == '-' then -v else v, end)
  }

  /** One cell "SYM DIR NEXT" read at pos: SYM unsigned, then the character
      right after it is the direction ('<' is LEFT, anything else RIGHT),
      then NEXT signed, so HALT is written -1. None when the direction
      character would lie past the end of the text. */
  function ParseCell(text: seq<char>, pos: nat): (r: Option<(Step, nat)>)
    requires pos <= |text|
    ensures r.Some? ==> pos < r.value.1 <= |text|
  {
    var (sym, p) := ReadUnsigned(text, pos);
    if p == |text| then None
    else
      var dir := if text[p] == '<' then Left else Right;
      var (next, q) := ReadSigned(text, p + 1);
      Some((Step(sym, dir, next), q))
  }

  /** A cell is read exactly when SYM is followed by a character: that
      character is the direction, and it means LEFT if and only if it is
      '<'. */
  lemma CellDirection(text: seq<char>, pos: nat)
    requires pos <= |text|
    ensures var r, (sym, p) := ParseCell(text, pos), ReadUnsigned(text, pos);
      (r.None? <==> p == |text|) &&
      (r.Some? ==> r.value.0.sym == sym && (r.value.0.dir == Left <==> text[p] == '<'))
  {
  }

  /** k cells read one after the other from pos. */
  function Cells(text: seq<char>, pos: nat, k: nat): (r: Option<(seq<Step>, nat)>)
    requires pos <= |text|
    ensures r.Some? ==> |r.value.0| == k && pos <= r.value.1 <= |text|
    decreases k
  {
    if k == 0 then Some(([], pos))
    else
      var prev := Cells(text, pos, k - 1);
      if prev.None? then None
      else
        var cell := ParseCell(text, prev.value.1);
        if cell.None? then None
        else Some((prev.value.0 + [cell.value.0], cell.value.1))
  }

  /** i rows of alphSize cells each, read one after the other from pos. */
  function Rows(text: seq<char>, pos: nat, i: nat, alphSize: nat): (r: Option<(seq<seq<Step>>, nat)>)
    requires pos <= |text|
    ensures r.Some? ==> |r.value.0| == i && pos <= r.value.1 <= |text|
    ensures r.Some? ==> forall j :: 0 <= j < i ==> |r.value.0[j]| == alphSize
    decreases i
  {
    if i == 0 then Some(([], pos))
    else
      var prev := Rows(text, pos, i - 1, alphSize);
      if prev.None? then None
      else
        var row := Cells(text, prev.value.1, alphSize);
        if row.None? then None
        else Some((prev.value.0 + [row.value.0], row.value.1))
  }

  /** The header of a TM file: NS and AS, one separator skipped, then AS
      raw alphabet characters; with the cursor after the alphabet. None when
      the alphabet would run past the end of the text. */
  function Header(text: seq<char>): (r: Option<(nat, nat, seq<char>, nat)>)
    ensures r.Some? ==> |r.value.2| == r.value.1 && r.value.3 <= |text|
  {
    var ns := ReadUnsigned(text, 0);
    var sz := ReadUnsigned(text, ns.1);
    if sz.1 + 1 + sz.0 > |text| then None
    else Some((ns.0, sz.0, text[sz.1 + 1..sz.1 + 1 + sz.0], sz.1 + 1 + sz.0))
  }

  /** The definition a TM file's text describes: the header, then NS rows
      of AS cells. None when the alphabet or a direction character would lie
      past the end of the text. */
  function Parse(text: seq<char>): (r: Option<Definition>)
    ensures r.Some? ==> |r.value.alph| == r.value.alphSize && |r.value.tf| == r.value.numStates
    ensures r.Some? ==> forall i :: 0 <= i < |r.value.tf| ==> |r.value.tf[i]| == r.value.alphSize
  {
    var header := Header(text);
    if header.None? then None
    else
      var (numStates, alphSize, alph, start) := header.value;
      var rows := Rows(text, start, numStates, alphSize);
      if rows.None? then None
      else Some(Definition(numStates, alphSize, alph, rows.value.0))
  }

  lemma SplitLast<T>(s: seq<T>)
    requires s != []
    ensures s[..|s| - 1] + [s[|s| - 1]] == s
  {
  }

  /** The cursors cur walk through row: the cell read at cur[j] is row[j]
      and leaves the cursor at cur[j + 1]. */
  predicate ReadsCells(text: seq<char>, cur: seq<nat>, row: seq<Step>)
  {
    |cur| == |row| + 1 && (forall j :: 0 <= j < |cur| ==> cur[j] <= |text|) &&
    forall j {:trigger row[j]} :: 0 <= j < |row| ==> ParseCell(text, cur[j]) == Some((row[j], cur[j + 1]))
  }

  /** Reading k cells is reading them one after the other: when every cell
      read from cur[j] ends at cur[j + 1], the run of cells read from cur[0]
      is row and ends at the last cursor. */
  lemma {:induction false} CellsFromChain(text: seq<char>, cur: seq<nat>, row: seq<Step>)
    requires ReadsCells(text, cur, row)
    ensures Cells(text, cur[0], |row|) == Some((row, cur[|row|]))
    decreases |row|
  {
    if row != [] {
      var n := |row| - 1;
      CellsFromChain(text, cur[..n + 1], row[..n]);
      SplitLast(row);
    }
  }

  /** Reading i rows is reading them one after the other. */
  lemma {:induction false} RowsFromChain(text: seq<char>, cur: seq<nat>, tf: seq<seq<Step>>, alphSize: nat)
    requires |cur| == |tf| + 1
    requires forall j :: 0 <= j < |cur| ==> cur[j] <= |text|
    requires forall j {:trigger tf[j]} :: 0 <= j < |tf| ==> Cells(text, cur[j], alphSize) == Some((tf[j], cur[j + 1]))
    ensures Rows(text, cur[0], |tf|, alphSize) == Some((tf, cur[|tf|]))
    decreases |tf|
  {
    if tf != [] {
      var n := |tf| - 1;
      RowsFromChain(text, cur[..n + 1], tf[..n], alphSize);
      SplitLast(tf);
    }
  }

  /** Once a row fails to read, every longer run of cells fails too. */
  lemma {:induction false} CellsFailForever(text: seq<char>, pos: nat, j: nat, k: nat)
    requires pos <= |text| && j <= k && Cells(text, pos, j).None?
    ensures Cells(text, pos, k).None?
    decreases k - j
  {
    if j < k {
      CellsFailForever(text, pos, j, k - 1);
      assert Cells(text, pos, k - 1).None?;
    }
  }

  /** Once a row fails to read, every longer run of rows fails too. */
  lemma {:induction false} RowsFailForever(text: seq<char>, pos: nat, i: nat, k: nat, alphSize: nat)
    requires pos <= |text| && i <= k && Rows(text, pos, i, alphSize).None?
    ensures Rows(text, pos, k, alphSize).None?
    decreases k - i
  {
    if i < k {
      RowsFailForever(text, pos, i, k - 1, alphSize);
      assert Rows(text, pos, k - 1, alphSize).None?;
    }
  }

  /** The parsing half of load_machine: the header, the alphabet and the
      transition function, read with one cursor in two nested loops. */
  method ParseDefinition(text: seq<char>) returns (r: Option<Definition>)
    ensures r == Parse(text)
  {
    var header := Header(text);
    if header.None? {
      return None;
    }
    var (numStates, alphSize, alph, start) := header.value;
    var head := start;
    var tf: seq<seq<Step>> := [];
    for i := 0 to numStates
      invariant head <= |text|
      invariant Rows(text, start, i, alphSize) == Some((tf, head))
    {
      var rowStart := head;
      var row: seq<Step> := [];
      for j := 0 to alphSize
        invariant rowStart <= head <= |text|
        invariant Cells(text, rowStart, j) == Some((row, head))
      {
        var cell := ParseCell(text, head);
        if cell.None? {
          assert Cells(text, rowStart, j + 1).None?;
          CellsFailForever(text, rowStart, j + 1, alphSize);
          assert Rows(text, start, i + 1, alphSize).None?;
          RowsFailForever(text, start, i + 1, numStates, alphSize);
          return None;
        }
        row := row + [cell.value.0];
        head := cell.value.1;
      }
      tf := tf + [row];
    }
    r := Some(Definition(numStates, alphSize, alph, tf));
  }

  /** load_machine: no machine in snapshot mode (not supported), when the
      file cannot be read (file is None) or when its text cannot be parsed;
      otherwise a new machine in state 0 for the parsed definition. */
  method LoadMachine(file: Option<seq<char>>, snapshot: bool) returns (m: Machine?)
    ensures snapshot || file.None? ==> m == null
    ensures !snapshot && file.Some? ==> (m == null <==> Parse(file.value).None?)
    ensures m != null ==> fresh(m) && fresh(m.tape) && fresh(m.tape.contents)
    ensures m != null ==> file.Some? && Parse(file.value) == Some(m.Def()) && m.state == 0
    ensures m != null ==> m.tape.Valid() && m.tape.size == INITIAL_SIZE && m.tape.head == INITIAL_SIZE / 2
    ensures m != null ==> m.tape.blank == BLANK && forall i :: 0 <= i < m.tape.size ==> m.tape.contents[i] == BLANK
    ensures m != null && WellFormed(m.Def()) && IsStateIndex(0, m.stateCount) ==> m.Ready()
  {
    if snapshot {
      return null;
    }
    if file.None? {
      return null;
    }
    var d := ParseDefinition(file.value);
    if d.None? {
      return null;
    }
    m := new Machine(d.value.alph, d.value.alphSize, d.value.numStates, d.value.tf, 0);
  }
}
