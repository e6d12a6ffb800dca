/** The TM file grammar of turing.h written out as text, and the proof that
    the loader reads back exactly the definition such a text describes,
    whatever comment follows it. */
module Format {
  import opened Types
  import opened Loader

  // ---------------------------------------------------------------------
  // The grammar as text

  function DigitChar(v: nat): (ch: char)
    requires v < 10
    ensures IsDigit(ch) && DigitValue(ch) == v
  {
    (('0' as int) + v) as char
  }

  /** The decimal numeral of n, most significant digit first. */
  function ShowNat(n: nat): (s: seq<char>)
    ensures 0 < |s|
    decreases n
  {
    if n < 10 then [DigitChar(n)] else ShowNat(n / 10) + [DigitChar(n % 10)]
  }

  /** A state number as the loader reads it: HALT is "-1". */
  function ShowInt(x: int): seq<char>
  {
    if x < 0 then ['-'] + ShowNat(-x) else ShowNat(x)
  }

  /** DIR: '<' for LEFT, '>' for RIGHT. */
  function DirChar(d: Direction): char
  {
    if d == Left then '<' else '>'
  }

  /** SYM DIR NS of one transition (the space after it is added by RowText). */
  function CellText(st: Step): seq<char>
  {
    ShowNat(st.sym) + ([DirChar(st.dir)] + ShowInt(st.ns))
  }

  /** Every piece followed by sep. */
  function Terminated(pieces: seq<seq<char>>, sep: char): (s: seq<char>)
    ensures pieces != [] ==> 0 < |s| && s[|s| - 1] == sep
    decreases |pieces|
  {
    if pieces == [] then [] else pieces[0] + ([sep] + Terminated(pieces[1..], sep))
  }

  /** The texts of the cells of a row. */
  function CellTexts(row: seq<Step>): (r: seq<seq<char>>)
    ensures |r| == |row| && forall j :: 0 <= j < |row| ==> r[j] == CellText(row[j])
    decreases |row|
  {
    if row == [] then [] else [CellText(row[0])] + CellTexts(row[1..])
  }

  /** STEP^AS: every transition of a row followed by a space. */
  function RowText(row: seq<Step>): seq<char>
  {
    Terminated(CellTexts(row), ' ')
  }

  /** The texts of the rows of a table. */
  function RowTexts(tf: seq<seq<Step>>): (r: seq<seq<char>>)
    ensures |r| == |tf| && forall i :: 0 <= i < |tf| ==> r[i] == RowText(tf[i])
    decreases |tf|
  {
    if tf == [] then [] else [RowText(tf[0])] + RowTexts(tf[1..])
  }

  /** TF: every row followed by a newline. */
  function TableText(tf: seq<seq<Step>>): seq<char>
  {
    Terminated(RowTexts(tf), '\n')
  }

  /** NS '\n' AS '\n' ALPH '\n', then rest. */
  function HeaderText(ns: nat, alphSize: nat, alph: seq<char>, rest: seq<char>): seq<char>
  {
    ShowNat(ns) + (['\n'] + (ShowNat(alphSize) + (['\n'] + (alph + (['\n'] + rest)))))
  }

  /** TMFILE -> NS '\n' AS '\n' ALPH '\n' TF. */
  function Render(d: Definition): seq<char>
  {
    HeaderText(d.numStates, d.alphSize, d.alph, TableText(d.tf))
  }

  /** The shape the grammar demands: AS alphabet characters, AS positive,
      NS rows of AS cells. */
  predicate Shaped(d: Definition)
  {
    |d.alph| == d.alphSize && 0 < d.alphSize && |d.tf| == d.numStates &&
    forall i :: 0 <= i < |d.tf| ==> |d.tf[i]| == d.alphSize
  }

  // ---------------------------------------------------------------------
  // Where things lie in the text

  /** x occurs in t at offset q. */
  predicate At(t: seq<char>, q: nat, x: seq<char>)
  {
    q + |x| <= |t| && forall i :: 0 <= i < |x| ==> t[q + i] == x[i]
  }

  /** An occurrence of x + y is an occurrence of x followed by one of y. */
  lemma AtSplit(t: seq<char>, q: nat, x: seq<char>, y: seq<char>)
    requires At(t, q, x + y)
    ensures At(t, q, x) && At(t, q + |x|, y)
  {
    forall i | 0 <= i < |x|
      ensures t[q + i] == x[i]
    {
      assert (x + y)[i] == x[i];
    }
    forall i | 0 <= i < |y|
      ensures t[q + |x| + i] == y[i]
    {
      assert (x + y)[|x| + i] == y[i];
    }
  }

  /** The i-th character of an occurrence. */
  lemma AtIndex(t: seq<char>, q: nat, x: seq<char>, i: nat)
    requires At(t, q, x) && i < |x|
    ensures t[q + i] == x[i]
  {
  }

  lemma AtChar(t: seq<char>, q: nat, ch: char)
    requires At(t, q, [ch])
    ensures q < |t| && t[q] == ch
  {
    assert [ch][0] == ch;
  }

  /** x, a character and y written one after the other. */
  lemma AtAround(t: seq<char>, q: nat, x: seq<char>, ch: char, y: seq<char>, e: nat)
    requires At(t, q, x + ([ch] + y)) && e == q + |x|
    ensures At(t, q, x) && e < |t| && t[e] == ch && At(t, e + 1, y)
  {
    AtSplit(t, q, x, [ch] + y);
    AtSplit(t, q + |x|, [ch], y);
    AtChar(t, q + |x|, ch);
  }

  /** A text starts with its prefix. */
  lemma AtPrefix(x: seq<char>, y: seq<char>)
    ensures At(x + y, 0, x)
  {
    forall i | 0 <= i < |x|
      ensures (x + y)[i] == x[i]
    {
    }
  }

  /** x occurs in t at q: t[q..q + |x|] is x. */
  lemma AtSlice(t: seq<char>, q: nat, x: seq<char>)
    requires At(t, q, x)
    ensures t[q..q + |x|] == x
  {
    forall i | 0 <= i < |x|
      ensures t[q..q + |x|][i] == x[i]
    {
      AtIndex(t, q, x, i);
    }
  }

  lemma OneSpace(t: seq<char>, p: nat)
    requires p < |t| && IsSpace(t[p])
    ensures AllSpaces(t, p, p + 1)
  {
  }

  lemma TwoSpaces(t: seq<char>, p: nat)
    requires p + 1 < |t| && IsSpace(t[p]) && IsSpace(t[p + 1])
    ensures AllSpaces(t, p, p + 2)
  {
  }

  /** t[a..e] is a numeral of value n that no further digit extends. */
  predicate NumeralAt(t: seq<char>, a: nat, e: nat, n: nat)
  {
    a < e <= |t| && AllDigits(t, a, e) && DecimalValue(t, a, e) == n && (e == |t| || !IsDigit(t[e]))
  }

  /** t[a..e] is x written with a leading '-' when negative. */
  predicate SignedAt(t: seq<char>, a: nat, e: nat, x: int)
  {
    if x < 0 then a < |t| && t[a] == '-' && NumeralAt(t, a + 1, e, -x) else NumeralAt(t, a, e, x)
  }

  /** The characters of an occurrence of a numeral are digits, and their
      decimal value is the number shown. */
  lemma {:induction false} AtDigits(t: seq<char>, q: nat, n: nat)
    requires At(t, q, ShowNat(n))
    ensures q < |t| && AllDigits(t, q, q + |ShowNat(n)|)
    ensures DecimalValue(t, q, q + |ShowNat(n)|) == n
    decreases n
  {
    if n < 10 {
      assert ShowNat(n) == [DigitChar(n)];
      AtChar(t, q, DigitChar(n));
    } else {
      var s, d := ShowNat(n / 10), DigitChar(n % 10);
      assert ShowNat(n) == s + [d];
      AtSplit(t, q, s, [d]);
      AtChar(t, q + |s|, d);
      AtDigits(t, q, n / 10);
    }
  }

  /** A written signed numeral that ends at e, before a non-digit. */
  lemma SignedOf(t: seq<char>, a: nat, e: nat, x: int)
    requires At(t, a, ShowInt(x)) && e == a + |ShowInt(x)|
    requires e == |t| || !IsDigit(t[e])
    ensures SignedAt(t, a, e, x)
  {
    if x < 0 {
      AtSplit(t, a, ['-'], ShowNat(-x));
      AtChar(t, a, '-');
      AtDigits(t, a + 1, -x);
    } else {
      AtDigits(t, a, x);
    }
  }

  /** What a written cell puts where: SYM ends at e1, the direction
      character is at e1 and NS ends at e2, where a space follows. */
  lemma CellOf(t: seq<char>, a: nat, e1: nat, e2: nat, st: Step)
    requires At(t, a, CellText(st))
    requires e1 == a + |ShowNat(st.sym)| && e2 == e1 + 1 + |ShowInt(st.ns)|
    requires e2 < |t| && t[e2] == ' '
    ensures NumeralAt(t, a, e1, st.sym) && e1 < |t| && (t[e1] == '<' <==> st.dir == Left)
    ensures SignedAt(t, e1 + 1, e2, st.ns)
  {
    AtAround(t, a, ShowNat(st.sym), DirChar(st.dir), ShowInt(st.ns), e1);
    AtDigits(t, a, st.sym);
    SignedOf(t, e1 + 1, e2, st.ns);
  }

  // ---------------------------------------------------------------------
  // What the loader reads there

  lemma {:induction false} SkipSpacesTo(t: seq<char>, pos: nat, q: nat)
    requires pos <= q < |t| && AllSpaces(t, pos, q) && !IsSpace(t[q])
    ensures SkipSpaces(t, pos) == q
    decreases q - pos
  {
    if pos < q {
      SkipSpacesTo(t, pos + 1, q);
    }
  }

  lemma {:induction false} DigitsEndTo(t: seq<char>, q: nat, e: nat)
    requires q <= e <= |t| && AllDigits(t, q, e) && (e == |t| || !IsDigit(t[e]))
    ensures DigitsEnd(t, q) == e
    decreases e - q
  {
    if q < e {
      DigitsEndTo(t, q + 1, e);
    }
  }

  /** strtoul reads a numeral that follows white space. */
  lemma ReadUnsignedOn(t: seq<char>, pos: nat, a: nat, e: nat, n: nat)
    requires pos <= a && NumeralAt(t, a, e, n) && AllSpaces(t, pos, a)
    ensures ReadUnsigned(t, pos) == (n, e)
  {
    SkipSpacesTo(t, pos, a);
    DigitsEndTo(t, a, e);
  }

  /** strtol reads a signed numeral. */
  lemma ReadSignedOn(t: seq<char>, a: nat, e: nat, x: int)
    requires SignedAt(t, a, e, x)
    ensures ReadSigned(t, a) == (x, e)
  {
    if x < 0 {
      SkipSpacesTo(t, a, a);
      DigitsEndTo(t, a + 1, e);
    } else {
      SkipSpacesTo(t, a, a);
      DigitsEndTo(t, a, e);
    }
  }

  /** strtol also takes an explicit '+' sign, after white space. */
  lemma ReadSignedPlus(t: seq<char>, pos: nat, a: nat, e: nat, n: nat)
    requires pos <= a < |t| && AllSpaces(t, pos, a) && t[a] == '+' && NumeralAt(t, a + 1, e, n)
    ensures ReadSigned(t, pos) == (n, e)
  {
    SkipSpacesTo(t, pos, a);
    DigitsEndTo(t, a + 1, e);
  }

  /** strtoul reads back a written numeral that follows white space and
      precedes a non-digit. */
  lemma ReadUnsignedAt(t: seq<char>, pos: nat, q: nat, e: nat, n: nat)
    requires pos <= q && At(t, q, ShowNat(n)) && AllSpaces(t, pos, q)
    requires e == q + |ShowNat(n)| && (e == |t| || !IsDigit(t[e]))
    ensures ReadUnsigned(t, pos) == (n, e)
  {
    AtDigits(t, q, n);
    ReadUnsignedOn(t, pos, q, e, n);
  }

  /** ParseCell on white space, SYM ending at e1, a direction character and
      NS ending at e2. */
  lemma ParseCellOn(t: seq<char>, p: nat, a: nat, e1: nat, e2: nat, st: Step)
    requires p <= a && NumeralAt(t, a, e1, st.sym) && AllSpaces(t, p, a)
    requires e1 < |t| && (t[e1] == '<' <==> st.dir == Left) && SignedAt(t, e1 + 1, e2, st.ns)
    ensures ParseCell(t, p) == Some((st, e2))
  {
    ReadUnsignedOn(t, p, a, e1, st.sym);
    ReadSignedOn(t, e1 + 1, e2, st.ns);
  }

  /** A cell written after white space and followed by a space at e is read
      back, and the cursor stops on that space. */
  lemma ParseCellAt(t: seq<char>, p: nat, q: nat, e: nat, st: Step)
    requires p <= q && At(t, q, CellText(st)) && AllSpaces(t, p, q)
    requires e == q + |CellText(st)| && e < |t| && t[e] == ' '
    ensures ParseCell(t, p) == Some((st, e))
  {
    var e1 := q + |ShowNat(st.sym)|;
    CellOf(t, q, e1, e, st);
    ParseCellOn(t, p, q, e1, e, st);
  }

  // ---------------------------------------------------------------------
  // Reading a rendered definition back

  /** The pieces lie in t at the offsets qs, each followed by sep: piece i
      at qs[i] and its terminator just before qs[i + 1]. */
  predicate Laid(t: seq<char>, qs: seq<nat>, pieces: seq<seq<char>>, sep: char)
    decreases |pieces|
  {
    |qs| == |pieces| + 1 &&
    (pieces != [] ==>
      At(t, qs[0], pieces[0]) && qs[1] == qs[0] + |pieces[0]| + 1 && qs[1] <= |t| && t[qs[1] - 1] == sep &&
      Laid(t, qs[1..], pieces[1..], sep))
  }

  /** Piece i of a laid-out text, its terminator, and the terminator of
      the piece before it. */
  lemma {:induction false} LaidAt(t: seq<char>, qs: seq<nat>, pieces: seq<seq<char>>, sep: char, i: nat)
    requires Laid(t, qs, pieces, sep) && i < |pieces|
    ensures |qs| == |pieces| + 1 && At(t, qs[i], pieces[i]) && qs[i + 1] == qs[i] + |pieces[i]| + 1
    ensures qs[i + 1] <= |t| && t[qs[i + 1] - 1] == sep
    decreases i
  {
    if 0 < i {
      LaidAt(t, qs[1..], pieces[1..], sep, i - 1);
      assert qs[1..][i - 1] == qs[i] && qs[1..][i] == qs[i + 1] && pieces[1..][i - 1] == pieces[i];
    }
  }

  /** Where the pieces of a terminated text lie. */
  lemma {:induction false} TerminatedLaid(t: seq<char>, q: nat, pieces: seq<seq<char>>, sep: char) returns (qs: seq<nat>)
    requires At(t, q, Terminated(pieces, sep))
    ensures |qs| == |pieces| + 1 && qs[0] == q && qs[|pieces|] == q + |Terminated(pieces, sep)|
    ensures Laid(t, qs, pieces, sep)
    decreases |pieces|
  {
    if pieces == [] {
      qs := [q];
    } else {
      var e := q + |pieces[0]|;
      AtAround(t, q, pieces[0], sep, Terminated(pieces[1..], sep), e);
      var tail := TerminatedLaid(t, e + 1, pieces[1..], sep);
      qs := [q] + tail;
      assert qs[1..] == tail;
    }
  }

  /** A piece that ends with ch, laid out at a, puts ch just before its end. */
  lemma PieceEnd(t: seq<char>, a: nat, x: seq<char>, ch: char)
    requires At(t, a, x) && 0 < |x| && x[|x| - 1] == ch
    ensures t[a + |x| - 1] == ch
  {
    AtIndex(t, a, x, |x| - 1);
  }

  /** Where piece j of a row laid out at cs lies: after white space that
      starts at cur (p for the first piece, the space that ends the piece
      before for the others), and followed by the space at next. */
  lemma CellLaid(t: seq<char>, p: nat, cs: seq<nat>, pieces: seq<seq<char>>, j: nat, cur: nat, next: nat)
    requires Laid(t, cs, pieces, ' ') && j < |pieces|
    requires p <= cs[0] <= |t| && AllSpaces(t, p, cs[0])
    requires (j == 0 && cur == p) || (0 < j && cur + 1 == cs[j])
    requires next + 1 == cs[j + 1]
    ensures cur <= cs[j] && At(t, cs[j], pieces[j]) && AllSpaces(t, cur, cs[j])
    ensures next == cs[j] + |pieces[j]| && next < |t| && t[next] == ' '
  {
    LaidAt(t, cs, pieces, ' ', j);
    if 0 < j {
      LaidAt(t, cs, pieces, ' ', j - 1);
      OneSpace(t, cur);
    }
  }

  /** Cell j of a row laid out at cs is read from cur[j], white space
      before it, and is followed by the space at cur[j + 1]. */
  predicate CellSpot(t: seq<char>, cs: seq<nat>, pieces: seq<seq<char>>, cur: seq<nat>, j: nat)
    requires j < |pieces| && |cs| == |cur| == |pieces| + 1
  {
    cur[j] <= cs[j] && At(t, cs[j], pieces[j]) && AllSpaces(t, cur[j], cs[j]) &&
    cur[j + 1] == cs[j] + |pieces[j]| && cur[j + 1] < |t| && t[cur[j + 1]] == ' '
  }

  /** Where the cells of a row laid out at cs are read from: cur[0] is p,
      the start of white space before the row, and cur[j + 1] is the space
      that ends cell j. */
  lemma CellSpots(t: seq<char>, p: nat, cs: seq<nat>, pieces: seq<seq<char>>) returns (cur: seq<nat>)
    requires Laid(t, cs, pieces, ' ') && p <= cs[0] <= |t| && AllSpaces(t, p, cs[0])
    ensures |cur| == |pieces| + 1 && |cs| == |cur| && cur[0] == p
    ensures forall j :: 0 <= j < |cur| ==> cur[j] <= |t|
    ensures pieces != [] ==> cur[|pieces|] + 1 == cs[|pieces|]
    ensures forall j :: 0 <= j < |pieces| ==> CellSpot(t, cs, pieces, cur, j)
  {
    cur := seq(|pieces| + 1, j requires 0 <= j <= |pieces| => if j == 0 || cs[j] == 0 then p else cs[j] - 1);
    forall j | 0 <= j < |pieces|
      ensures CellSpot(t, cs, pieces, cur, j) && cur[j + 1] <= |t|
    {
      LaidAt(t, cs, pieces, ' ', j);
      if 0 < j {
        LaidAt(t, cs, pieces, ' ', j - 1);
      }
      CellLaid(t, p, cs, pieces, j, cur[j], cur[j + 1]);
    }
    forall j | 0 < j < |cur|
      ensures cur[j] <= |t|
    {
      LaidAt(t, cs, pieces, ' ', j - 1);
    }
    if pieces != [] {
      LaidAt(t, cs, pieces, ' ', |pieces| - 1);
    }
  }

  /** A written row that follows white space is read back by Cells, which
      stops on the space that ends the row. */
  lemma RowRead(t: seq<char>, p: nat, q: nat, e: nat, row: seq<Step>)
    requires p <= q && row != [] && At(t, q, RowText(row)) && AllSpaces(t, p, q)
    requires e + 1 == q + |RowText(row)|
    ensures e < |t| && t[e] == ' ' && Cells(t, p, |row|) == Some((row, e))
  {
    var pieces := CellTexts(row);
    var cs := TerminatedLaid(t, q, pieces, ' ');
    var cur := CellSpots(t, p, cs, pieces);
    assert cur[|row|] == e && CellSpot(t, cs, pieces, cur, |row| - 1);
    forall j | 0 <= j < |row|
      ensures ParseCell(t, cur[j]) == Some((row[j], cur[j + 1]))
    {
      assert pieces[j] == CellText(row[j]) && CellSpot(t, cs, pieces, cur, j);
      ParseCellAt(t, cur[j], cs[j], cur[j + 1], row[j]);
    }
    CellsFromChain(t, cur, row);
  }

  /** Where piece i of a table laid out at qs lies: after white space
      that starts at a (p for the first piece, the space before the newline
      that ends the piece before for the others), and ending just before
      b + 1. */
  lemma RowLaid(t: seq<char>, p: nat, qs: seq<nat>, pieces: seq<seq<char>>, i: nat, a: nat, b: nat)
    requires Laid(t, qs, pieces, '\n') && i < |pieces|
    requires p <= qs[0] <= |t| && AllSpaces(t, p, qs[0])
    requires 0 < i ==> 0 < |pieces[i - 1]| && pieces[i - 1][|pieces[i - 1]| - 1] == ' '
    requires (i == 0 && a == p) || (0 < i && a + 2 == qs[i])
    requires b + 2 == qs[i + 1]
    ensures a <= qs[i] && At(t, qs[i], pieces[i]) && AllSpaces(t, a, qs[i])
    ensures b + 1 == qs[i] + |pieces[i]|
  {
    LaidAt(t, qs, pieces, '\n', i);
    if 0 < i {
      LaidAt(t, qs, pieces, '\n', i - 1);
      PieceEnd(t, qs[i - 1], pieces[i - 1], ' ');
      TwoSpaces(t, a);
    }
  }

  /** A written row ends with a space. */
  lemma RowTextEnd(row: seq<Step>)
    requires row != []
    ensures 0 < |RowText(row)| && RowText(row)[|RowText(row)| - 1] == ' '
  {
    assert CellTexts(row) != [];
  }

  /** Row i of a table laid out at qs is read from ps[i], white space
      before it, and ends just before ps[i + 1] + 1. */
  predicate RowSpot(t: seq<char>, qs: seq<nat>, pieces: seq<seq<char>>, ps: seq<nat>, i: nat)
    requires i < |pieces| && |qs| == |ps| == |pieces| + 1
  {
    ps[i] <= qs[i] && At(t, qs[i], pieces[i]) && AllSpaces(t, ps[i], qs[i]) && ps[i + 1] + 1 == qs[i] + |pieces[i]|
  }

  /** Where the rows of a table laid out at qs are read from: ps[0] is p,
      the start of white space before the table, and ps[i + 1] is the space
      before the newline that ends row i. */
  lemma TableSpots(t: seq<char>, p: nat, qs: seq<nat>, pieces: seq<seq<char>>) returns (ps: seq<nat>)
    requires Laid(t, qs, pieces, '\n') && p <= qs[0] <= |t| && AllSpaces(t, p, qs[0])
    requires forall k :: 0 <= k < |pieces| ==> 0 < |pieces[k]| && pieces[k][|pieces[k]| - 1] == ' '
    ensures |ps| == |pieces| + 1 && |qs| == |ps| && ps[0] == p
    ensures forall j :: 0 <= j < |ps| ==> ps[j] <= |t|
    ensures forall i :: 0 <= i < |pieces| ==> RowSpot(t, qs, pieces, ps, i)
  {
    ps := seq(|pieces| + 1, i requires 0 <= i <= |pieces| => if i == 0 || qs[i] < 2 then p else qs[i] - 2);
    forall i | 0 <= i < |pieces|
      ensures RowSpot(t, qs, pieces, ps, i) && ps[i + 1] <= |t|
    {
      LaidAt(t, qs, pieces, '\n', i);
      if 0 < i {
        LaidAt(t, qs, pieces, '\n', i - 1);
      }
      RowLaid(t, p, qs, pieces, i, ps[i], ps[i + 1]);
    }
    forall j | 0 < j < |ps|
      ensures ps[j] <= |t|
    {
      LaidAt(t, qs, pieces, '\n', j - 1);
    }
  }

  /** A written table that follows white space starting at p is read back
      row after row; the rows read from ps[i] end at ps[i + 1], the space
      before the newline that ends row i. */
  lemma TableRead(t: seq<char>, p: nat, q: nat, tf: seq<seq<Step>>, alphSize: nat) returns (ps: seq<nat>)
    requires p <= q && At(t, q, TableText(tf)) && AllSpaces(t, p, q)
    requires 0 < alphSize && forall i :: 0 <= i < |tf| ==> |tf[i]| == alphSize
    ensures |ps| == |tf| + 1 && ps[0] == p
    ensures forall j :: 0 <= j < |ps| ==> ps[j] <= |t|
    ensures forall i :: 0 <= i < |tf| ==> Cells(t, ps[i], alphSize) == Some((tf[i], ps[i + 1]))
  {
    var pieces := RowTexts(tf);
    var qs := TerminatedLaid(t, q, pieces, '\n');
    forall k | 0 <= k < |pieces|
      ensures 0 < |pieces[k]| && pieces[k][|pieces[k]| - 1] == ' '
    {
      assert pieces[k] == RowText(tf[k]) && |tf[k]| == alphSize;
      RowTextEnd(tf[k]);
    }
    ps := TableSpots(t, p, qs, pieces);
    forall i | 0 <= i < |tf|
      ensures Cells(t, ps[i], alphSize) == Some((tf[i], ps[i + 1]))
    {
      assert pieces[i] == RowText(tf[i]) && |tf[i]| == alphSize && RowSpot(t, qs, pieces, ps, i);
      RowRead(t, ps[i], qs[i], ps[i + 1], tf[i]);
    }
  }

  /** Where the pieces of a written header lie: two numerals and the
      alphabet, followed by newlines at a, b and h. */
  lemma HeaderLaid(t: seq<char>, x: seq<char>, y: seq<char>, alph: seq<char>, rest: seq<char>, a: nat, b: nat, h: nat)
    requires At(t, 0, x + (['\n'] + (y + (['\n'] + (alph + (['\n'] + rest))))))
    requires a == |x| && b == a + 1 + |y| && h == b + 1 + |alph|
    ensures At(t, 0, x) && a < |t| && t[a] == '\n'
    ensures At(t, a + 1, y) && b < |t| && t[b] == '\n'
    ensures At(t, b + 1, alph) && h < |t| && t[h] == '\n' && At(t, h + 1, rest)
  {
    AtAround(t, 0, x, '\n', y + (['\n'] + (alph + (['\n'] + rest))), a);
    AtAround(t, a + 1, y, '\n', alph + (['\n'] + rest), b);
    AtAround(t, b + 1, alph, '\n', rest, h);
  }

  /** The header as the loader reads it: two numerals, one separator and
      the alphabet. */
  lemma HeaderOn(t: seq<char>, ns: nat, alphSize: nat, alph: seq<char>, a: nat, b: nat, h: nat)
    requires a <= |t| && ReadUnsigned(t, 0) == (ns, a) && ReadUnsigned(t, a) == (alphSize, b)
    requires h == b + 1 + alphSize && h <= |t| && t[b + 1..h] == alph
    ensures Header(t) == Some((ns, alphSize, alph, h))
  {
  }

  /** The loader reads back a written header and stops on the newline at h
      that ends it. */
  lemma HeaderOf(t: seq<char>, ns: nat, alphSize: nat, alph: seq<char>, rest: seq<char>, h: nat)
    requires At(t, 0, HeaderText(ns, alphSize, alph, rest)) && |alph| == alphSize
    requires h == |ShowNat(ns)| + 1 + |ShowNat(alphSize)| + 1 + |alph|
    ensures Header(t) == Some((ns, alphSize, alph, h))
    ensures h < |t| && t[h] == '\n' && At(t, h + 1, rest)
  {
    var a := |ShowNat(ns)|;
    var b := a + 1 + |ShowNat(alphSize)|;
    HeaderLaid(t, ShowNat(ns), ShowNat(alphSize), alph, rest, a, b, h);
    ReadUnsignedAt(t, 0, 0, a, ns);
    OneSpace(t, a);
    ReadUnsignedAt(t, a, a + 1, b, alphSize);
    AtSlice(t, b + 1, alph);
    HeaderOn(t, ns, alphSize, alph, a, b, h);
  }

  /** A text whose header reads as d's and whose table reads row after row
      from the end of the header parses as d. */
  lemma ParseOf(t: seq<char>, d: Definition, h: nat, ps: seq<nat>)
    requires Header(t) == Some((d.numStates, d.alphSize, d.alph, h))
    requires |d.tf| == d.numStates && |ps| == |d.tf| + 1 && ps[0] == h
    requires forall j :: 0 <= j < |ps| ==> ps[j] <= |t|
    requires forall i :: 0 <= i < |d.tf| ==> Cells(t, ps[i], d.alphSize) == Some((d.tf[i], ps[i + 1]))
    ensures Parse(t) == Some(d)
  {
    RowsFromChain(t, ps, d.tf, d.alphSize);
  }

  /** A text that starts with the rendering of d starts with d's header,
      and its table follows the newline at h. */
  lemma RenderLaid(t: seq<char>, d: Definition) returns (h: nat)
    requires Shaped(d) && At(t, 0, Render(d))
    ensures Header(t) == Some((d.numStates, d.alphSize, d.alph, h))
    ensures h < |t| && At(t, h + 1, TableText(d.tf)) && AllSpaces(t, h, h + 1)
  {
    h := |ShowNat(d.numStates)| + 1 + |ShowNat(d.alphSize)| + 1 + |d.alph|;
    HeaderOf(t, d.numStates, d.alphSize, d.alph, TableText(d.tf), h);
    OneSpace(t, h);
  }

  /** The loader reads back every definition of the grammar's shape from
      a text that starts with its rendering. */
  lemma ParseStarting(t: seq<char>, d: Definition)
    requires Shaped(d) && At(t, 0, Render(d))
    ensures Parse(t) == Some(d)
  {
    var h := RenderLaid(t, d);
    var ps := TableRead(t, h, h + 1, d.tf, d.alphSize);
    ParseOf(t, d, h, ps);
  }

  /** The loader reads back every definition of the grammar's shape from
      its rendering, whatever comment follows the table. */
  lemma ParseRender(d: Definition, comment: seq<char>)
    requires Shaped(d)
    ensures Parse(Render(d) + comment) == Some(d)
  {
    AtPrefix(Render(d), comment);
    ParseStarting(Render(d) + comment, d);
  }
}
