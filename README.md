# A verified model of the turing simulation engine

This project models the engine of the ncurses Turing-machine simulator
(`turing.c`, `turing.h`) in Dafny and proves what it promises.

- **The data model** of `turing.h` is in module `Types`: directions encoded
  as -1/+1, states with the `HALT` sentinel -1, transitions (`Step`), undo
  records (`Backstep`, a `Step` read as {erased symbol, head return, former
  state}), and machine definitions with the range conditions of the TM file
  grammar.
- **The tape** is in module `Tapes`. It is a class over an `array` with an
  integer head. `Expand` doubles the buffer in a loop and re-centres the old
  contents in the middle half, as `expand` does. Lemmas state what happens on
  an even tape and on an odd one.
- **The machine** is in module `Machines`. `Machine.DoStep` and
  `Machine.DoBStep` update the tape, state and `History` in place. Each is
  proved against a pure function on configurations: `Forward` and `Backward`.
  The history is a class whose buffer doubles when it fills.
  - The main theorem is `Reversible`: after any number of forward steps,
    undoing every logged record gives back the initial configuration,
    expanded as many times as the tape grew.
  - `GrowTimesKeepsView` shows that expansion changes no cell relative to the
    head.
- **The loader** is in module `Loader`: the parsing half of `load_machine`,
  walking one cursor over the file text. It reads NS and AS as unsigned
  decimals, skips one separator, copies AS raw alphabet characters, and then
  reads NS rows of AS cells `SYM DIR NEXT`. In a cell, `'<'` is LEFT and any
  other character RIGHT, and NEXT is signed. `ParseDefinition` is the nested
  loop; `Parse` is the function it is proved equal to.
- **The text format** is in module `Format`. It writes the grammar of
  `turing.h` as text (`Render`) and proves that the loader reads any such
  text back, whatever comment follows it (`ParseRender`). The repository has
  no serializer: `save_machine` is declared but never defined. `Render` is
  therefore the grammar itself, written as a function.

The following are parameters or values rather than effects:
- File reading is an `Option<seq<char>>` argument: `None` stands for a file
  that cannot be opened or read. The sequence is the file's bytes, one
  `char` per byte, as the C code copies them (`symbol` is `char`,
  turing.c:72); a multi-byte character is several symbols, not one.
- The end of the text plays the part of the NUL terminator that `strtoul`
  and `strtol` stop at.

Points where the file format behaves as the code reads it:
- HALT must be written `-1`, because NEXT is read with `strtol`
  (turing.c:83). The instruction display draws it as `H` (main.c:100-101),
  which the loader does not read.
- A numeral with no digits reads as 0 and leaves the cursor where it was,
  as `strtoul` does. It is not a parse failure.
- Exactly one character is skipped between AS and the alphabet.
- Snapshot loading always yields no machine.

## Model

| member | source | states |
|---|---|---|
| Types.DirValue | turing.h:23-26 | LEFT is encoded -1 and RIGHT +1, and -1 is exactly LEFT |
| Types.Opposite | turing.c:137 | the head return of an undo record is the direction encoded as the negation of the move, never the move itself |
| Types.IsStateIndex | turing.h:31-32 | HALT (-1) is never a row index of the table |
| Types.ValidStep | turing.h:90-93 | a transition prints a symbol in [0;AS[ and moves to a state in [0;NS[ or to HALT |
| Types.WellFormed | turing.h:84-98 | a definition has AS alphabet characters, a positive AS (so the blank, symbol 0, exists) and NS rows of AS valid transitions |
| Types.Lookup | turing.c:133 | tf[s][a] of a well-formed definition is a well-formed transition of row s |
| Tapes.Shift | turing.c:117 | a quarter of the doubled size is half the old size on an even tape, and rounds down on an odd one |
| Tapes.Expanded | turing.c:112-122 | the expanded buffer is twice as long as the old one |
| Tapes.Read | turing.c:122 | the line outside the buffer reads as blank; inside, it reads a buffer cell |
| Tapes.ExpandKeepsEvenTape | turing.c:107-122 | on an even tape, the new size is even, the middle half holds the old cells in order, and the rest is blank |
| Tapes.ExpandDropsLastOddCell | turing.c:107-108 | on an odd tape, expansion keeps every cell but the last, and the last one's place reads blank |
| Tapes.ExpandKeepsCell | turing.c:93-109 | on an even tape every cell of the line, read Shift places further right, is unchanged by expansion |
| Tapes.Tape.constructor | turing.c:33 | the tape record holds the given buffer, size, head and blank |
| Tapes.Tape.Expand | turing.c:110-126 | the loop fills a fresh buffer of twice the size with exactly Expanded(old contents), and the head moves by Shift; the tape stays valid when the head was at most one cell outside it |
| Machines.Grow | turing.c:149-150 | expansion doubles the buffer and keeps the state |
| Machines.BackRecord | turing.c:137 | the logged record holds an alphabet symbol, a row index, and the negated move |
| Machines.Forward | turing.c:128-151 | a forward step keeps a configuration well-formed: even buffer, head inside it, state a row or HALT, cells in the alphabet |
| Machines.Backward | turing.c:157-162 | a backward step keeps the buffer size and leaves the head inside it |
| Machines.Run | turing.c:128-146 | k steps give a well-formed configuration and at most k undo records |
| Machines.ForwardHead | turing.c:145-150 | after a step the head is inside the buffer; a left move from 0 expands and leaves the head at Shift - 1, a right move from the end expands and leaves it at 3 * Shift, any other move changes the head by the move alone |
| Machines.ForwardEffect | turing.c:144-150 | a step sets the new state, writes the printed symbol under the old head, moves the head by one, and changes no other cell of the line, with positions offset by Shift when the tape grew |
| Machines.HaltIsFixed | turing.c:130 | from HALT, any number of steps changes nothing and logs nothing |
| Machines.GrowThenBackward | turing.c:155-162 | on an even buffer, replaying a record commutes with expansion |
| Machines.GrowThenUndo | turing.c:153-163 | on an even buffer, undoing a whole history commutes with expansion |
| Machines.GrowTimesThenUndo | turing.c:153-163 | undoing a whole history commutes with any number of expansions |
| Machines.UndoKeepsSize | turing.c:153-163 | back-steps never change the buffer size |
| Machines.GrowTimesAdd | turing.c:110-126 | growing a times and then b times is growing a + b times |
| Machines.StepBackStep | turing.c:128-163 | replaying the record a step logs restores the former state, head and cell, with the configuration expanded once if the step grew the tape |
| Machines.StepKeepsReplayable | turing.c:136-146 | a step keeps its history replayable once the new record is appended; undoing the longer history ends where undoing the old one did, expanded if the tape grew |
| Machines.Reversible | turing.c:128-163 | after any number of forward steps, undoing every logged record returns to the initial configuration, up to the expansions made on the way |
| Machines.GrowTimesKeepsView | turing.c:93-109 | after any number of expansions, the state and every cell at a given distance from the head are unchanged |
| Machines.BackwardKeepsOk | turing.c:153-163 | replaying a well-formed record keeps the configuration well-formed |
| Machines.History.constructor | main.c:119-122 | a new history is empty with the given capacity |
| Machines.History.Push | turing.c:136-142 | a record is appended; when the buffer becomes full, its capacity doubles and the records are carried over, so a free slot always remains |
| Machines.Machine.constructor | turing.c:27-44 | a new machine keeps the given alphabet, table and start state, on a fresh tape of 42 blank cells with the head at 21 and blank 0 |
| Machines.Machine.Advance | turing.c:144-150 | writing, moving, changing state and expanding when the head left the buffer give exactly Forward of the old configuration, and keep the machine ready |
| Machines.Machine.DoStep | turing.c:128-151 | the new configuration is Forward of the old one; in HALT the tape is untouched, nothing is logged and the history buffer and capacity are unchanged; otherwise exactly BackRecord is appended, history capacity doubles when full, and a replayable history stays replayable |
| Machines.Machine.DoBStep | turing.c:153-163 | with an empty history nothing changes; otherwise the last record is popped and the configuration becomes Backward of the old one with that record; the tape never grows |
| Loader.DigitValue | turing.c:69 | a digit character has value ch - '0' |
| Loader.SkipSpaces | turing.c:69 | the cursor moves to the first character that is not white space |
| Loader.DigitsEnd | turing.c:69 | the cursor moves past the run of digits, to a character that is not a digit |
| Loader.ReadUnsigned | turing.c:69-70 | the cursor stops right after a digit that no further digit follows; the cursor moves exactly when a digit follows the white space, and with no digit there the result is 0 with the cursor unmoved |
| Loader.ReadSigned | turing.c:83 | as ReadUnsigned, with an optional '-' or '+' before the digits; a sign with no digit after it reads as 0 with the cursor unmoved |
| Loader.ParseCell | turing.c:80-84 | a cell read moves the cursor forward |
| Loader.CellDirection | turing.c:81-82 | a cell is read exactly when SYM is followed by a character; that character is the direction, LEFT if and only if it is '<' |
| Loader.Cells | turing.c:79-85 | a row read gives exactly AS cells |
| Loader.Rows | turing.c:77-86 | a table read gives exactly NS rows of AS cells each |
| Loader.Header | turing.c:68-73 | the alphabet read is AS characters long and ends inside the text |
| Loader.Parse | turing.c:67-90 | a parsed definition has an AS-character alphabet and NS rows of AS cells |
| Loader.CellsFromChain | turing.c:79-85 | reading cells one after the other, each from where the last one stopped, is reading the whole row |
| Loader.RowsFromChain | turing.c:77-86 | reading rows one after the other is reading the whole table |
| Loader.CellsFailForever | turing.c:79-85 | once a cell cannot be read, no longer row can be |
| Loader.RowsFailForever | turing.c:77-86 | once a row cannot be read, no longer table can be |
| Loader.ParseDefinition | turing.c:67-90 | the nested loops compute exactly Parse(text), including the failure cases |
| Loader.LoadMachine | turing.c:48-91 | no machine in snapshot mode or when the file cannot be read; otherwise a machine exactly when the text parses, built in state 0 on a fresh blank tape from the parsed definition |
| Format.DigitChar | turing.h:84-85 | the character written for a digit reads back as that digit |
| Format.CellText | turing.h:90-93 | STEP is SYM, then '<' or '>' for the direction, then NS, with HALT written -1 (read back by ParseCellAt) |
| Format.RowText | turing.h:89 | ST is the AS steps of a row, each followed by a space (read back by RowRead) |
| Format.TableText | turing.h:88 | TF is the NS rows, each followed by a newline (read back by TableRead) |
| Format.HeaderText | turing.h:82-86 | NS, a newline, AS, a newline, ALPH and a newline, then the table (read back by HeaderOf) |
| Format.Render | turing.h:82 | TMFILE without the snapshot suffix: the header followed by the table (read back by ParseRender) |
| Format.ShowNat | turing.h:84-85 | a written numeral is never empty |
| Format.AtDigits | turing.h:91 | a written numeral is all digits, and its decimal value is the number written |
| Format.ReadUnsignedAt | turing.c:69-70 | strtoul reads back a written numeral that follows white space and precedes a non-digit, stopping right after it |
| Format.ReadSignedPlus | turing.c:83 | strtol reads a numeral with an explicit '+' after white space as its value |
| Format.ParseCellAt | turing.c:80-84 | a written cell `SYM DIR NS` that follows white space and precedes a space is read back exactly, with the cursor on that space |
| Format.RowRead | turing.c:79-85 | a written row is read back cell by cell, stopping on its last space |
| Format.TableRead | turing.c:77-86 | a written table is read back row after row; each row read starts where the last one stopped |
| Format.HeaderOf | turing.c:67-73 | a written header NS, AS and ALPH is read back, and the table starts after the newline that follows the alphabet |
| Format.ParseStarting | turing.h:79-93 | a text that starts with the rendering of a definition of the grammar's shape parses as exactly that definition |
| Format.ParseRender | turing.h:79-93 | the loader reads back every definition of the grammar's shape from its rendering, whatever comment follows |

## Left out

- File I/O of `load_machine` (`open`, `lseek`, `calloc`, `read`, `close`; turing.c:54-65). The file's text is an argument, and `None` stands for a file that cannot be opened or read.
- Reads past the end of the buffer. `load_machine` does not NUL-terminate the buffer it reads. The model treats the end of the text as the terminator of a numeral. An alphabet or direction character that would lie past the end makes the parse yield no definition; C reads out of bounds there.
- Snapshot parsing and `save_machine`. Snapshot mode returns no machine (turing.c:50-51), as modelled. `save_machine` is declared but never defined.
- The exact C library semantics of `strtoul` and `strtol`: overflow, the `0x` prefix of other bases, the sign accepted by `strtoul`, and the `(state)` cast of a `long`. A numeral reads as its unbounded value.
- Machine word arithmetic. The C head is unsigned, and a left move from 0 wraps around before `expand` wraps it back. The model uses an integer head with an explicit outside-the-buffer check, which gives the same head. Sizes are unbounded naturals; the `assert(size < INT_MAX)` of `expand` becomes a precondition `2 * size < INT_MAX`.
- Machines.Machine.DoStep: requires room to double the tape (`2 * size < INT_MAX`) when the step leaves the buffer, instead of modelling the abort of the C `assert`.
- Machines.History.Push: the doubling of the history's capacity is unbounded. The C `realloc` result and multiplication overflow are not modelled.
- Memory management (`malloc`, `free`, `realloc`) and pointer identity; fresh arrays stand for new buffers.
- Range checks the loader does not make. The loader never checks that SYM is below AS or NEXT is below NS (turing.c:46). `WellFormed` states these ranges; stepping requires them instead of their being checked on load.
- All of `main.c`: rendering, keyboard commands, view panning and playback pacing. The only fact taken from it is the history capacity 42 it allocates (main.c:119-122), a constructor argument here.
