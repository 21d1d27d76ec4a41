# ipl-xilinxkicad: die-length annotation, modelled in Dafny

ipl-xilinxkicad reads a KiCad footprint (an s-expression tree) and a Xilinx
package-delay table (comma-separated text). For every pad of the footprint,
it appends a `(die_length <mm>)` property holding the pad's internal
package length. This project models the core of `main.c` and proves it
correct against specification functions:

- **csv.dfy** (`module Csv`) models the table lookup.
  - `csv_getval` finds a field by counting line breaks and then commas
    from the start of the NUL-terminated buffer. It has three error codes.
  - `csv_findline` returns the first row where the buffer, read from the
    start of the field in a given column, begins with a key.
  - The buffer is a `seq<char>` ending in its only NUL. Positions are
    indices, as the C code's `location` counter is.
  - The three scans are `while` loops proved against `Count`, `Skip` and
    `IndexFrom`. `FieldAt` states what `csv_getval` finds.
  - `FindLine` is proved to return the lowest matching row (`FirstMatch`).
    It terminates because row indices past the last line break report
    "no row".
- **delay.dfy** (`module Delay`) models `get_equiv_tracelength`: the
  per-pin lookup and skip logic. Three pieces of floating-point code stay
  uninterpreted and are passed in as a `Numerics` record:
  - `atof`;
  - the length formula of `calc_equiv_tracelength`;
  - `%f` formatting.
- **sexp.dfy** (`module Sexp`) models the parsed tree as it sits in the
  heap.
  - `Node` is a class with a mutable `next` field.
  - A ghost `Shape` says which node sits where.
  - `Linked` states that the `next` fields really form that layout.
  - `ToTree` reads the layout back as a plain `Tree` value.
  - `SexpGetLast` walks a sibling chain to its last node.
  - `AppendLast` performs the single heap write of the annotator.
- **annotate.dfy** (`module Annotate`) models `add_pkg_delays` in two
  halves.
  - The pure half is `Annotate`, which gives the tree after the pass, and
    `Diags`, which gives the messages written to the error stream.
  - The in-place half is the pass on the linked nodes: `AddPkgDelays` and
    its loop `AnnotateKids`. It is proved to leave exactly
    `Annotate(...)` in the heap and to write exactly `Diags(...)`.
  - The heap-side proofs track each step through a ghost map from nodes
    to their `next` field (`Holds`, `Layout`). New nodes are shown to be
    fresh and disjoint from the existing tree.

The `quiet` flag becomes a parameter. Diagnostics become a returned
sequence of `Diag` values: the text of each message is not modelled, only
which message is written, in which order, and with which pin and length.

In a few places the code does something a reader might not expect, and
the model keeps the code's behaviour:

- A column lookup does not stop at the end of its row. The comma count
  runs on into the next line until the NUL: `ShortRowRunsOn` exhibits a
  one-field row whose column 1 is found on the next line.
- The field scan does not stop at a line break either: it runs to the
  next ','. `FieldRunsOn` shows the last field of a row that lacks its
  closing ',' taking in the start of the next row.
- A key is compared with the buffer from the field's start, by `strncmp`
  bounded by the key's length. The comparison is not bounded by the
  field. For a key without ',' this means the field begins with the key
  (`MatchWithinField`): `PrefixMatchesLongerKey` shows "A1" matching
  "A10". A key holding ',' can match across the field's closing ','
  (`KeyWithCommaCrossesField`).
- The last field of a table that does not end in a comma is reported as
  unterminated (-3), never found (`LastFieldUnterminated`).
- The table columns are comma counts: key 1, minimum delay 4, maximum
  delay 5, as at main.c lines 11-13.

## Model

| member | source | states |
|---|---|---|
| Csv.Skip | main.c:22-28 | a scan that passes k occurrences of a character stops at or after its start, just after the k-th occurrence (at the start when k is 0) |
| Csv.SkipCounts | main.c:22-35 | exactly k occurrences of the character lie between the scan's start and where it stops |
| Csv.IndexFrom | main.c:40-44 | the field scan stops at the first ',' at or after its start, or at the end of the buffer if there is none; every byte before that point is not ',' |
| Csv.FoundFieldText | main.c:38-46 | a field that was found is closed by a ',' before the NUL, and its bytes hold neither ',' nor NUL |
| Csv.FoundFieldPosition | main.c:22-38 | a field that was found lies in row `line`: its row starts just past the line-th '\n'; the field starts just past the col-th ',' after the row start |
| Csv.ScanPast | main.c:22-36 | the row and column scans succeed exactly when 0 <= k and at least k occurrences remain before the NUL; on success they stop just past the k-th one |
| Csv.ScanField | main.c:40-44 | the field scan succeeds exactly when a ',' follows before the NUL, and then stops on the first ',' |
| Csv.CsvGetVal | main.c:17-47 | the result is -1 for a missing row, -2 for a missing column, -3 for an unterminated field, otherwise the field's length with `loc` at its start |
| Csv.UntilNul | main.c:67 | the C string held in a buffer is a NUL-free prefix of it, ending at the buffer's end or at its first NUL |
| Csv.UntilNulOfNulFree | main.c:65-67 | a NUL-free text is its own C string |
| Csv.UntilNulCut | main.c:66-67 | a NUL at index k ends the C string: nothing after it is read |
| Csv.StrnEqual | main.c:58 | `strncmp(value, pos, n) == 0` holds exactly when the buffer agrees with `value` at each of the first n positions, up to and including the NUL that ends `value` |
| Csv.StrnEqualIsPrefix | main.c:58 | `strncmp(value, pos, strlen(value)) == 0` holds exactly when the buffer at `pos` starts with `value` |
| Csv.FirstMatchFrom | main.c:52-59 | the result is a row at or after `from` that matches, with no matching row between `from` and it; None means no row at or after `from` matches |
| Csv.FindLine | main.c:49-61 | returns the lowest row where the buffer from the start of its field in column `col` begins with `value`, or -1 exactly when no row matches; rows with a missing or unterminated field are passed over; the loop terminates |
| Csv.ShortRowRunsOn | main.c:30-36 | on "a\nb,c," column 1 of row 0 is found on row 1: the column scan does not stop at '\n' |
| Csv.PrefixMatchesLongerKey | main.c:58 | the key "A1" matches a row holding "A10", so an earlier "A10" row wins over a later "A1" row |
| Csv.MatchWithinField | main.c:56-58 | for a key without ',', a row matches exactly when its field was found, is at least as long as the key, and begins with the key |
| Csv.KeyWithCommaCrossesField | main.c:58 | on "x,A,1," the field in column 1 is "A", yet the key "A,1" matches: the comparison runs past the field's closing ',' |
| Csv.FieldRunsOn | main.c:40-44 | on "A,1\nB,2," the field in column 1 of row 0 is "1\nB": the field scan does not stop at '\n' |
| Csv.LastFieldUnterminated | main.c:40-44 | on "A,1\nB,2" column 0 of row 1 is found, but column 1 is unterminated: a last field needs a closing ',' |
| Delay.FieldText | main.c:82-83 | the text of a found field has the field's length and holds no ',' |
| Delay.AtofLen | main.c:63-68 | copying `length` bytes into the 100-byte buffer, putting a NUL after them and parsing gives `atof` of those bytes up to their first NUL |
| Delay.ReadDelay | main.c:82-83 | csv_getval followed by atof_len parses exactly the bytes of the field at (line, col) |
| Delay.GetEquivTraceLength | main.c:75-90 | the length is 0.0 for an unknown pin or a zero delay, otherwise the formula on the row's two parsed delays; the warnings are a missing entry (always) or a missing delay (outside quiet mode) |
| Delay.UnknownPinIsSkipped | main.c:77-81 | a pin that no row matches has length 0.0 and draws the missing-entry warning, quiet or not |
| Delay.NonzeroLengthSource | main.c:77-89 | a nonzero length comes from the first matching row: both of its delay fields parse to nonzero values, and the length is the formula applied to them |
| Delay.QuietDropsOnlyNoDelay | main.c:84-87 | quiet mode drops the missing-delay warning and nothing else; there is at most one lookup warning |
| Delay.LoudWarningIff | main.c:78-88 | outside quiet mode, a lookup warns exactly when the pin is missing or a delay parses to 0.0, and a warning implies length 0.0 |
| Sexp.Node.NewAtom | main.c:160-161 | a new atom holds the given text and is detached: no children, no `next` |
| Sexp.Node.NewList | main.c:165 | a new list starts its children at the given node and is detached: no `next` |
| Sexp.SexpGetLast | main.c:126-130 | following `next` from the first node of a chain ends at the chain's last node, whose `next` is null |
| Sexp.LayoutAppend | main.c:166 | pointing the last child's `next` at a detached subtree makes it the list's new last child; the other children keep their layout |
| Sexp.ToTreeAppend | main.c:166 | the grown list reads back as the old list's value with the new child's value appended |
| Sexp.DistinctAppend | main.c:160-166 | a subtree disjoint from a tree can be added as the tree's last child; the result is still a tree, holding the nodes of both |
| Sexp.PairNodes | main.c:160-165 | the new property list holds exactly its three nodes, none twice, and reads back as the two atoms' texts |
| Sexp.PairLayout | main.c:163-165 | `list` pointing at the name atom, the name's `next` at the value atom and the value's `next` at null lay out the two-atom list |
| Sexp.AppendLast | main.c:166 | after the write, the list is the old list with `t` as its last child, only the old last child's `next` changed, and the heap holds the new layout |
| Annotate.Printed | main.c:161-162 | the value text is the formatted length cut to the 19 bytes that fit the 20-byte buffer: the whole text when it fits, otherwise a 19-byte prefix |
| Annotate.RejectsNonModule | main.c:133-138 | the pass gives no tree exactly when the root is not a list headed by the atom "module", and then writes the single rejection message |
| Annotate.OnlyGrowingPadsChange | main.c:146-167 | a child of the root changes exactly when it is a pad with a nonzero length; it then keeps its children in order and gains one last child `(die_length <value>)`; non-pads, zero-length pads and deeper pads are unchanged |
| Annotate.UnknownPadUnchanged | main.c:152-154 | a pad whose pin matches no row is left as it was and draws the missing-entry message |
| Annotate.QuietOnly | main.c:156-158 | quiet mode keeps no more messages than it is given, and each one it keeps is a missing-entry or rejection message |
| Annotate.QuietOnlyAppend | main.c:146-167 | filtering for quiet mode distributes over concatenation of message sequences |
| Annotate.ChildQuiet | main.c:152-158 | for one child, quiet mode writes exactly the always-written messages of loud mode |
| Annotate.KidsQuiet | main.c:146-167 | for the first n children, quiet mode writes exactly the always-written messages of loud mode |
| Annotate.QuietKeepsOnlyAlways | main.c:132-168 | for the whole pass, quiet mode writes exactly the missing-entry and rejection messages that loud mode writes, in the same order |
| Annotate.NewDieLength | main.c:160-165 | builds a detached, fresh `(die_length <value>)` list of three new nodes whose heap layout is that value |
| Annotate.AddProperty | main.c:160-166 | the pad's value gains `(die_length <value>)` as its last child; it stays a tree in the heap; new nodes are fresh; no `next` outside the pad's children changes |
| Annotate.EntryView | main.c:147-152 | the node-level head test (list, first child an atom with text `tag`) is the value-level test, and a pad's pin node is its first child's `next` |
| Annotate.NotPadStep | main.c:147-150 | a child that is not a pad is left as it is and draws no message |
| Annotate.ChildOfModule | main.c:147-152 | every child of a module root is ready for the pass, and a pad's pin is a C string |
| Annotate.VisitChild | main.c:147-166 | one turn of the loop on one child: its messages are the child's messages, and its new value is the child after the pass |
| Annotate.ReplaceChild | main.c:146-167 | replacing a child by a grown layout of the same node keeps the root a tree whose nodes are the old ones plus the new ones |
| Annotate.VisitAt | main.c:146-167 | one turn of the loop seen from the root: only child i changes, to its value after the pass; the root stays a tree in the heap and gains only fresh nodes |
| Annotate.AdvanceTrees | main.c:146-167 | after child i is visited, children 0 to i hold their values after the pass and later children are untouched |
| Annotate.AnnotateFromChildren | main.c:146-167 | a root whose children each hold their value after the pass holds `Annotate` of the old root |
| Annotate.AnnotateKids | main.c:146-167 | walking the children along `next` leaves each child as the pass defines it and writes the children's messages in order; the root stays a tree; its old nodes are kept; new nodes are fresh |
| Annotate.AddPkgDelays | main.c:132-168 | returns -1 and changes no `next` field when the root is not `(module ...)`; otherwise returns 0 and the heap holds `Annotate` of the old tree; the messages are `Diags`; the old nodes are kept and new nodes are fresh |

## Left out

- File and console I/O are not modelled: `readfile`, `writefile`, `print_help`, the option handling of `main`, and `main` ignoring the result of `add_pkg_delays`.
- The s-expression library is not part of this model: `parse_sexp`, `print_sexp`, `sexp_cleanup`, and the atom kinds it records. The tree arrives already parsed and linked. `new_sexp_atom` and `new_sexp_list` are modelled as the two `Node` constructors.
- `atof`, `calc_equiv_tracelength` and `snprintf("%f")` are floating-point code. They stay uninterpreted functions (`Numerics`), and lengths are `real`.
- Printed: models the 20-byte buffer only as a cut of the formatted text to 19 bytes. Where the text sits inside the buffer that `new_sexp_atom` allocated is not modelled.
- The stderr messages are modelled as `Diag` values, not as formatted text.
- Integer widths are not modelled. The `int` counters of `csv_getval` are unbounded, so a table of more than 2^31 bytes is not covered.
- GetEquivTraceLength: requires `DelaysReadable`, which excludes three undefined cases:
  - the order in which the arguments at main.c lines 82-83 are evaluated;
  - a negative `csv_getval` result passed to `memcpy`;
  - a delay field of 100 or more bytes overflowing `atof_len`'s buffer.

  For a readable row, the model takes the order in which `pos` is set before it is read.
- AddPkgDelays: requires a non-empty root list and, under a module root, non-empty child lists and pads whose second child is an atom (`Ready`, `ChildReady`). The code dereferences null pointers on the other trees.
- AddPkgDelays: returns 0 on success. The code reaches the end of the function without a `return`.
