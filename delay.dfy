/** The per-pin length lookup of main.c (get_equiv_tracelength): find the
    pin's row by its key column, read the row's min- and max-delay fields,
    and turn them into an equivalent trace length. Number parsing (atof),
    the length formula (calc_equiv_tracelength) and number formatting are
    floating-point code and stay uninterpreted: they are passed in as a
    `Numerics` record of functions. */
module Delay {
  import opened Csv

  /** The table's column numbers, counted in commas from the row start. */
  const PinCol := 1
  const MinCol := 4
  const MaxCol := 5

  /** Size of atof_len's stack buffer: a field of up to 99 bytes fits with
      its NUL. */
  const AtofBufferSize := 100

  /** The floating-point collaborators: atof on a NUL-free text, the
      min/max/permittivity-to-length formula, and "%f" formatting. */
  datatype Numerics = Numerics(
    atof: seq<char> -> real,
    lengthOf: (real, real, real) -> real,
    format: real -> seq<char>)

  /** The messages the annotator writes to the error stream. */
  datatype Diag =
    | NoEntry(pin: seq<char>)
    | NoDelay(pin: seq<char>)
    | Length(pin: seq<char>, mm: real)
    | NotFootprint

  /** The field at (line, col) was found and fits atof_len's buffer. */
  predicate Readable(csv: seq<char>, line: nat, col: int)
  {
    FieldAt(csv, line, col).Found? && FieldAt(csv, line, col).len < AtofBufferSize
  }

  /** What get_equiv_tracelength needs from the table to be well defined:
      when the pin's row is found, both delay fields of that row are found
      and short enough to be copied. */
  predicate DelaysReadable(csv: seq<char>, pin: seq<char>)
  {
    match FirstMatch(csv, PinCol, pin)
    case None => true
    case Some(line) => Readable(csv, line, MinCol) && Readable(csv, line, MaxCol)
  }

  /** The text of the field at (line, col). */
  function FieldText(csv: seq<char>, line: nat, col: int): (t: seq<char>)
    requires FieldAt(csv, line, col).Found?
    ensures |t| == FieldAt(csv, line, col).len
    ensures forall i :: 0 <= i < |t| ==> t[i] != ','
  {
    var f := FieldAt(csv, line, col);
    csv[f.start..f.start + f.len]
  }

  /** atof_len: copy `length` bytes into a 100-byte buffer, put a NUL after
      them and parse the buffer as a C string: atof sees the given bytes up
      to their first NUL, and nothing past them. */
  method AtofLen(num: Numerics, csv: seq<char>, pos: nat, length: int) returns (d: real)
    requires 0 <= length < AtofBufferSize && pos + length <= |csv|
    ensures d == num.atof(UntilNul(csv[pos..pos + length]))
  {
    var buffer := new char[AtofBufferSize];
    forall i | 0 <= i < length {
      buffer[i] := csv[pos + i];
    }
    buffer[length] := '\0';
    UntilNulCut(buffer[..], length);
    assert buffer[..][..length] == csv[pos..pos + length];
    d := num.atof(UntilNul(buffer[..]));
  }

  /** The two parsed delays of the pin's row, when the pin is found. */
  function Delays(csv: seq<char>, pin: seq<char>, num: Numerics): Option<(real, real)>
    requires DelaysReadable(csv, pin)
  {
    match FirstMatch(csv, PinCol, pin)
    case None => None
    case Some(line) => Some((num.atof(FieldText(csv, line, MinCol)), num.atof(FieldText(csv, line, MaxCol))))
  }

  /** The length get_equiv_tracelength returns: 0.0 for an unknown pin or a
      delay that parses to 0.0, the formula's value otherwise. */
  function TraceLength(csv: seq<char>, pin: seq<char>, eps: real, num: Numerics): real
    requires DelaysReadable(csv, pin)
  {
    match Delays(csv, pin, num)
    case None => 0.0
    case Some((lo, hi)) => if lo == 0.0 || hi == 0.0 then 0.0 else num.lengthOf(lo, hi, eps)
  }

  /** The warnings get_equiv_tracelength writes: a missing entry always, a
      missing delay only when not quiet. */
  function LookupWarnings(csv: seq<char>, pin: seq<char>, num: Numerics, quiet: bool): seq<Diag>
    requires DelaysReadable(csv, pin)
  {
    match Delays(csv, pin, num)
    case None => [NoEntry(pin)]
    case Some((lo, hi)) => if (lo == 0.0 || hi == 0.0) && !quiet then [NoDelay(pin)] else []
  }

  /** One delay of a row: csv_getval locates the field and atof_len parses
      exactly its bytes. */
  method ReadDelay(csv: seq<char>, line: int, col: int, num: Numerics) returns (d: real)
    requires Terminated(csv) && line >= 0 && Readable(csv, line, col)
    ensures d == num.atof(FieldText(csv, line, col))
  {
    var length, pos := CsvGetVal(csv, line, col);
    d := AtofLen(num, csv, pos, length);
    FoundFieldText(csv, line, col);
    UntilNulOfNulFree(csv[pos..pos + length]);
  }

  /** get_equiv_tracelength: csv_findline on the key column, then
      csv_getval and atof_len on the two delay columns. */
  method GetEquivTraceLength(csv: seq<char>, pin: seq<char>, eps: real, num: Numerics, quiet: bool)
    returns (length: real, warnings: seq<Diag>)
    requires Terminated(csv) && '\0' !in pin
    requires DelaysReadable(csv, pin)
    ensures length == TraceLength(csv, pin, eps, num)
    ensures warnings == LookupWarnings(csv, pin, num, quiet)
  {
    var line := FindLine(csv, PinCol, pin);
    if line < 0 {
      return 0.0, [NoEntry(pin)];
    }
    assert FirstMatch(csv, PinCol, pin) == Some(line as nat);
    assert Readable(csv, line, MinCol) && Readable(csv, line, MaxCol);
    var mindelay := ReadDelay(csv, line, MinCol, num);
    var maxdelay := ReadDelay(csv, line, MaxCol, num);
    assert Delays(csv, pin, num) == Some((mindelay, maxdelay));
    if mindelay == 0.0 || maxdelay == 0.0 {
      warnings := if quiet then [] else [NoDelay(pin)];
      return 0.0, warnings;
    }
    length := num.lengthOf(mindelay, maxdelay, eps);
    warnings := [];
  }

  /** A pin that matches no row (no row's buffer begins with the pin at the
      start of its key field) has length 0.0 and draws the missing-entry
      warning, quiet or not. */
  lemma UnknownPinIsSkipped(csv: seq<char>, pin: seq<char>, eps: real, num: Numerics, quiet: bool)
    requires forall l :: 0 <= l ==> !MatchesAt(csv, l, PinCol, pin)
    ensures DelaysReadable(csv, pin)
    ensures TraceLength(csv, pin, eps, num) == 0.0
    ensures LookupWarnings(csv, pin, num, quiet) == [NoEntry(pin)]
  {
  }

  /** A nonzero length comes from the first row the pin matches (the buffer
      at the start of its key field begins with the pin): both of its delay fields parse to nonzero values and the
      length is the formula applied to them. */
  lemma NonzeroLengthSource(csv: seq<char>, pin: seq<char>, eps: real, num: Numerics)
    requires DelaysReadable(csv, pin) && TraceLength(csv, pin, eps, num) != 0.0
    ensures FirstMatch(csv, PinCol, pin).Some?
    ensures var line := FirstMatch(csv, PinCol, pin).value;
      && MatchesAt(csv, line, PinCol, pin)
      && (forall l :: 0 <= l < line ==> !MatchesAt(csv, l, PinCol, pin))
      && num.atof(FieldText(csv, line, MinCol)) != 0.0
      && num.atof(FieldText(csv, line, MaxCol)) != 0.0
      && TraceLength(csv, pin, eps, num)
         == num.lengthOf(num.atof(FieldText(csv, line, MinCol)), num.atof(FieldText(csv, line, MaxCol)), eps)
  {
  }

  /** The quiet flag changes only the warnings, and among them only the
      missing-delay one: the length is the same either way, and quiet mode
      writes exactly the warnings that are not NoDelay. */
  lemma QuietDropsOnlyNoDelay(csv: seq<char>, pin: seq<char>, num: Numerics)
    requires DelaysReadable(csv, pin)
    ensures LookupWarnings(csv, pin, num, true)
      == if LookupWarnings(csv, pin, num, false) == [NoDelay(pin)] then [] else LookupWarnings(csv, pin, num, false)
    ensures |LookupWarnings(csv, pin, num, false)| <= 1
  {
  }

  /** Outside quiet mode, a pad is skipped with a warning exactly when the
      pin is missing or a delay parses to 0.0; whether it is skipped at all
      also depends on the formula's value. */
  lemma LoudWarningIff(csv: seq<char>, pin: seq<char>, eps: real, num: Numerics)
    requires DelaysReadable(csv, pin)
    ensures LookupWarnings(csv, pin, num, false) != [] ==> TraceLength(csv, pin, eps, num) == 0.0
    ensures LookupWarnings(csv, pin, num, false) == [] <==>
      (FirstMatch(csv, PinCol, pin).Some? &&
       num.atof(FieldText(csv, FirstMatch(csv, PinCol, pin).value, MinCol)) != 0.0 &&
       num.atof(FieldText(csv, FirstMatch(csv, PinCol, pin).value, MaxCol)) != 0.0)
  {
  }
}
