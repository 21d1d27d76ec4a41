/** The tabular lookup engine of main.c: csv_getval and csv_findline scan a
    NUL-terminated text buffer, counting line breaks to reach a row and commas
    to reach a column. Nothing is ever split into rows or cells; every lookup
    scans again from the start of the buffer. Positions are indices into the
    buffer, as the C code's `location` counter is. */
module Csv {

  datatype Option<T> = None | Some(value: T)

  /** The buffer as the C code sees it: the file's bytes followed by the NUL
      that readfile appends, with no other NUL before it. */
  predicate Terminated(b: seq<char>) {
    |b| > 0 && b[|b| - 1] == '\0' && forall i :: 0 <= i < |b| - 1 ==> b[i] != '\0'
  }

  /** Number of occurrences of c in s[lo..hi]. */
  function Count(s: seq<char>, c: char, lo: nat, hi: nat): nat
    requires lo <= hi <= |s|
    decreases hi - lo
  {
    if lo == hi then 0 else (if s[lo] == c then 1 else 0) + Count(s, c, lo + 1, hi)
  }

  /** The number of '\n' in the buffer; rows 0 to Lines(b) exist. */
  function Lines(b: seq<char>): nat
  {
    Count(b, '\n', 0, |b|)
  }

  /** Where a scan that starts at `lo` and counts c stops once it has passed
      k of them: just past the k-th c from `lo`, or `lo` itself when k is 0.
      SkipCounts states what the scan has passed. */
  function Skip(s: seq<char>, c: char, lo: nat, k: nat): (i: nat)
    requires lo <= |s| && k <= Count(s, c, lo, |s|)
    ensures lo <= i <= |s|
    ensures k == 0 ==> i == lo
    ensures k > 0 ==> lo < i && s[i - 1] == c
    decreases |s| - lo
  {
    if k == 0 then lo
    else Skip(s, c, lo + 1, if s[lo] == c then k - 1 else k)
  }

  /** Exactly k occurrences of c lie between `lo` and Skip(s, c, lo, k). */
  lemma {:induction false} SkipCounts(s: seq<char>, c: char, lo: nat, k: nat)
    requires lo <= |s| && k <= Count(s, c, lo, |s|)
    ensures Count(s, c, lo, Skip(s, c, lo, k)) == k
    decreases |s| - lo
  {
    if k > 0 {
      SkipCounts(s, c, lo + 1, if s[lo] == c then k - 1 else k);
    }
  }

  /** The index of the first c at or after `lo`, or |s| when there is none. */
  function IndexFrom(s: seq<char>, c: char, lo: nat): (i: nat)
    requires lo <= |s|
    ensures lo <= i <= |s|
    ensures i < |s| ==> s[i] == c
    ensures forall j :: lo <= j < i ==> s[j] != c
    decreases |s| - lo
  {
    if lo == |s| || s[lo] == c then lo else IndexFrom(s, c, lo + 1)
  }

  /** What csv_getval finds for a (line, col) pair: a field of `len` bytes
      starting at `start`, or one of its three errors. */
  datatype Field = Found(start: nat, len: nat) | NoRow | NoColumn | Unterminated

  /** The return value csv_getval uses for each outcome. */
  function Code(f: Field): int
  {
    match f
    case Found(_, len) => len
    case NoRow => -1
    case NoColumn => -2
    case Unterminated => -3
  }

  /** The start of row `line`: just past the line-th '\n' of the buffer. */
  function RowStart(b: seq<char>, line: nat): nat
    requires line <= Lines(b)
  {
    Skip(b, '\n', 0, line)
  }

  /** The field at row `line`, column `col`: the row starts just past the
      line-th '\n'; the field starts just past the col-th ',' counted from
      the row start and ends at the next ','. The column count runs to the
      end of the buffer, not to the end of the row: a short row runs on into
      the next one. */
  function FieldAt(b: seq<char>, line: int, col: int): Field
  {
    if line < 0 || line > Lines(b) then NoRow
    else
      var rowStart := RowStart(b, line);
      if col < 0 || col > Count(b, ',', rowStart, |b|) then NoColumn
      else
        var start := Skip(b, ',', rowStart, col);
        var end := IndexFrom(b, ',', start);
        if end == |b| then Unterminated else Found(start, end - start)
  }

  /** A field that was found is followed by a ',' and holds neither ','
      nor NUL. */
  lemma FoundFieldText(b: seq<char>, line: int, col: int)
    requires Terminated(b) && FieldAt(b, line, col).Found?
    ensures var f := FieldAt(b, line, col);
      && f.start + f.len < |b| - 1 && b[f.start + f.len] == ','
      && forall i :: f.start <= i < f.start + f.len ==> b[i] != ',' && b[i] != '\0'
  {
  }

  /** Where a field that was found lies: its row starts just past the
      line-th '\n' of the buffer, and the field starts just past the col-th
      ',' after the row start (at the row start when col is 0). */
  lemma FoundFieldPosition(b: seq<char>, line: int, col: int)
    requires FieldAt(b, line, col).Found?
    ensures 0 <= line <= Lines(b) && 0 <= col
    ensures var start := FieldAt(b, line, col).start;
      var rowStart := RowStart(b, line);
      && Count(b, '\n', 0, rowStart) == line
      && (line > 0 ==> b[rowStart - 1] == '\n')
      && rowStart <= start
      && Count(b, ',', rowStart, start) == col
      && (col > 0 ==> b[start - 1] == ',')
  {
    var rowStart := RowStart(b, line);
    SkipCounts(b, '\n', 0, line);
    SkipCounts(b, ',', rowStart, col);
  }

  /** The first two scans of csv_getval: from `from`, step over the buffer
      until `k` occurrences of c have been passed, failing at the NUL. */
  method ScanPast(buffer: seq<char>, from: nat, c: char, k: int) returns (ok: bool, location: nat)
    requires Terminated(buffer) && from < |buffer| && c != '\0'
    ensures ok <==> 0 <= k <= Count(buffer, c, from, |buffer|)
    ensures ok ==> location == Skip(buffer, c, from, k) && location < |buffer|
  {
    location := from;
    var counter := 0;
    ghost var total := Count(buffer, c, from, |buffer|);

    while counter != k
      invariant from <= location < |buffer|
      invariant 0 <= counter
      invariant counter + Count(buffer, c, location, |buffer|) == total
      invariant k >= 0 ==> counter <= k
      invariant 0 <= k <= total ==> Skip(buffer, c, from, k) == Skip(buffer, c, location, k - counter)
      decreases |buffer| - location
    {
      if buffer[location] == '\0' {
        assert location == |buffer| - 1;
        return false, location;
      }
      if buffer[location] == c {
        counter := counter + 1;
      }
      location := location + 1;
    }
    ok := true;
  }

  /** The last scan of csv_getval: from `from` to the next ',', failing at
      the NUL. */
  method ScanField(buffer: seq<char>, from: nat) returns (ok: bool, end: nat)
    requires Terminated(buffer) && from < |buffer|
    ensures ok <==> IndexFrom(buffer, ',', from) < |buffer|
    ensures ok ==> end == IndexFrom(buffer, ',', from)
  {
    end := from;
    while buffer[end] != ','
      invariant from <= end < |buffer|
      invariant IndexFrom(buffer, ',', from) == IndexFrom(buffer, ',', end)
      decreases |buffer| - end
    {
      if buffer[end] == '\0' {
        assert end == |buffer| - 1;
        return false, end;
      }
      end := end + 1;
    }
    ok := true;
  }

  /** csv_getval: the three scans in turn. `r` is the field length or a
      negative error code; `loc` is the field's start when it was found. */
  method CsvGetVal(buffer: seq<char>, line: int, col: int) returns (r: int, loc: nat)
    requires Terminated(buffer)
    ensures r == Code(FieldAt(buffer, line, col))
    ensures r >= 0 ==> loc == FieldAt(buffer, line, col).start
  {
    var found, rowStart := ScanPast(buffer, 0, '\n', line);
    if !found {
      return -1, 0;
    }
    var start;
    found, start := ScanPast(buffer, rowStart, ',', col);
    if !found {
      return -2, 0;
    }
    loc := start;
    var end;
    found, end := ScanField(buffer, start);
    if !found {
      return -3, loc;
    }
    r := end - loc;
  }

  /** The character of a C string at index i: `s` followed by its NUL. */
  function CharAt(s: seq<char>, i: nat): char
  {
    if i < |s| then s[i] else '\0'
  }

  /** The C string held in `s`: its characters up to the first NUL. */
  function UntilNul(s: seq<char>): (t: seq<char>)
    ensures t <= s && '\0' !in t
    ensures |t| == |s| || s[|t|] == '\0'
  {
    if s == [] || s[0] == '\0' then [] else [s[0]] + UntilNul(s[1..])
  }

  /** A NUL-free text is its own C string. */
  lemma {:induction false} UntilNulOfNulFree(s: seq<char>)
    requires '\0' !in s
    ensures UntilNul(s) == s
  {
    if s != [] {
      UntilNulOfNulFree(s[1..]);
      assert s == [s[0]] + s[1..];
    }
  }

  /** A NUL at index k ends the C string: what follows it is not read. */
  lemma {:induction false} UntilNulCut(s: seq<char>, k: nat)
    requires k < |s| && s[k] == '\0'
    ensures UntilNul(s) == UntilNul(s[..k])
  {
    if k > 0 {
      UntilNulCut(s[1..], k - 1);
      assert s[1..][..k - 1] == s[..k][1..];
    }
  }

  /** strncmp(value, buffer + pos, n) == 0 with `value` a C string: characters
      are compared one by one until n have been compared, two differ, or both
      are NUL. Equivalently, the buffer agrees with `value` at every one of the
      first n positions up to and including the NUL that ends `value`. */
  predicate StrnEqual(value: seq<char>, b: seq<char>, pos: nat, n: nat)
    ensures StrnEqual(value, b, pos, n) <==>
      forall i :: 0 <= i < n && i <= |UntilNul(value)| ==> CharAt(b, pos + i) == CharAt(value, i)
    decreases n
  {
    if n == 0 then true
    else if CharAt(b, pos) != CharAt(value, 0) then false
    else if CharAt(value, 0) == '\0' then true
    else
      AgreeShift(value, b, pos, n);
      StrnEqual(value[1..], b, pos + 1, n - 1)
  }

  /** Agreement over n positions is agreement at the first and over n - 1
      positions of the rest, while `value` has not ended. */
  lemma AgreeShift(value: seq<char>, b: seq<char>, pos: nat, n: nat)
    requires n > 0 && value != [] && value[0] != '\0' && CharAt(b, pos) == value[0]
    ensures (forall i :: 0 <= i < n && i <= |UntilNul(value)| ==> CharAt(b, pos + i) == CharAt(value, i))
        <==> (forall i :: 0 <= i < n - 1 && i <= |UntilNul(value[1..])| ==> CharAt(b, pos + 1 + i) == CharAt(value[1..], i))
  {
    assert UntilNul(value) == [value[0]] + UntilNul(value[1..]);
    forall i | 0 <= i
      ensures CharAt(value[1..], i) == CharAt(value, i + 1)
    {
    }
    if forall i :: 0 <= i < n - 1 && i <= |UntilNul(value[1..])| ==> CharAt(b, pos + 1 + i) == CharAt(value[1..], i) {
      forall i | 0 <= i < n && i <= |UntilNul(value)|
        ensures CharAt(b, pos + i) == CharAt(value, i)
      {
        if i > 0 {
          assert CharAt(b, pos + 1 + (i - 1)) == CharAt(value[1..], i - 1);
        }
      }
    }
  }

  /** The prefix test csv_findline applies: the |value| bytes at `pos` are
      `value`; the field may go on after them. */
  predicate PrefixAt(b: seq<char>, pos: nat, value: seq<char>)
  {
    pos + |value| <= |b| && b[pos..pos + |value|] == value
  }

  /** strncmp bounded by strlen(value) is exactly the prefix test. */
  lemma {:induction false} StrnEqualIsPrefix(value: seq<char>, b: seq<char>, pos: nat)
    requires '\0' !in value
    requires Terminated(b) && pos < |b|
    ensures StrnEqual(value, b, pos, |value|) <==> PrefixAt(b, pos, value)
    decreases |value|
  {
    if value == [] {
      assert b[pos..pos] == [];
    } else if b[pos] != value[0] {
      assert !PrefixAt(b, pos, value) by {
        if pos + |value| <= |b| {
          assert b[pos..pos + |value|][0] == b[pos];
        }
      }
    } else {
      assert value[0] != '\0';
      StrnEqualIsPrefix(value[1..], b, pos + 1);
      if PrefixAt(b, pos + 1, value[1..]) {
        assert b[pos..pos + |value|] == [b[pos]] + b[pos + 1..pos + 1 + |value[1..]|];
      }
      if PrefixAt(b, pos, value) {
        assert b[pos + 1..pos + 1 + |value[1..]|] == b[pos..pos + |value|][1..];
      }
    }
  }

  /** Row `line` satisfies csv_findline: its field in column `col` exists,
      and the buffer from the field's start begins with `value`. The
      comparison is not bounded by the field: for a key without ',' it is
      the field starting with the key (MatchWithinField), but a key holding
      ',' can match across the field's end (KeyWithCommaCrossesField). */
  predicate MatchesAt(b: seq<char>, line: int, col: int, value: seq<char>)
  {
    FieldAt(b, line, col).Found? && PrefixAt(b, FieldAt(b, line, col).start, value)
  }

  /** The first matching row at or after `from`, among the rows 0 to
      Lines(b), the only rows there are. */
  function FirstMatchFrom(b: seq<char>, col: int, value: seq<char>, from: nat): (r: Option<nat>)
    ensures r.Some? ==> from <= r.value <= Lines(b) && MatchesAt(b, r.value, col, value)
    ensures r.Some? ==> forall l :: from <= l < r.value ==> !MatchesAt(b, l, col, value)
    ensures r.None? ==> forall l :: from <= l ==> !MatchesAt(b, l, col, value)
    decreases Lines(b) + 1 - from
  {
    if from > Lines(b) then None
    else if MatchesAt(b, from, col, value) then Some(from)
    else FirstMatchFrom(b, col, value, from + 1)
  }

  /** The row csv_findline is after: the lowest matching row, if any. */
  function FirstMatch(b: seq<char>, col: int, value: seq<char>): Option<nat>
  {
    FirstMatchFrom(b, col, value, 0)
  }

  /** csv_findline: tries rows 0, 1, 2, ... and returns the first where the
      buffer at the start of the field in column `col` begins with `value`;
      rows whose field is missing or unterminated are passed over; -1 at the
      first row index with no row. */
  method FindLine(buffer: seq<char>, col: int, value: seq<char>) returns (r: int)
    requires Terminated(buffer) && '\0' !in value
    ensures r == match FirstMatch(buffer, col, value) case Some(l) => l case None => -1
    ensures r >= 0 ==> MatchesAt(buffer, r, col, value)
    ensures r >= 0 ==> forall l :: 0 <= l < r ==> !MatchesAt(buffer, l, col, value)
    ensures r < 0 ==> r == -1 && forall l :: 0 <= l ==> !MatchesAt(buffer, l, col, value)
  {
    var line := 0;
    while true
      invariant 0 <= line <= Lines(buffer) + 1
      invariant FirstMatchFrom(buffer, col, value, line) == FirstMatch(buffer, col, value)
      decreases Lines(buffer) + 1 - line
    {
      var retval, pos := CsvGetVal(buffer, line, col);
      if retval == -1 {
        assert line > Lines(buffer);
        return -1;
      } else if retval == -2 || retval == -3 {
        assert !MatchesAt(buffer, line, col, value);
      } else {
        StrnEqualIsPrefix(value, buffer, pos);
        if StrnEqual(value, buffer, pos, |value|) {
          return line;
        }
        assert !MatchesAt(buffer, line, col, value);
      }
      assert FirstMatchFrom(buffer, col, value, line) == FirstMatchFrom(buffer, col, value, line + 1);
      line := line + 1;
    }
  }

  /** Column 1 of row 0 is found on row 1 when row 0 has a single field:
      the column scan does not stop at the line break. */
  lemma ShortRowRunsOn()
    ensures FieldAt("a\nb,c,\0", 0, 1) == Found(4, 1)
  {
    var b := "a\nb,c,\0";
    assert Count(b, '\n', 0, 7) == 1;
    assert Count(b, ',', 0, 7) == 2;
    assert Skip(b, ',', 0, 1) == 4;
    assert IndexFrom(b, ',', 4) == 5;
  }

  /** For a key without ',', a row matches exactly when its field was found,
      is at least as long as the key, and begins with the key. */
  lemma MatchWithinField(b: seq<char>, line: int, col: int, value: seq<char>)
    requires Terminated(b) && ',' !in value
    ensures MatchesAt(b, line, col, value) <==>
      && FieldAt(b, line, col).Found?
      && |value| <= FieldAt(b, line, col).len
      && b[FieldAt(b, line, col).start..FieldAt(b, line, col).start + |value|] == value
  {
    if MatchesAt(b, line, col, value) {
      var f := FieldAt(b, line, col);
      FoundFieldText(b, line, col);
      assert b[f.start + f.len] == ',';
    }
  }

  /** A key holding ',' is compared past the field's closing ',': on the row
      "x,A,1," the field in column 1 is "A", yet the key "A,1" matches. */
  lemma KeyWithCommaCrossesField()
    ensures FieldAt("x,A,1,\0", 0, 1) == Found(2, 1)
    ensures MatchesAt("x,A,1,\0", 0, 1, "A,1")
  {
    var b := "x,A,1,\0";
    assert Count(b, ',', 0, 7) == 3;
    assert Skip(b, ',', 0, 1) == 2;
    assert IndexFrom(b, ',', 2) == 3;
    assert b[2..5] == "A,1";
  }

  /** The field scan does not stop at '\n' either: on "A,1\nB,2," the field
      in column 1 of row 0 is "1\nB", running into row 1. */
  lemma FieldRunsOn()
    ensures FieldAt("A,1\nB,2,\0", 0, 1) == Found(2, 3)
  {
    var b := "A,1\nB,2,\0";
    assert Count(b, ',', 0, 9) == 3;
    assert Skip(b, ',', 0, 1) == 2;
    assert IndexFrom(b, ',', 2) == 5;
  }

  /** The key "A1" matches a row whose key is "A10", so a row listed before
      the exact one wins. */
  lemma PrefixMatchesLongerKey()
    ensures FirstMatch("x,A10,\nx,A1,\0", 1, "A1") == Some(0)
  {
    var b := "x,A10,\nx,A1,\0";
    assert Count(b, '\n', 0, 13) == 1;
    assert Count(b, ',', 0, 13) == 4;
    assert Skip(b, ',', 0, 1) == 2;
    assert IndexFrom(b, ',', 2) == 5;
    assert b[2..4] == "A1";
    assert MatchesAt(b, 0, 1, "A1");
  }

  /** A last field with no ',' after it before the NUL is unterminated: on
      the table "A,1\nB,2" the code finds column 0 of row 1 but reports
      column 1, the last, as unterminated. */
  lemma LastFieldUnterminated()
    ensures FieldAt("A,1\nB,2\0", 1, 0) == Found(4, 1)
    ensures FieldAt("A,1\nB,2\0", 1, 1) == Unterminated
  {
    var b := "A,1\nB,2\0";
    assert Count(b, '\n', 0, 8) == 1;
    assert Skip(b, '\n', 0, 1) == 4;
    assert Count(b, ',', 4, 8) == 1;
    assert IndexFrom(b, ',', 4) == 5;
    assert Skip(b, ',', 4, 1) == 6;
    assert IndexFrom(b, ',', 6) == 8;
  }
}
