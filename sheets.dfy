/** The spreadsheet client (`SheetsService`, src/services/sheets.ts): how rows
    of the sheet become participants, which cells an update writes, how the
    system columns are added to the header, and the A1 column letters.

    The HTTP layer is an oracle: every read is a `Response` (the `values` grid
    of a successful reply, or the status text of a failed one) handed in as a
    parameter, and every request the client issues is returned in a `Call`
    log, so that "no write was issued" can be stated. */
module Sheets {
  import opened Wrappers
  import opened Types

  type Row = seq<string>
  type Grid = seq<Row>

  /** The reply to a `values` GET: the grid, or the status text of a non-OK reply. */
  type Response = Result<Grid, string>

  datatype SheetsError =
    | ReadFailed(statusText: string)        // "Failed to read data: …"
    | RowNumberRequired                     // "Row number is required for update"
    | HeaderReadFailed(statusText: string)  // "Failed to read headers: …"
    | UpdateFailed(statusText: string)      // "Failed to update participant: …"
    | AddColumnsFailed(statusText: string)  // "Failed to add system columns: …"

  /** One entry of a `values:batchUpdate` body: column letters, 1-based row, raw value. */
  datatype CellWrite = CellWrite(column: string, row: int, value: string)

  /** A request sent to the Sheets API. */
  datatype Call =
    | ReadHeaders                       // GET of row 1:1
    | BatchUpdate(data: seq<CellWrite>) // POST values:batchUpdate
    | WriteHeaders(headers: Row)        // PUT of row 1:1

  /** Header names of the columns the mapping and the update look up. */
  const IdColumn: string := "_participant_id"
  const StatusColumn: string := "_checkin_status"
  const CheckinAtColumn: string := "_checkin_at"
  const CheckinByColumn: string := "_checkin_by"
  const UpdatedAtColumn: string := "_updated_at"
  const UpdatedByColumn: string := "_updated_by"
  const AuditNoteColumn: string := "_audit_note"

  /** The seven reserved columns, in the order `addSystemColumns` appends them. */
  const SystemColumns: seq<string> := [IdColumn, StatusColumn, CheckinAtColumn,
                                       CheckinByColumn, UpdatedAtColumn, UpdatedByColumn, AuditNoteColumn]

  /** The six columns `updateParticipant` writes, in the order it writes them. */
  const OwnedColumns: seq<string> := [StatusColumn, CheckinAtColumn, CheckinByColumn,
                                      UpdatedAtColumn, UpdatedByColumn, AuditNoteColumn]

  // ---------------------------------------------------------------------------
  // Column letters
  // ---------------------------------------------------------------------------

  /** Upper-case letters only, at least one: an A1 column reference. */
  predicate IsColumnLetters(s: string)
  {
    |s| > 0 && forall i :: 0 <= i < |s| ==> 'A' <= s[i] <= 'Z'
  }

  /** The letters of the 0-based column `index`: bijective base 26, with the
      empty string for a negative index. */
  function ColumnLetters(index: int): (s: string)
    decreases index + 1
    ensures index < 0 <==> s == ""
    ensures forall i :: 0 <= i < |s| ==> 'A' <= s[i] <= 'Z'
  {
    if index < 0 then ""
    else ColumnLetters(index / 26 - 1) + [(65 + index % 26) as char]
  }

  /** The number written by `s` in bijective base 26 (A = 1, …, Z = 26). */
  function LettersValue(s: string): (v: int)
    ensures v >= 0
    ensures |s| > 0 && IsColumnLetters(s) ==> v >= 1
  {
    if s == [] then 0
    else
      var last := s[|s| - 1] as int - 64;
      assert |s| > 1 && IsColumnLetters(s) ==> IsColumnLetters(s[..|s| - 1]);
      LettersValue(s[..|s| - 1]) * 26 + (if last < 0 then 0 else last)
  }

  /** The 0-based column that `s` addresses: the inverse of `ColumnLetters`. */
  function ColumnIndex(s: string): int
  {
    LettersValue(s) - 1
  }

  /** `columnIndexToLetter`: the `while` loop that prepends one letter per
      base-26 digit. */
  method ColumnIndexToLetter(index: int) returns (letter: string)
    ensures letter == ColumnLetters(index)
  {
    letter := "";
    var i := index;
    while i >= 0
      invariant ColumnLetters(index) == ColumnLetters(i) + letter
      decreases i + 1
    {
      letter := [(65 + i % 26) as char] + letter;
      i := i / 26 - 1;
    }
  }

  /** Reading the letters back gives the column: no two columns share letters. */
  lemma {:induction false} ColumnIndexOfLetters(n: int)
    requires n >= -1
    ensures LettersValue(ColumnLetters(n)) == n + 1
    ensures n >= 0 ==> ColumnIndex(ColumnLetters(n)) == n
    decreases n + 1
  {
    if n >= 0 {
      var m := n / 26 - 1;
      ColumnIndexOfLetters(m);
      var s := ColumnLetters(n);
      assert s == ColumnLetters(m) + [(65 + n % 26) as char];
      assert s[..|s| - 1] == ColumnLetters(m);
    }
  }

  /** Division by 26 undoes `q * 26 + r` for a digit `r`. */
  lemma DivMod26(q: int, r: int)
    requires 0 <= r < 26
    ensures (q * 26 + r) / 26 == q && (q * 26 + r) % 26 == r
  {
  }

  /** Every A1 column reference is the letters of exactly the column it names. */
  lemma {:induction false} LettersOfColumnIndex(s: string)
    requires IsColumnLetters(s)
    ensures ColumnLetters(ColumnIndex(s)) == s
    decreases |s|
  {
    var t := s[..|s| - 1];
    var c := s[|s| - 1];
    assert s == t + [c];
    var q := LettersValue(t);
    var d := c as int - 65;
    var n := ColumnIndex(s);
    assert n == q * 26 + d;
    DivMod26(q, d);
    assert n / 26 - 1 == q - 1 && n % 26 == d;
    if t != [] {
      assert IsColumnLetters(t);
      LettersOfColumnIndex(t);
      assert ColumnIndex(t) == q - 1;
    } else {
      assert q == 0;
    }
    assert ColumnLetters(q - 1) == t;
    assert ((65 + d) as char) == c;
    ColumnLettersStep(n);
  }

  /** One step of the letters recursion, for a non-negative column. */
  lemma ColumnLettersStep(n: int)
    requires n >= 0
    ensures ColumnLetters(n) == ColumnLetters(n / 26 - 1) + [(65 + n % 26) as char]
  {
  }

  lemma ColumnLetterExamples()
    ensures ColumnLetters(0) == "A" && ColumnLetters(25) == "Z"
    ensures ColumnLetters(26) == "AA" && ColumnLetters(701) == "ZZ"
    ensures ColumnLetters(-1) == ""
  {
    assert ColumnLetters(26) == ColumnLetters(0) + "A";
    assert ColumnLetters(701) == ColumnLetters(25) + "Z";
  }

  // ---------------------------------------------------------------------------
  // Numbers rendered in template literals
  // ---------------------------------------------------------------------------

  /** Decimal digits of `n`, as `${n}` renders a non-negative integer. */
  function NatToString(n: nat): (s: string)
    ensures |s| > 0
  {
    if n < 10 then [Digit(n)]
    else NatToString(n / 10) + [Digit(n % 10)]
  }

  /** The character of the decimal digit `d`. */
  function Digit(d: nat): (c: char)
    requires d < 10
  {
    (48 + d) as char
  }

  /** `${n}` consists of decimal digits only. */
  lemma {:induction false} NatToStringDigits(n: nat)
    ensures forall i :: 0 <= i < |NatToString(n)| ==> '0' <= NatToString(n)[i] <= '9'
  {
    if n >= 10 {
      NatToStringDigits(n / 10);
      var s, t := NatToString(n), NatToString(n / 10);
      assert s == t + [Digit(n % 10)];
      assert forall i :: 0 <= i < |t| ==> s[i] == t[i];
    }
  }

  /** The number a string of decimal digits denotes (each character counts
      as its code minus the code of `0`). */
  function DigitsValue(s: string): int
  {
    if s == [] then 0 else 10 * DigitsValue(s[..|s| - 1]) + (s[|s| - 1] as int - 48)
  }

  /** The digits of `n` read back as `n`. */
  lemma {:induction false} NatToStringValue(n: nat)
    ensures DigitsValue(NatToString(n)) == n
  {
    if n >= 10 {
      NatToStringValue(n / 10);
      var s := NatToString(n);
      assert s[..|s| - 1] == NatToString(n / 10);
    }
  }

  /** Rows without an id of their own get distinct synthesised ids. */
  lemma SynthesisedIdsDiffer(i: nat, j: nat)
    requires i != j
    ensures "participant-" + NatToString(i + 2) != "participant-" + NatToString(j + 2)
  {
    var prefix, x, y := "participant-", NatToString(i + 2), NatToString(j + 2);
    if prefix + x == prefix + y {
      assert x == (prefix + x)[|prefix|..];
      assert y == (prefix + y)[|prefix|..];
      NatToStringInjective(i + 2, j + 2);
    }
  }

  /** Different numbers render differently. */
  lemma NatToStringInjective(a: nat, b: nat)
    requires NatToString(a) == NatToString(b)
    ensures a == b
  {
    NatToStringValue(a);
    NatToStringValue(b);
  }

  /** `${n}` for any integer. */
  function IntToString(n: int): string
  {
    if n < 0 then "-" + NatToString(-n) else NatToString(n)
  }

  // ---------------------------------------------------------------------------
  // Headers and cells
  // ---------------------------------------------------------------------------

  /** `headers.indexOf(name)`: the first position of `name`, or -1. */
  function IndexOf(headers: Row, name: string): (r: int)
    ensures -1 <= r < |headers|
    ensures r == -1 <==> name !in headers
    ensures r >= 0 ==> headers[r] == name && forall j :: 0 <= j < r ==> headers[j] != name
  {
    if |headers| == 0 then -1
    else if headers[0] == name then 0
    else
      var k := IndexOf(headers[1..], name);
      if k < 0 then -1 else k + 1
  }

  /** `row[col]` as the mapping uses it. A cell past the end of the row
      (undefined) and an empty cell behave alike under every test the source
      applies (`||`, truthiness, `=== 'checked_in'`), so both read as `""`. */
  function Cell(row: Row, col: int): string
  {
    if 0 <= col < |row| then row[col] else ""
  }

  /** `values?.[0] || []`: the header row of a reply, empty when there is none. */
  function FirstRow(values: Grid): Row
  {
    if |values| > 0 then values[0] else []
  }

  /** The column positions resolved once from a header row. */
  datatype ColumnMap = ColumnMap(
    idCol: int, nameCol: int, emailCol: int, statusCol: int, checkinAtCol: int,
    checkinByCol: int, updatedAtCol: int, updatedByCol: int, auditNoteCol: int)

  /** The header lookups of `readParticipants`; `name` falls back to column 1
      and `email` to column 2 when their header is missing. */
  function ResolveColumns(headers: Row): (m: ColumnMap)
    ensures m.nameCol == (if "name" in headers then IndexOf(headers, "name") else 1)
    ensures m.emailCol == (if "email" in headers then IndexOf(headers, "email") else 2)
    ensures m.statusCol >= 0 <==> StatusColumn in headers
  {
    ColumnMap(
      IndexOf(headers, IdColumn),
      if IndexOf(headers, "name") >= 0 then IndexOf(headers, "name") else 1,
      if IndexOf(headers, "email") >= 0 then IndexOf(headers, "email") else 2,
      IndexOf(headers, StatusColumn),
      IndexOf(headers, CheckinAtColumn),
      IndexOf(headers, CheckinByColumn),
      IndexOf(headers, UpdatedAtColumn),
      IndexOf(headers, UpdatedByColumn),
      IndexOf(headers, AuditNoteColumn))
  }

  /** A date cell: `new Date(cell)` when the column exists and the cell is non-empty. */
  function DateCell(row: Row, col: int, parse: string -> int): Option<int>
  {
    if col >= 0 && Cell(row, col) != "" then Some(parse(Cell(row, col))) else None
  }

  /** A text cell: `(col >= 0 && row[col]) || undefined`. */
  function TextCell(row: Row, col: int): Option<string>
  {
    NonEmpty(if col >= 0 then Some(Cell(row, col)) else None)
  }

  /** The id of body row `index`: its `_participant_id` cell, or the
      synthesised `participant-<row>` when that cell is missing or empty. */
  function RowId(row: Row, idCol: int, index: nat): string
  {
    if idCol >= 0 && Cell(row, idCol) != "" then Cell(row, idCol) else "participant-" + NatToString(index + 2)
  }

  /** The body row at 0-based body position `index`, mapped to a participant. */
  function RowToParticipant(cols: ColumnMap, row: Row, index: nat, parse: string -> int): (p: Participant)
    ensures p.id != ""
    ensures p.rowNumber == Some(index + 2)
    ensures p.checkinStatus == CheckedIn <==> cols.statusCol >= 0 && Cell(row, cols.statusCol) == "checked_in"
    ensures p.email.Some? ==> p.email.value != ""
  {
    Participant(
      id := RowId(row, cols.idCol, index),
      name := Cell(row, cols.nameCol),
      email := TextCell(row, cols.emailCol),
      checkinStatus := if cols.statusCol >= 0 && Cell(row, cols.statusCol) == "checked_in"
                       then CheckedIn else NotCheckedIn,
      checkinAt := DateCell(row, cols.checkinAtCol, parse),
      checkinBy := TextCell(row, cols.checkinByCol),
      updatedAt := DateCell(row, cols.updatedAtCol, parse),
      updatedBy := TextCell(row, cols.updatedByCol),
      auditNote := TextCell(row, cols.auditNoteCol),
      rowNumber := Some(index + 2))
  }

  /** The mapping of `readParticipants`: the first row is the header, every
      later row becomes one participant. */
  function ParseRows(rows: Grid, parse: string -> int): (ps: seq<Participant>)
    ensures |rows| == 0 ==> ps == []
    ensures |rows| > 0 ==> |ps| == |rows| - 1
    ensures forall i :: 0 <= i < |ps| ==> ps[i].rowNumber == Some(i + 2)
  {
    if |rows| == 0 then []
    else
      var cols := ResolveColumns(rows[0]);
      seq(|rows| - 1, i requires 0 <= i < |rows| - 1 => RowToParticipant(cols, rows[i + 1], i, parse))
  }

  /** The field rules of the mapping for body row `i`: the id cell or a
      synthesised `participant-<row>`, `checked_in` only when the status
      column exists and says exactly that, and the `name`/`email` fallbacks
      to columns 1 and 2. */
  lemma ParsedRowFields(rows: Grid, parse: string -> int, i: nat)
    requires |rows| > 0 && i < |rows| - 1
    ensures var p := ParseRows(rows, parse)[i]; var h := rows[0]; var row := rows[i + 1];
      && p.id == (if IdColumn in h && Cell(row, IndexOf(h, IdColumn)) != ""
                  then Cell(row, IndexOf(h, IdColumn))
                  else "participant-" + NatToString(i + 2))
      && (p.checkinStatus == CheckedIn <==>
            StatusColumn in h && Cell(row, IndexOf(h, StatusColumn)) == "checked_in")
      && p.name == Cell(row, if "name" in h then IndexOf(h, "name") else 1)
      && p.email == TextCell(row, if "email" in h then IndexOf(h, "email") else 2)
      && p.rowNumber == Some(i + 2)
  {
    var cols := ResolveColumns(rows[0]);
    assert ParseRows(rows, parse)[i] == RowToParticipant(cols, rows[i + 1], i, parse);
  }

  /** Body row `i` reads with the id `RowId` gives its row. */
  lemma ParsedId(rows: Grid, parse: string -> int, i: nat)
    requires |rows| > 0 && i < |rows| - 1
    ensures ParseRows(rows, parse)[i].id == RowId(rows[i + 1], IndexOf(rows[0], IdColumn), i)
  {
    assert ParseRows(rows, parse)[i].id
        == RowToParticipant(ResolveColumns(rows[0]), rows[i + 1], i, parse).id;
  }

  /** Body row `i` reads as checked in exactly when the sheet has the status
      column and the row's cell there says `checked_in`. */
  lemma ParsedStatus(rows: Grid, parse: string -> int, i: nat)
    requires |rows| > 0 && i < |rows| - 1
    ensures ParseRows(rows, parse)[i].checkinStatus == CheckedIn <==>
              IndexOf(rows[0], StatusColumn) >= 0 && Cell(rows[i + 1], IndexOf(rows[0], StatusColumn)) == "checked_in"
  {
    assert ParseRows(rows, parse)[i].checkinStatus
        == RowToParticipant(ResolveColumns(rows[0]), rows[i + 1], i, parse).checkinStatus;
  }

  /** `readParticipants`: a failed reply is an error, otherwise the mapped rows. */
  function ReadParticipants(response: Response, parse: string -> int): (r: Result<seq<Participant>, SheetsError>)
    ensures response.Failure? ==> r == Failure(ReadFailed(response.error))
    ensures response.Success? ==> r == Success(ParseRows(response.value, parse))
    ensures response.Success? ==> |r.value| == (if |response.value| == 0 then 0 else |response.value| - 1)
  {
    match response
    case Failure(status) => Failure(ReadFailed(status))
    case Success(rows) => Success(ParseRows(rows, parse))
  }
  /** The columns `A` to `Z` that a read without a range covers. */
  const ReadWidth: nat := 26

  /** The reply to a read of `A:Z` from a sheet whose cells are `rows`: every
      row is cut after column `Z`. */
  function ReadRange(rows: Grid): (r: Grid)
    ensures |r| == |rows|
  {
    seq(|rows|, i requires 0 <= i < |rows| => if |rows[i]| <= ReadWidth then rows[i] else rows[i][..ReadWidth])
  }

  /** Each row of the `A:Z` reply is the first `ReadWidth` cells of the
      sheet's row, and the whole row when it is no wider. */
  lemma ReadRangeRows(rows: Grid, i: nat)
    requires i < |rows|
    ensures |ReadRange(rows)[i]| <= ReadWidth && ReadRange(rows)[i] <= rows[i]
    ensures |rows[i]| <= ReadWidth ==> ReadRange(rows)[i] == rows[i]
    ensures |rows[i]| > ReadWidth ==> ReadRange(rows)[i] == rows[i][..ReadWidth]
  {
  }

  /** `A:Z` spans the columns 0 to `ReadWidth - 1`: the next column is `AA`. */
  lemma ReadWidthIsAToZ()
    ensures ColumnLetters(0) == "A" && ColumnLetters(ReadWidth - 1) == "Z" && ColumnLetters(ReadWidth) == "AA"
  {
    ColumnLetterExamples();
  }

  /** As written, a sheet whose header holds `_checkin_status` only past
      column `Z` reads every participant as not checked in through `A:Z`,
      whatever its status cells hold. */
  lemma StatusPastZUnread(rows: Grid, parse: string -> int, j: nat)
    requires |rows| > 0 && j < |rows| - 1 && IndexOf(rows[0], StatusColumn) >= ReadWidth
    ensures ParseRows(ReadRange(rows), parse)[j].checkinStatus == NotCheckedIn
  {
    var cut := ReadRange(rows);
    assert cut[0] == rows[0][..ReadWidth];
    forall k | 0 <= k < |cut[0]|
      ensures cut[0][k] != StatusColumn
    {
      assert cut[0][k] == rows[0][k];
    }
    ParsedStatus(cut, parse, j);
  }


  lemma ReadWithIdColumnExample(parse: string -> int)
    ensures var ps := ParseRows([["name", IdColumn, StatusColumn], ["Taro", "p001", "checked_in"]], parse);
            |ps| == 1 && ps[0].id == "p001" && ps[0].name == "Taro" && ps[0].rowNumber == Some(2)
            && ps[0].checkinStatus == CheckedIn
  {
    var h := ["name", IdColumn, StatusColumn];
    var rows := [h, ["Taro", "p001", "checked_in"]];
    assert IndexOf(h, "name") == 0;
    assert IndexOf(h, IdColumn) == 1 by {
      assert h[0] != IdColumn && h[1] == IdColumn;
    }
    assert IndexOf(h, StatusColumn) == 2 by {
      assert h[0] != StatusColumn && h[1] != StatusColumn && h[2] == StatusColumn;
    }
    ParsedRowFields(rows, parse, 0);
  }

  lemma ReadWithoutSystemColumnsExample(parse: string -> int)
    ensures var ps := ParseRows([["name", "email"], ["Taro", "taro@example.com"]], parse);
            |ps| == 1 && ps[0].id == "participant-2" && ps[0].checkinStatus == NotCheckedIn
  {
    assert NatToString(2) == "2";
  }

  // ---------------------------------------------------------------------------
  // updateParticipant
  // ---------------------------------------------------------------------------

  /** The raw value `updateParticipant` writes under the system column `column`.
      `_updated_at` gets the time of the call, not the record's `updatedAt`. */
  function CellValue(column: string, p: Participant, now: int, render: int -> string): (v: string)
    ensures column !in OwnedColumns ==> v == ""
    ensures column == StatusColumn ==> v == StatusText(p.checkinStatus)
    ensures column == StatusColumn ==> (v == "checked_in" <==> p.checkinStatus == CheckedIn)
    ensures column == CheckinAtColumn ==> v == (if p.checkinAt.Some? then render(p.checkinAt.value) else "")
    ensures column == CheckinByColumn ==>
              (Truthy(p.checkinBy) ==> v == p.checkinBy.value) && (!Truthy(p.checkinBy) ==> v == "")
    ensures column == UpdatedAtColumn ==> v == render(now)
    ensures column == UpdatedByColumn ==>
              (Truthy(p.updatedBy) ==> v == p.updatedBy.value) && (!Truthy(p.updatedBy) ==> v == "system")
    ensures column == UpdatedByColumn ==> v != ""
    ensures column == AuditNoteColumn ==>
              (Truthy(p.auditNote) ==> v == p.auditNote.value) && (!Truthy(p.auditNote) ==> v == "")
  {
    if column == StatusColumn then StatusText(p.checkinStatus)
    else if column == CheckinAtColumn then (if p.checkinAt.Some? then render(p.checkinAt.value) else "")
    else if column == CheckinByColumn then OrElse(p.checkinBy, "")
    else if column == UpdatedAtColumn then render(now)
    else if column == UpdatedByColumn then OrElse(p.updatedBy, "system")
    else if column == AuditNoteColumn then OrElse(p.auditNote, "")
    else ""
  }

  /** The write `updateParticipant` adds for `column` when the header has it. */
  function Entry(headers: Row, column: string, row: int, p: Participant,
                 now: int, render: int -> string): seq<CellWrite>
  {
    var col := IndexOf(headers, column);
    if col >= 0 then [CellWrite(ColumnLetters(col), row, CellValue(column, p, now, render))] else []
  }

  /** The body of the batch update for `p`: for each of the six owned columns
      present in the header, in the source's order, one write addressed at the
      participant's row. */
  function WritePlan(headers: Row, p: Participant, now: int, render: int -> string): (plan: seq<CellWrite>)
    requires p.rowNumber.Some?
    ensures plan == [] <==> forall c :: c in OwnedColumns ==> c !in headers
  {
    var row := p.rowNumber.value;
    Entry(headers, StatusColumn, row, p, now, render)
      + Entry(headers, CheckinAtColumn, row, p, now, render)
      + Entry(headers, CheckinByColumn, row, p, now, render)
      + Entry(headers, UpdatedAtColumn, row, p, now, render)
      + Entry(headers, UpdatedByColumn, row, p, now, render)
      + Entry(headers, AuditNoteColumn, row, p, now, render)
  }

  /** `!participant.rowNumber`: a missing row number and row 0 are both refused. */
  function HasRowNumber(p: Participant): (b: bool)
    ensures p.rowNumber.None? ==> !b
    ensures p.rowNumber == Some(0) ==> !b
    ensures p.rowNumber.Some? && p.rowNumber.value != 0 ==> b
  {
    p.rowNumber.Some? && p.rowNumber.value != 0
  }

  /** A write of `Entry` addresses `row` in the column headed `column`, with
      the value owed to that column. */
  lemma EntryTarget(headers: Row, column: string, row: int, p: Participant, now: int, render: int -> string)
    ensures var e := Entry(headers, column, row, p, now, render);
      && |e| == (if column in headers then 1 else 0)
      && forall w :: w in e ==>
           && w.row == row
           && IsColumnLetters(w.column)
           && ColumnIndex(w.column) == IndexOf(headers, column)
           && headers[ColumnIndex(w.column)] == column
           && w.value == CellValue(column, p, now, render)
  {
    var col := IndexOf(headers, column);
    if col >= 0 {
      ColumnIndexOfLetters(col);
      var w := CellWrite(ColumnLetters(col), row, CellValue(column, p, now, render));
      assert Entry(headers, column, row, p, now, render) == [w];
      assert IsColumnLetters(w.column);
    } else {
      assert Entry(headers, column, row, p, now, render) == [];
    }
  }

  /** Every write of an update addresses the participant's row and a column
      headed by one of the six owned system columns. */
  lemma WritePlanAddresses(headers: Row, p: Participant, now: int, render: int -> string)
    requires p.rowNumber.Some?
    ensures var plan := WritePlan(headers, p, now, render);
      forall k :: 0 <= k < |plan| ==>
        && plan[k].row == p.rowNumber.value
        && IsColumnLetters(plan[k].column)
        && 0 <= ColumnIndex(plan[k].column) < |headers|
        && headers[ColumnIndex(plan[k].column)] in OwnedColumns
  {
    var plan := WritePlan(headers, p, now, render);
    WritePlanTargets(headers, p, now, render);
    forall k | 0 <= k < |plan|
      ensures plan[k].row == p.rowNumber.value && IsColumnLetters(plan[k].column)
      ensures 0 <= ColumnIndex(plan[k].column) < |headers| && headers[ColumnIndex(plan[k].column)] in OwnedColumns
    {
      assert plan[k] in plan;
    }
  }

  /** Every write of an update addresses the participant's row and a column
      headed by one of the six owned system columns, and carries the value
      owed to that column: `_participant_id`, `name`, `email` and every other
      column are never written. */
  lemma WritePlanTargets(headers: Row, p: Participant, now: int, render: int -> string)
    requires p.rowNumber.Some?
    ensures var plan := WritePlan(headers, p, now, render);
      && |plan| <= |OwnedColumns|
      && forall w :: w in plan ==>
           && w.row == p.rowNumber.value
           && IsColumnLetters(w.column)
           && 0 <= ColumnIndex(w.column) < |headers|
           && headers[ColumnIndex(w.column)] in OwnedColumns
           && w.value == CellValue(headers[ColumnIndex(w.column)], p, now, render)
  {
    var row := p.rowNumber.value;
    forall c | c in OwnedColumns {
      EntryTarget(headers, c, row, p, now, render);
    }
  }

  /** One `if (col >= 0) requests.push(…)` block of `updateParticipant`. */
  method PushIfPresent(requests: seq<CellWrite>, headers: Row, column: string, row: int, p: Participant,
                       now: int, render: int -> string)
    returns (out: seq<CellWrite>)
    ensures out == requests + Entry(headers, column, row, p, now, render)
  {
    out := requests;
    var index := IndexOf(headers, column);
    if index >= 0 {
      var col := ColumnIndexToLetter(index);
      out := out + [CellWrite(col, row, CellValue(column, p, now, render))];
    }
  }

  /** The `requests` array of `updateParticipant`, built by one push per
      owned system column found in the header. */
  method BuildRequests(headers: Row, p: Participant, now: int, render: int -> string)
    returns (requests: seq<CellWrite>)
    requires p.rowNumber.Some?
    ensures requests == WritePlan(headers, p, now, render)
  {
    var row := p.rowNumber.value;
    ghost var e1 := Entry(headers, StatusColumn, row, p, now, render);
    ghost var e2 := Entry(headers, CheckinAtColumn, row, p, now, render);
    ghost var e3 := Entry(headers, CheckinByColumn, row, p, now, render);
    ghost var e4 := Entry(headers, UpdatedAtColumn, row, p, now, render);
    ghost var e5 := Entry(headers, UpdatedByColumn, row, p, now, render);
    ghost var e6 := Entry(headers, AuditNoteColumn, row, p, now, render);
    requests := [];
    requests := PushIfPresent(requests, headers, StatusColumn, row, p, now, render);
    assert requests == e1;
    requests := PushIfPresent(requests, headers, CheckinAtColumn, row, p, now, render);
    requests := PushIfPresent(requests, headers, CheckinByColumn, row, p, now, render);
    requests := PushIfPresent(requests, headers, UpdatedAtColumn, row, p, now, render);
    requests := PushIfPresent(requests, headers, UpdatedByColumn, row, p, now, render);
    requests := PushIfPresent(requests, headers, AuditNoteColumn, row, p, now, render);
    assert requests == e1 + e2 + e3 + e4 + e5 + e6;
  }

  /** Whether `updateParticipant` resolves rather than throws. */
  predicate UpdateSucceeds(p: Participant, headerResponse: Response, batchResponse: Outcome<string>)
  {
    HasRowNumber(p) && headerResponse.Success? && batchResponse.Pass?
  }

  /** `updateParticipant`: refuse a record without a row number before any
      request, read the header row, then send one batch with a write per owned
      system column found in it (an empty batch when there is none). */
  method UpdateParticipant(p: Participant, headerResponse: Response, batchResponse: Outcome<string>,
                           now: int, render: int -> string)
    returns (calls: seq<Call>, r: Outcome<SheetsError>)
    ensures !HasRowNumber(p) ==> calls == [] && r == Fail(RowNumberRequired)
    ensures HasRowNumber(p) && headerResponse.Failure? ==>
              calls == [ReadHeaders] && r == Fail(HeaderReadFailed(headerResponse.error))
    ensures HasRowNumber(p) && headerResponse.Success? ==>
              calls == [ReadHeaders, BatchUpdate(WritePlan(FirstRow(headerResponse.value), p, now, render))]
              && r == (if batchResponse.Pass? then Pass else Fail(UpdateFailed(batchResponse.error)))
  {
    if !HasRowNumber(p) {
      return [], Fail(RowNumberRequired);
    }
    calls := [ReadHeaders];
    if headerResponse.Failure? {
      return calls, Fail(HeaderReadFailed(headerResponse.error));
    }
    var requests := BuildRequests(FirstRow(headerResponse.value), p, now, render);
    calls := calls + [BatchUpdate(requests)];
    r := if batchResponse.Pass? then Pass else Fail(UpdateFailed(batchResponse.error));
  }

  // ---------------------------------------------------------------------------
  // What a batch update does to the sheet
  // ---------------------------------------------------------------------------

  /** `row` with the cell at `col` set to `v`, padded with empty cells when
      the row is shorter. */
  function SetCell(row: Row, col: nat, v: string): Row
  {
    var padded := if col < |row| then row else row + seq(col + 1 - |row|, _ => "");
    padded[col := v]
  }

  /** Setting a cell changes that cell and no other. */
  lemma SetCellCells(row: Row, col: nat, v: string)
    ensures Cell(SetCell(row, col, v), col) == v
    ensures forall k :: k != col ==> Cell(SetCell(row, col, v), k) == Cell(row, k)
  {
  }

  /** A write addressed inside `grid`: A1 column letters and an A1 row the
      grid has (A1 row `n` is grid row `n - 1` of a grid read from `A1`). */
  predicate InGrid(grid: Grid, w: CellWrite)
  {
    IsColumnLetters(w.column) && 1 <= w.row <= |grid|
  }

  /** Every write of `ws` is addressed inside `grid`. */
  predicate AllInGrid(grid: Grid, ws: seq<CellWrite>)
  {
    forall k :: 0 <= k < |ws| ==> InGrid(grid, ws[k])
  }

  /** Whether `w` addresses grid row `i`, column `c`. */
  predicate Targets(w: CellWrite, i: int, c: int)
  {
    w.row - 1 == i && ColumnIndex(w.column) == c
  }

  /** The grid after one write. */
  function ApplyWrite(grid: Grid, w: CellWrite): (r: Grid)
    requires InGrid(grid, w)
    ensures |r| == |grid|
  {
    grid[w.row - 1 := SetCell(grid[w.row - 1], ColumnIndex(w.column), w.value)]
  }

  /** One write changes the cell it addresses and no other, and no other row. */
  lemma ApplyWriteCells(grid: Grid, w: CellWrite)
    requires InGrid(grid, w)
    ensures forall i, c :: 0 <= i < |grid| && 0 <= c ==>
              Cell(ApplyWrite(grid, w)[i], c) == (if Targets(w, i, c) then w.value else Cell(grid[i], c))
    ensures forall i :: 0 <= i < |grid| && i != w.row - 1 ==> ApplyWrite(grid, w)[i] == grid[i]
  {
    SetCellCells(grid[w.row - 1], ColumnIndex(w.column), w.value);
  }

  /** The grid after the writes of one `values:batchUpdate`, applied in order. */
  function ApplyWrites(grid: Grid, ws: seq<CellWrite>): (r: Grid)
    requires AllInGrid(grid, ws)
    ensures |r| == |grid|
    decreases |ws|
  {
    if ws == [] then grid
    else ApplyWrites(ApplyWrite(grid, ws[0]), ws[1..])
  }

  /** After a batch, a cell some write addresses holds the value every write
      to it carries, and a cell no write addresses is unchanged. */
  lemma {:induction false} ApplyWritesCell(grid: Grid, ws: seq<CellWrite>, i: nat, c: nat, v: string)
    requires AllInGrid(grid, ws)
    requires i < |grid|
    requires forall k :: 0 <= k < |ws| && Targets(ws[k], i, c) ==> ws[k].value == v
    ensures (exists k :: 0 <= k < |ws| && Targets(ws[k], i, c)) ==> Cell(ApplyWrites(grid, ws)[i], c) == v
    ensures (forall k :: 0 <= k < |ws| ==> !Targets(ws[k], i, c)) ==>
              Cell(ApplyWrites(grid, ws)[i], c) == Cell(grid[i], c)
    decreases |ws|
  {
    if ws != [] {
      var next, rest := ApplyWrite(grid, ws[0]), ws[1..];
      ApplyWriteCells(grid, ws[0]);
      assert forall k :: 0 <= k < |rest| ==> rest[k] == ws[k + 1];
      ApplyWritesCell(next, rest, i, c, v);
    }
  }

  /** A batch leaves every row it does not address unchanged. */
  lemma {:induction false} ApplyWritesKeepsRow(grid: Grid, ws: seq<CellWrite>, i: nat)
    requires AllInGrid(grid, ws)
    requires i < |grid|
    requires forall k :: 0 <= k < |ws| ==> ws[k].row - 1 != i
    ensures ApplyWrites(grid, ws)[i] == grid[i]
    decreases |ws|
  {
    if ws != [] {
      var next, rest := ApplyWrite(grid, ws[0]), ws[1..];
      ApplyWriteCells(grid, ws[0]);
      assert forall k :: 0 <= k < |rest| ==> rest[k] == ws[k + 1];
      ApplyWritesKeepsRow(next, rest, i);
    }
  }

  /** Every write of `ws` lies in `grid` below its header row. */
  predicate BodyWrites(grid: Grid, ws: seq<CellWrite>)
  {
    AllInGrid(grid, ws) && forall k :: 0 <= k < |ws| ==> ws[k].row >= 2
  }

  /** No write of `ws` addresses the column headed `_participant_id`. */
  predicate SparesIdColumn(headers: Row, ws: seq<CellWrite>)
  {
    forall k :: 0 <= k < |ws| ==> ColumnIndex(ws[k].column) != IndexOf(headers, IdColumn)
  }

  /** The update of `q` planned from the header row of `rows`, when `q` sits
      in body row `j`, writes into `q`'s row only, and never into the id
      column. */
  lemma PlanSparesIds(rows: Grid, q: Participant, now: int, render: int -> string, j: nat)
    ensures |rows| > 0 && j < |rows| - 1 && q.rowNumber == Some(j + 2) ==>
              && BodyWrites(rows, WritePlan(rows[0], q, now, render))
              && SparesIdColumn(rows[0], WritePlan(rows[0], q, now, render))
  {
    if |rows| > 0 && j < |rows| - 1 && q.rowNumber == Some(j + 2) {
      WritePlanAddresses(rows[0], q, now, render);
      assert IdColumn !in OwnedColumns;
    }
  }

  /** Writes below the header that spare the id column keep the header row
      and every participant's id. */
  lemma WritesKeepIds(rows: Grid, ws: seq<CellWrite>, parse: string -> int)
    ensures |rows| > 0 && BodyWrites(rows, ws) && SparesIdColumn(rows[0], ws) ==>
              var written := ApplyWrites(rows, ws);
              var ps, ps' := ParseRows(rows, parse), ParseRows(written, parse);
              && written[0] == rows[0]
              && |ps'| == |ps|
              && forall i :: 0 <= i < |ps| ==> ps'[i].id == ps[i].id
  {
    if |rows| > 0 && BodyWrites(rows, ws) && SparesIdColumn(rows[0], ws) {
      var written := ApplyWrites(rows, ws);
      ApplyWritesKeepsRow(rows, ws, 0);
      forall i | 0 <= i < |rows| - 1
        ensures ParseRows(written, parse)[i].id == ParseRows(rows, parse)[i].id
      {
        IdCellKept(rows, ws, i + 1);
        KeptId(rows, written, parse, i);
      }
    }
  }

  /** Writes that spare the id column leave every id cell as it was. */
  lemma IdCellKept(rows: Grid, ws: seq<CellWrite>, i: nat)
    requires |rows| > 0 && AllInGrid(rows, ws) && SparesIdColumn(rows[0], ws) && i < |rows|
    ensures IndexOf(rows[0], IdColumn) >= 0 ==>
              Cell(ApplyWrites(rows, ws)[i], IndexOf(rows[0], IdColumn)) == Cell(rows[i], IndexOf(rows[0], IdColumn))
  {
    var idCol := IndexOf(rows[0], IdColumn);
    if idCol >= 0 {
      ApplyWritesCell(rows, ws, i, idCol, "");
    }
  }

  /** A participant's id depends on the header row and its id cell only. */
  lemma KeptId(rows: Grid, written: Grid, parse: string -> int, i: nat)
    requires 0 < |rows| == |written| && i < |rows| - 1 && written[0] == rows[0]
    requires IndexOf(rows[0], IdColumn) >= 0 ==>
               Cell(written[i + 1], IndexOf(rows[0], IdColumn)) == Cell(rows[i + 1], IndexOf(rows[0], IdColumn))
    ensures ParseRows(written, parse)[i].id == ParseRows(rows, parse)[i].id
  {
    ParsedId(rows, parse, i);
    ParsedId(written, parse, i);
  }

  /** Writing the update of `q` into the sheet whose header row it was planned
      from keeps the header row, the number of participants and every
      participant's id. */
  lemma UpdateKeepsIds(rows: Grid, q: Participant, now: int, render: int -> string,
                       parse: string -> int, j: nat)
    requires |rows| > 0 && j < |rows| - 1 && q.rowNumber == Some(j + 2)
    ensures AllInGrid(rows, WritePlan(rows[0], q, now, render))
    ensures var written := ApplyWrites(rows, WritePlan(rows[0], q, now, render));
      var ps, ps' := ParseRows(rows, parse), ParseRows(written, parse);
      && written[0] == rows[0]
      && |ps'| == |ps|
      && forall i :: 0 <= i < |ps| ==> ps'[i].id == ps[i].id
  {
    PlanSparesIds(rows, q, now, render, j);
    WritesKeepIds(rows, WritePlan(rows[0], q, now, render), parse);
  }

  /** Writing the update of `q` into the sheet whose header row it was planned
      from, when that header has the status column: `q`'s row reads back
      with `q`'s status. */
  lemma UpdateReadsBackStatus(rows: Grid, q: Participant, now: int, render: int -> string,
                              parse: string -> int, j: nat)
    requires |rows| > 0 && j < |rows| - 1 && q.rowNumber == Some(j + 2)
    requires StatusColumn in rows[0]
    ensures AllInGrid(rows, WritePlan(rows[0], q, now, render))
    ensures ParseRows(ApplyWrites(rows, WritePlan(rows[0], q, now, render)), parse)[j].checkinStatus
            == q.checkinStatus
  {
    var plan := WritePlan(rows[0], q, now, render);
    UpdateWritesCell(rows, q, now, render, j, StatusColumn);
    var written := ApplyWrites(rows, plan);
    ParsedStatus(written, parse, j);
  }

  /** Whether some write of `ws` addresses grid row `i`, column `c`, and
      every such write carries `v`. */
  predicate WritesCell(ws: seq<CellWrite>, i: int, c: int, v: string)
  {
    && (exists k :: 0 <= k < |ws| && Targets(ws[k], i, c))
    && forall k :: 0 <= k < |ws| && Targets(ws[k], i, c) ==> ws[k].value == v
  }

  /** Writes below the header that put `v` into body cell (`i`, `c`) leave
      the header row as it was and that cell holding `v`. */
  lemma CellAfterWrites(rows: Grid, ws: seq<CellWrite>, i: nat, c: nat, v: string)
    requires BodyWrites(rows, ws) && 0 < i < |rows|
    requires WritesCell(ws, i, c, v)
    ensures ApplyWrites(rows, ws)[0] == rows[0]
    ensures Cell(ApplyWrites(rows, ws)[i], c) == v
  {
    ApplyWritesKeepsRow(rows, ws, 0);
    ApplyWritesCell(rows, ws, i, c, v);
  }

  /** The update of `q` writes the value owed to an owned column present in
      the header, and only that, into that column's cell of `q`'s row. */
  lemma OwnedCellWritten(h: Row, q: Participant, now: int, render: int -> string, c: string)
    requires q.rowNumber.Some? && c in OwnedColumns && c in h
    ensures WritesCell(WritePlan(h, q, now, render), q.rowNumber.value - 1, IndexOf(h, c),
                       CellValue(c, q, now, render))
  {
    var plan := WritePlan(h, q, now, render);
    var col := IndexOf(h, c);
    WritePlanTargets(h, q, now, render);
    EntryTarget(h, c, q.rowNumber.value, q, now, render);
    var e := Entry(h, c, q.rowNumber.value, q, now, render);
    EntryInPlan(h, q, now, render, c);
    var k :| 0 <= k < |plan| && plan[k] == e[0];
    assert Targets(plan[k], q.rowNumber.value - 1, col);
    forall k | 0 <= k < |plan| && Targets(plan[k], q.rowNumber.value - 1, col)
      ensures plan[k].value == CellValue(c, q, now, render)
    {
      assert plan[k] in plan;
    }
  }

  /** The single write owed to an owned column present in the header is
      part of the update. */
  lemma EntryInPlan(h: Row, q: Participant, now: int, render: int -> string, c: string)
    requires q.rowNumber.Some? && c in OwnedColumns && c in h
    ensures |Entry(h, c, q.rowNumber.value, q, now, render)| == 1
    ensures Entry(h, c, q.rowNumber.value, q, now, render)[0] in WritePlan(h, q, now, render)
  {
    var row := q.rowNumber.value;
    var e := Entry(h, c, row, q, now, render);
    assert |e| == 1;
    if c == StatusColumn {
      assert e[0] in Entry(h, StatusColumn, row, q, now, render);
    } else if c == CheckinAtColumn {
      assert e[0] in Entry(h, CheckinAtColumn, row, q, now, render);
    } else if c == CheckinByColumn {
      assert e[0] in Entry(h, CheckinByColumn, row, q, now, render);
    } else if c == UpdatedAtColumn {
      assert e[0] in Entry(h, UpdatedAtColumn, row, q, now, render);
    } else if c == UpdatedByColumn {
      assert e[0] in Entry(h, UpdatedByColumn, row, q, now, render);
    } else {
      assert e[0] in Entry(h, AuditNoteColumn, row, q, now, render);
    }
  }

  /** The update of `q`, in body row `j`, writes below the header only, and
      writes the value owed to an owned column `c` of the header into `c`'s
      cell of `q`'s row. */
  lemma PlanWritesCell(rows: Grid, q: Participant, now: int, render: int -> string, j: nat, c: string)
    ensures && |rows| > 0 && j < |rows| - 1 && q.rowNumber == Some(j + 2)
            && c in OwnedColumns && c in rows[0] ==>
              && BodyWrites(rows, WritePlan(rows[0], q, now, render))
              && IndexOf(rows[0], c) >= 0
              && WritesCell(WritePlan(rows[0], q, now, render), j + 1, IndexOf(rows[0], c),
                            CellValue(c, q, now, render))
  {
    if && |rows| > 0 && j < |rows| - 1 && q.rowNumber == Some(j + 2)
       && c in OwnedColumns && c in rows[0]
    {
      PlanSparesIds(rows, q, now, render, j);
      OwnedCellWritten(rows[0], q, now, render, c);
    }
  }

  /** Writing the update of `q`, in body row `j`, into the sheet whose header
      row it was planned from: the header is kept and the cell of `q`'s row
      under an owned column `c` holds the value owed to `c`. */
  lemma UpdateWritesCell(rows: Grid, q: Participant, now: int, render: int -> string, j: nat, c: string)
    ensures && |rows| > 0 && j < |rows| - 1 && q.rowNumber == Some(j + 2)
            && c in OwnedColumns && c in rows[0] ==>
              && AllInGrid(rows, WritePlan(rows[0], q, now, render))
              && ApplyWrites(rows, WritePlan(rows[0], q, now, render))[0] == rows[0]
              && Cell(ApplyWrites(rows, WritePlan(rows[0], q, now, render))[j + 1], IndexOf(rows[0], c))
                 == CellValue(c, q, now, render)
  {
    if && |rows| > 0 && j < |rows| - 1 && q.rowNumber == Some(j + 2)
       && c in OwnedColumns && c in rows[0]
    {
      PlanWritesCell(rows, q, now, render, j, c);
      var plan := WritePlan(rows[0], q, now, render);
      assert BodyWrites(rows, plan);
      assert IndexOf(rows[0], c) >= 0;
      assert WritesCell(plan, j + 1, IndexOf(rows[0], c), CellValue(c, q, now, render));
      WrittenCell(rows, WritePlan(rows[0], q, now, render), j + 1, IndexOf(rows[0], c), CellValue(c, q, now, render));
    }
  }

  /** `CellAfterWrites`, stated for any arguments. */
  lemma WrittenCell(rows: Grid, ws: seq<CellWrite>, i: int, c: int, v: string)
    ensures BodyWrites(rows, ws) && 0 < i < |rows| && 0 <= c && WritesCell(ws, i, c, v) ==>
              ApplyWrites(rows, ws)[0] == rows[0] && Cell(ApplyWrites(rows, ws)[i], c) == v
  {
    if BodyWrites(rows, ws) && 0 < i < |rows| && 0 <= c && WritesCell(ws, i, c, v) {
      CellAfterWrites(rows, ws, i, c, v);
    }
  }

  /** Body row `i` reads `_checkin_by`, `_updated_by` and `_audit_note` as
      its text cells under those headers. */
  lemma ParsedTextFields(rows: Grid, parse: string -> int, i: nat)
    ensures |rows| > 0 && i < |rows| - 1 ==>
              var p := ParseRows(rows, parse)[i];
              && p.checkinBy == TextCell(rows[i + 1], IndexOf(rows[0], CheckinByColumn))
              && p.updatedBy == TextCell(rows[i + 1], IndexOf(rows[0], UpdatedByColumn))
              && p.auditNote == TextCell(rows[i + 1], IndexOf(rows[0], AuditNoteColumn))
  {
    if |rows| > 0 && i < |rows| - 1 {
      assert ParseRows(rows, parse)[i] == RowToParticipant(ResolveColumns(rows[0]), rows[i + 1], i, parse);
    }
  }

  /** Writing the update of `q` into the sheet whose header row it was planned
      from: `q`'s row reads back with `q`'s check-in user and audit note (an
      empty one as absent), and with `q`'s update user or `system`, for each
      of those columns the header has. */
  lemma UpdateReadsBackTexts(rows: Grid, q: Participant, now: int, render: int -> string,
                             parse: string -> int, j: nat)
    requires |rows| > 0 && j < |rows| - 1 && q.rowNumber == Some(j + 2)
    ensures AllInGrid(rows, WritePlan(rows[0], q, now, render))
    ensures var p := ParseRows(ApplyWrites(rows, WritePlan(rows[0], q, now, render)), parse)[j];
      && (CheckinByColumn in rows[0] ==> p.checkinBy == NonEmpty(q.checkinBy))
      && (UpdatedByColumn in rows[0] ==> p.updatedBy == Some(OrElse(q.updatedBy, "system")))
      && (AuditNoteColumn in rows[0] ==> p.auditNote == NonEmpty(q.auditNote))
  {
    var plan := WritePlan(rows[0], q, now, render);
    PlanSparesIds(rows, q, now, render, j);
    var written := ApplyWrites(rows, plan);
    UpdateWritesCell(rows, q, now, render, j, CheckinByColumn);
    UpdateWritesCell(rows, q, now, render, j, UpdatedByColumn);
    UpdateWritesCell(rows, q, now, render, j, AuditNoteColumn);
    ParsedTextFields(written, parse, j);
    TextValuesReadBack(q, now, render);
  }

  /** The text written under `_checkin_by`, `_updated_by` and `_audit_note`,
      read back as a text cell, gives the field it was written from: an empty
      or absent value reads as absent, and `_updated_by` is never empty. */
  lemma TextValuesReadBack(q: Participant, now: int, render: int -> string)
    ensures NonEmpty(Some(CellValue(CheckinByColumn, q, now, render))) == NonEmpty(q.checkinBy)
    ensures NonEmpty(Some(CellValue(UpdatedByColumn, q, now, render))) == Some(OrElse(q.updatedBy, "system"))
    ensures NonEmpty(Some(CellValue(AuditNoteColumn, q, now, render))) == NonEmpty(q.auditNote)
  {
  }

  // ---------------------------------------------------------------------------
  // addSystemColumns
  // ---------------------------------------------------------------------------

  /** The entries of `columns` absent from `current`, in the order of `columns`. */
  function MissingFrom(columns: seq<string>, current: Row): (missing: seq<string>)
    ensures forall c :: c in missing <==> c in columns && c !in current
    ensures |missing| <= |columns|
  {
    if columns == [] then []
    else (if columns[0] in current then [] else [columns[0]]) + MissingFrom(columns[1..], current)
  }

  /** `systemColumns.filter(col => !currentHeaders.includes(col))`. */
  function MissingColumns(current: Row): (missing: seq<string>)
    ensures forall c :: c in missing <==> c in SystemColumns && c !in current
  {
    MissingFrom(SystemColumns, current)
  }

  /** The requests `addSystemColumns` issued and how it ended. */
  datatype AddColumnsRun = AddColumnsRun(calls: seq<Call>, result: Outcome<SheetsError>)

  /** How the header write's response ends `addSystemColumns`. */
  function WriteOutcome(writeResponse: Outcome<string>): Outcome<SheetsError>
  {
    match writeResponse
    case Pass => Pass
    case Fail(status) => Fail(AddColumnsFailed(status))
  }

  /** `addSystemColumns`: read the header row; when some system column is
      missing, write back the header with the missing ones appended. */
  function AddSystemColumns(headerResponse: Response, writeResponse: Outcome<string>): (run: AddColumnsRun)
    ensures headerResponse.Failure? ==>
              run == AddColumnsRun([ReadHeaders], Fail(HeaderReadFailed(headerResponse.error)))
    ensures headerResponse.Success? ==> |run.calls| >= 1 && run.calls[0] == ReadHeaders
    ensures headerResponse.Success? ==>
              (run.calls == [ReadHeaders] <==> forall c :: c in SystemColumns ==> c in FirstRow(headerResponse.value))
    ensures headerResponse.Success? && run.calls == [ReadHeaders] ==> run.result == Pass
    ensures headerResponse.Success? && |run.calls| > 1 ==> |run.calls| == 2 && run.calls[1].WriteHeaders?
    ensures headerResponse.Success? && |run.calls| > 1 ==> run.result == WriteOutcome(writeResponse)
  {
    match headerResponse
    case Failure(status) => AddColumnsRun([ReadHeaders], Fail(HeaderReadFailed(status)))
    case Success(values) =>
      var current := FirstRow(values);
      var columnsToAdd := MissingColumns(current);
      if |columnsToAdd| == 0 then AddColumnsRun([ReadHeaders], Pass)
      else
        assert columnsToAdd[0] in columnsToAdd;
        var newHeaders := current + columnsToAdd;
        AddColumnsRun([ReadHeaders, WriteHeaders(newHeaders)], WriteOutcome(writeResponse))
  }

  /** The header `addSystemColumns` writes keeps every existing column where it
      was, appends only columns that were missing, and then holds every
      system column. */
  lemma AddedHeaders(current: Row, writeResponse: Outcome<string>)
    requires |AddSystemColumns(Success([current]), writeResponse).calls| == 2
    ensures var run := AddSystemColumns(Success([current]), writeResponse);
      && run.calls[1].WriteHeaders?
      && var written := run.calls[1].headers;
      && written == current + MissingColumns(current)
      && |written| > |current|
      && written[..|current|] == current
      && (forall c :: c in written[|current|..] ==> c in SystemColumns && c !in current)
      && (forall c :: c in SystemColumns ==> c in written)
  {
    var written := current + MissingColumns(current);
    assert written[..|current|] == current;
    assert written[|current|..] == MissingColumns(current);
  }

  /** Idempotence: once the header written by `addSystemColumns` is in place,
      a second call reads it and issues no write. */
  lemma AddSystemColumnsIdempotent(current: Row, first: Outcome<string>, second: Outcome<string>)
    requires |AddSystemColumns(Success([current]), first).calls| == 2
    ensures var written := AddSystemColumns(Success([current]), first).calls[1].headers;
            AddSystemColumns(Success([written]), second) == AddColumnsRun([ReadHeaders], Pass)
  {
    AddedHeaders(current, first);
    var written := AddSystemColumns(Success([current]), first).calls[1].headers;
    assert forall c :: c !in MissingColumns(written);
  }

  /** The missing columns come out in the order of the system-column list. */
  predicate InListOrder(xs: seq<string>, columns: seq<string>)
  {
    forall i, j :: 0 <= i < j < |xs| ==> IndexOf(columns, xs[i]) < IndexOf(columns, xs[j])
  }

  /** Past a first entry that differs, a name's position is one more than
      its position in the rest of the list. */
  lemma IndexOfPastHead(columns: seq<string>, c: string)
    requires columns != [] && c in columns[1..] && c != columns[0]
    ensures IndexOf(columns, c) == IndexOf(columns[1..], c) + 1
  {
  }

  /** Order relative to the rest of a list carries over to the whole list,
      also with its first entry in front. */
  lemma OrderPastHead(columns: seq<string>, tail: seq<string>)
    requires columns != []
    requires forall c :: c in tail ==> c in columns[1..] && c != columns[0]
    requires InListOrder(tail, columns[1..])
    ensures InListOrder(tail, columns)
    ensures InListOrder([columns[0]] + tail, columns)
  {
    forall c | c in tail ensures IndexOf(columns, c) == IndexOf(columns[1..], c) + 1 {
      IndexOfPastHead(columns, c);
    }
    var full := [columns[0]] + tail;
    forall i, j | 0 <= i < j < |full|
      ensures IndexOf(columns, full[i]) < IndexOf(columns, full[j])
    {
      assert full[j] == tail[j - 1] && full[j] in tail;
      if i > 0 {
        assert full[i] == tail[i - 1] && full[i] in tail;
      }
    }
    forall i, j | 0 <= i < j < |tail|
      ensures IndexOf(columns, tail[i]) < IndexOf(columns, tail[j])
    {
      assert tail[i] in tail && tail[j] in tail;
    }
  }

  lemma {:induction false} MissingInListOrder(columns: seq<string>, current: Row)
    requires forall i, j :: 0 <= i < j < |columns| ==> columns[i] != columns[j]
    ensures InListOrder(MissingFrom(columns, current), columns)
  {
    if columns != [] {
      var rest := columns[1..];
      MissingInListOrder(rest, current);
      var tail := MissingFrom(rest, current);
      forall c | c in tail ensures c in rest && c != columns[0] {
        var k :| 0 <= k < |rest| && rest[k] == c;
        assert columns[k + 1] == c;
      }
      OrderPastHead(columns, tail);
    }
  }

  lemma SystemColumnsInOrder(current: Row)
    ensures InListOrder(MissingColumns(current), SystemColumns)
  {
    SystemColumnsDistinct();
    MissingInListOrder(SystemColumns, current);
  }

  /** No system column is listed twice. */
  lemma SystemColumnsDistinct()
    ensures forall i, j :: 0 <= i < j < |SystemColumns| ==> SystemColumns[i] != SystemColumns[j]
  {
  }

  lemma AllColumnsPresentExample()
    ensures AddSystemColumns(Success([["name"] + SystemColumns]), Fail("unused")) == AddColumnsRun([ReadHeaders], Pass)
  {
    var h := ["name"] + SystemColumns;
    forall c | c in SystemColumns ensures c in h {
      assert h[1..] == SystemColumns;
    }
    assert forall c :: c !in MissingColumns(h);
  }

  // ---------------------------------------------------------------------------
  // buildRangeString
  // ---------------------------------------------------------------------------

  /** The optional part of a `readParticipants` request (`SheetRange`). */
  datatype SheetRange = SheetRange(sheetName: string, startRow: int, endRow: Option<int>,
                                   startColumn: Option<int>, endColumn: Option<int>)

  /** JavaScript truthiness of an optional number: absent and 0 are falsy. */
  predicate TruthyNumber(n: Option<int>)
  {
    n.Some? && n.value != 0
  }

  /** `'sheet'!` before a range when there is a sheet name. */
  function Qualified(sheet: string, a1: string): string
  {
    if sheet != "" then "'" + sheet + "'!" + a1 else a1
  }

  /** `buildRangeString` as written: each optional field is tested for
      truthiness, so a 0 `endColumn` falls back to column Z. */
  function BuildRangeString(serviceSheet: string, range: Option<SheetRange>): (r: string)
    ensures range.None? ==> r == Qualified(serviceSheet, "A:Z")
  {
    match range
    case None => Qualified(serviceSheet, "A:Z")
    case Some(rg) =>
      var colStart := if TruthyNumber(rg.startColumn) then ColumnLetters(rg.startColumn.value) else "A";
      var colEnd := if TruthyNumber(rg.endColumn) then ColumnLetters(rg.endColumn.value) else "Z";
      var rowStart := if rg.startRow != 0 then IntToString(rg.startRow) else "1";
      var rowEnd := if TruthyNumber(rg.endRow) then IntToString(rg.endRow.value) else "";
      var sheet := if rg.sheetName != "" then rg.sheetName else serviceSheet;
      Qualified(sheet, colStart + rowStart + ":") + (colEnd + rowEnd)
  }

  /** For a given range, `buildRangeString` gives the sheet qualifier (the
      range's own sheet, else the service's, and none when both are empty),
      then the start letters (`A` unless `startColumn` is truthy) and the
      start row (`startRow || 1`), a colon, and the end letters (`Z` unless
      `endColumn` is truthy) followed by `endRow || ''`. */
  lemma RangeStringParts(serviceSheet: string, rg: SheetRange)
    ensures var sheet := if rg.sheetName != "" then rg.sheetName else serviceSheet;
      var prefix := if sheet != "" then "'" + sheet + "'!" else "";
      var start := (if TruthyNumber(rg.startColumn) then ColumnLetters(rg.startColumn.value) else "A")
                   + (if rg.startRow != 0 then IntToString(rg.startRow) else "1");
      var end := (if TruthyNumber(rg.endColumn) then ColumnLetters(rg.endColumn.value) else "Z")
                 + (if TruthyNumber(rg.endRow) then IntToString(rg.endRow.value) else "");
      BuildRangeString(serviceSheet, Some(rg)) == prefix + start + ":" + end
  {
    var sheet := if rg.sheetName != "" then rg.sheetName else serviceSheet;
    var prefix := if sheet != "" then "'" + sheet + "'!" else "";
    var start := (if TruthyNumber(rg.startColumn) then ColumnLetters(rg.startColumn.value) else "A")
                 + (if rg.startRow != 0 then IntToString(rg.startRow) else "1");
    var end := (if TruthyNumber(rg.endColumn) then ColumnLetters(rg.endColumn.value) else "Z")
               + (if TruthyNumber(rg.endRow) then IntToString(rg.endRow.value) else "");
    assert BuildRangeString(serviceSheet, Some(rg)) == Qualified(sheet, start + ":") + end;
    assert Qualified(sheet, start + ":") == prefix + (start + ":");
    assert prefix + (start + ":") == prefix + start + ":";
  }

  /** As written, a range ending at column 0 (column A) reads through column Z:
      the request is the one for a range with no end column at all. */
  lemma EndColumnZeroReadsToZ(serviceSheet: string, rg: SheetRange)
    ensures BuildRangeString(serviceSheet, Some(rg.(endColumn := Some(0))))
         == BuildRangeString(serviceSheet, Some(rg.(endColumn := None)))
    ensures ColumnLetters(0) == "A"
  {
  }

  lemma EndColumnZeroExample()
    ensures BuildRangeString("Sheet1", Some(SheetRange("Sheet1", 1, None, None, Some(0)))) == "'Sheet1'!A1:Z"
  {
    assert IntToString(1) == "1";
  }

  /** `buildRangeString` with the column bounds tested for presence rather
      than truthiness, so that column 0 is honoured at either end. */
  function BuildRangeStringIntended(serviceSheet: string, range: Option<SheetRange>): (r: string)
    ensures range.None? ==> r == Qualified(serviceSheet, "A:Z")
  {
    match range
    case None => Qualified(serviceSheet, "A:Z")
    case Some(rg) =>
      var colStart := if rg.startColumn.Some? then ColumnLetters(rg.startColumn.value) else "A";
      var colEnd := if rg.endColumn.Some? then ColumnLetters(rg.endColumn.value) else "Z";
      var rowStart := if rg.startRow != 0 then IntToString(rg.startRow) else "1";
      var rowEnd := if TruthyNumber(rg.endRow) then IntToString(rg.endRow.value) else "";
      var sheet := if rg.sheetName != "" then rg.sheetName else serviceSheet;
      Qualified(sheet, colStart + rowStart + ":") + (colEnd + rowEnd)
  }

  /** The intended range ends at exactly the requested column, column 0
      included. */
  lemma IntendedRangeHonoursEndColumn(serviceSheet: string, rg: SheetRange)
    requires rg.endColumn.Some? && rg.endColumn.value >= 0
    ensures var r := BuildRangeStringIntended(serviceSheet, Some(rg));
            var tail := ColumnLetters(rg.endColumn.value) + (if TruthyNumber(rg.endRow) then IntToString(rg.endRow.value) else "");
            |r| > |tail| && r[|r| - |tail|..] == tail && r[|r| - |tail| - 1] == ':'
  {
    var colStart := if rg.startColumn.Some? then ColumnLetters(rg.startColumn.value) else "A";
    var rowStart := if rg.startRow != 0 then IntToString(rg.startRow) else "1";
    var sheet := if rg.sheetName != "" then rg.sheetName else serviceSheet;
    var a1 := colStart + rowStart + ":";
    var head := Qualified(sheet, a1);
    QualifiedLastChar(sheet, a1);
    var tail := ColumnLetters(rg.endColumn.value) + (if TruthyNumber(rg.endRow) then IntToString(rg.endRow.value) else "");
    EndsWith(head, tail);
  }

  lemma QualifiedLastChar(sheet: string, a1: string)
    requires |a1| > 0
    ensures var q := Qualified(sheet, a1);
            |q| > 0 && q[|q| - 1] == a1[|a1| - 1]
  {
  }

  lemma EndsWith(head: string, tail: string)
    requires |head| > 0
    ensures var r := head + tail;
            r[|r| - |tail|..] == tail && r[|r| - |tail| - 1] == head[|head| - 1]
  {
  }

  /** The correction changes nothing unless the end column is 0: column 0 at
      the start already read as `A` either way. */
  lemma IntendedRangeAgreesElsewhere(serviceSheet: string, rg: SheetRange)
    requires rg.endColumn != Some(0)
    ensures BuildRangeStringIntended(serviceSheet, Some(rg)) == BuildRangeString(serviceSheet, Some(rg))
  {
    assert ColumnLetters(0) == "A";
  }

  lemma IntendedRangeExample()
    ensures BuildRangeStringIntended("Sheet1", Some(SheetRange("Sheet1", 1, None, None, Some(0)))) == "'Sheet1'!A1:A"
  {
    assert IntToString(1) == "1";
    assert ColumnLetters(0) == "A";
  }
}
