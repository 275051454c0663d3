/** The check-in service (src/services/checkin.ts): name search through a
    name-keyed cache, check-in and its time-limited undo, each working on a
    fresh read of the participant sheet and writing back through
    `Sheets.UpdateParticipant`.

    The sheet responses are parameters (`read` for `readParticipants`,
    `headerResponse` and `batchResponse` for the two requests of
    `updateParticipant`), the clock is the parameter `now` (milliseconds), and
    `render` stands for `Date.prototype.toISOString`. */
module Checkin {
  import opened Wrappers
  import opened Types
  import opened Text
  import Sheets

  /** `UNDO_TIME_LIMIT`: five minutes in milliseconds. */
  const UndoTimeLimit: int := 5 * 60 * 1000

  /** What `getCurrentUser` returns. */
  const CurrentUser: string := "current-user@example.com"

  /** The action label passed to `recordAuditLog` on check-in and the reason
      passed to `undoReason` on undo. The source's literals are not legible
      text; these stand in for them. */
  const CheckinAction: string := "チェックイン"
  const UndoReason: string := "取り消し"

  /** Why a service call rejects. */
  datatype CheckinError =
    | ReadFailed(cause: Sheets.SheetsError)
    | NotFound
    | AlreadyCheckedIn
    | CannotUndo
    | UpdateFailed(cause: Sheets.SheetsError)

  // ---------------------------------------------------------------------------
  // normalizeNameForSearch
  // ---------------------------------------------------------------------------

  /** `normalizeNameForSearch`: `trim` and nothing else, so the comparison
      stays case-sensitive. */
  function Normalize(name: string): (r: string)
    ensures Trim(r) == r
    ensures |r| <= |name|
    ensures (forall i :: 0 <= i < |name| ==> !IsWhitespace(name[i])) ==> r == name
  {
    TrimIdempotent(name);
    PlainNameTrimmed(name);
    Trim(name)
  }

  /** A name without white space is its own trimmed form. */
  lemma PlainNameTrimmed(name: string)
    ensures (forall i :: 0 <= i < |name| ==> !IsWhitespace(name[i])) ==> Trim(name) == name
  {
    if forall i :: 0 <= i < |name| ==> !IsWhitespace(name[i]) {
      LeadingWhitespaceIs(name, 0);
      assert name[0..] == name;
      TrailingWhitespaceIs(name, 0);
    }
  }

  // ---------------------------------------------------------------------------
  // Searches over a fresh read
  // ---------------------------------------------------------------------------

  /** `participants.find(p => normalize(p.name) === key)`. */
  function FirstNamed(ps: seq<Participant>, key: string): (r: Option<Participant>)
    ensures r.None? <==> forall j :: 0 <= j < |ps| ==> Normalize(ps[j].name) != key
    ensures r.Some? ==> exists j :: 0 <= j < |ps| && ps[j] == r.value && Normalize(ps[j].name) == key
                                    && forall i :: 0 <= i < j ==> Normalize(ps[i].name) != key
  {
    Find(ps, (p: Participant) => Normalize(p.name) == key)
  }

  /** `participants.find(p => p.id === participantId)`. */
  function FirstWithId(ps: seq<Participant>, id: string): (r: Option<Participant>)
    ensures r.None? <==> forall j :: 0 <= j < |ps| ==> ps[j].id != id
    ensures r.Some? ==> r.value.id == id && r.value in ps
    ensures r.Some? ==> exists j :: 0 <= j < |ps| && ps[j] == r.value
                                    && forall i :: 0 <= i < j ==> ps[i].id != id
  {
    Find(ps, (p: Participant) => p.id == id)
  }

  /** The guards `checkinParticipant` applies before writing: the read must
      succeed, some participant must carry the id, and the first that does
      must not be checked in already. */
  function CheckinTarget(read: Sheets.Response, parse: string -> int, id: string): (r: Result<Participant, CheckinError>)
    ensures read.Failure? ==> r == Failure(ReadFailed(Sheets.ReadFailed(read.error)))
    ensures read.Success? ==>
              (r == Failure(NotFound) <==> forall p :: p in Sheets.ParseRows(read.value, parse) ==> p.id != id)
    ensures read.Success? && r.Failure? ==> r.error == NotFound || r.error == AlreadyCheckedIn
    ensures r == Failure(AlreadyCheckedIn) <==>
              read.Success? && FirstWithId(Sheets.ParseRows(read.value, parse), id).Some?
              && FirstWithId(Sheets.ParseRows(read.value, parse), id).value.checkinStatus == CheckedIn
    ensures r.Success? ==>
              read.Success? && r.value == FirstWithId(Sheets.ParseRows(read.value, parse), id).value
              && r.value.id == id && r.value.checkinStatus == NotCheckedIn
  {
    match read
    case Failure(status) => Failure(ReadFailed(Sheets.ReadFailed(status)))
    case Success(rows) =>
      var ps := Sheets.ParseRows(rows, parse);
      match FirstWithId(ps, id)
      case None =>
        assert forall p :: p in ps ==> p.id != id by {
          forall p | p in ps ensures p.id != id {
            var j :| 0 <= j < |ps| && ps[j] == p;
          }
        }
        Failure(NotFound)
      case Some(p) =>
        if p.checkinStatus == CheckedIn then Failure(AlreadyCheckedIn) else Success(p)
  }

  /** The guards `undoCheckin` applies before writing: the read must succeed,
      some participant must carry the id, and the first that does must still
      be within its undo window. */
  function UndoTarget(read: Sheets.Response, parse: string -> int, id: string, now: int): (r: Result<Participant, CheckinError>)
    ensures read.Failure? ==> r == Failure(ReadFailed(Sheets.ReadFailed(read.error)))
    ensures read.Success? ==>
              (r == Failure(NotFound) <==> forall p :: p in Sheets.ParseRows(read.value, parse) ==> p.id != id)
    ensures read.Success? && r.Failure? ==> r.error == NotFound || r.error == CannotUndo
    ensures r == Failure(CannotUndo) <==>
              read.Success? && FirstWithId(Sheets.ParseRows(read.value, parse), id).Some?
              && !CanUndo(FirstWithId(Sheets.ParseRows(read.value, parse), id).value, now)
    ensures r.Success? ==>
              read.Success? && r.value == FirstWithId(Sheets.ParseRows(read.value, parse), id).value
              && r.value.id == id && CanUndo(r.value, now)
  {
    match read
    case Failure(status) => Failure(ReadFailed(Sheets.ReadFailed(status)))
    case Success(rows) =>
      var ps := Sheets.ParseRows(rows, parse);
      match FirstWithId(ps, id)
      case None =>
        assert forall p :: p in ps ==> p.id != id by {
          forall p | p in ps ensures p.id != id {
            var j :| 0 <= j < |ps| && ps[j] == p;
          }
        }
        Failure(NotFound)
      case Some(p) =>
        if !CanUndo(p, now) then Failure(CannotUndo) else Success(p)
  }

  // ---------------------------------------------------------------------------
  // Records written by check-in and undo
  // ---------------------------------------------------------------------------

  /** `canUndo`: a record with no check-in time cannot be undone; otherwise the
      undo is allowed while at most `UndoTimeLimit` ms have passed. */
  function CanUndo(p: Participant, now: int): (b: bool)
    ensures b ==> p.checkinAt.Some?
    ensures p.checkinAt.Some? ==> (b <==> now <= p.checkinAt.value + UndoTimeLimit)
  {
    p.checkinAt.Some? && now - p.checkinAt.value <= UndoTimeLimit
  }

  /** The undo window is closed at its far end, opens at the check-in, and
      once it has closed it stays closed. */
  lemma UndoWindow(p: Participant, now: int, later: int)
    requires p.checkinAt.Some?
    ensures CanUndo(p, p.checkinAt.value + UndoTimeLimit)
    ensures !CanUndo(p, p.checkinAt.value + UndoTimeLimit + 1)
    ensures CanUndo(p, p.checkinAt.value)
    ensures now <= later && !CanUndo(p, now) ==> !CanUndo(p, later)
  {
  }

  lemma NoUndoWithoutCheckinTime(p: Participant, now: int)
    requires p.checkinAt.None?
    ensures !CanUndo(p, now)
  {
  }

  /** The copy of `p` that `checkinParticipant` hands to `updateParticipant`. */
  function CheckedInRecord(p: Participant, now: int): (r: Participant)
    ensures r.id == p.id && r.name == p.name && r.email == p.email
    ensures r.rowNumber == p.rowNumber && r.auditNote == p.auditNote
    ensures r.checkinStatus == CheckedIn && CanUndo(r, now)
  {
    p.(checkinStatus := CheckedIn, checkinAt := Some(now), checkinBy := Some(CurrentUser),
       updatedAt := Some(now), updatedBy := Some(CurrentUser))
  }

  /** The note `recordAuditLog` stores on the record after the write. */
  function AuditNote(action: string, now: int, render: int -> string): (r: string)
    ensures |r| == |action| + 3 + |render(now)| + 4 + |CurrentUser|
    ensures r[..|action|] == action
    ensures r[|action| + 3..|action| + 3 + |render(now)|] == render(now)
    ensures r[|r| - |CurrentUser|..] == CurrentUser
  {
    action + " - " + render(now) + " by " + CurrentUser
  }

  /** The fixed head of the note `undoReason` builds. */
  const UndoNotePrefix: string := "チェックイン取り消し: " + UndoReason

  /** The note `undoReason` builds. */
  function UndoNote(now: int, render: int -> string): (r: string)
    ensures |r| == |UndoNotePrefix| + 3 + |render(now)| + 4 + |CurrentUser|
    ensures r[..|UndoNotePrefix|] == UndoNotePrefix
    ensures r[|UndoNotePrefix| + 3..|UndoNotePrefix| + 3 + |render(now)|] == render(now)
    ensures r[|r| - |CurrentUser|..] == CurrentUser
  {
    UndoNotePrefix + " - " + render(now) + " by " + CurrentUser
  }

  /** The copy of `p` that `undoCheckin` hands to `updateParticipant`. */
  function UndoneRecord(p: Participant, now: int, render: int -> string): (r: Participant)
    ensures r.id == p.id && r.name == p.name && r.email == p.email && r.rowNumber == p.rowNumber
    ensures r.checkinStatus == NotCheckedIn && r.checkinBy == None
    ensures r.updatedAt == Some(now) && r.updatedBy == Some(CurrentUser)
    ensures forall later :: !CanUndo(r, later)
    ensures r.auditNote == Some(UndoNote(now, render))
  {
    p.(checkinStatus := NotCheckedIn, checkinAt := None, checkinBy := None,
       updatedAt := Some(now), updatedBy := Some(CurrentUser), auditNote := Some(UndoNote(now, render)))
  }

  /** A check-in changes only the check-in and update fields: identity, name,
      e-mail, row and audit note are those of the record read. It marks the
      participant checked in, and the undo window opens at that moment. */
  lemma CheckedInRecordFields(p: Participant, now: int, later: int)
    ensures var u := CheckedInRecord(p, now);
      && u.id == p.id && u.name == p.name && u.email == p.email
      && u.rowNumber == p.rowNumber && u.auditNote == p.auditNote
      && u.checkinStatus == CheckedIn && u.checkinAt == Some(now) && u.checkinBy == Some(CurrentUser)
      && u.updatedAt == Some(now) && u.updatedBy == Some(CurrentUser)
      && (CanUndo(u, later) <==> later - now <= UndoTimeLimit)
  {
  }

  /** Undoing a check-in of a participant that had never checked in gives back
      the original record apart from the update stamp and the audit note. */
  lemma UndoAfterCheckin(p: Participant, t: int, now: int, render: int -> string)
    requires p.checkinStatus == NotCheckedIn && p.checkinAt.None? && p.checkinBy.None?
    ensures UndoneRecord(CheckedInRecord(p, t), now, render)
         == p.(updatedAt := Some(now), updatedBy := Some(CurrentUser), auditNote := Some(UndoNote(now, render)))
  {
  }

  /** Re-reading a sheet that kept every id in place finds the same first
      position for `id`. */
  lemma FirstWithIdKept(ps: seq<Participant>, ps': seq<Participant>, id: string, j: int)
    ensures && 0 <= j < |ps| && ps[j].id == id && (forall i :: 0 <= i < j ==> ps[i].id != id)
            && |ps'| == |ps| && (forall i :: 0 <= i < |ps| ==> ps'[i].id == ps[i].id) ==>
              FirstWithId(ps', id) == Some(ps'[j])
  {
    if && 0 <= j < |ps| && ps[j].id == id && (forall i :: 0 <= i < j ==> ps[i].id != id)
       && |ps'| == |ps| && (forall i :: 0 <= i < |ps| ==> ps'[i].id == ps[i].id)
    {
      var r := FirstWithId(ps', id);
      assert ps'[j].id == id;
      var k :| 0 <= k < |ps'| && ps'[k] == r.value && forall i :: 0 <= i < k ==> ps'[i].id != id;
      assert !(k < j) && !(j < k);
    }
  }

  /** Checking a participant in and then checking the same id in again: once
      the checked-in copy is written into the sheet it was read from (whose
      header has the status column), the second check-in is refused with
      `AlreadyCheckedIn`. */
  lemma SecondCheckinRefused(rows: Sheets.Grid, parse: string -> int, id: string, now: int,
                             render: int -> string)
    requires CheckinTarget(Success(rows), parse, id).Success?
    requires Sheets.StatusColumn in Sheets.FirstRow(rows)
    ensures Sheets.AllInGrid(rows, Sheets.WritePlan(Sheets.FirstRow(rows),
              CheckedInRecord(CheckinTarget(Success(rows), parse, id).value, now), now, render))
    ensures CheckinTarget(Success(Sheets.ApplyWrites(rows, Sheets.WritePlan(Sheets.FirstRow(rows),
              CheckedInRecord(CheckinTarget(Success(rows), parse, id).value, now), now, render))),
              parse, id) == Failure(AlreadyCheckedIn)
  {
    var ps := Sheets.ParseRows(rows, parse);
    var q := CheckedInRecord(CheckinTarget(Success(rows), parse, id).value, now);
    var j :| 0 <= j < |ps| && ps[j].id == id && (forall i :: 0 <= i < j ==> ps[i].id != id)
             && q.rowNumber == Some(j + 2);
    Sheets.UpdateKeepsIds(rows, q, now, render, parse, j);
    Sheets.UpdateReadsBackStatus(rows, q, now, render, parse, j);
    FirstWithIdKept(ps, Sheets.ParseRows(Sheets.ApplyWrites(rows, Sheets.WritePlan(rows[0], q, now, render)), parse), id, j);
  }

  /** As written, `readParticipants` reads `A:Z` only: on a sheet whose header
      holds `_checkin_status` past column `Z`, a check-in is never refused as
      already done, whatever the status cells hold. */
  lemma CheckinNeverRefusedPastZ(rows: Sheets.Grid, parse: string -> int, id: string)
    requires Sheets.IndexOf(Sheets.FirstRow(rows), Sheets.StatusColumn) >= Sheets.ReadWidth
    ensures CheckinTarget(Success(Sheets.ReadRange(rows)), parse, id) != Failure(AlreadyCheckedIn)
  {
    var ps := Sheets.ParseRows(Sheets.ReadRange(rows), parse);
    var first := FirstWithId(ps, id);
    if first.Some? {
      var k :| 0 <= k < |ps| && ps[k] == first.value;
      Sheets.StatusPastZUnread(rows, parse, k);
    }
  }

  /** As written, checking in the participant `p` of body row `j` on such a
      sheet and then checking any id in: the sheet holds `checked_in` in
      `p`'s status cell, yet the check-in, reading `A:Z`, is not refused as
      already done. */
  lemma SecondCheckinPastZNotRefused(rows: Sheets.Grid, parse: string -> int, id: string, p: Participant,
                                     now: int, render: int -> string, j: nat)
    requires |rows| > 0 && j < |rows| - 1 && p.rowNumber == Some(j + 2)
    requires Sheets.IndexOf(rows[0], Sheets.StatusColumn) >= Sheets.ReadWidth
    ensures Sheets.AllInGrid(rows, Sheets.WritePlan(rows[0], CheckedInRecord(p, now), now, render))
    ensures var written := Sheets.ApplyWrites(rows, Sheets.WritePlan(rows[0], CheckedInRecord(p, now), now, render));
      && Sheets.Cell(written[j + 1], Sheets.IndexOf(rows[0], Sheets.StatusColumn)) == "checked_in"
      && CheckinTarget(Success(Sheets.ReadRange(written)), parse, id) != Failure(AlreadyCheckedIn)
  {
    var q := CheckedInRecord(p, now);
    Sheets.UpdateWritesCell(rows, q, now, render, j, Sheets.StatusColumn);
    var written := Sheets.ApplyWrites(rows, Sheets.WritePlan(rows[0], q, now, render));
    assert Sheets.FirstRow(written) == rows[0];
    CheckinNeverRefusedPastZ(written, parse, id);
  }

  // ---------------------------------------------------------------------------
  // The service
  // ---------------------------------------------------------------------------

  /** `CheckinService`; its only state is the search cache, keyed by the
      normalised name. */
  class CheckinService {
    var cache: map<string, Participant>

    constructor()
      ensures cache == map[]
    {
      cache := map[];
    }

    /** `searchParticipant`: a cache hit answers without reading the sheet;
        otherwise the first participant whose normalised name equals the
        normalised query is returned and cached under that key. `readIssued`
        says whether `readParticipants` was called. */
    method SearchParticipant(name: string, read: Sheets.Response, parse: string -> int)
      returns (r: Result<Option<Participant>, CheckinError>, readIssued: bool)
      modifies this
      ensures Normalize(name) in old(cache) ==>
                !readIssued && r == Success(Some(old(cache)[Normalize(name)])) && cache == old(cache)
      ensures Normalize(name) !in old(cache) ==> readIssued
      ensures Normalize(name) !in old(cache) && read.Failure? ==>
                r == Failure(ReadFailed(Sheets.ReadFailed(read.error))) && cache == old(cache)
      ensures Normalize(name) !in old(cache) && read.Success? ==>
                r == Success(FirstNamed(Sheets.ParseRows(read.value, parse), Normalize(name)))
                && cache == (if r.value.Some? then old(cache)[Normalize(name) := r.value.value] else old(cache))
    {
      var normalizedName := Normalize(name);
      if normalizedName in cache {
        return Success(Some(cache[normalizedName])), false;
      }
      readIssued := true;
      var participants := Sheets.ReadParticipants(read, parse);
      if participants.Failure? {
        return Failure(ReadFailed(participants.error)), readIssued;
      }
      var participant := FirstNamed(participants.value, normalizedName);
      if participant.Some? {
        cache := cache[normalizedName := participant.value];
      }
      r := Success(participant);
    }

    /** `checkinParticipant`: refuse an unknown id or a participant already
        checked in; otherwise write the checked-in copy and, once the write
        has gone through, cache it under its normalised name. The cached
        object then receives the audit note (the source mutates it after the
        write, so the sheet keeps the previous note). `sent` is the record
        handed to `updateParticipant`, if any. */
    method CheckinParticipant(id: string, read: Sheets.Response, parse: string -> int,
                              headerResponse: Sheets.Response, batchResponse: Outcome<string>,
                              now: int, render: int -> string)
      returns (r: Outcome<CheckinError>, sent: Option<Participant>)
      modifies this
      ensures CheckinTarget(read, parse, id).Failure? ==>
                r == Fail(CheckinTarget(read, parse, id).error) && sent == None && cache == old(cache)
      ensures CheckinTarget(read, parse, id).Success? ==>
                sent == Some(CheckedInRecord(CheckinTarget(read, parse, id).value, now))
      ensures sent.Some? && Sheets.UpdateSucceeds(sent.value, headerResponse, batchResponse) ==>
                r == Pass
                && cache == old(cache)[Normalize(sent.value.name) :=
                                         sent.value.(auditNote := Some(AuditNote(CheckinAction, now, render)))]
      ensures sent.Some? && !Sheets.UpdateSucceeds(sent.value, headerResponse, batchResponse) ==>
                r.Fail? && r.error.UpdateFailed? && cache == old(cache)
    {
      var target := CheckinTarget(read, parse, id);
      if target.Failure? {
        return Fail(target.error), None;
      }
      var updated := CheckedInRecord(target.value, now);
      sent := Some(updated);
      var calls, written := Sheets.UpdateParticipant(updated, headerResponse, batchResponse, now, render);
      assert written.Pass? <==> Sheets.UpdateSucceeds(updated, headerResponse, batchResponse);
      if written.Fail? {
        return Fail(UpdateFailed(written.error)), sent;
      }
      // updateCheckinStatus caches the object that recordAuditLog then
      // mutates, so the cache ends up holding the record with the new note.
      cache := cache[Normalize(updated.name) := updated.(auditNote := Some(AuditNote(CheckinAction, now, render)))];
      r := Pass;
    }

    /** `undoCheckin`: refuse an unknown id or a check-in older than the undo
        window (or none at all); otherwise write the cleared copy with an undo
        note. The cache is left as it was, whatever happens. */
    method UndoCheckin(id: string, read: Sheets.Response, parse: string -> int,
                       headerResponse: Sheets.Response, batchResponse: Outcome<string>,
                       now: int, render: int -> string)
      returns (r: Outcome<CheckinError>, sent: Option<Participant>)
      ensures UndoTarget(read, parse, id, now).Failure? ==>
                r == Fail(UndoTarget(read, parse, id, now).error) && sent == None
      ensures UndoTarget(read, parse, id, now).Success? ==>
                sent == Some(UndoneRecord(UndoTarget(read, parse, id, now).value, now, render))
      ensures sent.Some? ==> (r == Pass <==> Sheets.UpdateSucceeds(sent.value, headerResponse, batchResponse))
      ensures sent.Some? && r.Fail? ==> r.error.UpdateFailed?
    {
      var target := UndoTarget(read, parse, id, now);
      if target.Failure? {
        return Fail(target.error), None;
      }
      var updated := UndoneRecord(target.value, now, render);
      sent := Some(updated);
      var calls, written := Sheets.UpdateParticipant(updated, headerResponse, batchResponse, now, render);
      assert written.Pass? <==> Sheets.UpdateSucceeds(updated, headerResponse, batchResponse);
      r := if written.Fail? then Fail(UpdateFailed(written.error)) else Pass;
    }
  }
}
