/** The records shared by the services (src/types/participant.ts). Times are
    integer milliseconds since the epoch; the JavaScript `Date` objects of the
    source are not modelled beyond that number. */
module Types {
  import opened Wrappers

  datatype CheckinStatus = NotCheckedIn | CheckedIn

  /** One registrant as the services see it. `rowNumber` is the 1-based row of
      the spreadsheet the record was read from. */
  datatype Participant = Participant(
    id: string,
    name: string,
    email: Option<string>,
    checkinStatus: CheckinStatus,
    checkinAt: Option<int>,
    checkinBy: Option<string>,
    updatedAt: Option<int>,
    updatedBy: Option<string>,
    auditNote: Option<string>,
    rowNumber: Option<int>)

  /** The payload of a queued mutation (`ParticipantUpdate`). */
  datatype ParticipantUpdate = ParticipantUpdate(
    participantId: string,
    checkinStatus: CheckinStatus,
    checkinAt: Option<int>,
    checkinBy: Option<string>,
    auditNote: Option<string>,
    undoReason: Option<string>)

  /** The wire spelling of a status in the `_checkin_status` column. */
  function StatusText(s: CheckinStatus): (r: string)
    ensures r == "checked_in" || r == "not_checked_in"
    ensures r == "checked_in" <==> s == CheckedIn
  {
    match s
    case CheckedIn => "checked_in"
    case NotCheckedIn => "not_checked_in"
  }

  /** JavaScript truthiness of an optional string: absent and `''` are falsy. */
  predicate Truthy(s: Option<string>)
  {
    s.Some? && s.value != ""
  }

  /** `s || fallback` on an optional string. */
  function OrElse(s: Option<string>, fallback: string): (r: string)
    ensures Truthy(s) ==> r == s.value
    ensures !Truthy(s) ==> r == fallback
  {
    if Truthy(s) then s.value else fallback
  }

  /** `s || undefined`: an empty string reads as absent. */
  function NonEmpty(s: Option<string>): (r: Option<string>)
    ensures r.Some? <==> Truthy(s)
    ensures r.Some? ==> r == s
  {
    if Truthy(s) then s else None
  }
}
