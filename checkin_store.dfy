/** The mock check-in store (src/store/checkinStore.ts): a small state
    machine over the search query, the participant on display, a loading
    flag and an error message, backed by a module-level array of mock
    participants that a check-in overwrites in place.

    The 500 ms simulated delays are not modelled, so each action is seen from
    its start to its end; the rendered current time is the parameter
    `nowText`. */
module Store {
  import opened Wrappers
  import opened Types
  import opened Text

  /** The store's own participant record; its times are ISO strings. */
  datatype StoreParticipant = StoreParticipant(
    id: string,
    name: string,
    email: Option<string>,
    registrationTimestamp: string,
    checkinStatus: CheckinStatus,
    checkinAt: Option<string>,
    checkinBy: Option<string>,
    updatedAt: string,
    updatedBy: string)

  const NotFoundMessage: string := "参加者が見つかりません"
  const AlreadyCheckedInMessage: string := "すでにチェックイン済みです"
  const CurrentUser: string := "current-user@example.com"

  /** The initial contents of `mockParticipants`. */
  function MockParticipants(): seq<StoreParticipant>
  {
    [ StoreParticipant("p001", "田中太郎", Some("tanaka@example.com"), "2024-01-01T10:00:00Z",
                       NotCheckedIn, None, None, "2024-01-01T10:00:00Z", "system"),
      StoreParticipant("p002", "山田花子", Some("yamada@example.com"), "2024-01-02T11:00:00Z",
                       CheckedIn, Some("2024-01-10T09:00:00Z"), Some("staff@example.com"),
                       "2024-01-10T09:00:00Z", "staff@example.com"),
      StoreParticipant("p003", "佐藤次郎", Some("sato@example.com"), "2024-01-03T12:00:00Z",
                       NotCheckedIn, None, None, "2024-01-03T12:00:00Z", "system") ]
  }

  /** The search key of `searchParticipant`: an exact name match. */
  function Named(key: string): StoreParticipant -> bool
  {
    (p: StoreParticipant) => p.name == key
  }

  /** `mockParticipants.find(p => p.name === query.trim())`: only the query is
      trimmed, the stored names are compared as they are. */
  function SearchByName(ps: seq<StoreParticipant>, query: string): (r: Option<StoreParticipant>)
    ensures r.None? <==> forall j :: 0 <= j < |ps| ==> ps[j].name != Trim(query)
    ensures r.Some? ==> r.value in ps && r.value.name == Trim(query)
    ensures r.Some? ==> exists j :: 0 <= j < |ps| && ps[j] == r.value && ps[j].name == Trim(query)
                                    && forall i :: 0 <= i < j ==> ps[i].name != Trim(query)
  {
    Find(ps, Named(Trim(query)))
  }

  /** The search key of the check-in's `findIndex`. */
  function HasId(id: string): StoreParticipant -> bool
  {
    (p: StoreParticipant) => p.id == id
  }

  /** `mockParticipants.findIndex(p => p.id === id)`. */
  function IndexOfId(ps: seq<StoreParticipant>, id: string): (r: Option<nat>)
    ensures r.Some? ==> r.value < |ps| && ps[r.value].id == id
    ensures r.Some? ==> forall j :: 0 <= j < r.value ==> ps[j].id != id
    ensures r.None? <==> forall j :: 0 <= j < |ps| ==> ps[j].id != id
  {
    FirstIndex(ps, HasId(id))
  }

  /** The record a check-in produces from the one on display. */
  function CheckedInCopy(c: StoreParticipant, nowText: string): (r: StoreParticipant)
    ensures r.id == c.id && r.name == c.name && r.email == c.email
    ensures r.registrationTimestamp == c.registrationTimestamp
    ensures r.checkinStatus == CheckedIn && r.checkinAt == Some(nowText) && r.checkinBy == Some(CurrentUser)
    ensures r.updatedAt == nowText && r.updatedBy == CurrentUser
  {
    c.(checkinStatus := CheckedIn, checkinAt := Some(nowText), checkinBy := Some(CurrentUser),
       updatedAt := nowText, updatedBy := CurrentUser)
  }

  /** The mock array after checking in `c`: the first entry with `c`'s id is
      replaced by the checked-in copy, every other entry stays. */
  function AfterCheckin(ps: seq<StoreParticipant>, c: StoreParticipant, nowText: string): (r: seq<StoreParticipant>)
    ensures |r| == |ps|
    ensures IndexOfId(ps, c.id).None? ==> r == ps
    ensures IndexOfId(ps, c.id).Some? ==> r[IndexOfId(ps, c.id).value] == CheckedInCopy(c, nowText)
    ensures forall j :: 0 <= j < |ps| && Some(j) != IndexOfId(ps, c.id) ==> r[j] == ps[j]
  {
    match IndexOfId(ps, c.id)
    case None => ps
    case Some(k) => ps[k := CheckedInCopy(c, nowText)]
  }

  predicate UniqueIds(ps: seq<StoreParticipant>)
  {
    forall i, j :: 0 <= i < j < |ps| ==> ps[i].id != ps[j].id
  }

  /** A check-in overwrites at most the entry carrying `c`'s id, so every id
      stays where it was and unique ids stay unique. */
  lemma {:induction false} AfterCheckinKeepsIds(ps: seq<StoreParticipant>, c: StoreParticipant, nowText: string)
    ensures forall j :: 0 <= j < |ps| ==> AfterCheckin(ps, c, nowText)[j].id == ps[j].id
    ensures UniqueIds(ps) ==> UniqueIds(AfterCheckin(ps, c, nowText))
  {
    var r := AfterCheckin(ps, c, nowText);
    match IndexOfId(ps, c.id)
    case None =>
    case Some(k) =>
      assert r[k].id == c.id == ps[k].id;
  }

  /** The check-in persists: with unique ids, searching again for the name
      that found `c` now finds its checked-in copy, which a second check-in
      refuses. */
  lemma SearchAfterCheckin(ps: seq<StoreParticipant>, query: string, nowText: string)
    requires UniqueIds(ps)
    requires SearchByName(ps, query).Some?
    ensures var c := SearchByName(ps, query).value;
            SearchByName(AfterCheckin(ps, c, nowText), query) == Some(CheckedInCopy(c, nowText))
    ensures CheckedInCopy(SearchByName(ps, query).value, nowText).checkinStatus == CheckedIn
  {
    var key := Trim(query);
    var j := FirstIndex(ps, Named(key)).value;
    var c := ps[j];
    assert SearchByName(ps, query) == Some(c);
    var k := IndexOfId(ps, c.id).value;
    assert k == j;
    var after := ps[j := CheckedInCopy(c, nowText)];
    assert AfterCheckin(ps, c, nowText) == after;
    assert forall i :: 0 <= i < j ==> after[i] == ps[i];
    FirstIndexIs(after, Named(key), j);
  }

  /** Surrounding spaces in the query do not stop the search. */
  lemma SearchTrimsQuery()
    ensures SearchByName(MockParticipants(), " 山田花子 ") == Some(MockParticipants()[1])
  {
    TrimmedQuery();
    var ps := MockParticipants();
    assert ps[0].name != "山田花子";
    FirstIndexIs(ps, Named("山田花子"), 1);
  }

  lemma TrimmedQuery()
    ensures Trim(" 山田花子 ") == "山田花子"
  {
    var s := " 山田花子 ";
    LeadingWhitespaceIs(s, 1);
    TrailingWhitespaceIs(s[1..], 1);
    assert s[1..][..4] == "山田花子";
  }

  /** Part of a name finds nothing. */
  lemma SearchNeedsWholeName()
    ensures SearchByName(MockParticipants(), "田中") == None
  {
    var ps := MockParticipants();
    assert Trim("田中") == "田中" by {
      LeadingWhitespaceIs("田中", 0);
      TrailingWhitespaceIs("田中", 0);
    }
    assert ps[0].name != "田中" && ps[1].name != "田中" && ps[2].name != "田中";
  }

  /** `useCheckinStore`: the store's state and the mock array it shares. */
  class CheckinStore {
    var searchQuery: string
    var currentParticipant: Option<StoreParticipant>
    var loading: bool
    var error: Option<string>
    const participants: array<StoreParticipant>

    constructor()
      ensures searchQuery == "" && currentParticipant == None && !loading && error == None
      ensures fresh(participants) && participants[..] == MockParticipants()
    {
      searchQuery := "";
      currentParticipant := None;
      loading := false;
      error := None;
      var ps := MockParticipants();
      participants := new StoreParticipant[3](i requires 0 <= i < 3 => ps[i]);
    }

    method SetSearchQuery(query: string)
      modifies this
      ensures searchQuery == query
      ensures currentParticipant == old(currentParticipant) && loading == old(loading) && error == old(error)
    {
      searchQuery := query;
    }

    /** `searchParticipant`: clear the error and the participant on display,
        then show the first mock entry whose name equals the trimmed query, or
        report that none was found. */
    method SearchParticipant(name: string)
      modifies this
      ensures currentParticipant == SearchByName(participants[..], name)
      ensures error == (if currentParticipant.None? then Some(NotFoundMessage) else None)
      ensures !loading && searchQuery == old(searchQuery)
    {
      loading, error, currentParticipant := true, None, None;
      var normalizedName := Trim(name);
      var participant := Find(participants[..], Named(normalizedName));
      if participant.Some? {
        currentParticipant, loading := participant, false;
      } else {
        currentParticipant, loading, error := None, false, Some(NotFoundMessage);
      }
    }

    /** `checkinParticipant`: nothing to do without a participant on display;
        an error for one already checked in; otherwise overwrite its mock
        entry with the checked-in copy and display that copy. */
    method CheckinParticipant(nowText: string)
      modifies this, participants
      ensures old(currentParticipant).None? ==>
                currentParticipant == None && loading == old(loading) && error == old(error)
                && participants[..] == old(participants[..])
      ensures old(currentParticipant).Some? && old(currentParticipant).value.checkinStatus == CheckedIn ==>
                error == Some(AlreadyCheckedInMessage) && currentParticipant == old(currentParticipant)
                && loading == old(loading) && participants[..] == old(participants[..])
      ensures old(currentParticipant).Some? && old(currentParticipant).value.checkinStatus == NotCheckedIn ==>
                participants[..] == AfterCheckin(old(participants[..]), old(currentParticipant).value, nowText)
                && currentParticipant == Some(CheckedInCopy(old(currentParticipant).value, nowText))
                && !loading && error == old(error)
      ensures searchQuery == old(searchQuery)
    {
      if currentParticipant.None? {
        return;
      }
      var current := currentParticipant.value;
      if current.checkinStatus == CheckedIn {
        error := Some(AlreadyCheckedInMessage);
        return;
      }
      loading := true;
      var updated := CheckedInCopy(current, nowText);
      var participantIndex := IndexOfId(participants[..], current.id);
      if participantIndex.Some? {
        participants[participantIndex.value] := updated;
      }
      currentParticipant, loading := Some(updated), false;
    }

    method ClearError()
      modifies this
      ensures error == None
      ensures currentParticipant == old(currentParticipant) && loading == old(loading) && searchQuery == old(searchQuery)
    {
      error := None;
    }

    method ClearParticipant()
      modifies this
      ensures currentParticipant == None && searchQuery == ""
      ensures loading == old(loading) && error == old(error)
    {
      currentParticipant, searchQuery := None, "";
    }
  }
}
