/** `DriverList` from `src/components/DriverList.jsx`: three pieces of state
    (`drivers`, `loading`, `error`) driven by one fetch when the component
    mounts, and the choice of what to show from them. The search function is
    a parameter: its implementation is not part of this model. */
module DriverList {
  import opened Optional
  import opened DriverData
  import opened Seqs

  const FetchErrorMessage: string := "Failed to load driver data. Please try again later."

  /** An element of the loaded list: a record, or `null`/`undefined`. */
  type Entry = Option<Driver>

  /** The search the list applies before rendering: `searchDrivers(drivers, query)`. */
  type Search = (seq<Entry>, string) -> seq<Entry>

  /** How the one fetch settles: resolved with the loaded value (`None` for
      `null` or `undefined`), or rejected. */
  datatype FetchOutcome = Resolved(data: Option<seq<Entry>>) | Rejected

  /** What the component renders: "Loading drivers...", the error text,
      "No driver data available.", "No drivers found matching your search.",
      or one card per driver. */
  datatype View =
    | LoadingMessage
    | ErrorMessage(message: string)
    | NoDataMessage
    | NoMatchesMessage
    | CardList(cards: seq<Driver>)

  /** `if (error)`: a non-empty string is truthy, `null` is not. The one
      message the fetch records is truthy, so it is always shown. */
  predicate IsTruthy(error: Option<string>): (truthy: bool)
    ensures truthy ==> error.Some?
    ensures error == Some(FetchErrorMessage) ==> truthy
  {
    error.Some? && error.value != ""
  }

  /** A record whose id is present and non-empty: exactly the entries the
      guard `!driver || !driver.id` lets through to a card. */
  predicate HasId(e: Entry)
  {
    e.Some? && e.value.id != ""
  }

  /** The cards of `filteredDrivers.map(...)`: entries without an id render
      nothing, every other entry renders its driver. */
  function CardsOf(entries: seq<Entry>): (cards: seq<Driver>)
    ensures |cards| <= |entries|
    ensures forall i :: 0 <= i < |cards| ==> cards[i].id != ""
  {
    var kept := Filter(entries, HasId);
    seq(|kept|, i requires 0 <= i < |kept| => kept[i].value)
  }

  /** Exactly one card per entry that has an id, in the entries' order: the
      cards sit at strictly increasing positions of the list, and a position
      is used exactly when its entry has an id. */
  lemma CardsOfSelectsRecordsWithId(entries: seq<Entry>) returns (idx: seq<nat>)
    ensures |idx| == |CardsOf(entries)|
    ensures forall i, j :: 0 <= i < j < |idx| ==> idx[i] < idx[j]
    ensures forall i :: 0 <= i < |idx| ==> idx[i] < |entries| && entries[idx[i]] == Some(CardsOf(entries)[i])
    ensures forall k :: 0 <= k < |entries| ==> (HasId(entries[k]) <==> k in idx)
  {
    idx := FilterSelectsExactly(entries, HasId);
  }

  /** With every entry carrying an id, an unfiltered list shows every driver. */
  lemma CardsOfAllRecords(entries: seq<Entry>)
    requires forall i :: 0 <= i < |entries| ==> HasId(entries[i])
    ensures |CardsOf(entries)| == |entries|
    ensures forall i :: 0 <= i < |entries| ==> entries[i] == Some(CardsOf(entries)[i])
  {
    FilterIdentity(entries, HasId);
  }

  /** The render path: loading first, then the error, then an empty list,
      then an empty search result, and only then the cards. */
  function SelectView(loading: bool, error: Option<string>, drivers: Option<seq<Entry>>,
                      searchQuery: string, search: Search): (v: View)
    ensures v == LoadingMessage <==> loading
    ensures v.ErrorMessage? <==> !loading && IsTruthy(error)
    ensures v.ErrorMessage? ==> v.message == error.value
    ensures v == NoDataMessage <==> !loading && !IsTruthy(error) && (drivers.None? || drivers.value == [])
    ensures v == NoMatchesMessage <==>
              !loading && !IsTruthy(error) && drivers.Some? && drivers.value != []
              && search(drivers.value, searchQuery) == []
    ensures v.CardList? ==> drivers.Some? && v.cards == CardsOf(search(drivers.value, searchQuery))
  {
    if loading then LoadingMessage
    else if IsTruthy(error) then ErrorMessage(error.value)
    else if drivers.None? || |drivers.value| == 0 then NoDataMessage
    else
      var filteredDrivers := search(drivers.value, searchQuery);
      if |filteredDrivers| == 0 then NoMatchesMessage
      else CardList(CardsOf(filteredDrivers))
  }

  /** The search is consulted only once there is data to search: before that
      the view is the same whatever the search does. */
  lemma ViewIgnoresSearchWithoutData(loading: bool, error: Option<string>, drivers: Option<seq<Entry>>,
                                     searchQuery: string, search1: Search, search2: Search)
    requires loading || IsTruthy(error) || drivers.None? || drivers.value == []
    ensures SelectView(loading, error, drivers, searchQuery, search1)
            == SelectView(loading, error, drivers, searchQuery, search2)
  {
  }

  /** The component's state. `Valid` is what the fetch protocol keeps: no
      error is recorded while loading, and the only error ever recorded is
      the fixed message. */
  class DriverListState {
    var drivers: Option<seq<Entry>>
    var loading: bool
    var error: Option<string>

    ghost predicate Valid()
      reads this
    {
      && (loading ==> error == None)
      && (error.Some? ==> error.value == FetchErrorMessage)
    }

    /** `useState([])`, `useState(true)`, `useState(null)`. */
    constructor ()
      ensures Valid()
      ensures drivers == Some([]) && loading && error == None
    {
      drivers := Some([]);
      loading := true;
      error := None;
    }

    /** What the component renders in this state. */
    function View(searchQuery: string, search: Search): View
      reads this
    {
      SelectView(loading, error, drivers, searchQuery, search)
    }

    /** The start of `fetchDrivers`: `setLoading(true)` and `setError(null)`. */
    method BeginFetch()
      requires Valid()
      modifies this
      ensures Valid()
      ensures loading && error == None && drivers == old(drivers)
    {
      loading := true;
      error := None;
    }

    /** The rest of `fetchDrivers` once `getDrivers()` settles: a resolved
        value is stored with `setDrivers`, a rejection records the fixed
        message and leaves the list alone, and `finally` clears `loading`.
        The fetch settles only after it began, so `loading` is set. */
    method Settle(outcome: FetchOutcome)
      requires Valid() && loading
      modifies this
      ensures Valid() && !loading
      ensures outcome.Resolved? ==> drivers == outcome.data && error == None
      ensures outcome.Rejected? ==> drivers == old(drivers) && error == Some(FetchErrorMessage)
    {
      match outcome {
        case Resolved(data) =>
          drivers := data;
        case Rejected =>
          error := Some(FetchErrorMessage);
      }
      loading := false;
    }
  }

  /** One mount of the component: the first render, the effect's fetch, and
      the render after the fetch settles. */
  method Mount(outcome: FetchOutcome, searchQuery: string, search: Search)
    returns (first: View, settled: View)
    ensures first == LoadingMessage
    ensures outcome.Rejected? ==> settled == ErrorMessage(FetchErrorMessage)
    ensures outcome.Resolved? ==> settled == SelectView(false, None, outcome.data, searchQuery, search)
    ensures outcome.Resolved? && (outcome.data.None? || outcome.data.value == []) ==> settled == NoDataMessage
  {
    var list := new DriverListState();
    first := list.View(searchQuery, search);
    list.BeginFetch();
    list.Settle(outcome);
    settled := list.View(searchQuery, search);
  }
}
