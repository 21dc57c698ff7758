/** The driver record and the shape of arguments that the query functions
    accept. */
module DriverData {
  import opened Optional

  /** One driver profile as loaded from the static dataset. An `id` that is
      missing or empty (falsy in JavaScript) is the empty string;
      `currentStanding == 0` means "no current standing". */
  datatype Driver = Driver(
    id: string,
    name: string,
    nationality: string,
    team: string,
    isWorldChampion: bool,
    championshipYears: Option<seq<int>>,
    currentStanding: nat)

  /** What `Array.isArray` distinguishes: an array (its elements in order), or
      any other value. */
  datatype Input<T> = Array(items: seq<T>) | NotAnArray
}
