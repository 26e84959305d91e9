/** The catalog's record type, `IDuty`, and the result of fetching one source file. */
module Duties {

  /** The closed set of duty categories. */
  datatype DutyType = Dungeon | Trial | Raid

  /** The string a record's `type` field holds. */
  function TypeName(t: DutyType): (r: string)
    ensures |r| > 0
  {
    match t
    case Dungeon => "Dungeon"
    case Trial => "Trial"
    case Raid => "Raid"
  }

  /** The spelling determines the type: comparing `type` strings compares types. */
  lemma TypeNameInjective(a: DutyType, b: DutyType)
    ensures TypeName(a) == TypeName(b) <==> a == b
  {
    if a != b {
      assert TypeName(a)[0] != TypeName(b)[0];
    }
  }

  /** One catalog record. `id` is a JavaScript number that always holds an integer here. */
  datatype Duty = Duty(
    id: int,
    slug: string,
    title: string,
    tags: seq<string>,
    dutyType: DutyType,
    patch: string,
    backgroundImage: string,
    description: string)

  /** The test `d => d.id === k`. */
  function HasId(k: int): Duty -> bool {
    (d: Duty) => d.id == k
  }

  /**
   * What fetching and parsing one JSON source yields: an array of records, or
   * a failure (the request or `json()` rejected, or the value is not iterable
   * so that spreading it throws).
   */
  datatype Fetched = Loaded(records: seq<Duty>) | Unavailable
}
