/** `loadDuties` of src/lib/dutylogic.ts: dungeons and trials, combined and sorted by id. */
module DutyLogic {
  import opened Seqs
  import opened Duties
  import opened Sorting

  /**
   * Both sources loaded: their concatenation sorted by id (the code sorts it
   * twice, and the `Array.isArray` guard between the sorts cannot fail). Any
   * failure, including a non-iterable value, makes the whole result empty.
   * Raids are not read.
   */
  function LoadDuties(dungeons: Fetched, trials: Fetched): (r: seq<Duty>)
    ensures dungeons.Unavailable? || trials.Unavailable? ==> r == []
    ensures dungeons.Loaded? && trials.Loaded? ==>
              IsStableSortOf(r, dungeons.records + trials.records)
    ensures dungeons.Loaded? && trials.Loaded? ==>
              |r| == |dungeons.records| + |trials.records|
  {
    if dungeons.Loaded? && trials.Loaded? then
      var combined := SortDutiesById(dungeons.records + trials.records);
      SortIdempotent(dungeons.records + trials.records);
      SortIsStable(dungeons.records + trials.records);
      SortDutiesById(combined)
    else
      []
  }

  /** Every record of the result is a dungeon-source or trial-source record, with its multiplicity: raids never appear. */
  lemma LoadDutiesOnlyDungeonsAndTrials(dungeons: seq<Duty>, trials: seq<Duty>)
    ensures multiset(LoadDuties(Loaded(dungeons), Loaded(trials))) == multiset(dungeons) + multiset(trials)
    ensures forall x :: x in LoadDuties(Loaded(dungeons), Loaded(trials)) ==> x in dungeons || x in trials
  {
    var r := LoadDuties(Loaded(dungeons), Loaded(trials));
    SameOrderPerIdPermutes(r, dungeons + trials);
    assert multiset(dungeons + trials) == multiset(dungeons) + multiset(trials);
    forall x | x in r ensures x in dungeons || x in trials {
      assert x in multiset(r);
    }
  }

  /** The second sort changes nothing. */
  lemma LoadDutiesSortsOnce(dungeons: seq<Duty>, trials: seq<Duty>)
    ensures LoadDuties(Loaded(dungeons), Loaded(trials)) == SortDutiesById(dungeons + trials)
  {
    SortIdempotent(dungeons + trials);
  }

  /** Among records with equal ids, dungeons come before trials. */
  lemma LoadDutiesDungeonsFirst(dungeons: seq<Duty>, trials: seq<Duty>, k: int)
    ensures Filter(HasId(k), LoadDuties(Loaded(dungeons), Loaded(trials))) ==
            Filter(HasId(k), dungeons) + Filter(HasId(k), trials)
  {
    FilterConcat(HasId(k), dungeons, trials);
  }
}
