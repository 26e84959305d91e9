/**
 * The browse page (src/app/page.tsx): loading and combining the three
 * per-type sources, the `?type=` filter and the blank-search pass-through.
 * The fuzzy search itself (Fuse.js) is a parameter.
 */
module Browse {
  import opened Wrappers
  import opened Seqs
  import opened Text
  import opened Duties
  import opened Sorting
  import Editor

  /**
   * `loadData`: when all three sources load, the state becomes their
   * concatenation sorted by id; when any fetch, parse or spread throws, the
   * state is left as it was (initially empty). The `Array.isArray` guard
   * cannot fail, since the spread always builds an array.
   */
  function LoadData(previous: seq<Duty>, dungeons: Fetched, trials: Fetched, raids: Fetched): (r: seq<Duty>)
    ensures dungeons.Loaded? && trials.Loaded? && raids.Loaded? ==>
              IsStableSortOf(r, dungeons.records + trials.records + raids.records)
    ensures dungeons.Loaded? && trials.Loaded? && raids.Loaded? ==>
              multiset(r) == multiset(dungeons.records + trials.records + raids.records)
    ensures dungeons.Unavailable? || trials.Unavailable? || raids.Unavailable? ==> r == previous
  {
    if dungeons.Loaded? && trials.Loaded? && raids.Loaded? then
      var combined := dungeons.records + trials.records + raids.records;
      SortIsStable(combined);
      SortDutiesById(combined)
    else
      previous
  }

  /** Among records with equal ids the loaded list shows dungeons, then trials, then raids. */
  lemma LoadDataSourceOrder(previous: seq<Duty>, dungeons: seq<Duty>, trials: seq<Duty>, raids: seq<Duty>, k: int)
    ensures Filter(HasId(k), LoadData(previous, Loaded(dungeons), Loaded(trials), Loaded(raids))) ==
            Filter(HasId(k), dungeons) + Filter(HasId(k), trials) + Filter(HasId(k), raids)
  {
    FilterConcat(HasId(k), dungeons + trials, raids);
    FilterConcat(HasId(k), dungeons, trials);
  }

  /** The test `duty => duty.type?.toLowerCase() === lowered`. */
  function HasLowerType(lowered: string): Duty -> bool {
    (d: Duty) => Lower(TypeName(d.dutyType)) == lowered
  }

  /**
   * The `?type=` filter: a missing parameter, an empty one (falsy) or "all" in
   * any case leaves the list as it is; otherwise it keeps the records whose
   * type matches the parameter ignoring case.
   */
  function FilterByTypeParam(all: seq<Duty>, typeParam: Option<string>): (r: seq<Duty>)
    ensures typeParam.None? || Lower(typeParam.value) == "" || Lower(typeParam.value) == "all" ==> r == all
    ensures typeParam.Some? && Lower(typeParam.value) != "" && Lower(typeParam.value) != "all" ==>
              forall d :: d in r <==> d in all && Lower(TypeName(d.dutyType)) == Lower(typeParam.value)
  {
    match typeParam
    case None => all
    case Some(p) =>
      var typeFilter := Lower(p);
      if typeFilter == "" || typeFilter == "all" then all
      else Filter(HasLowerType(typeFilter), all)
  }

  lemma LowerTypeNames()
    ensures Lower(TypeName(Dungeon)) == "dungeon"
    ensures Lower(TypeName(Trial)) == "trial"
    ensures Lower(TypeName(Raid)) == "raid"
  {
    assert Lower("Dungeon") == "dungeon";
    assert Lower("Trial") == "trial";
    assert Lower("Raid") == "raid";
  }

  /**
   * A parameter naming a type in any letter case selects exactly what the
   * editor's selector of that type selects, in the same order.
   */
  lemma TypeParamIsCaseInsensitive(all: seq<Duty>, p: string, t: DutyType)
    requires Lower(p) == Lower(TypeName(t))
    ensures FilterByTypeParam(all, Some(p)) == Editor.FilterDutiesByType(all, TypeName(t))
  {
    LowerTypeNames();
    forall d: Duty ensures HasLowerType(Lower(p))(d) == Editor.HasTypeName(TypeName(t))(d) {
    }
    FilterCongruent(HasLowerType(Lower(p)), Editor.HasTypeName(TypeName(t)), all);
  }

  /** A parameter naming no type, other than "all", yields an empty list. */
  lemma UnknownTypeParamEmpty(all: seq<Duty>, p: string)
    requires Lower(p) !in {"", "all", "dungeon", "trial", "raid"}
    ensures FilterByTypeParam(all, Some(p)) == []
  {
    LowerTypeNames();
    forall i | 0 <= i < |all| ensures !HasLowerType(Lower(p))(all[i]) {
      assert Lower(TypeName(all[i].dutyType)) in {"dungeon", "trial", "raid"};
    }
    FilterNone(HasLowerType(Lower(p)), all);
  }

  /**
   * The second effect of the page: the type filter, then the fuzzy search
   * unless the search text is empty or only white space. `fuzzy` stands for
   * Fuse.js over title and tags.
   */
  function Results(all: seq<Duty>, typeParam: Option<string>, search: string,
                   fuzzy: (seq<Duty>, string) -> seq<Duty>): (r: seq<Duty>)
    ensures AllSpace(search) ==> r == FilterByTypeParam(all, typeParam)
    ensures !AllSpace(search) ==> r == fuzzy(FilterByTypeParam(all, typeParam), search)
  {
    var filtered := FilterByTypeParam(all, typeParam);
    TrimFacts(search);
    if Trim(search) != "" then fuzzy(filtered, search) else filtered
  }
}
