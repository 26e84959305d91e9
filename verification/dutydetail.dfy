/** src/lib/dutydetaillogic.ts: the detail page's loader and slug lookup. */
module DutyDetail {
  import opened Seqs
  import opened Duties

  /**
   * `loadDuties`: dungeons followed by trials, unsorted. Nothing catches a
   * failure, so one failed source fails the whole load. Raids are not read.
   */
  function LoadDuties(dungeons: Fetched, trials: Fetched): (r: Fetched)
    ensures r.Loaded? <==> dungeons.Loaded? && trials.Loaded?
    ensures r.Loaded? ==>
              |r.records| == |dungeons.records| + |trials.records| &&
              r.records[..|dungeons.records|] == dungeons.records &&
              r.records[|dungeons.records|..] == trials.records
  {
    match (dungeons, trials)
    case (Loaded(d), Loaded(t)) => Loaded(d + t)
    case _ => Unavailable
  }

  /** What `getDutyBySlug` settles to: a rejected promise, `null`, or a record. */
  datatype Lookup = LoadFailed | NotFound | Found(duty: Duty)

  /** The test `duty => duty.slug === slug`. */
  function HasSlug(slug: string): Duty -> bool {
    (d: Duty) => d.slug == slug
  }

  /** `getDutyBySlug`: the first record of the loaded list with the slug, or null. */
  function GetDutyBySlug(dungeons: Fetched, trials: Fetched, slug: string): (r: Lookup)
    ensures r.LoadFailed? <==> dungeons.Unavailable? || trials.Unavailable?
    ensures r.NotFound? <==>
              dungeons.Loaded? && trials.Loaded? &&
              forall x :: x in dungeons.records + trials.records ==> x.slug != slug
    ensures r.Found? ==> r.duty.slug == slug && r.duty in dungeons.records + trials.records
    ensures r.Found? ==>
              var all := dungeons.records + trials.records;
              exists i :: 0 <= i < |all| && all[i] == r.duty && forall j :: 0 <= j < i ==> all[j].slug != slug
  {
    match LoadDuties(dungeons, trials)
    case Unavailable => LoadFailed
    case Loaded(all) =>
      var i := FirstIndex(HasSlug(slug), all);
      if i < 0 then NotFound else Found(all[i])
  }

  /** On loaded sources the lookup is the first position in dungeons-then-trials with the slug. */
  lemma GetDutyBySlugLoaded(dungeons: seq<Duty>, trials: seq<Duty>, slug: string)
    ensures var k := FirstIndex(HasSlug(slug), dungeons + trials);
            GetDutyBySlug(Loaded(dungeons), Loaded(trials), slug) ==
            if k < 0 then NotFound else Found((dungeons + trials)[k])
  {
    assert LoadDuties(Loaded(dungeons), Loaded(trials)) == Loaded(dungeons + trials);
  }

  /** A dungeon with the slug wins: the match is the first such dungeon. */
  lemma GetDutyBySlugPrefersDungeons(dungeons: seq<Duty>, trials: seq<Duty>, slug: string)
    requires FirstIndex(HasSlug(slug), dungeons) >= 0
    ensures GetDutyBySlug(Loaded(dungeons), Loaded(trials), slug) ==
            Found(dungeons[FirstIndex(HasSlug(slug), dungeons)])
  {
    GetDutyBySlugLoaded(dungeons, trials, slug);
    FirstIndexConcat(HasSlug(slug), dungeons, trials);
    var i := FirstIndex(HasSlug(slug), dungeons);
    assert (dungeons + trials)[i] == dungeons[i];
  }

  /** With no dungeon holding the slug, the match is the first trial with it. */
  lemma GetDutyBySlugThenTrials(dungeons: seq<Duty>, trials: seq<Duty>, slug: string)
    requires FirstIndex(HasSlug(slug), dungeons) == -1
    requires FirstIndex(HasSlug(slug), trials) >= 0
    ensures GetDutyBySlug(Loaded(dungeons), Loaded(trials), slug) ==
            Found(trials[FirstIndex(HasSlug(slug), trials)])
  {
    GetDutyBySlugLoaded(dungeons, trials, slug);
    FirstIndexConcat(HasSlug(slug), dungeons, trials);
    var j := FirstIndex(HasSlug(slug), trials);
    assert (dungeons + trials)[|dungeons| + j] == trials[j];
  }
}
