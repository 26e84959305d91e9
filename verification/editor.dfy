/**
 * The list logic of the duty editor (src/app/edit/page.tsx), as pure
 * functions of the edited list. React state, localStorage, `fetch` and the
 * JSON download are not modelled; every operation here is what the page
 * computes before it stores the result.
 */
module Editor {
  import opened Seqs
  import opened Text
  import opened Duties
  import opened Sorting

  /** Each id labels at most one record. */
  ghost predicate DistinctIds(s: seq<Duty>) {
    forall k :: |Filter(HasId(k), s)| <= 1
  }

  /** Ids that rise strictly along the sequence are distinct. */
  lemma {:induction false} IncreasingIdsDistinctFor(s: seq<Duty>, k: int)
    requires forall i, j :: 0 <= i < j < |s| ==> s[i].id < s[j].id
    ensures |Filter(HasId(k), s)| <= 1
    decreases |s|
  {
    if |s| > 0 {
      if s[0].id == k {
        forall i | 0 <= i < |s[1..]| ensures !HasId(k)(s[1..][i]) {
          assert s[1..][i] == s[i + 1];
        }
        FilterNone(HasId(k), s[1..]);
      } else {
        IncreasingIdsDistinctFor(s[1..], k);
      }
    }
  }

  lemma IncreasingIdsDistinct(s: seq<Duty>)
    requires forall i, j :: 0 <= i < j < |s| ==> s[i].id < s[j].id
    ensures DistinctIds(s)
  {
    forall k ensures |Filter(HasId(k), s)| <= 1 {
      IncreasingIdsDistinctFor(s, k);
    }
  }

  // ---------------------------------------------------------------------------
  // filterDutiesByType

  /** The test `duty => duty.type === name`. */
  function HasTypeName(name: string): Duty -> bool {
    (d: Duty) => TypeName(d.dutyType) == name
  }

  /**
   * `filterDutiesByType`: the selector "All" shows everything, any other
   * selector the records whose type is spelled exactly like it.
   */
  function FilterDutiesByType(duties: seq<Duty>, selectedType: string): (r: seq<Duty>)
    ensures selectedType == "All" ==> r == duties
    ensures selectedType != "All" ==>
              forall d :: d in r <==> d in duties && TypeName(d.dutyType) == selectedType
  {
    if selectedType == "All" then duties else Filter(HasTypeName(selectedType), duties)
  }

  /**
   * Any selector other than "All" keeps order (the filter distributes over
   * `++`) and keeps every occurrence of a matching record.
   */
  lemma FilterDutiesByTypeExact(a: seq<Duty>, b: seq<Duty>, selectedType: string, d: Duty)
    requires selectedType != "All"
    ensures FilterDutiesByType(a + b, selectedType) ==
            FilterDutiesByType(a, selectedType) + FilterDutiesByType(b, selectedType)
    ensures multiset(FilterDutiesByType(a, selectedType))[d] ==
            if TypeName(d.dutyType) == selectedType then multiset(a)[d] else 0
  {
    FilterConcat(HasTypeName(selectedType), a, b);
    FilterCount(HasTypeName(selectedType), a, d);
  }

  /** A selector that names no type shows nothing. */
  lemma FilterDutiesByUnknownType(duties: seq<Duty>, selectedType: string)
    requires selectedType !in {"All", "Dungeon", "Trial", "Raid"}
    ensures FilterDutiesByType(duties, selectedType) == []
  {
    forall i | 0 <= i < |duties| ensures !HasTypeName(selectedType)(duties[i]) {
      assert TypeName(duties[i].dutyType) in {"Dungeon", "Trial", "Raid"};
    }
    FilterNone(HasTypeName(selectedType), duties);
  }

  /** Appending one record appends it to the view exactly when the selector shows it. */
  lemma FilterDutiesByTypeSnoc(s: seq<Duty>, x: Duty, selectedType: string)
    ensures FilterDutiesByType(s + [x], selectedType) ==
            FilterDutiesByType(s, selectedType) +
            (if selectedType == "All" || TypeName(x.dutyType) == selectedType then [x] else [])
  {
    if selectedType != "All" {
      FilterConcat(HasTypeName(selectedType), s, [x]);
      assert Filter(HasTypeName(selectedType), [x]) ==
             (if TypeName(x.dutyType) == selectedType then [x] else []) + Filter(HasTypeName(selectedType), []);
    }
  }

  // ---------------------------------------------------------------------------
  // handleDutyChange

  /** The keys of `IDuty`. */
  datatype Key = Id | Slug | Title | Tags | Type | Patch | BackgroundImage | Description

  /** A field value: a number, a string, a string array, or a duty type. */
  datatype Value = Num(n: int) | Str(s: string) | Strs(items: seq<string>) | Category(t: DutyType)

  /** `duty[key]`. */
  function Get(d: Duty, key: Key): Value {
    match key
    case Id => Num(d.id)
    case Slug => Str(d.slug)
    case Title => Str(d.title)
    case Tags => Strs(d.tags)
    case Type => Category(d.dutyType)
    case Patch => Str(d.patch)
    case BackgroundImage => Str(d.backgroundImage)
    case Description => Str(d.description)
  }

  /** The value has the type `IDuty` declares for the key. */
  predicate Fits(key: Key, v: Value) {
    match key
    case Id => v.Num?
    case Tags => v.Strs?
    case Type => v.Category?
    case _ => v.Str?
  }

  /** `{ ...d, [key]: v }`: the named field takes the value, every other field is kept. */
  function SetField(d: Duty, key: Key, v: Value): (r: Duty)
    requires Fits(key, v)
    ensures Get(r, key) == v
    ensures forall k :: k != key ==> Get(r, k) == Get(d, k)
  {
    match key
    case Id => d.(id := v.n)
    case Slug => d.(slug := v.s)
    case Title => d.(title := v.s)
    case Tags => d.(tags := v.items)
    case Type => d.(dutyType := v.t)
    case Patch => d.(patch := v.s)
    case BackgroundImage => d.(backgroundImage := v.s)
    case Description => d.(description := v.s)
  }

  /**
   * `handleDutyChange(index, key, value)`: replace one field of the record at
   * `index`, then sort by id. The page only ever edits title, tags,
   * description and type, never the id.
   */
  function HandleDutyChange(duties: seq<Duty>, index: int, key: Key, value: Value): (r: seq<Duty>)
    requires 0 <= index < |duties|
    requires key != Id && Fits(key, value)
    ensures |r| == |duties|
    ensures IsStableSortOf(r, duties[index := SetField(duties[index], key, value)])
    ensures multiset(r) == multiset(duties) - multiset{duties[index]} + multiset{SetField(duties[index], key, value)}
  {
    var updated := duties[index := SetField(duties[index], key, value)];
    assert duties == duties[..index] + [duties[index]] + duties[index + 1..];
    assert updated == duties[..index] + [updated[index]] + duties[index + 1..];
    SortIsStable(updated);
    SortDutiesById(updated)
  }

  /**
   * On a list already sorted by id, as the editor's list always is, an edit
   * changes the one record in place and nothing else: the sort is a no-op
   * because no id changed.
   */
  lemma HandleDutyChangeInPlace(duties: seq<Duty>, index: int, key: Key, value: Value)
    requires 0 <= index < |duties|
    requires key != Id && Fits(key, value)
    requires SortedById(duties)
    ensures HandleDutyChange(duties, index, key, value) == duties[index := SetField(duties[index], key, value)]
  {
    var updated := duties[index := SetField(duties[index], key, value)];
    assert Get(updated[index], Id) == Get(duties[index], Id);
    assert forall i :: 0 <= i < |duties| ==> updated[i].id == duties[i].id;
    SortSorted(updated);
  }

  /** An edit keeps the number of records carrying each id, so it keeps ids distinct. */
  lemma HandleDutyChangeKeepsIds(duties: seq<Duty>, index: int, key: Key, value: Value, k: int)
    requires 0 <= index < |duties|
    requires key != Id && Fits(key, value)
    ensures |Filter(HasId(k), HandleDutyChange(duties, index, key, value))| == |Filter(HasId(k), duties)|
  {
    var x := duties[index];
    var y := SetField(x, key, value);
    assert Get(y, Id) == Get(x, Id);
    var a, b := duties[..index], duties[index + 1..];
    assert duties == a + [x] + b;
    assert duties[index := y] == a + [y] + b;
    ReplaceKeepsIdCount(a, x, y, b, k);
  }

  lemma ReplaceKeepsIdCount(a: seq<Duty>, x: Duty, y: Duty, b: seq<Duty>, k: int)
    requires x.id == y.id
    ensures |Filter(HasId(k), a + [x] + b)| == |Filter(HasId(k), a + [y] + b)|
  {
    FilterConcat(HasId(k), a + [x], b);
    FilterConcat(HasId(k), a, [x]);
    FilterConcat(HasId(k), a + [y], b);
    FilterConcat(HasId(k), a, [y]);
    assert Filter(HasId(k), [x]) == (if x.id == k then [x] else []) + Filter(HasId(k), []);
    assert Filter(HasId(k), [y]) == (if y.id == k then [y] else []) + Filter(HasId(k), []);
  }

  // ---------------------------------------------------------------------------
  // addDuty

  /** The result of `Math.max` on integer arguments: -Infinity when there are none. */
  datatype MaxResult = NegativeInfinity | Finite(value: int)

  function Ids(duties: seq<Duty>): (r: seq<int>)
    ensures |r| == |duties|
    ensures forall i :: 0 <= i < |duties| ==> r[i] == duties[i].id
  {
    seq(|duties|, i requires 0 <= i < |duties| => duties[i].id)
  }

  /** `Math.max(...ids)`. */
  function MathMax(ids: seq<int>): (r: MaxResult)
    ensures r.NegativeInfinity? <==> |ids| == 0
    ensures r.Finite? ==> forall i :: 0 <= i < |ids| ==> ids[i] <= r.value
    ensures r.Finite? ==> exists i :: 0 <= i < |ids| && ids[i] == r.value
  {
    if |ids| == 0 then NegativeInfinity
    else
      match MathMax(ids[1..])
      case NegativeInfinity => Finite(ids[0])
      case Finite(m) => if ids[0] > m then Finite(ids[0]) else Finite(m)
  }

  /**
   * The new id exactly as `Math.max(...ids) + 1` computes it: on an empty
   * list it is -Infinity (stored by `JSON.stringify` as null).
   */
  function NewIdAsWritten(duties: seq<Duty>): (r: MaxResult)
    ensures r.NegativeInfinity? <==> |duties| == 0
    ensures r.Finite? ==> forall i :: 0 <= i < |duties| ==> duties[i].id < r.value
  {
    match MathMax(Ids(duties))
    case NegativeInfinity => NegativeInfinity
    case Finite(m) => Finite(m + 1)
  }

  /** Adding to an empty editor list gives the new record no integer id at all. */
  lemma AddDutyOnEmptyAsWritten()
    ensures NewIdAsWritten([]) == NegativeInfinity
  {
  }

  /**
   * The id `addDuty` gives a new record: one more than the largest id, and 1
   * on an empty list, where the code as written produces -Infinity.
   */
  function NewId(duties: seq<Duty>): (r: int)
    ensures forall i :: 0 <= i < |duties| ==> duties[i].id < r
    ensures |duties| == 0 ==> r == 1
    ensures |duties| > 0 ==> exists i :: 0 <= i < |duties| && duties[i].id == r - 1
    ensures NewIdAsWritten(duties).Finite? ==> r == NewIdAsWritten(duties).value
  {
    match MathMax(Ids(duties))
    case NegativeInfinity => 1
    case Finite(m) => m + 1
  }

  /** The record `addDuty` appends: a Dungeon with empty strings and no tags. */
  function BlankDuty(id: int): Duty {
    Duty(id, "", "", [], Dungeon, "", "", "")
  }

  /** `addDuty`: append a blank Dungeon with the next id, then sort by id. */
  function AddDuty(duties: seq<Duty>): (r: seq<Duty>)
    ensures |r| == |duties| + 1
    ensures r[|duties|] == BlankDuty(NewId(duties))
    ensures r[..|duties|] == SortDutiesById(duties)
    ensures IsStableSortOf(r, duties + [BlankDuty(NewId(duties))])
  {
    var added := BlankDuty(NewId(duties));
    SortAppendGreatest(duties, added);
    SortIsStable(duties + [added]);
    SortDutiesById(duties + [added])
  }

  /** On the editor's sorted list, `addDuty` leaves every record in place and puts the new one last. */
  lemma AddDutyAppends(duties: seq<Duty>)
    requires SortedById(duties)
    ensures AddDuty(duties) == duties + [BlankDuty(NewId(duties))]
  {
    SortSorted(duties);
    PrefixThenLast(AddDuty(duties), duties, BlankDuty(NewId(duties)));
  }

  /** A list one longer than `p` that starts with `p` and ends with `x` is `p + [x]`. */
  lemma PrefixThenLast(r: seq<Duty>, p: seq<Duty>, x: Duty)
    requires |r| == |p| + 1 && r[..|p|] == p && r[|p|] == x
    ensures r == p + [x]
  {
    assert r == r[..|p|] + [r[|p|]];
  }

  /** `addDuty` keeps ids distinct: the new id is larger than all the others. */
  lemma AddDutyKeepsDistinct(duties: seq<Duty>)
    requires DistinctIds(duties)
    ensures DistinctIds(AddDuty(duties))
  {
    var added := BlankDuty(NewId(duties));
    forall k ensures |Filter(HasId(k), AddDuty(duties))| <= 1 {
      FilterConcat(HasId(k), duties, [added]);
      if k == added.id {
        FilterNone(HasId(k), duties);
      }
    }
  }

  // ---------------------------------------------------------------------------
  // removeDuty

  /** `updatedDuties.map((duty, index) => ({ ...duty, id: index + 1 }))`. */
  function Renumber(s: seq<Duty>): (r: seq<Duty>)
    ensures |r| == |s|
    ensures forall i :: 0 <= i < |s| ==> r[i] == s[i].(id := i + 1)
  {
    seq(|s|, i requires 0 <= i < |s| => s[i].(id := i + 1))
  }

  /** Two records that differ at most in their id. */
  ghost predicate SameExceptId(a: Duty, b: Duty) {
    forall key :: key != Id ==> Get(a, key) == Get(b, key)
  }

  /** Renumbered records are sorted, carry distinct ids, and keep every other field. */
  lemma RenumberFacts(s: seq<Duty>)
    ensures SortedById(Renumber(s))
    ensures DistinctIds(Renumber(s))
    ensures forall i :: 0 <= i < |s| ==> SameExceptId(Renumber(s)[i], s[i])
  {
    var r := Renumber(s);
    assert forall i, j :: 0 <= i < j < |r| ==> r[i].id < r[j].id;
    IncreasingIdsDistinct(r);
    forall i | 0 <= i < |s| ensures SameExceptId(r[i], s[i]) {
      assert r[i] == s[i].(id := i + 1);
    }
  }

  /**
   * `removeDuty(index)`: drop the record at `index` (nothing when `index` is
   * outside the list), renumber every survivor to its position plus one,
   * across all types at once, then sort by id.
   */
  function RemoveDuty(duties: seq<Duty>, index: int): (r: seq<Duty>)
    ensures |r| == if 0 <= index < |duties| then |duties| - 1 else |duties|
    ensures forall i :: 0 <= i < |r| ==> r[i].id == i + 1
    ensures forall i :: 0 <= i < |r| ==> SameExceptId(r[i], DropAt(duties, index)[i])
    ensures DistinctIds(r)
  {
    var kept := DropAt(duties, index);
    var renumbered := Renumber(kept);
    RenumberFacts(kept);
    SortSorted(renumbered);
    SortDutiesById(renumbered)
  }

  /**
   * Renumbering is global, not per type: with Dungeons 1 and 2 and Trial 1,
   * removing Dungeon 1 leaves Trial 1 and Dungeon 2.
   */
  lemma RemoveRenumbersAcrossTypes(d1: Duty, t1: Duty, d2: Duty)
    requires d1.dutyType == Dungeon && d2.dutyType == Dungeon && t1.dutyType == Trial
    requires d1.id == 1 && t1.id == 1 && d2.id == 2
    ensures var r := RemoveDuty([d1, t1, d2], 0);
            |r| == 2 && r[0] == t1 && r[1].dutyType == Dungeon && r[1].id == 2
  {
    var r := RemoveDuty([d1, t1, d2], 0);
    assert DropAt([d1, t1, d2], 0) == [t1, d2];
    assert Get(r[0], Type) == Get(t1, Type);
    assert Get(r[1], Type) == Get(d2, Type);
    assert Get(r[0], Slug) == Get(t1, Slug) && Get(r[0], Title) == Get(t1, Title);
    assert Get(r[0], Tags) == Get(t1, Tags) && Get(r[0], Patch) == Get(t1, Patch);
    assert Get(r[0], BackgroundImage) == Get(t1, BackgroundImage);
    assert Get(r[0], Description) == Get(t1, Description);
  }

  // ---------------------------------------------------------------------------
  // realIndex

  /** `editedDuties.findIndex(d => d.id === id)`. */
  function FindIndexById(duties: seq<Duty>, id: int): (r: int)
    ensures -1 <= r < |duties|
    ensures r == -1 <==> forall i :: 0 <= i < |duties| ==> duties[i].id != id
    ensures r >= 0 ==> duties[r].id == id && forall j :: 0 <= j < r ==> duties[j].id != id
  {
    FirstIndex(HasId(id), duties)
  }

  /** With distinct ids, the lookup of a displayed record finds that very record. */
  lemma RealIndexFindsDisplayed(duties: seq<Duty>, selectedType: string, d: Duty)
    requires DistinctIds(duties)
    requires d in FilterDutiesByType(duties, selectedType)
    ensures 0 <= FindIndexById(duties, d.id) && duties[FindIndexById(duties, d.id)] == d
  {
    var j :| 0 <= j < |duties| && duties[j] == d;
    var i := FindIndexById(duties, d.id);
    if duties[i] != d {
      TwoMatchesTwoElements(HasId(d.id), duties, i, j);
    }
  }

  /**
   * When ids repeat (Dungeon 1 and Trial 1), the lookup for the displayed
   * Trial lands on the Dungeon, and editing through it leaves the Trial as it was.
   */
  lemma RealIndexMisdirected(dungeon: Duty, trial: Duty, title: string)
    requires dungeon.dutyType == Dungeon && trial.dutyType == Trial
    requires dungeon.id == 1 && trial.id == 1 && trial.title != title
    ensures trial in FilterDutiesByType([dungeon, trial], "Trial")
    ensures FindIndexById([dungeon, trial], trial.id) == 0
    ensures var r := HandleDutyChange([dungeon, trial], 0, Title, Str(title));
            r[1] == trial && r[0].title == title
  {
    var s := [dungeon, trial];
    assert trial in s;
    HandleDutyChangeInPlace(s, 0, Title, Str(title));
  }

  /** `positions` are increasing indices below `bound` at which `duties` holds `shown`, in order. */
  predicate PositionsOf(duties: seq<Duty>, positions: seq<int>, shown: seq<Duty>, bound: int) {
    && |positions| == |shown|
    && (forall i :: 0 <= i < |positions| ==>
          0 <= positions[i] < bound && positions[i] < |duties| && duties[positions[i]] == shown[i])
    && (forall i, j :: 0 <= i < j < |positions| ==> positions[i] < positions[j])
  }

  /** The selector shows the record. */
  predicate Shows(selectedType: string, d: Duty) {
    selectedType == "All" || TypeName(d.dutyType) == selectedType
  }

  /** One more record of the full list adds at most that record to the view. */
  lemma ViewStep(duties: seq<Duty>, n: int, selectedType: string, shown: seq<Duty>)
    requires 0 <= n < |duties|
    requires shown == FilterDutiesByType(duties[..n], selectedType)
    ensures Shows(selectedType, duties[n]) ==> FilterDutiesByType(duties[..n + 1], selectedType) == shown + [duties[n]]
    ensures !Shows(selectedType, duties[n]) ==> FilterDutiesByType(duties[..n + 1], selectedType) == shown
  {
    assert duties[..n + 1] == duties[..n] + [duties[n]];
    FilterDutiesByTypeSnoc(duties[..n], duties[n], selectedType);
  }

  lemma PositionsOfExtend(duties: seq<Duty>, positions: seq<int>, shown: seq<Duty>, n: int)
    requires 0 <= n < |duties|
    requires PositionsOf(duties, positions, shown, n)
    ensures PositionsOf(duties, positions + [n], shown + [duties[n]], n + 1)
  {
  }

  /**
   * The position in the full list of each displayed record, in display
   * order: what the rendering loop would need instead of the id lookup.
   */
  method DisplayedPositions(duties: seq<Duty>, selectedType: string) returns (r: seq<int>)
    ensures |r| == |FilterDutiesByType(duties, selectedType)|
    ensures forall i :: 0 <= i < |r| ==>
              0 <= r[i] < |duties| && duties[r[i]] == FilterDutiesByType(duties, selectedType)[i]
    ensures forall i, j :: 0 <= i < j < |r| ==> r[i] < r[j]
  {
    r := [];
    ghost var shown: seq<Duty> := [];
    var n := 0;
    while n < |duties|
      invariant 0 <= n <= |duties|
      invariant shown == FilterDutiesByType(duties[..n], selectedType)
      invariant PositionsOf(duties, r, shown, n)
    {
      ViewStep(duties, n, selectedType, shown);
      if Shows(selectedType, duties[n]) {
        PositionsOfExtend(duties, r, shown, n);
        r := r + [n];
        shown := shown + [duties[n]];
      }
      n := n + 1;
    }
    assert duties[..n] == duties;
  }

  /** With distinct ids, the id lookup agrees with the positions the display loop walks. */
  lemma RealIndexMatchesPositions(duties: seq<Duty>, selectedType: string, positions: seq<int>, i: int)
    requires DistinctIds(duties)
    requires |positions| == |FilterDutiesByType(duties, selectedType)|
    requires forall j :: 0 <= j < |positions| ==>
               0 <= positions[j] < |duties| && duties[positions[j]] == FilterDutiesByType(duties, selectedType)[j]
    requires 0 <= i < |positions|
    ensures FindIndexById(duties, FilterDutiesByType(duties, selectedType)[i].id) == positions[i]
  {
    var shown := FilterDutiesByType(duties, selectedType);
    var d := shown[i];
    assert d in shown;
    RealIndexFindsDisplayed(duties, selectedType, d);
    var k := FindIndexById(duties, d.id);
    if k != positions[i] {
      TwoMatchesTwoElements(HasId(d.id), duties, k, positions[i]);
    }
  }

  // ---------------------------------------------------------------------------
  // tags text

  /** The tag text the editor shows: `tags.join(", ")`. */
  function DisplayTags(tags: seq<string>): string {
    Join(tags, ", ")
  }

  /** `text.split(",").map(tag => tag.trim())`. */
  function ParseTags(text: string): (r: seq<string>)
    ensures |r| == multiset(text)[','] + 1
    ensures forall i :: 0 <= i < |r| ==> IsTrimmed(r[i]) && ',' !in r[i]
  {
    SplitCount(text, ',');
    TrimEachFacts(Split(text, ','), ',');
    TrimEach(Split(text, ','))
  }

  /** `pieces.map(tag => tag.trim())`. */
  function TrimEach(pieces: seq<string>): (r: seq<string>)
    ensures |r| == |pieces|
    ensures forall i :: 0 <= i < |pieces| ==> r[i] == Trim(pieces[i])
  {
    seq(|pieces|, i requires 0 <= i < |pieces| => Trim(pieces[i]))
  }

  /** Trimmed pieces are trimmed and hold no character their pieces did not. */
  lemma TrimEachFacts(pieces: seq<string>, c: char)
    requires forall i :: 0 <= i < |pieces| ==> c !in pieces[i]
    ensures forall i :: 0 <= i < |pieces| ==> IsTrimmed(TrimEach(pieces)[i]) && c !in TrimEach(pieces)[i]
  {
    forall i | 0 <= i < |pieces|
      ensures IsTrimmed(TrimEach(pieces)[i]) && c !in TrimEach(pieces)[i]
    {
      TrimFacts(pieces[i]);
    }
  }

  /** Each string with a space in front. */
  function SpaceEach(ts: seq<string>): (r: seq<string>)
    ensures |r| == |ts|
    ensures forall i :: 0 <= i < |ts| ==> r[i] == " " + ts[i]
  {
    seq(|ts|, i requires 0 <= i < |ts| => " " + ts[i])
  }

  lemma {:induction false} JoinSpaced(ts: seq<string>)
    requires |ts| > 0
    ensures Join(SpaceEach(ts), ",") == " " + Join(ts, ", ")
    decreases |ts|
  {
    if |ts| > 1 {
      JoinSpaced(ts[1..]);
      assert SpaceEach(ts)[1..] == SpaceEach(ts[1..]);
      calc {
        Join(SpaceEach(ts), ",");
        (" " + ts[0]) + "," + Join(SpaceEach(ts[1..]), ",");
        (" " + ts[0]) + "," + (" " + Join(ts[1..], ", "));
        " " + (ts[0] + ", " + Join(ts[1..], ", "));
        " " + Join(ts, ", ");
      }
    }
  }

  /** The displayed text is the tags joined by bare commas, each tag after the first with a space in front. */
  lemma DisplayTagsAsCommaJoin(tags: seq<string>)
    requires |tags| > 0
    ensures DisplayTags(tags) == Join([tags[0]] + SpaceEach(tags[1..]), [','])
  {
    var padded := [tags[0]] + SpaceEach(tags[1..]);
    if |tags| > 1 {
      JoinSpaced(tags[1..]);
      assert padded[1..] == SpaceEach(tags[1..]);
      assert tags[0] + ", " + Join(tags[1..], ", ") == tags[0] + "," + (" " + Join(tags[1..], ", "));
    }
  }

  /** A tag after a space trims back to itself. */
  lemma TrimSpaced(t: string)
    requires IsTrimmed(t)
    ensures Trim(" " + t) == t
  {
    assert " " + t + "" == " " + t;
    TrimStripsPadding(" ", t, "");
  }

  /** Each comma-separated piece of the displayed text trims back to its tag. */
  lemma TrimPaddedAt(tags: seq<string>, i: int)
    requires 0 <= i < |tags|
    requires IsTrimmed(tags[i])
    ensures Trim(([tags[0]] + SpaceEach(tags[1..]))[i]) == tags[i]
  {
    if i == 0 {
      TrimTrimmed(tags[0]);
    } else {
      var rest := SpaceEach(tags[1..]);
      assert ([tags[0]] + rest)[i] == rest[i - 1];
      assert rest[i - 1] == " " + tags[1..][i - 1];
      assert tags[1..][i - 1] == tags[i];
      TrimSpaced(tags[i]);
    }
  }

  /** Trimming each piece gives the list whose entries are the pieces trimmed one by one. */
  lemma TrimEachPointwise(pieces: seq<string>, tags: seq<string>)
    requires |pieces| == |tags|
    requires forall i :: 0 <= i < |pieces| ==> Trim(pieces[i]) == tags[i]
    ensures TrimEach(pieces) == tags
  {
  }

  /** The comma-separated pieces of the displayed text trim back to the tags. */
  lemma TrimPadded(tags: seq<string>)
    requires |tags| > 0
    requires forall i :: 0 <= i < |tags| ==> IsTrimmed(tags[i])
    ensures TrimEach([tags[0]] + SpaceEach(tags[1..])) == tags
  {
    var padded := [tags[0]] + SpaceEach(tags[1..]);
    forall i | 0 <= i < |tags| ensures Trim(padded[i]) == tags[i] {
      TrimPaddedAt(tags, i);
    }
    TrimEachPointwise(padded, tags);
  }

  /**
   * Showing a non-empty tag list and reading it back gives the same list,
   * provided no tag holds a comma or surrounding white space.
   */
  lemma DisplayParseRoundTrip(tags: seq<string>)
    requires |tags| > 0
    requires forall i :: 0 <= i < |tags| ==> IsTrimmed(tags[i]) && ',' !in tags[i]
    ensures ParseTags(DisplayTags(tags)) == tags
  {
    var padded := [tags[0]] + SpaceEach(tags[1..]);
    DisplayTagsAsCommaJoin(tags);
    forall i | 0 <= i < |padded| ensures ',' !in padded[i] {
      if i > 0 {
        assert padded[i] == " " + tags[i];
      }
    }
    SplitJoin(padded, ',');
    assert ParseTags(DisplayTags(tags)) == TrimEach(padded);
    TrimPadded(tags);
  }

  /** An empty tag list does not survive the round trip: it comes back as one empty tag. */
  lemma EmptyTagsComeBackAsOneEmptyTag()
    ensures DisplayTags([]) == ""
    ensures ParseTags(DisplayTags([])) == [""]
  {
    assert Split("", ',') == [""];
  }
}
