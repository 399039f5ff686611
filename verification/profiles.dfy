/**
 * Profiles and profile definitions (`Profile`, `ProfileDefinition` and
 * `ProfileDefinitionSet` in py_nightscout/models.py).
 *
 * A definition holds named profiles and takes effect at its `startDate`; a
 * definition set is the list of definitions, sorted by start date at
 * construction, and the definition in effect at an instant is the last one
 * that started no later than it.
 */
module Profiles {
  import opened Wrappers
  import opened FixedZones
  import Sorting
  import Schedules

  /** A profile: its schedules share the profile's zone. */
  datatype Profile = Profile(
    dia: Option<real>,
    carbratio: Option<Schedules.Schedule>,
    carbsHr: Option<int>,
    delay: Option<int>,
    sens: Option<Schedules.Schedule>,
    timezone: Zone,
    basal: Schedules.Schedule,
    targetLow: Option<Schedules.Schedule>,
    targetHigh: Option<Schedules.Schedule>)

  datatype ProfileDefinition = ProfileDefinition(
    defaultProfile: string,
    store: map<string, Profile>,
    startDate: Instant,
    createdAt: Instant,
    units: string)

  /** `get_default_profile`: the stored profile named as default. */
  function GetDefaultProfile(d: ProfileDefinition): (r: Result<Profile>)
    ensures r.Ok? <==> d.defaultProfile in d.store
    ensures r.Ok? ==> r.value == d.store[d.defaultProfile]
    ensures r.Err? ==> r.error == KeyError({d.defaultProfile})
  {
    if d.defaultProfile in d.store then Ok(d.store[d.defaultProfile])
    else Err(KeyError({d.defaultProfile}))
  }

  datatype ProfileDefinitionSet = ProfileDefinitionSet(definitions: seq<ProfileDefinition>)

  /** The sort key of a definition. */
  function StartDate(d: ProfileDefinition): int {
    d.startDate
  }

  /** What construction guarantees: the definitions ascend by start date. */
  ghost predicate Valid(s: ProfileDefinitionSet) {
    Sorting.SortedBy(s.definitions, StartDate)
  }

  /**
   * `ProfileDefinitionSet(profile_definitions)`: sorts the caller's list in
   * place by start date (a stable sort) and keeps it.
   */
  method NewProfileDefinitionSet(definitions: array<ProfileDefinition>) returns (s: ProfileDefinitionSet)
    modifies definitions
    ensures definitions[..] == Sorting.SortBy(old(definitions[..]), StartDate)
    ensures s == ProfileDefinitionSet(definitions[..])
    ensures Valid(s)
  {
    Sorting.SortInPlace(definitions, StartDate);
    Sorting.SortBySorted(old(definitions[..]), StartDate);
    s := ProfileDefinitionSet(definitions[..]);
  }

  /**
   * `get_profile_definition_active_at(date)`: the last stored definition
   * that starts no later than `date`; `IndexError` when none does.
   */
  function ActiveAt(s: ProfileDefinitionSet, date: Instant): (r: Result<ProfileDefinition>)
    ensures r.Err? ==> r.error == IndexError
  {
    match Sorting.LastAtMost(s.definitions, StartDate, date, |s.definitions|)
    case None => Err(IndexError)
    case Some(i) => Ok(s.definitions[i])
  }

  /**
   * The lookup succeeds exactly when some definition has started by
   * `date`, and yields such a definition after which every definition
   * starts later.
   */
  lemma ActiveAtSpec(s: ProfileDefinitionSet, date: Instant)
    ensures ActiveAt(s, date).Ok? <==>
              exists i :: 0 <= i < |s.definitions| && s.definitions[i].startDate <= date
    ensures ActiveAt(s, date).Ok? ==>
              exists i :: 0 <= i < |s.definitions| && s.definitions[i] == ActiveAt(s, date).value
                          && s.definitions[i].startDate <= date
                          && forall j :: i < j < |s.definitions| ==> s.definitions[j].startDate > date
  {
    Sorting.LastAtMostSpec(s.definitions, StartDate, date, |s.definitions|);
    match Sorting.LastAtMost(s.definitions, StartDate, date, |s.definitions|)
    case None =>
      assert forall i :: 0 <= i < |s.definitions| ==> StartDate(s.definitions[i]) > date;
    case Some(i) =>
      forall j | i < j < |s.definitions| ensures s.definitions[j].startDate > date {
        assert StartDate(s.definitions[j]) > date;
      }
  }

  /**
   * On a constructed set, the definition in effect is the latest to have
   * started: no definition that started by `date` started after it.
   */
  lemma ActiveAtLatest(s: ProfileDefinitionSet, date: Instant, k: nat)
    requires Valid(s) && k < |s.definitions| && s.definitions[k].startDate <= date
    ensures ActiveAt(s, date).Ok?
    ensures s.definitions[k].startDate <= ActiveAt(s, date).value.startDate <= date
  {
    ActiveAtSpec(s, date);
    var i :| 0 <= i < |s.definitions| && s.definitions[i] == ActiveAt(s, date).value
             && s.definitions[i].startDate <= date
             && forall j :: i < j < |s.definitions| ==> s.definitions[j].startDate > date;
    if k < i {
      assert StartDate(s.definitions[k]) <= StartDate(s.definitions[i]);
    }
  }

  /**
   * For definitions in any input order, the set built from them finds a
   * definition at `date` exactly when some input has started by then.
   */
  lemma ActiveAtOfInputSucceeds(input: seq<ProfileDefinition>, date: Instant)
    ensures ActiveAt(ProfileDefinitionSet(Sorting.SortBy(input, StartDate)), date).Ok?
            <==> exists i :: 0 <= i < |input| && input[i].startDate <= date
  {
    var sorted := Sorting.SortBy(input, StartDate);
    Sorting.SortByMembers(input, StartDate);
    ActiveAtSpec(ProfileDefinitionSet(sorted), date);
    if exists i :: 0 <= i < |input| && input[i].startDate <= date {
      var i :| 0 <= i < |input| && input[i].startDate <= date;
      assert input[i] in sorted;
    } else if ActiveAt(ProfileDefinitionSet(sorted), date).Ok? {
      var k :| 0 <= k < |sorted| && sorted[k].startDate <= date;
      assert sorted[k] in input;
    }
  }

  /**
   * ... and that definition is an input with the greatest start date not
   * after `date` ...
   */
  lemma ActiveAtOfInputGreatest(input: seq<ProfileDefinition>, date: Instant)
    requires ActiveAt(ProfileDefinitionSet(Sorting.SortBy(input, StartDate)), date).Ok?
    ensures var r := ActiveAt(ProfileDefinitionSet(Sorting.SortBy(input, StartDate)), date).value;
            && r in input && r.startDate <= date
            && forall i :: 0 <= i < |input| && input[i].startDate <= date ==> input[i].startDate <= r.startDate
  {
    var s := ProfileDefinitionSet(Sorting.SortBy(input, StartDate));
    ActiveAtSpec(s, date);
    assert Valid(s) by {
      Sorting.SortBySorted(input, StartDate);
    }
    assert forall x :: x in input <==> x in s.definitions by {
      Sorting.SortByMembers(input, StartDate);
    }
    ActiveAtBoundsMembers(s, date, input);
  }

  /** The definition in effect has the greatest start date not after `date` among any members. */
  lemma ActiveAtBoundsMembers(s: ProfileDefinitionSet, date: Instant, input: seq<ProfileDefinition>)
    requires Valid(s) && ActiveAt(s, date).Ok?
    requires forall x :: x in input ==> x in s.definitions
    ensures forall i :: 0 <= i < |input| && input[i].startDate <= date
                        ==> input[i].startDate <= ActiveAt(s, date).value.startDate
  {
    forall i | 0 <= i < |input| && input[i].startDate <= date
      ensures input[i].startDate <= ActiveAt(s, date).value.startDate
    {
      assert input[i] in s.definitions;
      var m :| 0 <= m < |s.definitions| && s.definitions[m] == input[i];
      ActiveAtLatest(s, date, m);
    }
  }

  /**
   * ... and, among the inputs sharing that start date, the last one: the
   * stable sort keeps them in input order.
   */
  lemma ActiveAtOfInputLastOfTies(input: seq<ProfileDefinition>, date: Instant)
    requires ActiveAt(ProfileDefinitionSet(Sorting.SortBy(input, StartDate)), date).Ok?
    ensures var r := ActiveAt(ProfileDefinitionSet(Sorting.SortBy(input, StartDate)), date).value;
            var same := Sorting.WithKey(input, StartDate, r.startDate);
            same != [] && same[|same| - 1] == r
  {
    var sorted := Sorting.SortBy(input, StartDate);
    var s := ProfileDefinitionSet(sorted);
    var r := ActiveAt(s, date).value;
    ActiveAtSpec(s, date);
    var k :| 0 <= k < |sorted| && sorted[k] == r && sorted[k].startDate <= date
             && forall j :: k < j < |sorted| ==> sorted[j].startDate > date;
    Sorting.SortByStable(input, StartDate, r.startDate);
    Sorting.WithKeyLast(sorted, StartDate, r.startDate, k);
  }
}
