/** The per-year key-value store behind the data layer.

    The device store maps key strings `<kind>_<year>` to whole lists. Because distinct buckets
    have distinct key names (`Keys.KeyNameInjective`), the part of it this layer uses is held
    here as one map per kind, from the year to the stored list. Every read or write may fail
    in the device store; the caller passes that outcome in as a flag, and a failure is absorbed:
    a read gives the empty list, a write reports `false` and changes nothing. */
module Storage {
  import opened Wrappers
  import opened Keys
  import opened Records
  import Seqs

  class Store {
    /** The buckets `goals_<year>` and `updates_<year>` that exist. */
    var goalLists: map<int, seq<Goal>>
    var updateLists: map<int, seq<Update>>
    /** Every write the store was asked to perform, in order, whether or not it succeeded. */
    ghost var writes: seq<StorageKey>

    /** A bucket exists only if some write to it was attempted. */
    ghost predicate Valid()
      reads this
    {
      && (forall y :: y in goalLists ==> StorageKey(GoalsKind, y) in writes)
      && (forall y :: y in updateLists ==> StorageKey(UpdatesKind, y) in writes)
    }

    constructor ()
      ensures Valid()
      ensures goalLists == map[] && updateLists == map[] && writes == []
    {
      goalLists := map[];
      updateLists := map[];
      writes := [];
    }

    /** `getGoalsForYear(year)`: the stored list, or `[]` when the bucket is missing or the read fails. */
    function GoalsForYear(year: int, fails: bool): seq<Goal>
      reads this
    {
      if !fails && year in goalLists then goalLists[year] else []
    }

    /** `getUpdatesForYear(year)`: the stored list, or `[]` when the bucket is missing or the read fails. */
    function UpdatesForYear(year: int, fails: bool): seq<Update>
      reads this
    {
      if !fails && year in updateLists then updateLists[year] else []
    }

    /** A bucket no write was ever attempted on reads as the empty list. */
    lemma UnwrittenBucketIsEmpty(year: int, fails: bool)
      requires Valid()
      ensures StorageKey(GoalsKind, year) !in writes ==> GoalsForYear(year, fails) == []
      ensures StorageKey(UpdatesKind, year) !in writes ==> UpdatesForYear(year, fails) == []
    {
    }

    /** `saveGoalsForYear(year, goals)`: replaces the whole bucket and reports `true`, or reports
        `false` and changes nothing when the write fails. */
    method SaveGoalsForYear(year: int, goals: seq<Goal>, fails: bool) returns (ok: bool)
      requires Valid()
      modifies this
      ensures Valid()
      ensures ok == !fails
      ensures writes == old(writes) + [StorageKey(GoalsKind, year)]
      ensures goalLists == if fails then old(goalLists) else old(goalLists)[year := goals]
      ensures updateLists == old(updateLists)
      ensures ok ==> GoalsForYear(year, false) == goals
      ensures forall y :: y != year ==> GoalsForYear(y, false) == old(GoalsForYear(y, false))
      ensures forall y :: UpdatesForYear(y, false) == old(UpdatesForYear(y, false))
    {
      writes := writes + [StorageKey(GoalsKind, year)];
      if !fails {
        goalLists := goalLists[year := goals];
      }
      ok := !fails;
    }

    /** `saveUpdatesForYear(year, updates)`: replaces the whole bucket and reports `true`, or
        reports `false` and changes nothing when the write fails. */
    method SaveUpdatesForYear(year: int, updates: seq<Update>, fails: bool) returns (ok: bool)
      requires Valid()
      modifies this
      ensures Valid()
      ensures ok == !fails
      ensures writes == old(writes) + [StorageKey(UpdatesKind, year)]
      ensures updateLists == if fails then old(updateLists) else old(updateLists)[year := updates]
      ensures goalLists == old(goalLists)
      ensures ok ==> UpdatesForYear(year, false) == updates
      ensures forall y :: y != year ==> UpdatesForYear(y, false) == old(UpdatesForYear(y, false))
      ensures forall y :: GoalsForYear(y, false) == old(GoalsForYear(y, false))
    {
      writes := writes + [StorageKey(UpdatesKind, year)];
      if !fails {
        updateLists := updateLists[year := updates];
      }
      ok := !fails;
    }

    /** The key names present in the device store. */
    function KeyNames(): set<string>
      reads this
    {
      (set y | y in goalLists :: KeyName(StorageKey(GoalsKind, y)))
        + (set y | y in updateLists :: KeyName(StorageKey(UpdatesKind, y)))
    }

    /** `AsyncStorage.getAllKeys()`: every key name once, in an order the store chooses. */
    method AllKeys() returns (keys: seq<string>)
      ensures Seqs.Distinct(keys)
      ensures forall k :: k in keys <==> k in KeyNames()
    {
      var rest := KeyNames();
      keys := [];
      while rest != {}
        invariant forall k :: k in keys || k in rest <==> k in KeyNames()
        invariant forall k :: k in keys ==> k !in rest
        invariant Seqs.Distinct(keys)
        decreases rest
      {
        var k :| k in rest;
        keys := keys + [k];
        rest := rest - {k};
      }
    }

    /** `getAllYears()`: the year of every `goals_` key, newest first, or `[]` when listing the keys fails. */
    method AllYears(fails: bool) returns (years: seq<int>)
      ensures fails ==> years == []
      ensures !fails ==> forall y :: y in years <==> y in goalLists
      ensures !fails ==> forall i, j :: 0 <= i < j < |years| ==> years[i] > years[j]
    {
      if fails {
        return [];
      }
      var keys := AllKeys();
      forall k | k in keys && IsGoalsKey(k) ensures YearOfKey(k).Some? {
        KeyNamesAreWellFormed(k);
      }
      years := YearsFromKeys(keys);
      YearsFromStoreKeys(keys);
    }

    /** Every key name this store holds is the name of one of its buckets. */
    lemma KeyNamesAreWellFormed(k: string)
      requires k in KeyNames()
      ensures IsGoalsKey(k) ==> exists y :: y in goalLists && k == KeyName(StorageKey(GoalsKind, y))
      ensures IsGoalsKey(k) ==> YearOfKey(k).Some?
    {
      if y :| y in goalLists && k == KeyName(StorageKey(GoalsKind, y)) {
        YearOfKeyName(StorageKey(GoalsKind, y));
      } else {
        var y :| y in updateLists && k == KeyName(StorageKey(UpdatesKind, y));
        GoalsPrefixOfKeyName(StorageKey(UpdatesKind, y));
      }
    }

    /** The years read back from a listing of this store's keys are exactly its goal buckets'
        years, each once, in strictly descending order. */
    lemma YearsFromStoreKeys(keys: seq<string>)
      requires Seqs.Distinct(keys)
      requires forall k :: k in keys <==> k in KeyNames()
      requires forall k :: k in keys && IsGoalsKey(k) ==> YearOfKey(k).Some?
      ensures forall y :: y in YearsFromKeys(keys) <==> y in goalLists
      ensures forall i, j :: 0 <= i < j < |YearsFromKeys(keys)| ==> YearsFromKeys(keys)[i] > YearsFromKeys(keys)[j]
    {
      var goalKeys := Seqs.Filter(keys, IsGoalsKey);
      var parsed := ParsedYears(goalKeys);
      var years := YearsFromKeys(keys);
      assert multiset(years) == multiset(parsed);
      assert forall k :: k in goalKeys ==> k in KeyNames() && IsGoalsKey(k) && YearOfKey(k).Some?;
      forall y | y in goalLists ensures y in years {
        GoalYearListed(keys, y);
        assert y in multiset(parsed);
      }
      forall y | y in years ensures y in goalLists {
        assert y in multiset(parsed);
        ListedYearIsGoalYear(goalKeys, y);
      }
      Seqs.DistinctSubMultiset(keys, goalKeys);
      ParsedYearsDistinct(goalKeys);
      Seqs.DistinctSubMultiset(parsed, years);
      StrictlyDescending(years);
    }

    lemma GoalYearListed(keys: seq<string>, y: int)
      requires forall k :: k in keys <==> k in KeyNames()
      requires forall k :: k in keys && IsGoalsKey(k) ==> YearOfKey(k).Some?
      requires y in goalLists
      ensures y in ParsedYears(Seqs.Filter(keys, IsGoalsKey))
    {
      var key := StorageKey(GoalsKind, y);
      GoalsPrefixOfKeyName(key);
      YearOfKeyName(key);
      var k := KeyName(key);
      assert k in KeyNames();
      var i :| 0 <= i < |keys| && keys[i] == k;
      ParsedYearsMember(Seqs.Filter(keys, IsGoalsKey), k);
    }

    lemma ListedYearIsGoalYear(goalKeys: seq<string>, y: int)
      requires forall k :: k in goalKeys ==> k in KeyNames() && IsGoalsKey(k) && YearOfKey(k).Some?
      requires y in ParsedYears(goalKeys)
      ensures y in goalLists
    {
      var k := ParsedYearsSource(goalKeys, y);
      KeyNamesAreWellFormed(k);
      var y' :| y' in goalLists && k == KeyName(StorageKey(GoalsKind, y'));
      YearOfKeyName(StorageKey(GoalsKind, y'));
    }

    lemma ParsedYearsDistinct(goalKeys: seq<string>)
      requires Seqs.Distinct(goalKeys)
      requires forall k :: k in goalKeys ==> k in KeyNames() && IsGoalsKey(k) && YearOfKey(k).Some?
      ensures Seqs.Distinct(ParsedYears(goalKeys))
    {
      var parsed := ParsedYears(goalKeys);
      forall i, j | 0 <= i < j < |goalKeys| ensures parsed[i] != parsed[j] {
        KeyNamesAreWellFormed(goalKeys[i]);
        KeyNamesAreWellFormed(goalKeys[j]);
        var a :| a in goalLists && goalKeys[i] == KeyName(StorageKey(GoalsKind, a));
        var b :| b in goalLists && goalKeys[j] == KeyName(StorageKey(GoalsKind, b));
        YearOfKeyName(StorageKey(GoalsKind, a));
        YearOfKeyName(StorageKey(GoalsKind, b));
        ParsedYearsAt(goalKeys, i);
        ParsedYearsAt(goalKeys, j);
      }
    }
  }

  /** `keys.filter(startsWith('goals_')).map(parseInt(split('_')[1])).sort((a, b) => b - a)`. */
  function YearsFromKeys(keys: seq<string>): (years: seq<int>)
    requires forall k :: k in keys && IsGoalsKey(k) ==> YearOfKey(k).Some?
    ensures Seqs.SortedDesc(years, Identity)
    ensures multiset(years) == multiset(ParsedYears(Seqs.Filter(keys, IsGoalsKey)))
  {
    Seqs.SortDesc(ParsedYears(Seqs.Filter(keys, IsGoalsKey)), Identity)
  }

  function Identity(y: int): int {
    y
  }

  lemma StrictlyDescending(years: seq<int>)
    requires Seqs.SortedDesc(years, Identity) && Seqs.Distinct(years)
    ensures forall i, j :: 0 <= i < j < |years| ==> years[i] > years[j]
  {
    forall i, j | 0 <= i < j < |years| ensures years[i] > years[j] {
      assert Identity(years[i]) >= Identity(years[j]);
    }
  }

  /** The `map` step: the year each key names. */
  function ParsedYears(keys: seq<string>): (years: seq<int>)
    requires forall k :: k in keys ==> YearOfKey(k).Some?
    ensures |years| == |keys|
  {
    if keys == [] then [] else [YearOfKey(keys[0]).value] + ParsedYears(keys[1..])
  }

  lemma {:induction false} ParsedYearsAt(keys: seq<string>, i: nat)
    requires forall k :: k in keys ==> YearOfKey(k).Some?
    requires i < |keys|
    ensures ParsedYears(keys)[i] == YearOfKey(keys[i]).value
  {
    if i > 0 {
      ParsedYearsAt(keys[1..], i - 1);
    }
  }

  lemma ParsedYearsMember(keys: seq<string>, k: string)
    requires forall k :: k in keys ==> YearOfKey(k).Some?
    requires k in keys
    ensures YearOfKey(k).value in ParsedYears(keys)
  {
    var i :| 0 <= i < |keys| && keys[i] == k;
    ParsedYearsAt(keys, i);
  }

  lemma ParsedYearsSource(keys: seq<string>, y: int) returns (k: string)
    requires forall k :: k in keys ==> YearOfKey(k).Some?
    requires y in ParsedYears(keys)
    ensures k in keys && YearOfKey(k) == Some(y)
  {
    var i :| 0 <= i < |keys| && ParsedYears(keys)[i] == y;
    ParsedYearsAt(keys, i);
    k := keys[i];
  }
}
