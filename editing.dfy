/** The list editing done by the edit tab's click handlers: building an item
    from the input fields, upserting items by nickname and profiles by name
    (all matched ignoring case), removing a selected item, and deleting every
    profile with a given name. */
module Editing {
  import opened Text
  import opened Model

  /** Position of the first entry whose key equals `name` ignoring case
      (`FirstOrDefault` with an `OrdinalIgnoreCase` test), if any. */
  function FirstIndex<T>(s: seq<T>, key: T -> string, name: string): (r: Option<nat>)
    ensures r.Some? ==> r.value < |s| && EqualsIgnoreCase(key(s[r.value]), name)
    ensures r.Some? ==> forall j :: 0 <= j < r.value ==> !EqualsIgnoreCase(key(s[j]), name)
    ensures r.None? <==> forall j :: 0 <= j < |s| ==> !EqualsIgnoreCase(key(s[j]), name)
  {
    if s == [] then None
    else if EqualsIgnoreCase(key(s[0]), name) then Some(0)
    else match FirstIndex(s[1..], key, name)
      case None => None
      case Some(i) => Some(i + 1)
  }

  /** Some entry's key equals `name` ignoring case. */
  predicate HasKey<T>(s: seq<T>, key: T -> string, name: string)
  {
    exists j :: 0 <= j < |s| && EqualsIgnoreCase(key(s[j]), name)
  }

  /** The upsert pattern shared by the three handlers: the first entry whose
      key matches `item`'s is merged with `item` in place, and with no match
      `item` is appended. */
  function Upsert<T>(s: seq<T>, key: T -> string, item: T, merge: (T, T) -> T): (r: seq<T>)
    ensures |r| == if FirstIndex(s, key, key(item)).Some? then |s| else |s| + 1
    ensures forall k :: 0 <= k < |s| && FirstIndex(s, key, key(item)) != Some(k) ==> r[k] == s[k]
    ensures FirstIndex(s, key, key(item)).None? ==> r[|s|] == item
  {
    match FirstIndex(s, key, key(item))
    case Some(i) => s[i := merge(s[i], item)]
    case None => s + [item]
  }

  /** What an upsert does, for any merge that keeps the key of the entry it
      updates: the length grows exactly when no key matched, uniqueness of
      keys is kept, and afterwards the first match for the key is the updated
      entry (or the appended one). */
  lemma UpsertFacts<T>(s: seq<T>, key: T -> string, item: T, merge: (T, T) -> T)
    requires forall a, b :: key(merge(a, b)) == key(a)
    ensures |Upsert(s, key, item, merge)| == if HasKey(s, key, key(item)) then |s| else |s| + 1
    ensures UniqueKeys(s, key) ==> UniqueKeys(Upsert(s, key, item, merge), key)
    ensures match FirstIndex(s, key, key(item))
      case Some(i) => FirstIndex(Upsert(s, key, item, merge), key, key(item)) == Some(i)
      case None => FirstIndex(Upsert(s, key, item, merge), key, key(item)) == Some(|s|)
  {
    var r := Upsert(s, key, item, merge);
    match FirstIndex(s, key, key(item))
    case Some(i) =>
      assert forall k :: 0 <= k < |s| ==> key(r[k]) == key(s[k]);
    case None =>
      assert !HasKey(s, key, key(item));
      assert r[|s|] == item;
  }

  /** With unique keys, the first match for an entry's key is that entry. */
  lemma FirstIndexOfUnique<T>(s: seq<T>, key: T -> string, i: nat, name: string)
    requires UniqueKeys(s, key) && i < |s| && EqualsIgnoreCase(key(s[i]), name)
    ensures FirstIndex(s, key, name) == Some(i)
  {
    assert FirstIndex(s, key, name).Some?;
  }

  /** Applying the same upsert twice is the same as applying it once, when
      merging the same item twice changes nothing more. */
  lemma UpsertIdempotent<T>(s: seq<T>, key: T -> string, item: T, merge: (T, T) -> T)
    requires forall a, b :: key(merge(a, b)) == key(a)
    requires forall a :: merge(merge(a, item), item) == merge(a, item)
    requires merge(item, item) == item
    ensures Upsert(Upsert(s, key, item, merge), key, item, merge) == Upsert(s, key, item, merge)
  {
    UpsertFacts(s, key, item, merge);
    var r := Upsert(s, key, item, merge);
    match FirstIndex(s, key, key(item))
    case Some(i) =>
      assert Upsert(r, key, item, merge) == r[i := merge(r[i], item)];
    case None =>
      assert r[|s|] == item;
      assert EqualsIgnoreCase(key(item), key(item));
      assert Upsert(r, key, item, merge) == r[|s| := merge(item, item)];
  }

  // ---- Executables

  /** The item the "Add/Update EXE" handler builds from its fields, or None
      when the nickname or the path is blank (the "Missing info" warning). */
  function NewExecutable(nicknameText: string, pathText: string, parametersText: string, startOnLogin: bool): (r: Option<ExecutableItem>)
    ensures r.Some? <==> !IsBlank(nicknameText) && !IsBlank(pathText)
    ensures r.Some? ==> r.value.Nickname == Trim(nicknameText) && r.value.Nickname != []
    ensures r.Some? ==> r.value.Path == Trim(pathText) && r.value.Path != []
    ensures r.Some? ==> r.value.Parameters == Trim(parametersText) && r.value.StartOnLogin == startOnLogin
  {
    if IsBlank(nicknameText) || IsBlank(pathText) then None
    else Some(ExecutableItem(Trim(nicknameText), Trim(pathText), Trim(parametersText), startOnLogin))
  }

  /** The fields an update writes onto an existing executable: its path and
      parameters. The nickname and the login flag stay. */
  function MergeExecutable(existing: ExecutableItem, incoming: ExecutableItem): ExecutableItem
  {
    existing.(Path := incoming.Path, Parameters := incoming.Parameters)
  }

  /** Upsert of an executable into a profile's list by nickname. */
  function UpsertExecutable(items: seq<ExecutableItem>, item: ExecutableItem): (r: seq<ExecutableItem>)
    ensures |r| == if HasKey(items, ExecutableNickname, item.Nickname) then |items| else |items| + 1
    ensures match FirstIndex(items, ExecutableNickname, item.Nickname)
      case Some(i) =>
        && r[i].Nickname == items[i].Nickname && r[i].StartOnLogin == items[i].StartOnLogin
        && r[i].Path == item.Path && r[i].Parameters == item.Parameters
        && forall k :: 0 <= k < |items| && k != i ==> r[k] == items[k]
      case None => r == items + [item]
    ensures UniqueKeys(items, ExecutableNickname) ==> UniqueKeys(r, ExecutableNickname)
  {
    UpsertFacts(items, ExecutableNickname, item, MergeExecutable);
    Upsert(items, ExecutableNickname, item, MergeExecutable)
  }

  /** After an executable upsert, looking the nickname up finds an entry
      carrying the new path and parameters; repeating the upsert changes
      nothing. */
  lemma UpsertExecutableThenFind(items: seq<ExecutableItem>, item: ExecutableItem)
    ensures var r := UpsertExecutable(items, item);
      var f := FirstIndex(r, ExecutableNickname, item.Nickname);
      f.Some? && r[f.value].Path == item.Path && r[f.value].Parameters == item.Parameters
    ensures UpsertExecutable(UpsertExecutable(items, item), item) == UpsertExecutable(items, item)
  {
    UpsertFacts(items, ExecutableNickname, item, MergeExecutable);
    UpsertIdempotent(items, ExecutableNickname, item, MergeExecutable);
  }

  // ---- Services

  /** The item the "Add/Update Service" handler builds, or None when the
      nickname is blank or no installed service is selected. The service
      name is the selected service's own name, untrimmed. */
  function NewService(nicknameText: string, selectedService: Option<string>, startOnLogin: bool): (r: Option<ServiceItem>)
    ensures r.Some? <==> !IsBlank(nicknameText) && selectedService.Some?
    ensures r.Some? ==> r.value.Nickname == Trim(nicknameText) && r.value.Nickname != []
    ensures r.Some? ==> r.value.ServiceName == selectedService.value && r.value.StartOnLogin == startOnLogin
  {
    if IsBlank(nicknameText) || selectedService.None? then None
    else Some(ServiceItem(Trim(nicknameText), selectedService.value, startOnLogin))
  }

  /** The field an update writes onto an existing service: its service name. */
  function MergeService(existing: ServiceItem, incoming: ServiceItem): ServiceItem
  {
    existing.(ServiceName := incoming.ServiceName)
  }

  /** Upsert of a service into a profile's list by nickname. */
  function UpsertService(items: seq<ServiceItem>, item: ServiceItem): (r: seq<ServiceItem>)
    ensures |r| == if HasKey(items, ServiceNickname, item.Nickname) then |items| else |items| + 1
    ensures match FirstIndex(items, ServiceNickname, item.Nickname)
      case Some(i) =>
        && r[i].Nickname == items[i].Nickname && r[i].StartOnLogin == items[i].StartOnLogin
        && r[i].ServiceName == item.ServiceName
        && forall k :: 0 <= k < |items| && k != i ==> r[k] == items[k]
      case None => r == items + [item]
    ensures UniqueKeys(items, ServiceNickname) ==> UniqueKeys(r, ServiceNickname)
  {
    UpsertFacts(items, ServiceNickname, item, MergeService);
    Upsert(items, ServiceNickname, item, MergeService)
  }

  /** After a service upsert, looking the nickname up finds an entry with the
      new service name; repeating the upsert changes nothing. */
  lemma UpsertServiceThenFind(items: seq<ServiceItem>, item: ServiceItem)
    ensures var r := UpsertService(items, item);
      var f := FirstIndex(r, ServiceNickname, item.Nickname);
      f.Some? && r[f.value].ServiceName == item.ServiceName
    ensures UpsertService(UpsertService(items, item), item) == UpsertService(items, item)
  {
    UpsertFacts(items, ServiceNickname, item, MergeService);
    UpsertIdempotent(items, ServiceNickname, item, MergeService);
  }

  // ---- Removing a selected item

  /** `List.Remove` of the item selected in a list box, given by position. */
  function RemoveAt<T>(s: seq<T>, i: nat): (r: seq<T>)
    requires i < |s|
    ensures multiset(r) + multiset{s[i]} == multiset(s)
    ensures r[..i] == s[..i] && r[i..] == s[i + 1..]
  {
    assert s == s[..i] + [s[i]] + s[i + 1..];
    s[..i] + s[i + 1..]
  }

  /** Removing an entry keeps keys unique. */
  lemma RemoveAtKeepsUnique<T>(s: seq<T>, i: nat, key: T -> string)
    requires i < |s| && UniqueKeys(s, key)
    ensures UniqueKeys(RemoveAt(s, i), key)
  {
    var r := RemoveAt(s, i);
    forall a, b | 0 <= a < b < |r| ensures !EqualsIgnoreCase(key(r[a]), key(r[b])) {
      var a', b' := if a < i then a else a + 1, if b < i then b else b + 1;
      assert r[a] == s[a'] && r[b] == s[b'];
    }
  }

  // ---- Profiles

  /** What saving writes onto an existing profile: its two lists. The name
      and the login flag of the stored profile stay as they were. */
  function MergeProfile(existing: Profile, draft: Profile): Profile
  {
    existing.(Executables := draft.Executables, Services := draft.Services)
  }

  /** Upsert of the draft into the profile list by name ("Save Profile"). */
  function UpsertProfile(profiles: seq<Profile>, draft: Profile): (r: seq<Profile>)
    ensures |r| == if HasKey(profiles, ProfileName, draft.Name) then |profiles| else |profiles| + 1
    ensures match FirstIndex(profiles, ProfileName, draft.Name)
      case Some(i) =>
        && r[i].Name == profiles[i].Name && r[i].StartOnLogin == profiles[i].StartOnLogin
        && r[i].Executables == draft.Executables && r[i].Services == draft.Services
        && forall k :: 0 <= k < |profiles| && k != i ==> r[k] == profiles[k]
      case None => r == profiles + [draft]
    ensures UniqueKeys(profiles, ProfileName) ==> UniqueKeys(r, ProfileName)
    ensures (forall k :: 0 <= k < |profiles| ==> UniqueNicknames(profiles[k])) && UniqueNicknames(draft) ==>
              forall k :: 0 <= k < |r| ==> UniqueNicknames(r[k])
  {
    UpsertFacts(profiles, ProfileName, draft, MergeProfile);
    Upsert(profiles, ProfileName, draft, MergeProfile)
  }

  /** With unique names, saving a draft whose name matches the stored
      profile at `i` replaces that profile's two lists and nothing else. */
  lemma UpsertExistingProfile(profiles: seq<Profile>, i: nat, draft: Profile)
    requires UniqueKeys(profiles, ProfileName) && i < |profiles|
    requires EqualsIgnoreCase(profiles[i].Name, draft.Name)
    ensures UpsertProfile(profiles, draft) == profiles[i := MergeProfile(profiles[i], draft)]
  {
    FirstIndexOfUnique(profiles, ProfileName, i, draft.Name);
  }

  /** `Profiles.RemoveAll` of every profile whose name equals `name` ignoring
      case ("Delete Profile"). */
  function RemoveProfilesNamed(profiles: seq<Profile>, name: string): (r: seq<Profile>)
    ensures |r| <= |profiles|
    ensures forall k :: 0 <= k < |r| ==> !EqualsIgnoreCase(r[k].Name, name) && r[k] in profiles
    ensures forall k :: 0 <= k < |profiles| && !EqualsIgnoreCase(profiles[k].Name, name) ==> profiles[k] in r
  {
    if profiles == [] then []
    else
      var rest := RemoveProfilesNamed(profiles[1..], name);
      assert forall k :: 1 <= k < |profiles| ==> profiles[k] == profiles[1..][k - 1];
      (if EqualsIgnoreCase(profiles[0].Name, name) then [] else [profiles[0]]) + rest
  }

  /** Deletion filters in order: it distributes over concatenation, so the
      profiles that remain keep their relative order. */
  lemma {:induction false} RemoveProfilesNamedConcat(a: seq<Profile>, b: seq<Profile>, name: string)
    ensures RemoveProfilesNamed(a + b, name) == RemoveProfilesNamed(a, name) + RemoveProfilesNamed(b, name)
    decreases |a|
  {
    if a == [] {
      assert a + b == b;
    } else {
      assert (a + b)[1..] == a[1..] + b;
      RemoveProfilesNamedConcat(a[1..], b, name);
    }
  }

  /** Deleting a name no profile has changes nothing; so deleting the same
      name a second time changes nothing. */
  lemma {:induction false} RemoveProfilesNamedIdempotent(profiles: seq<Profile>, name: string)
    ensures !HasKey(profiles, ProfileName, name) ==> RemoveProfilesNamed(profiles, name) == profiles
    ensures RemoveProfilesNamed(RemoveProfilesNamed(profiles, name), name) == RemoveProfilesNamed(profiles, name)
  {
    NoMatchUnchanged(profiles, name);
    var r := RemoveProfilesNamed(profiles, name);
    assert !HasKey(r, ProfileName, name);
    NoMatchUnchanged(r, name);
  }

  lemma {:induction false} NoMatchUnchanged(profiles: seq<Profile>, name: string)
    ensures !HasKey(profiles, ProfileName, name) ==> RemoveProfilesNamed(profiles, name) == profiles
  {
    if profiles != [] && !HasKey(profiles, ProfileName, name) {
      assert ProfileName(profiles[0]) == profiles[0].Name;
      assert !HasKey(profiles[1..], ProfileName, name);
      NoMatchUnchanged(profiles[1..], name);
      assert profiles == [profiles[0]] + profiles[1..];
    }
  }

  /** The tail of a list with unique keys has unique keys, none of them
      equal to the head's. */
  lemma UniqueKeysTail<T>(s: seq<T>, key: T -> string)
    requires s != [] && UniqueKeys(s, key)
    ensures UniqueKeys(s[1..], key)
    ensures forall m :: 0 <= m < |s| - 1 ==> !EqualsIgnoreCase(key(s[0]), key(s[1..][m]))
  {
    var rest := s[1..];
    forall i, j | 0 <= i < j < |rest| ensures !EqualsIgnoreCase(key(rest[i]), key(rest[j])) {
      assert rest[i] == s[i + 1] && rest[j] == s[j + 1];
    }
    forall m | 0 <= m < |s| - 1 ensures !EqualsIgnoreCase(key(s[0]), key(rest[m])) {
      assert rest[m] == s[m + 1];
    }
  }

  /** Deleting keeps profile names unique. */
  lemma {:induction false} RemoveProfilesNamedKeepsUnique(profiles: seq<Profile>, name: string)
    requires UniqueKeys(profiles, ProfileName)
    ensures UniqueKeys(RemoveProfilesNamed(profiles, name), ProfileName)
  {
    if profiles != [] {
      var rest := profiles[1..];
      UniqueKeysTail(profiles, ProfileName);
      RemoveProfilesNamedKeepsUnique(rest, name);
      var rr := RemoveProfilesNamed(rest, name);
      var r := RemoveProfilesNamed(profiles, name);
      if !EqualsIgnoreCase(profiles[0].Name, name) {
        assert r == [profiles[0]] + rr;
        ConsKeepsUnique(profiles[0], rr, rest, ProfileName);
      }
    }
  }

  /** Putting `x` in front of a list with unique keys, all drawn from a list
      none of whose keys equals `x`'s, keeps keys unique. */
  lemma ConsKeepsUnique<T>(x: T, s: seq<T>, from: seq<T>, key: T -> string)
    requires UniqueKeys(s, key) && forall y :: y in s ==> y in from
    requires forall m :: 0 <= m < |from| ==> !EqualsIgnoreCase(key(x), key(from[m]))
    ensures UniqueKeys([x] + s, key)
  {
    var r := [x] + s;
    forall j | 0 < j < |r| ensures !EqualsIgnoreCase(key(r[0]), key(r[j])) {
      assert r[j] == s[j - 1] && s[j - 1] in from;
    }
    forall i, j | 0 < i < j < |r| ensures !EqualsIgnoreCase(key(r[i]), key(r[j])) {
      assert r[i] == s[i - 1] && r[j] == s[j - 1];
    }
  }

  /** With unique names, deleting removes exactly one profile when the name
      is present and none otherwise. */
  lemma {:induction false} RemoveProfilesNamedCount(profiles: seq<Profile>, name: string)
    requires UniqueKeys(profiles, ProfileName)
    ensures |RemoveProfilesNamed(profiles, name)| == if HasKey(profiles, ProfileName, name) then |profiles| - 1 else |profiles|
  {
    NoMatchUnchanged(profiles, name);
    if profiles != [] {
      var rest := profiles[1..];
      UniqueKeysTail(profiles, ProfileName);
      RemoveProfilesNamedCount(rest, name);
      if EqualsIgnoreCase(profiles[0].Name, name) {
        assert EqualsIgnoreCase(ProfileName(profiles[0]), name);
        assert !HasKey(rest, ProfileName, name);
        NoMatchUnchanged(rest, name);
      } else {
        assert HasKey(profiles, ProfileName, name) ==> HasKey(rest, ProfileName, name) by {
          if HasKey(profiles, ProfileName, name) {
            var j :| 0 <= j < |profiles| && EqualsIgnoreCase(ProfileName(profiles[j]), name);
            assert rest[j - 1] == profiles[j];
          }
        }
        assert HasKey(rest, ProfileName, name) ==> HasKey(profiles, ProfileName, name) by {
          if HasKey(rest, ProfileName, name) {
            var j :| 0 <= j < |rest| && EqualsIgnoreCase(ProfileName(rest[j]), name);
            assert rest[j] == profiles[j + 1];
          }
        }
      }
    }
  }
}
