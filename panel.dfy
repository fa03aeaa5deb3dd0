/** The form's state and its edit-tab handlers: the profile list and the
    draft being edited (`editingProfile`, null until something is edited),
    changed in place by "New Profile", selecting a profile, "Add/Update
    EXE", "Remove EXE", "Add/Update Service", "Remove Service", "Save
    Profile" and "Delete Profile". */
module Panel {
  import opened Text
  import opened Model
  import opened Editing
  import opened Startup

  /** What `LoadProfiles` finds: no file, a file that cannot be read or
      parsed (any exception), or the parsed JSON array (`null` included). */
  datatype StoredFile = Missing | Unreadable | Parsed(content: Option<seq<Profile>>)

  /** The profile list after loading: every case but a parsed array leaves
      it empty. */
  function LoadedProfiles(file: StoredFile): (r: seq<Profile>)
    ensures r != [] ==> file == Parsed(Some(r))
    ensures file.Unreadable? || file.Missing? ==> r == []
    ensures file.Parsed? && file.content.Some? ==> r == file.content.value
  {
    match file
    case Parsed(Some(ps)) => ps
    case _ => []
  }

  class ControlPanel {
    var profiles: seq<Profile>
    var editing: Option<Profile>

    /** Loading at construction. The start-up loop that follows it is
        `Startup.RunStartupActions(profiles)`. */
    constructor (file: StoredFile)
      ensures profiles == LoadedProfiles(file) && editing == None
    {
      profiles := LoadedProfiles(file);
      editing := None;
    }

    /** "New Profile": the draft becomes a copy of an empty profile. */
    method NewProfile()
      modifies this
      ensures profiles == old(profiles)
      ensures editing == Some(Draft(EmptyProfile))
    {
      editing := Some(Draft(EmptyProfile));
    }

    /** Selecting a profile in the list: the draft becomes a copy of it. */
    method SelectProfile(index: nat)
      modifies this
      ensures profiles == old(profiles)
      ensures editing == if index < |profiles| then Some(Draft(profiles[index])) else old(editing)
      ensures index < |profiles| && UniqueNicknames(profiles[index]) ==> UniqueNicknames(editing.value)
    {
      if index < |profiles| {
        if UniqueNicknames(profiles[index]) {
          DraftKeepsUniqueNicknames(profiles[index]);
        }
        editing := Some(Draft(profiles[index]));
      }
    }

    /** "Add/Update EXE": with no draft an empty one is made first; blank
        input is rejected and leaves the draft as it is. */
    method AddExecutable(nicknameText: string, pathText: string, parametersText: string, startOnLogin: bool)
      returns (accepted: bool)
      modifies this
      ensures profiles == old(profiles)
      ensures var before := old(editing).GetOr(EmptyProfile);
              var item := NewExecutable(nicknameText, pathText, parametersText, startOnLogin);
              && accepted == item.Some?
              && editing == Some(if accepted then before.(Executables := UpsertExecutable(before.Executables, item.value))
                                 else before)
      ensures UniqueNicknames(old(editing).GetOr(EmptyProfile)) ==> UniqueNicknames(editing.value)
    {
      var draft := editing.GetOr(EmptyProfile);
      editing := Some(draft);
      var item := NewExecutable(nicknameText, pathText, parametersText, startOnLogin);
      accepted := item.Some?;
      if accepted {
        editing := Some(draft.(Executables := UpsertExecutable(draft.Executables, item.value)));
      }
    }

    /** "Remove EXE": removes the selected entry of the draft, if any. */
    method RemoveExecutable(selected: Option<nat>)
      modifies this
      ensures profiles == old(profiles)
      ensures editing == if old(editing).Some? && selected.Some? && selected.value < |old(editing).value.Executables|
                         then Some(old(editing).value.(Executables := RemoveAt(old(editing).value.Executables, selected.value)))
                         else old(editing)
      ensures old(editing).Some? && UniqueNicknames(old(editing).value) ==> UniqueNicknames(editing.value)
    {
      if editing.Some? && selected.Some? && selected.value < |editing.value.Executables| {
        var draft := editing.value;
        if UniqueNicknames(draft) {
          RemoveAtKeepsUnique(draft.Executables, selected.value, ExecutableNickname);
        }
        editing := Some(draft.(Executables := RemoveAt(draft.Executables, selected.value)));
      }
    }

    /** "Add/Update Service": `selectedService` is the service name of the
        entry chosen among the installed services, if one is chosen. */
    method AddService(nicknameText: string, selectedService: Option<string>, startOnLogin: bool)
      returns (accepted: bool)
      modifies this
      ensures profiles == old(profiles)
      ensures var before := old(editing).GetOr(EmptyProfile);
              var item := NewService(nicknameText, selectedService, startOnLogin);
              && accepted == item.Some?
              && editing == Some(if accepted then before.(Services := UpsertService(before.Services, item.value))
                                 else before)
      ensures UniqueNicknames(old(editing).GetOr(EmptyProfile)) ==> UniqueNicknames(editing.value)
    {
      var draft := editing.GetOr(EmptyProfile);
      editing := Some(draft);
      var item := NewService(nicknameText, selectedService, startOnLogin);
      accepted := item.Some?;
      if accepted {
        editing := Some(draft.(Services := UpsertService(draft.Services, item.value)));
      }
    }

    /** "Remove Service": removes the selected entry of the draft, if any. */
    method RemoveService(selected: Option<nat>)
      modifies this
      ensures profiles == old(profiles)
      ensures editing == if old(editing).Some? && selected.Some? && selected.value < |old(editing).value.Services|
                         then Some(old(editing).value.(Services := RemoveAt(old(editing).value.Services, selected.value)))
                         else old(editing)
      ensures old(editing).Some? && UniqueNicknames(old(editing).value) ==> UniqueNicknames(editing.value)
    {
      if editing.Some? && selected.Some? && selected.value < |editing.value.Services| {
        var draft := editing.value;
        if UniqueNicknames(draft) {
          RemoveAtKeepsUnique(draft.Services, selected.value, ServiceNickname);
        }
        editing := Some(draft.(Services := RemoveAt(draft.Services, selected.value)));
      }
    }

    /** "Save Profile": with no draft an empty one is made first; a blank name
        is rejected. Otherwise the draft takes the trimmed name and the
        checkbox's login flag and is upserted into the profile list. */
    method SaveProfile(nameText: string, startOnLogin: bool) returns (saved: bool)
      modifies this
      ensures saved <==> !IsBlank(nameText)
      ensures var before := old(editing).GetOr(EmptyProfile);
              var draft := before.(Name := Trim(nameText), StartOnLogin := startOnLogin);
              if saved then editing == Some(draft) && profiles == UpsertProfile(old(profiles), draft)
              else editing == Some(before) && profiles == old(profiles)
      ensures UniqueKeys(old(profiles), ProfileName) ==> UniqueKeys(profiles, ProfileName)
      ensures (forall k :: 0 <= k < |old(profiles)| ==> UniqueNicknames(old(profiles)[k])) &&
              UniqueNicknames(old(editing).GetOr(EmptyProfile)) ==>
                forall k :: 0 <= k < |profiles| ==> UniqueNicknames(profiles[k])
    {
      var before := editing.GetOr(EmptyProfile);
      editing := Some(before);
      saved := !IsBlank(nameText);
      if saved {
        var draft := before.(Name := Trim(nameText), StartOnLogin := startOnLogin);
        editing := Some(draft);
        profiles := UpsertProfile(profiles, draft);
      }
    }

    /** "Delete Profile": needs a draft with a non-blank name and the
        operator's confirmation; removes every profile with the draft's name
        ignoring case and starts a fresh empty draft. */
    method DeleteProfile(confirmed: bool) returns (deleted: bool)
      modifies this
      ensures deleted <==> old(editing).Some? && !IsBlank(old(editing).value.Name) && confirmed
      ensures deleted ==> profiles == RemoveProfilesNamed(old(profiles), old(editing).value.Name) &&
                          editing == Some(Draft(EmptyProfile))
      ensures !deleted ==> profiles == old(profiles) && editing == old(editing)
      ensures UniqueKeys(old(profiles), ProfileName) ==> UniqueKeys(profiles, ProfileName)
    {
      deleted := editing.Some? && !IsBlank(editing.value.Name) && confirmed;
      if deleted {
        if UniqueKeys(profiles, ProfileName) {
          RemoveProfilesNamedKeepsUnique(profiles, editing.value.Name);
        }
        profiles := RemoveProfilesNamed(profiles, editing.value.Name);
        editing := Some(Draft(EmptyProfile));
      }
    }
  }

  /** The stored profile after saving its own draft back: its name and
      login flag stay, and its items, copied from the draft, start nothing. */
  lemma ResavedProfileIsSilent(p: Profile, name: string, startOnLogin: bool)
    ensures var q := MergeProfile(p, Draft(p).(Name := name, StartOnLogin := startOnLogin));
            q.Name == p.Name && q.StartOnLogin == p.StartOnLogin && ProfileStarts(q) == []
  {
    var d := Draft(p);
    UnflaggedStartNothing(d.Executables, d.Services);
  }

  /** Selecting a stored profile and saving it again under its own name
      keeps its login flag but makes it start nothing at login: the draft
      carries no item flags and the save copies the draft's lists. */
  lemma ResavingDropsLoginStarts(profiles: seq<Profile>, i: nat, startOnLogin: bool)
    requires i < |profiles| && UniqueKeys(profiles, ProfileName)
    requires Trim(profiles[i].Name) == profiles[i].Name
    ensures var draft := Draft(profiles[i]).(Name := Trim(profiles[i].Name), StartOnLogin := startOnLogin);
            var r := UpsertProfile(profiles, draft);
            |r| == |profiles| && r[i].StartOnLogin == profiles[i].StartOnLogin &&
            LoginPlan(r) == LoginPlan(profiles[..i]) + LoginPlan(profiles[i + 1..])
  {
    var p := profiles[i];
    var draft := Draft(p).(Name := p.Name, StartOnLogin := startOnLogin);
    UpsertExistingProfile(profiles, i, draft);
    ResavedProfileIsSilent(p, p.Name, startOnLogin);
    ReplaceBySilentProfile(profiles, i, MergeProfile(p, draft));
  }
}
