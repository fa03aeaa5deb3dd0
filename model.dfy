/** The profile data model of the control panel (the `ExecutableItem`,
    `ServiceItem` and `Profile` classes of the form) and the editor's draft
    copy of a profile. */
module Model {
  import opened Text

  datatype Option<T> = None | Some(value: T) {
    function GetOr(default: T): T
    {
      if Some? then value else default
    }
  }

  /** A program started by path, with a raw argument string. */
  datatype ExecutableItem = ExecutableItem(
    Nickname: string,
    Path: string,
    Parameters: string,
    StartOnLogin: bool)

  /** An OS service, identified by its service name (not its display name). */
  datatype ServiceItem = ServiceItem(
    Nickname: string,
    ServiceName: string,
    StartOnLogin: bool)

  datatype Profile = Profile(
    Name: string,
    StartOnLogin: bool,
    Executables: seq<ExecutableItem>,
    Services: seq<ServiceItem>)

  /** `new Profile()`: every property at its initialiser. */
  const EmptyProfile := Profile("", false, [], [])

  function ExecutableNickname(e: ExecutableItem): string { e.Nickname }
  function ServiceNickname(s: ServiceItem): string { s.Nickname }
  function ProfileName(p: Profile): string { p.Name }

  /** No two entries of `s` have keys that are equal ignoring case. */
  predicate UniqueKeys<T>(s: seq<T>, key: T -> string)
  {
    forall i, j :: 0 <= i < j < |s| ==> !EqualsIgnoreCase(key(s[i]), key(s[j]))
  }

  /** The nickname rule of a profile: nicknames are unique within each of
      its two lists. */
  predicate UniqueNicknames(p: Profile)
  {
    UniqueKeys(p.Executables, ExecutableNickname) && UniqueKeys(p.Services, ServiceNickname)
  }

  /** The copy the editor works on (`FillEditFields`): the name, and every
      item's nickname, path, parameters and service name, in order. Neither
      the profile's nor any item's `StartOnLogin` is copied, so all of them
      are false in the draft. */
  function Draft(p: Profile): (d: Profile)
    ensures d.Name == p.Name && !d.StartOnLogin
    ensures |d.Executables| == |p.Executables| && |d.Services| == |p.Services|
    ensures forall i :: 0 <= i < |p.Executables| ==>
              d.Executables[i].Nickname == p.Executables[i].Nickname &&
              d.Executables[i].Path == p.Executables[i].Path &&
              d.Executables[i].Parameters == p.Executables[i].Parameters &&
              !d.Executables[i].StartOnLogin
    ensures forall i :: 0 <= i < |p.Services| ==>
              d.Services[i].Nickname == p.Services[i].Nickname &&
              d.Services[i].ServiceName == p.Services[i].ServiceName &&
              !d.Services[i].StartOnLogin
  {
    Profile(
      p.Name,
      false,
      seq(|p.Executables|, i requires 0 <= i < |p.Executables| =>
        var e := p.Executables[i]; ExecutableItem(e.Nickname, e.Path, e.Parameters, false)),
      seq(|p.Services|, i requires 0 <= i < |p.Services| =>
        var s := p.Services[i]; ServiceItem(s.Nickname, s.ServiceName, false)))
  }

  /** Drafting a draft changes nothing more. */
  lemma DraftIdempotent(p: Profile)
    ensures Draft(Draft(p)) == Draft(p)
  {
    var d, dd := Draft(p), Draft(Draft(p));
    assert dd.Executables == d.Executables by {
      forall i | 0 <= i < |d.Executables| ensures dd.Executables[i] == d.Executables[i] { }
    }
    assert dd.Services == d.Services by {
      forall i | 0 <= i < |d.Services| ensures dd.Services[i] == d.Services[i] { }
    }
  }

  /** The draft keeps the nickname rule of the profile it copies. */
  lemma DraftKeepsUniqueNicknames(p: Profile)
    requires UniqueNicknames(p)
    ensures UniqueNicknames(Draft(p))
  {
    var d := Draft(p);
    forall i, j | 0 <= i < j < |d.Executables|
      ensures !EqualsIgnoreCase(ExecutableNickname(d.Executables[i]), ExecutableNickname(d.Executables[j]))
    {
      assert ExecutableNickname(d.Executables[i]) == ExecutableNickname(p.Executables[i]);
      assert ExecutableNickname(d.Executables[j]) == ExecutableNickname(p.Executables[j]);
    }
    forall i, j | 0 <= i < j < |d.Services|
      ensures !EqualsIgnoreCase(ServiceNickname(d.Services[i]), ServiceNickname(d.Services[j]))
    {
      assert ServiceNickname(d.Services[i]) == ServiceNickname(p.Services[i]);
      assert ServiceNickname(d.Services[j]) == ServiceNickname(p.Services[j]);
    }
  }
}
