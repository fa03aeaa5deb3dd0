/** What the form does at start-up: for every profile flagged to start on
    login, start its flagged executables and then its flagged services, each
    list in order. The model produces the sequence of start requests. */
module Startup {
  import opened Model

  datatype StartRequest =
    | ExecutableStart(item: ExecutableItem)
    | ServiceStart(serviceName: string)

  /** The start requests for the flagged executables of a list, in order. */
  function ExecutableStarts(items: seq<ExecutableItem>): (r: seq<StartRequest>)
    ensures forall k :: 0 <= k < |r| ==> r[k].ExecutableStart?
  {
    if items == [] then []
    else
      var last := items[|items| - 1];
      ExecutableStarts(items[..|items| - 1]) + (if last.StartOnLogin then [ExecutableStart(last)] else [])
  }

  /** The start requests for the flagged services of a list, in order. */
  function ServiceStarts(items: seq<ServiceItem>): (r: seq<StartRequest>)
    ensures forall k :: 0 <= k < |r| ==> r[k].ServiceStart?
  {
    if items == [] then []
    else
      var last := items[|items| - 1];
      ServiceStarts(items[..|items| - 1]) + (if last.StartOnLogin then [ServiceStart(last.ServiceName)] else [])
  }

  /** One profile's part of the plan: nothing unless the profile itself is
      flagged, and then its executables before its services. */
  function ProfileStarts(p: Profile): (r: seq<StartRequest>)
    ensures r != [] ==> p.StartOnLogin
  {
    if p.StartOnLogin then ExecutableStarts(p.Executables) + ServiceStarts(p.Services) else []
  }

  /** The requests of the start-up loop, profile after profile. */
  function LoginPlan(profiles: seq<Profile>): seq<StartRequest>
  {
    if profiles == [] then []
    else LoginPlan(profiles[..|profiles| - 1]) + ProfileStarts(profiles[|profiles| - 1])
  }

  /** The start-up loop of the form's constructor. */
  method RunStartupActions(profiles: seq<Profile>) returns (requests: seq<StartRequest>)
    ensures requests == LoginPlan(profiles)
  {
    requests := [];
    var i := 0;
    while i < |profiles|
      invariant 0 <= i <= |profiles|
      invariant requests == LoginPlan(profiles[..i])
    {
      assert profiles[..i + 1][..i] == profiles[..i];
      assert LoginPlan(profiles[..i + 1]) == LoginPlan(profiles[..i]) + ProfileStarts(profiles[i]);
      requests := StartProfile(requests, profiles[i]);
      i := i + 1;
    }
    assert profiles[..i] == profiles;
  }

  /** One pass of the outer loop: a flagged profile's executables, then its
      services. */
  method StartProfile(requests: seq<StartRequest>, p: Profile) returns (r: seq<StartRequest>)
    ensures r == requests + ProfileStarts(p)
  {
    r := requests;
    if p.StartOnLogin {
      r := StartFlaggedExecutables(r, p.Executables);
      r := StartFlaggedServices(r, p.Services);
    }
  }

  /** The inner loop over a profile's executables. */
  method StartFlaggedExecutables(requests: seq<StartRequest>, items: seq<ExecutableItem>) returns (r: seq<StartRequest>)
    ensures r == requests + ExecutableStarts(items)
  {
    r := requests;
    var j := 0;
    while j < |items|
      invariant 0 <= j <= |items|
      invariant r == requests + ExecutableStarts(items[..j])
    {
      assert items[..j + 1][..j] == items[..j];
      if items[j].StartOnLogin {
        r := r + [ExecutableStart(items[j])];
      }
      j := j + 1;
    }
    assert items[..j] == items;
  }

  /** The inner loop over a profile's services. */
  method StartFlaggedServices(requests: seq<StartRequest>, items: seq<ServiceItem>) returns (r: seq<StartRequest>)
    ensures r == requests + ServiceStarts(items)
  {
    r := requests;
    var k := 0;
    while k < |items|
      invariant 0 <= k <= |items|
      invariant r == requests + ServiceStarts(items[..k])
    {
      assert items[..k + 1][..k] == items[..k];
      if items[k].StartOnLogin {
        r := r + [ServiceStart(items[k].ServiceName)];
      }
      k := k + 1;
    }
    assert items[..k] == items;
  }

  /** Replacing one profile by a profile that starts nothing removes exactly
      that profile's requests from the plan. */
  lemma ReplaceBySilentProfile(profiles: seq<Profile>, i: nat, q: Profile)
    requires i < |profiles| && ProfileStarts(q) == []
    ensures LoginPlan(profiles[i := q]) == LoginPlan(profiles[..i]) + LoginPlan(profiles[i + 1..])
  {
    var before, after := profiles[..i], profiles[i + 1..];
    assert profiles[i := q] == before + [q] + after;
    ProfileGatesItems(before, q, after);
  }

  lemma ConcatAssociative<T>(x: seq<T>, y: seq<T>, z: seq<T>)
    ensures (x + y) + z == x + (y + z)
  {
  }

  /** Appending a profile appends its part of the plan. */
  lemma LoginPlanSnoc(s: seq<Profile>, p: Profile)
    ensures LoginPlan(s + [p]) == LoginPlan(s) + ProfileStarts(p)
  {
    assert (s + [p])[..|s|] == s;
  }

  /** A request is in the plan of `s + [p]` when it is in the plan of `s` or
      in the part of `p`. */
  lemma LoginPlanSnocMember(s: seq<Profile>, p: Profile, x: StartRequest)
    ensures x in LoginPlan(s + [p]) <==> x in LoginPlan(s) || x in ProfileStarts(p)
  {
    LoginPlanSnoc(s, p);
  }

  /** The plan of a concatenation is the concatenation of the plans:
      profiles are handled in list order, each on its own. */
  lemma {:induction false} LoginPlanConcat(a: seq<Profile>, b: seq<Profile>)
    ensures LoginPlan(a + b) == LoginPlan(a) + LoginPlan(b)
    decreases |b|
  {
    if b == [] {
      assert a + b == a;
    } else {
      var b', last := b[..|b| - 1], b[|b| - 1];
      assert a + b == (a + b') + [last] && b == b' + [last];
      LoginPlanSnoc(a + b', last);
      LoginPlanSnoc(b', last);
      LoginPlanConcat(a, b');
      ConcatAssociative(LoginPlan(a), LoginPlan(b'), ProfileStarts(last));
    }
  }

  /** The profile flag gates its items: an unflagged profile contributes no
      request whatever its items' flags, and a flagged one contributes its
      flagged executables followed by its flagged services. */
  lemma ProfileGatesItems(before: seq<Profile>, p: Profile, after: seq<Profile>)
    ensures LoginPlan(before + [p] + after) ==
            LoginPlan(before) +
            (if p.StartOnLogin then ExecutableStarts(p.Executables) + ServiceStarts(p.Services) else []) +
            LoginPlan(after)
  {
    LoginPlanConcat(before + [p], after);
    LoginPlanConcat(before, [p]);
    assert [p][..0] == [];
  }

  /** Items that are not flagged produce no request. */
  lemma {:induction false} UnflaggedStartNothing(executables: seq<ExecutableItem>, services: seq<ServiceItem>)
    requires forall k :: 0 <= k < |executables| ==> !executables[k].StartOnLogin
    requires forall k :: 0 <= k < |services| ==> !services[k].StartOnLogin
    ensures ExecutableStarts(executables) == [] && ServiceStarts(services) == []
    decreases |executables| + |services|
  {
    if executables != [] {
      UnflaggedStartNothing(executables[..|executables| - 1], services);
    } else if services != [] {
      UnflaggedStartNothing(executables, services[..|services| - 1]);
    }
  }

  /** Within one profile, every executable request comes before every
      service request. */
  lemma ExecutablesBeforeServices(p: Profile)
    ensures forall a, b :: 0 <= a < b < |ProfileStarts(p)| && ProfileStarts(p)[a].ServiceStart? ==>
              ProfileStarts(p)[b].ServiceStart?
  {
    var e := ExecutableStarts(p.Executables);
    forall a, b | 0 <= a < b < |ProfileStarts(p)| && ProfileStarts(p)[a].ServiceStart?
      ensures ProfileStarts(p)[b].ServiceStart?
    {
      assert a >= |e|;
    }
  }

  lemma {:induction false} ExecutableStartsMember(items: seq<ExecutableItem>, e: ExecutableItem)
    ensures ExecutableStart(e) in ExecutableStarts(items) <==> e in items && e.StartOnLogin
  {
    if items != [] {
      var init := items[..|items| - 1];
      ExecutableStartsMember(init, e);
      assert items == init + [items[|items| - 1]];
    }
  }

  /** Some flagged item of `items` names the service `name`. */
  predicate HasFlaggedService(items: seq<ServiceItem>, name: string)
  {
    exists j :: 0 <= j < |items| && items[j].StartOnLogin && items[j].ServiceName == name
  }

  lemma {:induction false} ServiceStartsMember(items: seq<ServiceItem>, name: string)
    ensures ServiceStart(name) in ServiceStarts(items) <==> HasFlaggedService(items, name)
  {
    if items != [] {
      var init := items[..|items| - 1];
      ServiceStartsMember(init, name);
      assert items == init + [items[|items| - 1]];
      if HasFlaggedService(items, name) {
        var j :| 0 <= j < |items| && items[j].StartOnLogin && items[j].ServiceName == name;
        if j < |init| { assert init[j] == items[j]; }
      }
    }
  }

  /** A non-empty sequence is its prefix followed by its last element. */
  lemma SplitLast<T>(s: seq<T>)
    requires s != []
    ensures s == s[..|s| - 1] + [s[|s| - 1]]
  {
  }

  /** `e` is a flagged executable of a flagged profile. */
  predicate StartsAtLogin(p: Profile, e: ExecutableItem)
  {
    p.StartOnLogin && e in p.Executables && e.StartOnLogin
  }

  lemma ProfileStartsExecutable(p: Profile, e: ExecutableItem)
    ensures ExecutableStart(e) in ProfileStarts(p) <==> StartsAtLogin(p, e)
  {
    ExecutableStartsMember(p.Executables, e);
    assert ExecutableStart(e) !in ServiceStarts(p.Services);
  }

  lemma StartsAtLoginSnoc(profiles: seq<Profile>, init: seq<Profile>, p: Profile, e: ExecutableItem)
    requires profiles == init + [p]
    ensures (exists i :: 0 <= i < |profiles| && StartsAtLogin(profiles[i], e)) <==>
            (exists i :: 0 <= i < |init| && StartsAtLogin(init[i], e)) || StartsAtLogin(p, e)
  {
    if exists i :: 0 <= i < |profiles| && StartsAtLogin(profiles[i], e) {
      var i :| 0 <= i < |profiles| && StartsAtLogin(profiles[i], e);
      if i < |init| { assert init[i] == profiles[i]; }
    }
    if exists i :: 0 <= i < |init| && StartsAtLogin(init[i], e) {
      var i :| 0 <= i < |init| && StartsAtLogin(init[i], e);
      assert profiles[i] == init[i];
    }
    assert profiles[|init|] == p;
  }

  /** An executable is started at login exactly when it belongs to a profile
      flagged to start on login and is flagged itself. */
  lemma {:induction false} LoginStartsExecutable(profiles: seq<Profile>, e: ExecutableItem)
    ensures ExecutableStart(e) in LoginPlan(profiles) <==>
            exists i :: 0 <= i < |profiles| && StartsAtLogin(profiles[i], e)
  {
    if profiles != [] {
      var init, p := profiles[..|profiles| - 1], profiles[|profiles| - 1];
      LoginStartsExecutable(init, e);
      SplitLast(profiles);
      LoginPlanSnocMember(init, p, ExecutableStart(e));
      ProfileStartsExecutable(p, e);
      StartsAtLoginSnoc(profiles, init, p, e);
    }
  }

  /** `name` is the service of a flagged item of a flagged profile. */
  predicate StartsServiceAtLogin(p: Profile, name: string)
  {
    p.StartOnLogin && HasFlaggedService(p.Services, name)
  }

  lemma ProfileStartsService(p: Profile, name: string)
    ensures ServiceStart(name) in ProfileStarts(p) <==> StartsServiceAtLogin(p, name)
  {
    ServiceStartsMember(p.Services, name);
    assert ServiceStart(name) !in ExecutableStarts(p.Executables);
  }

  lemma StartsServiceAtLoginSnoc(profiles: seq<Profile>, init: seq<Profile>, p: Profile, name: string)
    requires profiles == init + [p]
    ensures (exists i :: 0 <= i < |profiles| && StartsServiceAtLogin(profiles[i], name)) <==>
            (exists i :: 0 <= i < |init| && StartsServiceAtLogin(init[i], name)) || StartsServiceAtLogin(p, name)
  {
    if exists i :: 0 <= i < |profiles| && StartsServiceAtLogin(profiles[i], name) {
      var i :| 0 <= i < |profiles| && StartsServiceAtLogin(profiles[i], name);
      if i < |init| { assert init[i] == profiles[i]; }
    }
    if exists i :: 0 <= i < |init| && StartsServiceAtLogin(init[i], name) {
      var i :| 0 <= i < |init| && StartsServiceAtLogin(init[i], name);
      assert profiles[i] == init[i];
    }
    assert profiles[|init|] == p;
  }

  /** A service is started at login exactly when some profile flagged to
      start on login holds a flagged service item with that service name. */
  lemma {:induction false} LoginStartsService(profiles: seq<Profile>, name: string)
    ensures ServiceStart(name) in LoginPlan(profiles) <==>
            exists i :: 0 <= i < |profiles| && StartsServiceAtLogin(profiles[i], name)
  {
    if profiles != [] {
      var init, p := profiles[..|profiles| - 1], profiles[|profiles| - 1];
      LoginStartsService(init, name);
      SplitLast(profiles);
      LoginPlanSnocMember(init, p, ServiceStart(name));
      ProfileStartsService(p, name);
      StartsServiceAtLoginSnoc(profiles, init, p, name);
    }
  }

  /** A flagged profile with a flagged executable and an unflagged service
      yields exactly one request: the executable's. */
  lemma WebStackScenario()
    ensures var api := ExecutableItem("api", "/opt/api/api", "--port 8080", true);
            var db := ServiceItem("db", "postgresql", false);
            LoginPlan([Profile("WebStack", true, [api], [db])]) == [ExecutableStart(api)]
  {
    var api := ExecutableItem("api", "/opt/api/api", "--port 8080", true);
    var db := ServiceItem("db", "postgresql", false);
    var p := Profile("WebStack", true, [api], [db]);
    assert [p][..0] == [];
    assert [api][..0] == [] && [db][..0] == [];
    assert ExecutableStarts([api]) == [ExecutableStart(api)];
    assert ServiceStarts([db]) == [];
    assert LoginPlan([p]) == LoginPlan([]) + ProfileStarts(p);
  }
}
