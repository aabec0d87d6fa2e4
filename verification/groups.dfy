// Groups and memberships: each kept as its own record, and updated one record at a time.

module Groups {
  // slices.DeleteFunc on one name
  function Without(groups: seq<string>, group: string): (r: seq<string>)
    ensures forall g :: g in r <==> g in groups && g != group
    ensures group !in groups ==> r == groups
  {
    if groups == [] then []
    else
      assert groups == [groups[0]] + groups[1..];
      (if groups[0] == group then [] else [groups[0]]) + Without(groups[1..], group)
  }

  function With(groups: seq<string>, group: string): (r: seq<string>)
    ensures group in r && groups <= r && |r| <= |groups| + 1
    ensures group in groups ==> r == groups
  {
    if group in groups then groups else groups + [group]
  }

  // The other groups stay, each as often and in the order it was.
  lemma {:induction false} WithoutKeepsOrder(groups: seq<string>, more: seq<string>, group: string)
    ensures Without(groups + more, group) == Without(groups, group) + Without(more, group)
    ensures group !in more ==> Without(more, group) == more
    ensures forall g :: multiset(Without(groups, group))[g] == if g == group then 0 else multiset(groups)[g]
  {
    if groups == [] {
      assert groups + more == more;
    } else {
      var rest := groups[1..];
      assert groups == [groups[0]] + rest && (groups + more)[1..] == rest + more;
      WithoutKeepsOrder(rest, more, group);
    }
  }

  lemma WithoutTwice(groups: seq<string>, group: string)
    ensures Without(Without(groups, group), group) == Without(groups, group)
  {}

  function GroupsOf(membership: map<string, seq<string>>, user: string): seq<string> {
    if user in membership then membership[user] else []
  }

  function MembersOf(groups: map<string, seq<string>>, group: string): seq<string> {
    if group in groups then groups[group] else []
  }

  // A group is in a user's record exactly when the user is in the group's.
  ghost predicate Agree(groups: map<string, seq<string>>, membership: map<string, seq<string>>) {
    forall g, u :: u in MembersOf(groups, g) <==> g in GroupsOf(membership, u)
  }

  function AfterAdding(membership: map<string, seq<string>>,
                       user: string, added: seq<string>, group: string): seq<string> {
    if user in added then With(GroupsOf(membership, user), group) else GroupsOf(membership, user)
  }

  function AfterRemoving(membership: map<string, seq<string>>,
                         user: string, removed: seq<string>, group: string): seq<string> {
    if user in removed then Without(GroupsOf(membership, user), group) else GroupsOf(membership, user)
  }

  function AfterSetting(membership: map<string, seq<string>>,
                        user: string, members: seq<string>, group: string): seq<string> {
    if user in members then With(GroupsOf(membership, user), group) else Without(GroupsOf(membership, user), group)
  }

  lemma SettingAgrees(groups: map<string, seq<string>>, membership: map<string, seq<string>>,
                      groups': map<string, seq<string>>, membership': map<string, seq<string>>,
                      group: string, members: seq<string>)
    requires Agree(groups, membership) && groups' == groups[group := members]
    requires forall u :: GroupsOf(membership', u) == AfterSetting(membership, u, members, group)
    ensures Agree(groups', membership')
  {
    forall g, u ensures u in MembersOf(groups', g) <==> g in GroupsOf(membership', u) {
      assert u in MembersOf(groups, g) <==> g in GroupsOf(membership, u);
      assert GroupsOf(membership', u) == AfterSetting(membership, u, members, group);
    }
  }

  lemma RemovingAgrees(groups: map<string, seq<string>>, membership: map<string, seq<string>>,
                       groups': map<string, seq<string>>, membership': map<string, seq<string>>, group: string)
    requires Agree(groups, membership) && groups' == groups - {group}
    requires forall u :: GroupsOf(membership', u) == Without(GroupsOf(membership, u), group)
    ensures Agree(groups', membership')
  {
    forall g, u ensures u in MembersOf(groups', g) <==> g in GroupsOf(membership', u) {
      assert u in MembersOf(groups, g) <==> g in GroupsOf(membership, u);
      assert GroupsOf(membership', u) == Without(GroupsOf(membership, u), group);
    }
  }

  class GroupStore {
    var groups: map<string, seq<string>>
    var membership: map<string, seq<string>>

    constructor ()
      ensures Agree(groups, membership) && groups == map[] && membership == map[]
    {
      groups, membership := map[], map[];
    }

    // The members to add may repeat; those to remove are the old members not among the new.
    method Differences(existing: seq<string>, members: seq<string>) returns (added: seq<string>, removed: seq<string>)
      ensures forall u :: u in added <==> u in members && u !in existing
      ensures forall u :: u in removed <==> u in existing && u !in members
    {
      var current: set<string> := {};
      for i := 0 to |members|
        invariant forall u :: u in current <==> u in members[..i]
      {
        current := current + {members[i]};
      }
      assert members[..|members|] == members;
      removed := [];
      var previous: set<string> := {};
      for i := 0 to |existing|
        invariant forall u :: u in previous <==> u in existing[..i]
        invariant forall u :: u in removed <==> u in existing[..i] && u !in members
      {
        if existing[i] !in current {
          removed := removed + [existing[i]];
        }
        previous := previous + {existing[i]};
      }
      assert existing[..|existing|] == existing;
      added := [];
      for i := 0 to |members|
        invariant forall u :: u in added <==> u in members[..i] && u !in existing
      {
        if members[i] in previous {
          continue;
        }
        added := added + [members[i]];
      }
    }

    method AddMembers(group: string, added: seq<string>)
      modifies this`membership
      ensures forall u :: GroupsOf(membership, u) == AfterAdding(old(membership), u, added, group)
      ensures forall u :: u in old(membership) ==> u in membership
    {
      for i := 0 to |added|
        invariant forall u :: GroupsOf(membership, u) == AfterAdding(old(membership), u, added[..i], group)
        invariant forall u :: u in old(membership) ==> u in membership
      {
        var current := GroupsOf(membership, added[i]);
        if group !in current {
          current := current + [group];
        }
        ghost var before := membership;
        membership := membership[added[i] := current];
        assert added[..i + 1] == added[..i] + [added[i]];
        forall u ensures GroupsOf(membership, u) == AfterAdding(old(membership), u, added[..i + 1], group) {
          assert GroupsOf(before, u) == AfterAdding(old(membership), u, added[..i], group);
        }
      }
      assert added[..|added|] == added;
    }

    // A member without a record is an error; the others are still updated.
    method RemoveMembers(group: string, removed: seq<string>) returns (ok: bool)
      modifies this`membership
      ensures forall u :: GroupsOf(membership, u) == AfterRemoving(old(membership), u, removed, group)
      ensures ok <==> forall u :: u in removed ==> u in old(membership)
    {
      ok := true;
      for i := 0 to |removed|
        invariant membership.Keys == old(membership).Keys
        invariant forall u :: GroupsOf(membership, u) == AfterRemoving(old(membership), u, removed[..i], group)
        invariant ok <==> forall u :: u in removed[..i] ==> u in old(membership)
      {
        WithoutTwice(GroupsOf(old(membership), removed[i]), group);
        ghost var before := membership;
        if removed[i] in membership {
          membership := membership[removed[i] := Without(membership[removed[i]], group)];
        } else {
          ok := false;
        }
        assert removed[..i + 1] == removed[..i] + [removed[i]];
        forall u ensures GroupsOf(membership, u) == AfterRemoving(old(membership), u, removed[..i + 1], group) {
          assert GroupsOf(before, u) == AfterRemoving(old(membership), u, removed[..i], group);
        }
      }
      assert removed[..|removed|] == removed;
    }

    // Creating or replacing a group leaves the two records in agreement, every other group as it was,
    // and in each user's record the other groups in their order.
    method SetGroup(group: string, members: seq<string>, overwrite: bool) returns (ok: bool)
      requires Agree(groups, membership)
      modifies this
      ensures Agree(groups, membership)
      ensures ok <==> overwrite || group !in old(groups)
      ensures groups == if ok then old(groups)[group := members] else old(groups)
      ensures ok ==> forall u :: GroupsOf(membership, u) == AfterSetting(old(membership), u, members, group)
      ensures !ok ==> membership == old(membership)
    {
      if group in groups && !overwrite {
        return false;
      }
      var existing := if group in groups then groups[group] else [];
      groups := groups[group := members];
      var added, removed := Differences(existing, members);
      ghost var before := membership;
      assert existing == MembersOf(old(groups), group);
      AddMembers(group, added);
      forall u | u in removed ensures u in membership {
        assert u in existing <==> group in GroupsOf(before, u);
      }
      ok := RemoveMembers(group, removed);
      forall u ensures GroupsOf(membership, u) == AfterSetting(before, u, members, group) {
        assert u in existing <==> group in GroupsOf(before, u);
        var between := AfterAdding(before, u, added, group);
        assert GroupsOf(membership, u) == if u in removed then Without(between, group) else between;
      }
      SettingAgrees(old(groups), before, groups, membership, group, members);
    }

    // Removing a group takes it out of every user's record and changes nothing else.
    method RemoveGroup(group: string) returns (ok: bool)
      requires Agree(groups, membership)
      modifies this
      ensures Agree(groups, membership)
      ensures ok <==> group != "*"
      ensures groups == if ok then old(groups) - {group} else old(groups)
      ensures ok ==> forall u :: GroupsOf(membership, u) == Without(GroupsOf(old(membership), u), group)
      ensures !ok ==> membership == old(membership)
    {
      if group == "*" {
        return false;
      }
      var oldMembers := if group in groups then groups[group] else [];
      groups := groups - {group};
      ok := RemoveMembers(group, oldMembers);
      ghost var before := old(membership);
      assert oldMembers == MembersOf(old(groups), group);
      forall u ensures GroupsOf(membership, u) == Without(GroupsOf(before, u), group) {
        assert u in oldMembers <==> group in GroupsOf(before, u);
      }
      RemovingAgrees(old(groups), before, groups, membership, group);
      forall u | u in oldMembers ensures u in before {
        assert group in GroupsOf(before, u);
      }
    }
  }
}
