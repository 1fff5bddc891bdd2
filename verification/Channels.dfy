/** Groups and their memberships. */
module Channels {

  datatype Group = Group(id: int, host: int, name: string, createdAt: int)

  datatype Membership = Membership(user: int, group: int, joinedAt: int)

  datatype Directory = Directory(groups: seq<Group>, members: seq<Membership>)

  /** One above the largest group id, and above 2000. */
  function NextGroupId(groups: seq<Group>): (id: int)
    ensures id >= 2001 && forall i :: 0 <= i < |groups| ==> groups[i].id < id
  {
    if groups == [] then 2001
    else
      var n := |groups| - 1;
      var id := NextGroupId(groups[..n]);
      assert forall i :: 0 <= i < n ==> groups[..n][i] == groups[i];
      if groups[n].id >= id then groups[n].id + 1 else id
  }

  /** There is no smaller one. */
  lemma {:induction false} NextGroupIdIsLeast(groups: seq<Group>)
    ensures NextGroupId(groups) == 2001 || exists i :: 0 <= i < |groups| && groups[i].id + 1 == NextGroupId(groups)
    decreases |groups|
  {
    if groups != [] {
      var n := |groups| - 1;
      NextGroupIdIsLeast(groups[..n]);
      if i :| 0 <= i < n && groups[..n][i].id + 1 == NextGroupId(groups[..n]) {
        assert groups[i].id + 1 == NextGroupId(groups[..n]);
      }
    }
  }

  predicate HasGroup(groups: seq<Group>, id: int) {
    exists i :: 0 <= i < |groups| && groups[i].id == id
  }

  predicate Joined(members: seq<Membership>, user: int, group: int) {
    exists i :: 0 <= i < |members| && members[i].user == user && members[i].group == group
  }

  predicate Exists(d: Directory, group: int) {
    HasGroup(d.groups, group)
  }

  predicate IsMember(d: Directory, user: int, group: int) {
    Joined(d.members, user, group)
  }

  function Join(d: Directory, user: int, group: int, now: int): Directory {
    if !Exists(d, group) || IsMember(d, user, group) then d
    else d.(members := d.members + [Membership(user, group, now)])
  }

  function CreateGroup(d: Directory, host: int, name: string, now: int): Directory {
    var id := NextGroupId(d.groups);
    Join(d.(groups := d.groups + [Group(id, host, name, now)]), host, id, now)
  }

  function Without(members: seq<Membership>, user: int, group: int): seq<Membership> {
    if members == [] then []
    else
      var n := |members| - 1;
      Without(members[..n], user, group)
      + if members[n].user == user && members[n].group == group then [] else [members[n]]
  }

  function Leave(d: Directory, user: int, group: int): Directory {
    d.(members := Without(d.members, user, group))
  }

  /** The users of a group, in joining order. */
  function MembersIn(members: seq<Membership>, group: int): seq<int> {
    if members == [] then []
    else
      var n := |members| - 1;
      MembersIn(members[..n], group) + if members[n].group == group then [members[n].user] else []
  }

  function Members(d: Directory, group: int): seq<int> {
    MembersIn(d.members, group)
  }

  /** The first group with an id, as the query for it returns. */
  function Lookup(groups: seq<Group>, id: int): seq<Group> {
    if groups == [] then [] else if groups[0].id == id then [groups[0]] else Lookup(groups[1..], id)
  }

  function GroupsIn(groups: seq<Group>, members: seq<Membership>, user: int): seq<Group> {
    if members == [] then []
    else
      var n := |members| - 1;
      GroupsIn(groups, members[..n], user) + if members[n].user == user then Lookup(groups, members[n].group) else []
  }

  function GroupsForUser(d: Directory, user: int): seq<Group> {
    GroupsIn(d.groups, d.members, user)
  }

  // ---------------------------------------------------------------- the invariant

  ghost predicate NoDuplicates<T>(s: seq<T>) {
    forall i, j :: 0 <= i < j < |s| ==> s[i] != s[j]
  }

  ghost predicate DistinctMembers(members: seq<Membership>) {
    forall i, j :: 0 <= i < j < |members| ==> members[i].user != members[j].user || members[i].group != members[j].group
  }

  /** Group ids are unique, membership rows are free of duplicates and name existing groups. */
  ghost predicate Sound(d: Directory) {
    && DistinctIds(d.groups)
    && DistinctMembers(d.members)
    && (forall i :: 0 <= i < |d.members| ==> Exists(d, d.members[i].group))
  }

  lemma JoinSound(d: Directory, user: int, group: int, now: int)
    requires Sound(d)
    ensures Sound(Join(d, user, group, now))
    ensures forall g :: Exists(d, g) ==> Exists(Join(d, user, group, now), g)
  {
  }

  lemma CreateSound(d: Directory, host: int, name: string, now: int)
    requires Sound(d)
    ensures Sound(CreateGroup(d, host, name, now))
  {
    var id := NextGroupId(d.groups);
    var e := d.(groups := d.groups + [Group(id, host, name, now)]);
    forall i | 0 <= i < |e.members|
      ensures Exists(e, e.members[i].group)
    {
      var k :| 0 <= k < |d.groups| && d.groups[k].id == d.members[i].group;
      assert e.groups[k].id == e.members[i].group;
    }
    JoinSound(e, host, id, now);
  }

  /** The rows that stay are the others, each as often as before. */
  lemma {:induction false} WithoutExact(members: seq<Membership>, user: int, group: int)
    ensures forall m :: m in Without(members, user, group) <==> m in members && !(m.user == user && m.group == group)
    decreases |members|
  {
    if members != [] {
      var n := |members| - 1;
      WithoutExact(members[..n], user, group);
      assert members == members[..n] + [members[n]];
    }
  }

  lemma {:induction false} WithoutDistinct(members: seq<Membership>, user: int, group: int)
    requires DistinctMembers(members)
    ensures DistinctMembers(Without(members, user, group))
    decreases |members|
  {
    if members != [] {
      var n := |members| - 1;
      var before, kept := members[..n], Without(members[..n], user, group);
      WithoutDistinct(before, user, group);
      WithoutExact(before, user, group);
      forall i | 0 <= i < |kept|
        ensures kept[i].user != members[n].user || kept[i].group != members[n].group
      {
        assert kept[i] in before;
        var k :| 0 <= k < n && before[k] == kept[i];
        assert members[k] == kept[i];
      }
    }
  }

  lemma LeaveSound(d: Directory, user: int, group: int)
    requires Sound(d)
    ensures Sound(Leave(d, user, group))
    ensures forall u, g :: IsMember(Leave(d, user, group), u, g) <==> IsMember(d, u, g) && !(u == user && g == group)
  {
    WithoutExact(d.members, user, group);
    WithoutDistinct(d.members, user, group);
    var e := Leave(d, user, group);
    forall i | 0 <= i < |e.members|
      ensures Exists(e, e.members[i].group)
    {
      assert e.members[i] in d.members;
    }
    forall u, g
      ensures IsMember(e, u, g) <==> IsMember(d, u, g) && !(u == user && g == group)
    {
      if i :| 0 <= i < |d.members| && d.members[i].user == u && d.members[i].group == g {
        assert d.members[i] in d.members;
        if !(u == user && g == group) {
          assert d.members[i] in e.members;
        }
      }
      if i :| 0 <= i < |e.members| && e.members[i].user == u && e.members[i].group == g {
        assert e.members[i] in e.members && e.members[i] in d.members;
      }
    }
  }

  // ---------------------------------------------------------------- members and groups are inverse

  /** A row more: the memberships are those before and the new one. */
  lemma JoinedSnoc(members: seq<Membership>, user: int, group: int)
    requires members != []
    ensures var n := |members| - 1;
            Joined(members, user, group)
            <==> Joined(members[..n], user, group) || (members[n].user == user && members[n].group == group)
  {
    var n := |members| - 1;
    if i :| 0 <= i < |members| && members[i].user == user && members[i].group == group {
      if i < n {
        assert members[..n][i] == members[i];
      }
    }
    if i :| 0 <= i < n && members[..n][i].user == user && members[..n][i].group == group {
      assert members[i] == members[..n][i];
    }
  }

  lemma LastIsNew(members: seq<Membership>)
    requires members != [] && DistinctMembers(members)
    ensures var n := |members| - 1;
            DistinctMembers(members[..n]) && !Joined(members[..n], members[n].user, members[n].group)
  {
  }

  lemma {:induction false} MembersExact(members: seq<Membership>, group: int)
    requires DistinctMembers(members)
    ensures NoDuplicates(MembersIn(members, group))
    ensures forall u :: u in MembersIn(members, group) <==> Joined(members, u, group)
    decreases |members|
  {
    if members != [] {
      LastIsNew(members);
      MembersExact(members[..|members| - 1], group);
      forall u
        ensures u in MembersIn(members, group) <==> Joined(members, u, group)
      {
        JoinedSnoc(members, u, group);
      }
    }
  }

  lemma {:induction false} LookupExact(groups: seq<Group>, id: int)
    ensures if HasGroup(groups, id) then |Lookup(groups, id)| == 1 && Lookup(groups, id)[0].id == id
            else Lookup(groups, id) == []
    decreases |groups|
  {
    if groups != [] && groups[0].id != id {
      LookupExact(groups[1..], id);
      if i :| 0 <= i < |groups| && groups[i].id == id {
        assert groups[1..][i - 1].id == id;
      }
      if i :| 0 <= i < |groups| - 1 && groups[1..][i].id == id {
        assert groups[i + 1].id == id;
      }
    }
  }

  ghost predicate DistinctIds(groups: seq<Group>) {
    forall i, j :: 0 <= i < j < |groups| ==> groups[i].id != groups[j].id
  }

  lemma HasGroupAppend(a: seq<Group>, b: seq<Group>, id: int)
    ensures HasGroup(a + b, id) <==> HasGroup(a, id) || HasGroup(b, id)
  {
    if i :| 0 <= i < |a| && a[i].id == id {
      assert (a + b)[i].id == id;
    }
    if i :| 0 <= i < |b| && b[i].id == id {
      assert (a + b)[|a| + i].id == id;
    }
  }

  lemma {:induction false} GroupsExact(groups: seq<Group>, members: seq<Membership>, user: int)
    requires DistinctMembers(members)
    requires forall i :: 0 <= i < |members| ==> HasGroup(groups, members[i].group)
    ensures DistinctIds(GroupsIn(groups, members, user))
    ensures forall id :: HasGroup(GroupsIn(groups, members, user), id) <==> Joined(members, user, id)
    decreases |members|
  {
    if members != [] {
      var n := |members| - 1;
      var before, last := members[..n], members[n];
      LastIsNew(members);
      GroupsExact(groups, before, user);
      LookupExact(groups, last.group);
      var found := if last.user == user then Lookup(groups, last.group) else [];
      var earlier := GroupsIn(groups, before, user);
      forall id
        ensures HasGroup(GroupsIn(groups, members, user), id) <==> Joined(members, user, id)
      {
        HasGroupAppend(earlier, found, id);
        JoinedSnoc(members, user, id);
      }
      if last.user == user {
        assert !HasGroup(earlier, last.group);
      }
    }
  }

  /** A user is listed in a group exactly if the group is listed for the user; neither list repeats an entry. */
  lemma MembersAndGroupsAreInverse(d: Directory, user: int, group: int)
    requires Sound(d)
    ensures user in Members(d, group) <==> IsMember(d, user, group)
    ensures user in Members(d, group) <==> HasGroup(GroupsForUser(d, user), group)
    ensures NoDuplicates(Members(d, group)) && DistinctIds(GroupsForUser(d, user))
  {
    MembersExact(d.members, group);
    GroupsExact(d.groups, d.members, user);
  }
}
