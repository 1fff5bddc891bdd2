/** The repositories the router works on, as objects that edit their rows in place. */
module MessageStore {
  import opened Messages

  /** Where a message goes among messages in time order. */
  method Position(sorted: seq<Message>, timestamp: int) returns (k: nat)
    requires ByTime(sorted)
    ensures k <= |sorted|
    ensures forall i :: 0 <= i < k ==> sorted[i].timestamp <= timestamp
    ensures forall i :: k <= i < |sorted| ==> timestamp <= sorted[i].timestamp
  {
    k := |sorted|;
    while k > 0 && sorted[k - 1].timestamp > timestamp
      invariant 0 <= k <= |sorted|
      invariant forall i :: k <= i < |sorted| ==> timestamp <= sorted[i].timestamp
    {
      k := k - 1;
    }
  }

  lemma SortsInsert(ms: seq<Message>, sorted: seq<Message>, m: Message, k: nat)
    requires Sorts(ms, sorted) && k <= |sorted|
    requires forall i :: 0 <= i < k ==> sorted[i].timestamp <= m.timestamp
    requires forall i :: k <= i < |sorted| ==> m.timestamp <= sorted[i].timestamp
    ensures Sorts(ms + [m], sorted[..k] + [m] + sorted[k..])
  {
    assert sorted == sorted[..k] + sorted[k..];
  }

  /** One of the orders the library sort may leave. */
  method SortByTimestamp(ms: seq<Message>) returns (sorted: seq<Message>)
    ensures Sorts(ms, sorted)
  {
    sorted := [];
    for i := 0 to |ms|
      invariant Sorts(ms[..i], sorted)
    {
      var k := Position(sorted, ms[i].timestamp);
      assert ms[..i + 1] == ms[..i] + [ms[i]];
      SortsInsert(ms[..i], sorted, ms[i], k);
      sorted := sorted[..k] + [ms[i]] + sorted[k..];
    }
    assert ms[..|ms|] == ms;
  }

  lemma {:induction false} Place(sorted: seq<Message>, timestamp: int) returns (k: nat)
    requires ByTime(sorted)
    ensures k <= |sorted|
    ensures forall i :: 0 <= i < k ==> sorted[i].timestamp <= timestamp
    ensures forall i :: k <= i < |sorted| ==> timestamp <= sorted[i].timestamp
    decreases |sorted|
  {
    k := |sorted|;
    if k > 0 && sorted[k - 1].timestamp > timestamp {
      k := Place(sorted[..k - 1], timestamp);
    }
  }

  /** Every sequence of messages can be sorted. */
  lemma {:induction false} SomeOrder(ms: seq<Message>) returns (sorted: seq<Message>)
    ensures Sorts(ms, sorted)
    decreases |ms|
  {
    sorted := [];
    if ms != [] {
      var n := |ms| - 1;
      sorted := SomeOrder(ms[..n]);
      var k := Place(sorted, ms[n].timestamp);
      SortsInsert(ms[..n], sorted, ms[n], k);
      assert ms == ms[..n] + [ms[n]];
      sorted := sorted[..k] + [ms[n]] + sorted[k..];
    }
  }

  lemma MarkBatchSnoc(rows: seq<Message>, batch: seq<Message>, k: nat)
    requires k < |batch|
    ensures ChangeAll(MarkBatch(rows, batch[..k]), MarkDelivered(batch[k].id)) == MarkBatch(rows, batch[..k + 1])
  {
    forall i | 0 <= i < |rows|
      ensures InBatch(rows[i].id, batch[..k + 1]) <==> InBatch(rows[i].id, batch[..k]) || batch[k].id == rows[i].id
    {
      assert batch[..k + 1] == batch[..k] + [batch[k]];
      if j :| 0 <= j < k && batch[..k][j].id == rows[i].id {
        assert batch[..k + 1][j].id == rows[i].id;
      }
      assert batch[..k + 1][k] == batch[k];
    }
  }

  class MessageRepository {
    var rows: seq<Message>

    constructor (rows: seq<Message>)
      ensures this.rows == rows
    {
      this.rows := rows;
    }

    method NextMessageId() returns (id: int)
      ensures id == NextId(rows)
    {
      var maxId := 0;
      for i := 0 to |rows|
        invariant maxId + 1 == NextId(rows[..i])
      {
        assert rows[..i + 1][..i] == rows[..i];
        if rows[i].id > maxId {
          maxId := rows[i].id;
        }
      }
      assert rows[..|rows|] == rows;
      id := maxId + 1;
    }

    method SavePrivate(sender: int, to: int, content: string, contentType: string, now: int, delivered: bool)
      returns (m: Message)
      modifies this
      ensures m == PrivateMessage(old(rows), sender, to, content, contentType, now, delivered)
      ensures rows == old(rows) + [m]
    {
      var id := NextMessageId();
      m := Message(id, sender, to, 0, content, if contentType == "" then "text" else contentType, now, delivered,
                   false, false, false, 0, 0, "", 0);
      rows := rows + [m];
    }

    method SaveGroup(sender: int, group: int, content: string, contentType: string, now: int) returns (m: Message)
      modifies this
      ensures m == GroupMessage(old(rows), sender, group, content, contentType, now)
      ensures rows == old(rows) + [m]
    {
      var id := NextMessageId();
      m := Message(id, sender, 0, group, content, if contentType == "" then "text" else contentType, now, true,
                   false, false, false, 0, 0, "", 0);
      rows := rows + [m];
    }

    /** The update loop shared by edit, soft delete, reactions and the two marks. */
    method Update(c: Change) returns (updated: bool)
      modifies this
      ensures rows == ChangeAll(old(rows), c) && updated == HitsAny(old(rows), c)
    {
      updated := false;
      for i := 0 to |rows|
        invariant |rows| == |old(rows)|
        invariant forall j :: 0 <= j < i ==> rows[j] == Changed(old(rows)[j], c)
        invariant forall j :: i <= j < |rows| ==> rows[j] == old(rows)[j]
        invariant updated == exists j :: 0 <= j < i && Hits(old(rows)[j], c)
      {
        if Hits(rows[i], c) {
          rows := rows[i := Changed(rows[i], c)];
          updated := true;
        }
      }
    }

    method SelectPending(user: int) returns (pending: seq<Message>)
      ensures pending == PendingFor(rows, user)
    {
      pending := [];
      for i := 0 to |rows|
        invariant pending == PendingFor(rows[..i], user)
      {
        assert rows[..i + 1][..i] == rows[..i];
        if IsPending(rows[i], user) {
          pending := pending + [rows[i]];
        }
      }
      assert rows[..|rows|] == rows;
    }

    /** Takes the newest pending messages of a user and marks each of them as delivered. */
    method OfflineForUser(user: int, limit: int) returns (batch: seq<Message>, ghost sorted: seq<Message>)
      modifies this
      ensures Sorts(PendingFor(old(rows), user), sorted) && batch == Trim(sorted, limit)
      ensures rows == MarkBatch(old(rows), batch)
    {
      var pending := SelectPending(user);
      var ordered := SortByTimestamp(pending);
      sorted := ordered;
      batch := if limit > 0 && |ordered| > limit then ordered[|ordered| - limit..] else ordered;
      assert rows == MarkBatch(rows, batch[..0]);
      for k := 0 to |batch|
        invariant rows == MarkBatch(old(rows), batch[..k])
      {
        MarkBatchSnoc(old(rows), batch, k);
        var marked := Update(MarkDelivered(batch[k].id));
      }
      assert batch[..|batch|] == batch;
    }
  }
}

module ChannelStore {
  import opened Channels

  class ChannelRepository {
    var groups: seq<Group>
    var members: seq<Membership>

    constructor (groups: seq<Group>, members: seq<Membership>)
      ensures Contents() == Directory(groups, members)
    {
      this.groups, this.members := groups, members;
    }

    ghost function Contents(): Directory
      reads this
    {
      Directory(groups, members)
    }

    method FreshGroupId() returns (id: int)
      ensures id == NextGroupId(groups)
    {
      var maxId := 2000;
      for i := 0 to |groups|
        invariant maxId + 1 == NextGroupId(groups[..i])
      {
        assert groups[..i + 1][..i] == groups[..i];
        if groups[i].id > maxId {
          maxId := groups[i].id;
        }
      }
      assert groups[..|groups|] == groups;
      id := maxId + 1;
    }

    method JoinGroup(user: int, group: int, now: int) returns (ok: bool)
      modifies this
      ensures Contents() == Join(old(Contents()), user, group, now)
      ensures ok == Exists(old(Contents()), group)
    {
      if !HasGroup(groups, group) {
        return false;
      }
      if !Joined(members, user, group) {
        members := members + [Membership(user, group, now)];
      }
      return true;
    }

    method NewGroup(host: int, name: string, now: int) returns (group: Group)
      modifies this
      ensures Contents() == CreateGroup(old(Contents()), host, name, now)
      ensures group == Group(NextGroupId(old(groups)), host, name, now)
    {
      var id := FreshGroupId();
      group := Group(id, host, name, now);
      groups := groups + [group];
      var joined := JoinGroup(host, id, now);
    }

    method LeaveGroup(user: int, group: int) returns (removed: bool)
      modifies this
      ensures Contents() == Leave(old(Contents()), user, group)
      ensures removed == IsMember(old(Contents()), user, group)
    {
      var kept := [];
      removed := false;
      for i := 0 to |members|
        invariant groups == old(groups) && members == old(members)
        invariant kept == Without(members[..i], user, group)
        invariant removed == Joined(members[..i], user, group)
      {
        assert members[..i + 1][..i] == members[..i];
        JoinedSnoc(members[..i + 1], user, group);
        if members[i].user == user && members[i].group == group {
          removed := true;
        } else {
          kept := kept + [members[i]];
        }
      }
      assert members[..|members|] == members;
      members := kept;
    }

    method ListMembers(group: int) returns (users: seq<int>)
      ensures users == Members(Contents(), group)
    {
      users := [];
      for i := 0 to |members|
        invariant users == MembersIn(members[..i], group)
      {
        assert members[..i + 1][..i] == members[..i];
        if members[i].group == group {
          users := users + [members[i].user];
        }
      }
      assert members[..|members|] == members;
    }

    method FirstWithId(id: int) returns (found: seq<Group>)
      ensures found == Lookup(groups, id)
    {
      for i := 0 to |groups|
        invariant Lookup(groups, id) == Lookup(groups[i..], id)
      {
        if groups[i].id == id {
          return [groups[i]];
        }
        assert groups[i..][1..] == groups[i + 1..];
      }
      return [];
    }

    method ListGroups(user: int) returns (result: seq<Group>)
      ensures result == GroupsForUser(Contents(), user)
    {
      result := [];
      for i := 0 to |members|
        invariant result == GroupsIn(groups, members[..i], user)
      {
        assert members[..i + 1][..i] == members[..i];
        if members[i].user == user {
          var found := FirstWithId(members[i].group);
          result := result + found;
        }
      }
      assert members[..|members|] == members;
    }
  }
}

module PresenceStore {

  /** What the presence manager answers for a user. */
  function StatusOf(presence: map<int, string>, user: int): string {
    if user in presence then presence[user] else "offline"
  }

  class PresenceManager {
    var presence: map<int, string>

    constructor ()
      ensures presence == map[]
    {
      presence := map[];
    }

    method SetOnline(user: int, status: string)
      modifies this
      ensures presence == if user <= 0 then old(presence)
                          else old(presence)[user := if status == "" then "online" else status]
    {
      if user > 0 {
        presence := presence[user := if status == "" then "online" else status];
      }
    }

    method SetOffline(user: int)
      modifies this
      ensures presence == old(presence) - {user}
    {
      presence := presence - {user};
    }

    method Status(user: int) returns (status: string)
      ensures status == StatusOf(presence, user)
    {
      status := "offline";
      if user in presence {
        status := presence[user];
      }
    }
  }
}
