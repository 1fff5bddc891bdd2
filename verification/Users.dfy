/** The users table: choice of ids and the stored online flag. */
module Users {

  datatype User = User(id: int, nickname: string, avatarId: int, online: bool, lastSeen: int)

  predicate Known(users: seq<User>, id: int) {
    exists i :: 0 <= i < |users| && users[i].id == id
  }

  predicate Taken(users: seq<User>, nickname: string) {
    exists i :: 0 <= i < |users| && users[i].nickname == nickname
  }

  /** The smallest id from 1000 on that is above every id scanned. */
  function NextId(users: seq<User>): (id: int)
    ensures id >= 1000 && forall i :: 0 <= i < |users| ==> users[i].id < id
  {
    if users == [] then 1000
    else
      var n := |users| - 1;
      var id := NextId(users[..n]);
      assert forall i :: 0 <= i < n ==> users[..n][i] == users[i];
      if users[n].id >= id then users[n].id + 1 else id
  }

  /** There is no smaller one. */
  lemma {:induction false} NextIdIsLeast(users: seq<User>)
    ensures NextId(users) == 1000 || exists i :: 0 <= i < |users| && users[i].id + 1 == NextId(users)
    decreases |users|
  {
    if users != [] {
      var n := |users| - 1;
      NextIdIsLeast(users[..n]);
      if i :| 0 <= i < n && users[..n][i].id + 1 == NextId(users[..n]) {
        assert users[i].id + 1 == NextId(users[..n]);
      }
    }
  }

  function Created(users: seq<User>, nickname: string, avatarId: int): seq<User> {
    if Taken(users, nickname) then users
    else users + [User(NextId(users), nickname, avatarId, false, 0)]
  }

  function WithOnline(users: seq<User>, id: int, online: bool, now: int): (r: seq<User>)
    ensures |r| == |users|
  {
    seq(|users|, i requires 0 <= i < |users| =>
      if users[i].id != id then users[i]
      else users[i].(online := online, lastSeen := if online then now else users[i].lastSeen))
  }

  function WithProfile(users: seq<User>, id: int, nickname: string, avatarId: int): (r: seq<User>)
    ensures |r| == |users|
  {
    seq(|users|, i requires 0 <= i < |users| =>
      if users[i].id != id then users[i] else users[i].(nickname := nickname, avatarId := avatarId))
  }

  /** The first user with an id, if any. */
  function Find(users: seq<User>, id: int): seq<User> {
    if users == [] then [] else if users[0].id == id then [users[0]] else Find(users[1..], id)
  }

  lemma {:induction false} FindExact(users: seq<User>, id: int)
    ensures Find(users, id) != [] <==> Known(users, id)
    ensures Find(users, id) != [] ==> Find(users, id)[0].id == id
    decreases |users|
  {
    if users != [] && users[0].id != id {
      FindExact(users[1..], id);
      if i :| 0 <= i < |users| && users[i].id == id {
        assert users[1..][i - 1].id == id;
      }
      if i :| 0 <= i < |users| - 1 && users[1..][i].id == id {
        assert users[i + 1].id == id;
      }
    }
  }

  /** The ids whose stored row says online. */
  ghost function OnlineIds(users: seq<User>): set<int> {
    set i | 0 <= i < |users| && users[i].online :: users[i].id
  }

  lemma OnlineAfter(users: seq<User>, id: int, online: bool, now: int)
    requires Known(users, id)
    ensures OnlineIds(WithOnline(users, id, online, now))
            == if online then OnlineIds(users) + {id} else OnlineIds(users) - {id}
  {
    var after := WithOnline(users, id, online, now);
    forall v
      ensures v in OnlineIds(after) <==> if v == id then online else v in OnlineIds(users)
    {
      if v in OnlineIds(users) && v != id {
        var i :| 0 <= i < |users| && users[i].online && users[i].id == v;
        assert after[i].online && after[i].id == v;
      }
      if v == id && online {
        var i :| 0 <= i < |users| && users[i].id == id;
        assert after[i].online && after[i].id == v;
      }
    }
  }

  lemma OnlineAfterCreated(users: seq<User>, nickname: string, avatarId: int)
    ensures OnlineIds(Created(users, nickname, avatarId)) == OnlineIds(users)
  {
    var after := Created(users, nickname, avatarId);
    forall v | v in OnlineIds(users)
      ensures v in OnlineIds(after)
    {
      var i :| 0 <= i < |users| && users[i].online && users[i].id == v;
      assert after[i] == users[i];
    }
  }

  /** A new profile makes nobody known, unknown, online or offline. */
  lemma ProfileKeeps(users: seq<User>, id: int, nickname: string, avatarId: int)
    ensures OnlineIds(WithProfile(users, id, nickname, avatarId)) == OnlineIds(users)
    ensures forall v :: Known(WithProfile(users, id, nickname, avatarId), v) <==> Known(users, v)
  {
    var after := WithProfile(users, id, nickname, avatarId);
    forall v
      ensures v in OnlineIds(after) <==> v in OnlineIds(users)
      ensures Known(after, v) <==> Known(users, v)
    {
      if i :| 0 <= i < |users| && users[i].online && users[i].id == v {
        assert after[i].online && after[i].id == v;
      }
      if i :| 0 <= i < |users| && users[i].id == v {
        assert after[i].id == v;
      }
    }
  }

  ghost predicate DistinctIds(users: seq<User>) {
    forall i, j :: 0 <= i < j < |users| ==> users[i].id != users[j].id
  }

  ghost predicate DistinctNicknames(users: seq<User>) {
    forall i, j :: 0 <= i < j < |users| ==> users[i].nickname != users[j].nickname
  }

  /** Registration keeps ids and nicknames unique. */
  lemma CreatedKeepsDistinct(users: seq<User>, nickname: string, avatarId: int)
    requires DistinctIds(users) && DistinctNicknames(users)
    ensures DistinctIds(Created(users, nickname, avatarId)) && DistinctNicknames(Created(users, nickname, avatarId))
  {
  }

  /** Somebody else has the nickname. */
  predicate TakenByOther(users: seq<User>, id: int, nickname: string) {
    exists i :: 0 <= i < |users| && users[i].id != id && users[i].nickname == nickname
  }

  /** A profile update keeps nicknames unique exactly if nobody else has the new one: the update does not look. */
  lemma ProfileKeepsNicknames(users: seq<User>, id: int, nickname: string, avatarId: int)
    requires DistinctIds(users) && DistinctNicknames(users) && Known(users, id)
    ensures DistinctNicknames(WithProfile(users, id, nickname, avatarId)) <==> !TakenByOther(users, id, nickname)
  {
    var after := WithProfile(users, id, nickname, avatarId);
    var k :| 0 <= k < |users| && users[k].id == id;
    assert after[k].nickname == nickname;
    if i :| 0 <= i < |users| && users[i].id != id && users[i].nickname == nickname {
      assert after[i].nickname == nickname;
    }
  }

  /** The second of two users takes the nickname of the first. */
  lemma NicknameTakenTwice(ada: User, bob: User)
    requires ada.id == 1000 && bob.id == 1001 && ada.nickname == "ada" && bob.nickname == "bob"
    ensures DistinctIds([ada, bob]) && DistinctNicknames([ada, bob])
    ensures !DistinctNicknames(WithProfile([ada, bob], 1001, "ada", 2))
  {
    assert ada.nickname[0] != bob.nickname[0];
    var after := WithProfile([ada, bob], 1001, "ada", 2);
    assert after[0].nickname == after[1].nickname;
  }

  lemma KnownKept(users: seq<User>, id: int, other: int, online: bool, now: int, nickname: string, avatarId: int)
    requires Known(users, id)
    ensures Known(WithOnline(users, other, online, now), id) && Known(Created(users, nickname, avatarId), id)
  {
    var i :| 0 <= i < |users| && users[i].id == id;
    assert WithOnline(users, other, online, now)[i].id == id;
    assert Created(users, nickname, avatarId)[i].id == id;
  }
}

/** The repository object over the users table. */
module UserStore {
  import opened Users

  class UserRepository {
    var rows: seq<User>

    constructor (rows: seq<User>)
      ensures this.rows == rows
    {
      this.rows := rows;
    }

    method Exists(id: int) returns (found: bool)
      ensures found == Known(rows, id)
    {
      found := false;
      for i := 0 to |rows|
        invariant found == exists j :: 0 <= j < i && rows[j].id == id
      {
        if rows[i].id == id {
          found := true;
        }
      }
    }

    method FindById(id: int) returns (found: seq<User>)
      ensures found == Find(rows, id)
    {
      for i := 0 to |rows|
        invariant Find(rows, id) == Find(rows[i..], id)
      {
        if rows[i].id == id {
          return [rows[i]];
        }
        assert rows[i..][1..] == rows[i + 1..];
      }
      return [];
    }

    method UpdateProfile(id: int, nickname: string, avatarId: int) returns (found: bool)
      modifies this
      ensures rows == WithProfile(old(rows), id, nickname, avatarId) && found == Known(old(rows), id)
    {
      found := false;
      for i := 0 to |rows|
        invariant |rows| == |old(rows)|
        invariant forall j :: 0 <= j < i ==> rows[j] == WithProfile(old(rows), id, nickname, avatarId)[j]
        invariant forall j :: i <= j < |rows| ==> rows[j] == old(rows)[j]
        invariant found == exists j :: 0 <= j < i && old(rows)[j].id == id
      {
        if rows[i].id == id {
          rows := rows[i := rows[i].(nickname := nickname, avatarId := avatarId)];
          found := true;
        }
      }
    }

    /** -1 if the nickname is taken, otherwise the new user's id. */
    method Create(nickname: string, avatarId: int) returns (id: int)
      modifies this
      ensures rows == Created(old(rows), nickname, avatarId)
      ensures id == if Taken(old(rows), nickname) then -1 else NextId(old(rows))
    {
      if exists i :: 0 <= i < |rows| && rows[i].nickname == nickname {
        return -1;
      }
      id := 1000;
      for i := 0 to |rows|
        invariant id == NextId(rows[..i]) && rows == old(rows)
      {
        assert rows[..i + 1][..i] == rows[..i];
        if rows[i].id >= id {
          id := rows[i].id + 1;
        }
      }
      assert rows[..|rows|] == rows;
      rows := rows + [User(id, nickname, avatarId, false, 0)];
    }

    method SetOnlineStatus(id: int, online: bool, now: int)
      modifies this
      ensures rows == WithOnline(old(rows), id, online, now)
    {
      for i := 0 to |rows|
        invariant |rows| == |old(rows)|
        invariant forall j :: 0 <= j < i ==> rows[j] == WithOnline(old(rows), id, online, now)[j]
        invariant forall j :: i <= j < |rows| ==> rows[j] == old(rows)[j]
      {
        if rows[i].id == id {
          rows := rows[i := rows[i].(online := online, lastSeen := if online then now else rows[i].lastSeen)];
        }
      }
    }
  }
}
