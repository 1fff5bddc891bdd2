/** The session pool: which sessions are connected, whose they are, and the index from users to sessions. */
module Sessions {
  import opened Basics

  /**
   `userOf` is the user id each session object carries (0 or absent: none), also after the session has left
   the pool; `pooled` are the sessions in the pool and `index` the session recorded for each user.
   */
  datatype Pool = Pool(userOf: map<nat, int>, pooled: set<nat>, index: map<int, nat>, capacity: nat)

  function UserOf(p: Pool, s: nat): int {
    if s in p.userOf then p.userOf[s] else 0
  }

  function Add(p: Pool, s: nat): Pool {
    if |p.pooled| >= p.capacity then p else p.(pooled := p.pooled + {s})
  }

  function Remove(p: Pool, s: nat): Pool {
    var index := if s in p.pooled && UserOf(p, s) != 0 then p.index - {UserOf(p, s)} else p.index;
    p.(pooled := p.pooled - {s}, index := index)
  }

  function Bind(p: Pool, s: nat, user: int): Pool {
    if s !in p.pooled || user <= 0 then p
    else
      var index := if UserOf(p, s) != 0 then p.index - {UserOf(p, s)} else p.index;
      p.(userOf := p.userOf[s := user], index := index[user := s])
  }

  function Unbind(p: Pool, user: int): Pool {
    if user !in p.index then p
    else
      var s := p.index[user];
      p.(userOf := if s in p.pooled then p.userOf[s := 0] else p.userOf, index := p.index - {user})
  }

  function FindByUser(p: Pool, user: int): Option<nat> {
    if user in p.index && p.index[user] in p.pooled then Some(p.index[user]) else None
  }

  /** Each index entry points to a pooled session that carries that very user. */
  ghost predicate Forward(p: Pool) {
    forall u :: u in p.index ==> u > 0 && p.index[u] in p.pooled && UserOf(p, p.index[u]) == u
  }

  /** Whatever the order of logins, every operation keeps the index free of stale entries. */
  lemma ForwardKept(p: Pool, s: nat, user: int)
    requires Forward(p)
    ensures Forward(Add(p, s)) && Forward(Remove(p, s)) && Forward(Bind(p, s, user)) && Forward(Unbind(p, user))
  {
  }

  /** No two users share a session, and a lookup finds every indexed user. */
  lemma LookupsAreFresh(p: Pool, u: int, v: int)
    requires Forward(p)
    ensures FindByUser(p, u).Some? <==> u in p.index
    ensures FindByUser(p, u).Some? ==> UserOf(p, FindByUser(p, u).value) == u
    ensures FindByUser(p, u).Some? && FindByUser(p, u) == FindByUser(p, v) ==> u == v
  {
  }

  /** The index is the inverse of the user ids carried by pooled sessions. */
  ghost predicate Inverse(p: Pool) {
    && Forward(p)
    && forall s :: s in p.pooled && UserOf(p, s) != 0 ==> UserOf(p, s) in p.index && p.index[UserOf(p, s)] == s
  }

  lemma InverseKept(p: Pool, s: nat, user: int)
    requires Inverse(p)
    ensures UserOf(p, s) == 0 ==> Inverse(Add(p, s))
    ensures Inverse(Remove(p, s)) && Inverse(Unbind(p, user))
  {
  }

  /**
   Binding a pooled session keeps the inverse exactly if the user is not already found at another session:
   otherwise that older session goes on carrying the user without being found.
   */
  lemma BindKeepsInverse(p: Pool, s: nat, user: int)
    requires Inverse(p) && s in p.pooled && user > 0
    ensures Inverse(Bind(p, s, user)) <==> FindByUser(p, user) in {None, Some(s)}
  {
    if user in p.index && p.index[user] != s {
      assert UserOf(Bind(p, s, user), p.index[user]) == user;
    }
  }

  /** After such a second login, removing the older session also drops the index entry of the newer one. */
  lemma OlderSessionTakesIndex(p: Pool, s: nat, t: nat, user: int)
    requires Inverse(p) && user in p.index && p.index[user] == s && t in p.pooled && s != t
    ensures FindByUser(Bind(p, t, user), user) == Some(t)
    ensures FindByUser(Remove(Bind(p, t, user), s), user) == None
  {
    assert UserOf(Bind(p, t, user), s) == user;
  }

  class SessionPool {
    var userOf: map<nat, int>
    var pooled: set<nat>
    var index: map<int, nat>
    const capacity: nat

    constructor (capacity: nat)
      ensures Contents() == Pool(map[], {}, map[], capacity)
    {
      userOf, pooled, index := map[], {}, map[];
      this.capacity := capacity;
    }

    ghost function Contents(): Pool
      reads this
    {
      Pool(userOf, pooled, index, capacity)
    }

    method UserId(s: nat) returns (user: int)
      ensures user == UserOf(Contents(), s)
    {
      user := if s in userOf then userOf[s] else 0;
    }

    method AddSession(s: nat) returns (added: bool)
      modifies this
      ensures Contents() == Add(old(Contents()), s) && added == (|old(pooled)| < capacity)
    {
      if |pooled| >= capacity {
        return false;
      }
      pooled := pooled + {s};
      return true;
    }

    method RemoveSession(s: nat)
      modifies this
      ensures Contents() == Remove(old(Contents()), s)
    {
      var user := UserId(s);
      if s in pooled && user != 0 {
        index := index - {user};
      }
      pooled := pooled - {s};
    }

    method BindUser(s: nat, user: int) returns (bound: bool)
      modifies this
      ensures Contents() == Bind(old(Contents()), s, user)
      ensures bound == (s in old(pooled) && user > 0)
    {
      if s !in pooled || user <= 0 {
        return false;
      }
      var before := UserId(s);
      if before != 0 {
        index := index - {before};
      }
      userOf := userOf[s := user];
      index := index[user := s];
      return true;
    }

    method UnbindUser(user: int)
      modifies this
      ensures Contents() == Unbind(old(Contents()), user)
    {
      if user !in index {
        return;
      }
      if index[user] in pooled {
        userOf := userOf[index[user] := 0];
      }
      index := index - {user};
    }

    /** The sessions of the pool, in some order. */
    method All() returns (result: seq<nat>)
      ensures forall i, j :: 0 <= i < j < |result| ==> result[i] != result[j]
      ensures forall s :: s in result <==> s in pooled
    {
      result := [];
      var left := pooled;
      while left != {}
        invariant left <= pooled
        invariant forall i, j :: 0 <= i < j < |result| ==> result[i] != result[j]
        invariant forall s :: s in result <==> s in pooled - left
        decreases left
      {
        var s :| s in left;
        assert s !in result;
        left := left - {s};
        result := result + [s];
      }
    }

    method FindByUserId(user: int) returns (s: Option<nat>)
      ensures s == FindByUser(Contents(), user)
    {
      s := None;
      if user in index && index[user] in pooled {
        s := Some(index[user]);
      }
    }
  }
}
