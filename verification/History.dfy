/** Merging a history response into the messages a client already shows. */
module History {

  /** A message known to the server has the server's id; one still on its way has a local one. */
  datatype ChatId = FromServer(n: int) | Local(text: string)

  /** What a message looks like; the server may change all of it. */
  datatype Face = Face(content: string, edited: bool, deleted: bool, read: bool, reactions: seq<string>)

  datatype Chat = Chat(id: ChatId, fromId: int, timestamp: int, face: Face)

  // ---------------------------------------------------------------- the merge

  function IndexOf(list: seq<Chat>, id: ChatId): (i: nat)
    ensures i <= |list|
    ensures i < |list| ==> list[i].id == id
    ensures forall j :: 0 <= j < i ==> list[j].id != id
  {
    if list == [] then 0
    else if list[0].id == id then 0
    else
      var i := 1 + IndexOf(list[1..], id);
      assert forall j :: 1 <= j < i ==> list[j] == list[1..][j - 1];
      i
  }

  /** Setting a key of an insertion-ordered map: in place if it is there, at the end if not. */
  function Put(list: seq<Chat>, m: Chat): seq<Chat> {
    var i := IndexOf(list, m.id);
    if i < |list| then list[i := m] else list + [m]
  }

  function PutAll(list: seq<Chat>, ms: seq<Chat>): seq<Chat> {
    if ms == [] then list else Put(PutAll(list, ms[..|ms| - 1]), ms[|ms| - 1])
  }

  /** Behind every message that is not later. */
  function Insert(sorted: seq<Chat>, m: Chat): seq<Chat> {
    if sorted == [] || sorted[|sorted| - 1].timestamp <= m.timestamp then sorted + [m]
    else Insert(sorted[..|sorted| - 1], m) + [sorted[|sorted| - 1]]
  }

  /** Stable sort by timestamp. */
  function SortByTime(list: seq<Chat>): seq<Chat> {
    if list == [] then [] else Insert(SortByTime(list[..|list| - 1]), list[|list| - 1])
  }

  function Merge(existing: seq<Chat>, response: seq<Chat>): seq<Chat> {
    SortByTime(PutAll(PutAll([], existing), response))
  }

  method MergeById(existing: seq<Chat>, response: seq<Chat>) returns (merged: seq<Chat>)
    ensures merged == Merge(existing, response)
  {
    var byId: seq<Chat> := [];
    for i := 0 to |existing|
      invariant byId == PutAll([], existing[..i])
    {
      assert existing[..i + 1][..i] == existing[..i];
      byId := Put(byId, existing[i]);
    }
    assert existing[..|existing|] == existing;
    for i := 0 to |response|
      invariant byId == PutAll(PutAll([], existing), response[..i])
    {
      assert response[..i + 1][..i] == response[..i];
      byId := Put(byId, response[i]);
    }
    assert response[..|response|] == response;
    merged := SortByTime(byId);
  }

  // ---------------------------------------------------------------- what it yields

  ghost predicate ByTime(list: seq<Chat>) {
    forall i, j :: 0 <= i < j < |list| ==> list[i].timestamp <= list[j].timestamp
  }

  ghost predicate DistinctIds(list: seq<Chat>) {
    forall i, j :: 0 <= i < j < |list| ==> list[i].id != list[j].id
  }

  predicate HasId(list: seq<Chat>, id: ChatId) {
    exists i :: 0 <= i < |list| && list[i].id == id
  }

  /** `c` is the last version of its message in the list. */
  predicate IsLatest(list: seq<Chat>, c: Chat) {
    exists k :: 0 <= k < |list| && list[k] == c && NoneAfter(list, k, c.id)
  }

  predicate NoneAfter(list: seq<Chat>, k: nat, id: ChatId) {
    forall j :: k < j < |list| ==> list[j].id != id
  }

  lemma PutExact(list: seq<Chat>, m: Chat)
    requires DistinctIds(list)
    ensures DistinctIds(Put(list, m))
    ensures forall c :: c in Put(list, m) <==> c == m || (c in list && c.id != m.id)
  {
    var i := IndexOf(list, m.id);
    var after := Put(list, m);
    forall c
      ensures c in after <==> c == m || (c in list && c.id != m.id)
    {
      if k :| 0 <= k < |list| && list[k] == c && c.id != m.id {
        assert after[k] == c;
      }
      if i < |list| {
        assert after[i] == m;
      } else {
        assert after[|list|] == m;
      }
    }
  }

  lemma LatestSnoc(list: seq<Chat>, m: Chat, c: Chat)
    ensures IsLatest(list + [m], c) <==> c == m || (c.id != m.id && IsLatest(list, c))
  {
    var all := list + [m];
    if c == m {
      assert all[|list|] == c && NoneAfter(all, |list|, c.id);
    }
    if c.id != m.id && IsLatest(list, c) {
      var k :| 0 <= k < |list| && list[k] == c && NoneAfter(list, k, c.id);
      assert all[k] == c && NoneAfter(all, k, c.id);
    }
    if IsLatest(all, c) && c != m {
      var k :| 0 <= k < |all| && all[k] == c && NoneAfter(all, k, c.id);
      assert all[|list|] == m;
      assert forall j :: 0 <= j < |list| ==> all[j] == list[j];
      assert list[k] == c && NoneAfter(list, k, c.id);
    }
  }

  /** The map holds the last version of each message set into it, once. */
  lemma {:induction false} PutAllLatest(ms: seq<Chat>)
    ensures DistinctIds(PutAll([], ms))
    ensures forall c :: c in PutAll([], ms) <==> IsLatest(ms, c)
    decreases |ms|
  {
    if ms != [] {
      var n := |ms| - 1;
      var before := ms[..n];
      PutAllLatest(before);
      PutExact(PutAll([], before), ms[n]);
      assert ms == before + [ms[n]];
      forall c
        ensures c in PutAll([], ms) <==> IsLatest(ms, c)
      {
        LatestSnoc(before, ms[n], c);
      }
    }
  }

  lemma {:induction false} PutAllAppend(list: seq<Chat>, a: seq<Chat>, b: seq<Chat>)
    ensures PutAll(list, a + b) == PutAll(PutAll(list, a), b)
    decreases |b|
  {
    if b == [] {
      assert a + b == a;
    } else {
      var n := |b| - 1;
      assert (a + b)[..|a| + n] == a + b[..n];
      PutAllAppend(list, a, b[..n]);
    }
  }

  lemma {:induction false} InsertSorts(sorted: seq<Chat>, m: Chat)
    requires ByTime(sorted)
    ensures ByTime(Insert(sorted, m))
    ensures forall c :: c in Insert(sorted, m) <==> c in sorted || c == m
    ensures DistinctIds(sorted) && !HasId(sorted, m.id) ==> DistinctIds(Insert(sorted, m))
    decreases |sorted|
  {
    if sorted != [] && sorted[|sorted| - 1].timestamp > m.timestamp {
      var n := |sorted| - 1;
      var before, last := sorted[..n], sorted[n];
      InsertSorts(before, m);
      assert sorted == before + [last];
      var front := Insert(before, m);
      forall i | 0 <= i < |front|
        ensures front[i].timestamp <= last.timestamp
        ensures DistinctIds(sorted) && !HasId(sorted, m.id) ==> front[i].id != last.id
      {
        assert front[i] in front;
        assert front[i] in before || front[i] == m;
      }
      if !HasId(sorted, m.id) {
        NotInPrefix(sorted, n, m.id);
      }
    } else {
      forall c
        ensures c in Insert(sorted, m) <==> c in sorted || c == m
      {
      }
    }
  }

  lemma NotInPrefix(list: seq<Chat>, n: nat, id: ChatId)
    requires n <= |list| && !HasId(list, id)
    ensures !HasId(list[..n], id)
  {
    assert forall i :: 0 <= i < n ==> list[..n][i] == list[i];
  }

  lemma {:induction false} SortExact(list: seq<Chat>)
    ensures ByTime(SortByTime(list))
    ensures forall c :: c in SortByTime(list) <==> c in list
    ensures DistinctIds(list) ==> DistinctIds(SortByTime(list))
    decreases |list|
  {
    if list != [] {
      var n := |list| - 1;
      var before := list[..n];
      SortExact(before);
      InsertSorts(SortByTime(before), list[n]);
      assert list == before + [list[n]];
      if DistinctIds(list) {
        forall i | 0 <= i < |SortByTime(before)|
          ensures SortByTime(before)[i].id != list[n].id
        {
          assert SortByTime(before)[i] in before;
          var k :| 0 <= k < n && before[k] == SortByTime(before)[i];
          assert list[k] == before[k];
        }
      }
    }
  }

  /** A list in time order is left as it is. */
  lemma {:induction false} SortKeepsSorted(list: seq<Chat>)
    requires ByTime(list)
    ensures SortByTime(list) == list
    decreases |list|
  {
    if list != [] {
      var n := |list| - 1;
      SortKeepsSorted(list[..n]);
      assert list == list[..n] + [list[n]];
      if n > 0 {
        assert list[..n][n - 1] == list[n - 1];
      }
    }
  }

  /**
   The merged list is in time order, has no id twice, and consists of the last version of every message in the old
   list followed by the response: so its ids are the union, and the response's versions win.
   */
  lemma MergeYieldsLatest(existing: seq<Chat>, response: seq<Chat>)
    ensures ByTime(Merge(existing, response)) && DistinctIds(Merge(existing, response))
    ensures forall c :: c in Merge(existing, response) <==> IsLatest(existing + response, c)
  {
    PutAllAppend([], existing, response);
    PutAllLatest(existing + response);
    SortExact(PutAll([], existing + response));
  }

  lemma {:induction false} LatestExists(list: seq<Chat>, id: ChatId)
    requires HasId(list, id)
    ensures exists c :: IsLatest(list, c) && c.id == id
    decreases |list|
  {
    var n := |list| - 1;
    var before := list[..n];
    assert list == before + [list[n]];
    if list[n].id == id {
      LatestSnoc(before, list[n], list[n]);
    } else {
      var k :| 0 <= k < |list| && list[k].id == id;
      assert before[k].id == id;
      LatestExists(before, id);
      var c :| IsLatest(before, c) && c.id == id;
      LatestSnoc(before, list[n], c);
    }
  }

  /** An id is in the merged list exactly if it is in the old list or in the response. */
  lemma MergeUnitesIds(existing: seq<Chat>, response: seq<Chat>, id: ChatId)
    ensures HasId(Merge(existing, response), id) <==> HasId(existing, id) || HasId(response, id)
  {
    var merged, all := Merge(existing, response), existing + response;
    MergeYieldsLatest(existing, response);
    if i :| 0 <= i < |merged| && merged[i].id == id {
      assert merged[i] in merged;
      var k :| 0 <= k < |all| && all[k] == merged[i];
      if k < |existing| {
        assert existing[k].id == id;
      } else {
        assert response[k - |existing|].id == id;
      }
    }
    if HasId(existing, id) || HasId(response, id) {
      if i :| 0 <= i < |existing| && existing[i].id == id {
        assert all[i].id == id;
      }
      if i :| 0 <= i < |response| && response[i].id == id {
        assert all[|existing| + i].id == id;
      }
      LatestExists(all, id);
      var c :| IsLatest(all, c) && c.id == id;
      assert c in merged;
    }
  }

  // ---------------------------------------------------------------- merging again

  /** A list without repeated ids goes through the map unchanged. */
  lemma {:induction false} PutAllDistinct(list: seq<Chat>)
    requires DistinctIds(list)
    ensures PutAll([], list) == list
    decreases |list|
  {
    if list != [] {
      var n := |list| - 1;
      PutAllDistinct(list[..n]);
      assert list == list[..n] + [list[n]];
      assert IndexOf(list[..n], list[n].id) == n;
    }
  }

  lemma PutInPlace(list: seq<Chat>, m: Chat)
    requires DistinctIds(list) && HasId(list, m.id)
    ensures |Put(list, m)| == |list| && DistinctIds(Put(list, m))
    ensures forall i :: 0 <= i < |list| ==> Put(list, m)[i] == if list[i].id == m.id then m else list[i]
  {
    var k :| 0 <= k < |list| && list[k].id == m.id;
    assert IndexOf(list, m.id) == k;
  }

  /** What a place ends with: the last version set there, or what it held if none was. */
  ghost predicate Settled(ms: seq<Chat>, before: Chat, after: Chat) {
    after.id == before.id && (IsLatest(ms, after) || (!HasId(ms, before.id) && after == before))
  }

  lemma SettledSnoc(ms: seq<Chat>, m: Chat, before: Chat, mid: Chat)
    requires Settled(ms, before, mid)
    ensures Settled(ms + [m], before, if mid.id == m.id then m else mid)
  {
    var after := if mid.id == m.id then m else mid;
    LatestSnoc(ms, m, after);
    if mid.id != m.id && !HasId(ms, before.id) {
      assert !HasId(ms + [m], before.id);
    }
  }

  ghost predicate AllSettled(ms: seq<Chat>, list: seq<Chat>, after: seq<Chat>) {
    |after| == |list| && forall i :: 0 <= i < |list| ==> Settled(ms, list[i], after[i])
  }

  /** Setting messages whose ids are all there moves nothing. */
  lemma {:induction false} PutAllInPlace(list: seq<Chat>, ms: seq<Chat>)
    requires DistinctIds(list)
    requires forall k :: 0 <= k < |ms| ==> HasId(list, ms[k].id)
    ensures AllSettled(ms, list, PutAll(list, ms)) && DistinctIds(PutAll(list, ms))
    decreases |ms|
  {
    if ms != [] {
      var n := |ms| - 1;
      var before, m := ms[..n], ms[n];
      PutAllInPlace(list, before);
      var mid := PutAll(list, before);
      assert ms == before + [m];
      assert HasId(mid, m.id) by {
        var k :| 0 <= k < |list| && list[k].id == m.id;
        assert Settled(before, list[k], mid[k]);
      }
      PutInPlace(mid, m);
      forall i | 0 <= i < |list|
        ensures Settled(ms, list[i], PutAll(list, ms)[i])
      {
        assert Settled(before, list[i], mid[i]);
        SettledSnoc(before, m, list[i], mid[i]);
      }
    }
  }

  /** There is one last version of each message. */
  lemma LatestIsUnique(list: seq<Chat>, a: Chat, b: Chat)
    requires IsLatest(list, a) && IsLatest(list, b) && a.id == b.id
    ensures a == b
  {
    var i :| 0 <= i < |list| && list[i] == a && NoneAfter(list, i, a.id);
    var j :| 0 <= j < |list| && list[j] == b && NoneAfter(list, j, b.id);
    assert i == j;
  }

  lemma LatestInResponse(existing: seq<Chat>, response: seq<Chat>, c: Chat)
    requires IsLatest(response, c)
    ensures IsLatest(existing + response, c)
  {
    var k :| 0 <= k < |response| && response[k] == c && NoneAfter(response, k, c.id);
    var all := existing + response;
    assert all[|existing| + k] == c;
    forall j | |existing| + k < j < |all|
      ensures all[j].id != c.id
    {
      assert all[j] == response[j - |existing|];
    }
    assert NoneAfter(all, |existing| + k, c.id);
  }

  /** Applying the same response again changes nothing. */
  lemma MergeIsIdempotent(existing: seq<Chat>, response: seq<Chat>)
    ensures Merge(Merge(existing, response), response) == Merge(existing, response)
  {
    var merged := Merge(existing, response);
    MergeYieldsLatest(existing, response);
    PutAllDistinct(merged);
    forall k | 0 <= k < |response|
      ensures HasId(merged, response[k].id)
    {
      assert HasId(response, response[k].id);
      MergeUnitesIds(existing, response, response[k].id);
    }
    PutAllInPlace(merged, response);
    var again := PutAll(merged, response);
    forall i | 0 <= i < |merged|
      ensures again[i] == merged[i]
    {
      assert Settled(response, merged[i], again[i]);
      if IsLatest(response, again[i]) {
        LatestInResponse(existing, response, again[i]);
        assert merged[i] in merged;
        LatestIsUnique(existing + response, again[i], merged[i]);
      }
    }
    assert again == merged;
    SortKeepsSorted(merged);
  }
}
