/**
 The friendships table. Rows are a set, since nothing depends on their order; a `LIMIT 1` query may return
 any matching row, so the row it picks is an argument of the request.
 */
module Friends {

  datatype Status = Pending | Accepted | Rejected

  datatype Row = Row(sender: int, receiver: int, status: Status, message: string, createdAt: int, updatedAt: int)

  type Table = set<Row>

  /** The row links the two users, in either direction. */
  predicate Links(r: Row, a: int, b: int) {
    (r.sender == a && r.receiver == b) || (r.sender == b && r.receiver == a)
  }

  predicate Directed(r: Row, sender: int, receiver: int) {
    r.sender == sender && r.receiver == receiver
  }

  // ---------------------------------------------------------------- operations

  datatype Result = Result(ok: bool, rows: Table)

  datatype Pick = Nothing | Picked(row: Row)

  /** What the `LIMIT 1` query for a pair may return. */
  ghost predicate Selects(t: Table, a: int, b: int, pick: Pick) {
    match pick
    case Nothing => forall r :: r in t ==> !Links(r, a, b)
    case Picked(r) => r in t && Links(r, a, b)
  }

  function UpdateMessage(r: Row, sender: int, receiver: int, message: string, now: int): Row {
    if Directed(r, sender, receiver) && r.status == Pending then r.(message := message, updatedAt := now) else r
  }

  function UpdateStatus(r: Row, sender: int, receiver: int, status: Status, now: int): Row {
    if Directed(r, sender, receiver) && r.status == Pending then r.(status := status, updatedAt := now) else r
  }

  predicate HasPending(t: Table, sender: int, receiver: int) {
    exists r :: r in t && Directed(r, sender, receiver) && r.status == Pending
  }

  /** The unique key on the two user columns makes a second row for one direction fail. */
  function Insert(t: Table, sender: int, receiver: int, message: string, now: int): Result {
    if exists r :: r in t && Directed(r, sender, receiver) then Result(false, t)
    else Result(true, t + {Row(sender, receiver, Pending, message, now, now)})
  }

  predicate Invalid(sender: int, receiver: int) {
    sender <= 0 || receiver <= 0 || sender == receiver
  }

  function SendRequest(t: Table, sender: int, receiver: int, message: string, now: int, pick: Pick): Result {
    if Invalid(sender, receiver) then Result(false, t)
    else if pick.Nothing? then Insert(t, sender, receiver, message, now)
    else if pick.row.status == Accepted then Result(false, t)
    else if pick.row.status == Rejected then
      if Directed(pick.row, sender, receiver) then Result(false, t) else Insert(t, sender, receiver, message, now)
    else if !Directed(pick.row, sender, receiver) then Result(false, t)
    else Result(HasPending(t, sender, receiver), set r | r in t :: UpdateMessage(r, sender, receiver, message, now))
  }

  function SetStatus(t: Table, sender: int, receiver: int, status: Status, now: int): Result {
    Result(HasPending(t, sender, receiver), set r | r in t :: UpdateStatus(r, sender, receiver, status, now))
  }

  function RemoveFriendship(t: Table, a: int, b: int): Result {
    Result(exists r :: r in t && Links(r, a, b), set r | r in t && !Links(r, a, b))
  }

  predicate AreFriends(t: Table, a: int, b: int) {
    exists r :: r in t && r.status == Accepted && Links(r, a, b)
  }

  function OtherEnd(r: Row, user: int): int {
    if r.sender == user then r.receiver else r.sender
  }

  // ---------------------------------------------------------------- the invariant

  /**
   No self rows, one row per direction, and of the two directions between a pair at most one row that is
   not rejected.
   */
  ghost predicate Consistent(t: Table) {
    && (forall r :: r in t ==> r.sender > 0 && r.receiver > 0 && r.sender != r.receiver)
    && (forall r, s :: r in t && s in t && Directed(s, r.sender, r.receiver) ==> r == s)
    && (forall r, s :: r in t && s in t && Directed(s, r.receiver, r.sender) ==>
          r.status == Rejected || s.status == Rejected)
  }

  datatype Op =
    | Send(sender: int, receiver: int, message: string, now: int, pick: Pick)
    | Accept(sender: int, receiver: int, now: int)
    | Reject(sender: int, receiver: int, now: int)
    | Remove(a: int, b: int)

  ghost predicate Allowed(t: Table, op: Op) {
    op.Send? ==> Selects(t, op.sender, op.receiver, op.pick)
  }

  function Apply(t: Table, op: Op): Result {
    match op
    case Send(sender, receiver, message, now, pick) => SendRequest(t, sender, receiver, message, now, pick)
    case Accept(sender, receiver, now) => SetStatus(t, sender, receiver, Accepted, now)
    case Reject(sender, receiver, now) => SetStatus(t, sender, receiver, Rejected, now)
    case Remove(a, b) => RemoveFriendship(t, a, b)
  }

  lemma SetStatusConsistent(t: Table, sender: int, receiver: int, status: Status, now: int)
    requires Consistent(t)
    ensures Consistent(SetStatus(t, sender, receiver, status, now).rows)
  {
  }

  lemma InsertConsistent(t: Table, sender: int, receiver: int, message: string, now: int)
    requires Consistent(t) && sender > 0 && receiver > 0 && sender != receiver
    requires forall r :: r in t && Directed(r, receiver, sender) ==> r.status == Rejected
    ensures Consistent(Insert(t, sender, receiver, message, now).rows)
  {
  }

  lemma UpdateMessageConsistent(t: Table, sender: int, receiver: int, message: string, now: int)
    requires Consistent(t)
    ensures Consistent(set r | r in t :: UpdateMessage(r, sender, receiver, message, now))
  {
  }

  lemma SendConsistent(t: Table, sender: int, receiver: int, message: string, now: int, pick: Pick)
    requires Consistent(t) && Selects(t, sender, receiver, pick)
    ensures Consistent(SendRequest(t, sender, receiver, message, now, pick).rows)
  {
    UpdateMessageConsistent(t, sender, receiver, message, now);
    if sender > 0 && receiver > 0 && sender != receiver {
      if pick.Nothing? || (pick.row.status == Rejected && !Directed(pick.row, sender, receiver)) {
        InsertConsistent(t, sender, receiver, message, now);
      }
    }
  }

  lemma OpConsistent(t: Table, op: Op)
    requires Consistent(t) && Allowed(t, op)
    ensures Consistent(Apply(t, op).rows)
  {
    match op {
      case Send(sender, receiver, message, now, pick) => SendConsistent(t, sender, receiver, message, now, pick);
      case Accept(sender, receiver, now) => SetStatusConsistent(t, sender, receiver, Accepted, now);
      case Reject(sender, receiver, now) => SetStatusConsistent(t, sender, receiver, Rejected, now);
      case Remove(_, _) =>
    }
  }

  // ---------------------------------------------------------------- runs

  /** The table after a run of operations from an empty one. */
  ghost function TableAfter(ops: seq<Op>): Table {
    if ops == [] then {} else Apply(TableAfter(ops[..|ops| - 1]), ops[|ops| - 1]).rows
  }

  ghost predicate IsRun(ops: seq<Op>) {
    ops == [] || (IsRun(ops[..|ops| - 1]) && Allowed(TableAfter(ops[..|ops| - 1]), ops[|ops| - 1]))
  }

  /** Operation `i` of a run reports success. */
  ghost predicate Succeeds(ops: seq<Op>, i: nat)
    requires i < |ops|
  {
    Apply(TableAfter(ops[..i]), ops[i]).ok
  }

  lemma {:induction false} RunConsistent(ops: seq<Op>)
    requires IsRun(ops)
    ensures Consistent(TableAfter(ops))
    decreases |ops|
  {
    if ops != [] {
      RunConsistent(ops[..|ops| - 1]);
      OpConsistent(TableAfter(ops[..|ops| - 1]), ops[|ops| - 1]);
    }
  }

  // ---------------------------------------------------------------- rejection is final

  ghost predicate IsRejected(t: Table, a: int, b: int) {
    exists r :: r in t && Directed(r, a, b) && r.status == Rejected
  }

  predicate RemovesPair(op: Op, a: int, b: int) {
    op.Remove? && ((op.a == a && op.b == b) || (op.a == b && op.b == a))
  }

  /** A rejected direction refuses requests, whichever row the query picks, and only a removal ends it. */
  lemma RejectedStays(t: Table, op: Op, a: int, b: int)
    requires Consistent(t) && Allowed(t, op) && IsRejected(t, a, b)
    ensures op.Send? && op.sender == a && op.receiver == b ==> Apply(t, op) == Result(false, t)
    ensures !RemovesPair(op, a, b) ==> IsRejected(Apply(t, op).rows, a, b)
  {
    var r :| r in t && Directed(r, a, b) && r.status == Rejected;
    if !RemovesPair(op, a, b) {
      match op {
        case Send(sender, receiver, message, now, _) => assert UpdateMessage(r, sender, receiver, message, now) == r;
        case Accept(sender, receiver, now) => assert UpdateStatus(r, sender, receiver, Accepted, now) == r;
        case Reject(sender, receiver, now) => assert UpdateStatus(r, sender, receiver, Rejected, now) == r;
        case Remove(_, _) => assert !Links(r, op.a, op.b);
      }
    }
  }

  ghost predicate Requests(op: Op, a: int, b: int) {
    op.Send? && op.sender == a && op.receiver == b
  }

  lemma {:induction false} PrefixIsRun(ops: seq<Op>, i: nat)
    requires IsRun(ops) && i <= |ops|
    ensures IsRun(ops[..i])
    ensures i < |ops| ==> Allowed(TableAfter(ops[..i]), ops[i])
    decreases |ops|
  {
    if i == |ops| {
      assert ops[..i] == ops;
    } else if i < |ops| - 1 {
      PrefixIsRun(ops[..|ops| - 1], i);
      assert ops[..|ops| - 1][..i] == ops[..i];
    }
  }

  lemma {:induction false} RejectionLasts(ops: seq<Op>, a: int, b: int, k: nat, i: nat)
    requires IsRun(ops) && k <= i <= |ops|
    requires IsRejected(TableAfter(ops[..k]), a, b)
    requires forall j :: k <= j < i ==> !RemovesPair(ops[j], a, b)
    ensures IsRejected(TableAfter(ops[..i]), a, b)
    decreases i
  {
    if k < i {
      RejectionLasts(ops, a, b, k, i - 1);
      PrefixIsRun(ops, i - 1);
      RunConsistent(ops[..i - 1]);
      RejectedStays(TableAfter(ops[..i - 1]), ops[i - 1], a, b);
      assert ops[..i][..i - 1] == ops[..i - 1];
    }
  }

  /** Once a to b is rejected it stays so, and every request from a to b fails, until the pair is removed. */
  lemma RejectionIsFinal(ops: seq<Op>, a: int, b: int, k: nat, i: nat)
    requires IsRun(ops) && k <= i < |ops|
    requires IsRejected(TableAfter(ops[..k]), a, b)
    requires forall j :: k <= j < i ==> !RemovesPair(ops[j], a, b)
    ensures IsRejected(TableAfter(ops[..i]), a, b)
    ensures Requests(ops[i], a, b) ==> !Succeeds(ops, i)
  {
    RejectionLasts(ops, a, b, k, i);
    PrefixIsRun(ops, i);
    RunConsistent(ops[..i]);
    RejectedStays(TableAfter(ops[..i]), ops[i], a, b);
  }

  // ---------------------------------------------------------------- where rows come from

  /** Operation `i` was a successful request from a to b, and the pair has not been removed since. */
  ghost predicate RequestedAt(ops: seq<Op>, i: nat, a: int, b: int) {
    && i < |ops| && ops[i].Send? && ops[i].sender == a && ops[i].receiver == b && Succeeds(ops, i)
    && (forall k :: i < k < |ops| ==> !RemovesPair(ops[k], a, b))
  }

  lemma RequestedStill(ops: seq<Op>, i: nat, a: int, b: int)
    requires ops != [] && RequestedAt(ops[..|ops| - 1], i, a, b)
    requires !RemovesPair(ops[|ops| - 1], a, b)
    ensures RequestedAt(ops, i, a, b)
  {
    var before := ops[..|ops| - 1];
    assert before[..i] == ops[..i] && before[i] == ops[i];
    forall k | i < k < |ops|
      ensures !RemovesPair(ops[k], a, b)
    {
      if k < |before| {
        assert before[k] == ops[k];
      }
    }
  }

  /** The row an operation leaves in the table was there before, in the same direction, or was just requested. */
  lemma RowOrigin(t: Table, op: Op, r: Row) returns (origin: Pick)
    requires Allowed(t, op) && r in Apply(t, op).rows
    ensures match origin
            case Nothing => op.Send? && op.sender == r.sender && op.receiver == r.receiver && Apply(t, op).ok
            case Picked(s) => s in t && Directed(s, r.sender, r.receiver) && !RemovesPair(op, r.sender, r.receiver)
    ensures r.status == Accepted ==> origin.Picked?
    ensures r.status == Accepted && origin.row.status != Accepted ==>
              op.Accept? && op.sender == r.sender && op.receiver == r.receiver && Apply(t, op).ok
  {
    if r in t && !RemovesPair(op, r.sender, r.receiver) {
      return Picked(r);
    }
    match op {
      case Send(sender, receiver, message, now, _) =>
        if s :| s in t && r == UpdateMessage(s, sender, receiver, message, now) {
          return Picked(s);
        }
        return Nothing;
      case Accept(sender, receiver, now) =>
        var s :| s in t && r == UpdateStatus(s, sender, receiver, Accepted, now);
        return Picked(s);
      case Reject(sender, receiver, now) =>
        var s :| s in t && r == UpdateStatus(s, sender, receiver, Rejected, now);
        return Picked(s);
      case Remove(a, b) => return Picked(r);
    }
  }

  /** Every row goes back to a successful request in its direction. */
  lemma {:induction false} RowWasRequested(ops: seq<Op>, r: Row) returns (i: nat)
    requires IsRun(ops) && r in TableAfter(ops)
    ensures RequestedAt(ops, i, r.sender, r.receiver)
    decreases |ops|
  {
    var n := |ops| - 1;
    var before := ops[..n];
    var origin := RowOrigin(TableAfter(before), ops[n], r);
    if origin.Nothing? {
      i := n;
    } else {
      i := RowWasRequested(before, origin.row);
      RequestedStill(ops, i, r.sender, r.receiver);
    }
  }

  ghost predicate AcceptedAt(ops: seq<Op>, j: nat, a: int, b: int) {
    j < |ops| && ops[j].Accept? && ops[j].sender == a && ops[j].receiver == b && Succeeds(ops, j)
  }

  /** Every accepted row was requested and then accepted in its direction, with no removal since the request. */
  lemma {:induction false} AcceptedWasAgreed(ops: seq<Op>, r: Row) returns (i: nat, j: nat)
    requires IsRun(ops) && r in TableAfter(ops) && r.status == Accepted
    ensures i < j && RequestedAt(ops, i, r.sender, r.receiver) && AcceptedAt(ops, j, r.sender, r.receiver)
    decreases |ops|
  {
    var n := |ops| - 1;
    var before := ops[..n];
    var origin := RowOrigin(TableAfter(before), ops[n], r);
    if origin.row.status == Accepted {
      i, j := AcceptedWasAgreed(before, origin.row);
      assert before[..j] == ops[..j] && before[j] == ops[j];
    } else {
      i := RowWasRequested(before, origin.row);
      j := n;
    }
    RequestedStill(ops, i, r.sender, r.receiver);
  }

  /** The row links the two users and is not rejected. */
  predicate Standing(r: Row, a: int, b: int) {
    Links(r, a, b) && r.status != Rejected
  }

  /**
   In every reachable table friendship is symmetric, nobody is their own friend, and two users are linked by
   at most one row that is not rejected.
   */
  lemma FriendshipIsSound(ops: seq<Op>, a: int, b: int)
    requires IsRun(ops)
    ensures var t := TableAfter(ops);
            && (AreFriends(t, a, b) <==> AreFriends(t, b, a))
            && !AreFriends(t, a, a)
            && (forall r, s :: r in t && s in t && Standing(r, a, b) && Standing(s, a, b) ==> r == s)
  {
    RunConsistent(ops);
  }

  // ---------------------------------------------------------------- friendship from the operations alone

  /** A request between different users who have no row succeeds, and leaves a pending row of its direction. */
  lemma RequestIsStored(t: Table, op: Op)
    requires Allowed(t, op) && op.Send? && op.sender > 0 && op.receiver > 0 && op.sender != op.receiver
    requires forall r :: r in t ==> !Links(r, op.sender, op.receiver)
    ensures Apply(t, op).ok
    ensures exists r :: r in Apply(t, op).rows && r.sender == op.sender && r.receiver == op.receiver
                        && r.status == Pending && r.message == op.message && r.createdAt == op.now
    ensures forall r :: r in t ==> r in Apply(t, op).rows
  {
    assert Row(op.sender, op.receiver, Pending, op.message, op.now, op.now) in Apply(t, op).rows;
  }

  /** Whenever a request succeeds, a pending row of its direction is there afterwards, with its message. */
  lemma RequestLeavesPending(t: Table, op: Op)
    requires Allowed(t, op) && op.Send? && Apply(t, op).ok
    ensures exists r :: r in Apply(t, op).rows && r.sender == op.sender && r.receiver == op.receiver
                        && r.status == Pending && r.message == op.message && r.updatedAt == op.now
  {
    if r :| r in t && Directed(r, op.sender, op.receiver) && r.status == Pending {
      assert UpdateMessage(r, op.sender, op.receiver, op.message, op.now) in Apply(t, op).rows;
    } else {
      assert Row(op.sender, op.receiver, Pending, op.message, op.now, op.now) in Apply(t, op).rows;
    }
  }

  /**
   When a request succeeds. If the query finds a row, that is one of its own direction that is pending, or a rejected
   one of the other direction while its own has none.
   */
  lemma RequestSucceedsExactly(t: Table, op: Op)
    requires Allowed(t, op) && op.Send?
    ensures Apply(t, op).ok
            <==> && op.sender > 0 && op.receiver > 0 && op.sender != op.receiver
                 && (op.pick.Picked? ==>
                       || (op.pick.row.status == Pending && op.pick.row.sender == op.sender)
                       || (&& op.pick.row.status == Rejected && op.pick.row.sender == op.receiver
                           && forall r :: r in t ==> !(r.sender == op.sender && r.receiver == op.receiver)))
  {
    if op.pick.Picked? && op.pick.row.status == Pending && op.pick.row.sender == op.sender {
      assert Directed(op.pick.row, op.sender, op.receiver) <==> op.pick.row.receiver == op.receiver;
    }
  }

  /** An acceptance or a rejection succeeds exactly if a pending row of its direction is there, which then says so. */
  lemma AnswerIsStored(t: Table, op: Op)
    requires op.Accept? || op.Reject?
    ensures Apply(t, op).ok
            <==> exists r :: r in t && r.sender == op.sender && r.receiver == op.receiver && r.status == Pending
    ensures Apply(t, op).ok ==>
              exists r :: r in Apply(t, op).rows && r.sender == op.sender && r.receiver == op.receiver
                          && r.status == (if op.Accept? then Accepted else Rejected)
  {
    if r :| r in t && r.sender == op.sender && r.receiver == op.receiver && r.status == Pending {
      assert Directed(r, op.sender, op.receiver);
      assert UpdateStatus(r, op.sender, op.receiver, if op.Accept? then Accepted else Rejected, op.now)
             in Apply(t, op).rows;
    }
  }

  /** The row before an answer, if `r` is that row afterwards. */
  predicate BecomesBy(o: Row, r: Row, status: Status, now: int) {
    && o.status == Pending && r.status == status && r.updatedAt == now
    && r.sender == o.sender && r.receiver == o.receiver && r.message == o.message && r.createdAt == o.createdAt
  }

  /** An answer changes the status of pending rows of that direction, and of nothing else. */
  lemma AnswerChanges(t: Table, op: Op, r: Row)
    requires op.Accept? || op.Reject?
    ensures r in Apply(t, op).rows
            <==> || (r in t && !(r.sender == op.sender && r.receiver == op.receiver && r.status == Pending))
                 || (&& r.sender == op.sender && r.receiver == op.receiver
                     && exists o :: o in t && BecomesBy(o, r, if op.Accept? then Accepted else Rejected, op.now))
  {
    var status := if op.Accept? then Accepted else Rejected;
    if r in t && !(Directed(r, op.sender, op.receiver) && r.status == Pending) {
      assert UpdateStatus(r, op.sender, op.receiver, status, op.now) == r;
    }
    if o :| o in t && BecomesBy(o, r, status, op.now) && Directed(r, op.sender, op.receiver) {
      assert UpdateStatus(o, op.sender, op.receiver, status, op.now) == r;
    }
  }

  /** A removal succeeds exactly if the two have a row, and leaves them none; other rows stay. */
  lemma RemovalIsTotal(t: Table, op: Op)
    requires op.Remove?
    ensures Apply(t, op).ok <==> exists r :: r in t && {r.sender, r.receiver} == {op.a, op.b}
    ensures forall r :: r in Apply(t, op).rows <==> r in t && {r.sender, r.receiver} != {op.a, op.b}
  {
    assert forall r: Row :: Links(r, op.a, op.b) ==> {r.sender, r.receiver} == {op.a, op.b};
    forall r: Row | {r.sender, r.receiver} == {op.a, op.b}
      ensures Links(r, op.a, op.b)
    {
      assert r.sender in {op.a, op.b} && r.receiver in {op.a, op.b};
      assert op.a in {r.sender, r.receiver} && op.b in {r.sender, r.receiver};
    }
  }

  /** An accepted row stays accepted until the pair is removed. */
  lemma AcceptedStays(t: Table, op: Op, a: int, b: int)
    requires Allowed(t, op) && !RemovesPair(op, a, b)
    requires exists r :: r in t && Directed(r, a, b) && r.status == Accepted
    ensures exists r :: r in Apply(t, op).rows && Directed(r, a, b) && r.status == Accepted
  {
    var r :| r in t && Directed(r, a, b) && r.status == Accepted;
    match op {
      case Send(sender, receiver, message, now, _) => assert UpdateMessage(r, sender, receiver, message, now) == r;
      case Accept(sender, receiver, now) => assert UpdateStatus(r, sender, receiver, Accepted, now) == r;
      case Reject(sender, receiver, now) => assert UpdateStatus(r, sender, receiver, Rejected, now) == r;
      case Remove(_, _) => assert !Links(r, op.a, op.b);
    }
    assert r in Apply(t, op).rows;
  }

  lemma OneMore(ops: seq<Op>, n: nat)
    requires 0 < n <= |ops| && IsRun(ops)
    ensures TableAfter(ops[..n]) == Apply(TableAfter(ops[..n - 1]), ops[n - 1]).rows
    ensures Allowed(TableAfter(ops[..n - 1]), ops[n - 1])
  {
    PrefixIsRun(ops, n);
    assert ops[..n][..n - 1] == ops[..n - 1];
  }

  lemma {:induction false} AcceptedLasts(ops: seq<Op>, j: nat, n: nat, a: int, b: int)
    requires IsRun(ops) && j < n <= |ops| && AcceptedAt(ops, j, a, b)
    requires forall k :: j < k < n ==> !RemovesPair(ops[k], a, b)
    ensures exists r :: r in TableAfter(ops[..n]) && Directed(r, a, b) && r.status == Accepted
    decreases n
  {
    PrefixIsRun(ops, n - 1);
    OneMore(ops, n);
    if n == j + 1 {
      AnswerIsStored(TableAfter(ops[..j]), ops[j]);
      var r :| r in TableAfter(ops[..n]) && r.sender == a && r.receiver == b && r.status == Accepted;
      assert Directed(r, a, b);
    } else {
      AcceptedLasts(ops, j, n - 1, a, b);
      AcceptedStays(TableAfter(ops[..n - 1]), ops[n - 1], a, b);
    }
  }

  /** a asked b, b accepted later, and the pair has not been removed since a asked. */
  ghost predicate Agreed(ops: seq<Op>, i: nat, j: nat, a: int, b: int) {
    i < j && RequestedAt(ops, i, a, b) && AcceptedAt(ops, j, a, b)
  }

  /**
   Over every run two users are friends exactly if one of them asked, the other accepted later, and the pair has not
   been removed since.
   */
  lemma FriendsExactly(ops: seq<Op>, a: int, b: int)
    requires IsRun(ops)
    ensures AreFriends(TableAfter(ops), a, b) <==> exists i, j :: Agreed(ops, i, j, a, b) || Agreed(ops, i, j, b, a)
  {
    if r :| r in TableAfter(ops) && r.status == Accepted && Links(r, a, b) {
      var i, j := AcceptedWasAgreed(ops, r);
      assert Agreed(ops, i, j, r.sender, r.receiver);
    }
    if i: nat, j: nat :| Agreed(ops, i, j, a, b) {
      AcceptedLasts(ops, j, |ops|, a, b);
      assert ops[..|ops|] == ops;
    }
    if i: nat, j: nat :| Agreed(ops, i, j, b, a) {
      AcceptedLasts(ops, j, |ops|, b, a);
      assert ops[..|ops|] == ops;
    }
  }
}

/** The repository object over the friendships table. */
module FriendStore {
  import opened Friends

  class FriendRepository {
    var rows: Table

    constructor ()
      ensures rows == {}
    {
      rows := {};
    }

    /** `pick` is the row the query returned. */
    method SendRequest(sender: int, receiver: int, message: string, now: int) returns (ok: bool, ghost pick: Pick)
      modifies this
      ensures Selects(old(rows), sender, receiver, pick)
      ensures Result(ok, rows) == Friends.SendRequest(old(rows), sender, receiver, message, now, pick)
    {
      var matching := set r | r in rows && Links(r, sender, receiver);
      assert forall r :: r in rows && Links(r, sender, receiver) ==> r in matching;
      pick := Nothing;
      if matching != {} {
        var existing :| existing in matching;
        pick := Picked(existing);
        if Invalid(sender, receiver) || existing.status == Accepted {
          return false, pick;
        }
        if existing.status == Rejected && Directed(existing, sender, receiver) {
          return false, pick;
        }
        if existing.status == Pending {
          if !Directed(existing, sender, receiver) {
            return false, pick;
          }
          ok := HasPending(rows, sender, receiver);
          rows := set r | r in rows :: UpdateMessage(r, sender, receiver, message, now);
          return;
        }
      } else if Invalid(sender, receiver) {
        return false, pick;
      }
      ok := !exists r :: r in rows && Directed(r, sender, receiver);
      if ok {
        rows := rows + {Row(sender, receiver, Pending, message, now, now)};
      }
    }

    method SetStatus(sender: int, receiver: int, status: Status, now: int) returns (ok: bool)
      modifies this
      ensures Result(ok, rows) == Friends.SetStatus(old(rows), sender, receiver, status, now)
    {
      ok := HasPending(rows, sender, receiver);
      rows := set r | r in rows :: UpdateStatus(r, sender, receiver, status, now);
    }

    method RemoveFriendship(a: int, b: int) returns (ok: bool)
      modifies this
      ensures Result(ok, rows) == Friends.RemoveFriendship(old(rows), a, b)
    {
      ok := exists r :: r in rows && Links(r, a, b);
      rows := set r | r in rows && !Links(r, a, b);
    }

    /** The friends of a user among the registered users, in whatever order the rows come. */
    method GetFriends(user: int, registered: set<int>) returns (friends: seq<int>)
      ensures Consistent(rows) ==> forall i, j :: 0 <= i < j < |friends| ==> friends[i] != friends[j]
      ensures forall v :: v in friends <==> v in registered && AreFriends(rows, user, v)
    {
      friends := [];
      var left := set r | r in rows && r.status == Accepted && (r.sender == user || r.receiver == user);
      ghost var mine := left;
      while left != {}
        invariant left <= mine
        invariant Consistent(rows) ==> forall i, j :: 0 <= i < j < |friends| ==> friends[i] != friends[j]
        invariant forall v :: v in friends
                              <==> v in registered && exists r :: r in mine - left && OtherEnd(r, user) == v
        decreases left
      {
        var r :| r in left;
        assert Consistent(rows) ==> forall s :: s in mine && OtherEnd(s, user) == OtherEnd(r, user) ==> s == r;
        left := left - {r};
        if OtherEnd(r, user) in registered {
          friends := friends + [OtherEnd(r, user)];
        }
      }
      assert forall v, r :: r in mine ==> (OtherEnd(r, user) == v <==> Links(r, user, v));
    }
  }
}
