/** Octets, octet strings and the concatenation facts the other modules share. */
module Octets {

  type byte = b: int | 0 <= b < 256

  type Bytes = seq<byte>

  /** The concatenation of the pieces, in order. */
  function Join(pieces: seq<Bytes>): Bytes {
    if pieces == [] then [] else pieces[0] + Join(pieces[1..])
  }

  lemma {:induction false} JoinAppend(left: seq<Bytes>, right: seq<Bytes>)
    ensures Join(left + right) == Join(left) + Join(right)
  {
    if left == [] {
      assert left + right == right;
    } else {
      assert (left + right)[1..] == left[1..] + right;
      JoinAppend(left[1..], right);
    }
  }

  lemma JoinSnoc(pieces: seq<Bytes>, last: Bytes)
    ensures Join(pieces + [last]) == Join(pieces) + last
  {
    JoinAppend(pieces, [last]);
    assert Join([last]) == last + Join([]);
  }

  /** If `prefix` leads `a + b` and is at least as long as `a`, it is `a` followed by a prefix of `b`. */
  lemma PrefixSplit(prefix: Bytes, a: Bytes, b: Bytes)
    requires prefix <= a + b
    requires |a| <= |prefix|
    ensures prefix == a + prefix[|a|..]
    ensures prefix[|a|..] <= b
  {
    var tail := prefix[|a|..];
    assert prefix == (a + b)[..|prefix|];
    assert prefix[..|a|] == a;
    forall i | 0 <= i < |tail|
      ensures tail[i] == b[i]
    {
      assert prefix[|a| + i] == (a + b)[|a| + i];
    }
  }
}
