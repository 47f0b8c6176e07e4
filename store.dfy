/**
 * The trade table as the service sees it: records appended by `create`,
 * a status update, and the query of one user's records. Each store
 * operation that commits takes a `commitOk` flag standing for whether
 * the storage engine's commit succeeds; a failed commit is rolled back and
 * leaves the committed records as they were.
 */
module Store {
  import opened Trades

  /** The records of `s` owned by `user`, in store order. */
  function OwnedBy(s: seq<Trade>, user: Value): (r: seq<Trade>)
    ensures |r| <= |s|
    ensures forall t :: t in r <==> t in s && t.userId == user
  {
    if s == [] then []
    else
      var rest := OwnedBy(s[..|s| - 1], user);
      if s[|s| - 1].userId == user then rest + [s[|s| - 1]] else rest
  }

  /** The query keeps store order: the records of a concatenation are the
      records of each part, in turn. */
  lemma {:induction false} OwnedByConcat(a: seq<Trade>, b: seq<Trade>, user: Value)
    ensures OwnedBy(a + b, user) == OwnedBy(a, user) + OwnedBy(b, user)
    decreases |b|
  {
    if b == [] {
      assert a + b == a;
    } else {
      var b0 := b[..|b| - 1];
      assert (a + b)[..|a + b| - 1] == a + b0;
      OwnedByConcat(a, b0, user);
    }
  }

  /** `before` can evolve into `after` under the lifecycle: records are
      never removed or rewritten, and a status may only leave `Pending`. */
  ghost predicate Evolves(before: seq<Trade>, after: seq<Trade>)
  {
    && |before| <= |after|
    && forall i | 0 <= i < |before| ::
         && after[i] == before[i].(status := after[i].status)
         && (after[i].status == before[i].status || before[i].status == Pending)
  }

  /** Evolving is transitive: a sequence of submissions never moves a
      terminal record, nor sends one back to `Pending`. */
  lemma EvolvesTransitive(a: seq<Trade>, b: seq<Trade>, c: seq<Trade>)
    requires Evolves(a, b) && Evolves(b, c)
    ensures Evolves(a, c)
  {
    forall i | 0 <= i < |a|
      ensures c[i] == a[i].(status := c[i].status)
      ensures c[i].status == a[i].status || a[i].status == Pending
    {
      assert b[i] == a[i].(status := b[i].status);
      assert c[i] == b[i].(status := c[i].status);
    }
  }

  /** Ids strictly increase along `s`: no id, hence no record, occurs twice. */
  ghost predicate IdsIncreasing(s: seq<Trade>)
  {
    forall i, j | 0 <= i < j < |s| :: s[i].id < s[j].id
  }

  /** Filtering by owner keeps ids increasing. */
  lemma {:induction false} OwnedByIncreasing(s: seq<Trade>, user: Value)
    requires IdsIncreasing(s)
    ensures IdsIncreasing(OwnedBy(s, user))
    decreases |s|
  {
    if s != [] {
      var init, last := s[..|s| - 1], s[|s| - 1];
      OwnedByIncreasing(init, user);
      var rest := OwnedBy(init, user);
      forall t | t in rest
        ensures t.id < last.id
      {
        var i :| 0 <= i < |init| && init[i] == t;
      }
    }
  }

  class TradeStore {
    /** The committed records, in insertion order. */
    var trades: seq<Trade>

    /** Ids are assigned in insertion order and never reused. */
    ghost predicate Valid()
      reads this
    {
      forall i | 0 <= i < |trades| :: trades[i].id == i
    }

    constructor ()
      ensures Valid() && trades == []
    {
      trades := [];
    }

    /**
     * Adds the record for `sub` with status `Pending`, the next id and the
     * store's time `now`, and commits. On a failed commit the session is
     * rolled back: nothing is added and no id is returned.
     */
    method Create(sub: Submission, now: Timestamp, commitOk: bool) returns (id: Option<nat>)
      requires Valid()
      modifies this
      ensures Valid()
      ensures commitOk ==>
        id == Some(|old(trades)|) && trades == old(trades) + [NewRecord(sub, |old(trades)|, now)]
      ensures !commitOk ==> id == None && trades == old(trades)
    {
      if commitOk {
        id := Some(|trades|);
        trades := trades + [NewRecord(sub, |trades|, now)];
      } else {
        id := None;
      }
    }

    /** Sets the status of record `id` and commits; on a failed commit the
        change is rolled back and the records stay as they were. */
    method SetStatus(id: nat, status: Status, commitOk: bool)
      requires Valid() && id < |trades|
      modifies this
      ensures Valid()
      ensures commitOk ==> trades == old(trades)[id := old(trades)[id].(status := status)]
      ensures !commitOk ==> trades == old(trades)
    {
      if commitOk {
        trades := trades[id := trades[id].(status := status)];
      }
    }

    /** The query of one user's records (`filter_by(user_id=...)`). */
    function ByUser(user: string): (r: seq<Trade>)
      reads this
      ensures forall t :: t in r <==> t in trades && t.userId == Str(user)
    {
      OwnedBy(trades, Str(user))
    }

    /** Ids are the table's primary key: the query for a user lists each
        record once, ordered by id. */
    lemma ByUserDistinct(user: string)
      requires Valid()
      ensures forall i, j | 0 <= i < j < |ByUser(user)| ::
        ByUser(user)[i].id < ByUser(user)[j].id && ByUser(user)[i] != ByUser(user)[j]
    {
      OwnedByIncreasing(trades, Str(user));
    }
  }
}
