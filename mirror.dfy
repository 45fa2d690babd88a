/**
  The client's mirror of the player registry, and the three batch updates the
  server sends to keep it in step: PlayersJoined, PlayersLeft and PlayersMoving.
  Each update is specified here as a function that walks the batch in order,
  exactly as the client's handler loops over the records; the lemmas state what
  the whole batch does to the mirror.
*/
module Mirror {
  import opened Protocol

  /** The local mirror: one entry per known player, keyed by id. */
  type Players = map<Id, Player>

  /** Every entry is stored under its own player's id. */
  ghost predicate KeyedById(m: Players)
  {
    forall id :: id in m ==> m[id].id == id
  }

  /** The ids named by a batch of player records. */
  function Ids(recs: seq<Player>): set<Id>
  {
    set r | r in recs :: r.id
  }

  // ---------------------------------------------------------------------------
  // PlayersJoined
  // ---------------------------------------------------------------------------

  /**
    PlayersJoined: each record, in batch order, becomes the entry under its id,
    whether the id was present (every field overwritten) or not (inserted).
  */
  function InsertAll(m: Players, recs: seq<Player>): Players
    decreases |recs|
  {
    if recs == [] then m
    else InsertAll(m[recs[0].id := recs[0]], recs[1..])
  }

  /** The ids present after a PlayersJoined batch are the old ones plus those the batch names. */
  lemma {:induction false} InsertAllKeys(m: Players, recs: seq<Player>)
    ensures InsertAll(m, recs).Keys == m.Keys + Ids(recs)
    decreases |recs|
  {
    if recs != [] {
      InsertAllKeys(m[recs[0].id := recs[0]], recs[1..]);
      assert Ids(recs) == {recs[0].id} + Ids(recs[1..]) by {
        assert forall r :: r in recs <==> r == recs[0] || r in recs[1..];
      }
    }
  }

  /**
    Last write wins: the entry for an id named in the batch is exactly the last
    record that names it, with no field carried over from an earlier record or
    from the entry that was there before.
  */
  lemma {:induction false} InsertAllLastWriteWins(m: Players, recs: seq<Player>, i: nat)
    requires i < |recs|
    requires forall j :: i < j < |recs| ==> recs[j].id != recs[i].id
    ensures recs[i].id in InsertAll(m, recs)
    ensures InsertAll(m, recs)[recs[i].id] == recs[i]
    decreases |recs|
  {
    var m' := m[recs[0].id := recs[0]];
    if i == 0 {
      InsertAllUntouched(m', recs[1..], recs[0].id);
    } else {
      InsertAllLastWriteWins(m', recs[1..], i - 1);
    }
  }

  /** An id that the batch does not name keeps its entry, or stays absent. */
  lemma {:induction false} InsertAllUntouched(m: Players, recs: seq<Player>, id: Id)
    requires forall j :: 0 <= j < |recs| ==> recs[j].id != id
    ensures id in InsertAll(m, recs) <==> id in m
    ensures id in m ==> InsertAll(m, recs)[id] == m[id]
    decreases |recs|
  {
    if recs != [] {
      InsertAllUntouched(m[recs[0].id := recs[0]], recs[1..], id);
    }
  }

  /**
    Two PlayersJoined batches of one record each for the same id: the second
    replaces the first entirely.
  */
  lemma JoinedTwiceKeepsSecond(m: Players, first: Player, second: Player)
    requires first.id == second.id
    ensures second.id in InsertAll(InsertAll(m, [first]), [second])
    ensures InsertAll(InsertAll(m, [first]), [second])[second.id] == second
  {
  }

  // ---------------------------------------------------------------------------
  // PlayersLeft
  // ---------------------------------------------------------------------------

  /** PlayersLeft: each listed id, in batch order, is removed; an absent id is skipped. */
  function DeleteAll(m: Players, ids: seq<Id>): Players
    decreases |ids|
  {
    if ids == [] then m
    else DeleteAll(m - {ids[0]}, ids[1..])
  }

  /** A PlayersLeft batch removes exactly the listed ids and leaves every other entry as it was. */
  lemma {:induction false} DeleteAllRemovesListed(m: Players, ids: seq<Id>)
    ensures DeleteAll(m, ids) == m - (set id | id in ids)
    decreases |ids|
  {
    if ids != [] {
      DeleteAllRemovesListed(m - {ids[0]}, ids[1..]);
      assert (set id | id in ids) == {ids[0]} + (set id | id in ids[1..]) by {
        assert forall id :: id in ids <==> id == ids[0] || id in ids[1..];
      }
    }
  }

  /** Applying the same PlayersLeft batch a second time changes nothing. */
  lemma DeleteAllIdempotent(m: Players, ids: seq<Id>)
    ensures DeleteAll(DeleteAll(m, ids), ids) == DeleteAll(m, ids)
  {
    DeleteAllRemovesListed(m, ids);
    DeleteAllRemovesListed(DeleteAll(m, ids), ids);
  }

  /** Removing an id the mirror does not hold is a no-op, not an error. */
  lemma DeleteAbsentIsNoOp(m: Players, id: Id)
    requires id !in m
    ensures DeleteAll(m, [id]) == m
  {
  }

  // ---------------------------------------------------------------------------
  // PlayersMoving
  // ---------------------------------------------------------------------------

  /** The mirror after a PlayersMoving batch, and whether the batch was cut short. */
  datatype MoveOutcome = MoveOutcome(mirror: Players, aborted: bool)

  /**
    The fields a PlayersMoving record overwrites on a known player: moving,
    position and direction. The player's id and hue are kept.
  */
  function Moved(p: Player, r: Player): (q: Player)
    ensures q.id == p.id && q.hue == p.hue
    ensures q.moving == r.moving && q.x == r.x && q.y == r.y && q.direction == r.direction
  {
    p.(moving := r.moving, x := r.x, y := r.y, direction := r.direction)
  }

  /**
    PlayersMoving: records are applied in batch order to known players; the first
    record whose id is unknown aborts the batch, and the records after it are
    never looked at.
  */
  function MoveAll(m: Players, recs: seq<Player>): MoveOutcome
    decreases |recs|
  {
    if recs == [] then MoveOutcome(m, false)
    else if recs[0].id !in m then MoveOutcome(m, true)
    else MoveAll(m[recs[0].id := Moved(m[recs[0].id], recs[0])], recs[1..])
  }

  /**
    PlayersMoving never adds or removes a player, and never changes a player's id
    or hue.
  */
  lemma {:induction false} MoveAllKeepsRoster(m: Players, recs: seq<Player>)
    ensures MoveAll(m, recs).mirror.Keys == m.Keys
    ensures forall id :: id in m ==>
              MoveAll(m, recs).mirror[id].id == m[id].id && MoveAll(m, recs).mirror[id].hue == m[id].hue
    decreases |recs|
  {
    if recs != [] && recs[0].id in m {
      MoveAllKeepsRoster(m[recs[0].id := Moved(m[recs[0].id], recs[0])], recs[1..]);
    }
  }

  /** A PlayersMoving batch is aborted exactly when it names an id the mirror does not hold. */
  lemma {:induction false} MoveAllAbortsIffUnknown(m: Players, recs: seq<Player>)
    ensures MoveAll(m, recs).aborted <==> exists j :: 0 <= j < |recs| && recs[j].id !in m
    decreases |recs|
  {
    if recs != [] && recs[0].id in m {
      var m' := m[recs[0].id := Moved(m[recs[0].id], recs[0])];
      MoveAllAbortsIffUnknown(m', recs[1..]);
      assert m'.Keys == m.Keys;
      if exists j :: 0 <= j < |recs| && recs[j].id !in m {
        var j :| 0 <= j < |recs| && recs[j].id !in m;
        assert recs[1..][j - 1].id !in m';
      }
    }
  }

  /**
    When record k is the first whose id is unknown, the records before it stay
    applied, record k and everything after it are not applied, and the batch is
    aborted.
  */
  lemma {:induction false} MoveAllStopsAtFirstUnknown(m: Players, recs: seq<Player>, k: nat)
    requires k < |recs| && recs[k].id !in m
    requires forall j :: 0 <= j < k ==> recs[j].id in m
    ensures MoveAll(m, recs[..k]).aborted == false
    ensures MoveAll(m, recs) == MoveOutcome(MoveAll(m, recs[..k]).mirror, true)
    decreases k
  {
    if k > 0 {
      var m' := m[recs[0].id := Moved(m[recs[0].id], recs[0])];
      assert m'.Keys == m.Keys;
      assert recs[..k][1..] == recs[1..][..k - 1];
      MoveAllStopsAtFirstUnknown(m', recs[1..], k - 1);
    }
  }

  /** A batch whose first record is unknown aborts and leaves the mirror as it was. */
  lemma UnknownFirstLeavesMirror(m: Players, recs: seq<Player>)
    requires recs != [] && recs[0].id !in m
    ensures MoveAll(m, recs) == MoveOutcome(m, true)
  {
  }

  /**
    In a batch of known ids, a player's entry takes moving, position and direction
    from the last record that names it, and keeps its own id and hue.
  */
  lemma {:induction false} MoveAllLastWriteWins(m: Players, recs: seq<Player>, i: nat)
    requires forall j :: 0 <= j < |recs| ==> recs[j].id in m
    requires i < |recs|
    requires forall j :: i < j < |recs| ==> recs[j].id != recs[i].id
    ensures recs[i].id in MoveAll(m, recs).mirror
    ensures MoveAll(m, recs).mirror[recs[i].id] == Moved(m[recs[i].id], recs[i])
    decreases |recs|
  {
    var m' := m[recs[0].id := Moved(m[recs[0].id], recs[0])];
    assert m'.Keys == m.Keys;
    if i == 0 {
      MoveAllUntouched(m', recs[1..], recs[0].id);
    } else {
      MoveAllLastWriteWins(m', recs[1..], i - 1);
      var id := recs[i].id;
      if id == recs[0].id {
        assert m'[id] == Moved(m[id], recs[0]);
      }
    }
  }

  /** A player that a PlayersMoving batch does not name keeps its entry unchanged. */
  lemma {:induction false} MoveAllUntouched(m: Players, recs: seq<Player>, id: Id)
    requires forall j :: 0 <= j < |recs| ==> recs[j].id != id
    ensures id in MoveAll(m, recs).mirror <==> id in m
    ensures id in m ==> MoveAll(m, recs).mirror[id] == m[id]
    decreases |recs|
  {
    if recs != [] && recs[0].id in m {
      MoveAllUntouched(m[recs[0].id := Moved(m[recs[0].id], recs[0])], recs[1..], id);
    }
  }

  // ---------------------------------------------------------------------------
  // The mirror stays keyed by id
  // ---------------------------------------------------------------------------

  /** A PlayersJoined batch never files a player under another player's id. */
  lemma {:induction false} InsertAllKeyedById(m: Players, recs: seq<Player>)
    requires KeyedById(m)
    ensures KeyedById(InsertAll(m, recs))
    decreases |recs|
  {
    if recs != [] {
      InsertAllKeyedById(m[recs[0].id := recs[0]], recs[1..]);
    }
  }

  /** A PlayersLeft batch never files a player under another player's id. */
  lemma {:induction false} DeleteAllKeyedById(m: Players, ids: seq<Id>)
    requires KeyedById(m)
    ensures KeyedById(DeleteAll(m, ids))
    decreases |ids|
  {
    if ids != [] {
      DeleteAllKeyedById(m - {ids[0]}, ids[1..]);
    }
  }

  /** A PlayersMoving batch never files a player under another player's id. */
  lemma {:induction false} MoveAllKeyedById(m: Players, recs: seq<Player>)
    requires KeyedById(m)
    ensures KeyedById(MoveAll(m, recs).mirror)
    decreases |recs|
  {
    if recs != [] && recs[0].id in m {
      MoveAllKeyedById(m[recs[0].id := Moved(m[recs[0].id], recs[0])], recs[1..]);
    }
  }
}
