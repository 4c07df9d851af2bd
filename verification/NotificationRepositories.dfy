/** The reminder table as its repository updates it: one method per statement. */
module NotificationRepositories {
  import opened Prelude
  import opened Lectures
  import opened NotificationTable
  import Batches

  class NotificationRepository {
    var table: Table
    var nextId: NotificationId

    constructor ()
      ensures table == map[] && Below(table, nextId)
    {
      table, nextId := map[], 0;
    }

    /** Takes ownership of up to a hundred due rows and returns exactly the rows
        this call won. */
    method ClaimDue(now: Instant, token: Token)
      returns (claimed: seq<NotificationId>, ghost candidates: seq<NotificationId>)
      requires forall id :: id in table ==> table[id].lockedBy != Some(token)
      modifies this`table
      ensures Batches.IsBatch(candidates, ClaimableIds(old(table), now), DueTimes(old(table)), BATCH_SIZE)
      ensures forall i, id :: 0 <= i < |candidates| && id in ClaimableIds(old(table), now) ==>
        && candidates[i] in old(table)
        && (id in candidates || old(table)[candidates[i]].scheduledFor <= old(table)[id].scheduledFor)
      ensures table == ClaimRows(old(table), SetOf(candidates), now, token)
      ensures NoDuplicates(claimed) && SetOf(claimed) == SetOf(candidates) == HeldBy(table, token)
    {
      var t := table;
      var ids := Batches.SelectBatch(ClaimableIds(t, now), DueTimes(t), BATCH_SIZE);
      candidates := ids;
      forall i, id | 0 <= i < |ids| && id in ClaimableIds(t, now)
        ensures ids[i] in t && (id in ids || t[ids[i]].scheduledFor <= t[id].scheduledFor) {
        assert ids[i] in SetOf(ids);
        assert id in ids || id in ClaimableIds(t, now) - SetOf(ids);
      }
      claimed := [];
      if ids == [] {
        assert ClaimRows(t, {}, now, token) == t;
        return;
      }
      table := ClaimRows(t, SetOf(ids), now, token);
      assert forall id :: id in SetOf(ids) ==> id in ClaimableIds(t, now);
      var left := HeldBy(table, token);
      while left != {}
        invariant NoDuplicates(claimed) && SetOf(claimed) + left == HeldBy(table, token) && SetOf(claimed) !! left
        decreases left
      {
        var id :| id in left;
        assert SetOf(claimed + [id]) == SetOf(claimed) + {id};
        claimed := claimed + [id];
        left := left - {id};
      }
    }

    method MarkSent(id: NotificationId, at: Instant)
      requires id in table
      modifies this`table
      ensures table == NotificationTable.MarkSent(old(table), id, at)
    {
      table := table[id := Unlocked(table[id], Sent).(sentAt := Some(at))];
    }

    method MarkFailed(id: NotificationId, giveUp: bool)
      requires id in table
      modifies this`table
      ensures table == NotificationTable.MarkFailed(old(table), id, giveUp)
    {
      table := table[id := Unlocked(table[id], if giveUp then Failed else Pending)];
    }

    /** Afterwards nothing is overdue: the overdue rows, one in flight included, are
        CANCELLED and unlocked, each counted, and every other row is as it was. */
    method CancelOverdue(before: Instant) returns (count: nat)
      modifies this`table
      ensures table == NotificationTable.CancelOverdue(old(table), before)
      ensures OverdueIds(table, before) == {} && table.Keys == old(table).Keys
      ensures forall id :: id in old(table) ==>
        if id in OverdueIds(old(table), before) then table[id].status == Cancelled && table[id].lockedBy.None?
            && table[id].lockedAt.None?
        else table[id] == old(table)[id]
      ensures count == |OverdueIds(old(table), before)|
    {
      var t := table;
      count := |OverdueIds(t, before)|;
      table := NotificationTable.CancelOverdue(t, before);
    }

    /** createMany with skipDuplicates over the key. */
    method CreateManyIgnoringDuplicates(drafts: seq<Draft>) returns (count: nat)
      requires Below(table, nextId)
      modifies this
      ensures Below(table, nextId) && Inserted(old(table), table, drafts)
      ensures forall id :: id in table && id !in old(table) ==> IsQueued(table[id])
      ensures count == |table| - |old(table)|
    {
      count := 0;
      ghost var t := table;
      for i := 0 to |drafts|
        invariant Below(table, nextId) && Below(t, nextId) && Inserted(t, table, drafts[..i])
        invariant count == |table| - |t|
      {
        InsertOneMore(t, table, drafts[..i], drafts[i], nextId);
        assert drafts[..i + 1] == drafts[..i] + [drafts[i]];
        var created := CreateIgnoringDuplicate(drafts[i]);
        count := count + created;
      }
      assert drafts[..|drafts|] == drafts;
      NewRowsAreQueued(t, table, drafts);
    }

    /** One draft of it, unless its key is taken. */
    method CreateIgnoringDuplicate(draft: Draft) returns (created: nat)
      requires Below(table, nextId)
      modifies this
      ensures Below(table, nextId) && old(nextId) <= nextId
      ensures table == if HasKey(old(table), draft.key) then old(table) else old(table)[old(nextId) := RowOf(draft)]
      ensures created == |table| - |old(table)|
    {
      if HasKey(table, draft.key) {
        return 0;
      }
      ghost var keys := table.Keys;
      table := table[nextId := RowOf(draft)];
      assert table.Keys == keys + {nextId};
      nextId := nextId + 1;
      created := 1;
    }

    /** The lecture keeps only what somebody received or was given up, other
        lectures keep everything, and every key discarded is free to be written
        again. */
    method DeleteUnsentForSchedule(lecture: LectureId) returns (count: nat)
      modifies this`table
      ensures forall id :: id in table ==>
          !Unsent(table[id], lecture) && id in old(table) && table[id] == old(table)[id]
      ensures forall id :: id in old(table) ==> (id in table <==>
        (|| old(table)[id].key.lecture != lecture || old(table)[id].sentAt.Some?
         || old(table)[id].status == Sent || old(table)[id].status == Failed))
      ensures KeysUnique(old(table)) ==>
        forall id :: id in old(table) && Unsent(old(table)[id], lecture) ==> !HasKey(table, old(table)[id].key)
      ensures table == DeleteUnsentFor(old(table), lecture)
      ensures count == |old(table)| - |table|
    {
      var t := table;
      table := DeleteUnsentFor(t, lecture);
      SubsetCardinality(table.Keys, t.Keys);
      count := |t| - |table|;
    }

    /** The lecture has nothing left to send, but every key stays taken. */
    method CancelPendingForSchedule(lecture: LectureId)
      modifies this`table
      ensures forall id :: id in table && table[id].key.lecture == lecture ==> table[id].status != Pending
      ensures forall key :: HasKey(table, key) <==> HasKey(old(table), key)
      ensures OnlyItsPendingCancelled(old(table), table, lecture)
      ensures table == CancelPendingFor(old(table), lecture)
    {
      var t := table;
      table := CancelPendingFor(t, lecture);
      assert forall id :: id in t ==> table[id].key == t[id].key;
    }
  }
}
