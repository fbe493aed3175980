/** The gossip endpoint of a node: bounded inbox, push/pull, and the announcements of local changes. */
module Delegate {
  import opened Names
  import opened RecordStore
  import opened DockerRecords
  import opened AntiEntropy

  class ClusterDelegate {
    const records: Records
    var inbox: seq<Message>

    // History: every decoded message in arrival order, which of them found room, and those applied so far.
    ghost var received: seq<Message>
    ghost var kept: seq<bool>
    ghost var applied: seq<Message>

    ghost predicate Valid()
      reads this
    {
      && |inbox| <= 256
      && |kept| == |received|
      && Select(received, kept, true) == applied + inbox
    }

    constructor (records: Records)
      ensures Valid() && this.records == records
      ensures inbox == received == applied == []
    {
      this.records := records;
      inbox, received, kept, applied := [], [], [], [];
    }

    /** Nothing received is unaccounted for: it was applied, is queued, or was dropped. */
    lemma Conservation()
      requires Valid()
      ensures multiset(received) == multiset(applied) + multiset(inbox) + multiset(Select(received, kept, false))
      ensures |received| == |applied| + |inbox| + |Select(received, kept, false)|
    {
      SelectPartition(received, kept);
    }

    /** `payload` is what decoding the bytes gave; empty or malformed bytes give None. */
    method NotifyMsg(payload: Option<Message>)
      requires Valid()
      modifies this
      ensures Valid() && applied == old(applied)
      ensures payload.None? ==> inbox == old(inbox) && received == old(received) && kept == old(kept)
      ensures payload.Some? ==>
                && received == old(received) + [payload.value]
                && kept == old(kept) + [old(|inbox|) < 256]
                && inbox == old(inbox) + (if old(|inbox|) < 256 then [payload.value] else [])
    {
      match payload
      case None =>
      case Some(m) =>
        var room := |inbox| < INBOX_CAPACITY;
        SelectSnoc(received, kept, m, room, true);
        received, kept := received + [m], kept + [room];
        if room {
          inbox := inbox + [m];
        }
    }

    /** One turn of the background loop. */
    method ProcessNext()
      requires Valid()
      modifies this, records
      ensures Valid() && received == old(received) && kept == old(kept)
      ensures old(inbox) == [] ==> inbox == [] && applied == old(applied) && records.Value() == old(records.Value())
      ensures old(inbox) != [] ==>
                && inbox == old(inbox)[1..]
                && applied == old(applied) + [old(inbox)[0]]
                && records.Value() == Apply(old(records.Value()), old(inbox)[0])
    {
      if inbox != [] {
        var m := inbox[0];
        inbox, applied := inbox[1..], applied + [m];
        var _ := records.ApplyMessage(m);
      }
    }

    method LocalState() returns (state: State)
      ensures state == Export(records.Value())
    {
      state := records.GetAllWithMeta();
    }

    /** Walks the decoded state in an order the caller cannot choose; `order` reports it. */
    method MergeRemoteState(payload: Option<State>) returns (ghost order: seq<string>)
      modifies records
      ensures payload.None? ==> records.Value() == old(records.Value())
      ensures payload.Some? ==>
                && (forall h :: h in order <==> h in payload.value)
                && records.Value() == Run(old(records.Value()), MergeMessages(payload.value, order))
                && (NormalState(payload.value) ==> records.Value() == Merge(old(records.Value()), payload.value))
    {
      order := [];
      match payload
      case None =>
      case Some(state) =>
        var todo := state.Keys;
        while todo != {}
          invariant todo <= state.Keys
          invariant forall h :: h in order <==> h in state && h !in todo
          invariant records.Value() == Run(old(records.Value()), MergeMessages(state, order))
          decreases |todo|
        {
          var h :| h in todo;
          var m := Message(h, state[h].ip, Add, state[h].stamp);
          assert MergeMessages(state, order + [h]) == MergeMessages(state, order) + [m];
          RunSnoc(old(records.Value()), MergeMessages(state, order), m);
          order := order + [h];
          var _ := records.ApplyMessage(m);
          todo := todo - {h};
        }
        if NormalState(state) {
          MergeAnyOrder(old(records.Value()), state, order);
        }
    }
  }

  class ClusterManager {
    const node: string
    const records: Records
    var running: bool
    var broadcasts: seq<Message>

    constructor (node: string, records: Records)
      ensures this.node == node && this.records == records && running && broadcasts == []
    {
      this.node, this.records := node, records;
      running, broadcasts := true, [];
    }

    method NotifyRecordAdd(host: string, ip: string, time: int)
      modifies this, records
      ensures running == old(running)
      ensures
        var ms := if running then [Message(host, ip, Add, Stamp(time, node))] else [];
        records.Value() == Run(old(records.Value()), ms) && broadcasts == old(broadcasts) + ms
    {
      Announce(Message(host, ip, Add, Stamp(time, node)));
    }

    method NotifyRecordRemove(host: string, time: int)
      modifies this, records
      ensures running == old(running)
      ensures
        var ms := if running then [Message(host, "", Remove, Stamp(time, node))] else [];
        records.Value() == Run(old(records.Value()), ms) && broadcasts == old(broadcasts) + ms
    {
      Announce(Message(host, "", Remove, Stamp(time, node)));
    }

    method Announce(m: Message)
      modifies this, records
      ensures running == old(running)
      ensures
        var ms := if running then [m] else [];
        records.Value() == Run(old(records.Value()), ms) && broadcasts == old(broadcasts) + ms
    {
      if running {
        RunSnoc(records.Value(), [], m);
        assert [] + [m] == [m];
        var _ := records.ApplyMessage(m);
        broadcasts := broadcasts + [m];
      }
    }
  }
}
