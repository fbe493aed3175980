/** A node that announces what its watcher does, a peer that hears it, and gossip that interferes. */
module Replication {
  import opened Names
  import opened RecordStore
  import opened Watcher
  import AntiEntropy

  function TurnMessages(turn: Turn, ip: string, node: string): seq<Message> {
    RemoveMessages(turn.dropped, Stamp(turn.time, node)) + AddMessages(turn.added, ip, Stamp(turn.time, node))
  }

  /** What a handler announces: a removal of each dropped name, then an add of each added one, all under one stamp. */
  lemma TurnMessagesAre(turn: Turn, ip: string, node: string)
    ensures
      var ms, n := TurnMessages(turn, ip, node), |turn.dropped|;
      && |ms| == n + |turn.added|
      && (forall i | 0 <= i < |ms| :: ms[i].stamp == Stamp(turn.time, node))
      && (forall i | 0 <= i < n :: ms[i].action == Remove && ms[i].host == turn.dropped[i])
      && (forall i | n <= i < |ms| :: ms[i].action == Add && ms[i].host == turn.added[i - n] && ms[i].ip == ip)
  {
  }

  /** An undisturbed handler: plain removes, plain adds, then every change announced and applied again with a stamp. */
  function OriginTurn(s: Store, turn: Turn, ip: string, node: string): Store {
    Run(s.(data := ServeTurn(s.data, turn, ip)), TurnMessages(turn, ip, node))
  }

  function OriginFrom(s: Store, turns: seq<Turn>, ip: string, node: string): Store {
    if turns == [] then s
    else OriginTurn(OriginFrom(s, turns[..|turns| - 1], ip, node), turns[|turns| - 1], ip, node)
  }

  function Origin(turns: seq<Turn>, ip: string, node: string): Store { OriginFrom(EMPTY, turns, ip, node) }

  /** Everything announced, in issue order. */
  function Announcements(turns: seq<Turn>, ip: string, node: string): seq<Message> {
    if turns == [] then []
    else Announcements(turns[..|turns| - 1], ip, node) + TurnMessages(turns[|turns| - 1], ip, node)
  }

  /** A peer that starts empty and applies the announcements in issue order. */
  function Peer(turns: seq<Turn>, ip: string, node: string): Store {
    Run(EMPTY, Announcements(turns, ip, node))
  }

  // ---- A node as its handlers see it ----

  datatype NodeView = NodeView(tracked: Tracked, store: Store, sent: seq<Message>)

  /** A handler's turn on a node that announces under `node`, or does not announce. */
  function Handled(x: NodeView, tracked: Tracked, turn: Turn, ip: string, node: Option<string>): NodeView {
    match node
    case None => NodeView(tracked, x.store.(data := ServeTurn(x.store.data, turn, ip)), x.sent)
    case Some(n) => NodeView(tracked, OriginTurn(x.store, turn, ip, n), x.sent + TurnMessages(turn, ip, n))
  }

  function Enacted(x: NodeView, c: Change, ip: string, node: Option<string>): NodeView {
    if Silent(x.tracked, c) then x.(tracked := TrackedAfter(x.tracked, c))
    else Handled(x, TrackedAfter(x.tracked, c), TurnOf(x.tracked, c), ip, node)
  }

  function EnactedAll(x: NodeView, cs: seq<Change>, ip: string, node: Option<string>): NodeView {
    if cs == [] then x else Enacted(EnactedAll(x, cs[..|cs| - 1], ip, node), cs[|cs| - 1], ip, node)
  }

  lemma EnactedSnoc(x: NodeView, cs: seq<Change>, c: Change, ip: string, node: Option<string>)
    ensures EnactedAll(x, cs + [c], ip, node) == Enacted(EnactedAll(x, cs, ip, node), c, ip, node)
  {
    assert (cs + [c])[..|cs|] == cs;
  }

  predicate Follows(x: NodeView, w: Watch, ip: string, node: Option<string>) {
    && x.tracked == w.tracked
    && match node
       case None => x.store == Store(Serve(w.turns, ip), map[]) && x.sent == []
       case Some(n) => x.store == Origin(w.turns, ip, n) && x.sent == Announcements(w.turns, ip, n)
  }

  lemma FollowsStep(x: NodeView, w: Watch, c: Change, ip: string, node: Option<string>)
    requires Follows(x, w, ip, node)
    ensures Follows(Enacted(x, c, ip, node), Enact(w, c), ip, node)
  {
    var turn := TurnOf(w.tracked, c);
    assert (w.turns + [turn])[..|w.turns|] == w.turns;
  }

  /** A node whose handlers ran one after the other from the start: the values the results of this model speak of. */
  lemma {:induction false} NodeFollowsWatch(cs: seq<Change>, ip: string, node: Option<string>)
    ensures Follows(EnactedAll(NodeView(map[], EMPTY, []), cs, ip, node), After(cs), ip, node)
  {
    if cs == [] {
    } else {
      NodeFollowsWatch(cs[..|cs| - 1], ip, node);
      FollowsStep(EnactedAll(NodeView(map[], EMPTY, []), cs[..|cs| - 1], ip, node), After(cs[..|cs| - 1]),
                  cs[|cs| - 1], ip, node);
    }
  }

  lemma TurnClosedForm(s: Store, turn: Turn, ip: string, node: string)
    ensures
      var stamp := Stamp(turn.time, node);
      Run(s, TurnMessages(turn, ip, node)) ==
        AddedTo(RemovedFrom(s, Keys(turn.dropped), stamp), Keys(turn.added), ip, stamp)
  {
    var stamp := Stamp(turn.time, node);
    RunConcat(s, RemoveMessages(turn.dropped, stamp), AddMessages(turn.added, ip, stamp));
    RunRemoves(s, turn.dropped, stamp);
    RunAdds(RemovedFrom(s, Keys(turn.dropped), stamp), turn.added, ip, stamp);
  }

  predicate AllAt(s: Store, ip: string) { forall k | k in s.data :: s.data[k] == ip }

  lemma TurnAt(s: Store, turn: Turn, ip: string, node: string, k: string)
    ensures
      var t := Run(s, TurnMessages(turn, ip, node));
      var blocked := Blocked(s.meta, k, Stamp(turn.time, node));
      && (k in t.data <==>
            (k in s.data && (k !in Keys(turn.dropped) || blocked)) || (k in Keys(turn.added) && !blocked))
      && (k in t.data ==> t.data[k] == ip || (k in s.data && t.data[k] == s.data[k]))
  {
    TurnClosedForm(s, turn, ip, node);
  }

  /** The keys a peer cannot let go of: the removal is announced under a stamp that does not beat theirs. */
  function Stuck(p: Store, turn: Turn, node: string): set<string> {
    set k | k in Keys(turn.dropped) * p.data.Keys && k !in Keys(turn.added) &&
            Blocked(p.meta, k, Stamp(turn.time, node))
  }

  lemma OriginTurnData(s: Store, turn: Turn, ip: string, node: string)
    requires AllAt(s, ip)
    ensures OriginTurn(s, turn, ip, node).data == Constant((s.data.Keys - Keys(turn.dropped)) + Keys(turn.added), ip)
  {
    var t := OriginTurn(s, turn, ip, node);
    var keys := (s.data.Keys - Keys(turn.dropped)) + Keys(turn.added);
    forall k ensures (k in t.data <==> k in keys) && (k in t.data ==> t.data[k] == ip) {
      TurnAt(s.(data := ServeTurn(s.data, turn, ip)), turn, ip, node, k);
    }
  }

  lemma PeerTurnData(p: Store, turn: Turn, ip: string, node: string)
    requires AllAt(p, ip) && Settled(p)
    ensures Run(p, TurnMessages(turn, ip, node)).data ==
            Constant((p.data.Keys - Keys(turn.dropped)) + Keys(turn.added) + Stuck(p, turn, node), ip)
  {
    var t := Run(p, TurnMessages(turn, ip, node));
    var keys := (p.data.Keys - Keys(turn.dropped)) + Keys(turn.added) + Stuck(p, turn, node);
    forall k ensures (k in t.data <==> k in keys) && (k in t.data ==> t.data[k] == ip) {
      TurnAt(p, turn, ip, node, k);
      assert k in p.meta <==> k in p.data;
    }
  }

  /** One turn keeps origin and peer in step exactly when nothing is stuck. */
  lemma TurnReplicatesIff(s: Store, p: Store, turn: Turn, ip: string, node: string)
    requires s.data == p.data && AllAt(s, ip) && Settled(p)
    ensures OriginTurn(s, turn, ip, node).data == Run(p, TurnMessages(turn, ip, node)).data <==>
            Stuck(p, turn, node) == {}
  {
    OriginTurnData(s, turn, ip, node);
    PeerTurnData(p, turn, ip, node);
    var keys := (s.data.Keys - Keys(turn.dropped)) + Keys(turn.added);
    ConstantEqual(keys, keys + Stuck(p, turn, node), ip);
  }

  lemma PeerSnoc(turns: seq<Turn>, ip: string, node: string)
    requires turns != []
    ensures Peer(turns, ip, node) ==
            Run(Peer(turns[..|turns| - 1], ip, node), TurnMessages(turns[|turns| - 1], ip, node))
  {
    RunConcat(EMPTY, Announcements(turns[..|turns| - 1], ip, node), TurnMessages(turns[|turns| - 1], ip, node));
  }

  lemma {:induction false} PeerShape(turns: seq<Turn>, ip: string, node: string)
    ensures Settled(Peer(turns, ip, node)) && AllAt(Peer(turns, ip, node), ip)
  {
    RunKeepsShape(EMPTY, Announcements(turns, ip, node));
    if turns == [] {
    } else {
      PeerShape(turns[..|turns| - 1], ip, node);
      PeerSnoc(turns, ip, node);
      PeerTurnData(Peer(turns[..|turns| - 1], ip, node), turns[|turns| - 1], ip, node);
    }
  }

  predicate InStep(turns: seq<Turn>, ip: string, node: string) {
    Origin(turns, ip, node).data == Peer(turns, ip, node).data
  }

  lemma InStepNext(turns: seq<Turn>, ip: string, node: string)
    requires turns != [] && InStep(turns[..|turns| - 1], ip, node)
    ensures InStep(turns, ip, node) <==> Stuck(Peer(turns[..|turns| - 1], ip, node), turns[|turns| - 1], node) == {}
  {
    var init := turns[..|turns| - 1];
    PeerShape(init, ip, node);
    PeerSnoc(turns, ip, node);
    TurnReplicatesIff(Origin(init, ip, node), Peer(init, ip, node), turns[|turns| - 1], ip, node);
  }

  /** Origin and peer agree after every turn of a run exactly when no removal of the run gets stuck at the peer. */
  lemma {:induction false} ReplicationIsExactIff(turns: seq<Turn>, ip: string, node: string)
    ensures (forall n | 0 <= n <= |turns| :: InStep(turns[..n], ip, node)) <==>
            (forall i | 0 <= i < |turns| :: Stuck(Peer(turns[..i], ip, node), turns[i], node) == {})
  {
    if forall n | 0 <= n <= |turns| :: InStep(turns[..n], ip, node) {
      forall i | 0 <= i < |turns| ensures Stuck(Peer(turns[..i], ip, node), turns[i], node) == {} {
        assert turns[..i + 1][..i] == turns[..i];
        assert InStep(turns[..i], ip, node) && InStep(turns[..i + 1], ip, node);
        InStepNext(turns[..i + 1], ip, node);
      }
    }
    if forall i | 0 <= i < |turns| :: Stuck(Peer(turns[..i], ip, node), turns[i], node) == {} {
      forall n | 0 <= n <= |turns| ensures InStep(turns[..n], ip, node) { UnstuckInStep(turns, ip, node, n); }
    }
  }

  lemma {:induction false} UnstuckInStep(turns: seq<Turn>, ip: string, node: string, n: nat)
    requires n <= |turns|
    requires forall i | 0 <= i < n :: Stuck(Peer(turns[..i], ip, node), turns[i], node) == {}
    ensures InStep(turns[..n], ip, node)
  {
    if n == 0 {
      assert turns[..0] == [];
    } else {
      UnstuckInStep(turns, ip, node, n - 1);
      assert turns[..n][..n - 1] == turns[..n - 1];
      InStepNext(turns[..n], ip, node);
    }
  }

  // ---- Strictly increasing clocks ----

  predicate Increasing(turns: seq<Turn>) { forall i, j | 0 <= i < j < |turns| :: turns[i].time < turns[j].time }

  lemma {:induction false} PeerStampsAreOld(turns: seq<Turn>, ip: string, node: string, bound: int)
    requires forall i | 0 <= i < |turns| :: turns[i].time < bound
    ensures forall k | k in Peer(turns, ip, node).meta :: Peer(turns, ip, node).meta[k].time < bound
  {
    if turns == [] {
    } else {
      var init, turn := turns[..|turns| - 1], turns[|turns| - 1];
      PeerStampsAreOld(init, ip, node, bound);
      PeerSnoc(turns, ip, node);
      TurnClosedForm(Peer(init, ip, node), turn, ip, node);
    }
  }

  lemma IncreasingIsUnstuck(turns: seq<Turn>, ip: string, node: string, i: nat)
    requires Increasing(turns) && i < |turns|
    ensures Stuck(Peer(turns[..i], ip, node), turns[i], node) == {}
  {
    PeerStampsAreOld(turns[..i], ip, node, turns[i].time);
  }

  /**
   * For every sequence of start, stop and sync events whose handlers read increasing clocks: a fresh peer that hears
   * the announcements in issue order answers every lookup as the origin does, whatever the case of the name.
   */
  lemma ExactReplication(es: seq<Event>, ip: string, node: string, host: string)
    requires Increasing(After(AllChanges(es)).turns)
    ensures
      var turns := After(AllChanges(es)).turns;
      Lookup(Origin(turns, ip, node), host) == Lookup(Run(EMPTY, Announcements(turns, ip, node)), host)
  {
    var turns := After(AllChanges(es)).turns;
    forall i | 0 <= i < |turns| ensures Stuck(Peer(turns[..i], ip, node), turns[i], node) == {} {
      IncreasingIsUnstuck(turns, ip, node, i);
    }
    UnstuckInStep(turns, ip, node, |turns|);
    assert turns[..|turns|] == turns;
  }

  lemma OriginAlone(turn: Turn, ip: string, node: string)
    ensures Origin([turn], ip, node) == OriginTurn(EMPTY, turn, ip, node)
  {
    assert [turn][..0] == [];
    assert OriginFrom(EMPTY, [turn][..0], ip, node) == EMPTY;
    assert OriginFrom(EMPTY, [turn], ip, node) == OriginTurn(OriginFrom(EMPTY, [turn][..0], ip, node), turn, ip, node);
  }

  lemma PeerAlone(turn: Turn, ip: string, node: string)
    ensures Peer([turn], ip, node) == Run(EMPTY, TurnMessages(turn, ip, node))
  {
    assert [turn][..0] == [];
    PeerSnoc([turn], ip, node);
  }

  lemma StartAlone(host: string, ip: string, node: string, time: int)
    ensures Origin([Turn([], [host], time)], ip, node).data == map[Lower(host) := ip]
    ensures Peer([Turn([], [host], time)], ip, node) ==
            Store(map[Lower(host) := ip], map[Lower(host) := Stamp(time, node)])
  {
    var start, k := Turn([], [host], time), Lower(host);
    assert Keys([]) == {};
    KeysSnoc([host]);
    assert [host][..0] == [];
    OriginAlone(start, ip, node);
    OriginTurnData(EMPTY, start, ip, node);
    assert Constant(({} - {}) + {k}, ip) == map[k := ip];
    PeerAlone(start, ip, node);
    TurnClosedForm(EMPTY, start, ip, node);
    assert RemovedFrom(EMPTY, {}, Stamp(time, node)) == EMPTY;
    assert Unblocked(EMPTY, {k}, Stamp(time, node)) == {k};
  }

  lemma StartStopChanges(id: string, host: string, time: int, time': int)
    ensures AllChanges([Start(id, [host], time), Stop(id, time')]) == [Claim(id, [host], time), Release([id], time')]
  {
    var start, stop := Start(id, [host], time), Stop(id, time');
    assert [start, stop][..1] == [start] && [start][..0] == [];
    assert AllChanges([start]) == AllChanges([]) + [Claim(id, [host], time)];
  }

  lemma FirstClaim(id: string, host: string, time: int)
    ensures After([Claim(id, [host], time)]) == Watch(map[id := [host]], [Turn([], [host], time)])
  {
    var claim := Claim(id, [host], time);
    assert [claim][..0] == [] && [host][..0] == [];
    assert Minus([host], []) == Minus([], []) + [host];
    assert TurnOf(map[], claim) == Turn([], [host], time);
    assert After([claim]) == Enact(After([]), claim);
  }

  lemma StartStopTurns(id: string, host: string, time: int, time': int)
    ensures After(AllChanges([Start(id, [host], time), Stop(id, time')])).turns ==
            [Turn([], [host], time), Turn([host], [], time')]
  {
    var claim, release := Claim(id, [host], time), Release([id], time');
    StartStopChanges(id, host, time, time');
    FirstClaim(id, host, time);
    assert [claim, release][..1] == [claim];
    assert After([claim, release]) == Enact(After([claim]), release);
    assert [id][..0] == [] && NamesOfAll(map[id := [host]], [id]) == [host];
  }

  /** A container starts and stops: the peer hears of the stop exactly when its clock reading is the later one. */
  lemma StopIsHeardIff(id: string, host: string, ip: string, node: string, time: int, time': int)
    ensures
      var turns := After(AllChanges([Start(id, [host], time), Stop(id, time')])).turns;
      && Lookup(Origin(turns, ip, node), host) == None
      && Lookup(Peer(turns, ip, node), host) == if time < time' then None else Some(ip)
  {
    var start, stop := Turn([], [host], time), Turn([host], [], time');
    StartStopTurns(id, host, time, time');
    StartAlone(host, ip, node, time);
    assert [start, stop][..1] == [start];
    assert Keys([]) == {};
    KeysSnoc([host]);
    assert [host][..0] == [];
    OriginTurnData(Origin([start], ip, node), stop, ip, node);
    PeerSnoc([start, stop], ip, node);
    StampTotalOrder(Stamp(time, node), Stamp(time, node), Stamp(time, node));
    TurnAt(Peer([start], ip, node), stop, ip, node, Lower(host));
  }

  // ---- A stop is remembered at the origin ----

  /** An undisturbed stop takes the name off but keeps its stamp: the announced removal finds nothing to remove. */
  lemma StopKeepsStamp(s: Store, names: seq<string>, time: int, ip: string, node: string, host: string)
    requires host in names && Lower(host) in s.meta
    ensures
      var t := OriginTurn(s, Turn(names, [], time), ip, node);
      Lookup(t, host) == None && Lower(host) in t.meta && t.meta[Lower(host)] == s.meta[Lower(host)]
  {
    var turn, k := Turn(names, [], time), Lower(host);
    assert Keys([]) == {};
    assert k in Keys(names);
    TurnClosedForm(s.(data := ServeTurn(s.data, turn, ip)), turn, ip, node);
  }

  /** No add for k in ms beats the given stamp. */
  predicate Unbeaten(ms: seq<Message>, k: string, stamp: Stamp) {
    forall m | m in ms && AddFor(m, k) :: StampLe(m.stamp, stamp)
  }

  lemma {:induction false} StaysStopped(s: Store, ms: seq<Message>, k: string)
    requires k !in s.data && k in s.meta && Unbeaten(ms, k, s.meta[k])
    ensures k !in Run(s, ms).data && k in Run(s, ms).meta && Run(s, ms).meta[k] == s.meta[k]
  {
    if ms == [] {
    } else {
      assert forall m | m in ms[..|ms| - 1] :: m in ms;
      StaysStopped(s, ms[..|ms| - 1], k);
    }
  }

  lemma {:induction false} ReturnsWhenBeaten(s: Store, ms: seq<Message>, k: string) returns (n: nat)
    requires k !in s.data && k in s.meta && !Unbeaten(ms, k, s.meta[k])
    ensures n <= |ms| && k in Run(s, ms[..n]).data
  {
    var l := |ms| - 1;
    assert forall m | m in ms :: m in ms[..l] || m == ms[l];
    if Unbeaten(ms[..l], k, s.meta[k]) {
      StaysStopped(s, ms[..l], k);
      n := |ms|;
      assert ms[..n] == ms;
    } else {
      n := ReturnsWhenBeaten(s, ms[..l], k);
      assert ms[..l][..n] == ms[..n];
    }
  }

  /** From then on the name stays away through any gossip and merges, exactly until an add beats the kept stamp. */
  lemma StoppedUntilBeaten(s: Store, ms: seq<Message>, k: string)
    requires k !in s.data && k in s.meta
    ensures (forall n | 0 <= n <= |ms| :: k !in Run(s, ms[..n]).data) <==> Unbeaten(ms, k, s.meta[k])
  {
    if Unbeaten(ms, k, s.meta[k]) {
      forall n | 0 <= n <= |ms| ensures k !in Run(s, ms[..n]).data {
        assert forall m | m in ms[..n] :: m in ms;
        StaysStopped(s, ms[..n], k);
      }
    } else {
      var n := ReturnsWhenBeaten(s, ms, k);
      assert 0 <= n <= |ms| && k in Run(s, ms[..n]).data;
    }
  }

  lemma OriginStamp(host: string, ip: string, node: string, time: int)
    ensures
      var s, k := Origin([Turn([], [host], time)], ip, node), Lower(host);
      k in s.meta && s.meta[k] == Stamp(time, node)
  {
    var start, k := Turn([], [host], time), Lower(host);
    assert Keys([]) == {};
    KeysSnoc([host]);
    assert [host][..0] == [];
    OriginAlone(start, ip, node);
    TurnClosedForm(EMPTY.(data := ServeTurn(map[], start, ip)), start, ip, node);
  }

  /**
   * A container starts and stops, and the announcement of the stop is lost on the way to a peer: no push/pull exchange
   * tells the peer, because the origin refuses the peer's record and exports nothing of its own.
   */
  lemma LostStopIsNotRecovered(id: string, host: string, ip: string, node: string, time: int, time': int)
    ensures
      var turns := After(AllChanges([Start(id, [host], time), Stop(id, time')])).turns;
      && |turns| == 2
      && var origin, peer := Origin(turns, ip, node), Peer(turns[..1], ip, node);
      && AntiEntropy.Shuns(origin, peer, Lower(host))
      && Export(AntiEntropy.Join(origin, peer)) != Export(AntiEntropy.Join(peer, origin))
      && Lookup(AntiEntropy.Join(origin, peer), host) == None
      && Lookup(AntiEntropy.Join(peer, origin), host) == Some(ip)
  {
    var start, stop, k := Turn([], [host], time), Turn([host], [], time'), Lower(host);
    StartStopTurns(id, host, time, time');
    assert [start, stop][..1] == [start];
    StartAlone(host, ip, node, time);
    OriginStamp(host, ip, node, time);
    StopKeepsStamp(Origin([start], ip, node), [host], time', ip, node, host);
    var origin, peer := Origin([start, stop], ip, node), Peer([start], ip, node);
    StampTotalOrder(Stamp(time, node), Stamp(time, node), Stamp(time, node));
    assert AntiEntropy.Shuns(origin, peer, k) && AntiEntropy.Conflicts(origin, peer, k);
    AntiEntropy.ExchangeEqualisesIff(origin, peer);
    AntiEntropy.MergeAt(origin, Export(peer), k);
    AntiEntropy.MergeAt(peer, Export(origin), k);
  }

  // ---- Every served name is stamped, or is about to be ----

  /** What the watcher still has to do before its current handler ends. */
  datatype Task = PutPlain(host: string) | DropPlain(host: string) | Announce(m: Message)

  function Drops(hosts: seq<string>): seq<Task> {
    seq(|hosts|, i requires 0 <= i < |hosts| => DropPlain(hosts[i]))
  }

  function Puts(hosts: seq<string>): seq<Task> {
    seq(|hosts|, i requires 0 <= i < |hosts| => PutPlain(hosts[i]))
  }

  function Announces(ms: seq<Message>): seq<Task> {
    seq(|ms|, i requires 0 <= i < |ms| => Announce(ms[i]))
  }

  function Tasks(turn: Turn, ip: string, node: string): seq<Task> {
    Drops(turn.dropped) + Puts(turn.added) + Announces(TurnMessages(turn, ip, node))
  }

  datatype Busy = Busy(store: Store, todo: seq<Task>)

  /** Gossip, merged entries and the watcher's own tasks, in any interleaving. */
  datatype Move = Begin(turn: Turn) | Work | Gossip(m: Message)

  function Perform(s: Store, task: Task, ip: string): Store {
    match task
    case PutPlain(host) => PlainAdd(s, host, ip)
    case DropPlain(host) => PlainRemove(s, host)
    case Announce(m) => Apply(s, m)
  }

  function Make(b: Busy, move: Move, ip: string, node: string): Busy {
    match move
    case Begin(turn) => if b.todo == [] then Busy(b.store, Tasks(turn, ip, node)) else b
    case Work => if b.todo == [] then b else Busy(Perform(b.store, b.todo[0], ip), b.todo[1..])
    case Gossip(m) => Busy(Apply(b.store, m), b.todo)
  }

  function MakeAll(moves: seq<Move>, ip: string, node: string): Busy {
    if moves == [] then Busy(EMPTY, [])
    else Make(MakeAll(moves[..|moves| - 1], ip, node), moves[|moves| - 1], ip, node)
  }

  function PerformAll(s: Store, todo: seq<Task>, ip: string): Store {
    if todo == [] then s else Perform(PerformAll(s, todo[..|todo| - 1], ip), todo[|todo| - 1], ip)
  }

  lemma {:induction false} PerformConcat(s: Store, a: seq<Task>, b: seq<Task>, ip: string)
    ensures PerformAll(s, a + b, ip) == PerformAll(PerformAll(s, a, ip), b, ip)
    decreases |b|
  {
    if b == [] {
      assert a + b == a;
    } else {
      assert (a + b)[..|a + b| - 1] == a + b[..|b| - 1];
      PerformConcat(s, a, b[..|b| - 1], ip);
    }
  }

  lemma {:induction false} PerformDrops(s: Store, hosts: seq<string>, ip: string)
    ensures PerformAll(s, Drops(hosts), ip) == s.(data := s.data - Keys(hosts))
  {
    if hosts == [] {
      assert Keys(hosts) == {};
    } else {
      var n := |hosts| - 1;
      assert Drops(hosts)[..n] == Drops(hosts[..n]);
      PerformDrops(s, hosts[..n], ip);
      KeysSnoc(hosts);
    }
  }

  lemma {:induction false} PerformPuts(s: Store, hosts: seq<string>, ip: string)
    ensures PerformAll(s, Puts(hosts), ip) == s.(data := s.data + Constant(Keys(hosts), ip))
  {
    if hosts == [] {
      assert Keys(hosts) == {};
    } else {
      var n := |hosts| - 1;
      assert Puts(hosts)[..n] == Puts(hosts[..n]);
      PerformPuts(s, hosts[..n], ip);
      KeysSnoc(hosts);
      ConstantSnoc(s.data, Keys(hosts[..n]), Lower(hosts[n]), ip);
    }
  }

  lemma {:induction false} PerformAnnouncements(s: Store, ms: seq<Message>, ip: string)
    ensures PerformAll(s, Announces(ms), ip) == Run(s, ms)
  {
    if ms == [] {
    } else {
      assert Announces(ms)[..|ms| - 1] == Announces(ms[..|ms| - 1]);
      PerformAnnouncements(s, ms[..|ms| - 1], ip);
    }
  }

  /** Without interference the separate tasks of a handler amount to the turn of the replication results. */
  lemma TasksMakeTurn(s: Store, turn: Turn, ip: string, node: string)
    ensures PerformAll(s, Tasks(turn, ip, node), ip) == OriginTurn(s, turn, ip, node)
  {
    var ms := TurnMessages(turn, ip, node);
    PerformConcat(s, Drops(turn.dropped) + Puts(turn.added), Announces(ms), ip);
    PerformConcat(s, Drops(turn.dropped), Puts(turn.added), ip);
    PerformDrops(s, turn.dropped, ip);
    PerformPuts(s.(data := s.data - Keys(turn.dropped)), turn.added, ip);
    PerformAnnouncements(s.(data := ServeTurn(s.data, turn, ip)), ms, ip);
  }

  /** An add of k is still to be announced, at position `from` of the tasks or later. */
  predicate Due(todo: seq<Task>, k: string, from: nat) {
    exists i | from <= i < |todo| :: todo[i].Announce? && AddFor(todo[i].m, k)
  }

  /** Every plain add still to come is followed by its announcement. */
  predicate WellPlanned(todo: seq<Task>) {
    forall i | 0 <= i < |todo| && todo[i].PutPlain? :: Due(todo, Lower(todo[i].host), i + 1)
  }

  predicate StampedOrDue(b: Busy) {
    forall k | k in b.store.data :: k in b.store.meta || Due(b.todo, k, 0)
  }

  lemma TasksAreWellPlanned(turn: Turn, ip: string, node: string)
    ensures WellPlanned(Tasks(turn, ip, node))
  {
    var todo, d, a := Tasks(turn, ip, node), |turn.dropped|, |turn.added|;
    forall i | 0 <= i < |todo| && todo[i].PutPlain? ensures Due(todo, Lower(todo[i].host), i + 1) {
      assert d <= i < d + a && todo[i].host == turn.added[i - d];
      var j := d + a + d + (i - d);
      assert todo[j] == Announce(TurnMessages(turn, ip, node)[d + (i - d)]);
      assert AddFor(todo[j].m, Lower(todo[i].host));
    }
  }

  lemma WorkKeeps(b: Busy, ip: string)
    requires b.todo != [] && WellPlanned(b.todo) && StampedOrDue(b)
    ensures
      var c := Busy(Perform(b.store, b.todo[0], ip), b.todo[1..]);
      WellPlanned(c.todo) && StampedOrDue(c)
  {
    var c := Busy(Perform(b.store, b.todo[0], ip), b.todo[1..]);
    forall k, from: nat | from > 0 && Due(b.todo, k, from) ensures Due(c.todo, k, from - 1) {
      var i :| from <= i < |b.todo| && b.todo[i].Announce? && AddFor(b.todo[i].m, k);
      assert c.todo[i - 1] == b.todo[i];
    }
    forall i | 0 <= i < |c.todo| && c.todo[i].PutPlain? ensures Due(c.todo, Lower(c.todo[i].host), i + 1) {
      assert b.todo[i + 1] == c.todo[i];
      assert Due(b.todo, Lower(b.todo[i + 1].host), i + 2);
    }
    forall k | k in c.store.data ensures k in c.store.meta || Due(c.todo, k, 0) {
      if b.todo[0].PutPlain? && Lower(b.todo[0].host) == k {
        assert Due(b.todo, Lower(b.todo[0].host), 1);
      } else if b.todo[0].Announce? && AddFor(b.todo[0].m, k) {
        assert k in c.store.meta;
      } else {
        assert k in b.store.data;
        if k !in c.store.meta {
          assert Due(b.todo, k, 0);
          assert Due(b.todo, k, 1);
        }
      }
    }
  }

  /** In every interleaving of the watcher with gossip and merges. */
  lemma {:induction false} ServedIsStampedOrDue(moves: seq<Move>, ip: string, node: string)
    ensures StampedOrDue(MakeAll(moves, ip, node)) && WellPlanned(MakeAll(moves, ip, node).todo)
  {
    if moves == [] {
    } else {
      var b, move := MakeAll(moves[..|moves| - 1], ip, node), moves[|moves| - 1];
      ServedIsStampedOrDue(moves[..|moves| - 1], ip, node);
      match move
      case Begin(turn) => TasksAreWellPlanned(turn, ip, node);
      case Work => if b.todo != [] { WorkKeeps(b, ip); }
      case Gossip(m) =>
    }
  }
}
