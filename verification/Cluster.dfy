/**
 * A cluster on the stamped path: any number of nodes announce adds and removes, the network loses, duplicates and
 * reorders messages and whole states, merges apply one entry at a time, and exports load data and stamps separately.
 */
module Cluster {
  import opened Names
  import opened RecordStore
  import opened AntiEntropy

  /** `before` is the store as it was just before its latest change. */
  datatype Node = Node(store: Store, before: Store, inbox: seq<Message>)

  /** An export that has loaded its node's data and not yet its stamps. */
  datatype Half = Half(node: string, data: map<string, string>)

  datatype Announcement = Announcement(origin: string, m: Message)

  datatype Cluster = Cluster(nodes: map<string, Node>, wire: set<Message>, states: set<State>, halves: set<Half>,
                             announced: seq<Announcement>)

  const INIT := Cluster(map[], {}, {}, {}, [])

  datatype Step =
    | Boot(n: string)
    | NotifyAdd(n: string, host: string, ip: string, time: int)
    | NotifyRemove(n: string, host: string, time: int)
    | Receive(n: string, m: Message)
    | Process(n: string)
    | LoadData(n: string)
    | LoadMeta(half: Half, early: bool)
    | MergeOne(n: string, state: State, host: string)
    | LoseMessage(m: Message)
    | LoseState(state: State)
    | LoseHalf(half: Half)

  predicate Enabled(c: Cluster, step: Step) {
    match step
    case Boot(n) => n !in c.nodes && n != ""
    case NotifyAdd(n, _, _, _) => n in c.nodes
    case NotifyRemove(n, _, _) => n in c.nodes
    case Receive(n, m) => n in c.nodes && m in c.wire
    case Process(n) => n in c.nodes && c.nodes[n].inbox != []
    case LoadData(n) => n in c.nodes
    case LoadMeta(half, _) => half in c.halves && half.node in c.nodes
    case MergeOne(n, state, host) => n in c.nodes && state in c.states && host in state
    case LoseMessage(_) => true
    case LoseState(_) => true
    case LoseHalf(_) => true
  }

  function Deliver(node: Node, m: Message): Node {
    Node(Apply(node.store, m), node.store, node.inbox)
  }

  function Announce(c: Cluster, n: string, m: Message): Cluster
    requires n in c.nodes
  {
    c.(nodes := c.nodes[n := Deliver(c.nodes[n], m)], wire := c.wire + {m},
       announced := c.announced + [Announcement(n, m)])
  }

  /** The store whose stamps the second load of an export sees: while a write is under way, still the old one. */
  function Seen(node: Node, early: bool): Store {
    if early then node.before else node.store
  }

  function Fire(c: Cluster, step: Step): Cluster
    requires Enabled(c, step)
  {
    match step
    case Boot(n) => c.(nodes := c.nodes[n := Node(EMPTY, EMPTY, [])])
    case NotifyAdd(n, host, ip, time) => Announce(c, n, Message(host, ip, Add, Stamp(time, n)))
    case NotifyRemove(n, host, time) => Announce(c, n, Message(host, "", Remove, Stamp(time, n)))
    case Receive(n, m) =>
      var node := c.nodes[n];
      if |node.inbox| < INBOX_CAPACITY then c.(nodes := c.nodes[n := node.(inbox := node.inbox + [m])]) else c
    case Process(n) =>
      var node := c.nodes[n];
      c.(nodes := c.nodes[n := Deliver(node.(inbox := node.inbox[1..]), node.inbox[0])])
    case LoadData(n) => c.(halves := c.halves + {Half(n, c.nodes[n].store.data)})
    case LoadMeta(half, early) =>
      c.(states := c.states + {Combine(half.data, Seen(c.nodes[half.node], early).meta)})
    case MergeOne(n, state, host) =>
      c.(nodes := c.nodes[n := Deliver(c.nodes[n], Message(host, state[host].ip, Add, state[host].stamp))])
    case LoseMessage(m) => c.(wire := c.wire - {m})
    case LoseState(state) => c.(states := c.states - {state})
    case LoseHalf(half) => c.(halves := c.halves - {half})
  }

  function ExecFrom(c: Cluster, steps: seq<Step>): Option<Cluster> {
    if steps == [] then Some(c)
    else
      var before := ExecFrom(c, steps[..|steps| - 1]);
      if before.Some? && Enabled(before.value, steps[|steps| - 1])
      then Some(Fire(before.value, steps[|steps| - 1])) else None
  }

  // ---- Stable absence ----

  ghost predicate Without(node: Node, k: string) {
    k !in node.store.data && forall m | m in node.inbox :: !AddFor(m, k)
  }

  /** k is served nowhere, and nothing queued, on the wire or half exported could bring it back. */
  ghost predicate Extinct(c: Cluster, k: string) {
    && (forall n | n in c.nodes :: Without(c.nodes[n], k))
    && (forall m | m in c.wire :: !AddFor(m, k))
    && (forall state | state in c.states :: forall h | h in state :: Lower(h) != k)
    && (forall half | half in c.halves :: forall h | h in half.data :: Lower(h) != k)
  }

  ghost predicate AllNormal(c: Cluster) { forall n | n in c.nodes :: Normal(c.nodes[n].store) }

  lemma ApplyKeepsNormal(s: Store, m: Message)
    requires Normal(s)
    ensures Normal(Apply(s, m))
  {
    LowerIdempotent(m.host);
  }

  lemma NormalStep(c: Cluster, step: Step)
    requires AllNormal(c) && Enabled(c, step)
    ensures AllNormal(Fire(c, step))
  {
    match step
    case NotifyAdd(n, host, ip, time) => ApplyKeepsNormal(c.nodes[n].store, Message(host, ip, Add, Stamp(time, n)));
    case NotifyRemove(n, host, time) => ApplyKeepsNormal(c.nodes[n].store, Message(host, "", Remove, Stamp(time, n)));
    case Process(n) => ApplyKeepsNormal(c.nodes[n].store, c.nodes[n].inbox[0]);
    case MergeOne(n, state, host) =>
      ApplyKeepsNormal(c.nodes[n].store, Message(host, state[host].ip, Add, state[host].stamp));
    case _ =>
  }

  lemma {:induction false} ReachableIsNormal(steps: seq<Step>)
    requires ExecFrom(INIT, steps).Some?
    ensures AllNormal(ExecFrom(INIT, steps).value)
  {
    if steps == [] {
    } else {
      ReachableIsNormal(steps[..|steps| - 1]);
      NormalStep(ExecFrom(INIT, steps[..|steps| - 1]).value, steps[|steps| - 1]);
    }
  }

  lemma ExtinctStep(c: Cluster, step: Step, k: string)
    requires Extinct(c, k) && AllNormal(c) && Enabled(c, step)
    requires step.NotifyAdd? ==> Lower(step.host) != k
    ensures Extinct(Fire(c, step), k) && AllNormal(Fire(c, step))
  {
    NormalStep(c, step);
    var d := Fire(c, step);
    forall n | n in d.nodes ensures Without(d.nodes[n], k) { WithoutStep(c, step, k, n); }
    if step.LoadData? { assert Without(c.nodes[step.n], k); }
  }

  lemma WithoutStep(c: Cluster, step: Step, k: string, n: string)
    requires Extinct(c, k) && Enabled(c, step) && n in Fire(c, step).nodes
    requires step.NotifyAdd? ==> Lower(step.host) != k
    ensures Without(Fire(c, step).nodes[n], k)
  {
    if n in c.nodes { assert Without(c.nodes[n], k); }
    if step.Process? && n == step.n { assert c.nodes[n].inbox[0] in c.nodes[n].inbox; }
  }

  lemma {:induction false} ExtinctRun(c: Cluster, steps: seq<Step>, k: string)
    requires Extinct(c, k) && AllNormal(c) && ExecFrom(c, steps).Some?
    requires forall i | 0 <= i < |steps| && steps[i].NotifyAdd? :: Lower(steps[i].host) != k
    ensures var d := ExecFrom(c, steps).value; Extinct(d, k) && AllNormal(d)
    decreases |steps|
  {
    if steps == [] {
    } else {
      ExtinctRun(c, steps[..|steps| - 1], k);
      ExtinctStep(ExecFrom(c, steps[..|steps| - 1]).value, steps[|steps| - 1], k);
    }
  }

  /** Once extinct, a name stays away from every node until some node announces it again. */
  lemma AbsenceIsStable(past: seq<Step>, future: seq<Step>, k: string)
    requires ExecFrom(INIT, past).Some? && Extinct(ExecFrom(INIT, past).value, k)
    requires ExecFrom(ExecFrom(INIT, past).value, future).Some?
    requires forall i | 0 <= i < |future| && future[i].NotifyAdd? :: Lower(future[i].host) != k
    ensures
      var c := ExecFrom(ExecFrom(INIT, past).value, future).value;
      forall n, host | n in c.nodes && Lower(host) == k :: Lookup(c.nodes[n].store, host) == None
  {
    ReachableIsNormal(past);
    ExtinctRun(ExecFrom(INIT, past).value, future, k);
    var c := ExecFrom(ExecFrom(INIT, past).value, future).value;
    assert forall n | n in c.nodes :: Without(c.nodes[n], k);
  }

  // ---- Provenance ----

  /** `origin` itself announced an add of k with this address, and with this stamp. */
  predicate AddOf(a: Announcement, k: string) { AddFor(a.m, k) && a.m.stamp.node == a.origin }

  ghost predicate Genuine(c: Cluster, k: string, ip: string, stamp: Stamp) {
    exists a | a in c.announced :: AddOf(a, k) && a.m.ip == ip && a.m.stamp == stamp
  }

  ghost predicate KnownIp(c: Cluster, k: string, ip: string) {
    exists a | a in c.announced :: AddOf(a, k) && a.m.ip == ip
  }

  /** Announced for k, or the zero stamp that an export reports for a name whose stamp is gone. */
  ghost predicate KnownStamp(c: Cluster, k: string, stamp: Stamp) {
    stamp == NO_STAMP || exists a | a in c.announced :: AddOf(a, k) && a.m.stamp == stamp
  }

  ghost predicate KnownStore(c: Cluster, s: Store) {
    (forall k | k in s.data :: KnownIp(c, k, s.data[k])) && (forall k | k in s.meta :: KnownStamp(c, k, s.meta[k]))
  }

  /** An add whose address and stamp were each announced for its name. */
  ghost predicate PartsOk(c: Cluster, m: Message) {
    m.action == Add ==> KnownIp(c, Key(m), m.ip) && KnownStamp(c, Key(m), m.stamp)
  }

  ghost predicate MessageOk(c: Cluster, m: Message) { m.action == Add ==> Genuine(c, Key(m), m.ip, m.stamp) }

  ghost predicate NodeOk(c: Cluster, node: Node) {
    KnownStore(c, node.store) && KnownStore(c, node.before) && forall m | m in node.inbox :: MessageOk(c, m)
  }

  ghost predicate StateOk(c: Cluster, state: State) {
    forall h | h in state :: KnownIp(c, Lower(h), state[h].ip) && KnownStamp(c, Lower(h), state[h].stamp)
  }

  ghost predicate HalfOk(c: Cluster, half: Half) {
    forall k | k in half.data :: Lower(k) == k && KnownIp(c, k, half.data[k])
  }

  /** Addresses stored or on the way were announced; so were stamps, or they are zero; maybe not together. */
  ghost predicate PartsKnown(c: Cluster) {
    && AllNormal(c)
    && (forall n | n in c.nodes :: NodeOk(c, c.nodes[n]))
    && (forall m | m in c.wire :: MessageOk(c, m))
    && (forall state | state in c.states :: StateOk(c, state))
    && (forall half | half in c.halves :: HalfOk(c, half))
  }

  lemma MoreAnnounced(c: Cluster, d: Cluster)
    requires c.announced <= d.announced
    ensures forall k, ip, stamp :: Genuine(c, k, ip, stamp) ==> Genuine(d, k, ip, stamp)
    ensures forall k, ip :: KnownIp(c, k, ip) ==> KnownIp(d, k, ip)
    ensures forall k, stamp :: KnownStamp(c, k, stamp) ==> KnownStamp(d, k, stamp)
    ensures forall m :: MessageOk(c, m) ==> MessageOk(d, m)
  {
    assert forall a | a in c.announced :: a in d.announced;
  }

  lemma MorePartsOk(c: Cluster, d: Cluster)
    requires c.announced <= d.announced
    ensures forall m :: MessageOk(c, m) ==> MessageOk(d, m)
    ensures forall node :: NodeOk(c, node) ==> NodeOk(d, node)
    ensures forall state :: StateOk(c, state) ==> StateOk(d, state)
    ensures forall half :: HalfOk(c, half) ==> HalfOk(d, half)
  {
    MoreAnnounced(c, d);
  }

  lemma DeliverOk(c: Cluster, node: Node, m: Message)
    requires NodeOk(c, node) && PartsOk(c, m)
    ensures NodeOk(c, Deliver(node, m))
  {
  }

  lemma AnnouncedIsGenuine(c: Cluster, n: string, m: Message)
    requires n in c.nodes && m.stamp.node == n
    ensures MessageOk(Announce(c, n, m), m) && PartsOk(Announce(c, n, m), m)
  {
    var d := Announce(c, n, m);
    assert d.announced[|c.announced|] == Announcement(n, m);
    assert Announcement(n, m) in d.announced;
  }

  lemma PartsNodeStep(c: Cluster, step: Step, n: string)
    requires PartsKnown(c) && Enabled(c, step) && n in Fire(c, step).nodes
    ensures NodeOk(Fire(c, step), Fire(c, step).nodes[n])
  {
    var d := Fire(c, step);
    if n in c.nodes {
      var node := c.nodes[n];
      assert NodeOk(c, node);
      assert NodeOk(d, node) by { MorePartsOk(c, d); }
      match step
      case NotifyAdd(x, host, ip, time) =>
        if x == n {
          AnnouncedIsGenuine(c, n, Message(host, ip, Add, Stamp(time, n)));
          DeliverOk(d, node, Message(host, ip, Add, Stamp(time, n)));
        }
      case NotifyRemove(x, host, time) =>
        if x == n { DeliverOk(d, node, Message(host, "", Remove, Stamp(time, n))); }
      case Receive(x, m) =>
        assert MessageOk(d, m) by { MorePartsOk(c, d); }
      case Process(x) =>
        if x == n {
          assert NodeOk(d, node.(inbox := node.inbox[1..])) && MessageOk(d, node.inbox[0]);
          DeliverOk(d, node.(inbox := node.inbox[1..]), node.inbox[0]);
        }
      case MergeOne(x, state, host) =>
        assert StateOk(c, state);
        assert StateOk(d, state) by { MorePartsOk(c, d); }
        if x == n { DeliverOk(d, node, Message(host, state[host].ip, Add, state[host].stamp)); }
      case _ =>
    }
  }

  lemma ExportOk(c: Cluster, half: Half, node: Node, early: bool)
    requires HalfOk(c, half) && NodeOk(c, node)
    ensures StateOk(c, Combine(half.data, Seen(node, early).meta))
  {
  }

  lemma PartsInTransitStep(c: Cluster, step: Step)
    requires PartsKnown(c) && Enabled(c, step)
    ensures
      var d := Fire(c, step);
      && (forall m | m in d.wire :: MessageOk(d, m))
      && (forall state | state in d.states :: StateOk(d, state))
      && (forall half | half in d.halves :: HalfOk(d, half))
  {
    var d := Fire(c, step);
    MorePartsOk(c, d);
    match step
    case NotifyAdd(n, host, ip, time) => AnnouncedIsGenuine(c, n, Message(host, ip, Add, Stamp(time, n)));
    case LoadData(n) => assert NodeOk(c, c.nodes[n]) && Normal(c.nodes[n].store);
    case LoadMeta(half, early) =>
      assert NodeOk(c, c.nodes[half.node]) && HalfOk(c, half);
      ExportOk(c, half, c.nodes[half.node], early);
    case _ =>
  }

  lemma PartsStep(c: Cluster, step: Step)
    requires PartsKnown(c) && Enabled(c, step)
    ensures PartsKnown(Fire(c, step))
  {
    var d := Fire(c, step);
    NormalStep(c, step);
    PartsInTransitStep(c, step);
    forall n | n in d.nodes ensures NodeOk(d, d.nodes[n]) { PartsNodeStep(c, step, n); }
  }

  /** In every reachable state each stored address was announced for its name, and each stored stamp was or is zero. */
  lemma {:induction false} PartsAreAlwaysKnown(steps: seq<Step>)
    requires ExecFrom(INIT, steps).Some?
    ensures PartsKnown(ExecFrom(INIT, steps).value)
  {
    if steps == [] {
    } else {
      PartsAreAlwaysKnown(steps[..|steps| - 1]);
      PartsStep(ExecFrom(INIT, steps[..|steps| - 1]).value, steps[|steps| - 1]);
    }
  }

  // ---- Address and stamp together ----

  ghost predicate GenuineStore(c: Cluster, s: Store) {
    Settled(s) && forall k | k in s.data :: Genuine(c, k, s.data[k], s.meta[k])
  }

  ghost predicate GenuineNode(c: Cluster, node: Node) {
    GenuineStore(c, node.store) && GenuineStore(c, node.before) && forall m | m in node.inbox :: MessageOk(c, m)
  }

  ghost predicate GenuineState(c: Cluster, state: State) {
    forall h | h in state :: Genuine(c, Lower(h), state[h].ip, state[h].stamp)
  }

  ghost predicate NodesGenuine(c: Cluster) {
    (forall n | n in c.nodes :: GenuineNode(c, c.nodes[n])) && (forall m | m in c.wire :: MessageOk(c, m))
  }

  ghost predicate AllGenuine(c: Cluster) {
    NodesGenuine(c) && forall state | state in c.states :: GenuineState(c, state)
  }

  /** What the first load of an export saw for k is still there, unchanged, when the second load happens. */
  predicate UntornAt(s: Store, half: Half, k: string) {
    k in half.data && k in s.data && s.data[k] == half.data[k]
  }

  predicate Untorn(c: Cluster, half: Half, early: bool)
    requires half.node in c.nodes
  {
    forall k | k in half.data :: UntornAt(Seen(c.nodes[half.node], early), half, k)
  }

  predicate Quiet(c: Cluster, step: Step) {
    step.LoadMeta? && step.half.node in c.nodes ==> Untorn(c, step.half, step.early)
  }

  lemma MoreGenuine(c: Cluster, d: Cluster)
    requires c.announced <= d.announced
    ensures forall m :: MessageOk(c, m) ==> MessageOk(d, m)
    ensures forall node :: GenuineNode(c, node) ==> GenuineNode(d, node)
    ensures forall state :: GenuineState(c, state) ==> GenuineState(d, state)
  {
    MoreAnnounced(c, d);
  }

  function EntryMessage(state: State, host: string): Message
    requires host in state
  {
    Message(host, state[host].ip, Add, state[host].stamp)
  }

  /** A merge that takes effect. */
  predicate Takes(c: Cluster, step: Step) {
    && step.MergeOne? && step.n in c.nodes && step.host in step.state
    && Accepts(c.nodes[step.n].store, EntryMessage(step.state, step.host))
  }

  lemma DeliverGenuine(c: Cluster, node: Node, m: Message)
    requires GenuineNode(c, node) && (Accepts(node.store, m) ==> MessageOk(c, m))
    ensures GenuineNode(c, Deliver(node, m))
  {
  }

  lemma GenuineNodeStep(c: Cluster, step: Step, n: string)
    requires NodesGenuine(c) && Enabled(c, step) && n in Fire(c, step).nodes
    requires Takes(c, step) ==> MessageOk(c, EntryMessage(step.state, step.host))
    ensures GenuineNode(Fire(c, step), Fire(c, step).nodes[n])
  {
    var d := Fire(c, step);
    MoreGenuine(c, d);
    if n in c.nodes {
      var node := c.nodes[n];
      assert GenuineNode(c, node);
      match step
      case NotifyAdd(x, host, ip, time) =>
        if x == n {
          AnnouncedIsGenuine(c, n, Message(host, ip, Add, Stamp(time, n)));
          DeliverGenuine(d, node, Message(host, ip, Add, Stamp(time, n)));
        }
      case NotifyRemove(x, host, time) =>
        if x == n { DeliverGenuine(d, node, Message(host, "", Remove, Stamp(time, n))); }
      case Process(x) =>
        if x == n {
          assert GenuineNode(d, node.(inbox := node.inbox[1..])) && MessageOk(c, node.inbox[0]);
          DeliverGenuine(d, node.(inbox := node.inbox[1..]), node.inbox[0]);
        }
      case MergeOne(x, state, host) =>
        if x == n { DeliverGenuine(d, node, EntryMessage(state, host)); }
      case _ =>
    }
  }

  lemma UntornExportIsGenuine(c: Cluster, half: Half, early: bool)
    requires half.node in c.nodes && GenuineNode(c, c.nodes[half.node]) && HalfOk(c, half) && Untorn(c, half, early)
    ensures GenuineState(c, Combine(half.data, Seen(c.nodes[half.node], early).meta))
  {
  }

  lemma NodesGenuineStep(c: Cluster, step: Step)
    requires NodesGenuine(c) && Enabled(c, step)
    requires Takes(c, step) ==> MessageOk(c, EntryMessage(step.state, step.host))
    requires forall m | m in Fire(c, step).wire :: MessageOk(Fire(c, step), m)
    ensures NodesGenuine(Fire(c, step))
  {
    var d := Fire(c, step);
    forall x | x in d.nodes ensures GenuineNode(d, d.nodes[x]) { GenuineNodeStep(c, step, x); }
  }

  lemma GenuineTransitStep(c: Cluster, step: Step)
    requires AllGenuine(c) && Enabled(c, step) && Quiet(c, step)
    requires step.LoadMeta? ==> HalfOk(c, step.half)
    ensures
      var d := Fire(c, step);
      (forall m | m in d.wire :: MessageOk(d, m)) && (forall state | state in d.states :: GenuineState(d, state))
  {
    MoreGenuine(c, Fire(c, step));
    match step
    case NotifyAdd(n, host, ip, time) => AnnouncedIsGenuine(c, n, Message(host, ip, Add, Stamp(time, n)));
    case LoadMeta(half, early) => UntornExportIsGenuine(c, half, early);
    case _ =>
  }

  lemma GenuineStep(c: Cluster, step: Step)
    requires AllGenuine(c) && Enabled(c, step) && Quiet(c, step)
    requires step.LoadMeta? ==> HalfOk(c, step.half)
    ensures AllGenuine(Fire(c, step))
  {
    if step.MergeOne? { assert GenuineState(c, step.state); }
    GenuineTransitStep(c, step);
    NodesGenuineStep(c, step);
  }

  /** An add of one name under one stamp has one address: so it is when each node announces a fixed address. */
  predicate OneAddress(c: Cluster) {
    forall a, b | a in c.announced && b in c.announced && a.m.action == b.m.action == Add &&
                  Key(a.m) == Key(b.m) && a.m.stamp == b.m.stamp :: a.m.ip == b.m.ip
  }

  ghost predicate NamedOrigins(c: Cluster) { "" !in c.nodes && forall a | a in c.announced :: a.origin != "" }

  lemma {:induction false} OriginsAreNamed(steps: seq<Step>)
    requires ExecFrom(INIT, steps).Some?
    ensures NamedOrigins(ExecFrom(INIT, steps).value)
  {
    if steps == [] {
    } else {
      OriginsAreNamed(steps[..|steps| - 1]);
    }
  }

  /** An entry exported from a genuine store is genuine exactly when the export was not torn at its name. */
  lemma GenuineEntryIff(c: Cluster, s: Store, half: Half, k: string)
    requires GenuineStore(c, s) && k in half.data && OneAddress(c) && NamedOrigins(c)
    ensures Genuine(c, k, half.data[k], StampOf(s.meta, k)) <==> UntornAt(s, half, k)
  {
    if Genuine(c, k, half.data[k], StampOf(s.meta, k)) {
      var a :| a in c.announced && AddOf(a, k) && a.m.ip == half.data[k] && a.m.stamp == StampOf(s.meta, k);
      assert k in s.meta;
      assert Genuine(c, k, s.data[k], s.meta[k]);
      var b :| b in c.announced && AddOf(b, k) && b.m.ip == s.data[k] && b.m.stamp == s.meta[k];
    }
  }

  lemma GenuineExport(c: Cluster, half: Half, early: bool)
    requires HalfOk(c, half) && half.node in c.nodes && GenuineNode(c, c.nodes[half.node])
    requires OneAddress(c) && NamedOrigins(c)
    ensures GenuineState(c, Combine(half.data, Seen(c.nodes[half.node], early).meta)) <==> Untorn(c, half, early)
  {
    var s := Seen(c.nodes[half.node], early);
    assert forall k | k in half.data :: Lower(k) == k;
    forall k | k in half.data
      ensures Genuine(c, k, half.data[k], StampOf(s.meta, k)) <==> UntornAt(s, half, k)
    {
      GenuineEntryIff(c, s, half, k);
    }
  }

  /** The condition is exact: the next export keeps provenance exactly when it is not torn. */
  lemma ProvenanceKeptIff(steps: seq<Step>, half: Half, early: bool)
    requires ExecFrom(INIT, steps).Some? && AllGenuine(ExecFrom(INIT, steps).value)
    requires OneAddress(ExecFrom(INIT, steps).value) && Enabled(ExecFrom(INIT, steps).value, LoadMeta(half, early))
    ensures
      var c := ExecFrom(INIT, steps).value;
      AllGenuine(Fire(c, LoadMeta(half, early))) <==> Untorn(c, half, early)
  {
    var c := ExecFrom(INIT, steps).value;
    var state := Combine(half.data, Seen(c.nodes[half.node], early).meta);
    PartsAreAlwaysKnown(steps);
    OriginsAreNamed(steps);
    assert HalfOk(c, half) && GenuineNode(c, c.nodes[half.node]);
    GenuineExport(c, half, early);
    var d := Fire(c, LoadMeta(half, early));
    MoreGenuine(c, d);
    MoreGenuine(d, c);
    assert state in d.states;
  }

  lemma {:induction false} PrefixRuns(steps: seq<Step>, n: nat)
    requires ExecFrom(INIT, steps).Some? && n <= |steps|
    ensures ExecFrom(INIT, steps[..n]).Some?
    ensures ExecFrom(INIT, steps[..n]).value.announced <= ExecFrom(INIT, steps).value.announced
    decreases |steps|
  {
    if n == |steps| {
      assert steps[..n] == steps;
    } else {
      PrefixRuns(steps[..|steps| - 1], n);
      assert steps[..|steps| - 1][..n] == steps[..n];
    }
  }

  lemma OneAddressBefore(c: Cluster, d: Cluster)
    requires c.announced <= d.announced && OneAddress(d)
    ensures OneAddress(c)
  {
    assert forall a | a in c.announced :: a in d.announced;
  }

  /** The cluster after the first n steps of a run. */
  function At(steps: seq<Step>, n: nat): Cluster
    requires ExecFrom(INIT, steps).Some? && n <= |steps|
  {
    PrefixRuns(steps, n);
    ExecFrom(INIT, steps[..n]).value
  }

  lemma AtNext(steps: seq<Step>, i: nat)
    requires ExecFrom(INIT, steps).Some? && i < |steps|
    ensures Enabled(At(steps, i), steps[i]) && At(steps, i + 1) == Fire(At(steps, i), steps[i])
  {
    PrefixRuns(steps, i + 1);
    assert steps[..i + 1][..i] == steps[..i];
  }

  lemma AnnouncedGrows(steps: seq<Step>, i: nat, j: nat)
    requires ExecFrom(INIT, steps).Some? && i <= j <= |steps|
    ensures At(steps, i).announced <= At(steps, j).announced
  {
    PrefixRuns(steps, j);
    PrefixRuns(steps[..j], i);
    assert steps[..j][..i] == steps[..i];
  }

  lemma GenuineMeansQuiet(steps: seq<Step>, i: nat)
    requires ExecFrom(INIT, steps).Some? && OneAddress(ExecFrom(INIT, steps).value) && i < |steps|
    requires AllGenuine(At(steps, i)) && AllGenuine(At(steps, i + 1))
    ensures Quiet(At(steps, i), steps[i])
  {
    AtNext(steps, i);
    PrefixRuns(steps, i);
    OneAddressBefore(At(steps, i), ExecFrom(INIT, steps).value);
    if steps[i].LoadMeta? { ProvenanceKeptIff(steps[..i], steps[i].half, steps[i].early); }
  }

  /**
   * Provenance: while no export is torn, every node serves exactly the names it has stamps for, and each stored
   * address and stamp were announced together, for that name, by the node the stamp names.
   */
  lemma {:induction false} ProvenanceHolds(steps: seq<Step>, n: nat)
    requires ExecFrom(INIT, steps).Some? && n <= |steps| && forall i | 0 <= i < n :: Quiet(At(steps, i), steps[i])
    ensures AllGenuine(At(steps, n))
  {
    if n == 0 {
    } else {
      ProvenanceHolds(steps, n - 1);
      AtNext(steps, n - 1);
      PrefixRuns(steps, n - 1);
      PartsAreAlwaysKnown(steps[..n - 1]);
      GenuineStep(At(steps, n - 1), steps[n - 1]);
    }
  }

  /** Everything stored, queued and in transit was announced so throughout a run exactly when no export is torn. */
  lemma ProvenanceHoldsIff(steps: seq<Step>)
    requires ExecFrom(INIT, steps).Some? && OneAddress(ExecFrom(INIT, steps).value)
    ensures (forall n | 0 <= n <= |steps| :: AllGenuine(At(steps, n))) <==>
            (forall i | 0 <= i < |steps| :: Quiet(At(steps, i), steps[i]))
  {
    if forall n | 0 <= n <= |steps| :: AllGenuine(At(steps, n)) {
      forall i | 0 <= i < |steps| ensures Quiet(At(steps, i), steps[i]) {
        assert AllGenuine(At(steps, i)) && AllGenuine(At(steps, i + 1));
        GenuineMeansQuiet(steps, i);
      }
    }
    if forall i | 0 <= i < |steps| :: Quiet(At(steps, i), steps[i]) {
      forall n | 0 <= n <= |steps| ensures AllGenuine(At(steps, n)) { ProvenanceHolds(steps, n); }
    }
  }

  // ---- Address and stamp together in the stores ----

  ghost predicate StoresGenuine(c: Cluster) { forall n | n in c.nodes :: GenuineStore(c, c.nodes[n].store) }

  /** Step j completed an export of `state`, and the second load saw the store s. */
  predicate Exported(steps: seq<Step>, j: nat, state: State, s: Store)
    requires ExecFrom(INIT, steps).Some?
  {
    && j < |steps| && steps[j].LoadMeta? && steps[j].half in At(steps, j).halves
    && steps[j].half.node in At(steps, j).nodes
    && s == Seen(At(steps, j).nodes[steps[j].half.node], steps[j].early)
    && state == Combine(steps[j].half.data, s.meta)
  }

  /** A merge that takes effect takes an entry from an export that was not torn at that entry's name. */
  ghost predicate Sound(steps: seq<Step>, i: nat)
    requires ExecFrom(INIT, steps).Some? && i < |steps|
  {
    Takes(At(steps, i), steps[i]) ==>
      exists j, s | 0 <= j < i && Exported(steps, j, steps[i].state, s) :: UntornAt(s, steps[j].half, steps[i].host)
  }

  lemma {:induction false} StateWasExported(steps: seq<Step>, n: nat, state: State) returns (j: nat, s: Store)
    requires ExecFrom(INIT, steps).Some? && n <= |steps| && state in At(steps, n).states
    ensures j < n && Exported(steps, j, state, s)
  {
    if n == 0 {
      assert false;
    } else {
      AtNext(steps, n - 1);
      var c, step := At(steps, n - 1), steps[n - 1];
      if state in c.states {
        j, s := StateWasExported(steps, n - 1, state);
      } else {
        j, s := n - 1, Seen(c.nodes[step.half.node], step.early);
      }
    }
  }

  lemma SeenIsGenuine(steps: seq<Step>, j: nat, state: State, s: Store)
    requires ExecFrom(INIT, steps).Some? && Exported(steps, j, state, s) && NodesGenuine(At(steps, j))
    ensures GenuineStore(At(steps, j), s) && HalfOk(At(steps, j), steps[j].half)
  {
    PrefixRuns(steps, j);
    PartsAreAlwaysKnown(steps[..j]);
    assert GenuineNode(At(steps, j), At(steps, j).nodes[steps[j].half.node]);
  }

  lemma MessagesAreGenuine(steps: seq<Step>, n: nat)
    requires ExecFrom(INIT, steps).Some? && n <= |steps|
    ensures
      var c := At(steps, n);
      && (forall m | m in c.wire :: MessageOk(c, m))
      && (forall x | x in c.nodes :: forall m | m in c.nodes[x].inbox :: MessageOk(c, m))
  {
    PrefixRuns(steps, n);
    PartsAreAlwaysKnown(steps[..n]);
    assert forall x | x in At(steps, n).nodes :: NodeOk(At(steps, n), At(steps, n).nodes[x]);
  }

  lemma BeforeWasStored(c: Cluster, step: Step, x: string)
    requires Enabled(c, step) && x in Fire(c, step).nodes
    ensures
      var before := Fire(c, step).nodes[x].before;
      before == EMPTY || (x in c.nodes && (before == c.nodes[x].before || before == c.nodes[x].store))
  {
  }

  lemma {:induction false} StoresMakeNodes(steps: seq<Step>, n: nat)
    requires ExecFrom(INIT, steps).Some? && n <= |steps|
    requires forall i | 0 <= i <= n :: StoresGenuine(At(steps, i))
    ensures NodesGenuine(At(steps, n))
  {
    MessagesAreGenuine(steps, n);
    if n == 0 {
    } else {
      var c, d := At(steps, n - 1), At(steps, n);
      StoresMakeNodes(steps, n - 1);
      AtNext(steps, n - 1);
      AnnouncedGrows(steps, n - 1, n);
      MoreAnnounced(c, d);
      assert StoresGenuine(c) && StoresGenuine(d);
      forall x | x in d.nodes ensures GenuineNode(d, d.nodes[x]) {
        BeforeWasStored(c, steps[n - 1], x);
        if x in c.nodes { assert GenuineNode(c, c.nodes[x]); }
      }
    }
  }

  lemma MergedIsGenuine(c: Cluster, step: Step)
    requires Enabled(c, step) && Takes(c, step) && StoresGenuine(Fire(c, step))
    ensures
      var entry := step.state[step.host];
      Genuine(Fire(c, step), Lower(step.host), entry.ip, entry.stamp)
  {
    var d, k, entry := Fire(c, step), Lower(step.host), step.state[step.host];
    var s := d.nodes[step.n].store;
    assert s.data[k] == entry.ip && s.meta[k] == entry.stamp;
    assert GenuineStore(d, s);
  }

  lemma FitForEntries(steps: seq<Step>, n: nat)
    requires ExecFrom(INIT, steps).Some? && OneAddress(ExecFrom(INIT, steps).value) && n <= |steps|
    ensures OneAddress(At(steps, n)) && NamedOrigins(At(steps, n))
  {
    PrefixRuns(steps, n);
    OneAddressBefore(At(steps, n), ExecFrom(INIT, steps).value);
    OriginsAreNamed(steps[..n]);
  }

  lemma StoredEntryIsGenuine(steps: seq<Step>, i: nat)
    requires ExecFrom(INIT, steps).Some? && OneAddress(ExecFrom(INIT, steps).value) && i < |steps|
    requires Takes(At(steps, i), steps[i]) && StoresGenuine(At(steps, i + 1))
    ensures
      var d, entry := At(steps, i + 1), steps[i].state[steps[i].host];
      Genuine(d, Lower(steps[i].host), entry.ip, entry.stamp) && OneAddress(d) && NamedOrigins(d)
  {
    AtNext(steps, i);
    MergedIsGenuine(At(steps, i), steps[i]);
    FitForEntries(steps, i + 1);
  }

  lemma StaysGenuine(steps: seq<Step>, j: nat, n: nat, s: Store, half: Half)
    requires ExecFrom(INIT, steps).Some? && j <= n <= |steps|
    requires GenuineStore(At(steps, j), s) && HalfOk(At(steps, j), half)
    ensures GenuineStore(At(steps, n), s) && HalfOk(At(steps, n), half)
  {
    AnnouncedGrows(steps, j, n);
    MoreAnnounced(At(steps, j), At(steps, n));
  }

  lemma ExportedGenuinely(steps: seq<Step>, i: nat, state: State) returns (j: nat, s: Store)
    requires ExecFrom(INIT, steps).Some? && i < |steps| && state in At(steps, i).states
    requires forall n | 0 <= n <= i :: StoresGenuine(At(steps, n))
    ensures j < i && Exported(steps, j, state, s)
    ensures GenuineStore(At(steps, i + 1), s) && HalfOk(At(steps, i + 1), steps[j].half)
  {
    j, s := StateWasExported(steps, i, state);
    StoresMakeNodes(steps, j);
    SeenIsGenuine(steps, j, state, s);
    StaysGenuine(steps, j, i + 1, s, steps[j].half);
  }

  /** If the entry that a merge stores is genuine, the export it comes from was not torn there. */
  lemma StoredFromUntorn(steps: seq<Step>, i: nat, j: nat, s: Store)
    requires ExecFrom(INIT, steps).Some? && j < i < |steps| && steps[i].MergeOne? && steps[i].host in steps[i].state
    requires Exported(steps, j, steps[i].state, s)
    requires
      var d, entry := At(steps, i + 1), steps[i].state[steps[i].host];
      && GenuineStore(d, s) && HalfOk(d, steps[j].half) && OneAddress(d) && NamedOrigins(d)
      && Genuine(d, Lower(steps[i].host), entry.ip, entry.stamp)
    ensures Sound(steps, i)
  {
    GenuineEntryIff(At(steps, i + 1), s, steps[j].half, steps[i].host);
  }

  lemma TakenFromState(steps: seq<Step>, i: nat)
    requires ExecFrom(INIT, steps).Some? && i < |steps| && Takes(At(steps, i), steps[i])
    ensures steps[i].state in At(steps, i).states
  {
    AtNext(steps, i);
  }

  lemma GenuineMeansSound(steps: seq<Step>, i: nat)
    requires ExecFrom(INIT, steps).Some? && OneAddress(ExecFrom(INIT, steps).value) && i < |steps|
    requires forall n | 0 <= n <= |steps| :: StoresGenuine(At(steps, n))
    ensures Sound(steps, i)
  {
    if Takes(At(steps, i), steps[i]) {
      TakenFromState(steps, i);
      var j, s := ExportedGenuinely(steps, i, steps[i].state);
      StoredEntryIsGenuine(steps, i);
      StoredFromUntorn(steps, i, j, s);
    }
  }

  lemma UntornEntryIsGenuine(steps: seq<Step>, i: nat, j: nat, s: Store)
    requires ExecFrom(INIT, steps).Some? && j < i < |steps| && Takes(At(steps, i), steps[i])
    requires Exported(steps, j, steps[i].state, s) && NodesGenuine(At(steps, j))
    requires UntornAt(s, steps[j].half, steps[i].host)
    ensures MessageOk(At(steps, i), EntryMessage(steps[i].state, steps[i].host))
  {
    SeenIsGenuine(steps, j, steps[i].state, s);
    AnnouncedGrows(steps, j, i);
    MoreAnnounced(At(steps, j), At(steps, i));
    assert Genuine(At(steps, j), steps[i].host, s.data[steps[i].host], s.meta[steps[i].host]);
  }

  lemma {:induction false} SoundMeansGenuine(steps: seq<Step>, n: nat)
    requires ExecFrom(INIT, steps).Some? && n <= |steps| && forall i | 0 <= i < n :: Sound(steps, i)
    ensures NodesGenuine(At(steps, n))
  {
    MessagesAreGenuine(steps, n);
    if n == 0 {
    } else {
      var i := n - 1;
      SoundMeansGenuine(steps, i);
      AtNext(steps, i);
      if Takes(At(steps, i), steps[i]) {
        assert Sound(steps, i);
        var j, s :| 0 <= j < i && Exported(steps, j, steps[i].state, s) && UntornAt(s, steps[j].half, steps[i].host);
        SoundMeansGenuine(steps, j);
        UntornEntryIsGenuine(steps, i, j, s);
      }
      NodesGenuineStep(At(steps, i), steps[i]);
    }
  }

  /**
   * Every stored address and stamp were announced together, after every step of a run, exactly when every merge that
   * takes effect takes an entry from an export that was not torn at that entry's name.
   */
  lemma StoredPairsAreGenuineIff(steps: seq<Step>)
    requires ExecFrom(INIT, steps).Some? && OneAddress(ExecFrom(INIT, steps).value)
    ensures (forall n | 0 <= n <= |steps| :: StoresGenuine(At(steps, n))) <==>
            (forall i | 0 <= i < |steps| :: Sound(steps, i))
  {
    if forall n | 0 <= n <= |steps| :: StoresGenuine(At(steps, n)) {
      forall i | 0 <= i < |steps| ensures Sound(steps, i) { GenuineMeansSound(steps, i); }
    }
    if forall i | 0 <= i < |steps| :: Sound(steps, i) {
      forall n | 0 <= n <= |steps| ensures StoresGenuine(At(steps, n)) {
        SoundMeansGenuine(steps, n);
        assert forall x | x in At(steps, n).nodes :: GenuineNode(At(steps, n), At(steps, n).nodes[x]);
      }
    }
  }

  lemma ExecSnoc(steps: seq<Step>, step: Step)
    requires ExecFrom(INIT, steps).Some? && Enabled(ExecFrom(INIT, steps).value, step)
    ensures ExecFrom(INIT, steps + [step]) == Some(Fire(ExecFrom(INIT, steps).value, step))
  {
    assert (steps + [step])[..|steps|] == steps;
  }

  lemma BootOne(steps: seq<Step>, x: string) returns (more: seq<Step>)
    requires ExecFrom(INIT, steps).Some? && x !in ExecFrom(INIT, steps).value.nodes && x != ""
    ensures
      var c := ExecFrom(INIT, steps).value;
      ExecFrom(INIT, more) == Some(c.(nodes := c.nodes[x := Node(EMPTY, EMPTY, [])]))
  {
    ExecSnoc(steps, Boot(x));
    more := steps + [Boot(x)];
  }

  lemma ThreeNodes(x: string, y: string, z: string) returns (steps: seq<Step>)
    requires x != y && y != z && x != z && "" !in {x, y, z}
    ensures
      var idle := Node(EMPTY, EMPTY, []);
      ExecFrom(INIT, steps) == Some(INIT.(nodes := map[x := idle, y := idle, z := idle]))
  {
    steps := BootOne([], x);
    steps := BootOne(steps, y);
    steps := BootOne(steps, z);
  }

  /** x serves `older`, has loaded its data for an export, and then applies `newer`, announced by y. */
  lemma OvertakenExport(x: string, y: string, z: string, host: string, older: string, newer: string)
    returns (steps: seq<Step>)
    requires x != y && y != z && x != z && "" !in {x, y, z}
    ensures
      && ExecFrom(INIT, steps).Some?
      && var c := ExecFrom(INIT, steps).value;
      && x in c.nodes && c.nodes[x].store.meta == map[Lower(host) := Stamp(2, y)]
      && z in c.nodes && c.nodes[z].store == EMPTY
      && Half(x, map[Lower(host) := older]) in c.halves
      && c.announced == [Announcement(x, Message(host, older, Add, Stamp(1, x))),
                         Announcement(y, Message(host, newer, Add, Stamp(2, y)))]
  {
    steps := HalfExport(x, y, z, host, older);
    ExecSnoc(steps, NotifyAdd(y, host, newer, 2));
    steps := steps + [NotifyAdd(y, host, newer, 2)];
    var m := Message(host, newer, Add, Stamp(2, y));
    ExecSnoc(steps, Receive(x, m));
    steps := steps + [Receive(x, m)];
    ExecSnoc(steps, Process(x));
    steps := steps + [Process(x)];
  }

  lemma HalfExport(x: string, y: string, z: string, host: string, ip: string) returns (steps: seq<Step>)
    requires x != y && y != z && x != z && "" !in {x, y, z}
    ensures
      && ExecFrom(INIT, steps).Some?
      && var c := ExecFrom(INIT, steps).value;
      && var k := Lower(host);
      && x in c.nodes && c.nodes[x].store == Store(map[k := ip], map[k := Stamp(1, x)]) && c.nodes[x].inbox == []
      && y in c.nodes && z in c.nodes && (forall n | n in c.nodes && n != x :: c.nodes[n].store == EMPTY)
      && Half(x, map[k := ip]) in c.halves
      && c.announced == [Announcement(x, Message(host, ip, Add, Stamp(1, x)))]
  {
    steps := ThreeNodes(x, y, z);
    ExecSnoc(steps, NotifyAdd(x, host, ip, 1));
    steps := steps + [NotifyAdd(x, host, ip, 1)];
    ghost var c := ExecFrom(INIT, steps).value;
    assert c.nodes[x].store == Store(map[Lower(host) := ip], map[Lower(host) := Stamp(1, x)]);
    ExecSnoc(steps, LoadData(x));
    steps := steps + [LoadData(x)];
  }

  /** So there are runs after which a node serves an address under a stamp that was announced with another one. */
  lemma ProvenanceCanFail(x: string, y: string, z: string, host: string, older: string, newer: string)
    returns (steps: seq<Step>)
    requires x != y && y != z && x != z && "" !in {x, y, z} && older != newer
    ensures
      && ExecFrom(INIT, steps).Some?
      && var c := ExecFrom(INIT, steps).value;
      && var k := Lower(host);
      && z in c.nodes && k in c.nodes[z].store.data && k in c.nodes[z].store.meta
      && !Genuine(c, k, c.nodes[z].store.data[k], c.nodes[z].store.meta[k])
  {
    var k := Lower(host);
    steps := OvertakenExport(x, y, z, host, older, newer);
    var half := Half(x, map[k := older]);
    var state := map[k := Entry(older, Stamp(2, y))];
    var c := ExecFrom(INIT, steps).value;
    ExecSnoc(steps, LoadMeta(half, false));
    steps := steps + [LoadMeta(half, false)];
    assert Combine(half.data, c.nodes[x].store.meta) == state;
    ExecSnoc(steps, MergeOne(z, state, k));
    steps := steps + [MergeOne(z, state, k)];
    LowerIdempotent(host);
  }

  /** x serves a name, has loaded its data for an export, and then removes the name and its stamp. */
  lemma RemovedUnderExport(x: string, y: string, z: string, host: string, ip: string) returns (steps: seq<Step>)
    requires x != y && y != z && x != z && "" !in {x, y, z}
    ensures
      && ExecFrom(INIT, steps).Some?
      && var c := ExecFrom(INIT, steps).value;
      && x in c.nodes && z in c.nodes && (forall n | n in c.nodes :: c.nodes[n].store == EMPTY)
      && Half(x, map[Lower(host) := ip]) in c.halves
      && c.announced == [Announcement(x, Message(host, ip, Add, Stamp(1, x))),
                         Announcement(x, Message(host, "", Remove, Stamp(2, x)))]
  {
    steps := HalfExport(x, y, z, host, ip);
    ExecSnoc(steps, NotifyRemove(x, host, 2));
    steps := steps + [NotifyRemove(x, host, 2)];
  }

  /** A torn export that nobody merges does no harm to any store. */
  lemma TornButHarmless(x: string, y: string, z: string, host: string, ip: string) returns (steps: seq<Step>)
    requires x != y && y != z && x != z && "" !in {x, y, z}
    ensures
      && ExecFrom(INIT, steps).Some?
      && var c := ExecFrom(INIT, steps).value;
      !AllGenuine(c) && StoresGenuine(c)
  {
    var k := Lower(host);
    steps := RemovedUnderExport(x, y, z, host, ip);
    var c, half, state := ExecFrom(INIT, steps).value, Half(x, map[k := ip]), map[k := Entry(ip, NO_STAMP)];
    ExecSnoc(steps, LoadMeta(half, false));
    steps := steps + [LoadMeta(half, false)];
    assert Combine(half.data, c.nodes[x].store.meta) == state;
    var d := ExecFrom(INIT, steps).value;
    assert state in d.states;
    assert !GenuineState(d, state) by {
      assert k in state;
      assert !Genuine(d, Lower(k), ip, NO_STAMP);
    }
  }

  /** And there are runs after which a node serves a name under the zero stamp, which nobody announced. */
  lemma StampCanBeLost(x: string, y: string, z: string, host: string, ip: string) returns (steps: seq<Step>)
    requires x != y && y != z && x != z && "" !in {x, y, z}
    ensures
      && ExecFrom(INIT, steps).Some?
      && var c := ExecFrom(INIT, steps).value;
      && var k := Lower(host);
      && z in c.nodes && c.nodes[z].store == Store(map[k := ip], map[k := NO_STAMP])
      && forall a | a in c.announced :: a.m.stamp != NO_STAMP
  {
    var k := Lower(host);
    steps := RemovedUnderExport(x, y, z, host, ip);
    var half := Half(x, map[k := ip]);
    var state := map[k := Entry(ip, NO_STAMP)];
    var c := ExecFrom(INIT, steps).value;
    ExecSnoc(steps, LoadMeta(half, false));
    steps := steps + [LoadMeta(half, false)];
    assert Combine(half.data, c.nodes[x].store.meta) == state;
    ExecSnoc(steps, MergeOne(z, state, k));
    steps := steps + [MergeOne(z, state, k)];
    LowerIdempotent(host);
  }
}
