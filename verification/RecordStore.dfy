/** The value of a record store and the effect of each operation on it. */
module RecordStore {
  import opened Names

  datatype Action = Add | Remove | Other(code: nat)

  datatype Message = Message(host: string, ip: string, action: Action, stamp: Stamp)

  datatype Entry = Entry(ip: string, stamp: Stamp)

  /** `data` is what DNS queries are answered from, `meta` the stamps of accepted stamped adds. */
  datatype Store = Store(data: map<string, string>, meta: map<string, Stamp>)

  const EMPTY := Store(map[], map[])

  /** What GetAllWithMeta reports for a served name that has no stamp. */
  const NO_STAMP := Stamp(0, "")

  /** Room for messages received and not yet applied. */
  const INBOX_CAPACITY := 256

  function Key(m: Message): string { Lower(m.host) }

  predicate AddFor(m: Message, k: string) { m.action == Add && Key(m) == k }

  predicate RemoveFor(m: Message, k: string) { m.action == Remove && Key(m) == k }

  function Lookup(s: Store, host: string): Option<string> {
    if Lower(host) in s.data then Some(s.data[Lower(host)]) else None
  }

  function PlainAdd(s: Store, host: string, ip: string): Store {
    s.(data := s.data[Lower(host) := ip])
  }

  function PlainRemove(s: Store, host: string): Store {
    s.(data := s.data - {Lower(host)})
  }

  /** An equal or newer stamp is already on record for k. */
  predicate Blocked(meta: map<string, Stamp>, k: string, stamp: Stamp) {
    k in meta && StampLe(stamp, meta[k])
  }

  predicate Accepts(s: Store, m: Message) {
    match m.action
    case Add => !Blocked(s.meta, Key(m), m.stamp)
    case Remove => Key(m) in s.data && !Blocked(s.meta, Key(m), m.stamp)
    case Other(_) => false
  }

  function Apply(s: Store, m: Message): Store {
    if !Accepts(s, m) then s
    else if m.action == Add then Store(s.data[Key(m) := m.ip], s.meta[Key(m) := m.stamp])
    else Store(s.data - {Key(m)}, s.meta - {Key(m)})
  }

  /** A later time beats an earlier one, and at equal times the greater node name wins; an equal stamp never does. */
  ghost predicate Beats(a: Stamp, b: Stamp) { a.time > b.time || (a.time == b.time && Exceeds(a.node, b.node)) }

  /** When a stamped message takes effect: what is on record must be beaten, and a removal needs a served name. */
  lemma AcceptsIff(s: Store, m: Message)
    ensures
      var k := Lower(m.host);
      Accepts(s, m) <==>
        && (m.action == Add || (m.action == Remove && k in s.data))
        && (k in s.meta ==> Beats(m.stamp, s.meta[k]))
  {
    if Key(m) in s.meta { ExceedsIff(m.stamp.node, s.meta[Key(m)].node); }
  }

  // ---- Names that share a record ----

  /** What a change of one name means for every name asked about: exactly its case variants are concerned. */
  lemma LookupAfter(s: Store, host: string, ip: string, asked: string)
    ensures Lookup(PlainAdd(s, host, ip), asked) == if CaseVariants(host, asked) then Some(ip) else Lookup(s, asked)
    ensures Lookup(PlainRemove(s, host), asked) == if CaseVariants(host, asked) then None else Lookup(s, asked)
  {
    LowerEqualIff(host, asked);
  }

  lemma LookupAfterMessage(s: Store, m: Message, asked: string)
    ensures Lookup(Apply(s, m), asked) ==
            if !Accepts(s, m) || !CaseVariants(m.host, asked) then Lookup(s, asked)
            else if m.action == Add then Some(m.ip) else None
  {
    LowerEqualIff(m.host, asked);
  }

  /** Case variants, and no other names, are answered alike by every store. */
  lemma NamesShareRecordIff(a: string, b: string)
    ensures (forall s: Store :: Lookup(s, a) == Lookup(s, b)) <==> CaseVariants(a, b)
  {
    LowerEqualIff(a, b);
    if !CaseVariants(a, b) {
      assert Lookup(Store(map[Lower(a) := ""], map[]), a) != Lookup(Store(map[Lower(a) := ""], map[]), b);
    }
  }

  /** The store after delivering `ms` in order. */
  function Run(s: Store, ms: seq<Message>): Store {
    if ms == [] then s else Apply(Run(s, ms[..|ms| - 1]), ms[|ms| - 1])
  }

  lemma RunSnoc(s: Store, ms: seq<Message>, m: Message)
    ensures Run(s, ms + [m]) == Apply(Run(s, ms), m)
  {
    assert (ms + [m])[..|ms|] == ms;
  }

  lemma {:induction false} RunConcat(s: Store, a: seq<Message>, b: seq<Message>)
    ensures Run(s, a + b) == Run(Run(s, a), b)
    decreases |b|
  {
    if b == [] {
      assert a + b == a;
    } else {
      assert (a + b)[..|a + b| - 1] == a + b[..|b| - 1];
      RunConcat(s, a, b[..|b| - 1]);
    }
  }

  function StampOf(meta: map<string, Stamp>, k: string): Stamp {
    if k in meta then meta[k] else NO_STAMP
  }

  /** What an export reports when it reads `data` and `meta` one after the other. */
  function Combine(data: map<string, string>, meta: map<string, Stamp>): map<string, Entry> {
    map k | k in data :: Entry(data[k], StampOf(meta, k))
  }

  function Export(s: Store): map<string, Entry> {
    Combine(s.data, s.meta)
  }

  /** Every key is in stored form. */
  predicate Normal(s: Store) {
    (forall k | k in s.data :: Lower(k) == k) && (forall k | k in s.meta :: Lower(k) == k)
  }

  /** Every served name is stamped. */
  predicate Stamped(s: Store) { s.data.Keys <= s.meta.Keys }

  /** Served names and stamped names coincide. */
  predicate Settled(s: Store) { s.data.Keys == s.meta.Keys }

  lemma {:induction false} RunKeepsShape(s: Store, ms: seq<Message>)
    ensures Normal(s) ==> Normal(Run(s, ms))
    ensures Stamped(s) ==> Stamped(Run(s, ms))
    ensures Settled(s) ==> Settled(Run(s, ms))
  {
    if ms == [] {
    } else {
      RunKeepsShape(s, ms[..|ms| - 1]);
      LowerIdempotent(ms[|ms| - 1].host);
    }
  }

  // ---- Announcements that share one stamp ----

  function AddMessages(hosts: seq<string>, ip: string, stamp: Stamp): seq<Message> {
    seq(|hosts|, i requires 0 <= i < |hosts| => Message(hosts[i], ip, Add, stamp))
  }

  function RemoveMessages(hosts: seq<string>, stamp: Stamp): seq<Message> {
    seq(|hosts|, i requires 0 <= i < |hosts| => Message(hosts[i], "", Remove, stamp))
  }

  function Unblocked(s: Store, keys: set<string>, stamp: Stamp): set<string> {
    set k | k in keys && !Blocked(s.meta, k, stamp)
  }

  function Constant<T>(keys: set<string>, v: T): map<string, T> {
    map k | k in keys :: v
  }

  function AddedTo(s: Store, keys: set<string>, ip: string, stamp: Stamp): Store {
    var won := Unblocked(s, keys, stamp);
    Store(s.data + Constant(won, ip), s.meta + Constant(won, stamp))
  }

  lemma ConstantSnoc<T>(m: map<string, T>, keys: set<string>, k: string, v: T)
    ensures (m + Constant(keys, v))[k := v] == m + Constant(keys + {k}, v)
  {
  }

  lemma AddStep(s: Store, keys: set<string>, m: Message)
    requires m.action == Add
    ensures Apply(AddedTo(s, keys, m.ip, m.stamp), m) == AddedTo(s, keys + {Key(m)}, m.ip, m.stamp)
  {
    var k, won := Key(m), Unblocked(s, keys, m.stamp);
    var t := AddedTo(s, keys, m.ip, m.stamp);
    if k in won || Blocked(s.meta, k, m.stamp) {
      StampTotalOrder(m.stamp, m.stamp, m.stamp);
      assert Blocked(t.meta, k, m.stamp);
      assert Unblocked(s, keys + {k}, m.stamp) == won;
    } else {
      assert !Blocked(t.meta, k, m.stamp);
      assert Unblocked(s, keys + {k}, m.stamp) == won + {k};
      ConstantSnoc(s.data, won, k, m.ip);
      ConstantSnoc(s.meta, won, k, m.stamp);
    }
  }

  /** Repeated, case-variant and already blocked names included. */
  lemma {:induction false} RunAdds(s: Store, hosts: seq<string>, ip: string, stamp: Stamp)
    ensures Run(s, AddMessages(hosts, ip, stamp)) == AddedTo(s, Keys(hosts), ip, stamp)
    decreases |hosts|
  {
    if hosts == [] {
      assert Keys(hosts) == {};
    } else {
      var n := |hosts| - 1;
      var ms := AddMessages(hosts, ip, stamp);
      assert ms[..n] == AddMessages(hosts[..n], ip, stamp);
      RunAdds(s, hosts[..n], ip, stamp);
      KeysSnoc(hosts);
      AddStep(s, Keys(hosts[..n]), ms[n]);
    }
  }

  function RemovedFrom(s: Store, keys: set<string>, stamp: Stamp): Store {
    var gone := Unblocked(s, keys * s.data.Keys, stamp);
    Store(s.data - gone, s.meta - gone)
  }

  lemma RemoveStep(s: Store, keys: set<string>, m: Message)
    requires m.action == Remove
    ensures Apply(RemovedFrom(s, keys, m.stamp), m) == RemovedFrom(s, keys + {Key(m)}, m.stamp)
  {
    var gone := Unblocked(s, keys * s.data.Keys, m.stamp);
    if Key(m) in s.data && Key(m) !in keys && !Blocked(s.meta, Key(m), m.stamp) {
      assert Unblocked(s, (keys + {Key(m)}) * s.data.Keys, m.stamp) == gone + {Key(m)};
    } else {
      assert Unblocked(s, (keys + {Key(m)}) * s.data.Keys, m.stamp) == gone;
    }
  }

  lemma {:induction false} RunRemoves(s: Store, hosts: seq<string>, stamp: Stamp)
    ensures Run(s, RemoveMessages(hosts, stamp)) == RemovedFrom(s, Keys(hosts), stamp)
    decreases |hosts|
  {
    if hosts == [] {
      assert Keys(hosts) == {};
    } else {
      var n := |hosts| - 1;
      var ms := RemoveMessages(hosts, stamp);
      assert ms[..n] == RemoveMessages(hosts[..n], stamp);
      RunRemoves(s, hosts[..n], stamp);
      KeysSnoc(hosts);
      RemoveStep(s, Keys(hosts[..n]), ms[n]);
    }
  }
}
