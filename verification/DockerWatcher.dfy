/** The Docker watcher object: label parsing and the three event handlers. */
module DockerWatcher {
  import opened Names
  import opened Text
  import opened RecordStore
  import opened DockerRecords
  import opened Delegate
  import opened Watcher
  import opened Replication

  // ---- Hostnames from labels ----

  predicate HostnameChar(c: char) {
    'a' <= c <= 'z' || 'A' <= c <= 'Z' || '0' <= c <= '9' || c == '-' || c == '.'
  }

  /** `domains` holds the names that the DNS library's own check passes. */
  predicate ValidHostname(name: string, domains: iset<string>) {
    1 <= |name| <= 253 && (forall i | 0 <= i < |name| :: HostnameChar(name[i])) && name in domains
  }

  method IsValidHostname(name: string, domains: iset<string>) returns (ok: bool)
    ensures ok <==> ValidHostname(name, domains)
  {
    if |name| == 0 || |name| > 253 {
      return false;
    }
    for i := 0 to |name|
      invariant forall j | 0 <= j < i :: HostnameChar(name[j])
    {
      if !HostnameChar(name[i]) {
        return false;
      }
    }
    return name in domains;
  }

  /** By ASCII code: hyphen and dot, the ten digits, the capital and the small letters. */
  lemma HostnameCharIff(c: char)
    ensures HostnameChar(c) <==>
            var code := c as int; 45 <= code <= 46 || 48 <= code <= 57 || 65 <= code <= 90 || 97 <= code <= 122
  {
  }

  /** Of the names that pass the other tests, exactly those of up to 253 bytes are served, as RFC 1035 limits them. */
  lemma LengthLimit(name: string, domains: iset<string>)
    requires name != [] && name in domains && forall i | 0 <= i < |name| :: HostnameChar(name[i])
    ensures ValidHostname(name, domains) <==> |name| < 254
  {
  }

  function Trimmed(parts: seq<string>): seq<string> {
    seq(|parts|, i requires 0 <= i < |parts| => Trim(parts[i]))
  }

  /** Every comma-separated part of the wanted labels, in the order of the configured label names. */
  function Candidates(labels: map<string, string>, wanted: seq<string>): seq<string> {
    if wanted == [] then []
    else
      var last := wanted[|wanted| - 1];
      Candidates(labels, wanted[..|wanted| - 1]) + (if last in labels then Trimmed(Split(labels[last], ',')) else [])
  }

  function Valids(names: seq<string>, domains: iset<string>): seq<string> {
    if names == [] then []
    else
      var init, last := Valids(names[..|names| - 1], domains), names[|names| - 1];
      if ValidHostname(last, domains) then init + [last] else init
  }

  lemma {:induction false} ValidsMembers(names: seq<string>, domains: iset<string>)
    ensures forall h :: h in Valids(names, domains) <==> h in names && ValidHostname(h, domains)
  {
    if names == [] {
    } else {
      ValidsMembers(names[..|names| - 1], domains);
      assert names == names[..|names| - 1] + [names[|names| - 1]];
    }
  }

  /** The valid names, each once and in order of first occurrence; case variants count as different. */
  function Hostnames(names: seq<string>, domains: iset<string>): seq<string> {
    FirstOccurrences(Valids(names, domains))
  }

  lemma HostnamesSnoc(names: seq<string>, name: string, domains: iset<string>)
    ensures
      var r := Hostnames(names, domains);
      Hostnames(names + [name], domains) ==
        if ValidHostname(name, domains) && name !in r then r + [name] else r
  {
    assert (names + [name])[..|names|] == names;
    FirstOccurrencesSnoc(Valids(names, domains), name);
  }

  /** One step of the scan: `known` are the hostnames found among `names`. */
  method Consider(name: string, domains: iset<string>, known: seq<string>, ghost names: seq<string>)
    returns (hostnames: seq<string>)
    requires known == Hostnames(names, domains)
    ensures hostnames == Hostnames(names + [name], domains)
  {
    HostnamesSnoc(names, name, domains);
    hostnames := known;
    if name != "" && name !in known {
      var ok := IsValidHostname(name, domains);
      if ok {
        hostnames := known + [name];
      }
    }
  }

  lemma CandidatesSnoc(labels: map<string, string>, wanted: seq<string>, i: nat)
    requires i < |wanted|
    ensures Candidates(labels, wanted[..i + 1]) ==
            Candidates(labels, wanted[..i]) +
              (if wanted[i] in labels then Trimmed(Split(labels[wanted[i]], ',')) else [])
  {
    assert wanted[..i + 1][..i] == wanted[..i];
  }

  /** One label value. */
  method ConsiderAll(parts: seq<string>, domains: iset<string>, known: seq<string>, ghost names: seq<string>)
    returns (hostnames: seq<string>)
    requires known == Hostnames(names, domains)
    ensures hostnames == Hostnames(names + Trimmed(parts), domains)
  {
    hostnames := known;
    assert names + Trimmed(parts)[..0] == names;
    for j := 0 to |parts|
      invariant hostnames == Hostnames(names + Trimmed(parts)[..j], domains)
    {
      assert names + Trimmed(parts)[..j + 1] == names + Trimmed(parts)[..j] + [Trim(parts[j])];
      hostnames := Consider(Trim(parts[j]), domains, hostnames, names + Trimmed(parts)[..j]);
    }
    assert Trimmed(parts)[..|parts|] == Trimmed(parts);
  }

  method ExtractHostnames(labels: map<string, string>, wanted: seq<string>, domains: iset<string>)
    returns (hostnames: seq<string>)
    ensures hostnames == Hostnames(Candidates(labels, wanted), domains)
    ensures forall h :: h in hostnames <==> h in Candidates(labels, wanted) && ValidHostname(h, domains)
    ensures forall i, j | 0 <= i < j < |hostnames| :: hostnames[i] != hostnames[j]
  {
    hostnames := [];
    for i := 0 to |wanted|
      invariant hostnames == Hostnames(Candidates(labels, wanted[..i]), domains)
    {
      CandidatesSnoc(labels, wanted, i);
      assert Candidates(labels, wanted[..i]) + [] == Candidates(labels, wanted[..i]);
      if wanted[i] in labels {
        hostnames := ConsiderAll(Split(labels[wanted[i]], ','), domains, hostnames, Candidates(labels, wanted[..i]));
      }
    }
    assert wanted[..|wanted|] == wanted;
    ValidsMembers(Candidates(labels, wanted), domains);
    FirstOccurrencesOnce(Valids(Candidates(labels, wanted), domains));
  }

  // ---- Labels printed from hosts ----

  /** A host as written between the commas of a label. */
  datatype Padded = Padded(before: string, host: string, after: string)

  /** Any spaces around a text without commas and without spaces at its ends. */
  predicate Printable(p: Padded) {
    AllSpaces(p.before) && AllSpaces(p.after) && Tight(p.host) && ',' !in p.host
  }

  function PrintPadded(ps: seq<Padded>): seq<string> {
    seq(|ps|, i requires 0 <= i < |ps| => ps[i].before + ps[i].host + ps[i].after)
  }

  function PrintLabel(ps: seq<Padded>): string { Join(PrintPadded(ps), ',') }

  function HostsIn(ps: seq<Padded>): seq<string> {
    seq(|ps|, i requires 0 <= i < |ps| => ps[i].host)
  }

  lemma LabelRead(ps: seq<Padded>)
    requires ps != [] && forall i | 0 <= i < |ps| :: Printable(ps[i])
    ensures Trimmed(Split(PrintLabel(ps), ',')) == HostsIn(ps)
  {
    var parts := PrintPadded(ps);
    forall i | 0 <= i < |ps| ensures ',' !in parts[i] && Trim(parts[i]) == ps[i].host {
      TrimPadded(ps[i].before, ps[i].host, ps[i].after);
    }
    SplitJoin(parts, ',');
  }

  /** The hosts of the wanted labels, in the order of the configured label names. */
  function HostsWanted(printed: map<string, seq<Padded>>, wanted: seq<string>): seq<string> {
    if wanted == [] then []
    else
      var last := wanted[|wanted| - 1];
      HostsWanted(printed, wanted[..|wanted| - 1]) + (if last in printed then HostsIn(printed[last]) else [])
  }

  /** Labels whose values are printed from hosts, and nothing else. */
  predicate Prints(labels: map<string, string>, printed: map<string, seq<Padded>>) {
    && labels.Keys == printed.Keys
    && (forall l | l in printed :: printed[l] != [] && forall i | 0 <= i < |printed[l]| :: Printable(printed[l][i]))
    && (forall l | l in printed :: labels[l] == PrintLabel(printed[l]))
  }

  lemma {:induction false} CandidatesRead(labels: map<string, string>, printed: map<string, seq<Padded>>,
                                          wanted: seq<string>)
    requires Prints(labels, printed)
    ensures Candidates(labels, wanted) == HostsWanted(printed, wanted)
  {
    if wanted == [] {
    } else {
      var last := wanted[|wanted| - 1];
      CandidatesRead(labels, printed, wanted[..|wanted| - 1]);
      if last in printed { LabelRead(printed[last]); }
    }
  }

  lemma {:induction false} AllValid(names: seq<string>, domains: iset<string>)
    requires forall h | h in names :: ValidHostname(h, domains)
    ensures Valids(names, domains) == names
  {
    if names == [] {
    } else {
      AllValid(names[..|names| - 1], domains);
      assert names == names[..|names| - 1] + [names[|names| - 1]];
    }
  }

  /**
   * Hosts printed into labels, with commas between them and any spaces around them, come back: the valid ones each once
   * and, when all are valid, in the order in which they first occur.
   */
  lemma LabelsRoundTrip(labels: map<string, string>, printed: map<string, seq<Padded>>, wanted: seq<string>,
                        domains: iset<string>)
    requires Prints(labels, printed)
    ensures
      var hostnames, hosts := Hostnames(Candidates(labels, wanted), domains), HostsWanted(printed, wanted);
      && (forall h :: h in hostnames <==> h in hosts && ValidHostname(h, domains))
      && (forall i, j | 0 <= i < j < |hostnames| :: hostnames[i] != hostnames[j])
      && ((forall h | h in hosts :: ValidHostname(h, domains)) ==> hostnames == FirstOccurrences(hosts))
  {
    var hosts := HostsWanted(printed, wanted);
    CandidatesRead(labels, printed, wanted);
    ValidsMembers(hosts, domains);
    FirstOccurrencesOnce(Valids(hosts, domains));
    if forall h | h in hosts :: ValidHostname(h, domains) { AllValid(hosts, domains); }
  }

  // ---- Event handlers ----

  /** Releasing containers, whether or not they had names to drop. */
  lemma ReleaseEffect(x: NodeView, ids: seq<string>, time: int, ip: string, node: Option<string>)
    ensures
      var names := NamesOfAll(x.tracked, ids);
      var ms := if node.None? then [] else RemoveMessages(names, Stamp(time, node.value));
      Enacted(x, Release(ids, time), ip, node) ==
        NodeView(TrackedAfter(x.tracked, Release(ids, time)),
                 Run(x.store.(data := x.store.data - Keys(names)), ms), x.sent + ms)
  {
    var names := NamesOfAll(x.tracked, ids);
    assert Keys([]) == {};
    assert x.store.data - {} == x.store.data;
    assert x.sent + [] == x.sent;
    if node.Some? {
      var stamp := Stamp(time, node.value);
      assert RemoveMessages(names, stamp) + AddMessages([], ip, stamp) == RemoveMessages(names, stamp);
    }
    assert (x.store.data - Keys(names)) + Constant({}, ip) == x.store.data - Keys(names);
  }

  lemma ReleaseOne(x: NodeView, id: string, time: int, ip: string, node: Option<string>)
    ensures
      var names := NamesOf(x.tracked, id);
      var ms := if node.None? then [] else RemoveMessages(names, Stamp(time, node.value));
      Enacted(x, Release([id], time), ip, node) ==
        NodeView(x.tracked - {id}, Run(x.store.(data := x.store.data - Keys(names)), ms), x.sent + ms)
    ensures id !in x.tracked ==> Enacted(x, Release([id], time), ip, node) == x
  {
    ReleaseEffect(x, [id], time, ip, node);
    assert [id][..0] == [];
    assert NamesOfAll(x.tracked, [id]) == NamesOf(x.tracked, id);
    assert (set i | i in [id]) == {id};
    if id !in x.tracked {
      assert x.tracked - {id} == x.tracked;
    }
  }

  lemma RemoveTwice<V>(m: map<string, V>, a: set<string>, b: set<string>)
    ensures (m - a) - b == m - (a + b)
  {
  }

  lemma ListingSnoc(listing: seq<Listed>, i: nat)
    requires i < |listing|
    ensures
      var c := listing[i];
      if c.names == [] then
        Claims(listing[..i + 1]) == Claims(listing[..i]) && Seen(listing[..i + 1]) == Seen(listing[..i])
      else
        && Claims(listing[..i + 1]) == Claims(listing[..i]) + [Claim(c.id, c.names, c.time)]
        && Seen(listing[..i + 1]) == Seen(listing[..i]) + [c.id]
  {
    assert listing[..i + 1][..i] == listing[..i];
  }

  /** Each key once, in some order: the walk of a Go map. */
  method Walk(m: Tracked) returns (order: seq<string>)
    ensures forall id :: id in order <==> id in m
    ensures forall i, j | 0 <= i < j < |order| :: order[i] != order[j]
  {
    order := [];
    var todo := m.Keys;
    while todo != {}
      invariant todo <= m.Keys
      invariant forall id :: id in order <==> id in m && id !in todo
      invariant forall i, j | 0 <= i < j < |order| :: order[i] != order[j]
      decreases |todo|
    {
      var id :| id in todo;
      order := order + [id];
      todo := todo - {id};
    }
  }

  lemma SweepStep(tracked: Tracked, order: seq<string>, i: nat, seen: seq<string>)
    requires i < |order| && order[i] in tracked && forall x, y | 0 <= x < y < |order| :: order[x] != order[y]
    ensures
      var id, ids, ids' := order[i], Minus(order[..i], seen), Minus(order[..i + 1], seen);
      var before, after := TrackedAfter(tracked, Release(ids, 0)), TrackedAfter(tracked, Release(ids', 0));
      if id in seen then ids' == ids
      else
        && id in before && before[id] == tracked[id] && after == before - {id}
        && NamesOfAll(tracked, ids') == NamesOfAll(tracked, ids) + tracked[id]
  {
    assert order[..i + 1][..i] == order[..i];
    var id, ids := order[i], Minus(order[..i], seen);
    if id !in seen {
      assert (ids + [id])[..|ids|] == ids;
      assert (set x | x in ids + [id]) == (set x | x in ids) + {id};
      RemoveTwice(tracked, set x | x in ids, {id});
    }
  }

  class DockerWatcher {
    const hostIP: string
    const records: Records
    /** Present when clustering is enabled; changes are then announced through it. */
    const cluster: ClusterManager?
    var containers: Tracked

    constructor (hostIP: string, records: Records, cluster: ClusterManager?)
      requires cluster != null ==> cluster.records == records
      ensures Valid() && containers == map[]
      ensures this.records == records && this.cluster == cluster && this.hostIP == hostIP
    {
      this.hostIP, this.records, this.cluster := hostIP, records, cluster;
      containers := map[];
    }

    predicate Valid() { cluster != null ==> cluster.records == records }

    function Footprint(): set<object> {
      {records} + if cluster == null then {} else {cluster}
    }

    function Announcer(): Option<string>
      reads cluster
    {
      if cluster != null && cluster.running then Some(cluster.node) else None
    }

    function Broadcasts(): seq<Message>
      reads cluster
    {
      if cluster == null then [] else cluster.broadcasts
    }

    function View(): NodeView
      reads this, records, cluster
    {
      NodeView(containers, records.Value(), Broadcasts())
    }

    method AnnounceRemoves(hosts: seq<string>, time: int)
      requires Valid()
      modifies Footprint()
      ensures Announcer() == old(Announcer())
      ensures
        var ms := if Announcer().None? then [] else RemoveMessages(hosts, Stamp(time, Announcer().value));
        records.Value() == Run(old(records.Value()), ms) && Broadcasts() == old(Broadcasts()) + ms
    {
      if cluster == null || !cluster.running {
        return;
      }
      var stamp := Stamp(time, cluster.node);
      for i := 0 to |hosts|
        invariant cluster.running
        invariant records.Value() == Run(old(records.Value()), RemoveMessages(hosts[..i], stamp))
        invariant cluster.broadcasts == old(cluster.broadcasts) + RemoveMessages(hosts[..i], stamp)
      {
        ghost var ms, m := RemoveMessages(hosts[..i], stamp), Message(hosts[i], "", Remove, stamp);
        assert RemoveMessages(hosts[..i + 1], stamp) == ms + [m];
        RunConcat(old(records.Value()), ms, [m]);
        cluster.NotifyRecordRemove(hosts[i], time);
      }
      assert hosts[..|hosts|] == hosts;
    }

    method AnnounceAdds(hosts: seq<string>, time: int)
      requires Valid()
      modifies Footprint()
      ensures Announcer() == old(Announcer())
      ensures
        var ms := if Announcer().None? then [] else AddMessages(hosts, hostIP, Stamp(time, Announcer().value));
        records.Value() == Run(old(records.Value()), ms) && Broadcasts() == old(Broadcasts()) + ms
    {
      if cluster == null || !cluster.running {
        return;
      }
      var stamp := Stamp(time, cluster.node);
      for i := 0 to |hosts|
        invariant cluster.running
        invariant records.Value() == Run(old(records.Value()), AddMessages(hosts[..i], hostIP, stamp))
        invariant cluster.broadcasts == old(cluster.broadcasts) + AddMessages(hosts[..i], hostIP, stamp)
      {
        ghost var ms, m := AddMessages(hosts[..i], hostIP, stamp), Message(hosts[i], hostIP, Add, stamp);
        assert AddMessages(hosts[..i + 1], hostIP, stamp) == ms + [m];
        RunConcat(old(records.Value()), ms, [m]);
        cluster.NotifyRecordAdd(hosts[i], hostIP, time);
      }
      assert hosts[..|hosts|] == hosts;
    }

    method AnnounceTurn(turn: Turn)
      requires Valid()
      modifies Footprint()
      ensures Announcer() == old(Announcer())
      ensures
        var ms := if Announcer().None? then [] else TurnMessages(turn, hostIP, Announcer().value);
        records.Value() == Run(old(records.Value()), ms) && Broadcasts() == old(Broadcasts()) + ms
    {
      AnnounceRemoves(turn.dropped, turn.time);
      AnnounceAdds(turn.added, turn.time);
      if Announcer().Some? {
        ghost var stamp := Stamp(turn.time, Announcer().value);
        assert old(Broadcasts()) + RemoveMessages(turn.dropped, stamp) + AddMessages(turn.added, hostIP, stamp) ==
               old(Broadcasts()) + TurnMessages(turn, hostIP, Announcer().value);
        RunConcat(old(records.Value()), RemoveMessages(turn.dropped, stamp), AddMessages(turn.added, hostIP, stamp));
      }
    }

    /** Removes the names of `hosts` that are not in `keep`, and reports them. */
    method DropNames(hosts: seq<string>, keep: seq<string>) returns (removed: seq<string>)
      modifies records
      ensures removed == Minus(hosts, keep)
      ensures records.Value() == old(records.Value()).(data := old(records.data) - Keys(removed))
    {
      removed := [];
      for i := 0 to |hosts|
        invariant removed == Minus(hosts[..i], keep)
        invariant records.Value() == old(records.Value()).(data := old(records.data) - Keys(removed))
      {
        assert hosts[..i + 1][..i] == hosts[..i];
        if hosts[i] !in keep {
          assert (removed + [hosts[i]])[..|removed|] == removed;
          KeysSnoc(removed + [hosts[i]]);
          records.RemovePlain(hosts[i]);
          removed := removed + [hosts[i]];
        }
      }
      assert hosts[..|hosts|] == hosts;
    }

    /** Adds the names of `hosts` that are not in `known`, and reports them. */
    method AddNames(hosts: seq<string>, known: seq<string>) returns (added: seq<string>)
      modifies records
      ensures added == Minus(hosts, known)
      ensures records.Value() == old(records.Value()).(data := old(records.data) + Constant(Keys(added), hostIP))
    {
      added := [];
      for i := 0 to |hosts|
        invariant added == Minus(hosts[..i], known)
        invariant records.Value() == old(records.Value()).(data := old(records.data) + Constant(Keys(added), hostIP))
      {
        assert hosts[..i + 1][..i] == hosts[..i];
        if hosts[i] !in known {
          assert (added + [hosts[i]])[..|added|] == added;
          KeysSnoc(added + [hosts[i]]);
          ConstantSnoc(old(records.data), Keys(added), Lower(hosts[i]), hostIP);
          records.AddPlain(hosts[i], hostIP);
          added := added + [hosts[i]];
        }
      }
      assert hosts[..|hosts|] == hosts;
    }

    method UpdateContainer(id: string, newHostnames: seq<string>, time: int)
      requires Valid()
      modifies this, Footprint()
      ensures Announcer() == old(Announcer())
      ensures View() == Enacted(old(View()), Claim(id, newHostnames, time), hostIP, Announcer())
    {
      var oldHostnames := if id in containers then containers[id] else [];
      containers := containers[id := newHostnames];
      var removed := DropNames(oldHostnames, newHostnames);
      var added := AddNames(newHostnames, oldHostnames);
      AnnounceTurn(Turn(removed, added, time));
    }

    method HandleContainerStart(id: string, hostnames: seq<string>, time: int)
      requires Valid()
      modifies this, Footprint()
      ensures Announcer() == old(Announcer())
      ensures View() == EnactedAll(old(View()), Changes(Start(id, hostnames, time)), hostIP, Announcer())
    {
      if |hostnames| > 0 {
        EnactedSnoc(View(), [], Claim(id, hostnames, time), hostIP, Announcer());
        assert [] + [Claim(id, hostnames, time)] == [Claim(id, hostnames, time)];
        UpdateContainer(id, hostnames, time);
      }
    }

    method RemoveNames(hosts: seq<string>)
      modifies records
      ensures records.Value() == old(records.Value()).(data := old(records.data) - Keys(hosts))
    {
      assert Keys([]) == {};
      for i := 0 to |hosts|
        invariant records.Value() == old(records.Value()).(data := old(records.data) - Keys(hosts[..i]))
      {
        assert hosts[..i + 1][..i] == hosts[..i];
        KeysSnoc(hosts[..i + 1]);
        records.RemovePlain(hosts[i]);
      }
      assert hosts[..|hosts|] == hosts;
    }

    /** The common end of a stop and of a sweep: names are gone, now announce that. */
    method AnnounceGone(hosts: seq<string>, time: int)
      requires Valid()
      modifies Footprint()
      ensures Announcer() == old(Announcer())
      ensures
        var ms := if Announcer().None? then [] else RemoveMessages(hosts, Stamp(time, Announcer().value));
        records.Value() == Run(old(records.Value()), ms) && Broadcasts() == old(Broadcasts()) + ms
    {
      if |hosts| > 0 {
        AnnounceRemoves(hosts, time);
      }
    }

    method HandleContainerStop(id: string, time: int)
      requires Valid()
      modifies this, Footprint()
      ensures Announcer() == old(Announcer())
      ensures View() == EnactedAll(old(View()), Changes(Stop(id, time)), hostIP, Announcer())
    {
      ghost var c := Release([id], time);
      EnactedSnoc(View(), [], c, hostIP, Announcer());
      assert [] + [c] == [c];
      ReleaseOne(View(), id, time, hostIP, Announcer());
      if id in containers {
        var hostnames := containers[id];
        containers := containers - {id};
        RemoveNames(hostnames);
        AnnounceGone(hostnames, time);
      }
    }

    /** The claims of a sync, container by container. */
    method ApplyListing(listing: seq<Listed>) returns (seen: set<string>)
      requires Valid()
      modifies this, Footprint()
      ensures Announcer() == old(Announcer())
      ensures forall id :: id in seen <==> id in Seen(listing)
      ensures View() == EnactedAll(old(View()), Claims(listing), hostIP, Announcer())
    {
      seen := {};
      for i := 0 to |listing|
        invariant Announcer() == old(Announcer())
        invariant forall id :: id in seen <==> id in Seen(listing[..i])
        invariant View() == EnactedAll(old(View()), Claims(listing[..i]), hostIP, Announcer())
      {
        ListingSnoc(listing, i);
        var c := listing[i];
        if |c.names| > 0 {
          EnactedSnoc(old(View()), Claims(listing[..i]), Claim(c.id, c.names, c.time), hostIP, Announcer());
          UpdateContainer(c.id, c.names, c.time);
          seen := seen + {c.id};
        }
      }
      assert listing[..|listing|] == listing;
    }

    /** Forgets the tracked containers that were not seen; `order` reports the order of the walk. */
    method Sweep(seen: set<string>, ghost listed: seq<string>) returns (removed: seq<string>, order: seq<string>)
      requires forall id :: id in seen <==> id in listed
      modifies this, records
      ensures forall id :: id in order <==> id in old(containers)
      ensures removed == NamesOfAll(old(containers), Minus(order, listed))
      ensures containers == TrackedAfter(old(containers), Release(Minus(order, listed), 0))
      ensures records.Value() == old(records.Value()).(data := old(records.data) - Keys(removed))
    {
      order := Walk(containers);
      removed := [];
      ghost var tracked := containers;
      assert Keys([]) == {};
      for i := 0 to |order|
        invariant removed == NamesOfAll(tracked, Minus(order[..i], listed))
        invariant containers == TrackedAfter(tracked, Release(Minus(order[..i], listed), 0))
        invariant records.Value() == old(records.Value()).(data := old(records.data) - Keys(removed))
      {
        SweepStep(tracked, order, i, listed);
        if order[i] !in seen {
          var names := Forget(order[i]);
          KeysConcat(removed, names);
          RemoveTwice(old(records.data), Keys(removed), Keys(names));
          removed := removed + names;
        }
      }
      assert order[..|order|] == order;
    }

    method Forget(id: string) returns (names: seq<string>)
      requires id in containers
      modifies this, records
      ensures names == old(containers)[id] && containers == old(containers) - {id}
      ensures records.Value() == old(records.Value()).(data := old(records.data) - Keys(names))
    {
      names := containers[id];
      RemoveNames(names);
      containers := containers - {id};
    }

    method SyncContainers(listing: seq<Listed>, time: int) returns (ghost order: seq<string>)
      requires Valid()
      modifies this, Footprint()
      ensures Announcer() == old(Announcer())
      ensures forall id :: id in order <==> id in EnactedAll(old(View()), Claims(listing), hostIP, Announcer()).tracked
      ensures View() == EnactedAll(old(View()), Changes(Sync(listing, order, time)), hostIP, Announcer())
    {
      var seen := ApplyListing(listing);
      ghost var x := View();
      var removed, walked := Sweep(seen, Seen(listing));
      order := walked;
      ghost var ids := Minus(order, Seen(listing));
      EnactedSnoc(old(View()), Claims(listing), Release(ids, time), hostIP, Announcer());
      ReleaseEffect(x, ids, time, hostIP, Announcer());
      AnnounceGone(removed, time);
    }
  }
}
