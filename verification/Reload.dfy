/** The directory watcher: which files count, what a reload serves, why the served names keep up with the directory. */
module Reload {
  import opened Names
  import opened RecordStore
  import opened Text
  import opened EnvTemplate
  import opened TraefikParser

  const MAX_FILE_SIZE := 0x10_0000

  const MIDDLEWARE_ONLY: set<string> :=
    {"middleware.yml", "authentik_middleware.yml", "authelia_middlewares.yml", "crowdsec-bouncer.yml"}

  // ---- Paths ----

  /** filepath.Ext: the last dot of the last path element and what follows it. */
  function Ext(path: string): string {
    if path == [] || path[|path| - 1] == '/' then []
    else if path[|path| - 1] == '.' then ['.']
    else
      var e := Ext(path[..|path| - 1]);
      if e == [] then [] else e + [path[|path| - 1]]
  }

  function TrimSlashes(path: string): string {
    if path != [] && path[|path| - 1] == '/' then TrimSlashes(path[..|path| - 1]) else path
  }

  function LastElement(path: string): string {
    if path == [] || path[|path| - 1] == '/' then [] else LastElement(path[..|path| - 1]) + [path[|path| - 1]]
  }

  /** filepath.Base. */
  function Base(path: string): string {
    if path == [] then "."
    else if TrimSlashes(path) == [] then "/"
    else LastElement(TrimSlashes(path))
  }

  predicate IsYaml(ext: string) { ext == ".yml" || ext == ".yaml" }

  /** The test a reload applies to a directory entry. */
  predicate NameCounts(name: string) { IsYaml(Ext(name)) && name !in MIDDLEWARE_ONLY }

  /** The test the event handler applies to the path of an event. */
  predicate EventCounts(path: string) { IsYaml(Ext(path)) && Base(path) !in MIDDLEWARE_ONLY }

  predicate EntryName(name: string) { name != [] && '/' !in name }

  function PathOf(directory: string, name: string): string { directory + ['/'] + name }

  lemma {:induction false} ExtOfPath(directory: string, name: string)
    requires '/' !in name
    ensures Ext(PathOf(directory, name)) == Ext(name)
  {
    var p := PathOf(directory, name);
    if name == [] {
    } else {
      assert p[..|p| - 1] == PathOf(directory, name[..|name| - 1]);
      ExtOfPath(directory, name[..|name| - 1]);
    }
  }

  lemma {:induction false} LastElementOfPath(directory: string, name: string)
    requires '/' !in name
    ensures LastElement(PathOf(directory, name)) == name
  {
    var p := PathOf(directory, name);
    if name == [] {
    } else {
      assert p[..|p| - 1] == PathOf(directory, name[..|name| - 1]);
      LastElementOfPath(directory, name[..|name| - 1]);
      assert name == name[..|name| - 1] + [name[|name| - 1]];
    }
  }

  // ---- Which names count ----

  predicate EndsWith(s: string, suffix: string) { |suffix| <= |s| && s[|s| - |suffix|..] == suffix }

  /** The extension begins at the last dot. */
  lemma {:induction false} ExtAtDot(a: string, b: string)
    requires '.' !in b && '/' !in b
    ensures Ext(a + ['.'] + b) == ['.'] + b
    decreases |b|
  {
    var p := a + ['.'] + b;
    if b == [] {
    } else {
      assert p[..|p| - 1] == a + ['.'] + b[..|b| - 1];
      ExtAtDot(a, b[..|b| - 1]);
      assert ['.'] + b == (['.'] + b[..|b| - 1]) + [b[|b| - 1]];
    }
  }

  lemma {:induction false} NoExt(b: string)
    requires '.' !in b && '/' !in b
    ensures Ext(b) == []
  {
    if b == [] {
    } else {
      NoExt(b[..|b| - 1]);
    }
  }

  lemma {:induction false} ExtIsSuffix(name: string)
    ensures EndsWith(name, Ext(name))
  {
    if name == [] || name[|name| - 1] == '/' || name[|name| - 1] == '.' {
    } else {
      ExtIsSuffix(name[..|name| - 1]);
      var e := Ext(name[..|name| - 1]);
      if e != [] { assert name[|name| - |e| - 1..] == name[..|name| - 1][|name| - 1 - |e|..] + [name[|name| - 1]]; }
    }
  }

  lemma ExtIff(name: string, kind: string)
    requires kind != [] && '.' !in kind && '/' !in kind
    ensures Ext(name) == ['.'] + kind <==> EndsWith(name, ['.'] + kind)
  {
    var suffix := ['.'] + kind;
    if Ext(name) == suffix { ExtIsSuffix(name); }
    if EndsWith(name, suffix) {
      var a := name[..|name| - |suffix|];
      assert name == a + ['.'] + kind;
      ExtAtDot(a, kind);
    }
  }

  /** A name counts exactly when it ends in .yml or .yaml and is none of the four middleware files. */
  lemma NameCountsIff(name: string)
    ensures NameCounts(name) <==>
            && (EndsWith(name, ".yml") || EndsWith(name, ".yaml"))
            && name !in {"middleware.yml", "authentik_middleware.yml", "authelia_middlewares.yml",
                         "crowdsec-bouncer.yml"}
  {
    ExtIff(name, "yml");
    ExtIff(name, "yaml");
    assert ['.'] + "yml" == ".yml" && ['.'] + "yaml" == ".yaml";
  }

  /** The two tests agree, so an event that is ignored is about a file that no reload reads. */
  lemma EventCountsIffNameCounts(directory: string, name: string)
    requires EntryName(name)
    ensures EventCounts(PathOf(directory, name)) <==> NameCounts(name)
  {
    var p := PathOf(directory, name);
    assert p[|p| - 1] == name[|name| - 1];
    ExtOfPath(directory, name);
    LastElementOfPath(directory, name);
  }

  // ---- What a reload serves ----

  datatype File = File(isDir: bool, statFails: bool, regular: bool, readable: bool, content: string)

  type Directory = map<string, File>

  function ParseFile(f: File, env: Env): Option<seq<string>> {
    if !f.readable || |f.content| > MAX_FILE_SIZE then None else Some(Parse(f.content, env))
  }

  predicate Eligible(name: string, f: File) { !f.isDir && !f.statFails && f.regular && NameCounts(name) }

  function HostsOf(name: string, f: File, env: Env): seq<string> {
    if Eligible(name, f) && ParseFile(f, env).Some? then ParseFile(f, env).value else []
  }

  function AllHosts(dir: Directory, env: Env): set<string> {
    set name, h | name in dir && h in HostsOf(name, dir[name], env) :: h
  }

  /** Every host of every eligible file, at the host's own address. */
  function Loaded(dir: Directory, env: Env, ip: string): map<string, string> {
    Constant(AllHosts(dir, env), ip)
  }

  lemma {:induction false} ResolvedIsLower(templates: seq<string>, env: Env)
    ensures forall h | h in Resolved(templates, env) :: Lower(h) == h
  {
    if templates == [] {
    } else {
      ResolvedIsLower(templates[..|templates| - 1], env);
      LowerIdempotent(Resolve(templates[|templates| - 1], env));
    }
  }

  lemma HostsAreLower(name: string, f: File, env: Env)
    ensures forall h | h in HostsOf(name, f, env) :: Lower(h) == h
  {
    var clean := Strip(f.content);
    ResolvedIsLower(HostTemplates(clean) + SniTemplates(clean), env);
    FirstOccurrencesOnce(Resolved(HostTemplates(clean) + SniTemplates(clean), env));
  }

  /** Changing a file that does not count changes nothing that a reload would serve. */
  lemma IgnoredChange(dir: Directory, dir': Directory, name: string, env: Env)
    requires !NameCounts(name) && dir - {name} == dir' - {name}
    ensures AllHosts(dir, env) == AllHosts(dir', env)
  {
    forall n | n != name ensures (n in dir <==> n in dir') && (n in dir ==> dir[n] == dir'[n]) {
      assert n in dir <==> n in dir - {name};
      assert n in dir' <==> n in dir' - {name};
      if n in dir { assert (dir - {name})[n] == dir[n] && (dir' - {name})[n] == dir'[n]; }
    }
  }

  // ---- What is served, file by file ----

  /** A regular file of at most one megabyte that can be read. */
  predicate Loadable(f: File) {
    !f.isDir && !f.statFails && f.regular && f.readable && |f.content| <= 1024 * 1024
  }

  predicate Offers(name: string, f: File, env: Env, h: string) {
    NameCounts(name) && Loadable(f) && h in Parse(f.content, env)
  }

  lemma HostsOfIff(name: string, f: File, env: Env, h: string)
    ensures h in HostsOf(name, f, env) <==> Offers(name, f, env, h)
  {
  }

  /** A host is served exactly when a loadable file with a name that counts has it, and then at the host's address. */
  lemma LoadedIff(dir: Directory, env: Env, ip: string, h: string)
    ensures h in Loaded(dir, env, ip) <==> exists name | name in dir :: Offers(name, dir[name], env, h)
    ensures h in Loaded(dir, env, ip) ==> Loaded(dir, env, ip)[h] == ip
  {
    forall name | name in dir ensures h in HostsOf(name, dir[name], env) <==> Offers(name, dir[name], env, h) {
      HostsOfIff(name, dir[name], env, h);
    }
    if h in Loaded(dir, env, ip) {
      assert h in AllHosts(dir, env);
    }
    if name :| name in dir && Offers(name, dir[name], env, h) {
      assert h in AllHosts(dir, env);
    }
  }

  /** From the rules of a file to the served names: what its rules name is served, whatever else the directory holds. */
  lemma RulesAreServed(dir: Directory, name: string, pieces: seq<Piece>, tail: string, env: Env, ip: string, p: Piece,
                       host: string)
    requires name in dir && Loadable(dir[name]) && dir[name].content == Print(pieces, tail)
    requires EndsWith(name, ".yml") || EndsWith(name, ".yaml")
    requires name !in {"middleware.yml", "authentik_middleware.yml", "authelia_middlewares.yml", "crowdsec-bouncer.yml"}
    requires PrintableDoc(pieces, tail) && NoComments(Print(pieces, tail))
    requires forall q | q in pieces :: forall n | n in q.rule.names :: '{' !in n
    requires p in pieces && host in p.rule.names
    ensures Lower(host) in Loaded(dir, env, ip) && Loaded(dir, env, ip)[Lower(host)] == ip
  {
    NameCountsIff(name);
    PlainRoundTrip(pieces, tail, env);
    NamesAreAll(pieces, p, host);
    var names := NamesOf(pieces, false) + NamesOf(pieces, true);
    assert host in names;
    var i :| 0 <= i < |names| && names[i] == host;
    assert LowerAll(names)[i] == Lower(host);
    FirstOccurrencesOnce(LowerAll(names));
    LoadedIff(dir, env, ip, Lower(host));
  }

  lemma {:induction false} NamesAreAll(pieces: seq<Piece>, p: Piece, host: string)
    requires p in pieces && host in p.rule.names
    ensures host in NamesOf(pieces, p.rule.sni)
  {
    if pieces[0] == p {
    } else {
      assert p in pieces[1..];
      NamesAreAll(pieces[1..], p, host);
    }
  }

  // ---- The objects ----

  class ExternalRecords {
    var data: map<string, string>

    constructor ()
      ensures data == map[]
    {
      data := map[];
    }

    method Lookup(host: string) returns (ip: string, found: bool)
      ensures found <==> Lower(host) in data
      ensures ip == if found then data[Lower(host)] else ""
    {
      found := Lower(host) in data;
      ip := if found then data[Lower(host)] else "";
    }

    /** Keys are lowercased; where several collide, one of their addresses is kept. */
    method ReplaceAll(newRecords: map<string, string>)
      modifies this
      ensures forall k :: k in data <==> exists h | h in newRecords :: Lower(h) == k
      ensures forall k | k in data :: exists h | h in newRecords :: Lower(h) == k && newRecords[h] == data[k]
    {
      var normalized: map<string, string> := map[];
      var todo := newRecords.Keys;
      while todo != {}
        invariant todo <= newRecords.Keys
        invariant forall k :: k in normalized <==> exists h | h in newRecords && h !in todo :: Lower(h) == k
        invariant forall k | k in normalized ::
                    exists h | h in newRecords :: Lower(h) == k && newRecords[h] == normalized[k]
        decreases |todo|
      {
        var h :| h in todo;
        ghost var before := normalized;
        normalized := normalized[Lower(h) := newRecords[h]];
        todo := todo - {h};
        forall k ensures k in normalized <==> exists x | x in newRecords && x !in todo :: Lower(x) == k {
          if k in before { var x :| x in newRecords && x !in todo + {h} && Lower(x) == k; }
        }
      }
      data := normalized;
    }
  }

  class FileWatcher {
    const directory: string
    const hostIP: string
    const env: Env
    const records: ExternalRecords
    /** Whether a debounced reload is pending. */
    var armed: bool

    constructor (directory: string, hostIP: string, env: Env, records: ExternalRecords)
      ensures !armed && this.directory == directory && this.hostIP == hostIP
      ensures this.env == env && this.records == records
    {
      this.directory, this.hostIP, this.env, this.records := directory, hostIP, env, records;
      armed := false;
    }

    method HandleEvent(path: string)
      modifies this
      ensures armed == (old(armed) || EventCounts(path))
    {
      if Ext(path) != ".yml" && Ext(path) != ".yaml" {
        return;
      }
      if Base(path) in MIDDLEWARE_ONLY {
        return;
      }
      armed := true;
    }

    method CollectHosts(files: Directory, entries: seq<string>) returns (allHosts: map<string, string>)
      requires forall n :: n in entries <==> n in files
      ensures allHosts == Loaded(files, env, hostIP)
    {
      allHosts := map[];
      for i := 0 to |entries|
        invariant allHosts == Constant(HostsAmong(files, entries[..i], env), hostIP)
      {
        var name := entries[i];
        assert name in entries;
        HostsAmongSnoc(files, entries, i, env);
        if Eligible(name, files[name]) && ParseFile(files[name], env).Some? {
          var hosts := ParseFile(files[name], env).value;
          allHosts := AddHosts(allHosts, hosts, HostsAmong(files, entries[..i], env));
        }
      }
      assert entries[..|entries|] == entries;
      AllAmong(files, entries, env);
    }

    /** `dir` is None when the directory cannot be read; `entries` lists it in any order. */
    method LoadAllConfigs(dir: Option<Directory>, entries: seq<string>) returns (ok: bool)
      requires dir.Some? ==> forall n :: n in entries <==> n in dir.value
      modifies records
      ensures ok == dir.Some?
      ensures records.data == if ok then Loaded(dir.value, env, hostIP) else old(records.data)
    {
      if dir.None? {
        return false;
      }
      var allHosts := CollectHosts(dir.value, entries);
      records.ReplaceAll(allHosts);
      AllAmong(dir.value, entries, env);
      AlreadyNormal(allHosts, records.data);
      ok := true;
    }

    method AddHosts(allHosts: map<string, string>, hosts: seq<string>, ghost known: set<string>)
      returns (r: map<string, string>)
      requires allHosts == Constant(known, hostIP)
      ensures r == Constant(known + Members(hosts), hostIP)
    {
      r := allHosts;
      for j := 0 to |hosts|
        invariant r == Constant(known + Members(hosts[..j]), hostIP)
      {
        MembersSnoc(hosts, j);
        r := r[hosts[j] := hostIP];
      }
      assert hosts[..|hosts|] == hosts;
    }
  }

  lemma AlreadyNormal(m: map<string, string>, r: map<string, string>)
    requires forall h | h in m :: Lower(h) == h
    requires forall k :: k in r <==> exists h | h in m :: Lower(h) == k
    requires forall k | k in r :: exists h | h in m :: Lower(h) == k && m[h] == r[k]
    ensures r == m
  {
    forall k | k in m ensures k in r { assert Lower(k) == k; }
  }

  function HostsAmong(dir: Directory, names: seq<string>, env: Env): set<string> {
    set n, h | n in names && n in dir && h in HostsOf(n, dir[n], env) :: h
  }

  lemma HostsAmongSnoc(dir: Directory, names: seq<string>, i: nat, env: Env)
    requires i < |names| && names[i] in dir
    ensures HostsAmong(dir, names[..i + 1], env) ==
            HostsAmong(dir, names[..i], env) + Members(HostsOf(names[i], dir[names[i]], env))
  {
    assert names[..i + 1] == names[..i] + [names[i]];
    assert forall n :: n in names[..i + 1] <==> n in names[..i] || n == names[i];
  }

  lemma AllAmong(dir: Directory, names: seq<string>, env: Env)
    requires forall n :: n in names <==> n in dir
    ensures HostsAmong(dir, names, env) == AllHosts(dir, env)
    ensures forall h | h in AllHosts(dir, env) :: Lower(h) == h
  {
    forall n | n in dir ensures forall h | h in HostsOf(n, dir[n], env) :: Lower(h) == h {
      HostsAreLower(n, dir[n], env);
    }
  }

  // ---- The watcher over time ----

  /** The directory as a reload read it, after `seen` changes of files that count. */
  datatype Snapshot = Snapshot(dir: Directory, seen: nat)

  /** `Loading` is the initial load between its read and its swap. */
  datatype Phase = Off | Watching | Loading(read: Snapshot) | Running

  /**
   * `events` are paths waiting to be handled, and `loads` the reloads that have read the directory and not yet swapped
   * the store, oldest first.  `shown` is what the latest swap had read, `latest` what the latest successful reload has,
   * and `failed` says that the latest reload could not read the directory.  `changes` counts the changes that count.
   */
  datatype Watcher = Watcher(dir: Directory, changes: nat, phase: Phase, events: seq<string>, armed: bool,
                             loads: seq<Snapshot>, served: map<string, string>,
                             shown: Option<Snapshot>, latest: Option<Snapshot>, failed: bool)

  datatype Step =
    | Touch(name: string, file: Option<File>)
    | Watch
    | InitialRead(ok: bool)
    | InitialSwap
    | Handle
    | Read(ok: bool)
    | Swap(i: nat)
    | Halt

  function ReadNow(w: Watcher): Snapshot { Snapshot(w.dir, w.changes) }

  function SwapIn(w: Watcher, r: Snapshot, env: Env, ip: string): Watcher {
    w.(served := Loaded(r.dir, env, ip), shown := Some(r))
  }

  function Changed(dir: Directory, name: string, file: Option<File>): Directory {
    if file.Some? then dir[name := file.value] else dir - {name}
  }

  /**
   * Start watches the directory before it loads it; each file change emits an event from then on.  Nothing keeps a
   * reload from starting while another one is still under way, and neither a new event nor a halt stops one.
   */
  function Next(w: Watcher, step: Step, directory: string, env: Env, ip: string): Watcher {
    match step
    case Touch(name, file) =>
      w.(dir := Changed(w.dir, name, file), changes := if NameCounts(name) then w.changes + 1 else w.changes,
         events := if w.phase == Off then w.events else w.events + [PathOf(directory, name)])
    case Watch => if w.phase == Off then w.(phase := Watching) else w
    case InitialRead(ok) =>
      if w.phase != Watching then w
      else if ok then w.(phase := Loading(ReadNow(w)), latest := Some(ReadNow(w)), failed := false)
      else w.(phase := Running, failed := true)
    case InitialSwap => if w.phase.Loading? then SwapIn(w, w.phase.read, env, ip).(phase := Running) else w
    case Handle =>
      if w.phase == Running && w.events != []
      then w.(events := w.events[1..], armed := w.armed || EventCounts(w.events[0])) else w
    case Read(ok) =>
      if w.phase != Running || !w.armed then w
      else if ok then
        w.(armed := false, loads := w.loads + [ReadNow(w)], latest := Some(ReadNow(w)), failed := false)
      else w.(armed := false, failed := true)
    case Swap(i) =>
      if i < |w.loads| then SwapIn(w, w.loads[i], env, ip).(loads := w.loads[..i] + w.loads[i + 1..]) else w
    case Halt => if w.phase == Running then w.(phase := Off, events := [], armed := false) else w
  }

  function Idle(dir: Directory): Watcher { Watcher(dir, 0, Off, [], false, [], map[], None, None, false) }

  function After(dir: Directory, steps: seq<Step>, directory: string, env: Env, ip: string): Watcher {
    if steps == [] then Idle(dir)
    else Next(After(dir, steps[..|steps| - 1], directory, env, ip), steps[|steps| - 1], directory, env, ip)
  }

  predicate Pending(w: Watcher) { w.armed || exists i | 0 <= i < |w.events| :: EventCounts(w.events[i]) }

  /** Running, with no event that counts waiting, no reload armed or under way, and the latest one successful. */
  predicate Quiescent(w: Watcher) { w.phase == Running && !w.failed && !Pending(w) && w.loads == [] }

  /** What was read after the last change that counts still loads as the directory does. */
  predicate Faithful(w: Watcher, r: Snapshot, env: Env, ip: string) {
    r.seen <= w.changes && (r.seen == w.changes ==> Loaded(r.dir, env, ip) == Loaded(w.dir, env, ip))
  }

  predicate Held(w: Watcher, r: Snapshot) {
    r in w.loads || w.phase == Loading(r) || w.shown == Some(r) || w.latest == Some(r)
  }

  ghost predicate AllFaithful(w: Watcher, env: Env, ip: string) { forall r | Held(w, r) :: Faithful(w, r, env, ip) }

  /** The latest reload read after the last change that counts, unless another one is coming or it failed. */
  predicate LatestIsCurrent(w: Watcher) {
    (w.phase == Running || w.phase.Loading?) && !w.failed && !Pending(w) ==>
      w.latest.Some? && w.latest.value.seen == w.changes
  }

  predicate ServesShown(w: Watcher, env: Env, ip: string) {
    && (w.served == if w.shown.Some? then Loaded(w.shown.value.dir, env, ip) else map[])
    && (w.latest.Some? && w.loads == [] && !w.phase.Loading? ==> w.shown.Some?)
  }

  lemma FaithfulStep(w: Watcher, step: Step, r: Snapshot, directory: string, env: Env, ip: string)
    requires Faithful(w, r, env, ip)
    ensures Faithful(Next(w, step, directory, env, ip), r, env, ip)
  {
    var w' := Next(w, step, directory, env, ip);
    if step.Touch? {
      if !NameCounts(step.name) { IgnoredChange(w.dir, w'.dir, step.name, env); }
    } else {
      assert w'.dir == w.dir && w'.changes == w.changes;
    }
  }

  lemma HeldBefore(w: Watcher, step: Step, r: Snapshot, directory: string, env: Env, ip: string)
    requires Held(Next(w, step, directory, env, ip), r)
    ensures Held(w, r) || r == ReadNow(w)
  {
  }

  lemma AllFaithfulStep(w: Watcher, step: Step, directory: string, env: Env, ip: string)
    requires AllFaithful(w, env, ip)
    ensures AllFaithful(Next(w, step, directory, env, ip), env, ip)
  {
    var w' := Next(w, step, directory, env, ip);
    forall r | Held(w', r) ensures Faithful(w', r, env, ip) {
      HeldBefore(w, step, r, directory, env, ip);
      FaithfulStep(w, step, r, directory, env, ip);
    }
  }

  lemma LatestStep(w: Watcher, step: Step, directory: string, env: Env, ip: string)
    requires LatestIsCurrent(w) && (step.Touch? ==> EntryName(step.name))
    ensures LatestIsCurrent(Next(w, step, directory, env, ip))
  {
    var w' := Next(w, step, directory, env, ip);
    match step
    case Touch(name, file) =>
      EventCountsIffNameCounts(directory, name);
      if w.phase != Off {
        assert w'.events[|w.events|] == PathOf(directory, name);
        assert forall i | 0 <= i < |w.events| :: w'.events[i] == w.events[i];
      }
    case Handle =>
      if w.phase == Running && w.events != [] && Pending(w) && !w.armed {
        var i :| 0 <= i < |w.events| && EventCounts(w.events[i]);
        assert i > 0 ==> w'.events[i - 1] == w.events[i];
      }
    case _ =>
  }

  lemma ShownStep(w: Watcher, step: Step, directory: string, env: Env, ip: string)
    requires ServesShown(w, env, ip)
    ensures ServesShown(Next(w, step, directory, env, ip), env, ip)
  {
  }

  predicate EntryNames(steps: seq<Step>) { forall i | 0 <= i < |steps| && steps[i].Touch? :: EntryName(steps[i].name) }

  lemma {:induction false} ReloadsHold(dir: Directory, steps: seq<Step>, directory: string, env: Env, ip: string)
    requires EntryNames(steps)
    ensures
      var w := After(dir, steps, directory, env, ip);
      AllFaithful(w, env, ip) && LatestIsCurrent(w) && ServesShown(w, env, ip)
  {
    if steps == [] {
    } else {
      var w, step := After(dir, steps[..|steps| - 1], directory, env, ip), steps[|steps| - 1];
      ReloadsHold(dir, steps[..|steps| - 1], directory, env, ip);
      AllFaithfulStep(w, step, directory, env, ip);
      LatestStep(w, step, directory, env, ip);
      ShownStep(w, step, directory, env, ip);
    }
  }

  /**
   * In every quiescent state the latest reload has read what the directory loads now.  Exactly the hosts of the
   * eligible files are served when the reload that swapped last read after the last change that counts, and else
   * exactly when what it read loads as what the latest reload read.
   */
  lemma CacheAgreesIff(dir: Directory, steps: seq<Step>, directory: string, env: Env, ip: string)
    requires EntryNames(steps) && Quiescent(After(dir, steps, directory, env, ip))
    ensures
      var w := After(dir, steps, directory, env, ip);
      && w.latest.Some? && w.latest.value.seen == w.changes
      && w.shown.Some? && w.shown.value.seen <= w.changes
      && (w.shown.value.seen == w.changes ==> w.served == Loaded(w.dir, env, ip))
      && (w.served == Loaded(w.dir, env, ip) <==>
            Loaded(w.shown.value.dir, env, ip) == Loaded(w.latest.value.dir, env, ip))
  {
    var w := After(dir, steps, directory, env, ip);
    ReloadsHold(dir, steps, directory, env, ip);
    assert Held(w, w.latest.value) && Held(w, w.shown.value);
  }

  function AfterFrom(w: Watcher, steps: seq<Step>, directory: string, env: Env, ip: string): Watcher {
    if steps == [] then w
    else Next(AfterFrom(w, steps[..|steps| - 1], directory, env, ip), steps[|steps| - 1], directory, env, ip)
  }

  /** Nothing pending, and no reload comes of changing files that do not count, however often. */
  lemma {:induction false} IgnoredFilesAreQuiet(w: Watcher, steps: seq<Step>, directory: string, env: Env, ip: string)
    requires !Pending(w) && EntryNames(steps)
    requires forall i | 0 <= i < |steps| ::
               (steps[i].Touch? && !NameCounts(steps[i].name)) || steps[i].Handle? || steps[i].Read?
    ensures
      var w' := AfterFrom(w, steps, directory, env, ip);
      !Pending(w') && w'.loads == w.loads && w'.served == w.served && w'.latest == w.latest
  {
    if steps == [] {
    } else {
      IgnoredFilesAreQuiet(w, steps[..|steps| - 1], directory, env, ip);
      QuietStep(AfterFrom(w, steps[..|steps| - 1], directory, env, ip), steps[|steps| - 1], directory, env, ip);
    }
  }

  lemma QuietStep(w: Watcher, step: Step, directory: string, env: Env, ip: string)
    requires !Pending(w) && (step.Touch? ==> EntryName(step.name) && !NameCounts(step.name))
    requires step.Touch? || step.Handle? || step.Read?
    ensures
      var w' := Next(w, step, directory, env, ip);
      !Pending(w') && w'.loads == w.loads && w'.served == w.served && w'.latest == w.latest
  {
    if step.Touch? { EventCountsIffNameCounts(directory, step.name); }
    var w' := Next(w, step, directory, env, ip);
    assert step.Handle? && w.events != [] ==> forall i | 0 < i < |w.events| :: w.events[i] == w.events[1..][i - 1];
  }

  // ---- Reloads that finish in the order in which they read ----

  predicate InOrder(w: Watcher, step: Step) {
    (step.Swap? ==> step.i == 0) && (step.InitialSwap? ==> w.loads == [])
  }

  /** Everything read and not yet swapped in, oldest first. */
  function Underway(w: Watcher): seq<Snapshot> { w.loads + if w.phase.Loading? then [w.phase.read] else [] }

  predicate LatestComesLast(w: Watcher) {
    if Underway(w) == [] then w.shown == w.latest else w.latest == Some(Underway(w)[|Underway(w)| - 1])
  }

  lemma OldestSwaps(w: Watcher, directory: string, env: Env, ip: string)
    requires LatestComesLast(w) && w.loads != []
    ensures LatestComesLast(Next(w, Swap(0), directory, env, ip))
  {
    var w' := Next(w, Swap(0), directory, env, ip);
    var u, u' := Underway(w), Underway(w');
    assert w'.loads == w.loads[1..] && w'.phase == w.phase && w'.latest == w.latest;
    assert w'.shown == Some(w.loads[0]);
    assert |u| == |u'| + 1 && u[0] == w.loads[0];
    if u' != [] { assert u'[|u'| - 1] == u[|u| - 1]; }
  }

  lemma OrderStep(w: Watcher, step: Step, directory: string, env: Env, ip: string)
    requires LatestComesLast(w) && InOrder(w, step)
    ensures LatestComesLast(Next(w, step, directory, env, ip))
  {
    var w' := Next(w, step, directory, env, ip);
    match step
    case Swap(_) => if w.loads != [] { OldestSwaps(w, directory, env, ip); }
    case Read(ok) =>
      if ok && w.phase == Running && w.armed { assert Underway(w') == w.loads + [ReadNow(w)]; }
    case InitialRead(ok) =>
      if ok && w.phase == Watching { assert Underway(w') == w.loads + [ReadNow(w)]; }
    case InitialSwap => if w.phase.Loading? { assert Underway(w) == [w.phase.read]; }
    case _ => assert Underway(w') == Underway(w) && w'.shown == w.shown && w'.latest == w.latest;
  }

  lemma OrderNext(dir: Directory, steps: seq<Step>, directory: string, env: Env, ip: string)
    requires steps != []
    requires
      var w := After(dir, steps[..|steps| - 1], directory, env, ip);
      LatestComesLast(w) && InOrder(w, steps[|steps| - 1])
    ensures LatestComesLast(After(dir, steps, directory, env, ip))
  {
    OrderStep(After(dir, steps[..|steps| - 1], directory, env, ip), steps[|steps| - 1], directory, env, ip);
  }

  lemma {:induction false} OrderHolds(dir: Directory, steps: seq<Step>, n: nat, directory: string, env: Env, ip: string)
    requires n <= |steps|
    requires forall i | 0 <= i < n :: InOrder(After(dir, steps[..i], directory, env, ip), steps[i])
    ensures LatestComesLast(After(dir, steps[..n], directory, env, ip))
    decreases n
  {
    if n == 0 {
      assert After(dir, steps[..0], directory, env, ip) == Idle(dir);
    } else {
      OrderHolds(dir, steps, n - 1, directory, env, ip);
      assert steps[..n][..n - 1] == steps[..n - 1];
      OrderNext(dir, steps[..n], directory, env, ip);
    }
  }

  /** While reloads swap in the order in which they read, a quiescent watcher serves exactly the eligible hosts. */
  lemma CacheAgrees(dir: Directory, steps: seq<Step>, directory: string, env: Env, ip: string)
    requires EntryNames(steps)
    requires forall i | 0 <= i < |steps| :: InOrder(After(dir, steps[..i], directory, env, ip), steps[i])
    ensures
      var w := After(dir, steps, directory, env, ip);
      Quiescent(w) ==> w.served == Loaded(w.dir, env, ip)
  {
    OrderHolds(dir, steps, |steps|, directory, env, ip);
    assert steps[..|steps|] == steps;
    if Quiescent(After(dir, steps, directory, env, ip)) { CacheAgreesIff(dir, steps, directory, env, ip); }
  }

  // ---- A slow reload that finishes last ----

  lemma AfterSnoc(dir: Directory, steps: seq<Step>, step: Step, directory: string, env: Env, ip: string)
    ensures After(dir, steps + [step], directory, env, ip) ==
            Next(After(dir, steps, directory, env, ip), step, directory, env, ip)
  {
    assert (steps + [step])[..|steps|] == steps;
  }

  lemma AfterTwo(dir: Directory, steps: seq<Step>, a: Step, b: Step, directory: string, env: Env, ip: string)
    ensures After(dir, steps + [a] + [b], directory, env, ip) ==
            Next(Next(After(dir, steps, directory, env, ip), a, directory, env, ip), b, directory, env, ip)
  {
    AfterSnoc(dir, steps, a, directory, env, ip);
    AfterSnoc(dir, steps + [a], b, directory, env, ip);
  }

  predicate Listening(w: Watcher) { w.phase == Running && w.events == [] && !w.armed && !w.failed }

  /** A file that counts changes, the event is handled, and the reload it leads to reads the directory. */
  lemma ChangeAndRead(dir: Directory, steps: seq<Step>, name: string, file: File, directory: string, env: Env,
                      ip: string)
    returns (more: seq<Step>)
    requires EntryNames(steps) && EntryName(name) && NameCounts(name)
    requires Listening(After(dir, steps, directory, env, ip))
    ensures EntryNames(more)
    ensures
      var w, w' := After(dir, steps, directory, env, ip), After(dir, more, directory, env, ip);
      && Listening(w') && w'.dir == w.dir[name := file]
      && w'.loads == w.loads + [ReadNow(w')]
  {
    var touch := Touch(name, Some(file));
    EventCountsIffNameCounts(directory, name);
    AfterSnoc(dir, steps, touch, directory, env, ip);
    more := steps + [touch];
    AfterSnoc(dir, more, Handle, directory, env, ip);
    more := more + [Handle];
    AfterSnoc(dir, more, Read(true), directory, env, ip);
    more := more + [Read(true)];
  }

  lemma Started(dir: Directory, directory: string, env: Env, ip: string) returns (steps: seq<Step>)
    ensures EntryNames(steps)
    ensures
      var w := After(dir, steps, directory, env, ip);
      Listening(w) && w.dir == dir && w.loads == []
  {
    AfterSnoc(dir, [], Watch, directory, env, ip);
    steps := [] + [Watch];
    AfterSnoc(dir, steps, InitialRead(true), directory, env, ip);
    steps := steps + [InitialRead(true)];
    AfterSnoc(dir, steps, InitialSwap, directory, env, ip);
    steps := steps + [InitialSwap];
  }

  lemma TwoReads(dir: Directory, name: string, old_: File, new_: File, directory: string, env: Env, ip: string)
    returns (steps: seq<Step>)
    requires EntryName(name) && NameCounts(name)
    ensures EntryNames(steps)
    ensures
      var w := After(dir, steps, directory, env, ip);
      && Listening(w) && w.dir == dir[name := new_]
      && |w.loads| == 2 && w.loads[0].dir == dir[name := old_]
  {
    steps := Started(dir, directory, env, ip);
    steps := ChangeAndRead(dir, steps, name, old_, directory, env, ip);
    var first := After(dir, steps, directory, env, ip).loads;
    assert |first| == 1 && first[0].dir == dir[name := old_];
    steps := ChangeAndRead(dir, steps, name, new_, directory, env, ip);
    assert After(dir, steps, directory, env, ip).loads[0] == first[0];
    assert dir[name := old_][name := new_] == dir[name := new_];
  }

  lemma OlderSwapsLast(w: Watcher, directory: string, env: Env, ip: string)
    requires |w.loads| == 2
    ensures
      var w' := Next(Next(w, Swap(1), directory, env, ip), Swap(0), directory, env, ip);
      w' == w.(loads := [], served := Loaded(w.loads[0].dir, env, ip), shown := Some(w.loads[0]))
  {
    var w1 := Next(w, Swap(1), directory, env, ip);
    assert w1.loads == [w.loads[0]];
    assert w1.loads[..0] + w1.loads[1..] == [];
  }

  /**
   * A file is written twice, and the reload after the first write finishes after the one after the second: whenever the
   * two texts differ in their hosts, the watcher comes to rest serving those of the first.
   */
  lemma StaleReload(dir: Directory, name: string, old_: File, new_: File, directory: string, env: Env, ip: string)
    returns (steps: seq<Step>)
    requires EntryName(name) && NameCounts(name)
    requires Loaded(dir[name := old_], env, ip) != Loaded(dir[name := new_], env, ip)
    ensures EntryNames(steps)
    ensures
      var w := After(dir, steps, directory, env, ip);
      && Quiescent(w) && w.dir == dir[name := new_]
      && w.served == Loaded(dir[name := old_], env, ip) && w.served != Loaded(w.dir, env, ip)
  {
    steps := TwoReads(dir, name, old_, new_, directory, env, ip);
    OlderSwapsLast(After(dir, steps, directory, env, ip), directory, env, ip);
    AfterTwo(dir, steps, Swap(1), Swap(0), directory, env, ip);
    steps := steps + [Swap(1)] + [Swap(0)];
  }
}
