/** Push/pull merges: what they compute, when they make two nodes equal, and how they make up for lost adds. */
module AntiEntropy {
  import opened Names
  import opened RecordStore
  import opened Convergence

  type State = map<string, Entry>

  // ---- A merge and its iteration order ----

  function MergeMessages(state: State, order: seq<string>): seq<Message>
    requires forall h | h in order :: h in state
  {
    seq(|order|, i requires 0 <= i < |order| => Message(order[i], state[order[i]].ip, Add, state[order[i]].stamp))
  }

  /** The part of `state` that beats what s has on record. */
  function Winners(s: Store, state: State, keys: set<string>): set<string> {
    set k | k in keys && k in state && !Blocked(s.meta, k, state[k].stamp)
  }

  function Ips(state: State, keys: set<string>): map<string, string>
    requires keys <= state.Keys
  {
    map k | k in keys :: state[k].ip
  }

  function Stamps(state: State, keys: set<string>): map<string, Stamp>
    requires keys <= state.Keys
  {
    map k | k in keys :: state[k].stamp
  }

  lemma OverlaySnoc(data: map<string, string>, meta: map<string, Stamp>, state: State, keys: set<string>, k: string)
    requires keys <= state.Keys && k in state
    ensures (data + Ips(state, keys))[k := state[k].ip] == data + Ips(state, keys + {k})
    ensures (meta + Stamps(state, keys))[k := state[k].stamp] == meta + Stamps(state, keys + {k})
  {
  }

  function MergeKeys(s: Store, state: State, keys: set<string>): Store {
    var won := Winners(s, state, keys);
    Store(s.data + Ips(state, won), s.meta + Stamps(state, won))
  }

  function Merge(s: Store, state: State): Store {
    MergeKeys(s, state, state.Keys)
  }

  predicate NormalState(state: State) { forall k | k in state :: Lower(k) == k }

  lemma MergeStep(s: Store, state: State, keys: set<string>, k: string)
    requires k in state && Lower(k) == k
    ensures Apply(MergeKeys(s, state, keys), Message(k, state[k].ip, Add, state[k].stamp)) ==
            MergeKeys(s, state, keys + {k})
  {
    var t, won := MergeKeys(s, state, keys), Winners(s, state, keys);
    if k in won || Blocked(s.meta, k, state[k].stamp) {
      StampTotalOrder(state[k].stamp, state[k].stamp, state[k].stamp);
      assert Blocked(t.meta, k, state[k].stamp);
      assert Winners(s, state, keys + {k}) == won;
    } else {
      assert Winners(s, state, keys + {k}) == won + {k};
      assert !Blocked(t.meta, k, state[k].stamp);
      OverlaySnoc(s.data, s.meta, state, won, k);
    }
  }

  lemma MergeMessagesSnoc(state: State, order: seq<string>)
    requires order != [] && forall h | h in order :: h in state
    ensures
      var n := |order| - 1;
      && (forall h | h in order[..n] :: h in state)
      && |MergeMessages(state, order)| == n + 1
      && MergeMessages(state, order)[..n] == MergeMessages(state, order[..n])
      && MergeMessages(state, order)[n] == Message(order[n], state[order[n]].ip, Add, state[order[n]].stamp)
  {
  }

  lemma {:induction false} MergePrefix(s: Store, state: State, order: seq<string>)
    requires NormalState(state) && forall h | h in order :: h in state
    ensures Run(s, MergeMessages(state, order)) == MergeKeys(s, state, Members(order))
    decreases |order|
  {
    if order == [] {
      assert Winners(s, state, {}) == {};
    } else {
      var n := |order| - 1;
      MergeMessagesSnoc(state, order);
      MergePrefix(s, state, order[..n]);
      MergeStep(s, state, Members(order[..n]), order[n]);
      MembersSnoc(order, n);
      assert order[..n + 1] == order;
    }
  }

  /** An exported state has stored-form keys, so the order in which Go walks the map is immaterial. */
  lemma MergeAnyOrder(s: Store, state: State, order: seq<string>)
    requires NormalState(state) && forall h :: h in order <==> h in state
    ensures Run(s, MergeMessages(state, order)) == Merge(s, state)
  {
    MergePrefix(s, state, order);
    assert Members(order) == state.Keys;
  }

  // ---- Pulling another node's state ----

  /** a after it has merged what b exported. */
  function Join(a: Store, b: Store): Store { Merge(a, Export(b)) }

  lemma MergeAt(s: Store, state: State, k: string)
    ensures
      var t := Merge(s, state);
      if k in state && !Blocked(s.meta, k, state[k].stamp) then
        k in t.data && k in t.meta && t.data[k] == state[k].ip && t.meta[k] == state[k].stamp
      else
        && (k in t.data <==> k in s.data) && (k in t.meta <==> k in s.meta)
        && (k in s.data ==> t.data[k] == s.data[k]) && (k in s.meta ==> t.meta[k] == s.meta[k])
  {
  }

  predicate SameAt(a: Store, b: Store, k: string) {
    && (k in a.data <==> k in b.data) && (k in a.data && k in b.data ==> a.data[k] == b.data[k])
    && (k in a.meta <==> k in b.meta) && (k in a.meta && k in b.meta ==> a.meta[k] == b.meta[k])
  }

  lemma SameEverywhere(a: Store, b: Store)
    ensures a == b <==> forall k :: SameAt(a, b, k)
  {
    if forall k :: SameAt(a, b, k) {
      assert forall k :: k in a.data || k in a.meta ==> SameAt(a, b, k);
      assert forall k :: k in b.data || k in b.meta ==> SameAt(a, b, k);
      assert a.data == b.data && a.meta == b.meta;
    }
  }

  // ---- Two-way push/pull ----

  /** What k is exported as. */
  function Report(s: Store, k: string): Entry
    requires k in s.data
  {
    Entry(s.data[k], StampOf(s.meta, k))
  }

  /** a no longer serves k but remembers a stamp that b's record for k does not beat. */
  predicate Shuns(a: Store, b: Store, k: string) {
    k in b.data && k !in a.data && Blocked(a.meta, k, StampOf(b.meta, k))
  }

  /** Both serve k with different reports, and either each takes the other's or neither does. */
  predicate Crosses(a: Store, b: Store, k: string) {
    && k in a.data && k in b.data && Report(a, k) != Report(b, k)
    && (Blocked(a.meta, k, StampOf(b.meta, k)) <==> Blocked(b.meta, k, StampOf(a.meta, k)))
  }

  predicate Conflicts(a: Store, b: Store, k: string) { Shuns(a, b, k) || Shuns(b, a, k) || Crosses(a, b, k) }

  predicate AgreeOn(x: State, y: State, k: string) {
    (k in x <==> k in y) && (k in x && k in y ==> x[k] == y[k])
  }

  lemma AgreeEverywhere(x: State, y: State)
    ensures x == y <==> forall k :: AgreeOn(x, y, k)
  {
    if forall k :: AgreeOn(x, y, k) {
      assert forall k :: k in x ==> AgreeOn(x, y, k);
      assert forall k :: k in y ==> AgreeOn(x, y, k);
    }
  }

  lemma ExchangeAt(a: Store, b: Store, k: string)
    ensures AgreeOn(Export(Join(a, b)), Export(Join(b, a)), k) <==> !Conflicts(a, b, k)
  {
    MergeAt(a, Export(b), k);
    MergeAt(b, Export(a), k);
    StampTotalOrder(StampOf(a.meta, k), StampOf(b.meta, k), StampOf(a.meta, k));
  }

  /**
   * For any two stores: after each merges what the other exported earlier, both export the same exactly when for no
   * name one shuns the other's record and for no name their records cross.
   */
  lemma ExchangeEqualisesIff(a: Store, b: Store)
    ensures Export(Join(a, b)) == Export(Join(b, a)) <==> forall k :: !Conflicts(a, b, k)
  {
    var x, y := Export(Join(a, b)), Export(Join(b, a));
    AgreeEverywhere(x, y);
    forall k: string ensures AgreeOn(x, y, k) <==> !Conflicts(a, b, k) { ExchangeAt(a, b, k); }
  }

  /** Where both nodes serve a name under one stamp, they serve one address. */
  predicate Coherent(a: Store, b: Store) {
    forall k | k in a.data && k in b.data && k in a.meta && k in b.meta && a.meta[k] == b.meta[k] ::
      a.data[k] == b.data[k]
  }

  /**
   * Records cross in two ways only: under one stamp with two addresses, or while a node serves a name that it has not
   * stamped yet.
   */
  lemma CrossesOnlyIf(a: Store, b: Store, k: string)
    requires Crosses(a, b, k)
    ensures k in a.meta && k in b.meta ==> a.meta[k] == b.meta[k] && a.data[k] != b.data[k]
  {
    StampTotalOrder(StampOf(a.meta, k), StampOf(b.meta, k), StampOf(a.meta, k));
  }

  /** Two nodes that serve a name under two addresses and have not stamped it swap the addresses. */
  lemma UnstampedSwap(a: Store, b: Store, k: string)
    requires k in a.data && k in b.data && k !in a.meta && k !in b.meta && a.data[k] != b.data[k]
    ensures Crosses(a, b, k) && Export(Join(a, b)) != Export(Join(b, a))
    ensures k in Join(a, b).data && Join(a, b).data[k] == b.data[k]
    ensures k in Join(b, a).data && Join(b, a).data[k] == a.data[k]
  {
    assert Conflicts(a, b, k);
    ExchangeEqualisesIff(a, b);
    MergeAt(a, Export(b), k);
    MergeAt(b, Export(a), k);
  }

  /** An export of a name that is not stamped yet displaces a peer's record only if that bears a time before zero. */
  lemma UnstampedDisplacesIff(a: Store, b: Store, k: string)
    requires k in b.data && k !in b.meta && k in a.data && k in a.meta
    ensures Join(a, b).data[k] == a.data[k] && Join(a, b).meta[k] == a.meta[k] <==> a.meta[k].time >= 0
  {
    MergeAt(a, Export(b), k);
    ExceedsIff("", a.meta[k].node);
  }

  /** When on each node served and stamped names coincide, equal stamps with equal addresses are all it takes. */
  lemma ExchangeEqualisesSettled(a: Store, b: Store)
    requires Settled(a) && Settled(b)
    ensures Export(Join(a, b)) == Export(Join(b, a)) <==> Coherent(a, b)
    ensures Join(a, b) == Join(b, a) <==> Coherent(a, b)
  {
    JoinCommutativeIff(a, b);
    ExchangeEqualisesIff(a, b);
    if !Coherent(a, b) {
      var k :| k in a.data && k in b.data && a.meta[k] == b.meta[k] && a.data[k] != b.data[k];
      assert Crosses(a, b, k) && Conflicts(a, b, k);
    }
  }

  // ---- The laws of the join ----

  /** Merging one's own state changes nothing exactly when every served name is stamped. */
  lemma JoinIdempotentIff(a: Store)
    ensures Join(a, a) == a <==> Stamped(a)
  {
    forall k: string ensures SameAt(Join(a, a), a, k) <==> (k in a.data ==> k in a.meta) {
      MergeAt(a, Export(a), k);
      StampTotalOrder(StampOf(a.meta, k), StampOf(a.meta, k), StampOf(a.meta, k));
    }
    SameEverywhere(Join(a, a), a);
  }

  lemma JoinCommutesAt(a: Store, b: Store, k: string)
    requires Settled(a) && Settled(b)
    ensures SameAt(Join(a, b), Join(b, a), k) <==>
            (k in a.data && k in b.data && a.meta[k] == b.meta[k] ==> a.data[k] == b.data[k])
  {
    MergeAt(a, Export(b), k);
    MergeAt(b, Export(a), k);
    if k in a.data && k in b.data { StampTotalOrder(a.meta[k], b.meta[k], a.meta[k]); }
  }

  lemma JoinCommutativeIff(a: Store, b: Store)
    requires Settled(a) && Settled(b)
    ensures Join(a, b) == Join(b, a) <==> Coherent(a, b)
  {
    forall k: string
      ensures SameAt(Join(a, b), Join(b, a), k) <==>
              (k in a.data && k in b.data && a.meta[k] == b.meta[k] ==> a.data[k] == b.data[k])
    {
      JoinCommutesAt(a, b, k);
    }
    SameEverywhere(Join(a, b), Join(b, a));
  }

  lemma JoinAssociatesAt(a: Store, b: Store, c: Store, k: string)
    requires Settled(b)
    ensures SameAt(Join(Join(a, b), c), Join(a, Join(b, c)), k)
  {
    MergeAt(a, Export(b), k);
    MergeAt(b, Export(c), k);
    MergeAt(Join(a, b), Export(c), k);
    MergeAt(a, Export(Join(b, c)), k);
    var x, y, z := StampOf(a.meta, k), StampOf(b.meta, k), StampOf(c.meta, k);
    StampTotalOrder(z, y, x);
    StampTotalOrder(y, z, x);
    StampTotalOrder(y, x, z);
    StampTotalOrder(x, y, z);
  }

  /** Only the middle node must serve exactly what it has stamps for. */
  lemma JoinAssociative(a: Store, b: Store, c: Store)
    requires Settled(b)
    ensures Join(Join(a, b), c) == Join(a, Join(b, c))
  {
    forall k: string ensures SameAt(Join(Join(a, b), c), Join(a, Join(b, c)), k) { JoinAssociatesAt(a, b, c, k); }
    SameEverywhere(Join(Join(a, b), c), Join(a, Join(b, c)));
  }

  // ---- Adds that were dropped on the way ----

  /** The elements of xs whose flag is set (or, with `flag` false, the others), in order. */
  function Select<T>(xs: seq<T>, flags: seq<bool>, flag: bool): seq<T>
    requires |flags| == |xs|
  {
    if xs == [] then []
    else Select(xs[..|xs| - 1], flags[..|xs| - 1], flag) + (if flags[|xs| - 1] == flag then [xs[|xs| - 1]] else [])
  }

  /** Kept and dropped elements make up the whole. */
  lemma {:induction false} SelectPartition<T>(xs: seq<T>, flags: seq<bool>)
    requires |flags| == |xs|
    ensures multiset(Select(xs, flags, true)) + multiset(Select(xs, flags, false)) == multiset(xs)
    ensures |Select(xs, flags, true)| + |Select(xs, flags, false)| == |xs|
  {
    if xs == [] {
    } else {
      var n := |xs| - 1;
      var a, b := Select(xs[..n], flags[..n], true), Select(xs[..n], flags[..n], false);
      SelectPartition(xs[..n], flags[..n]);
      PartitionSnoc(a, b, xs[..n], xs[n]);
      assert xs == xs[..n] + [xs[n]];
      if flags[n] {
        assert Select(xs, flags, true) == a + [xs[n]];
        assert Select(xs, flags, false) == b + [] == b;
      } else {
        assert Select(xs, flags, true) == a + [] == a;
        assert Select(xs, flags, false) == b + [xs[n]];
      }
    }
  }

  lemma PartitionSnoc<T>(a: seq<T>, b: seq<T>, xs: seq<T>, x: T)
    requires multiset(a) + multiset(b) == multiset(xs)
    ensures multiset(a + [x]) + multiset(b) == multiset(xs + [x])
    ensures multiset(a) + multiset(b + [x]) == multiset(xs + [x])
  {
  }

  lemma SelectSnoc<T>(xs: seq<T>, flags: seq<bool>, x: T, flag: bool, wanted: bool)
    requires |flags| == |xs|
    ensures Select(xs + [x], flags + [flag], wanted) == Select(xs, flags, wanted) + (if flag == wanted then [x] else [])
  {
    assert (xs + [x])[..|xs|] == xs && (flags + [flag])[..|xs|] == flags;
  }

  /** `state` serves m's name under a stamp at least as great. */
  predicate Covers(state: State, m: Message) {
    Key(m) in state && StampLe(m.stamp, state[Key(m)].stamp)
  }

  predicate Consistent(state: State, m: Message) {
    Key(m) in state && m.stamp == state[Key(m)].stamp ==> m.ip == state[Key(m)].ip
  }

  lemma MergeCommutesWithAddAt(s: Store, m: Message, state: State, k: string)
    requires m.action == Add
    ensures SameAt(Merge(Apply(s, m), state), Apply(Merge(s, state), m), k) <==>
            (k == Key(m) ==> Consistent(state, m) || Blocked(s.meta, k, m.stamp))
  {
    MergeAt(Apply(s, m), state, k);
    MergeAt(s, state, k);
    if k == Key(m) && k in state {
      StampTotalOrder(m.stamp, state[k].stamp, StampOf(s.meta, k));
      StampTotalOrder(state[k].stamp, m.stamp, StampOf(s.meta, k));
    }
  }

  /** An add may move across a merge unless it would take effect against an entry with its stamp and another address. */
  lemma MergeCommutesWithAddIff(s: Store, m: Message, state: State)
    requires m.action == Add
    ensures Merge(Apply(s, m), state) == Apply(Merge(s, state), m) <==>
            Consistent(state, m) || Blocked(s.meta, Key(m), m.stamp)
  {
    forall k: string
      ensures SameAt(Merge(Apply(s, m), state), Apply(Merge(s, state), m), k) <==>
              (k == Key(m) ==> Consistent(state, m) || Blocked(s.meta, k, m.stamp))
    {
      MergeCommutesWithAddAt(s, m, state, k);
    }
    SameEverywhere(Merge(Apply(s, m), state), Apply(Merge(s, state), m));
  }

  lemma CoveredAddIsAbsorbed(s: Store, m: Message, state: State)
    requires m.action == Add && Covers(state, m)
    ensures Apply(Merge(s, state), m) == Merge(s, state)
  {
    MergeAt(s, state, Key(m));
    StampTotalOrder(m.stamp, state[Key(m)].stamp, StampOf(s.meta, Key(m)));
  }

  /** Merging a state that covers the lost adds gives the store that no loss would have given. */
  lemma {:induction false} DropsAreAbsorbed(r: Store, received: seq<Message>, kept: seq<bool>, state: State)
    requires |kept| == |received| && AllAdds(received)
    requires forall m | m in received :: Consistent(state, m)
    requires forall i | 0 <= i < |received| && !kept[i] :: Covers(state, received[i])
    ensures Merge(Run(r, Select(received, kept, true)), state) == Merge(Run(r, received), state)
    decreases |received|
  {
    if received == [] {
    } else {
      var n := |received| - 1;
      var init, m := received[..n], received[n];
      var seen := Select(init, kept[..n], true);
      assert forall x | x in init :: x in received;
      DropsAreAbsorbed(r, init, kept[..n], state);
      MergeCommutesWithAddIff(Run(r, init), m, state);
      if kept[n] {
        RunSnoc(r, seen, m);
        MergeCommutesWithAddIff(Run(r, seen), m, state);
      } else {
        assert Select(received, kept, true) == seen;
        CoveredAddIsAbsorbed(Run(r, init), m, state);
      }
    }
  }

  /** Adds for one name under one stamp carry one address. */
  predicate OneAddressPerStamp(ms: seq<Message>) {
    forall m, x | m in ms && x in ms && Key(m) == Key(x) && m.stamp == x.stamp :: m.ip == x.ip
  }

  /**
   * The sender applied every add of `log` before it announced it, so the state it exports afterwards makes up for
   * any of those adds a receiver dropped, in whatever order each side walks the maps.
   */
  lemma DroppedAddsAreRecovered(r: Store, received: seq<Message>, kept: seq<bool>, log: seq<Message>,
                                order: seq<string>, order': seq<string>)
    requires |kept| == |received| && AllAdds(received) && AllAdds(log)
    requires OneAddressPerStamp(log + received)
    requires forall i | 0 <= i < |received| && !kept[i] :: received[i] in log
    requires forall h :: h in order <==> h in Export(Run(EMPTY, log))
    requires forall h :: h in order' <==> h in Export(Run(EMPTY, log))
    ensures Run(Run(r, Select(received, kept, true)), MergeMessages(Export(Run(EMPTY, log)), order)) ==
            Run(Run(r, received), MergeMessages(Export(Run(EMPTY, log)), order'))
  {
    var state := Export(Run(EMPTY, log));
    RunKeepsShape(EMPTY, log);
    assert NormalState(state);
    forall m | m in received ensures Consistent(state, m) {
      var t := AddsAreServed(log, Key(m));
      if Key(m) in state { assert log[t] in log + received && m in log + received; }
    }
    forall i | 0 <= i < |received| && !kept[i] ensures Covers(state, received[i]) {
      var t := AddsAreServed(log, Key(received[i]));
    }
    DropsAreAbsorbed(r, received, kept, state);
    MergeAnyOrder(Run(r, Select(received, kept, true)), state, order);
    MergeAnyOrder(Run(r, received), state, order');
  }
}
