/** What any sequence of stamped messages leaves behind, and when the order of delivery cannot matter. */
module Convergence {
  import opened Names
  import opened RecordStore

  // ---- The exact meaning of a mixed run of adds and removes ----

  /** Message i of a run from the empty store is a removal of k that the store accepted. */
  predicate RemovesAt(ms: seq<Message>, k: string, i: nat)
    requires i < |ms|
  {
    RemoveFor(ms[i], k) && Accepts(Run(EMPTY, ms[..i]), ms[i])
  }

  /** The accepted removals of k all lie before j, and the message just before j is one unless j is 0. */
  ghost predicate AfterLastRemoval(ms: seq<Message>, k: string, j: nat) {
    && j <= |ms|
    && (j > 0 ==> RemovesAt(ms, k, j - 1))
    && forall i | j <= i < |ms| :: !RemovesAt(ms, k, i)
  }

  /** Message t is the first among the greatest-stamped adds for k from position j on. */
  ghost predicate FirstGreatest(ms: seq<Message>, k: string, j: nat, t: nat) {
    && j <= t < |ms|
    && AddFor(ms[t], k)
    && (forall i | j <= i < |ms| && AddFor(ms[i], k) :: StampLe(ms[i].stamp, ms[t].stamp))
    && (forall i | j <= i < t && AddFor(ms[i], k) :: ms[i].stamp != ms[t].stamp)
  }

  ghost predicate AddFrom(ms: seq<Message>, k: string, j: nat) {
    exists i | j <= i < |ms| :: AddFor(ms[i], k)
  }

  predicate Holds(s: Store, k: string, m: Message) {
    k in s.data && k in s.meta && s.data[k] == m.ip && s.meta[k] == m.stamp
  }

  lemma AddFromSnoc(ms: seq<Message>, k: string, j: nat)
    requires j < |ms|
    ensures AddFrom(ms, k, j) <==> AddFrom(ms[..|ms| - 1], k, j) || AddFor(ms[|ms| - 1], k)
  {
    if AddFrom(ms[..|ms| - 1], k, j) {
      var i :| j <= i < |ms| - 1 && AddFor(ms[..|ms| - 1][i], k);
      assert AddFor(ms[i], k);
    }
    if AddFrom(ms, k, j) && !AddFor(ms[|ms| - 1], k) {
      var i :| j <= i < |ms| && AddFor(ms[i], k);
      assert AddFor(ms[..|ms| - 1][i], k);
    }
  }

  lemma RemovesAtPrefix(ms: seq<Message>, k: string, n: nat)
    requires n <= |ms|
    ensures forall i | 0 <= i < n :: RemovesAt(ms[..n], k, i) == RemovesAt(ms, k, i)
  {
    forall i | 0 <= i < n ensures RemovesAt(ms[..n], k, i) == RemovesAt(ms, k, i) {
      assert ms[..n][..i] == ms[..i];
    }
  }

  lemma {:induction false} LastRemovalExists(ms: seq<Message>, k: string) returns (j: nat)
    ensures AfterLastRemoval(ms, k, j)
  {
    j := 0;
    if ms == [] {
    } else {
      if RemovesAt(ms, k, |ms| - 1) {
        j := |ms|;
      } else {
        j := LastRemovalExists(ms[..|ms| - 1], k);
        RemovesAtPrefix(ms, k, |ms| - 1);
      }
    }
  }

  lemma FirstGreatestUnique(ms: seq<Message>, k: string, j: nat, t: nat, u: nat)
    requires FirstGreatest(ms, k, j, t) && FirstGreatest(ms, k, j, u)
    ensures t == u
  {
    StampTotalOrder(ms[t].stamp, ms[u].stamp, ms[t].stamp);
  }

  /** Present exactly when an add follows the last accepted removal; the entry is the greatest add of that suffix. */
  lemma {:induction false} MixedRun(ms: seq<Message>, k: string, j: nat) returns (t: nat)
    requires AfterLastRemoval(ms, k, j)
    ensures k in Run(EMPTY, ms).data <==> AddFrom(ms, k, j)
    ensures k in Run(EMPTY, ms).meta <==> AddFrom(ms, k, j)
    ensures AddFrom(ms, k, j) ==> FirstGreatest(ms, k, j, t) && Holds(Run(EMPTY, ms), k, ms[t])
    decreases |ms|
  {
    t := 0;
    if ms == [] {
    } else {
      var n := |ms| - 1;
      var s := Run(EMPTY, ms[..n]);
      if j == |ms| {
        RunKeepsShape(EMPTY, ms[..n]);
      } else {
        RemovesAtPrefix(ms, k, n);
        assert !RemovesAt(ms, k, n);
        t := MixedRun(ms[..n], k, j);
        AddFromSnoc(ms, k, j);
        if AddFor(ms[n], k) {
          t := MixedAdd(ms, k, j, t);
        }
      }
    }
  }

  /** One more add for k, on top of a run whose outcome is known. */
  lemma MixedAdd(ms: seq<Message>, k: string, j: nat, t: nat) returns (t': nat)
    requires 0 < |ms| && j < |ms| && AddFor(ms[|ms| - 1], k)
    requires
      var init := ms[..|ms| - 1];
      && (k in Run(EMPTY, init).meta <==> AddFrom(init, k, j))
      && (AddFrom(init, k, j) ==> FirstGreatest(init, k, j, t) && Holds(Run(EMPTY, init), k, init[t]))
    ensures FirstGreatest(ms, k, j, t') && Holds(Run(EMPTY, ms), k, ms[t'])
  {
    var n := |ms| - 1;
    var m := ms[n];
    t' := n;
    if AddFrom(ms[..n], k, j) {
      StampTotalOrder(m.stamp, ms[t].stamp, ms[t].stamp);
      if StampLe(m.stamp, ms[t].stamp) {
        t' := t;
      } else {
        NewGreatest(ms, k, j, t);
      }
    } else {
      assert forall i | j <= i < n :: ms[i] == ms[..n][i];
      StampTotalOrder(m.stamp, m.stamp, m.stamp);
    }
  }

  lemma NewGreatest(ms: seq<Message>, k: string, j: nat, t: nat)
    requires 0 < |ms| && j < |ms| && FirstGreatest(ms[..|ms| - 1], k, j, t)
    requires AddFor(ms[|ms| - 1], k) && !StampLe(ms[|ms| - 1].stamp, ms[t].stamp)
    ensures FirstGreatest(ms, k, j, |ms| - 1)
  {
    var n := |ms| - 1;
    forall i | j <= i <= n && AddFor(ms[i], k)
      ensures StampLe(ms[i].stamp, ms[n].stamp)
      ensures i < n ==> ms[i].stamp != ms[n].stamp
    {
      StampTotalOrder(ms[n].stamp, ms[n].stamp, ms[n].stamp);
      if i < n {
        assert ms[i] == ms[..n][i];
        StampTotalOrder(ms[t].stamp, ms[n].stamp, ms[n].stamp);
        StampTotalOrder(ms[n].stamp, ms[t].stamp, ms[n].stamp);
        StampTotalOrder(ms[i].stamp, ms[t].stamp, ms[n].stamp);
        StampTotalOrder(ms[n].stamp, ms[i].stamp, ms[t].stamp);
      }
    }
  }

  // ---- The greatest add always wins ----

  /** An add or a removal of k; a message with any other action is ignored by the store. */
  predicate Concerns(m: Message, k: string) { AddFor(m, k) || RemoveFor(m, k) }

  /** Whatever the order, and even against a removal that carries the same stamp. */
  lemma {:induction false} GreatestAddWins(ms: seq<Message>, top: Message)
    requires top in ms && top.action == Add
    requires forall m | m in ms && Concerns(m, Key(top)) :: StampLe(m.stamp, top.stamp)
    requires forall m | m in ms && AddFor(m, Key(top)) && m.stamp == top.stamp :: m.ip == top.ip
    ensures Holds(Run(EMPTY, ms), Key(top), top)
    decreases |ms|
  {
    var n, k := |ms| - 1, Key(top);
    assert forall m | m in ms[..n] :: m in ms;
    if top in ms[..n] {
      GreatestAddWins(ms[..n], top);
    } else {
      assert ms[n] == top;
      var j := LastRemovalExists(ms[..n], k);
      var t := MixedRun(ms[..n], k, j);
      if AddFrom(ms[..n], k, j) {
        assert ms[t] in ms;
        StampTotalOrder(top.stamp, ms[t].stamp, top.stamp);
      }
    }
  }

  // ---- When the order of delivery cannot matter ----

  predicate AllAdds(ms: seq<Message>) { forall m | m in ms :: m.action == Add }

  ghost predicate SameMessages(a: seq<Message>, b: seq<Message>) { forall m :: m in a <==> m in b }

  /** m is an add, and none for its name has a greater stamp. */
  predicate Greatest(ms: seq<Message>, m: Message) {
    m in ms && m.action == Add && forall x | x in ms && AddFor(x, Key(m)) :: StampLe(x.stamp, m.stamp)
  }

  /** For each name, the adds that share its greatest stamp carry one address. */
  predicate TopAgrees(ms: seq<Message>) {
    forall m, x | m in ms && x in ms && Greatest(ms, m) && AddFor(x, Key(m)) && x.stamp == m.stamp :: x.ip == m.ip
  }

  /** For each name, no removal is newer than its greatest adds. */
  predicate TopStands(ms: seq<Message>) {
    forall m, r | m in ms && r in ms && Greatest(ms, m) && RemoveFor(r, Key(m)) :: StampLe(r.stamp, m.stamp)
  }

  lemma AddsAreServed(ms: seq<Message>, k: string) returns (t: nat)
    requires AllAdds(ms)
    ensures k in Run(EMPTY, ms).data <==> k in Run(EMPTY, ms).meta
    ensures k in Run(EMPTY, ms).data <==> exists m | m in ms :: Key(m) == k
    ensures k in Run(EMPTY, ms).data ==>
              t < |ms| && Greatest(ms, ms[t]) && Key(ms[t]) == k && Holds(Run(EMPTY, ms), k, ms[t])
  {
    t := MixedRun(ms, k, 0);
    if m :| m in ms && Key(m) == k {
      var i :| 0 <= i < |ms| && ms[i] == m;
      assert AddFor(ms[i], k);
    }
  }

  lemma {:induction false} GreatestExists(ms: seq<Message>, m: Message) returns (top: Message)
    requires m in ms && m.action == Add
    ensures Greatest(ms, top) && Key(top) == Key(m)
    decreases |ms|
  {
    var n := |ms| - 1;
    var init, last := ms[..n], ms[n];
    assert forall x | x in ms :: x in init || x == last;
    StampTotalOrder(last.stamp, last.stamp, last.stamp);
    if x :| x in init && AddFor(x, Key(m)) {
      top := GreatestExists(init, x);
      StampTotalOrder(last.stamp, top.stamp, top.stamp);
      if AddFor(last, Key(m)) && !StampLe(last.stamp, top.stamp) {
        forall y | y in ms && AddFor(y, Key(m)) ensures StampLe(y.stamp, last.stamp) {
          if y in init { StampTotalOrder(y.stamp, top.stamp, last.stamp); }
        }
        top := last;
      }
    } else {
      top := last;
    }
  }

  /** The outcome for k is settled by the messages for k, whatever their order and repetition. */
  lemma SettledAt(a: seq<Message>, b: seq<Message>, k: string)
    requires SameMessages(a, b) && TopAgrees(a) && TopStands(a)
    ensures
      var s, u := Run(EMPTY, a), Run(EMPTY, b);
      && (k in s.data <==> k in u.data) && (k in s.meta <==> k in u.meta)
      && (k in s.data && k in u.data ==> s.data[k] == u.data[k])
      && (k in s.meta && k in u.meta ==> s.meta[k] == u.meta[k])
  {
    if m :| m in a && AddFor(m, k) {
      var top := GreatestExists(a, m);
      GreatestAddWins(a, top);
      GreatestAddWins(b, top);
    } else {
      NeverAdded(a, k);
      NeverAdded(b, k);
    }
  }

  lemma NeverAdded(ms: seq<Message>, k: string)
    requires forall m | m in ms :: !AddFor(m, k)
    ensures k !in Run(EMPTY, ms).data && k !in Run(EMPTY, ms).meta
  {
    var j := LastRemovalExists(ms, k);
    var t := MixedRun(ms, k, j);
    assert forall i | 0 <= i < |ms| :: ms[i] in ms;
  }

  lemma DeliveriesConverge(a: seq<Message>, b: seq<Message>)
    requires SameMessages(a, b) && TopAgrees(a) && TopStands(a)
    ensures Run(EMPTY, a) == Run(EMPTY, b)
  {
    var s, u := Run(EMPTY, a), Run(EMPTY, b);
    forall k: string
      ensures k in s.data <==> k in u.data
      ensures k in s.meta <==> k in u.meta
      ensures k in s.data && k in u.data ==> s.data[k] == u.data[k]
      ensures k in s.meta && k in u.meta ==> s.meta[k] == u.meta[k]
    {
      SettledAt(a, b, k);
    }
    assert s.data == u.data && s.meta == u.meta;
  }

  /** Two deliveries of the same adds, in any order and with any repetition, leave identical stores. */
  lemma AddsConverge(a: seq<Message>, b: seq<Message>)
    requires AllAdds(a) && SameMessages(a, b) && TopAgrees(a)
    ensures Run(EMPTY, a) == Run(EMPTY, b)
  {
    DeliveriesConverge(a, b);
  }

  /** What is held under a stamp that no later message beats stays. */
  lemma {:induction false} StaysHeld(s: Store, ms: seq<Message>, m: Message)
    requires Holds(s, Key(m), m)
    requires forall x | x in ms && Concerns(x, Key(m)) :: StampLe(x.stamp, m.stamp)
    ensures Holds(Run(s, ms), Key(m), m)
    decreases |ms|
  {
    if ms == [] {
    } else {
      assert forall x | x in ms[..|ms| - 1] :: x in ms;
      StaysHeld(s, ms[..|ms| - 1], m);
    }
  }

  lemma FirstOfTopWins(ms: seq<Message>, m: Message)
    requires Greatest(ms, m) && TopStands(ms)
    ensures SameMessages([m] + ms, ms)
    ensures Holds(Run(EMPTY, [m] + ms), Key(m), m)
  {
    assert [m][..0] == [];
    assert Run(EMPTY, [m]) == Apply(Run(EMPTY, [m][..0]), m);
    StaysHeld(Run(EMPTY, [m]), ms, m);
    RunConcat(EMPTY, [m], ms);
  }

  lemma TopConflictSplits(ms: seq<Message>) returns (a: seq<Message>, b: seq<Message>)
    requires TopStands(ms) && !TopAgrees(ms)
    ensures SameMessages(a, ms) && SameMessages(b, ms)
    ensures Run(EMPTY, a) != Run(EMPTY, b)
  {
    var m, x :| m in ms && x in ms && Greatest(ms, m) && AddFor(x, Key(m)) && x.stamp == m.stamp && x.ip != m.ip;
    assert Greatest(ms, x);
    FirstOfTopWins(ms, m);
    FirstOfTopWins(ms, x);
    a, b := [m] + ms, [x] + ms;
    assert Run(EMPTY, a).data[Key(m)] != Run(EMPTY, b).data[Key(m)];
  }

  lemma EntryIsAnAdd(ms: seq<Message>, k: string) returns (m: Message)
    requires k in Run(EMPTY, ms).data
    ensures m in ms && AddFor(m, k) && Holds(Run(EMPTY, ms), k, m)
  {
    var j := LastRemovalExists(ms, k);
    var t := MixedRun(ms, k, j);
    m := ms[t];
  }

  /** A removal newer than every add of a name: delivered last it takes the name off, before a last add it does not. */
  lemma BeatenTopSplits(ms: seq<Message>) returns (a: seq<Message>, b: seq<Message>)
    requires !TopStands(ms)
    ensures SameMessages(a, ms) && SameMessages(b, ms)
    ensures Run(EMPTY, a) != Run(EMPTY, b)
  {
    var m, r :| m in ms && r in ms && Greatest(ms, m) && RemoveFor(r, Key(m)) && !StampLe(r.stamp, m.stamp);
    var k, s := Key(m), Run(EMPTY, ms);
    a, b := ms + [r], ms + [m];
    RunSnoc(EMPTY, ms, r);
    RunSnoc(EMPTY, ms, m);
    RunKeepsShape(EMPTY, ms);
    if k in s.data {
      var x := EntryIsAnAdd(ms, k);
      StampTotalOrder(r.stamp, x.stamp, m.stamp);
    }
    assert k !in Run(EMPTY, a).data && k in Run(EMPTY, b).data;
  }

  /**
   * Every order and every repetition of the same adds and removals gives one store exactly when, for each name, no
   * removal is newer than its greatest adds and those agree on the address.
   */
  lemma DeliveryOrderIsImmaterialIff(ms: seq<Message>)
    ensures (forall a | SameMessages(a, ms) :: Run(EMPTY, a) == Run(EMPTY, ms)) <==> TopAgrees(ms) && TopStands(ms)
  {
    if !TopStands(ms) {
      var a, b := BeatenTopSplits(ms);
      assert SameMessages(a, ms) && SameMessages(b, ms);
    } else if !TopAgrees(ms) {
      var a, b := TopConflictSplits(ms);
      assert SameMessages(a, ms) && SameMessages(b, ms);
    } else {
      forall a | SameMessages(a, ms) ensures Run(EMPTY, a) == Run(EMPTY, ms) {
        DeliveriesConverge(ms, a);
      }
    }
  }

  /** Of adds alone, exactly when the top of each name agrees. */
  lemma AddsConvergeIff(ms: seq<Message>)
    requires AllAdds(ms)
    ensures (forall a | SameMessages(a, ms) :: Run(EMPTY, a) == Run(EMPTY, ms)) <==> TopAgrees(ms)
  {
    DeliveryOrderIsImmaterialIff(ms);
    assert TopStands(ms);
  }
}
