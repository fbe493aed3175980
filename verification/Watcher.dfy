/** What the Docker watcher makes of container events, and how its served names relate to the containers it tracks. */
module Watcher {
  import opened Names
  import opened RecordStore

  /** Container id to the hostnames it claims. */
  type Tracked = map<string, seq<string>>

  datatype Listed = Listed(id: string, names: seq<string>, time: int)

  /**
   * `names` are the hostnames extracted from the labels, `time` the clock reading of the handler, and `order` the
   * order in which the sweep of a sync happens to walk the tracked containers.
   */
  datatype Event =
    | Start(id: string, names: seq<string>, time: int)
    | Stop(id: string, time: int)
    | Sync(listing: seq<Listed>, order: seq<string>, time: int)

  /** The two ways in which the set of tracked containers changes. */
  datatype Change = Claim(id: string, names: seq<string>, time: int) | Release(ids: seq<string>, time: int)

  /** One batch of served-name changes, later announced under one timestamp. */
  datatype Turn = Turn(dropped: seq<string>, added: seq<string>, time: int)

  datatype Watch = Watch(tracked: Tracked, turns: seq<Turn>)

  const IDLE := Watch(map[], [])

  /** The elements of xs that are not in ys, in order; names are compared case-sensitively. */
  function Minus(xs: seq<string>, ys: seq<string>): (r: seq<string>)
    ensures forall h :: h in r <==> h in xs && h !in ys
  {
    if xs == [] then []
    else
      var r := Minus(xs[..|xs| - 1], ys);
      if xs[|xs| - 1] in ys then r else r + [xs[|xs| - 1]]
  }

  function NamesOf(tracked: Tracked, id: string): seq<string> {
    if id in tracked then tracked[id] else []
  }

  /** The names of the tracked containers among `ids`. */
  function NamesOfAll(tracked: Tracked, ids: seq<string>): seq<string> {
    if ids == [] then [] else NamesOfAll(tracked, ids[..|ids| - 1]) + NamesOf(tracked, ids[|ids| - 1])
  }

  lemma {:induction false} NamesOfAllMembers(tracked: Tracked, ids: seq<string>)
    ensures forall h :: h in NamesOfAll(tracked, ids) <==> exists id | id in ids :: h in NamesOf(tracked, id)
  {
    if ids == [] {
    } else {
      var init, last := ids[..|ids| - 1], ids[|ids| - 1];
      NamesOfAllMembers(tracked, init);
      assert forall id :: id in ids <==> id in init || id == last;
    }
  }

  function TurnOf(tracked: Tracked, c: Change): Turn {
    match c
    case Claim(id, names, time) => Turn(Minus(NamesOf(tracked, id), names), Minus(names, NamesOf(tracked, id)), time)
    case Release(ids, time) => Turn(NamesOfAll(tracked, ids), [], time)
  }

  /** A turn touches no more than it must: a name that its container keeps is neither dropped nor added again. */
  lemma TurnIsMinimal(tracked: Tracked, c: Change, h: string)
    ensures
      var turn := TurnOf(tracked, c);
      && (h in turn.added <==> c.Claim? && h in c.names && !(c.id in tracked && h in tracked[c.id]))
      && (h in turn.dropped <==>
            if c.Claim? then c.id in tracked && h in tracked[c.id] && h !in c.names
            else exists id | id in c.ids :: id in tracked && h in tracked[id])
  {
    if c.Release? { NamesOfAllMembers(tracked, c.ids); }
  }

  function TrackedAfter(tracked: Tracked, c: Change): Tracked {
    match c
    case Claim(id, names, _) => tracked[id := names]
    case Release(ids, _) => tracked - (set id | id in ids)
  }

  /** A sweep that finds nothing to remove reads no clock and announces nothing. */
  predicate Silent(tracked: Tracked, c: Change) { c.Release? && NamesOfAll(tracked, c.ids) == [] }

  function Enact(w: Watch, c: Change): Watch {
    Watch(TrackedAfter(w.tracked, c), if Silent(w.tracked, c) then w.turns else w.turns + [TurnOf(w.tracked, c)])
  }

  function EnactAll(w: Watch, cs: seq<Change>): Watch {
    if cs == [] then w else Enact(EnactAll(w, cs[..|cs| - 1]), cs[|cs| - 1])
  }

  /** The state of a watcher that started with nothing. */
  function After(cs: seq<Change>): Watch { EnactAll(IDLE, cs) }

  // ---- Events as changes ----

  function Claims(listing: seq<Listed>): seq<Change> {
    if listing == [] then []
    else
      var c := listing[|listing| - 1];
      Claims(listing[..|listing| - 1]) + (if c.names == [] then [] else [Claim(c.id, c.names, c.time)])
  }

  function Seen(listing: seq<Listed>): seq<string> {
    if listing == [] then []
    else
      var c := listing[|listing| - 1];
      Seen(listing[..|listing| - 1]) + (if c.names == [] then [] else [c.id])
  }

  /** A container without valid names is neither claimed nor seen. */
  function Changes(e: Event): seq<Change> {
    match e
    case Start(id, names, time) => if names == [] then [] else [Claim(id, names, time)]
    case Stop(id, time) => [Release([id], time)]
    case Sync(listing, order, time) => Claims(listing) + [Release(Minus(order, Seen(listing)), time)]
  }

  function AllChanges(es: seq<Event>): seq<Change> {
    if es == [] then [] else AllChanges(es[..|es| - 1]) + Changes(es[|es| - 1])
  }

  // ---- What is served without clustering ----

  function ServeTurn(data: map<string, string>, turn: Turn, ip: string): map<string, string> {
    (data - Keys(turn.dropped)) + Constant(Keys(turn.added), ip)
  }

  function ServeFrom(data: map<string, string>, turns: seq<Turn>, ip: string): map<string, string> {
    if turns == [] then data else ServeTurn(ServeFrom(data, turns[..|turns| - 1], ip), turns[|turns| - 1], ip)
  }

  function Serve(turns: seq<Turn>, ip: string): map<string, string> { ServeFrom(map[], turns, ip) }

  function Claimed(tracked: Tracked): set<string> {
    set id, h | id in tracked && h in tracked[id] :: Lower(h)
  }

  predicate Exact(w: Watch, ip: string) { Serve(w.turns, ip) == Constant(Claimed(w.tracked), ip) }

  lemma ServeStep(w: Watch, c: Change, ip: string)
    ensures Serve(Enact(w, c).turns, ip) == ServeTurn(Serve(w.turns, ip), TurnOf(w.tracked, c), ip)
  {
    var turns := w.turns + [TurnOf(w.tracked, c)];
    assert turns[..|w.turns|] == w.turns;
    if c.Release? && NamesOfAll(w.tracked, c.ids) == [] {
      assert Keys([]) == {};
    }
  }

  /** What a change drops is no longer claimed for its own sake, what it adds is, and nothing else changes hands. */
  lemma ClaimedStep(w: Watch, c: Change)
    ensures
      var dropped, added := Keys(TurnOf(w.tracked, c).dropped), Keys(TurnOf(w.tracked, c).added);
      var claimed' := Claimed(Enact(w, c).tracked);
      Claimed(w.tracked) - dropped <= claimed' && added <= claimed' && claimed' <= Claimed(w.tracked) + added
  {
    var turn, after := TurnOf(w.tracked, c), Enact(w, c).tracked;
    if c.Release? { NamesOfAllMembers(w.tracked, c.ids); }
    forall k | k in Claimed(w.tracked) ensures k in Keys(turn.dropped) + Claimed(after) {
      var id, h :| id in w.tracked && h in w.tracked[id] && Lower(h) == k;
      if c.Claim? && id == c.id {
        assert h in turn.dropped || h in after[id];
      } else if c.Release? && id in c.ids {
        assert h in NamesOf(w.tracked, id);
        assert h in turn.dropped;
      } else {
        assert id in after && h in after[id];
      }
    }
    forall k | k in Keys(turn.added) ensures k in Claimed(after) {
      var h :| h in turn.added && Lower(h) == k;
      assert h in after[c.id];
    }
    forall k | k in Claimed(after) ensures k in Claimed(w.tracked) + Keys(turn.added) {
      var id, h :| id in after && h in after[id] && Lower(h) == k;
      if c.Claim? && id == c.id && h !in NamesOf(w.tracked, id) { assert h in turn.added; }
    }
  }

  /** Every served name is claimed by a tracked container, and served at the host's own address. */
  predicate NoOrphans(w: Watch, ip: string) {
    forall k | k in Serve(w.turns, ip) :: k in Claimed(w.tracked) && Serve(w.turns, ip)[k] == ip
  }

  /** For every sequence of events, shared and case-variant names included. */
  lemma {:induction false} NoOrphansAfter(cs: seq<Change>, ip: string)
    ensures NoOrphans(After(cs), ip)
  {
    if cs == [] {
    } else {
      var w, c := After(cs[..|cs| - 1]), cs[|cs| - 1];
      NoOrphansAfter(cs[..|cs| - 1], ip);
      ServeStep(w, c, ip);
      ClaimedStep(w, c);
    }
  }

  lemma ServeTurnKeys(served: set<string>, turn: Turn, ip: string)
    ensures ServeTurn(Constant(served, ip), turn, ip) == Constant((served - Keys(turn.dropped)) + Keys(turn.added), ip)
  {
  }

  lemma ConstantEqual(a: set<string>, b: set<string>, ip: string)
    ensures Constant(a, ip) == Constant(b, ip) <==> a == b
  {
    assert Constant(a, ip).Keys == a && Constant(b, ip).Keys == b;
  }

  /** The names a change drops and does not add back although a tracked container still claims them. */
  function Lost(tracked: Tracked, c: Change): set<string> {
    var turn := TurnOf(tracked, c);
    (Keys(turn.dropped) - Keys(turn.added)) * Claimed(TrackedAfter(tracked, c))
  }

  lemma NothingIsLostIff(before: set<string>, dropped: set<string>, added: set<string>, after: set<string>)
    requires before - dropped <= after && added <= after && after <= before + added
    ensures (before - dropped) + added == after <==> (dropped - added) * after == {}
  {
    if (dropped - added) * after != {} {
      var k :| k in (dropped - added) * after;
      assert k !in (before - dropped) + added;
    } else {
      forall k | k in after ensures k in (before - dropped) + added {
        assert k !in (dropped - added) * after;
      }
    }
  }

  lemma ExactnessKeptIff(w: Watch, c: Change, ip: string)
    requires Exact(w, ip)
    ensures Exact(Enact(w, c), ip) <==> Lost(w.tracked, c) == {}
  {
    var turn, after := TurnOf(w.tracked, c), Claimed(Enact(w, c).tracked);
    ServeStep(w, c, ip);
    ClaimedStep(w, c);
    ServeTurnKeys(Claimed(w.tracked), turn, ip);
    ConstantEqual((Claimed(w.tracked) - Keys(turn.dropped)) + Keys(turn.added), after, ip);
    NothingIsLostIff(Claimed(w.tracked), Keys(turn.dropped), Keys(turn.added), after);
  }

  lemma {:induction false} ExactWhileNothingIsLost(cs: seq<Change>, ip: string, n: nat)
    requires n <= |cs| && forall i | 0 <= i < n :: Lost(After(cs[..i]).tracked, cs[i]) == {}
    ensures Exact(After(cs[..n]), ip)
  {
    if n == 0 {
      assert Claimed(map[]) == {};
    } else {
      ExactWhileNothingIsLost(cs, ip, n - 1);
      assert cs[..n][..n - 1] == cs[..n - 1];
      ExactnessKeptIff(After(cs[..n - 1]), cs[n - 1], ip);
    }
  }

  /** Exactly the claimed names are served after every change of a run exactly when no change of the run loses one. */
  lemma ExactThroughoutIff(cs: seq<Change>, ip: string)
    ensures (forall n | 0 <= n <= |cs| :: Exact(After(cs[..n]), ip)) <==>
            (forall i | 0 <= i < |cs| :: Lost(After(cs[..i]).tracked, cs[i]) == {})
  {
    if forall n | 0 <= n <= |cs| :: Exact(After(cs[..n]), ip) {
      forall i | 0 <= i < |cs| ensures Lost(After(cs[..i]).tracked, cs[i]) == {} {
        assert Exact(After(cs[..i]), ip) && Exact(After(cs[..i + 1]), ip);
        assert cs[..i + 1][..i] == cs[..i];
        ExactnessKeptIff(After(cs[..i]), cs[i], ip);
      }
    }
    if forall i | 0 <= i < |cs| :: Lost(After(cs[..i]).tracked, cs[i]) == {} {
      forall n | 0 <= n <= |cs| ensures Exact(After(cs[..n]), ip) { ExactWhileNothingIsLost(cs, ip, n); }
    }
  }

  /** Turn i adds k, and no later turn drops it. */
  ghost predicate LastAdded(turns: seq<Turn>, k: string, i: nat) {
    && i < |turns| && k in Keys(turns[i].added)
    && forall j | i < j < |turns| :: k !in Keys(turns[j].dropped)
  }

  lemma {:induction false} ServedIffLastAdded(turns: seq<Turn>, ip: string, k: string)
    ensures k in Serve(turns, ip) <==> exists i :: LastAdded(turns, k, i)
  {
    if turns == [] {
    } else {
      var n := |turns| - 1;
      ServedIffLastAdded(turns[..n], ip, k);
      if k in Keys(turns[n].added) {
        assert LastAdded(turns, k, n);
      } else {
        forall i | LastAdded(turns, k, i) ensures LastAdded(turns[..n], k, i) && k !in Keys(turns[n].dropped) {}
        forall i | LastAdded(turns[..n], k, i) && k !in Keys(turns[n].dropped) ensures LastAdded(turns, k, i) {}
      }
    }
  }

  /** At any moment, exactly the claimed names are served exactly when each was added and not dropped since. */
  lemma ExactNowIff(cs: seq<Change>, ip: string)
    ensures Exact(After(cs), ip) <==>
            forall k | k in Claimed(After(cs).tracked) :: exists i :: LastAdded(After(cs).turns, k, i)
  {
    var w := After(cs);
    NoOrphansAfter(cs, ip);
    forall k: string ensures k in Serve(w.turns, ip) <==> exists i :: LastAdded(w.turns, k, i) {
      ServedIffLastAdded(w.turns, ip, k);
    }
    if Exact(w, ip) {
      assert forall k | k in Claimed(w.tracked) :: k in Serve(w.turns, ip);
    }
  }

  /** No two tracked (container, hostname) pairs share a stored form. */
  ghost predicate Unshared(tracked: Tracked) {
    forall id, h, id', h' |
      id in tracked && h in tracked[id] && id' in tracked && h' in tracked[id'] && Lower(h) == Lower(h') ::
      id == id' && h == h'
  }

  lemma UnsharedLosesNothing(tracked: Tracked, c: Change)
    requires Unshared(tracked)
    ensures Lost(tracked, c) == {}
  {
    var turn, after := TurnOf(tracked, c), TrackedAfter(tracked, c);
    if c.Release? { NamesOfAllMembers(tracked, c.ids); }
    forall k | k in Keys(turn.dropped) && k in Claimed(after) ensures k in Keys(turn.added) {
      var h :| h in turn.dropped && Lower(h) == k;
      var id := if c.Claim? then c.id else var id :| id in c.ids && h in NamesOf(tracked, id); id;
      assert id in tracked && h in tracked[id];
      var id', h' :| id' in after && h' in after[id'] && Lower(h') == k;
      if id' !in tracked || h' !in tracked[id'] {
        assert h' in turn.added;
      }
    }
  }

  /** While names are not shared, also midway through a sync, exactly the tracked names are served. */
  lemma ExactAfter(cs: seq<Change>, ip: string)
    requires forall i | 0 <= i < |cs| :: Unshared(After(cs[..i]).tracked)
    ensures Exact(After(cs), ip)
  {
    forall i | 0 <= i < |cs| ensures Lost(After(cs[..i]).tracked, cs[i]) == {} {
      UnsharedLosesNothing(After(cs[..i]).tracked, cs[i]);
    }
    ExactWhileNothingIsLost(cs, ip, |cs|);
    assert cs[..|cs|] == cs;
  }

  /** The two results for every sequence of container events. */
  lemma ServedAfterEvents(es: seq<Event>, ip: string)
    ensures NoOrphans(After(AllChanges(es)), ip)
    ensures (forall i | 0 <= i < |AllChanges(es)| :: Unshared(After(AllChanges(es)[..i]).tracked)) ==>
            Exact(After(AllChanges(es)), ip)
  {
    NoOrphansAfter(AllChanges(es), ip);
    if forall i | 0 <= i < |AllChanges(es)| :: Unshared(After(AllChanges(es)[..i]).tracked) {
      ExactAfter(AllChanges(es), ip);
    }
  }

  /** A start without valid names and a stop of an unknown container change nothing and announce nothing. */
  lemma IdleEvents(es: seq<Event>, id: string, time: int)
    ensures After(AllChanges(es + [Start(id, [], time)])) == After(AllChanges(es))
    ensures id !in After(AllChanges(es)).tracked ==> After(AllChanges(es + [Stop(id, time)])) == After(AllChanges(es))
  {
    var cs, w := AllChanges(es), After(AllChanges(es));
    assert (es + [Start(id, [], time)])[..|es|] == es && (es + [Stop(id, time)])[..|es|] == es;
    assert cs + [] == cs;
    if id !in w.tracked {
      var release := Release([id], time);
      assert (cs + [release])[..|cs|] == cs;
      assert [id][..0] == [] && NamesOfAll(w.tracked, [id]) == [];
      assert w.tracked - (set x | x in [id]) == w.tracked;
    }
  }

  // ---- What a sync tracks, and a sync that loses a name ----

  /** The latest names of each listed container that has any. */
  function LatestNames(listing: seq<Listed>): Tracked {
    if listing == [] then map[]
    else
      var c := listing[|listing| - 1];
      var r := LatestNames(listing[..|listing| - 1]);
      if c.names == [] then r else r[c.id := c.names]
  }

  lemma {:induction false} AfterConcat(a: seq<Change>, b: seq<Change>, c: Change)
    ensures After(a + b + [c]) == Enact(After(a + b), c)
  {
    assert (a + b + [c])[..|a + b|] == a + b;
  }

  lemma {:induction false} SeenIsNamed(listing: seq<Listed>)
    ensures forall id :: id in Seen(listing) <==> id in LatestNames(listing)
  {
    if listing == [] {
    } else {
      SeenIsNamed(listing[..|listing| - 1]);
    }
  }

  lemma {:induction false} ClaimsTrack(cs: seq<Change>, listing: seq<Listed>)
    ensures After(cs + Claims(listing)).tracked == After(cs).tracked + LatestNames(listing)
    decreases |listing|
  {
    if listing == [] {
      assert cs + Claims(listing) == cs;
    } else {
      var init, c := listing[..|listing| - 1], listing[|listing| - 1];
      ClaimsTrack(cs, init);
      if c.names == [] {
        assert Claims(listing) == Claims(init);
      } else {
        var claim := Claim(c.id, c.names, c.time);
        assert Claims(listing) == Claims(init) + [claim];
        assert cs + (Claims(init) + [claim]) == cs + Claims(init) + [claim];
        ClaimStep(cs + Claims(init), claim, After(cs).tracked, LatestNames(init));
      }
    }
  }

  lemma ClaimStep(cs: seq<Change>, claim: Change, base: Tracked, latest: Tracked)
    requires claim.Claim? && After(cs).tracked == base + latest
    ensures After(cs + [claim]).tracked == base + latest[claim.id := claim.names]
  {
    assert (cs + [claim])[..|cs|] == cs;
    assert (base + latest)[claim.id := claim.names] == base + latest[claim.id := claim.names];
  }

  lemma SweepLeaves(base: Tracked, latest: Tracked, gone: set<string>)
    requires forall id | id in base + latest :: id in gone <==> id !in latest
    ensures (base + latest) - gone == latest
  {
    assert forall id | id in latest :: id in base + latest;
  }

  /** A sync whose sweep walks all tracked containers leaves exactly the listed ones tracked. */
  lemma SyncTracksListing(cs: seq<Change>, listing: seq<Listed>, order: seq<string>, time: int)
    requires forall id | id in After(cs + Claims(listing)).tracked :: id in order
    ensures After(cs + Changes(Sync(listing, order, time))).tracked == LatestNames(listing)
  {
    var gone := Minus(order, Seen(listing));
    ClaimsTrack(cs, listing);
    SeenIsNamed(listing);
    AfterConcat(cs, Claims(listing), Release(gone, time));
    assert cs + Changes(Sync(listing, order, time)) == cs + Claims(listing) + [Release(gone, time)];
    SweepLeaves(After(cs).tracked, LatestNames(listing), set id | id in gone);
  }

  lemma TwoClaims(id: string, id': string, h: string)
    requires id != id'
    ensures After([Claim(id, [h], 1), Claim(id', [h], 2)]).tracked == map[id := [h], id' := [h]]
  {
    var first, second := Claim(id, [h], 1), Claim(id', [h], 2);
    assert [first, second][..1] == [first] && [first][..0] == [];
    assert After([first]) == Enact(After([]), first);
  }

  lemma SweepDrops(w: Watch, id: string, h: string, ip: string)
    requires id in w.tracked && h in w.tracked[id]
    ensures Lower(h) !in Serve(Enact(w, Release([id], 3)).turns, ip)
  {
    ServeStep(w, Release([id], 3), ip);
    assert id in [id] && h in NamesOf(w.tracked, id);
    NamesOfAllMembers(w.tracked, [id]);
    assert h in NamesOfAll(w.tracked, [id]);
  }

  /** Two containers claim one name: when the first goes, the name goes although the second still claims it. */
  lemma SharedNameIsLost(id: string, id': string, h: string, ip: string)
    requires id != id'
    ensures
      var w := After([Claim(id, [h], 1), Claim(id', [h], 2), Release([id], 3)]);
      w.tracked == map[id' := [h]] && Lower(h) !in Serve(w.turns, ip)
  {
    var cs := [Claim(id, [h], 1), Claim(id', [h], 2)];
    TwoClaims(id, id', h);
    SweepDrops(After(cs), id, h, ip);
    assert [Claim(id, [h], 1), Claim(id', [h], 2), Release([id], 3)][..2] == cs;
    assert map[id := [h], id' := [h]] - {id} == map[id' := [h]];
    assert (set x | x in [id]) == {id};
  }

  lemma RecreationChanges(old_: string, new_: string, h: string)
    requires old_ != new_
    ensures AllChanges([Start(old_, [h], 1), Sync([Listed(new_, [h], 2)], [old_, new_], 3)]) ==
            [Claim(old_, [h], 1), Claim(new_, [h], 2), Release([old_], 3)]
  {
    var start, sync := Start(old_, [h], 1), Sync([Listed(new_, [h], 2)], [old_, new_], 3);
    assert [start, sync][..1] == [start] && [start][..0] == [];
    assert AllChanges([start]) == AllChanges([]) + [Claim(old_, [h], 1)];
    assert Claims(sync.listing) == [Claim(new_, [h], 2)] && Seen(sync.listing) == [new_];
    assert [old_, new_][..1] == [old_] && [old_][..0] == [];
    assert Minus([old_], [new_]) == Minus([], [new_]) + [old_];
    assert Minus([old_, new_], [new_]) == [old_];
  }

  /** A container recreated under a new id: the sync adds the name for the new one, then drops it with the old one. */
  lemma RecreatedContainerLosesName(old_: string, new_: string, h: string, ip: string)
    requires old_ != new_
    ensures
      var w := After(AllChanges([Start(old_, [h], 1), Sync([Listed(new_, [h], 2)], [old_, new_], 3)]));
      w.tracked == map[new_ := [h]] && Lower(h) !in Serve(w.turns, ip)
  {
    RecreationChanges(old_, new_, h);
    SharedNameIsLost(old_, new_, h, ip);
  }
}
