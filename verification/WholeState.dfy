/**
 Cleaned states as a whole: when reconstruction is enough for all that the nodes access, whether the
 pass has recorded it or not.
 */
module WholeState {
  import opened Basics
  import opened StateGraph
  import opened Rewrites
  import opened Scheduling
  import opened Hazards
  import opened Cleaning
  import opened CleaningPass
  import opened Necessity
  import opened PlainWrites
  import opened PlainNecessity
  import opened Connectivity
  import opened MemletUse

  // ---- in terms of the cleaned state ----

  /** Every conflict that the records do not show is ordered by a path all the same. */
  ghost predicate UnrecordedOrdered(g: Graph, acc: Accesses, tracked: Accesses, topo: Order)
    requires g.nodes.Keys <= topo.Keys
  {
    forall u, v, s ::
      u in g.nodes && v in g.nodes && topo[u] < topo[v] && acc.ConflictOn(s, u, v) && !tracked.ConflictOn(s, u, v)
      ==> Connected(g, g.nodes.Keys, u, v)
  }

  lemma RecordedAreOrdered(g: Graph, tracked: Accesses, topo: Order, u: Node, v: Node, s: Slot)
    requires SlotOrdered(g, tracked, s, topo) && tracked.ConflictOn(s, u, v)
    requires u in g.nodes && v in g.nodes && u in topo && v in topo && topo[u] < topo[v]
    ensures Connected(g, g.nodes.Keys, u, v)
  {
    ConnectedGrows(g, tracked.Tasks(g.nodes.Keys), g, g.nodes.Keys, u, v);
  }

  /** After a state has been cleaned, by any run, all orders of all its nodes that respect its edges
      compute the same, for whatever the nodes really access, exactly when the conflicts that were not
      recorded are ordered by its data flow. */
  lemma UnrecordedOrderedIff(g: Graph, arrays: string -> Descriptor, g': Graph,
                                  log: map<string, Slot>, log': map<string, Slot>,
                                  topo: Order, rs: seq<Rewrite>, rewritten: Graph,
                                  acc: Accesses, original: seq<Node>)
    requires CleanedBy(g, arrays, Fine, g', log, log', topo, rs, rewritten)
    requires IsOriginal(g'.nodes.Keys, topo, original)
    ensures g'.nodes.Keys <= topo.Keys
    ensures SchedulesAgree(g', g'.nodes.Keys, acc, original)
       <==> UnrecordedOrdered(g', acc, Tracked(g, arrays, rs, log), topo)
  {
    var within, tracked := g'.nodes.Keys, Tracked(g, arrays, rs, log);
    SchedulesAgreeIff(g', within, acc, topo, original);
    if UnrecordedOrdered(g', acc, tracked, topo) {
      forall u, v | u in within && v in within && topo[u] < topo[v] && acc.Conflict(u, v)
        ensures Connected(g', within, u, v)
      {
        var s :| acc.ConflictOn(s, u, v);
        if tracked.ConflictOn(s, u, v) {
          assert SlotOrdered(g', tracked, s, topo);
          RecordedAreOrdered(g', tracked, topo, u, v, s);
        }
      }
    }
    if ConflictsOrdered(Paths(g', within), within, acc, topo) {
      forall u, v, s | u in within && v in within && topo[u] < topo[v]
                       && acc.ConflictOn(s, u, v) && !tracked.ConflictOn(s, u, v)
        ensures Connected(g', within, u, v)
      {
        assert acc.Conflict(u, v);
        assert (u, v) in Paths(g', within);
      }
    }
  }

  /** In particular it is enough when every access to a slot that is written at all is recorded. */
  lemma CompleteRecordsSuffice(g: Graph, arrays: string -> Descriptor, g': Graph,
                               log: map<string, Slot>, log': map<string, Slot>,
                               topo: Order, rs: seq<Rewrite>, rewritten: Graph,
                               acc: Accesses, original: seq<Node>)
    requires CleanedBy(g, arrays, Fine, g', log, log', topo, rs, rewritten)
    requires IsOriginal(g'.nodes.Keys, topo, original)
    requires RecordsComplete(acc, Tracked(g, arrays, rs, log))
    ensures SchedulesAgree(g', g'.nodes.Keys, acc, original)
  {
    hide CleanedBy, SchedulesAgree, RecordsComplete;
    var tracked := Tracked(g, arrays, rs, log);
    UnrecordedOrderedIff(g, arrays, g', log, log', topo, rs, rewritten, acc, original);
    forall s, u, v | acc.ConflictOn(s, u, v) ensures tracked.ConflictOn(s, u, v) {
      CompleteRecordsShow(acc, tracked, s, u, v);
    }
  }

  ghost predicate RecordsComplete(acc: Accesses, tracked: Accesses) {
    forall t, s, w :: acc.Touches(t, s) && acc.Writes(w, s) ==>
      (acc.Reads(t, s) ==> tracked.Reads(t, s)) && (acc.Writes(t, s) ==> tracked.Writes(t, s))
  }

  lemma CompleteRecordsShow(acc: Accesses, tracked: Accesses, s: Slot, u: Node, v: Node)
    requires RecordsComplete(acc, tracked) && acc.ConflictOn(s, u, v)
    ensures tracked.ConflictOn(s, u, v)
  {
    var w := if acc.Writes(u, s) then u else v;
    assert acc.Writes(w, s) && acc.Touches(u, s) && acc.Touches(v, s);
  }

  // ---- in terms of the state before ----

  /** v follows u by a path of the state, or as the later one of two tasklets recorded with a conflict. */
  ghost predicate Follows(g: Graph, tracked: Accesses, topo: Order, u: Node, v: Node) {
    Connected(g, g.nodes.Keys, u, v) || (u in topo && v in topo && topo[u] < topo[v] && tracked.Conflict(u, v))
  }

  ghost predicate IsJoin(g: Graph, tracked: Accesses, topo: Order, within: set<Node>, u: Node, v: Node, p: seq<Node>) {
    && |p| >= 2 && p[0] == u && p[|p| - 1] == v
    && (forall i :: 0 <= i < |p| ==> p[i] in within)
    && (forall i :: 0 <= i < |p| - 1 ==> Follows(g, tracked, topo, p[i], p[i + 1]))
  }

  /** Paths and recorded conflicts lead from u to v, over nodes that stay. */
  ghost predicate Joined(g: Graph, tracked: Accesses, topo: Order, within: set<Node>, u: Node, v: Node) {
    exists p :: IsJoin(g, tracked, topo, within, u, v, p)
  }

  ghost function JoinedPairs(g: Graph, tracked: Accesses, topo: Order, within: set<Node>): Precedence {
    iset p: (Node, Node) | Joined(g, tracked, topo, within, p.0, p.1)
  }

  lemma NewEdgeFollows(g: Graph, rewritten: Graph, g': Graph, tracked: Accesses, topo: Order, x: Node, y: Node)
    requires PathsKept(g, rewritten) && rewritten.WellFormed()
    requires OnlyAdds(rewritten, g', tracked, tracked.Tasks(g'.nodes.Keys), topo)
    requires g'.HasEdge(x, y)
    ensures Follows(g, tracked, topo, x, y)
  {
    var e :| e in g'.edges && e.src == x && e.dst == y;
    if e in rewritten.edges {
      assert rewritten.HasEdge(x, y);
      EdgeConnects(rewritten, rewritten.nodes.Keys, x, y);
    }
  }

  lemma PathIsJoin(g: Graph, rewritten: Graph, g': Graph, tracked: Accesses, topo: Order, u: Node, v: Node, p: seq<Node>)
    requires PathsKept(g, rewritten) && rewritten.WellFormed()
    requires OnlyAdds(rewritten, g', tracked, tracked.Tasks(g'.nodes.Keys), topo)
    requires IsPath(g', g'.nodes.Keys, u, v, p)
    ensures IsJoin(g, tracked, topo, g'.nodes.Keys, u, v, p)
  {
    forall i | 0 <= i < |p| - 1 ensures Follows(g, tracked, topo, p[i], p[i + 1]) {
      NewEdgeFollows(g, rewritten, g', tracked, topo, p[i], p[i + 1]);
    }
  }

  lemma FollowsIsConnected(g: Graph, rewritten: Graph, g': Graph, tracked: Accesses, topo: Order, u: Node, v: Node)
    requires PathsKept(g, rewritten)
    requires OnlyAdds(rewritten, g', tracked, tracked.Tasks(g'.nodes.Keys), topo)
    requires forall s :: SlotOrdered(g', tracked, s, topo)
    requires u in g'.nodes && v in g'.nodes && Follows(g, tracked, topo, u, v)
    ensures Connected(g', g'.nodes.Keys, u, v)
  {
    if Connected(g, g.nodes.Keys, u, v) {
      ConnectedGrows(rewritten, rewritten.nodes.Keys, g', g'.nodes.Keys, u, v);
    } else {
      var s :| tracked.ConflictOn(s, u, v);
      assert SlotOrdered(g', tracked, s, topo);
      RecordedAreOrdered(g', tracked, topo, u, v, s);
    }
  }

  lemma {:induction false} JoinIsConnected(g: Graph, rewritten: Graph, g': Graph, tracked: Accesses, topo: Order,
                                           u: Node, v: Node, p: seq<Node>)
    requires PathsKept(g, rewritten)
    requires OnlyAdds(rewritten, g', tracked, tracked.Tasks(g'.nodes.Keys), topo)
    requires forall s :: SlotOrdered(g', tracked, s, topo)
    requires IsJoin(g, tracked, topo, g'.nodes.Keys, u, v, p)
    ensures Connected(g', g'.nodes.Keys, u, v)
    decreases |p|
  {
    hide PathsKept, OnlyAdds, SlotOrdered, Follows;
    assert Follows(g, tracked, topo, p[0], p[0 + 1]);
    FollowsIsConnected(g, rewritten, g', tracked, topo, u, p[1]);
    if |p| > 2 {
      var q := p[1..];
      forall i | 0 <= i < |q| - 1 ensures Follows(g, tracked, topo, q[i], q[i + 1]) {
        assert q[i] == p[i + 1] && q[i + 1] == p[i + 2];
      }
      JoinIsConnected(g, rewritten, g', tracked, topo, p[1], v, q);
      ConnectedTrans(g', g'.nodes.Keys, u, p[1], v);
    }
  }

  /** The paths of the cleaned state, read off the state before: what paths and recorded conflicts join. */
  lemma CleanedPathsAre(g: Graph, arrays: string -> Descriptor, g': Graph, log: map<string, Slot>, log': map<string, Slot>,
                        topo: Order, rs: seq<Rewrite>, rewritten: Graph)
    requires CleanedBy(g, arrays, Fine, g', log, log', topo, rs, rewritten) && g.WellFormed()
    requires NoOtherUses(g, arrays, rs)
    ensures g'.nodes.Keys == Survivors(g, arrays, rs)
    ensures Paths(g', g'.nodes.Keys) == JoinedPairs(g, Tracked(g, arrays, rs, log), topo, g'.nodes.Keys)
  {
    hide PathsKept, OnlyAdds, SlotOrdered, IsPath, IsJoin;
    var tracked, within := Tracked(g, arrays, rs, log), g'.nodes.Keys;
    RunKeepsPaths(g, arrays, rs, rewritten, topo);
    RunInvariant(g, arrays, rs, rewritten, topo);
    assert g'.nodes == rewritten.nodes by {
      OnlyAddsKeepsNodes(rewritten, g', tracked, tracked.Tasks(within), topo);
    }
    forall u, v ensures Connected(g', within, u, v) <==> Joined(g, tracked, topo, within, u, v) {
      if p :| IsPath(g', within, u, v, p) {
        PathIsJoin(g, rewritten, g', tracked, topo, u, v, p);
      }
      if p :| IsJoin(g, tracked, topo, within, u, v, p) {
        JoinIsConnected(g, rewritten, g', tracked, topo, u, v, p);
      }
    }
  }

  lemma OnlyAddsKeepsNodes(g: Graph, g': Graph, acc: Accesses, tasks: set<Node>, topo: Order)
    requires OnlyAdds(g, g', acc, tasks, topo)
    ensures g'.nodes == g.nodes && g.edges <= g'.edges
    ensures forall e :: e in g'.edges && e !in g.edges ==> e.memlet == Empty
  {
  }

  /** Every conflict that the records do not show is joined in the state before. */
  ghost predicate UnrecordedJoined(g: Graph, acc: Accesses, tracked: Accesses, topo: Order, within: set<Node>)
    requires within <= topo.Keys
  {
    forall u, v, s ::
      u in within && v in within && topo[u] < topo[v] && acc.ConflictOn(s, u, v) && !tracked.ConflictOn(s, u, v)
      ==> Joined(g, tracked, topo, within, u, v)
  }

  /** When reconstruction is enough, by the state before cleaning, the matches, and what they record.
      All schedules of the cleaned state agree, for tasklets that may accumulate, exactly when each
      unrecorded conflict is joined; for tasklets that overwrite without looking, exactly when the joins
      order the sources. The accesses may be any, among them those that the matches leave. */
  lemma ReconstructionSufficesIff(g: Graph, arrays: string -> Descriptor, g': Graph,
                                  log: map<string, Slot>, log': map<string, Slot>,
                                  topo: Order, rs: seq<Rewrite>, rewritten: Graph,
                                  acc: Accesses, original: seq<Node>)
    requires CleanedBy(g, arrays, Fine, g', log, log', topo, rs, rewritten) && g.WellFormed()
    requires NoOtherUses(g, arrays, rs) && IsOriginal(Survivors(g, arrays, rs), topo, original)
    ensures Survivors(g, arrays, rs) <= topo.Keys && MemletAccesses(g') == AccessesAfter(g, arrays, rs)
    ensures var tracked, within := Tracked(g, arrays, rs, log), Survivors(g, arrays, rs);
            && (SchedulesAgree(g', within, acc, original) <==> UnrecordedJoined(g, acc, tracked, topo, within))
            && (PlainSchedulesAgree(g', within, acc, original)
                <==> SourcesOrdered(JoinedPairs(g, tracked, topo, within), within, acc))
  {
    hide OnlyAdds, SlotOrdered, SchedulesAgree, PlainSchedulesAgree, Joined, SourcesOrdered;
    var tracked, within := Tracked(g, arrays, rs, log), Survivors(g, arrays, rs);
    CleanedPathsAre(g, arrays, g', log, log', topo, rs, rewritten);
    OnlyAddsKeepsNodes(rewritten, g', tracked, tracked.Tasks(g'.nodes.Keys), topo);
    AccessesAfterAre(g, arrays, rs, rewritten, g', topo);
    PlainSchedulesAgreeIff(g', within, acc, topo, original);
    UnrecordedOrderedIff(g, arrays, g', log, log', topo, rs, rewritten, acc, original);
    JoinedInstead(g, g', acc, tracked, topo, within);
  }

  lemma JoinedInstead(g: Graph, g': Graph, acc: Accesses, tracked: Accesses, topo: Order, within: set<Node>)
    requires within == g'.nodes.Keys <= topo.Keys && Paths(g', within) == JoinedPairs(g, tracked, topo, within)
    ensures UnrecordedOrdered(g', acc, tracked, topo) <==> UnrecordedJoined(g, acc, tracked, topo, within)
  {
    hide Joined, Connected;
    forall u: Node, v: Node ensures Connected(g', within, u, v) <==> Joined(g, tracked, topo, within, u, v) {
      assert (u, v) in Paths(g', within) <==> (u, v) in JoinedPairs(g, tracked, topo, within);
    }
  }
}
