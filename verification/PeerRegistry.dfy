/**
 * Which peers speak which protocol and follow which topic, kept as inverse
 * indexes of the node descriptors seen since the last reset.
 */
module PeerRegistry {
  import opened Wrappers

  type PeerId = nat
  type Address = string
  type Name = string

  datatype AddrInfo = AddrInfo(id: PeerId, addresses: seq<Address>)

  /** `info` is missing if the node's addresses cannot be converted. */
  datatype Node = Node(info: Option<AddrInfo>, protocols: set<Name>, topics: set<Name>)

  datatype PeerData = PeerData(info: AddrInfo, protocols: set<Name>, topics: set<Name>)

  type Index = map<Name, set<PeerId>>

  function Lookup(index: Index, name: Name): (peers: set<PeerId>) {
    if name in index then index[name] else {}
  }

  function Names(data: PeerData, topics: bool): set<Name> {
    if topics then data.topics else data.protocols
  }

  /** The index lists a peer under a name exactly if its data says so. */
  ghost predicate Inverts(index: Index, peers: map<PeerId, PeerData>, topics: bool) {
    forall name, p :: p in Lookup(index, name) <==> p in peers && name in Names(peers[p], topics)
  }

  // ---- the latest descriptor of every peer ----

  datatype Event = Clear | Handle(nodes: seq<Node>)

  /** What a node says about a peer, if it can be used and is about that peer. */
  function About(n: Node, p: PeerId): Option<PeerData> {
    if n.info.Some? && n.info.value.id == p then Some(PeerData(n.info.value, n.protocols, n.topics)) else None
  }

  function LatestIn(nodes: seq<Node>, p: PeerId): (r: Option<PeerData>) {
    if nodes == [] then None
    else
      var last := About(nodes[|nodes| - 1], p);
      if last.Some? then last else LatestIn(nodes[..|nodes| - 1], p)
  }

  /** Searching backwards through what happened, up to the last reset. */
  function Latest(events: seq<Event>, p: PeerId): (r: Option<PeerData>) {
    if events == [] || events[|events| - 1].Clear? then None
    else
      var last := LatestIn(events[|events| - 1].nodes, p);
      if last.Some? then last else Latest(events[..|events| - 1], p)
  }

  ghost predicate Describes(peers: map<PeerId, PeerData>, events: seq<Event>) {
    forall p :: (if p in peers then Some(peers[p]) else None) == Latest(events, p)
  }

  method Collect(nodes: seq<Node>) returns (peers: map<PeerId, PeerData>)
    ensures forall p :: (if p in peers then Some(peers[p]) else None) == LatestIn(nodes, p)
  {
    peers := map[];
    for i := 0 to |nodes|
      invariant forall p :: (if p in peers then Some(peers[p]) else None) == LatestIn(nodes[..i], p)
    {
      assert nodes[..i + 1][..i] == nodes[..i];
      var n := nodes[i];
      if n.info.Some? {
        peers := peers[n.info.value.id := PeerData(n.info.value, n.protocols, n.topics)];
      }
    }
    assert nodes[..|nodes|] == nodes;
  }

  /** Removes a peer from every entry of an index, in any order. */
  method RemoveEverywhere(before: Index, p: PeerId) returns (index: Index)
    ensures forall name :: Lookup(index, name) == Lookup(before, name) - {p}
  {
    index := before;
    var todo := before.Keys;
    while todo != {}
      invariant todo <= before.Keys && index.Keys == before.Keys
      invariant forall name :: name in before ==>
                index[name] == if name in todo then before[name] else before[name] - {p}
      decreases |todo|
    {
      var name :| name in todo;
      todo := todo - {name};
      index := index[name := index[name] - {p}];
    }
  }

  /** `index` is `before` with the peer added under the given names. */
  ghost predicate AddedUnder(before: Index, index: Index, names: set<Name>, p: PeerId) {
    forall name :: Lookup(index, name) == Lookup(before, name) + (if name in names then {p} else {})
  }

  lemma {:induction false} AddOne(before: Index, index: Index, names: set<Name>, p: PeerId, name: Name)
    requires AddedUnder(before, index, names, p)
    ensures AddedUnder(before, index[name := Lookup(index, name) + {p}], names + {name}, p)
  {
  }

  /** Adds a peer under every one of its names, making entries where needed. */
  method AddUnder(before: Index, names: set<Name>, p: PeerId) returns (index: Index)
    ensures AddedUnder(before, index, names, p)
  {
    index := before;
    var todo := names;
    ghost var done: set<Name> := {};
    assert AddedUnder(before, index, done, p);
    hide AddedUnder;
    while todo != {}
      invariant done + todo == names && AddedUnder(before, index, done, p)
      decreases |todo|
    {
      var name :| name in todo;
      AddOne(before, index, done, p, name);
      todo, done := todo - {name}, done + {name};
      index := index[name := Lookup(index, name) + {p}];
    }
  }

  method Reindex(before: Index, p: PeerId, names: set<Name>) returns (index: Index)
    ensures forall name :: Lookup(index, name) == (Lookup(before, name) - {p}) + (if name in names then {p} else {})
  {
    index := RemoveEverywhere(before, p);
    index := AddUnder(index, names, p);
  }

  lemma {:induction false} ReindexInverts(
    before: Index, after: Index, peers: map<PeerId, PeerData>, p: PeerId, data: PeerData, topics: bool)
    requires Inverts(before, peers, topics)
    requires forall name :: Lookup(after, name) ==
               (Lookup(before, name) - {p}) + (if name in Names(data, topics) then {p} else {})
    ensures Inverts(after, peers[p := data], topics)
  {
  }

  lemma {:induction false} MoveOne(m: map<PeerId, PeerData>, todo: map<PeerId, PeerData>, p: PeerId)
    requires p in todo
    ensures m[p := todo[p]] + (todo - {p}) == m + todo
    ensures (todo - {p}).Keys == todo.Keys - {p}
  {
  }

  class Registry {
    var peers: map<PeerId, AddrInfo>
    var protocolPeers: Index
    var topicPeers: Index
    var initialized: bool
    ghost var latest: map<PeerId, PeerData>
    ghost var events: seq<Event>

    ghost predicate Indexed()
      reads this`peers, this`protocolPeers, this`topicPeers, this`latest
    {
      && Inverts(protocolPeers, latest, false)
      && Inverts(topicPeers, latest, true)
      && peers.Keys == latest.Keys
      && forall p :: p in peers ==> peers[p] == latest[p].info
    }

    ghost predicate Valid()
      reads this
    {
      Indexed() && Describes(latest, events)
    }

    constructor ()
      ensures Valid() && events == [] && !initialized
    {
      peers, protocolPeers, topicPeers, initialized := map[], map[], map[], false;
      latest, events := map[], [];
    }

    method ClearNodes()
      requires Valid()
      modifies this
      ensures Valid() && events == old(events) + [Clear] && initialized == old(initialized)
    {
      peers, protocolPeers, topicPeers := map[], map[], map[];
      latest, events := map[], events + [Clear];
    }

    /** Forgets what a peer supported before and records what it supports now. */
    method Update(p: PeerId, data: PeerData)
      requires Indexed()
      modifies this
      ensures Indexed() && latest == old(latest)[p := data]
      ensures events == old(events) && initialized == old(initialized)
    {
      hide Inverts;
      ghost var before, beforeTopics := protocolPeers, topicPeers;
      protocolPeers := Reindex(protocolPeers, p, data.protocols);
      topicPeers := Reindex(topicPeers, p, data.topics);
      peers := peers[p := data.info];
      ReindexInverts(before, protocolPeers, latest, p, data, false);
      ReindexInverts(beforeTopics, topicPeers, latest, p, data, true);
      latest := latest[p := data];
    }

    /** Updates the peers of a batch, in any order. */
    method UpdateAll(batch: map<PeerId, PeerData>)
      requires Indexed()
      modifies this
      ensures Indexed() && latest == old(latest) + batch
      ensures events == old(events) && initialized == old(initialized)
    {
      hide Indexed;
      var todo := batch;
      ghost var target := latest + batch;
      while todo != map[]
        invariant Indexed() && events == old(events) && initialized == old(initialized)
        invariant latest + todo == target
        decreases |todo.Keys|
      {
        var p :| p in todo;
        MoveOne(latest, todo, p);
        Update(p, todo[p]);
        todo := todo - {p};
      }
    }

    method HandleNodes(nodes: seq<Node>)
      requires Valid()
      modifies this
      ensures Valid() && events == old(events) + [Handle(nodes)] && initialized
    {
      hide Inverts, Describes, Indexed, LatestIn;
      var batch := Collect(nodes);
      UpdateAll(batch);
      HandledDescribes(old(latest), batch, events, nodes);
      events := events + [Handle(nodes)];
      initialized := true;
    }

    /**
     * A peer is listed for a protocol or topic exactly if the latest
     * descriptor seen for it since the last reset supports that, and exactly
     * the peers with such a descriptor have an address, the latest one.
     */
    lemma {:induction false} IndexExact(name: Name, p: PeerId)
      requires Valid()
      ensures p in Lookup(protocolPeers, name) <==> Latest(events, p).Some? && name in Latest(events, p).value.protocols
      ensures p in Lookup(topicPeers, name) <==> Latest(events, p).Some? && name in Latest(events, p).value.topics
      ensures (if p in peers then Some(peers[p]) else None)
              == (if Latest(events, p).Some? then Some(Latest(events, p).value.info) else None)
      ensures p in Lookup(protocolPeers, name) + Lookup(topicPeers, name) ==> p in peers && peers[p].id == p
    {
      LatestId(events, p);
    }

    /**
     * The same on the events and nodes themselves: a peer is listed under the
     * protocols, and the topics, of the last usable node about it, unless the
     * registry has been reset since, and its address is that node's.
     */
    lemma {:induction false} ListedExactly(name: Name, p: PeerId)
      requires Valid()
      ensures p in Lookup(protocolPeers, name) <==>
              exists e: nat, k: nat :: Newest(events, e, k, p) && name in events[e].nodes[k].protocols
      ensures p in Lookup(topicPeers, name) <==>
              exists e: nat, k: nat :: Newest(events, e, k, p) && name in events[e].nodes[k].topics
      ensures p in peers <==> exists e: nat, k: nat :: Newest(events, e, k, p)
      ensures forall e: nat, k: nat :: Newest(events, e, k, p) ==>
                p in peers && events[e].nodes[k].info == Some(peers[p])
    {
      hide Latest;
      IndexExact(name, p);
      if Latest(events, p).Some? {
        var e, k := LatestAt(events, p);
      }
      forall e: nat, k: nat | Newest(events, e, k, p)
        ensures Latest(events, p).Some? && Tells(events[e].nodes[k], Latest(events, p).value)
      {
        NewestIsLatest(events, e, k, p);
      }
    }
  }

  /** The node can be used, and it is about the peer. */
  predicate Usable(n: Node, p: PeerId) { n.info.Some? && n.info.value.id == p }

  /** Node k of event e is about the peer, and since then no other was, nor was there a reset. */
  predicate Newest(events: seq<Event>, e: nat, k: nat, p: PeerId) {
    && e < |events| && events[e].Handle? && k < |events[e].nodes| && Usable(events[e].nodes[k], p)
    && (forall l :: k < l < |events[e].nodes| ==> !Usable(events[e].nodes[l], p))
    && forall f :: e < f < |events| ==>
         events[f].Handle? && forall l :: 0 <= l < |events[f].nodes| ==> !Usable(events[f].nodes[l], p)
  }

  predicate Tells(n: Node, data: PeerData) {
    n.info == Some(data.info) && n.protocols == data.protocols && n.topics == data.topics
  }

  lemma {:induction false} NoneIn(nodes: seq<Node>, p: PeerId)
    ensures LatestIn(nodes, p).None? <==> forall l :: 0 <= l < |nodes| ==> !Usable(nodes[l], p)
  {
    if nodes != [] {
      var front := nodes[..|nodes| - 1];
      NoneIn(front, p);
      assert forall l :: 0 <= l < |front| ==> front[l] == nodes[l];
    }
  }

  lemma {:induction false} LatestInAt(nodes: seq<Node>, p: PeerId, k: nat)
    requires k < |nodes| && Usable(nodes[k], p) && forall l :: k < l < |nodes| ==> !Usable(nodes[l], p)
    ensures LatestIn(nodes, p).Some? && Tells(nodes[k], LatestIn(nodes, p).value)
  {
    if k < |nodes| - 1 {
      LatestInAt(nodes[..|nodes| - 1], p, k);
    }
  }

  lemma {:induction false} LastUsable(nodes: seq<Node>, p: PeerId) returns (k: nat)
    requires LatestIn(nodes, p).Some?
    ensures k < |nodes| && Usable(nodes[k], p) && forall l :: k < l < |nodes| ==> !Usable(nodes[l], p)
  {
    k := |nodes| - 1;
    if !Usable(nodes[k], p) {
      k := LastUsable(nodes[..|nodes| - 1], p);
    }
  }

  lemma {:induction false} NewestIsLatest(events: seq<Event>, e: nat, k: nat, p: PeerId)
    requires Newest(events, e, k, p)
    ensures Latest(events, p).Some? && Tells(events[e].nodes[k], Latest(events, p).value)
    decreases |events|
  {
    hide LatestIn;
    var last := |events| - 1;
    NoneIn(events[last].nodes, p);
    if e == last {
      LatestInAt(events[last].nodes, p, k);
    } else {
      NewestIsLatest(events[..last], e, k, p);
    }
  }

  lemma {:induction false} LatestAt(events: seq<Event>, p: PeerId) returns (e: nat, k: nat)
    requires Latest(events, p).Some?
    ensures Newest(events, e, k, p) && Tells(events[e].nodes[k], Latest(events, p).value)
    decreases |events|
  {
    hide LatestIn;
    var last := |events| - 1;
    NoneIn(events[last].nodes, p);
    if LatestIn(events[last].nodes, p).Some? {
      e := last;
      k := LastUsable(events[last].nodes, p);
    } else {
      e, k := LatestAt(events[..last], p);
    }
    NewestIsLatest(events, e, k, p);
  }

  lemma {:induction false} HandledDescribes(
    before: map<PeerId, PeerData>, batch: map<PeerId, PeerData>, events: seq<Event>, nodes: seq<Node>)
    requires Describes(before, events)
    requires forall p :: (if p in batch then Some(batch[p]) else None) == LatestIn(nodes, p)
    ensures Describes(before + batch, events + [Handle(nodes)])
  {
    var all := events + [Handle(nodes)];
    assert all[..|all| - 1] == events;
  }

  lemma {:induction false} LatestInId(nodes: seq<Node>, p: PeerId)
    ensures LatestIn(nodes, p).Some? ==> LatestIn(nodes, p).value.info.id == p
  {
    if nodes != [] {
      LatestInId(nodes[..|nodes| - 1], p);
    }
  }

  lemma {:induction false} LatestId(events: seq<Event>, p: PeerId)
    ensures Latest(events, p).Some? ==> Latest(events, p).value.info.id == p
  {
    if events != [] && events[|events| - 1].Handle? {
      LatestInId(events[|events| - 1].nodes, p);
      LatestId(events[..|events| - 1], p);
    }
  }
}
