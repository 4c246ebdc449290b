/** Where a connection goes: inbound by port, first matching rule or the final outbound,
    pool, members.  The compiled tree gives every node the route its configuration means. */
module Routing {
  import opened Types
  import opened Text
  import opened Tags
  import opened Allocation
  import opened NodeFilter
  import opened Builder
  import C = Config
  import P = PortTheorems

  // The semantics.

  /** The inbounds that ask for `port`. */
  function Listening(inbounds: seq<Inbound>, port: Port): seq<Inbound> {
    if inbounds == [] then []
    else
      var last := inbounds[|inbounds| - 1];
      Listening(inbounds[..|inbounds| - 1], port) + (if last.port == port then [last] else [])
  }

  /** The inbound that answers on `port`: two on one port cannot both bind, and port 0 is
      whatever port the system picks. */
  function FindInbound(inbounds: seq<Inbound>, port: Port): Option<Inbound> {
    if port != 0 && |Listening(inbounds, port)| == 1 then Some(Listening(inbounds, port)[0]) else None
  }

  function RouteOf(rules: seq<Rule>, final: string, inbound: string): string {
    if rules == [] then final
    else if rules[0].inbound == inbound then rules[0].outbound
    else RouteOf(rules[1..], final, inbound)
  }

  function FindOutbound(outbounds: seq<Outbound>, tag: string): Option<Outbound> {
    if outbounds == [] then None
    else if outbounds[0].tag == tag then Some(outbounds[0])
    else FindOutbound(outbounds[1..], tag)
  }

  /** What the member tags of a pool stand for; `None` if one is unknown. */
  function FindAll(outbounds: seq<Outbound>, tags: seq<string>): Option<seq<Outbound>> {
    if tags == [] then Some([])
    else
      var front, last := FindAll(outbounds, tags[..|tags| - 1]), FindOutbound(outbounds, tags[|tags| - 1]);
      if front.None? || last.None? then None else Some(front.value + [last.value])
  }

  /** The outbounds a connection handed to `tag` can leave through, in the order of the
      pool's members. */
  function Exits(outbounds: seq<Outbound>, tag: string): Option<seq<Outbound>> {
    match FindOutbound(outbounds, tag)
    case None => None
    case Some(Base(t, content)) => Some([Base(t, content)])
    case Some(Group(_, options)) => FindAll(outbounds, options.members)
  }

  /** The outbounds that can serve a connection arriving on `port`. */
  function Served(opts: Options, port: Port): Option<seq<Outbound>> {
    match FindInbound(opts.inbounds, port)
    case None => None
    case Some(inbound) => Exits(opts.outbounds, RouteOf(opts.rules, opts.final, inbound.tag))
  }

  // Lookups.

  lemma {:induction false} ListeningNone(inbounds: seq<Inbound>, port: Port)
    requires forall j :: 0 <= j < |inbounds| ==> inbounds[j].port != port
    ensures Listening(inbounds, port) == []
    decreases |inbounds|
  {
    if inbounds != [] {
      ListeningNone(inbounds[..|inbounds| - 1], port);
    }
  }

  lemma {:induction false} ListeningOne(inbounds: seq<Inbound>, k: nat)
    requires k < |inbounds| && forall j :: 0 <= j < |inbounds| && j != k ==> inbounds[j].port != inbounds[k].port
    ensures Listening(inbounds, inbounds[k].port) == [inbounds[k]]
    decreases |inbounds|
  {
    var n := |inbounds| - 1;
    if k == n {
      ListeningNone(inbounds[..n], inbounds[k].port);
    } else {
      ListeningOne(inbounds[..n], k);
    }
  }

  lemma {:induction false} ListeningMany(inbounds: seq<Inbound>, i: nat, j: nat)
    requires i <= j < |inbounds| && inbounds[i].port == inbounds[j].port
    ensures |Listening(inbounds, inbounds[i].port)| >= if i == j then 1 else 2
    decreases |inbounds|
  {
    var n := |inbounds| - 1;
    if j < n {
      ListeningMany(inbounds[..n], i, j);
    } else if i < j {
      ListeningMany(inbounds[..n], i, i);
    }
  }

  /** An inbound is found on its port exactly when the port is not 0 and no other inbound
      has it. */
  lemma FindInboundIff(inbounds: seq<Inbound>, k: nat)
    requires k < |inbounds|
    ensures var port := inbounds[k].port;
      FindInbound(inbounds, port) ==
      if port != 0 && forall j :: 0 <= j < |inbounds| && j != k ==> inbounds[j].port != port then Some(inbounds[k])
      else None
  {
    if forall j :: 0 <= j < |inbounds| && j != k ==> inbounds[j].port != inbounds[k].port {
      ListeningOne(inbounds, k);
    } else {
      var j :| 0 <= j < |inbounds| && j != k && inbounds[j].port == inbounds[k].port;
      ListeningMany(inbounds, if j < k then j else k, if j < k then k else j);
    }
  }

  lemma {:induction false} RouteAt(rules: seq<Rule>, final: string, k: nat)
    requires k < |rules| && forall j :: 0 <= j < k ==> rules[j].inbound != rules[k].inbound
    ensures RouteOf(rules, final, rules[k].inbound) == rules[k].outbound
    decreases k
  {
    if k > 0 {
      RouteAt(rules[1..], final, k - 1);
    }
  }

  lemma {:induction false} RouteFinal(rules: seq<Rule>, final: string, inbound: string)
    requires forall j :: 0 <= j < |rules| ==> rules[j].inbound != inbound
    ensures RouteOf(rules, final, inbound) == final
    decreases |rules|
  {
    if rules != [] {
      RouteFinal(rules[1..], final, inbound);
    }
  }

  function OutboundTags(outbounds: seq<Outbound>): (r: seq<string>)
    ensures |r| == |outbounds|
  {
    seq(|outbounds|, i requires 0 <= i < |outbounds| => outbounds[i].tag)
  }

  lemma {:induction false} FindOutboundAt(outbounds: seq<Outbound>, k: nat)
    requires k < |outbounds| && forall j :: 0 <= j < k ==> outbounds[j].tag != outbounds[k].tag
    ensures FindOutbound(outbounds, outbounds[k].tag) == Some(outbounds[k])
    decreases k
  {
    if k > 0 {
      FindOutboundAt(outbounds[1..], k - 1);
    }
  }

  lemma {:induction false} FindAllInOrder(outbounds: seq<Outbound>, tags: seq<string>, found: seq<Outbound>)
    requires |tags| == |found|
    requires forall k :: 0 <= k < |tags| ==> FindOutbound(outbounds, tags[k]) == Some(found[k])
    ensures FindAll(outbounds, tags) == Some(found)
    decreases |tags|
  {
    if tags != [] {
      var n := |tags| - 1;
      FindAllInOrder(outbounds, tags[..n], found[..n]);
      assert found[..n] + [found[n]] == found;
    }
  }

  // Names.

  /** No two outbounds of the tree share a tag. */
  ghost predicate NamesClear(tags: seq<string>, mode: C.Mode) {
    && Distinct(tags)
    && (HasPool(mode) ==> POOL_TAG !in tags)
    && (C.PerNodePorts(mode) ==> forall i, j :: 0 <= i < |tags| && 0 <= j < |tags| ==> tags[i] != PoolTagOf(tags[j]))
  }

  lemma PoolTagsDiffer(a: string, b: string)
    ensures PoolTagOf(a) == PoolTagOf(b) <==> a == b
    ensures PoolTagOf(a) != POOL_TAG
  {
    var n := |POOL_TAG| + 1;
    assert PoolTagOf(a)[n..] == a && PoolTagOf(b)[n..] == b;
    assert |PoolTagOf(a)| > |POOL_TAG|;
  }

  lemma InboundTagsDiffer(a: string, b: string)
    ensures InboundTagOf(a) == InboundTagOf(b) <==> a == b
    ensures InboundTagOf(a) != POOL_INBOUND
  {
    assert InboundTagOf(a)[3..] == a && InboundTagOf(b)[3..] == b;
    assert InboundTagOf(a)[0] == 'i' && POOL_INBOUND[0] == 'h';
  }

  /** The tags of the tree, in three stretches. */
  function TreeTags(tags: seq<string>, mode: C.Mode): seq<string> {
    tags + (if HasPool(mode) then [POOL_TAG] else []) +
    (if C.PerNodePorts(mode) then seq(|tags|, i requires 0 <= i < |tags| => PoolTagOf(tags[i])) else [])
  }

  lemma AssembledTags(cfg: BuildConfig, listen: Option<string>, multi: Option<string>, built: seq<Built>)
    ensures OutboundTags(Assembled(cfg, listen, multi, built).outbounds) == TreeTags(TagsOf(built), cfg.mode)
  {
    hide MetadataOf;
  }

  ghost predicate Disjoint(a: seq<string>, b: seq<string>) {
    forall i, j :: 0 <= i < |a| && 0 <= j < |b| ==> a[i] != b[j]
  }

  lemma DistinctConcat(a: seq<string>, b: seq<string>)
    ensures Distinct(a + b) <==> Distinct(a) && Distinct(b) && Disjoint(a, b)
  {
    var c := a + b;
    assert forall i :: 0 <= i < |a| ==> c[i] == a[i];
    assert forall j :: 0 <= j < |b| ==> c[|a| + j] == b[j];
    if Distinct(c) {
      forall i, j | 0 <= i < |a| && 0 <= j < |b|
        ensures a[i] != b[j]
      {
        assert c[i] != c[|a| + j];
      }
      forall i, j | 0 <= i < j < |b|
        ensures b[i] != b[j]
      {
        assert c[|a| + i] != c[|a| + j];
      }
    }
  }

  lemma PoolTagsDistinctIff(tags: seq<string>)
    ensures var pools := seq(|tags|, i requires 0 <= i < |tags| => PoolTagOf(tags[i]));
      Distinct(pools) <==> Distinct(tags)
  {
    hide PoolTagOf;
    var pools := seq(|tags|, i requires 0 <= i < |tags| => PoolTagOf(tags[i]));
    forall i, j | 0 <= i < j < |tags|
      ensures pools[i] == pools[j] <==> tags[i] == tags[j]
    {
      PoolTagsDiffer(tags[i], tags[j]);
    }
  }

  /** The outbounds of the tree have different tags exactly when the names are clear. */
  lemma TreeTagsDistinctIff(tags: seq<string>, mode: C.Mode)
    ensures Distinct(TreeTags(tags, mode)) <==> NamesClear(tags, mode)
  {
    hide PoolTagOf;
    var pools := seq(|tags|, i requires 0 <= i < |tags| => PoolTagOf(tags[i]));
    var middle := if HasPool(mode) then [POOL_TAG] else [];
    var last := if C.PerNodePorts(mode) then pools else [];
    forall i | 0 <= i < |tags|
      ensures pools[i] != POOL_TAG
    {
      PoolTagsDiffer(tags[i], tags[i]);
    }
    PoolTagsDistinctIff(tags);
    DistinctConcat(tags + middle, last);
    DistinctConcat(tags, middle);
    assert HasPool(mode) ==> (Disjoint(tags, middle) <==> POOL_TAG !in tags) by {
      if HasPool(mode) {
        assert middle[0] == POOL_TAG;
      }
    }
    assert Disjoint(tags + middle, last) <==> Disjoint(tags, last) by {
      assert forall i :: 0 <= i < |tags| ==> (tags + middle)[i] == tags[i];
    }
    assert C.PerNodePorts(mode) ==> (Disjoint(tags, last) <==>
      forall i, j :: 0 <= i < |tags| && 0 <= j < |tags| ==> tags[i] != PoolTagOf(tags[j])) by {
      assert forall j :: 0 <= j < |tags| ==> pools[j] == PoolTagOf(tags[j]);
    }
  }

  lemma OutboundTagsDistinctIff(cfg: BuildConfig, listen: Option<string>, multi: Option<string>, built: seq<Built>)
    ensures Distinct(OutboundTags(Assembled(cfg, listen, multi, built).outbounds))
       <==> NamesClear(TagsOf(built), cfg.mode)
  {
    AssembledTags(cfg, listen, multi, built);
    TreeTagsDistinctIff(TagsOf(built), cfg.mode);
  }

  lemma {:induction false} MetadataAt(cfg: BuildConfig, built: seq<Built>, k: nat)
    requires Distinct(TagsOf(built)) && k < |built|
    ensures built[k].tag in MetadataOf(cfg, built)
    ensures MetadataOf(cfg, built)[built[k].tag] == MetaOf(cfg, built[k].node)
    decreases |built|
  {
    var n := |built| - 1;
    if k < n {
      assert forall i :: 0 <= i < |built| ==> TagsOf(built)[i] == built[i].tag;
      assert TagsOf(built[..n]) == TagsOf(built)[..n];
      MetadataAt(cfg, built[..n], k);
    }
  }

  // The tree, part by part.

  function PortsBuilt(built: seq<Built>): (r: seq<Port>)
    ensures |r| == |built|
  {
    seq(|built|, i requires 0 <= i < |built| => built[i].node.port)
  }

  /** How many inbounds come before those of the nodes. */
  function Offset(mode: C.Mode): nat {
    if HasPool(mode) then 1 else 0
  }

  lemma PoolParts(cfg: BuildConfig, listen: Option<string>, multi: Option<string>, built: seq<Built>)
    requires HasPool(cfg.mode)
    ensures var t := Assembled(cfg, listen, multi, built);
      && t.inbounds != [] && t.inbounds[0].tag == POOL_INBOUND && t.inbounds[0].port == cfg.listenerPort
      && |built| < |t.outbounds|
      && t.outbounds[|built|].Group? && t.outbounds[|built|].tag == POOL_TAG
      && t.outbounds[|built|].options.members == TagsOf(built)
      && t.final == POOL_TAG
  {
    hide MetadataOf;
  }

  lemma BaseParts(cfg: BuildConfig, listen: Option<string>, multi: Option<string>, built: seq<Built>, k: nat)
    requires k < |built|
    ensures var t := Assembled(cfg, listen, multi, built);
      |t.outbounds| >= |built| && t.outbounds[k] == Bases(built)[k] && t.outbounds[k].tag == built[k].tag
  {
    hide MetadataOf;
  }

  lemma NodeParts(cfg: BuildConfig, listen: Option<string>, multi: Option<string>, built: seq<Built>, k: nat)
    requires C.PerNodePorts(cfg.mode) && Distinct(TagsOf(built)) && k < |built|
    ensures var t := Assembled(cfg, listen, multi, built);
      var tag, m := built[k].tag, Offset(cfg.mode);
      && |t.inbounds| == m + |built| && |t.rules| == |built| && |t.outbounds| == |built| + m + |built|
      && t.inbounds[m + k].tag == InboundTagOf(tag) && t.inbounds[m + k].port == built[k].node.port
      && t.rules[k] == Rule(InboundTagOf(tag), PoolTagOf(tag))
      && t.outbounds[|built| + m + k].Group? && t.outbounds[|built| + m + k].tag == PoolTagOf(tag)
      && t.outbounds[|built| + m + k].options.members == [tag]
  {
    hide MetadataOf;
    MetadataHasTags(cfg, built);
    MetadataAt(cfg, built, k);
    assert TagsOf(built)[k] == built[k].tag;
  }

  lemma InboundCount(cfg: BuildConfig, listen: Option<string>, multi: Option<string>, built: seq<Built>)
    ensures var t := Assembled(cfg, listen, multi, built);
      && |t.inbounds| == Offset(cfg.mode) + (if C.PerNodePorts(cfg.mode) then |built| else 0)
      && |t.rules| == (if C.PerNodePorts(cfg.mode) then |built| else 0)
  {
    hide MetadataOf;
  }

  /** In a tree with clear names a tag finds its own outbound. */
  lemma TagFindsItself(cfg: BuildConfig, listen: Option<string>, multi: Option<string>, built: seq<Built>, j: nat)
    requires NamesClear(TagsOf(built), cfg.mode)
    requires j < |Assembled(cfg, listen, multi, built).outbounds|
    ensures var outbounds := Assembled(cfg, listen, multi, built).outbounds;
      FindOutbound(outbounds, outbounds[j].tag) == Some(outbounds[j])
  {
    hide NamesClear;
    OutboundTagsDistinctIff(cfg, listen, multi, built);
    var outbounds := Assembled(cfg, listen, multi, built).outbounds;
    forall i | 0 <= i < j
      ensures outbounds[i].tag != outbounds[j].tag
    {
      assert OutboundTags(outbounds)[i] != OutboundTags(outbounds)[j];
    }
    FindOutboundAt(outbounds, j);
  }

  lemma NodePoolExits(cfg: BuildConfig, listen: Option<string>, multi: Option<string>, built: seq<Built>, k: nat)
    requires C.PerNodePorts(cfg.mode) && NamesClear(TagsOf(built), cfg.mode) && k < |built|
    ensures Exits(Assembled(cfg, listen, multi, built).outbounds, PoolTagOf(built[k].tag)) == Some([Bases(built)[k]])
  {
    hide Assembled, FindOutbound;
    NodeParts(cfg, listen, multi, built, k);
    BaseParts(cfg, listen, multi, built, k);
    TagFindsItself(cfg, listen, multi, built, k);
    TagFindsItself(cfg, listen, multi, built, |built| + Offset(cfg.mode) + k);
    FindAllInOrder(Assembled(cfg, listen, multi, built).outbounds, [built[k].tag], [Bases(built)[k]]);
  }

  lemma PoolExits(cfg: BuildConfig, listen: Option<string>, multi: Option<string>, built: seq<Built>)
    requires HasPool(cfg.mode) && NamesClear(TagsOf(built), cfg.mode)
    ensures Exits(Assembled(cfg, listen, multi, built).outbounds, POOL_TAG) == Some(Bases(built))
  {
    hide Assembled, FindOutbound;
    PoolParts(cfg, listen, multi, built);
    TagFindsItself(cfg, listen, multi, built, |built|);
    forall k | 0 <= k < |built|
      ensures FindOutbound(Assembled(cfg, listen, multi, built).outbounds, TagsOf(built)[k]) == Some(Bases(built)[k])
    {
      BaseParts(cfg, listen, multi, built, k);
      TagFindsItself(cfg, listen, multi, built, k);
    }
    FindAllInOrder(Assembled(cfg, listen, multi, built).outbounds, TagsOf(built), Bases(built));
  }

  lemma NodeRouteOf(cfg: BuildConfig, listen: Option<string>, multi: Option<string>, built: seq<Built>, k: nat)
    requires C.PerNodePorts(cfg.mode) && Distinct(TagsOf(built)) && k < |built|
    ensures var t := Assembled(cfg, listen, multi, built);
      RouteOf(t.rules, t.final, InboundTagOf(built[k].tag)) == PoolTagOf(built[k].tag)
  {
    hide Assembled;
    var t := Assembled(cfg, listen, multi, built);
    NodeParts(cfg, listen, multi, built, k);
    forall j | 0 <= j < k
      ensures t.rules[j].inbound != t.rules[k].inbound
    {
      NodeParts(cfg, listen, multi, built, j);
      InboundTagsDiffer(built[j].tag, built[k].tag);
      assert TagsOf(built)[j] != TagsOf(built)[k];
    }
    RouteAt(t.rules, t.final, k);
  }

  /** No rule speaks of the pool's inbound, so it falls through to the final outbound. */
  lemma PoolRouteOf(cfg: BuildConfig, listen: Option<string>, multi: Option<string>, built: seq<Built>)
    requires HasPool(cfg.mode) && Distinct(TagsOf(built))
    ensures var t := Assembled(cfg, listen, multi, built);
      && (forall j :: 0 <= j < |t.rules| ==> t.rules[j].inbound != POOL_INBOUND)
      && RouteOf(t.rules, t.final, POOL_INBOUND) == POOL_TAG
  {
    hide Assembled;
    var t := Assembled(cfg, listen, multi, built);
    PoolParts(cfg, listen, multi, built);
    InboundCount(cfg, listen, multi, built);
    forall j | 0 <= j < |t.rules|
      ensures t.rules[j].inbound != POOL_INBOUND
    {
      NodeParts(cfg, listen, multi, built, j);
      InboundTagsDiffer(built[j].tag, built[j].tag);
    }
    RouteFinal(t.rules, t.final, POOL_INBOUND);
  }

  // Meaning.

  lemma TreePorts(cfg: BuildConfig, listen: Option<string>, multi: Option<string>, built: seq<Built>)
    requires Distinct(TagsOf(built))
    ensures var t, m := Assembled(cfg, listen, multi, built), Offset(cfg.mode);
      forall i :: 0 <= i < |t.inbounds| ==>
        (if i < m then t.inbounds[i].port == cfg.listenerPort
         else C.PerNodePorts(cfg.mode) && i - m < |built| && t.inbounds[i].port == built[i - m].node.port)
  {
    hide Assembled;
    var t, m := Assembled(cfg, listen, multi, built), Offset(cfg.mode);
    InboundCount(cfg, listen, multi, built);
    forall i | 0 <= i < |t.inbounds|
      ensures if i < m then t.inbounds[i].port == cfg.listenerPort
              else C.PerNodePorts(cfg.mode) && i - m < |built| && t.inbounds[i].port == built[i - m].node.port
    {
      if i < m {
        PoolParts(cfg, listen, multi, built);
      } else {
        NodeParts(cfg, listen, multi, built, i - m);
      }
    }
  }

  /** The listener can bind: its port is a real one that no node has. */
  ghost predicate ListenerBinds(cfg: BuildConfig, built: seq<Built>) {
    cfg.listenerPort != 0 && (C.PerNodePorts(cfg.mode) ==> cfg.listenerPort !in PortsBuilt(built))
  }

  /** In pool and hybrid mode the listener, if it can bind, reaches exactly the nodes that
      were built, in order. */
  lemma ListenerServesAll(cfg: BuildConfig, listen: Option<string>, multi: Option<string>, built: seq<Built>)
    requires HasPool(cfg.mode) && NamesClear(TagsOf(built), cfg.mode)
    ensures Served(Assembled(cfg, listen, multi, built), cfg.listenerPort)
         == if ListenerBinds(cfg, built) then Some(Bases(built)) else None
  {
    hide Assembled, Exits, RouteOf, FindInbound;
    var t := Assembled(cfg, listen, multi, built);
    PoolParts(cfg, listen, multi, built);
    TreePorts(cfg, listen, multi, built);
    InboundCount(cfg, listen, multi, built);
    FindInboundIff(t.inbounds, 0);
    if C.PerNodePorts(cfg.mode) && cfg.listenerPort in PortsBuilt(built) {
      var k :| 0 <= k < |built| && PortsBuilt(built)[k] == cfg.listenerPort;
      assert t.inbounds[Offset(cfg.mode) + k].port == cfg.listenerPort;
    } else {
      forall j | 0 < j < |t.inbounds|
        ensures t.inbounds[j].port != cfg.listenerPort
      {
        assert PortsBuilt(built)[j - 1] in PortsBuilt(built);
      }
    }
    PoolRouteOf(cfg, listen, multi, built);
    PoolExits(cfg, listen, multi, built);
  }

  /** The port of node `k` is a real one that no other inbound has. */
  ghost predicate PortIsOwn(cfg: BuildConfig, built: seq<Built>, k: nat)
    requires k < |built|
  {
    && built[k].node.port != 0
    && (cfg.mode.Hybrid? ==> built[k].node.port != cfg.listenerPort)
    && forall j :: 0 <= j < |built| && j != k ==> built[j].node.port != built[k].node.port
  }

  /** In multi-port and hybrid mode the port of a node, if it is its own, reaches exactly the
      outbound built from it, and otherwise nothing. */
  lemma NodePortServesNode(cfg: BuildConfig, listen: Option<string>, multi: Option<string>, built: seq<Built>, k: nat)
    requires C.PerNodePorts(cfg.mode) && NamesClear(TagsOf(built), cfg.mode) && k < |built|
    ensures Served(Assembled(cfg, listen, multi, built), built[k].node.port)
         == if PortIsOwn(cfg, built, k) then Some([Bases(built)[k]]) else None
  {
    hide Assembled, Exits, RouteOf, FindInbound;
    var t, m := Assembled(cfg, listen, multi, built), Offset(cfg.mode);
    NodeParts(cfg, listen, multi, built, k);
    TreePorts(cfg, listen, multi, built);
    FindInboundIff(t.inbounds, m + k);
    if cfg.mode.Hybrid? && built[k].node.port == cfg.listenerPort {
      assert t.inbounds[0].port == built[k].node.port;
    }
    if j :| 0 <= j < |built| && j != k && built[j].node.port == built[k].node.port {
      assert t.inbounds[m + j].port == built[k].node.port;
    }
    NodeRouteOf(cfg, listen, multi, built, k);
    NodePoolExits(cfg, listen, multi, built, k);
  }

  /** A port that belongs to nobody serves nothing. */
  lemma OtherPortsServeNothing(cfg: BuildConfig, listen: Option<string>, multi: Option<string>, built: seq<Built>,
                               port: Port)
    requires Distinct(TagsOf(built))
    requires HasPool(cfg.mode) ==> port != cfg.listenerPort
    requires C.PerNodePorts(cfg.mode) ==> port !in PortsBuilt(built)
    ensures Served(Assembled(cfg, listen, multi, built), port) == None
  {
    hide Assembled;
    var t, m := Assembled(cfg, listen, multi, built), Offset(cfg.mode);
    TreePorts(cfg, listen, multi, built);
    forall i | 0 <= i < |t.inbounds|
      ensures t.inbounds[i].port != port
    {
      var inbound := t.inbounds[i];
      if i >= m {
        assert PortsBuilt(built)[i - m] == inbound.port;
      }
    }
    ListeningNone(t.inbounds, port);
  }

  lemma OwnPort(cfg: BuildConfig, built: seq<Built>, k: nat)
    requires k < |built| && Distinct(PortsBuilt(built))
    requires cfg.mode.Hybrid? ==> cfg.listenerPort !in PortsBuilt(built)
    ensures PortIsOwn(cfg, built, k) <==> built[k].node.port != 0
  {
    var ports := PortsBuilt(built);
    assert ports[k] in ports;
    forall j | 0 <= j < |built| && j != k
      ensures built[j].node.port != built[k].node.port
    {
      assert if j < k then ports[j] != ports[k] else ports[k] != ports[j];
    }
  }

  lemma PortsOwnIff(cfg: BuildConfig, built: seq<Built>)
    ensures (forall k :: 0 <= k < |built| ==> PortIsOwn(cfg, built, k)) <==>
      && Distinct(PortsBuilt(built)) && 0 !in PortsBuilt(built)
      && (cfg.mode.Hybrid? ==> cfg.listenerPort !in PortsBuilt(built))
  {
    var ports := PortsBuilt(built);
    assert forall k :: 0 <= k < |built| ==> ports[k] == built[k].node.port && ports[k] in ports;
    if forall k :: 0 <= k < |built| ==> PortIsOwn(cfg, built, k) {
      forall i, j | 0 <= i < j < |built|
        ensures ports[i] != ports[j]
      {
        assert PortIsOwn(cfg, built, i);
      }
      forall p | p in ports
        ensures p != 0 && (cfg.mode.Hybrid? ==> p != cfg.listenerPort)
      {
        var k :| 0 <= k < |built| && ports[k] == p;
        assert PortIsOwn(cfg, built, k);
      }
    }
    if Distinct(ports) && 0 !in ports && (cfg.mode.Hybrid? ==> cfg.listenerPort !in ports) {
      forall k | 0 <= k < |built|
        ensures PortIsOwn(cfg, built, k)
      {
        OwnPort(cfg, built, k);
      }
    }
  }

  /** Every node is served on its own port exactly when the ports differ, none is 0 and, in
      hybrid mode, none is the listener's. */
  lemma EveryNodeServedIff(cfg: BuildConfig, listen: Option<string>, multi: Option<string>, built: seq<Built>)
    requires C.PerNodePorts(cfg.mode) && NamesClear(TagsOf(built), cfg.mode)
    ensures
      (forall k :: 0 <= k < |built| ==>
         Served(Assembled(cfg, listen, multi, built), built[k].node.port) == Some([Bases(built)[k]]))
      <==>
      && Distinct(PortsBuilt(built)) && 0 !in PortsBuilt(built)
      && (cfg.mode.Hybrid? ==> cfg.listenerPort !in PortsBuilt(built))
  {
    hide Assembled, Served, NamesClear, PortIsOwn;
    forall k | 0 <= k < |built|
      ensures Served(Assembled(cfg, listen, multi, built), built[k].node.port) == Some([Bases(built)[k]])
        <==> PortIsOwn(cfg, built, k)
    {
      NodePortServesNode(cfg, listen, multi, built, k);
    }
    PortsOwnIff(cfg, built);
  }

  // From the configured nodes to the tree.

  lemma TagAtStays(bases: seq<string>, last: string, i: nat)
    requires i < |bases|
    ensures TagAt(bases + [last], i) == TagAt(bases, i)
  {
    assert (bases + [last])[..i] == bases[..i];
  }

  /** Entry `k` of the outcome is the node at its position, compiled under that position's
      tag. */
  ghost predicate ComesFrom(p: Progress, nodes: seq<NodeConfig>, compile: string -> Option<Content>, k: nat)
    requires k < |p.picked| == |p.built| && |p.bases| == |nodes|
  {
    && p.picked[k] < |nodes| && p.built[k].node == nodes[p.picked[k]]
    && compile(p.built[k].node.uri) == Some(p.built[k].content)
    && p.built[k].tag == TagAt(p.bases, p.picked[k])
  }

  /** One more node leaves the earlier entries where they were. */
  lemma ComesFromStays(nodes: seq<NodeConfig>, compile: string -> Option<Content>, k: nat)
    requires nodes != [] && k < |Compiled(nodes[..|nodes| - 1], compile).picked|
    requires ComesFrom(Compiled(nodes[..|nodes| - 1], compile), nodes[..|nodes| - 1], compile, k)
    ensures k < |Compiled(nodes, compile).picked| && ComesFrom(Compiled(nodes, compile), nodes, compile, k)
  {
    hide TagAt, BaseTag, Compiled;
    var n := |nodes| - 1;
    var before := Compiled(nodes[..n], compile);
    CompiledNext(nodes, n, compile);
    assert nodes[..n + 1] == nodes;
    TagAtStays(before.bases, BaseTag(nodes[n].name, |before.built|), before.picked[k]);
  }

  lemma LastComesFrom(nodes: seq<NodeConfig>, compile: string -> Option<Content>)
    requires nodes != [] && compile(nodes[|nodes| - 1].uri).Some?
    ensures var p := Compiled(nodes, compile);
      p.picked != [] && ComesFrom(p, nodes, compile, |p.picked| - 1)
  {
    hide TagAt, BaseTag;
  }

  /** What was built comes from positions of its own. */
  lemma {:induction false} BuiltComesFrom(nodes: seq<NodeConfig>, compile: string -> Option<Content>, k: nat)
    requires k < |Compiled(nodes, compile).picked|
    ensures ComesFrom(Compiled(nodes, compile), nodes, compile, k)
    decreases |nodes|
  {
    hide TagAt, BaseTag, ComesFrom;
    var n := |nodes| - 1;
    if k < |Compiled(nodes[..n], compile).picked| {
      BuiltComesFrom(nodes[..n], compile, k);
      ComesFromStays(nodes, compile, k);
    } else {
      LastComesFrom(nodes, compile);
    }
  }

  /** Positions increase, and no node whose URI translates is left out. */
  lemma {:induction false} PickedAreAll(nodes: seq<NodeConfig>, compile: string -> Option<Content>)
    ensures var picked := Compiled(nodes, compile).picked;
      && (forall k :: 0 <= k < |picked| ==> picked[k] < |nodes|)
      && (forall a, b :: 0 <= a < b < |picked| ==> picked[a] < picked[b])
      && (forall i: nat :: i < |nodes| && compile(nodes[i].uri).Some? ==> i in picked)
    decreases |nodes|
  {
    hide TagAt, BaseTag;
    if nodes != [] {
      PickedAreAll(nodes[..|nodes| - 1], compile);
    }
  }

  /** What was built is exactly the nodes whose URI translates, in order, under the tags of
      their positions. */
  lemma CompiledPositions(nodes: seq<NodeConfig>, compile: string -> Option<Content>)
    ensures var p := Compiled(nodes, compile);
      && (forall k :: 0 <= k < |p.picked| ==>
            && p.picked[k] < |nodes| && p.built[k].node == nodes[p.picked[k]]
            && compile(p.built[k].node.uri) == Some(p.built[k].content)
            && p.built[k].tag == TagAt(p.bases, p.picked[k]))
      && (forall a, b :: 0 <= a < b < |p.picked| ==> p.picked[a] < p.picked[b])
      && (forall i: nat :: i < |nodes| && compile(nodes[i].uri).Some? ==> i in p.picked)
  {
    hide Compiled, TagAt;
    var p := Compiled(nodes, compile);
    PickedAreAll(nodes, compile);
    forall k | 0 <= k < |p.picked|
      ensures p.picked[k] < |nodes| && p.built[k].node == nodes[p.picked[k]]
      ensures compile(p.built[k].node.uri) == Some(p.built[k].content)
      ensures p.built[k].tag == TagAt(p.bases, p.picked[k])
    {
      BuiltComesFrom(nodes, compile, k);
    }
  }

  /** Tags of built nodes differ whenever no base tag is another with a counter in use. */
  lemma BuiltTagsDistinct(nodes: seq<NodeConfig>, compile: string -> Option<Content>)
    requires !BasesClash(Compiled(nodes, compile).bases)
    ensures Distinct(TagsOf(Compiled(nodes, compile).built))
  {
    hide TagAt, BasesClash, Compiled;
    var p := Compiled(nodes, compile);
    CompiledPositions(nodes, compile);
    TagsDistinctIff(p.bases);
    forall a, b | 0 <= a < b < |p.built|
      ensures TagsOf(p.built)[a] != TagsOf(p.built)[b]
    {
      assert AllTags(p.bases)[p.picked[a]] != AllTags(p.bases)[p.picked[b]];
    }
  }

  /** A base tag that leaves the pools' own tags alone. */
  predicate IsUnreserved(base: string) {
    base != POOL_TAG && !HasPrefix(base, POOL_TAG + "-")
  }

  lemma SuffixedIsNotPool(base: string, k: nat)
    ensures Suffixed(base, k) != POOL_TAG
  {
    AtoiItoa(k);
    var tag := Suffixed(base, k);
    var last := Itoa(k)[|Itoa(k)| - 1];
    assert last in Itoa(k) && tag[|tag| - 1] == last;
    assert POOL_TAG[|POOL_TAG| - 1] == 'l';
  }

  /** A reserved tag comes from a reserved base. */
  lemma ReservedTagHasReservedBase(bases: seq<string>, i: nat)
    requires i < |bases| && !IsUnreserved(TagAt(bases, i))
    ensures !IsUnreserved(bases[i])
  {
    var base, k := bases[i], CountOf(bases[..i], bases[i]) + 1;
    if k > 1 {
      var tag, reserved := Suffixed(base, k), POOL_TAG + "-";
      LastDash(base, k);
      SuffixedIsNotPool(base, k);
      assert reserved[|POOL_TAG|] == '-' && tag[|POOL_TAG|] == reserved[|POOL_TAG|];
      assert |base| >= |POOL_TAG| && tag[..|base|] == base;
      if |base| == |POOL_TAG| {
        assert base == reserved[..|POOL_TAG|] == POOL_TAG;
      } else {
        assert base[..|reserved|] == tag[..|reserved|] == reserved;
      }
    }
  }

  lemma UnreservedIsClear(tags: seq<string>)
    requires forall k :: 0 <= k < |tags| ==> IsUnreserved(tags[k])
    ensures POOL_TAG !in tags
    ensures forall i, j :: 0 <= i < |tags| && 0 <= j < |tags| ==> tags[i] != PoolTagOf(tags[j])
  {
    forall i, j | 0 <= i < |tags| && 0 <= j < |tags|
      ensures tags[i] != PoolTagOf(tags[j])
    {
      assert HasPrefix(PoolTagOf(tags[j]), POOL_TAG + "-");
    }
  }

  /** From node names to clear names: it is enough that no base tag is another with a counter
      in use, and none is reserved. */
  lemma NamesClearFromBases(nodes: seq<NodeConfig>, compile: string -> Option<Content>, mode: C.Mode)
    requires var bases := Compiled(nodes, compile).bases;
      !BasesClash(bases) && forall i :: 0 <= i < |bases| ==> IsUnreserved(bases[i])
    ensures NamesClear(TagsOf(Compiled(nodes, compile).built), mode)
  {
    hide TagAt, BasesClash, Compiled, IsUnreserved, CountOf;
    var p := Compiled(nodes, compile);
    BuiltTagsDistinct(nodes, compile);
    CompiledPositions(nodes, compile);
    var tags := TagsOf(p.built);
    forall k | 0 <= k < |tags|
      ensures IsUnreserved(tags[k])
    {
      if !IsUnreserved(tags[k]) {
        ReservedTagHasReservedBase(p.bases, p.picked[k]);
      }
    }
    UnreservedIsClear(tags);
  }

  /** The base tags are the slugs of the names, where these are not empty. */
  lemma {:induction false} BasesAreSlugs(nodes: seq<NodeConfig>, compile: string -> Option<Content>, i: nat)
    requires i < |nodes|
    ensures var base := Compiled(nodes, compile).bases[i];
      if SanitizeTag(nodes[i].name) != "" then base == SanitizeTag(nodes[i].name)
      else base == "node-" + Itoa(|Compiled(nodes[..i], compile).built| + 1) && IsUnreserved(base)
    decreases |nodes|
  {
    hide SanitizeTag, TagAt;
    var n := |nodes| - 1;
    if i < n {
      assert nodes[..n][..i] == nodes[..i];
      BasesAreSlugs(nodes[..n], compile, i);
    } else {
      var base := Compiled(nodes, compile).bases[i];
      if SanitizeTag(nodes[i].name) == "" {
        assert base[0] == 'n' && POOL_TAG[0] == 'p' && (POOL_TAG + "-")[0] == 'p';
      }
    }
  }

  function Slugs(nodes: seq<NodeConfig>): (r: seq<string>)
    ensures |r| == |nodes|
  {
    seq(|nodes|, i requires 0 <= i < |nodes| => SanitizeTag(nodes[i].name))
  }

  /** For named nodes the condition is on the slugs alone. */
  lemma NamesClearFromNames(nodes: seq<NodeConfig>, compile: string -> Option<Content>, mode: C.Mode)
    requires forall i :: 0 <= i < |nodes| ==>
      SanitizeTag(nodes[i].name) != "" && IsUnreserved(SanitizeTag(nodes[i].name))
    requires !BasesClash(Slugs(nodes))
    ensures NamesClear(TagsOf(Compiled(nodes, compile).built), mode)
  {
    hide SanitizeTag, IsUnreserved, BasesClash, Compiled, NamesClear;
    var bases := Compiled(nodes, compile).bases;
    forall i | 0 <= i < |nodes|
      ensures bases[i] == Slugs(nodes)[i]
    {
      BasesAreSlugs(nodes, compile, i);
    }
    assert bases == Slugs(nodes);
    NamesClearFromBases(nodes, compile, mode);
  }

  /** The nodes that a build turned into outbounds. */
  ghost function BuiltFrom(cfg: BuildConfig, o: Outside): seq<Built> {
    Compiled(Enabled(cfg.nodes, cfg.filter, o.oracle), o.compile).built
  }

  lemma PickedPositions(selected: seq<NodeConfig>, compile: string -> Option<Content>,
                        from: seq<nat>) returns (at: seq<nat>)
    requires |from| == |selected| && forall a, b :: 0 <= a < b < |from| ==> from[a] < from[b]
    ensures var p := Compiled(selected, compile);
      && |at| == |p.picked|
      && (forall k :: 0 <= k < |at| ==>
            p.picked[k] < |from| && at[k] == from[p.picked[k]] && p.built[k].node == selected[p.picked[k]])
      && (forall a, b :: 0 <= a < b < |at| ==> at[a] < at[b])
  {
    hide TagAt;
    CompiledPositions(selected, compile);
    var picked := Compiled(selected, compile).picked;
    at := seq(|picked|, k requires 0 <= k < |picked| && picked[k] < |from| => from[picked[k]]);
  }

  /** Each built node sits at a configured node of its own. */
  lemma BuiltPositions(cfg: BuildConfig, o: Outside) returns (at: seq<nat>)
    ensures var built := BuiltFrom(cfg, o);
      && |at| == |built|
      && (forall k :: 0 <= k < |at| ==> at[k] < |cfg.nodes| && built[k].node == cfg.nodes[at[k]])
      && (forall a, b :: 0 <= a < b < |at| ==> at[a] < at[b])
  {
    var from := EnabledPositions(cfg.nodes, cfg.filter, o.oracle);
    at := PickedPositions(Enabled(cfg.nodes, cfg.filter, o.oracle), o.compile, from);
  }

  lemma BuiltPortsComeFromNodes(cfg: BuildConfig, o: Outside)
    ensures forall p :: p in PortsBuilt(BuiltFrom(cfg, o)) ==> p in PortsOf(cfg.nodes)
  {
    hide BuiltFrom;
    var built := BuiltFrom(cfg, o);
    var at := BuiltPositions(cfg, o);
    forall p | p in PortsBuilt(built)
      ensures p in PortsOf(cfg.nodes)
    {
      var k :| 0 <= k < |built| && PortsBuilt(built)[k] == p;
      assert PortsOf(cfg.nodes)[at[k]] == p;
    }
  }

  lemma BuiltPortsDistinct(cfg: BuildConfig, o: Outside)
    requires Distinct(PortsOf(cfg.nodes))
    ensures Distinct(PortsBuilt(BuiltFrom(cfg, o)))
  {
    hide BuiltFrom;
    var built := BuiltFrom(cfg, o);
    var at := BuiltPositions(cfg, o);
    forall a, b | 0 <= a < b < |built|
      ensures PortsBuilt(built)[a] != PortsBuilt(built)[b]
    {
      assert PortsOf(cfg.nodes)[at[a]] != PortsOf(cfg.nodes)[at[b]];
    }
  }

  /** The whole compiler: with clear names, different ports and, in hybrid mode, no node on
      the listener's port, a connection to the port of any enabled node whose URI translates
      leaves through exactly the outbound of that URI; a node left on port 0 has no port to
      connect to. */
  lemma BuildPreservesMeaning(cfg: BuildConfig, o: Outside, n: NodeConfig) returns (tag: string)
    requires Building(cfg, o).Ok? && C.PerNodePorts(cfg.mode)
    requires NamesClear(TagsOf(BuiltFrom(cfg, o)), cfg.mode)
    requires Distinct(PortsOf(cfg.nodes)) && (cfg.mode.Hybrid? ==> cfg.listenerPort !in PortsOf(cfg.nodes))
    requires n in Enabled(cfg.nodes, cfg.filter, o.oracle) && o.compile(n.uri).Some?
    ensures tag in TagsOf(BuiltFrom(cfg, o))
    ensures Served(Building(cfg, o).value, n.port)
         == if n.port != 0 then Some([Base(tag, o.compile(n.uri).value)]) else None
  {
    hide Served, Assembled, Enabled, Compiled, NamesClear;
    var selected := Enabled(cfg.nodes, cfg.filter, o.oracle);
    var p := Compiled(selected, o.compile);
    CompiledPositions(selected, o.compile);
    var i :| 0 <= i < |selected| && selected[i] == n;
    var k :| 0 <= k < |p.picked| && p.picked[k] == i;
    BuiltPortsDistinct(cfg, o);
    BuiltPortsComeFromNodes(cfg, o);
    tag := p.built[k].tag;
    assert TagsOf(p.built)[k] == tag;
    assert n.port == PortsBuilt(p.built)[k] && n.port in PortsBuilt(p.built);
    OwnPort(cfg, p.built, k);
    NodePortServesNode(cfg,
                       if HasPool(cfg.mode) then ParseAddr(cfg.listener.address, o.parseIP).value else None,
                       ParseAddr(cfg.multiPort.address, o.parseIP).value, p.built, k);
  }

  /** In pool and hybrid mode the listener, on a real port that no node has, reaches the
      outbound of every enabled node whose URI translates, and nothing else, in the order of
      the configuration. */
  lemma PoolReachesEveryNode(cfg: BuildConfig, o: Outside)
    requires Building(cfg, o).Ok? && HasPool(cfg.mode)
    requires NamesClear(TagsOf(BuiltFrom(cfg, o)), cfg.mode)
    requires cfg.listenerPort != 0 && (cfg.mode.Hybrid? ==> cfg.listenerPort !in PortsOf(cfg.nodes))
    ensures var selected := Enabled(cfg.nodes, cfg.filter, o.oracle);
      var p := Compiled(selected, o.compile);
      var served := Served(Building(cfg, o).value, cfg.listenerPort);
      && served.Some? && |served.value| == |p.picked|
      && (forall k :: 0 <= k < |p.picked| ==>
            && p.picked[k] < |selected|
            && served.value[k].Base? && Some(served.value[k].content) == o.compile(selected[p.picked[k]].uri))
      && (forall a, b :: 0 <= a < b < |p.picked| ==> p.picked[a] < p.picked[b])
      && (forall i: nat :: i < |selected| && o.compile(selected[i].uri).Some? ==> i in p.picked)
  {
    hide Served, Assembled, Enabled, Compiled, NamesClear;
    var selected := Enabled(cfg.nodes, cfg.filter, o.oracle);
    CompiledPositions(selected, o.compile);
    BuiltPortsComeFromNodes(cfg, o);
    ListenerServesAll(cfg, ParseAddr(cfg.listener.address, o.parseIP).value,
                      if C.PerNodePorts(cfg.mode) then ParseAddr(cfg.multiPort.address, o.parseIP).value else None,
                      BuiltFrom(cfg, o));
  }

  /** Across a reload: a URI keeps its entry point.  If the configuration's nodes are what
      port assignment makes of `nodes` under a usable port map, the port the map has for a
      URI still leads to exactly the outbound of that URI. */
  lemma KnownUriKeepsItsEntryPoint(s: C.Settings, nodes: seq<NodeConfig>, portMap: C.PortMap, bindable: set<Port>,
                                   fragmentName: string -> string, cfg: BuildConfig, o: Outside, i: nat)
    returns (tag: string)
    requires C.PerNodePorts(s.mode) && s.basePort > 0 && s.listenerPort > 0
    requires P.GoodPortMap(s, nodes, portMap)
    requires forall i :: 0 <= i < |nodes| && C.MappedPort(portMap, TrimSpace(nodes[i].uri)) == 0 ==> nodes[i].port == 0
    requires C.EnoughPorts(s, nodes, portMap, bindable, fragmentName)
    requires cfg.nodes == C.Normalized(s, nodes, portMap, bindable, fragmentName)
    requires cfg.mode == s.mode && cfg.listenerPort == s.listenerPort
    requires Building(cfg, o).Ok? && NamesClear(TagsOf(BuiltFrom(cfg, o)), cfg.mode)
    requires i < |cfg.nodes| == |nodes| && cfg.nodes[i] in Enabled(cfg.nodes, cfg.filter, o.oracle)
    requires C.MappedPort(portMap, TrimSpace(nodes[i].uri)) > 0 && o.compile(TrimSpace(nodes[i].uri)).Some?
    ensures Served(Building(cfg, o).value, C.MappedPort(portMap, TrimSpace(nodes[i].uri)))
         == Some([Base(tag, o.compile(TrimSpace(nodes[i].uri)).value)])
  {
    hide Served, Building, Enabled, NamesClear, BuiltFrom;
    hide C.Normalized, C.EnoughPorts, C.MappedPort, TrimSpace, P.GoodPortMap;
    P.ReloadAllocatesSafely(s, nodes, portMap, bindable, fragmentName);
    P.MappedPortsAreKept(s, nodes, portMap, bindable, fragmentName, i);
    P.NormalizedPortAt(s, nodes, portMap, bindable, fragmentName, i);
    tag := BuildPreservesMeaning(cfg, o, cfg.nodes[i]);
  }
}
