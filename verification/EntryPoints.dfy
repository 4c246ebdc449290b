/** Who may use the entry points of a compiled tree, where they listen, and how the pools
    behind them are set up, in terms of the configuration alone. */
module EntryPoints {
  import opened Types
  import opened Text
  import opened NodeFilter
  import opened Builder
  import opened Routing
  import C = Config

  lemma {:induction false} ListeningFrom(inbounds: seq<Inbound>, port: Port) returns (k: nat)
    requires FindInbound(inbounds, port).Some?
    ensures k < |inbounds| && FindInbound(inbounds, port) == Some(inbounds[k]) && inbounds[k].port == port
  {
    if forall j :: 0 <= j < |inbounds| ==> inbounds[j].port != port {
      ListeningNone(inbounds, port);
    }
    k :| 0 <= k < |inbounds| && inbounds[k].port == port;
    FindInboundIff(inbounds, k);
  }

  /** The inbound that answers on any port of a tree that was built.  On the listener's port,
      in pool and hybrid mode, it listens on the parsed address of the listener section and
      asks for exactly that section's credentials; on any other port the same holds for the
      multi-port section.  A section with an empty username lets anyone in. */
  lemma AccessIsConfigured(cfg: BuildConfig, o: Outside, port: Port)
    requires Building(cfg, o).Ok? && FindInbound(Building(cfg, o).value.inbounds, port).Some?
    ensures var inbound := FindInbound(Building(cfg, o).value.inbounds, port).value;
      var section :=
        if (cfg.mode.Pool? || cfg.mode.Hybrid?) && port == cfg.listenerPort then cfg.listener else cfg.multiPort;
      && (inbound.user.None? <==> section.username == "")
      && (section.username != "" ==> inbound.user == Some((section.username, section.password)))
      && inbound.address ==
           (if TrimSpace(section.address) == "" then None else o.parseIP(TrimSpace(section.address)))
      && (TrimSpace(section.address) != "" ==> inbound.address.Some?)
  {
    hide TrimSpace, FindInbound, Compiled, Enabled, MetadataOf;
    var inbounds := Building(cfg, o).value.inbounds;
    var k := ListeningFrom(inbounds, port);
    FindInboundIff(inbounds, k);
    assert HasPool(cfg.mode) ==> inbounds[0].port == cfg.listenerPort;
  }

  lemma SomethingBuiltIff(selected: seq<NodeConfig>, compile: string -> Option<Content>)
    ensures Compiled(selected, compile).built != [] <==> exists n :: n in selected && compile(n.uri).Some?
  {
    var p := Compiled(selected, compile);
    CompiledPositions(selected, compile);
    if p.picked != [] {
      assert selected[p.picked[0]] in selected;
    }
    if n :| n in selected && compile(n.uri).Some? {
      var i :| 0 <= i < |selected| && selected[i] == n;
      assert i in p.picked;
    }
  }

  /** What a tree is built from, and which error comes first otherwise. */
  lemma BuildSucceedsIff(cfg: BuildConfig, o: Outside)
    ensures var selected := Enabled(cfg.nodes, cfg.filter, o.oracle);
      var pooled, perNode := cfg.mode.Pool? || cfg.mode.Hybrid?, cfg.mode.MultiPort? || cfg.mode.Hybrid?;
      var translates := exists n :: n in selected && o.compile(n.uri).Some?;
      var listens := TrimSpace(cfg.listener.address) == "" || o.parseIP(TrimSpace(cfg.listener.address)).Some?;
      var listensToo := TrimSpace(cfg.multiPort.address) == "" || o.parseIP(TrimSpace(cfg.multiPort.address)).Some?;
      match Building(cfg, o)
      case Ok(_) => translates && (pooled || perNode) && (pooled ==> listens) && (perNode ==> listensToo)
      case Err(NoNodes) => cfg.nodes == []
      case Err(NoneMatched) => cfg.nodes != [] && selected == []
      case Err(AllFailed) => selected != [] && !translates
      case Err(UnsupportedMode) => translates && !pooled && !perNode
      case Err(BadListenerAddress) => translates && pooled && !listens
      case Err(BadMultiPortAddress) => translates && perNode && (pooled ==> listens) && !listensToo
  {
    hide TrimSpace, Compiled, Enabled, Assembled;
    SomethingBuiltIff(Enabled(cfg.nodes, cfg.filter, o.oracle), o.compile);
  }

  lemma ClearNamesDiffer(cfg: BuildConfig, built: seq<Built>)
    requires NamesClear(TagsOf(built), cfg.mode)
    ensures Distinct(TagsOf(built))
  {
  }

  lemma PoolAt(cfg: BuildConfig, listen: Option<string>, multi: Option<string>, built: seq<Built>)
    requires HasPool(cfg.mode)
    ensures var t := Assembled(cfg, listen, multi, built);
      && |built| < |t.outbounds|
      && t.outbounds[|built|] == AllNodesPool(cfg, TagsOf(built), MetadataOf(cfg, built))
  {
    hide MetadataOf;
  }

  lemma NodePoolAt(cfg: BuildConfig, listen: Option<string>, multi: Option<string>, built: seq<Built>, k: nat)
    requires C.PerNodePorts(cfg.mode) && Distinct(TagsOf(built)) && k < |built|
    ensures var t, at := Assembled(cfg, listen, multi, built), |built| + Offset(cfg.mode) + k;
      && at < |t.outbounds|
      && t.outbounds[at] == NodePool(cfg, built[k].tag, MetaOf(cfg, built[k].node))
  {
    hide MetadataOf;
    MetadataHasTags(cfg, built);
    MetadataAt(cfg, built, k);
    assert TagsOf(built)[k] == built[k].tag;
  }

  /** The pool behind the listener runs with the configured settings.  What it tells the
      monitor about a member is the node's own name and URI, and the port and the section's
      address that lead to it. */
  lemma ListenerPoolIsConfigured(cfg: BuildConfig, o: Outside, k: nat)
    requires Building(cfg, o).Ok? && (cfg.mode.Pool? || cfg.mode.Hybrid?)
    requires NamesClear(TagsOf(BuiltFrom(cfg, o)), cfg.mode) && k < |BuiltFrom(cfg, o)|
    ensures var b := BuiltFrom(cfg, o)[k];
      match FindOutbound(Building(cfg, o).value.outbounds, "proxy-pool")
      case Some(Group(_, options)) =>
        && options.settings == cfg.pool && b.tag in options.members && b.tag in options.metadata
        && options.metadata[b.tag] ==
             (if cfg.mode.Hybrid? then Meta(b.node.name, b.node.uri, cfg.mode, cfg.multiPort.address, b.node.port)
              else Meta(b.node.name, b.node.uri, cfg.mode, cfg.listener.address, cfg.listenerPort))
      case _ => false
  {
    hide TrimSpace, Compiled, Enabled, NamesClear, Assembled;
    var built := BuiltFrom(cfg, o);
    var listen := ParseAddr(cfg.listener.address, o.parseIP).value;
    var multi := if C.PerNodePorts(cfg.mode) then ParseAddr(cfg.multiPort.address, o.parseIP).value else None;
    ClearNamesDiffer(cfg, built);
    MetadataAt(cfg, built, k);
    assert TagsOf(built)[k] == built[k].tag;
    PoolAt(cfg, listen, multi, built);
    TagFindsItself(cfg, listen, multi, built, |built|);
  }

  /** The pool of a single node runs sequentially, with the same limits, and knows that node
      only. */
  lemma NodePoolIsConfigured(cfg: BuildConfig, o: Outside, k: nat)
    requires Building(cfg, o).Ok? && (cfg.mode.MultiPort? || cfg.mode.Hybrid?)
    requires NamesClear(TagsOf(BuiltFrom(cfg, o)), cfg.mode) && k < |BuiltFrom(cfg, o)|
    ensures var b := BuiltFrom(cfg, o)[k];
      match FindOutbound(Building(cfg, o).value.outbounds, "proxy-pool-" + b.tag)
      case Some(Group(_, options)) =>
        && options.settings == PoolSettings("sequential", cfg.pool.threshold, cfg.pool.duration)
        && options.members == [b.tag]
        && options.metadata ==
             map[b.tag := Meta(b.node.name, b.node.uri, cfg.mode, cfg.multiPort.address, b.node.port)]
      case _ => false
  {
    hide TrimSpace, Compiled, Enabled, NamesClear, Assembled;
    var built := BuiltFrom(cfg, o);
    var listen := if HasPool(cfg.mode) then ParseAddr(cfg.listener.address, o.parseIP).value else None;
    var multi := ParseAddr(cfg.multiPort.address, o.parseIP).value;
    ClearNamesDiffer(cfg, built);
    NodePoolAt(cfg, listen, multi, built, k);
    assert POOL_TAG + "-" + built[k].tag == "proxy-pool-" + built[k].tag;
    TagFindsItself(cfg, listen, multi, built, |built| + Offset(cfg.mode) + k);
  }

  /** What a built tree consists of besides: an inbound and a pool for the listener, in pool and
      hybrid mode, an inbound, a pool and a rule for each built node, in multi-port and hybrid
      mode, an outbound for each built node, and nothing else. */
  lemma TreeIsConfigured(cfg: BuildConfig, o: Outside)
    requires Building(cfg, o).Ok?
    ensures var opts, n := Building(cfg, o).value, |BuiltFrom(cfg, o)|;
      var pooled := if cfg.mode.Pool? || cfg.mode.Hybrid? then 1 else 0;
      var perNode := if cfg.mode.MultiPort? || cfg.mode.Hybrid? then n else 0;
      && |opts.inbounds| == pooled + perNode && |opts.rules| == perNode
      && |opts.outbounds| == n + pooled + perNode
      && opts.final == if pooled == 1 then "proxy-pool" else ""
  {
    hide TrimSpace, Compiled, Enabled, MetadataOf;
  }
}
