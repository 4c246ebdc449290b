/** Compiles a configuration into the proxy engine's tree of inbounds, outbounds and route
    rules. */
module Builder {
  import opened Types
  import opened Text
  import opened Tags
  import opened NodeFilter
  import C = Config

  const POOL_TAG := "proxy-pool"
  const POOL_INBOUND := "http-in"

  /** The options an outbound gets from a URI; their structure plays no part here. */
  type Content = string

  datatype Access = Access(address: string, username: string, password: string)

  datatype PoolSettings = PoolSettings(mode: string, threshold: int, duration: int)

  datatype BuildConfig = BuildConfig(
    mode: C.Mode,
    listener: Access,
    listenerPort: Port,
    multiPort: Access,
    pool: PoolSettings,
    filter: Filter,
    nodes: seq<NodeConfig>)

  /** What is not modelled: the translation of a URI, and the parsing of an IP address. */
  datatype Outside = Outside(compile: string -> Option<Content>, parseIP: string -> Option<string>, oracle: Oracle)

  datatype Meta = Meta(name: string, uri: string, mode: C.Mode, address: string, port: Port)

  datatype PoolOptions = PoolOptions(members: seq<string>, settings: PoolSettings, metadata: map<string, Meta>)

  datatype Outbound =
    | Base(tag: string, content: Content)
    | Group(tag: string, options: PoolOptions)

  datatype Inbound = Inbound(tag: string, address: Option<string>, port: Port, user: Option<(string, string)>)

  datatype Rule = Rule(inbound: string, outbound: string)

  datatype Options = Options(inbounds: seq<Inbound>, outbounds: seq<Outbound>, rules: seq<Rule>, final: string)

  datatype BuildError = NoNodes | NoneMatched | AllFailed | UnsupportedMode | BadListenerAddress | BadMultiPortAddress

  predicate HasPool(mode: C.Mode) {
    mode.Pool? || mode.Hybrid?
  }

  // Compiling the nodes.

  datatype Built = Built(tag: string, content: Content, node: NodeConfig)

  /** The base tag of every enabled node, and, for those whose URI translates, their
      position and outcome. */
  datatype Progress = Progress(bases: seq<string>, picked: seq<nat>, built: seq<Built>)

  function BaseTag(name: string, builtSoFar: nat): string {
    if SanitizeTag(name) == "" then "node-" + Itoa(builtSoFar + 1) else SanitizeTag(name)
  }

  function Compiled(nodes: seq<NodeConfig>, compile: string -> Option<Content>): (p: Progress)
    ensures |p.bases| == |nodes| && |p.picked| == |p.built|
  {
    if nodes == [] then Progress([], [], [])
    else
      var n := |nodes| - 1;
      var p := Compiled(nodes[..n], compile);
      var bases := p.bases + [BaseTag(nodes[n].name, |p.built|)];
      match compile(nodes[n].uri)
      case None => p.(bases := bases)
      case Some(content) => Progress(bases, p.picked + [n], p.built + [Built(TagAt(bases, n), content, nodes[n])])
  }

  function MetaOf(cfg: BuildConfig, n: NodeConfig): Meta {
    if C.PerNodePorts(cfg.mode) then Meta(n.name, n.uri, cfg.mode, cfg.multiPort.address, n.port)
    else Meta(n.name, n.uri, cfg.mode, cfg.listener.address, cfg.listenerPort)
  }

  /** A later node overwrites an earlier one of the same tag. */
  function MetadataOf(cfg: BuildConfig, built: seq<Built>): map<string, Meta> {
    if built == [] then map[]
    else
      var last := built[|built| - 1];
      MetadataOf(cfg, built[..|built| - 1])[last.tag := MetaOf(cfg, last.node)]
  }

  function TagsOf(built: seq<Built>): (r: seq<string>)
    ensures |r| == |built|
  {
    seq(|built|, i requires 0 <= i < |built| => built[i].tag)
  }

  function Bases(built: seq<Built>): (r: seq<Outbound>)
    ensures |r| == |built|
  {
    seq(|built|, i requires 0 <= i < |built| => Base(built[i].tag, built[i].content))
  }

  lemma {:induction false} MetadataHasTags(cfg: BuildConfig, built: seq<Built>)
    ensures forall t :: t in MetadataOf(cfg, built) <==> t in TagsOf(built)
    decreases |built|
  {
    if built != [] {
      var n := |built| - 1;
      MetadataHasTags(cfg, built[..n]);
      assert TagsOf(built) == TagsOf(built[..n]) + [built[n].tag];
    }
  }

  /** The counters the loop keeps are the occurrences of each base tag so far. */
  ghost predicate Counts(used: map<string, nat>, bases: seq<string>) {
    && (forall b :: b in used <==> CountOf(bases, b) > 0)
    && (forall b :: b in used ==> used[b] == CountOf(bases, b))
  }

  lemma CountsNext(used: map<string, nat>, bases: seq<string>, base: string)
    requires Counts(used, bases)
    ensures var count := if base in used then used[base] else 0;
      && Counts(used[base := count + 1], bases + [base])
      && TagAt(bases + [base], |bases|) == if base in used then Suffixed(base, count + 1) else base
  {
    assert (bases + [base])[..|bases|] == bases;
  }

  lemma CompiledNext(nodes: seq<NodeConfig>, i: nat, compile: string -> Option<Content>)
    requires i < |nodes|
    ensures var p, n := Compiled(nodes[..i], compile), nodes[i];
      var bases := p.bases + [BaseTag(n.name, |p.built|)];
      Compiled(nodes[..i + 1], compile) ==
      match compile(n.uri)
      case None => p.(bases := bases)
      case Some(content) => Progress(bases, p.picked + [i], p.built + [Built(TagAt(bases, i), content, n)])
  {
    assert nodes[..i + 1][..i] == nodes[..i];
  }

  lemma BuiltNext(cfg: BuildConfig, built: seq<Built>, b: Built)
    ensures TagsOf(built + [b]) == TagsOf(built) + [b.tag]
    ensures Bases(built + [b]) == Bases(built) + [Base(b.tag, b.content)]
    ensures MetadataOf(cfg, built + [b]) == MetadataOf(cfg, built)[b.tag := MetaOf(cfg, b.node)]
  {
    assert (built + [b])[..|built|] == built;
  }

  method CompileNodes(cfg: BuildConfig, nodes: seq<NodeConfig>, compile: string -> Option<Content>)
    returns (memberTags: seq<string>, baseOutbounds: seq<Outbound>, metadata: map<string, Meta>)
    ensures var built := Compiled(nodes, compile).built;
      memberTags == TagsOf(built) && baseOutbounds == Bases(built) && metadata == MetadataOf(cfg, built)
  {
    memberTags, baseOutbounds, metadata := [], [], map[];
    var used: map<string, nat> := map[];
    ghost var p := Compiled([], compile);
    for i := 0 to |nodes|
      invariant p == Compiled(nodes[..i], compile)
      invariant Counts(used, p.bases)
      invariant memberTags == TagsOf(p.built) && baseOutbounds == Bases(p.built)
      invariant metadata == MetadataOf(cfg, p.built)
    {
      hide Compiled, MetadataOf, TagAt, CountOf, SanitizeTag, Counts;
      CompiledNext(nodes, i, compile);
      var n := nodes[i];
      var base := SanitizeTag(n.name);
      if base == "" {
        base := "node-" + Itoa(|memberTags| + 1);
      }
      CountsNext(used, p.bases, base);
      var tag := base;
      if base in used {
        used := used[base := used[base] + 1];
        tag := base + "-" + Itoa(used[base]);
      } else {
        used := used[base := 1];
      }
      ghost var built := p.built;
      p := Compiled(nodes[..i + 1], compile);
      match compile(n.uri)
      case None =>
      case Some(content) =>
        memberTags := memberTags + [tag];
        baseOutbounds := baseOutbounds + [Base(tag, content)];
        metadata := metadata[tag := MetaOf(cfg, n)];
        BuiltNext(cfg, built, Built(tag, content, n));
    }
    assert nodes[..|nodes|] == nodes;
  }

  // Assembling the options.

  function User(access: Access): Option<(string, string)> {
    if access.username != "" then Some((access.username, access.password)) else None
  }

  /** `parseAddr`: empty means every address; `None` is a failure. */
  function ParseAddr(value: string, parseIP: string -> Option<string>): Option<Option<string>> {
    var addr := TrimSpace(value);
    if addr == "" then Some(None)
    else
      match parseIP(addr)
      case None => None
      case Some(ip) => Some(Some(ip))
  }

  function PoolTagOf(tag: string): string {
    POOL_TAG + "-" + tag
  }

  function InboundTagOf(tag: string): string {
    "in-" + tag
  }

  function NodePool(cfg: BuildConfig, tag: string, meta: Meta): Outbound {
    Group(PoolTagOf(tag), PoolOptions([tag], cfg.pool.(mode := "sequential"), map[tag := meta]))
  }

  function NodeInbound(cfg: BuildConfig, address: Option<string>, tag: string, meta: Meta): Inbound {
    Inbound(InboundTagOf(tag), address, meta.port, User(cfg.multiPort))
  }

  function NodeRule(tag: string): Rule {
    Rule(InboundTagOf(tag), PoolTagOf(tag))
  }

  function NodeInbounds(cfg: BuildConfig, address: Option<string>, tags: seq<string>,
                        metadata: map<string, Meta>): (r: seq<Inbound>)
    requires forall t :: t in tags ==> t in metadata
    ensures |r| == |tags|
  {
    seq(|tags|, i requires 0 <= i < |tags| =>
      assert tags[i] in tags;
      NodeInbound(cfg, address, tags[i], metadata[tags[i]]))
  }

  function NodePools(cfg: BuildConfig, tags: seq<string>, metadata: map<string, Meta>): (r: seq<Outbound>)
    requires forall t :: t in tags ==> t in metadata
    ensures |r| == |tags|
  {
    seq(|tags|, i requires 0 <= i < |tags| => assert tags[i] in tags; NodePool(cfg, tags[i], metadata[tags[i]]))
  }

  function NodeRules(tags: seq<string>): (r: seq<Rule>)
    ensures |r| == |tags|
  {
    seq(|tags|, i requires 0 <= i < |tags| => NodeRule(tags[i]))
  }

  function PoolInbound(cfg: BuildConfig, address: Option<string>): Inbound {
    Inbound(POOL_INBOUND, address, cfg.listenerPort, User(cfg.listener))
  }

  function AllNodesPool(cfg: BuildConfig, tags: seq<string>, metadata: map<string, Meta>): Outbound {
    Group(POOL_TAG, PoolOptions(tags, cfg.pool, metadata))
  }

  /** The whole tree, for the nodes that were built. */
  function Assembled(cfg: BuildConfig, listen: Option<string>, multi: Option<string>, built: seq<Built>): Options {
    MetadataHasTags(cfg, built);
    var tags, metadata := TagsOf(built), MetadataOf(cfg, built);
    var perNode := C.PerNodePorts(cfg.mode);
    Options(
      (if HasPool(cfg.mode) then [PoolInbound(cfg, listen)] else []) +
      (if perNode then NodeInbounds(cfg, multi, tags, metadata) else []),
      Bases(built) + (if HasPool(cfg.mode) then [AllNodesPool(cfg, tags, metadata)] else []) +
      (if perNode then NodePools(cfg, tags, metadata) else []),
      if perNode then NodeRules(tags) else [],
      if HasPool(cfg.mode) then POOL_TAG else "")
  }

  /** `Build` as a function. */
  ghost function Building(cfg: BuildConfig, o: Outside): Result<Options, BuildError> {
    var selected := Enabled(cfg.nodes, cfg.filter, o.oracle);
    var built := Compiled(selected, o.compile).built;
    var listen, multi := ParseAddr(cfg.listener.address, o.parseIP), ParseAddr(cfg.multiPort.address, o.parseIP);
    if cfg.nodes == [] then Err(NoNodes)
    else if selected == [] then Err(NoneMatched)
    else if built == [] then Err(AllFailed)
    else if !HasPool(cfg.mode) && !C.PerNodePorts(cfg.mode) then Err(UnsupportedMode)
    else if HasPool(cfg.mode) && listen.None? then Err(BadListenerAddress)
    else if C.PerNodePorts(cfg.mode) && multi.None? then Err(BadMultiPortAddress)
    else
      Ok(Assembled(cfg, if HasPool(cfg.mode) then listen.value else None,
                   if C.PerNodePorts(cfg.mode) then multi.value else None, built))
  }

  /** Adds the parts of every node: its inbound, its pool of one, its rule. */
  method AddNodeEntries(cfg: BuildConfig, multi: Option<string>, memberTags: seq<string>, metadata: map<string, Meta>,
                        inbounds0: seq<Inbound>, outbounds0: seq<Outbound>)
    returns (inbounds: seq<Inbound>, outbounds: seq<Outbound>, rules: seq<Rule>)
    requires forall t :: t in memberTags ==> t in metadata
    ensures inbounds == inbounds0 + NodeInbounds(cfg, multi, memberTags, metadata)
    ensures outbounds == outbounds0 + NodePools(cfg, memberTags, metadata)
    ensures rules == NodeRules(memberTags)
  {
    inbounds, outbounds, rules := inbounds0, outbounds0, [];
    for i := 0 to |memberTags|
      invariant inbounds == inbounds0 + NodeInbounds(cfg, multi, memberTags, metadata)[..i]
      invariant outbounds == outbounds0 + NodePools(cfg, memberTags, metadata)[..i]
      invariant rules == NodeRules(memberTags)[..i]
    {
      var tag := memberTags[i];
      outbounds := outbounds + [NodePool(cfg, tag, metadata[tag])];
      inbounds := inbounds + [NodeInbound(cfg, multi, tag, metadata[tag])];
      rules := rules + [NodeRule(tag)];
    }
  }

  method Build(cfg: BuildConfig, o: Outside) returns (r: Result<Options, BuildError>)
    ensures r == Building(cfg, o)
  {
    hide Compiled, MetadataOf, Enabled;
    if |cfg.nodes| == 0 {
      return Err(NoNodes);
    }
    var selected := FilterNodes(cfg.nodes, cfg.filter, o.oracle);
    if |selected| == 0 {
      return Err(NoneMatched);
    }
    var memberTags, baseOutbounds, metadata := CompileNodes(cfg, selected, o.compile);
    MetadataHasTags(cfg, Compiled(selected, o.compile).built);
    if |baseOutbounds| == 0 {
      return Err(AllFailed);
    }
    var inbounds: seq<Inbound>, outbounds := [], baseOutbounds;
    var rules: seq<Rule>, final := [], "";
    if !HasPool(cfg.mode) && !C.PerNodePorts(cfg.mode) {
      return Err(UnsupportedMode);
    }
    if HasPool(cfg.mode) {
      var listen := ParseAddr(cfg.listener.address, o.parseIP);
      if listen.None? {
        return Err(BadListenerAddress);
      }
      inbounds := [PoolInbound(cfg, listen.value)];
      outbounds := outbounds + [AllNodesPool(cfg, memberTags, metadata)];
      final := POOL_TAG;
    }
    if C.PerNodePorts(cfg.mode) {
      var multi := ParseAddr(cfg.multiPort.address, o.parseIP);
      if multi.None? {
        return Err(BadMultiPortAddress);
      }
      inbounds, outbounds, rules := AddNodeEntries(cfg, multi.value, memberTags, metadata, inbounds, outbounds);
    }
    ghost var whole := Building(cfg, o).value;
    assert inbounds == whole.inbounds && outbounds == whole.outbounds;
    r := Ok(Options(inbounds, outbounds, rules, final));
  }
}
