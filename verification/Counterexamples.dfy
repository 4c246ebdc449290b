/** Inputs at which the code does not do what one would expect of it.  The exact conditions
    are proved elsewhere; each lemma here shows one concrete failure. */
module Counterexamples {
  import opened Types
  import opened Text
  import opened Ports
  import opened Allocation
  import opened Tags
  import C = Config
  import P = PortTheorems
  import R = Registry
  import M = BoxManager
  import F = NodeFilter
  import B = Builder
  import Routing
  import N = NodesFile
  import W = NodesWatch
  import S = SubscriptionRefresh

  function Node(name: string, uri: string, port: Port): NodeConfig {
    NodeConfig(name, uri, port, "", "", Unset)
  }

  function In(mode: C.Mode, basePort: Port): C.Settings {
    C.Settings(mode, 2323, basePort, "", "", "", [])
  }

  // Tags.

  lemma TheyAreSlugs()
    ensures IsSlug("a") && IsSlug("a-2")
  {
  }

  lemma SecondTag()
    ensures TagAt(["a", "a", "a-2"], 1) == "a-2"
  {
    var names := ["a", "a", "a-2"];
    assert names[..1] == ["a"];
    assert ["a"][..0] == [];
    assert CountOf(["a"], "a") == 1;
    assert Itoa(2) == "2";
  }

  lemma ThirdTag()
    ensures TagAt(["a", "a", "a-2"], 2) == "a-2"
  {
    var names := ["a", "a", "a-2"];
    assert names[..2] == ["a", "a"];
    assert ["a", "a"][..1] == ["a"] && ["a"][..0] == [];
    assert "a" != "a-2";
    assert CountOf(["a"], "a-2") == 0 && CountOf(["a", "a"], "a-2") == 0;
  }

  lemma ThreeNamesTwoTags()
    ensures var names := ["a", "a", "a-2"];
      && (forall n :: n in names ==> SanitizeTag(n) == n)
      && AllTags(names)[1] == AllTags(names)[2] == "a-2"
  {
    hide SanitizeTag, TagAt, IsSlug;
    TheyAreSlugs();
    SlugIsUnchanged("a");
    SlugIsUnchanged("a-2");
    SecondTag();
    ThirdTag();
  }

  lemma {:induction false} PiecesAtGap(run: string, c: char, rest: string)
    requires (forall i :: 0 <= i < |run| ==> IsSlugChar(run[i])) && !IsSlugChar(c)
    ensures Pieces(run + [c] + rest) == [run] + Pieces(rest)
    decreases |run|
  {
    var s := run + [c] + rest;
    if run == "" {
      assert s[1..] == rest;
    } else {
      assert s[1..] == run[1..] + [c] + rest;
      PiecesAtGap(run[1..], c, rest);
      assert [run[0]] + run[1..] == run;
    }
  }

  lemma {:induction false} PiecesOfRun(run: string)
    requires forall i :: 0 <= i < |run| ==> IsSlugChar(run[i])
    ensures Pieces(run) == [run]
    decreases |run|
  {
    if run != "" {
      PiecesOfRun(run[1..]);
      assert [run[0]] + run[1..] == run;
    }
  }

  lemma TwoFields()
    ensures Fields("proxy pool") == ["proxy", "pool"]
  {
    hide Pieces;
    assert "proxy pool" == "proxy" + [' '] + "pool";
    PiecesAtGap("proxy", ' ', "pool");
    PiecesOfRun("pool");
    assert ["proxy"] + ["pool"] == ["proxy", "pool"];
    assert forall p :: p in ["proxy", "pool"] ==> p != "";
    NonEmptyKeeps(["proxy", "pool"]);
  }

  lemma TwoJoined()
    ensures Join(["proxy", "pool"], "-") == B.POOL_TAG
    ensures TrimDashes(B.POOL_TAG) == B.POOL_TAG
  {
    assert ["proxy", "pool"][1..] == ["pool"];
    assert Join(["pool"], "-") == "pool";
    assert B.POOL_TAG[0] == 'p' && B.POOL_TAG[|B.POOL_TAG| - 1] == 'l';
  }

  lemma AlreadyLower()
    ensures TrimSpace(ToLower("proxy pool")) == "proxy pool"
  {
    assert ToLower("proxy pool") == "proxy pool";
    TrimSpaceTrims("proxy pool");
  }

  /** A name with a space gets the tag of the pool itself. */
  lemma ReservedName()
    ensures SanitizeTag("proxy pool") == B.POOL_TAG
  {
    hide Fields, Join, TrimDashes, TrimSpace, ToLower;
    AlreadyLower();
    TwoFields();
    TwoJoined();
  }

  lemma NothingCompiled(nodes: seq<NodeConfig>, compile: string -> Option<B.Content>)
    ensures B.Compiled(nodes[..0], compile) == B.Progress([], [], [])
  {
  }

  lemma SoleTag(base: string)
    ensures TagAt([base], 0) == base
  {
    assert [base][..0] == [];
  }

  /** A configuration with such a node compiles, in pool mode, to two outbounds of one tag. */
  lemma ReservedNameCollides(cfg: B.BuildConfig, listen: Option<string>, multi: Option<string>, uri: string,
                             compile: string -> Option<B.Content>)
    requires B.HasPool(cfg.mode) && compile(uri).Some?
    ensures var built := B.Compiled([Node("proxy pool", uri, 0)], compile).built;
      !Distinct(Routing.OutboundTags(B.Assembled(cfg, listen, multi, built).outbounds))
  {
    hide SanitizeTag, B.Assembled, Routing.OutboundTags;
    hide B.Compiled, TagAt;
    ReservedName();
    var nodes := [Node("proxy pool", uri, 0)];
    B.CompiledNext(nodes, 0, compile);
    NothingCompiled(nodes, compile);
    assert nodes[..1] == nodes && [] + [B.POOL_TAG] == [B.POOL_TAG];
    SoleTag(B.POOL_TAG);
    var built := B.Compiled(nodes, compile).built;
    assert built[0].tag == B.POOL_TAG && B.TagsOf(built)[0] == B.POOL_TAG;
    Routing.OutboundTagsDistinctIff(cfg, listen, multi, built);
  }

  // Ports.

  lemma TwoHoles(nodes: seq<NodeConfig>)
    requires |nodes| == 2 && nodes[0].port == nodes[1].port == 0
    ensures Holes(nodes, 0) == 2
  {
    assert nodes == [nodes[0], nodes[1]];
    assert nodes[1..] == [nodes[1]] && nodes[1..][1..] == [];
  }

  /** Two nodes above base port 65535: one is put on port 0. */
  lemma WalkWrapsToZero(bindable: set<Port>, fragmentName: string -> string)
    requires 0 in bindable && 65535 in bindable
    ensures var s, nodes := In(C.MultiPort, 65535), [Node("a", "vmess://a", 0), Node("b", "vmess://b", 0)];
      && C.EnoughPorts(s, nodes, map[], bindable, fragmentName)
      && exists i :: 0 <= i < 2 && C.Normalized(s, nodes, map[], bindable, fragmentName)[i].port == 0
  {
    var s, nodes := In(C.MultiPort, 65535), [Node("a", "vmess://a", 0), Node("b", "vmess://b", 0)];
    var prepared := C.PrepareAll(s.mode, nodes, map[], fragmentName);
    var free := C.FreeFor(s, prepared, map[], bindable);
    P.PreparedAt(s.mode, nodes, map[], fragmentName, 0);
    P.PreparedAt(s.mode, nodes, map[], fragmentName, 1);
    TwoHoles(prepared);
    assert free == bindable;
    SubsetSize({0, 65535}, bindable);
    SubsetSize(AtOrAbove(65535, free), {65535});
    P.PortZeroIsAssignedIff(s, nodes, map[], bindable, fragmentName);
  }

  lemma OneHole(n: NodeConfig)
    requires n.port == 0
    ensures Holes([n], 0) == 1
  {
    assert [n][1..] == [];
  }

  /** An address no port of which can be bound, and one node without a port: normalisation
      never returns, the walk from the base meeting no free port however far it goes. */
  lemma NothingBindableNeverReturns(basePort: Port, fragmentName: string -> string)
    ensures var s, nodes := In(C.MultiPort, basePort), [Node("a", "vmess://a", 0)];
      && !C.EnoughPorts(s, nodes, map[], {}, fragmentName)
      && !FreshWalksEnd(Holes(C.PrepareAll(s.mode, nodes, map[], fragmentName), 0), basePort, {})
  {
    var s, nodes := In(C.MultiPort, basePort), [Node("a", "vmess://a", 0)];
    var prepared := C.PrepareAll(s.mode, nodes, map[], fragmentName);
    P.PreparedAt(s.mode, nodes, map[], fragmentName, 0);
    assert prepared == [prepared[0]];
    OneHole(prepared[0]);
    FreshWalksEndIff(1, basePort, {});
    assert C.FreeFor(s, prepared, map[], {}) == {};
  }

  /** The first multi-port refresh, above base port 65535: the second node stays on port 0. */
  lemma FirstRefreshWrapsToZero(a: NodeConfig, b: NodeConfig, bindable: set<Port>, uriName: string -> string,
                                fragmentName: string -> string)
    ensures PortsOf(S.InForce(In(C.MultiPort, 65535), [], [a, b], bindable, uriName, fragmentName)) == [65535, 0]
  {
    hide S.AllFetched;
    S.RefreshedPorts(In(C.MultiPort, 65535), [], [a, b], bindable, uriName, fragmentName, 0);
    S.RefreshedPorts(In(C.MultiPort, 65535), [], [a, b], bindable, uriName, fragmentName, 1);
  }

  /** One URI on two ports: a reload with the configuration's own port map moves a node. */
  lemma SharedUriLosesAPort(bindable: set<Port>, fragmentName: string -> string)
    ensures var s, nodes := In(C.MultiPort, 28000), [Node("a", "vmess://x", 1000), Node("b", "vmess://x", 1001)];
      && C.EnoughPorts(s, nodes, C.PortMapOf(nodes), bindable, fragmentName)
      && PortsOf(C.Normalized(s, nodes, C.PortMapOf(nodes), bindable, fragmentName)) != PortsOf(nodes)
  {
    hide C.Normalized, C.EnoughPorts, C.PortMapOf, C.AllHaveUri;
    var s, nodes := In(C.MultiPort, 28000), [Node("a", "vmess://x", 1000), Node("b", "vmess://x", 1001)];
    assert P.IsSettled(nodes);
    P.OwnPortMapRoundTrip(s, nodes, bindable, fragmentName);
    assert nodes[0].uri == nodes[1].uri && nodes[0].port != nodes[1].port;
  }

  /** The first hybrid refresh leaves its one node on port 0. */
  lemma FirstHybridRefreshLeavesZero(fetched: NodeConfig, bindable: set<Port>, uriName: string -> string,
                                     fragmentName: string -> string)
    requires fetched.port == 0
    ensures S.InForce(In(C.Hybrid, 28000), [], [fetched], bindable, uriName, fragmentName)[0].port == 0
  {
    S.FetchedAt(In(C.Hybrid, 28000), [fetched], uriName, 0);
  }

  /** And so does the next, though there were nodes before: none of them had a port. */
  lemma NextHybridRefreshLeavesZero(first: NodeConfig, next: NodeConfig, bindable: set<Port>,
                                    uriName: string -> string, fragmentName: string -> string)
    requires first.port == next.port == 0
    ensures var s := In(C.Hybrid, 28000);
      var current := S.InForce(s, [], [first], bindable, uriName, fragmentName);
      && |current| == 1 && C.PortMapOf(current) == map[]
      && S.InForce(s, current, [next], bindable, uriName, fragmentName)[0].port == 0
  {
    hide S.AllFetched;
    var s := In(C.Hybrid, 28000);
    S.FetchedAt(s, [first], uriName, 0);
    S.FetchedAt(s, [next], uriName, 0);
    var current := S.InForce(s, [], [first], bindable, uriName, fragmentName);
    assert current[0].port == 0 && current[..0] == [];
  }

  // The registry.

  /** In hybrid mode a node may be created on a port that another has. */
  lemma HybridCreateCollides(unescape: R.Unescape)
    ensures var nodes := [Node("a", "vmess://a", 1000)];
      var o := R.Create(In(C.Hybrid, 28000), nodes, Node("b", "vmess://b", 1000), true, unescape);
      o.result.Ok? && !C.PortsSound(In(C.Hybrid, 28000), o.nodes)
  {
    var nodes, node := [Node("a", "vmess://a", 1000)], Node("b", "vmess://b", 1000);
    TrimSpaceTrims(node.name);
    TrimSpaceTrims(node.uri);
    assert R.Names(nodes) == ["a"];
    assert R.Create(In(C.Hybrid, 28000), nodes, node, true, unescape).result.Ok?;
    assert PortsOf(nodes)[0] == 1000;
    R.UncheckedCreatePortsIff(In(C.Hybrid, 28000), nodes, node, true, unescape);
  }

  lemma NodeBIsTrimmed(port: Port)
    ensures C.Trimmed(Node("b", "vmess://b", port)) == Node("b", "vmess://b", port) && TrimSpace("b") == "b"
  {
    TrimSpaceTrims("b");
    TrimSpaceTrims("vmess://b");
  }

  /** Or moved onto one, or onto the listener's. */
  lemma HybridUpdateCollides(port: Port, unescape: R.Unescape)
    requires port in {1000, 2323}
    ensures var nodes := [Node("a", "vmess://a", 1000), Node("b", "vmess://b", 1001)];
      var o := R.Update(In(C.Hybrid, 28000), nodes, "b", Node("b", "vmess://b", port), true, unescape);
      o.result.Ok? && !C.PortsSound(In(C.Hybrid, 28000), o.nodes)
  {
    var nodes := [Node("a", "vmess://a", 1000), Node("b", "vmess://b", 1001)];
    var node := Node("b", "vmess://b", port);
    hide TrimSpace, C.Trimmed;
    NodeBIsTrimmed(port);
    assert R.Names(nodes) == ["a", "b"];
    assert R.Update(In(C.Hybrid, 28000), nodes, "b", node, true, unescape).result.Ok?;
    assert PortsOf(nodes) == [1000, 1001];
    R.UncheckedUpdatePortsIff(In(C.Hybrid, 28000), nodes, "b", node, true, unescape);
  }

  lemma FragmentStart()
    ensures R.LastIndexOf("ss://h#+a", '#') == 6
  {
    var uri := "ss://h#+a";
    assert uri[..8] == "ss://h#+" && uri[..8][..7] == "ss://h#";
  }

  lemma TrimmedSpacedName()
    ensures TrimSpace(" a") != " a"
  {
    TrimSpaceTrims(" a");
  }

  /** The fragment `+a` decodes to a name with a leading space, and the node created with it
      cannot be deleted by its name. */
  lemma SpacedNameStays(unescape: R.Unescape)
    requires unescape("+a") == Some(" a")
    ensures var s, node := In(C.Pool, 28000), Node("", "ss://h#+a", 0);
      var created := R.Create(s, [], node, true, unescape);
      && created.result.Ok? && created.result.value.name == " a"
      && R.Delete(created.nodes, " a", true).result == Err(R.NodeNotFound)
  {
    var s, node := In(C.Pool, 28000), Node("", "ss://h#+a", 0);
    TrimSpaceTrims(node.name);
    TrimSpaceTrims(node.uri);
    FragmentStart();
    assert node.uri[7..] == "+a";
    var created := R.Create(s, [], node, true, unescape);
    assert created.result.value.name == " a";
    assert R.Names(created.nodes) == [" a"];
    TrimmedSpacedName();
  }

  // Reloading.

  /** `lo`, `lo + 1`, ..., `n` of them. */
  function Range(lo: Port, n: nat): (r: set<Port>)
    requires lo + n <= PORT_COUNT
    ensures forall p: Port :: p in r <==> lo <= p < lo + n
    ensures |r| == n
  {
    if n == 0 then {} else Range(lo, n - 1) + {lo + n - 1}
  }

  /** Ports that something else on the machine holds. */
  function Held(): (r: set<Port>)
    ensures forall p: Port :: p in r <==> 1001 <= p <= 1010
  {
    Range(1001, 10)
  }

  function TenNodes(): (r: seq<NodeConfig>)
    ensures |r| == 10
  {
    seq(10, i requires 0 <= i < 10 => Node("n" + Itoa(i), "vmess://x", 1001 + i))
  }

  /** A clashing port among those of the nodes from `i` on. */
  function FirstClash(s: C.Settings, nodes: seq<NodeConfig>, held: set<Port>, listens: M.Listens,
                      i: nat): (p: Option<Port>)
    requires i <= |nodes|
    ensures p.Some? ==> M.Clashes(s, nodes, held, listens, p.value)
    ensures p.None? ==> forall k :: i <= k < |nodes| ==> !M.Clashes(s, nodes, held, listens, nodes[k].port)
    decreases |nodes| - i
  {
    if i == |nodes| then None
    else if M.Clashes(s, nodes, held, listens, nodes[i].port) then Some(nodes[i].port)
    else FirstClash(s, nodes, held, listens, i + 1)
  }

  /** In this world ports fail to bind exactly because they are held or wanted twice. */
  function HeldWorld(s: C.Settings, held: set<Port>, listens: M.Listens): M.World {
    M.World(
      i => M.Built,
      (i, nodes: seq<NodeConfig>) =>
        var p := FirstClash(s, nodes, held, listens, 0);
        if p.None? then M.Started else M.StartFailed(p.value),
      i => Range(2000, 100),
      true, true)
  }

  lemma HeldWorldStarts(s: C.Settings, held: set<Port>, listens: M.Listens, i: nat, nodes: seq<NodeConfig>)
    ensures match HeldWorld(s, held, listens).starts(i, nodes)
            case Started => forall p: Port :: !M.Clashes(s, nodes, held, listens, p)
            case StartFailed(p) => M.Clashes(s, nodes, held, listens, p)
  {
    hide Range;
    if FirstClash(s, nodes, held, listens, 0).None? {
      forall p: Port
        ensures !M.Clashes(s, nodes, held, listens, p)
      {
        if M.Clashes(s, nodes, held, listens, p) {
          M.SomeListener(nodes, listens, p);
        }
      }
    }
  }

  lemma HeldWorldBlocks(s: C.Settings, held: set<Port>, listens: M.Listens)
    requires held !! Range(2000, 100)
    ensures M.Blocking(s, held, listens, HeldWorld(s, held, listens))
  {
    hide Range, M.Clashes;
    var w := HeldWorld(s, held, listens);
    forall i: nat, nodes: seq<NodeConfig>
      ensures match w.starts(i, nodes)
              case Started => forall p: Port :: !M.Clashes(s, nodes, held, listens, p)
              case StartFailed(p) => M.Clashes(s, nodes, held, listens, p)
    {
      HeldWorldStarts(s, held, listens, i, nodes);
    }
  }

  function All(): M.Listens {
    n => true
  }

  /** Fewer than a hundred nodes with ten moves to make use up every attempt. */
  lemma TenMovesExhaust(s: C.Settings, nodes: seq<NodeConfig>, held: set<Port>)
    requires |nodes| + 1 < 100 && held !! Range(2000, 100) && M.Moves(s, nodes, held, All()) >= 10
    ensures var w := HeldWorld(s, held, All());
      M.SearchesEnd(s, nodes, 0, w) && M.Attempts(s, nodes, [], 0, w).ending.Exhausted?
  {
    hide M.SearchesEnd, M.Attempts, M.Blocking, M.Moves, Range, FirstClash;
    var w := HeldWorld(s, held, All());
    HeldWorldBlocks(s, held, All());
    M.SparePortsSuffice(s, nodes, 0, w);
    M.ExhaustedIff(s, nodes, held, All(), w);
  }

  lemma {:induction false} AllOnHeld(nodes: seq<NodeConfig>, held: set<Port>, listens: M.Listens)
    requires forall i :: 0 <= i < |nodes| ==> nodes[i].port != 0 && nodes[i].port in held && listens(nodes[i])
    ensures M.OnHeld(nodes, held, listens) == |nodes|
    decreases |nodes|
  {
    if nodes != [] {
      AllOnHeld(nodes[1..], held, listens);
    }
  }

  /** Ten nodes on ten held ports: every attempt repairs one, and the reload ends with a box
      that is closed. */
  lemma TenHeldPortsExhaust()
    ensures var s := In(C.MultiPort, 28000);
      var w := HeldWorld(s, Held(), All());
      M.SearchesEnd(s, TenNodes(), 0, w) && M.Attempts(s, TenNodes(), [], 0, w).ending.Exhausted?
  {
    hide M.SearchesEnd, M.Attempts, M.Moves, HeldWorld, Range, Itoa;
    var s := In(C.MultiPort, 28000);
    AllOnHeld(TenNodes(), Held(), All());
    M.MovesOfSound(s, TenNodes(), Held(), All());
    assert Held() !! Range(2000, 100);
    TenMovesExhaust(s, TenNodes(), Held());
  }

  /** Ten nodes on ports 28000 to 28009, one for each of ten clean URIs. */
  ghost predicate AreTenKnown(nodes: seq<NodeConfig>) {
    && |nodes| == 10
    && (forall i :: 0 <= i < 10 ==> nodes[i].port == 28000 + i && IsTrimmed(nodes[i].uri))
    && (forall i, j :: 0 <= i < j < 10 ==> nodes[i].uri != nodes[j].uri)
  }

  /** The ports of a multi-port refresh that puts ten new nodes in front of the known ones. */
  lemma FrontedPorts(current: seq<NodeConfig>, added: seq<NodeConfig>, bindable: set<Port>,
                     uriName: string -> string, fragmentName: string -> string, i: nat)
    requires AreTenKnown(current) && |added| == 10 && i < 20
    requires forall i, j :: 0 <= i < 10 && 0 <= j < 10 ==> TrimSpace(added[i].uri) != current[j].uri
    ensures var s, fetched := In(C.MultiPort, 28000), added + current;
      && C.EnoughPorts(s, S.AllFetched(s, fetched, uriName), C.PortMapOf(current), bindable, fragmentName)
      && S.InForce(s, current, fetched, bindable, uriName, fragmentName)[i].port
         == 28000 + (if i < 10 then i else i - 10)
  {
    hide TrimSpace, S.AllFetched, C.EnoughPorts, S.InForce, C.PortMapOf, C.FreeFor, C.PrepareAll, C.MappedPort;
    var s, fetched := In(C.MultiPort, 28000), added + current;
    S.NoWrapNoFreshPorts(s, fetched, C.PortMapOf(current), bindable, uriName, fragmentName);
    S.RefreshedPorts(s, current, fetched, bindable, uriName, fragmentName, i);
    if i < 10 {
      if C.MappedPort(C.PortMapOf(current), TrimSpace(added[i].uri)) > 0 {
        var j := P.PortMapOrigin(current, TrimSpace(added[i].uri));
      }
    } else {
      TrimSpaceTrims(current[i - 10].uri);
      var j := P.PortMapLookup(current, i - 10);
      S.MappedIsNonEmpty(C.PortMapOf(current), current[i - 10].uri);
    }
  }

  /** Then every port is wanted twice, no port need be held, and the reload of that refresh
      ends with a box that is closed. */
  lemma FrontedRefreshExhausts(current: seq<NodeConfig>, added: seq<NodeConfig>, bindable: set<Port>,
                               uriName: string -> string, fragmentName: string -> string)
    requires AreTenKnown(current) && |added| == 10
    requires forall i, j :: 0 <= i < 10 && 0 <= j < 10 ==> TrimSpace(added[i].uri) != current[j].uri
    ensures var s, fetched := In(C.MultiPort, 28000), added + current;
      && C.EnoughPorts(s, S.AllFetched(s, fetched, uriName), C.PortMapOf(current), bindable, fragmentName)
      && var nodes := S.InForce(s, current, fetched, bindable, uriName, fragmentName);
      && M.SearchesEnd(s, nodes, 0, HeldWorld(s, {}, All()))
      && M.Attempts(s, nodes, [], 0, HeldWorld(s, {}, All())).ending.Exhausted?
  {
    hide TrimSpace, S.AllFetched, C.EnoughPorts, S.InForce, C.PortMapOf;
    hide M.SearchesEnd, M.Attempts, M.Moves, HeldWorld, Range;
    var s, fetched := In(C.MultiPort, 28000), added + current;
    FrontedPorts(current, added, bindable, uriName, fragmentName, 0);
    var nodes := S.InForce(s, current, fetched, bindable, uriName, fragmentName);
    forall i | 0 <= i < 20
      ensures nodes[i].port == 28000 + (if i < 10 then i else i - 10)
    {
      FrontedPorts(current, added, bindable, uriName, fragmentName, i);
    }
    assert forall p :: p in Range(28000, 10) ==> PortsOf(nodes)[p - 28000] == p;
    assert Elements(PortsOf(nodes)) == Range(28000, 10);
    M.MovesOfSharing(s, nodes, All());
    TenMovesExhaust(s, nodes, {});
  }

  // The filter and the nodes file.

  lemma AsksForJapan()
    ensures F.TargetOf("geo") == F.ByGeo && F.Patterns(["jp"]) == ["jp"] && F.Patterns([]) == []
  {
    TrimSpaceTrims("geo");
    assert ToLower("geo") == "geo";
    TrimSpaceTrims("jp");
    assert ["jp"][..0] == [];
  }

  lemma NothingToTrim()
    ensures TrimSpace("") == ""
  {
    TrimSpaceTrims("");
  }

  /** Asking for a location when none is known enables a node that does not pass. */
  lemma LocationFilterIgnored(o: F.Oracle)
    requires forall n :: o.geoText(n) == ""
    ensures var n, f := Node("a", "vmess://a", 0), F.Filter(["jp"], [], "geo", false);
      F.Enabled([n], f, o) == [n] && !F.Passes(n, f, o)
  {
    hide TrimSpace, F.TargetOf, F.Patterns, F.Label;
    AsksForJapan();
    NothingToTrim();
  }

  lemma SocksIsNotListed()
    ensures !N.SubscriptionAccepts("socks5://h:1")
  {
    var uri := "socks5://h:1";
    assert ToLower(uri) == uri;
    assert uri[1] == 'o';
    forall scheme | scheme in N.SUBSCRIPTION_SCHEMES
      ensures !HasPrefix(uri, scheme)
    {
      assert scheme[0] != 's' || scheme[1] == 's';
    }
  }

  /** A refresh writes a socks proxy; saving the same list once more is reported as an edit,
      by one check. */
  lemma SameListLooksEdited(endpointOk: N.Acceptor)
    ensures var uris := ["socks5://h:1"];
      var again := Some(W.File(1, Some(N.PrintText(uris))));
      && N.AreNodeLines(uris, u => N.ConfigAccepts(u, endpointOk))
      && W.Reports(W.AfterRefresh(uris, 0), again)
      && !W.Reports(W.AfterCheck(W.AfterRefresh(uris, 0), again), again)
  {
    hide W.Reports, N.PrintText, N.SubscriptionAccepts;
    var uri := "socks5://h:1";
    assert ToLower(uri) == uri;
    assert "socks5://" in N.CONFIG_SCHEMES && HasPrefix(ToLower(uri), "socks5://");
    assert N.HasScheme(uri, N.CONFIG_SCHEMES);
    SocksIsNotListed();
    W.AcceptedRewriteReportedIff([uri], 0, 1, endpointOk);
    var again := Some(W.File(1, Some(N.PrintText([uri]))));
    W.ReportedOnce(W.AfterRefresh([uri], 0), again, []);
  }
}
