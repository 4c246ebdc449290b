/** The nodes file: one proxy URI per line, `#` comments and blank lines skipped. */
module NodesFile {
  import opened Types
  import opened Text

  /** A predicate deciding which lines are proxy URIs. */
  type Acceptor = string -> bool

  const CONFIG_SCHEMES := [
    "vmess://", "vless://", "trojan://", "ss://", "ssr://", "hysteria://", "hysteria2://",
    "hy2://", "socks://", "socks5://", "socks4://", "socks4a://"]

  /** The subscription manager carries its own, shorter list. */
  const SUBSCRIPTION_SCHEMES := [
    "vmess://", "vless://", "trojan://", "ss://", "ssr://", "hysteria://", "hysteria2://", "hy2://"]

  predicate HasScheme(s: string, schemes: seq<string>) {
    exists scheme :: scheme in schemes && HasPrefix(ToLower(s), scheme)
  }

  /** `config.isProxyURI`; `endpointOk` stands for the `url.Parse` checks made
      on an http(s) URI (host and explicit port present, no path). */
  predicate ConfigAccepts(s: string, endpointOk: Acceptor) {
    || HasScheme(s, CONFIG_SCHEMES)
    || (HasScheme(TrimSpace(s), ["http://", "https://"]) && endpointOk(TrimSpace(s)))
  }

  /** `subscription.isProxyURI`. */
  predicate SubscriptionAccepts(s: string) {
    HasScheme(s, SUBSCRIPTION_SCHEMES)
  }

  /** What one line of text contributes. */
  function ParseLine(line: string, accepts: Acceptor): seq<string> {
    var line := TrimSpace(line);
    if line == "" || HasPrefix(line, "#") then []
    else if accepts(line) then [line]
    else []
  }

  function ParseLines(lines: seq<string>, accepts: Acceptor): seq<string> {
    if lines == [] then [] else ParseLine(lines[0], accepts) + ParseLines(lines[1..], accepts)
  }

  function ParseText(content: string, accepts: Acceptor): seq<string> {
    ParseLines(Split(content, '\n'), accepts)
  }

  /** The text written for a list of URIs. */
  function PrintText(uris: seq<string>): string {
    Join(uris, "\n") + (if uris == [] then "" else "\n")
  }

  /** A URI that survives being written to a line of its own. */
  ghost predicate IsNodeLine(uri: string, accepts: Acceptor) {
    && uri != ""
    && IsTrimmed(uri)
    && '\n' !in uri
    && !HasPrefix(uri, "#")
    && accepts(uri)
  }

  ghost predicate AreNodeLines(uris: seq<string>, accepts: Acceptor) {
    forall u :: u in uris ==> IsNodeLine(u, accepts)
  }

  lemma UrisSnoc(nodes: seq<NodeConfig>, n: NodeConfig)
    ensures Uris(nodes + [n]) == Uris(nodes) + [n.uri]
  {
  }

  lemma {:induction false} ParseLinesConcat(a: seq<string>, b: seq<string>, accepts: Acceptor)
    ensures ParseLines(a + b, accepts) == ParseLines(a, accepts) + ParseLines(b, accepts)
    decreases |a|
  {
    if a == [] {
      assert a + b == b;
    } else {
      assert (a + b)[1..] == a[1..] + b;
      ParseLinesConcat(a[1..], b, accepts);
    }
  }

  lemma ParseLinesSnoc(lines: seq<string>, i: nat, accepts: Acceptor)
    requires i < |lines|
    ensures ParseLines(lines[..i + 1], accepts)
         == ParseLines(lines[..i], accepts) + ParseLine(lines[i], accepts)
  {
    assert lines[..i + 1] == lines[..i] + [lines[i]];
    ParseLinesConcat(lines[..i], [lines[i]], accepts);
    assert [lines[i]][1..] == [];
  }

  method ParseNodesFromContent(content: string, accepts: Acceptor) returns (nodes: seq<NodeConfig>)
    ensures Uris(nodes) == ParseText(content, accepts)
    ensures forall n :: n in nodes ==> n == NodeConfig("", n.uri, 0, "", "", Unset)
  {
    nodes := [];
    var lines := Split(content, '\n');
    for i := 0 to |lines|
      invariant Uris(nodes) == ParseLines(lines[..i], accepts)
      invariant forall n :: n in nodes ==> n == NodeConfig("", n.uri, 0, "", "", Unset)
    {
      ParseLinesSnoc(lines, i, accepts);
      var line := TrimSpace(lines[i]);
      if line == "" || HasPrefix(line, "#") {
        continue;
      }
      if accepts(line) {
        UrisSnoc(nodes, NodeConfig("", line, 0, "", "", Unset));
        nodes := nodes + [NodeConfig("", line, 0, "", "", Unset)];
      }
    }
    assert lines[..|lines|] == lines;
  }

  method NodesFileText(nodes: seq<NodeConfig>) returns (content: string)
    ensures content == PrintText(Uris(nodes))
  {
    var lines := [];
    for i := 0 to |nodes|
      invariant lines == Uris(nodes)[..i]
    {
      lines := lines + [nodes[i].uri];
    }
    assert lines == Uris(nodes);
    content := Join(lines, "\n");
    if |lines| > 0 {
      content := content + "\n";
    }
  }

  /** Whatever the text, only well-formed lines come out of it. */
  lemma {:induction false} ParsedLinesAreNodeLines(lines: seq<string>, accepts: Acceptor)
    requires forall l :: l in lines ==> '\n' !in l
    ensures AreNodeLines(ParseLines(lines, accepts), accepts)
    decreases |lines|
  {
    if lines != [] {
      ParsedLinesAreNodeLines(lines[1..], accepts);
      TrimSpaceTrims(lines[0]);
    }
  }

  lemma ParseYieldsNodeLines(content: string, accepts: Acceptor)
    ensures AreNodeLines(ParseText(content, accepts), accepts)
  {
    SplitPieces(content, '\n');
    ParsedLinesAreNodeLines(Split(content, '\n'), accepts);
  }

  lemma {:induction false} ParseOwnLines(uris: seq<string>, accepts: Acceptor)
    requires AreNodeLines(uris, accepts)
    ensures ParseLines(uris, accepts) == uris
    decreases |uris|
  {
    if uris != [] {
      assert uris[0] in uris;
      TrimSpaceTrims(uris[0]);
      ParseOwnLines(uris[1..], accepts);
    }
  }

  lemma {:induction false} SplitPrinted(uris: seq<string>)
    requires forall u :: u in uris ==> '\n' !in u
    ensures Split(PrintText(uris), '\n') == uris + [""]
    decreases |uris|
  {
    if uris == [] {
      assert uris + [""] == [""];
    } else if |uris| == 1 {
      assert PrintText(uris) == uris[0] + ['\n'] + "";
      SplitAtSeparator(uris[0], '\n', "");
    } else {
      assert PrintText(uris) == uris[0] + ['\n'] + PrintText(uris[1..]);
      SplitAtSeparator(uris[0], '\n', PrintText(uris[1..]));
      SplitPrinted(uris[1..]);
    }
  }

  /** Reading back a written file gives, of the written URIs, those the reader accepts. */
  lemma ParsePrinted(uris: seq<string>, accepts: Acceptor)
    requires forall u :: u in uris ==> '\n' !in u
    ensures ParseText(PrintText(uris), accepts) == ParseLines(uris, accepts)
  {
    SplitPrinted(uris);
    ParseLinesConcat(uris, [""], accepts);
    assert ParseLine("", accepts) == [];
    assert [""][1..] == [];
  }

  /** Writing then reading is the identity on exactly the lists of well-formed lines. */
  lemma PrintParseRoundTrip(uris: seq<string>, accepts: Acceptor)
    ensures ParseText(PrintText(uris), accepts) == uris <==> AreNodeLines(uris, accepts)
  {
    if AreNodeLines(uris, accepts) {
      ParsePrinted(uris, accepts);
      ParseOwnLines(uris, accepts);
    }
    ParseYieldsNodeLines(PrintText(uris), accepts);
  }

  /** Reading, writing and reading again gives what the first reading gave, for any text. */
  lemma ParsePrintParse(content: string, accepts: Acceptor)
    ensures var uris := ParseText(content, accepts); ParseText(PrintText(uris), accepts) == uris
  {
    ParseYieldsNodeLines(content, accepts);
    PrintParseRoundTrip(ParseText(content, accepts), accepts);
  }

  /** The text whose hash identifies a node list (`computeNodesHash`). */
  function HashInput(uris: seq<string>): string {
    Join(uris, "\n")
  }

  lemma HashInputEmpty(uris: seq<string>)
    requires forall u :: u in uris ==> u != ""
    ensures HashInput(uris) == "" <==> uris == []
  {
    if uris != [] {
      assert uris[0] in uris;
    }
  }

  lemma HashInputInjective(a: seq<string>, b: seq<string>)
    requires forall u :: u in a || u in b ==> u != "" && '\n' !in u
    requires HashInput(a) == HashInput(b)
    ensures a == b
  {
    HashInputEmpty(a);
    HashInputEmpty(b);
    if a != [] && b != [] {
      SplitJoin(a, '\n');
      SplitJoin(b, '\n');
    }
  }

  /** Reading back what was written for `uris`, keeping only what `accepts`, gives the same
      hash input exactly when every one of them survives the reading. */
  lemma RereadHashIff(uris: seq<string>, accepts: Acceptor)
    requires forall u :: u in uris ==> u != "" && '\n' !in u
    ensures HashInput(ParseText(PrintText(uris), accepts)) == HashInput(uris) <==> AreNodeLines(uris, accepts)
  {
    var reread := ParseText(PrintText(uris), accepts);
    PrintParseRoundTrip(uris, accepts);
    if HashInput(reread) == HashInput(uris) {
      ParseYieldsNodeLines(PrintText(uris), accepts);
      HashInputInjective(reread, uris);
    }
  }

  // The text, character by character.

  lemma {:induction false} SplitConcat(a: string, b: string, sep: char)
    ensures Split(a + [sep] + b, sep) == Split(a, sep) + Split(b, sep)
    decreases |a|
  {
    var s := a + [sep] + b;
    if a == "" {
      assert s[1..] == b;
    } else {
      assert s[1..] == a[1..] + [sep] + b;
      SplitConcat(a[1..], b, sep);
    }
  }

  /** The lines of a text are read one by one. */
  lemma ParsedByLines(a: string, b: string, accepts: Acceptor)
    ensures ParseText(a + "\n" + b, accepts) == ParseText(a, accepts) + ParseText(b, accepts)
  {
    SplitConcat(a, b, '\n');
    ParseLinesConcat(Split(a, '\n'), Split(b, '\n'), accepts);
    assert a + ['\n'] + b == a + "\n" + b;
  }

  lemma SoleLine(line: string, accepts: Acceptor)
    requires '\n' !in line
    ensures ParseText(line, accepts) == ParseLine(line, accepts)
  {
    SplitWithoutSeparator(line, '\n');
    assert [line][1..] == [];
  }

  /** A line that is a URI between white space, such as the carriage return of a line that ends
      with two characters, gives that URI if it is accepted and does not begin with `#`. */
  lemma PaddedLine(front: string, uri: string, back: string, accepts: Acceptor)
    requires forall i :: 0 <= i < |front| ==> IsSpace(front[i]) && front[i] != '\n'
    requires forall i :: 0 <= i < |back| ==> IsSpace(back[i]) && back[i] != '\n'
    requires uri != "" && IsTrimmed(uri) && '\n' !in uri
    ensures ParseText(front + uri + back, accepts) == if uri[0] != '#' && accepts(uri) then [uri] else []
  {
    hide TrimSpace, ParseText;
    assert '\n' !in front && '\n' !in back;
    SoleLine(front + uri + back, accepts);
    PaddingIsCut(front, uri, back);
    assert HasPrefix(uri, "#") <==> uri[0] == '#';
  }

  /** A line of white space gives nothing. */
  lemma BlankLine(line: string, accepts: Acceptor)
    requires forall i :: 0 <= i < |line| ==> IsSpace(line[i]) && line[i] != '\n'
    ensures ParseText(line, accepts) == []
  {
    hide TrimSpace, ParseText;
    assert '\n' !in line;
    SoleLine(line, accepts);
    BlankIsCut(line);
  }

  /** Texts that end their lines with a carriage return and a newline read like those that end
      them with a newline. */
  lemma CarriageReturnIsHarmless(uri: string, rest: string, accepts: Acceptor)
    requires uri != "" && IsTrimmed(uri) && '\n' !in uri
    ensures ParseText(uri + "\r\n" + rest, accepts) == ParseText(uri + "\n" + rest, accepts)
  {
    hide ParseText;
    ParsedByLines(uri + "\r", rest, accepts);
    ParsedByLines(uri, rest, accepts);
    PaddedLine("", uri, "\r", accepts);
    PaddedLine("", uri, "", accepts);
    assert "" + uri + "\r" == uri + "\r" && "" + uri + "" == uri;
    assert "\r" + "\n" == "\r\n";
    assert uri + "\r" + "\n" + rest == uri + ("\r" + "\n") + rest;
  }

  lemma SocksIsNotShort(s: string)
    requires exists scheme :: scheme in ["socks://", "socks5://", "socks4://", "socks4a://"] && HasPrefix(s, scheme)
    ensures forall scheme :: scheme in SUBSCRIPTION_SCHEMES ==> !HasPrefix(s, scheme)
  {
    assert |s| > 1 && s[0] == 's' && s[1] == 'o';
    forall scheme | scheme in SUBSCRIPTION_SCHEMES
      ensures !HasPrefix(s, scheme)
    {
      assert scheme[0] != 's' || scheme[1] == 's';
    }
  }

  /** A text has one of the schemes when its first characters, in lower case, spell it. */
  lemma SchemeIgnoresCase(s: string, schemes: seq<string>)
    ensures HasScheme(s, schemes) <==>
      exists scheme :: scheme in schemes && |scheme| <= |s| &&
        forall i :: 0 <= i < |scheme| ==> LowerChar(s[i]) == scheme[i]
  {
    forall scheme | scheme in schemes
      ensures HasPrefix(ToLower(s), scheme) <==>
        |scheme| <= |s| && forall i :: 0 <= i < |scheme| ==> LowerChar(s[i]) == scheme[i]
    {
      var lower := ToLower(s);
      if |scheme| <= |s| && forall i :: 0 <= i < |scheme| ==> LowerChar(s[i]) == scheme[i] {
        assert lower[..|scheme|] == scheme;
      }
      if HasPrefix(lower, scheme) {
        assert forall i :: 0 <= i < |scheme| ==> lower[i] == scheme[i];
      }
    }
  }

  /** What separates the two readers: exactly the socks proxies, in any spelling of their
      scheme, and the http and https ones whose address will do, are accepted by the
      configuration's reader and not by the subscription manager's. */
  lemma ReadersDifferIff(s: string, endpointOk: Acceptor)
    ensures SubscriptionAccepts(s) ==> ConfigAccepts(s, endpointOk)
    ensures ConfigAccepts(s, endpointOk) && !SubscriptionAccepts(s) <==>
      || HasScheme(s, ["socks://", "socks5://", "socks4://", "socks4a://"])
      || (HasScheme(TrimSpace(s), ["http://", "https://"]) && endpointOk(TrimSpace(s)) && !SubscriptionAccepts(s))
  {
    hide TrimSpace, ToLower;
    forall scheme | scheme in SUBSCRIPTION_SCHEMES
      ensures scheme in CONFIG_SCHEMES
    {
    }
    if HasScheme(s, ["socks://", "socks5://", "socks4://", "socks4a://"]) {
      SocksIsNotShort(ToLower(s));
    }
  }

  /** Every URI is written followed by a newline, and nothing else is. */
  lemma PrintedByLines(uris: seq<string>, uri: string)
    ensures PrintText([]) == "" && PrintText([uri] + uris) == uri + "\n" + PrintText(uris)
  {
    var all := [uri] + uris;
    assert all[1..] == uris;
    if uris == [] {
      assert uri + "\n" + "" == uri + "\n";
    } else {
      assert Join(all, "\n") == uri + "\n" + Join(uris, "\n");
      assert uri + "\n" + Join(uris, "\n") + "\n" == uri + "\n" + (Join(uris, "\n") + "\n");
    }
  }
}
