/** Noticing that the nodes file was edited: a hash and a modification time remembered from
    the last refresh, start-up or check. */
module NodesWatch {
  import opened Types
  import opened NodesFile

  /** The file as a check finds it; `content` is None when it cannot be read. */
  datatype File = File(time: int, content: Option<string>)

  /** The hash is kept as the text it is computed from; None before anything was hashed. */
  datatype Watch = Watch(hash: Option<string>, time: int)

  function Narrow(): Acceptor {
    u => SubscriptionAccepts(u)
  }

  /** The hash of a text, as start-up and the checks compute it: with the shorter list of
      schemes. */
  function HashOf(content: string): string {
    HashInput(ParseText(content, Narrow()))
  }

  /** After a refresh has written `uris`, leaving the file with modification time `time`. */
  function AfterRefresh(uris: seq<string>, time: int): Watch {
    Watch(Some(HashInput(uris)), time)
  }

  /** After start-up found `file`. */
  function AfterStart(w: Watch, file: Option<File>): Watch {
    if file.None? || file.value.content.None? then w
    else Watch(Some(HashOf(file.value.content.value)), file.value.time)
  }

  /** The hash is looked at only when the file is newer than the remembered time. */
  predicate Reads(w: Watch, file: Option<File>) {
    w.hash.Some? && file.Some? && file.value.time > w.time && file.value.content.Some?
  }

  predicate Reports(w: Watch, file: Option<File>) {
    Reads(w, file) && HashOf(file.value.content.value) != w.hash.value
  }

  /** A check that reads the file remembers its time, but not its hash. */
  function AfterCheck(w: Watch, file: Option<File>): Watch {
    if Reads(w, file) then w.(time := file.value.time) else w
  }

  class NodesWatcher {
    var lastHash: Option<string>
    var lastTime: int

    /** `New`: nothing remembered, then whatever the file shows. */
    constructor (file: Option<File>)
      ensures View() == AfterStart(Watch(None, 0), file)
    {
      lastHash, lastTime := None, 0;
      new;
      InitFromFile(file);
    }

    function View(): Watch
      reads this
    {
      Watch(lastHash, lastTime)
    }

    method InitFromFile(file: Option<File>)
      modifies this
      ensures View() == AfterStart(old(View()), file)
    {
      if file.None? || file.value.content.None? {
        return;
      }
      var nodes := ParseNodesFromContent(file.value.content.value, Narrow());
      lastHash, lastTime := Some(HashInput(Uris(nodes))), file.value.time;
    }

    /** The refresh's record of the file it has just written. */
    method RecordRefresh(nodes: seq<NodeConfig>, time: int)
      modifies this
      ensures View() == AfterRefresh(Uris(nodes), time)
    {
      lastHash, lastTime := Some(HashInput(Uris(nodes))), time;
    }

    method CheckNodesModified(file: Option<File>) returns (changed: bool)
      modifies this
      ensures changed == Reports(old(View()), file)
      ensures View() == AfterCheck(old(View()), file)
    {
      if lastHash.None? || file.None? {
        return false;
      }
      if file.value.time <= lastTime || file.value.content.None? {
        return false;
      }
      var nodes := ParseNodesFromContent(file.value.content.value, Narrow());
      changed := HashInput(Uris(nodes)) != lastHash.value;
      lastTime := file.value.time;
    }
  }

  // What the answers mean.

  function ChecksOf(w: Watch, files: seq<Option<File>>): Watch {
    if files == [] then w else AfterCheck(ChecksOf(w, files[..|files| - 1]), files[|files| - 1])
  }

  lemma {:induction false} ChecksMoveForward(w: Watch, files: seq<Option<File>>)
    ensures ChecksOf(w, files).time >= w.time && ChecksOf(w, files).hash == w.hash
    decreases |files|
  {
    if files != [] {
      ChecksMoveForward(w, files[..|files| - 1]);
    }
  }

  /** A file no newer than what was recorded is never reported, whatever is in it and
      whatever was checked in between. */
  lemma UnchangedTimeIsQuiet(w: Watch, between: seq<Option<File>>, file: Option<File>)
    requires file.Some? ==> file.value.time <= w.time
    ensures !Reports(ChecksOf(w, between), file)
    ensures AfterCheck(ChecksOf(w, between), file) == ChecksOf(w, between)
  {
    ChecksMoveForward(w, between);
  }

  /** Rewriting the file with the very URIs the refresh wrote, as saving an edited node
      does, is reported exactly when the file is newer and some URI does not survive the
      reading with the shorter scheme list. */
  lemma RewriteReportedIff(uris: seq<string>, time: int, later: int)
    requires forall u :: u in uris ==> u != "" && '\n' !in u
    ensures Reports(AfterRefresh(uris, time), Some(File(later, Some(PrintText(uris))))) <==>
      later > time && exists u :: u in uris && !IsNodeLine(u, Narrow())
  {
    RereadHashIff(uris, Narrow());
  }

  /** For URIs the configuration's own reader accepts, that is one whose scheme is not in
      the shorter list, such as a socks or http proxy. */
  lemma AcceptedRewriteReportedIff(uris: seq<string>, time: int, later: int, endpointOk: Acceptor)
    requires AreNodeLines(uris, u => ConfigAccepts(u, endpointOk))
    ensures Reports(AfterRefresh(uris, time), Some(File(later, Some(PrintText(uris))))) <==>
      later > time && exists u :: u in uris && !SubscriptionAccepts(u)
  {
    RewriteReportedIff(uris, time, later);
    forall u | u in uris
      ensures IsNodeLine(u, Narrow()) <==> SubscriptionAccepts(u)
    {
      assert IsNodeLine(u, v => ConfigAccepts(v, endpointOk));
    }
  }

  /** After start-up the same rewriting is never reported: both hashes use the shorter list. */
  lemma RewriteAfterStartIsQuiet(w: Watch, content: string, time: int, later: int)
    ensures !Reports(AfterStart(w, Some(File(time, Some(content)))), Some(File(later, Some(content))))
  {
  }

  /** A change is reported by one check only: the check that finds it remembers the time
      but not the new hash, and no later check of the same file reports it again. */
  lemma ReportedOnce(w: Watch, file: Option<File>, between: seq<Option<File>>)
    requires Reports(w, file)
    ensures !Reports(ChecksOf(AfterCheck(w, file), between), file)
  {
    UnchangedTimeIsQuiet(AfterCheck(w, file), between, file);
  }

  /** The forgotten change comes back with the next writing, even one that changes nothing
      more: any newer file whose hash still differs is reported. */
  lemma ReportedAgainIff(w: Watch, file: Option<File>, between: seq<Option<File>>, later: int)
    requires Reports(w, file)
    ensures var now := ChecksOf(AfterCheck(w, file), between);
      Reports(now, Some(File(later, file.value.content))) <==> later > now.time
  {
    ChecksMoveForward(AfterCheck(w, file), between);
  }

  /** After start-up an edit is reported exactly when the file is newer and holds another list
      of URIs, as the shorter list of schemes has it. */
  lemma EditAfterStartReportedIff(content: string, time: int, edited: string, later: int)
    ensures Reports(AfterStart(Watch(None, 0), Some(File(time, Some(content)))), Some(File(later, Some(edited)))) <==>
      later > time && ParseText(edited, Narrow()) != ParseText(content, Narrow())
  {
    ParseYieldsNodeLines(content, Narrow());
    ParseYieldsNodeLines(edited, Narrow());
    if HashOf(edited) == HashOf(content) {
      HashInputInjective(ParseText(edited, Narrow()), ParseText(content, Narrow()));
    }
  }

  /** After a refresh that wrote `uris`, exactly when it is newer and does not hold those. */
  lemma EditAfterRefreshReportedIff(uris: seq<string>, time: int, edited: string, later: int)
    requires forall u :: u in uris ==> u != "" && '\n' !in u
    ensures Reports(AfterRefresh(uris, time), Some(File(later, Some(edited)))) <==>
      later > time && ParseText(edited, Narrow()) != uris
  {
    ParseYieldsNodeLines(edited, Narrow());
    if HashOf(edited) == HashInput(uris) {
      HashInputInjective(ParseText(edited, Narrow()), uris);
    }
  }
}
