/** Entities shared by every component: nodes, ports, optional values. */
module Types {

  datatype Option<+T> = None | Some(value: T)

  datatype Result<+T, +E> = Ok(value: T) | Err(error: E)

  /** A `uint16` port number; 0 stands for "not assigned". */
  type Port = p: int | 0 <= p < 0x1_0000

  datatype NodeSource = Unset | Inline | NodesFile | Subscription

  /** One upstream proxy; its URI is its identity across reloads. */
  datatype NodeConfig = NodeConfig(
    name: string,
    uri: string,
    port: Port,
    username: string,
    password: string,
    source: NodeSource)

  function Uris(nodes: seq<NodeConfig>): (r: seq<string>)
    ensures |r| == |nodes|
  {
    seq(|nodes|, i requires 0 <= i < |nodes| => nodes[i].uri)
  }

  /** The position of the first occurrence of `x`, or -1. */
  function IndexOf<T(==)>(xs: seq<T>, x: T): (r: int)
    ensures -1 <= r < |xs|
    ensures r == -1 <==> x !in xs
    ensures r >= 0 ==> xs[r] == x && forall k :: 0 <= k < r ==> xs[k] != x
  {
    if xs == [] then -1
    else if xs[0] == x then 0
    else
      var r := IndexOf(xs[1..], x);
      if r == -1 then -1 else r + 1
  }

  ghost predicate Distinct<T>(xs: seq<T>) {
    forall i, j :: 0 <= i < j < |xs| ==> xs[i] != xs[j]
  }
}
