/**
 * The wire structures of the local-WLAN (UDS) service
 * (src/core/hle/service/nwm/nwm_uds.h): the packet and status codes, and
 * the byte images of `NodeInfo`, `ConnectionStatus` and `NetworkInfo`.
 * Each structure is a datatype of its fields with a function that lays it
 * out as the C++ struct is laid out in memory, and a function that reads
 * the fields back from such an image. Padding is written as zeros and
 * ignored when read.
 */
module NwmUds {
  import opened Bytes
  import opened Wrappers

  const ApplicationDataSize: nat := 0xC8
  /** The maximum number of nodes in one UDS session. */
  const UDSMaxNodes: nat := 16

  // ------------------------------------------------------------------ codes

  /** `WifiPacket::PacketType`, stored in a `u8`. */
  datatype PacketType =
    | Beacon | Data | Authentication | AssociationResponse | Deauthentication | NodeMap
    | MacAddress

  function PacketTypeCode(t: PacketType): (b: byte)
    ensures b <= 5 <==> t != MacAddress
  {
    match t
    case Beacon => 0
    case Data => 1
    case Authentication => 2
    case AssociationResponse => 3
    case Deauthentication => 4
    case NodeMap => 5
    case MacAddress => 255
  }

  function PacketTypeOf(b: byte): (r: Option<PacketType>)
    ensures r.Some? <==> b <= 5 || b == 255
  {
    if b == 0 then Some(Beacon)
    else if b == 1 then Some(Data)
    else if b == 2 then Some(Authentication)
    else if b == 3 then Some(AssociationResponse)
    else if b == 4 then Some(Deauthentication)
    else if b == 5 then Some(NodeMap)
    else if b == 255 then Some(MacAddress)
    else None
  }

  /** Each packet type has its own code, and reading a code back gives the type. */
  lemma PacketTypeCodes(t: PacketType, b: byte)
    ensures PacketTypeOf(PacketTypeCode(t)) == Some(t)
    ensures PacketTypeOf(b) == Some(t) <==> PacketTypeCode(t) == b
  {
  }

  datatype NetworkStatus =
    | NotConnected | ConnectedAsHost | Connecting | ConnectedAsClient | ConnectedAsSpectator

  function NetworkStatusCode(s: NetworkStatus): (c: bv32)
    ensures c in {3, 6, 7, 9, 10}
  {
    match s
    case NotConnected => 3
    case ConnectedAsHost => 6
    case Connecting => 7
    case ConnectedAsClient => 9
    case ConnectedAsSpectator => 10
  }

  function NetworkStatusOf(c: bv32): (r: Option<NetworkStatus>)
    ensures r.Some? <==> c in {3, 6, 7, 9, 10}
  {
    if c == 3 then Some(NotConnected)
    else if c == 6 then Some(ConnectedAsHost)
    else if c == 7 then Some(Connecting)
    else if c == 9 then Some(ConnectedAsClient)
    else if c == 10 then Some(ConnectedAsSpectator)
    else None
  }

  lemma NetworkStatusCodes(s: NetworkStatus, c: bv32)
    ensures NetworkStatusOf(NetworkStatusCode(s)) == Some(s)
    ensures NetworkStatusOf(c) == Some(s) <==> NetworkStatusCode(s) == c
  {
  }

  /** The source's `None` is `NoChange` here, as `None` already names an empty `Option`. */
  datatype NetworkStatusChangeReason = NoChange | ConnectionEstablished | ConnectionLost

  function ChangeReasonCode(r: NetworkStatusChangeReason): (c: bv32)
    ensures c in {0, 1, 4}
  {
    match r
    case NoChange => 0
    case ConnectionEstablished => 1
    case ConnectionLost => 4
  }

  function ChangeReasonOf(c: bv32): (r: Option<NetworkStatusChangeReason>)
    ensures r.Some? <==> c in {0, 1, 4}
  {
    if c == 0 then Some(NoChange)
    else if c == 1 then Some(ConnectionEstablished)
    else if c == 4 then Some(ConnectionLost)
    else None
  }

  lemma ChangeReasonCodes(r: NetworkStatusChangeReason, c: bv32)
    ensures ChangeReasonOf(ChangeReasonCode(r)) == Some(r)
    ensures ChangeReasonOf(c) == Some(r) <==> ChangeReasonCode(r) == c
  {
  }

  // ------------------------------------------------------ arrays of u16_le

  function Zeros(n: nat): (b: seq<byte>)
    ensures |b| == n && forall i :: 0 <= i < n ==> b[i] == 0
  {
    seq(n, i => 0)
  }

  /** The image of an array of `u16_le`. */
  function Le16s(xs: seq<bv16>): (b: seq<byte>)
    ensures |b| == 2 * |xs|
  {
    if xs == [] then [] else Le16(xs[0]) + Le16s(xs[1..])
  }

  /** The array of `n` `u16_le` values stored at `i`. */
  function ReadLe16s(b: seq<byte>, i: nat, n: nat): (xs: seq<bv16>)
    requires i + 2 * n <= |b|
    decreases n
    ensures |xs| == n
  {
    if n == 0 then [] else [ReadLe16(b, i)] + ReadLe16s(b, i + 2, n - 1)
  }

  /** Reading an array image gives the array back, wherever the image sits. */
  lemma {:induction false} ReadLe16sOfImage(b: seq<byte>, i: nat, xs: seq<bv16>)
    requires i + 2 * |xs| <= |b| && b[i..i + 2 * |xs|] == Le16s(xs)
    decreases |xs|
    ensures ReadLe16s(b, i, |xs|) == xs
  {
    if xs != [] {
      var img := Le16s(xs);
      assert img == Le16(xs[0]) + Le16s(xs[1..]);
      assert b[i..i + 2] == img[..2];
      StoresInjective(0, 0, ReadLe16(b, i), xs[0]);
      assert b[i + 2..i + 2 + 2 * |xs[1..]|] == img[2..];
      ReadLe16sOfImage(b, i + 2, xs[1..]);
    }
  }

  /** The image of what was read is what was there. */
  lemma {:induction false} Le16sOfRead(b: seq<byte>, i: nat, n: nat)
    requires i + 2 * n <= |b|
    decreases n
    ensures Le16s(ReadLe16s(b, i, n)) == b[i..i + 2 * n]
  {
    if n > 0 {
      var xs := ReadLe16s(b, i, n);
      assert xs[1..] == ReadLe16s(b, i + 2, n - 1);
      Le16sOfRead(b, i + 2, n - 1);
      assert b[i..i + 2 * n] == b[i..i + 2] + b[i + 2..i + 2 * n];
    }
  }

  // --------------------------------------------------------------- NodeInfo

  const NodeInfoSize: nat := 40
  const UsernameLength: nat := 10

  type Username = s: seq<bv16> | |s| == UsernameLength witness [0, 0, 0, 0, 0, 0, 0, 0, 0, 0]

  /** The fields of a `NodeInfo`. */
  datatype NodeFields = NodeFields(friendCodeSeed: bv64, username: Username, networkNodeId: bv16)

  const ZeroNode: NodeFields := NodeFields(0, [0, 0, 0, 0, 0, 0, 0, 0, 0, 0], 0)

  /**
   * The 40-byte image: the seed at 0, the ten username units at 8, four
   * bytes of padding, the node id at 32 and six bytes of padding.
   */
  function NodeInfoBytes(n: NodeFields): (b: seq<byte>)
    ensures |b| == NodeInfoSize
  {
    Le64(n.friendCodeSeed) + Le16s(n.username) + Zeros(4) + Le16(n.networkNodeId) + Zeros(6)
  }

  function ReadNodeInfo(b: seq<byte>): NodeFields
    requires |b| == NodeInfoSize
  {
    NodeFields(ReadLe64(b, 0), ReadLe16s(b, 8, UsernameLength), ReadLe16(b, 32))
  }

  /** Where each field of the image is. */
  lemma NodeInfoLayout(n: NodeFields)
    ensures var b := NodeInfoBytes(n);
      && b[0..8] == Le64(n.friendCodeSeed)
      && b[8..28] == Le16s(n.username)
      && b[28..32] == Zeros(4)
      && b[32..34] == Le16(n.networkNodeId)
      && b[34..40] == Zeros(6)
  {
  }

  /** Reading an image of a node gives the node back. */
  lemma ReadNodeInfoOfBytes(n: NodeFields)
    ensures ReadNodeInfo(NodeInfoBytes(n)) == n
  {
    var b := NodeInfoBytes(n);
    NodeInfoLayout(n);
    ReadOfStore(0, 0, n.friendCodeSeed);
    ReadOfStore(n.networkNodeId, 0, 0);
    ReadLe16sOfImage(b, 8, n.username);
  }

  /** The image of what was read agrees with the bytes everywhere but in the padding. */
  lemma NodeInfoBytesOfRead(b: seq<byte>)
    requires |b| == NodeInfoSize
    ensures var r := NodeInfoBytes(ReadNodeInfo(b));
      r[0..28] == b[0..28] && r[32..34] == b[32..34]
  {
    var n := ReadNodeInfo(b);
    NodeInfoLayout(n);
    Le16sOfRead(b, 8, UsernameLength);
    var r := NodeInfoBytes(n);
    assert r[0..28] == r[0..8] + r[8..28];
    assert b[0..28] == b[0..8] + b[8..28];
  }

  /** A `NodeInfo` whose fields `Reset` updates in place. */
  class NodeInfo {
    var friendCodeSeed: bv64
    const username: array<bv16>
    var networkNodeId: bv16

    ghost predicate Valid()
      reads this
    {
      username.Length == UsernameLength
    }

    function Fields(): (f: NodeFields)
      requires Valid()
      reads this, username
      ensures f.username == username[..]
    {
      NodeFields(friendCodeSeed, username[..], networkNodeId)
    }

    constructor (seed: bv64, name: Username, id: bv16)
      ensures Valid() && fresh(username)
      ensures Fields() == NodeFields(seed, name, id)
    {
      friendCodeSeed := seed;
      networkNodeId := id;
      username := new bv16[UsernameLength](i requires 0 <= i < UsernameLength => name[i]);
    }

    /** Zeroes the seed, every unit of the username and the node id. */
    method Reset()
      requires Valid()
      modifies this, username
      ensures Valid() && Fields() == ZeroNode
    {
      friendCodeSeed := 0;
      forall i | 0 <= i < username.Length {
        username[i] := 0;
      }
      networkNodeId := 0;
      assert username[..] == ZeroNode.username;
    }
  }

  /** A reset node is written as 40 zero bytes. */
  lemma ZeroNodeBytes()
    ensures NodeInfoBytes(ZeroNode) == Zeros(NodeInfoSize)
  {
    var b := NodeInfoBytes(ZeroNode);
    NodeInfoLayout(ZeroNode);
    assert Le16s(ZeroNode.username) == Zeros(20);
    forall i | 0 <= i < NodeInfoSize ensures b[i] == 0 {
      if i < 8 { assert b[i] == b[0..8][i]; }
      else if i < 28 { assert b[i] == b[8..28][i - 8]; }
      else if i < 32 { assert b[i] == b[28..32][i - 28]; }
      else if i < 34 { assert b[i] == b[32..34][i - 32]; }
      else { assert b[i] == b[34..40][i - 34]; }
    }
  }

  // ------------------------------------------------------- ConnectionStatus

  const ConnectionStatusSize: nat := 0x30

  type NodeSlots = s: seq<bv16> | |s| == UDSMaxNodes
    witness [0, 0, 0, 0, 0, 0, 0, 0, 0, 0, 0, 0, 0, 0, 0, 0]

  /** The fields of a `ConnectionStatus`: one node slot per possible node. */
  datatype ConnectionStatus = ConnectionStatus(
    status: bv32, statusChangeReason: bv32, networkNodeId: bv16, changedNodes: bv16,
    nodes: NodeSlots, totalNodes: byte, maxNodes: byte, nodeBitmask: bv16)

  /** The 12 bytes before the node slots: status, reason, node id, changed nodes. */
  function StatusHeader(c: ConnectionStatus): (b: seq<byte>)
    ensures |b| == 0xC
  {
    Le32(c.status) + Le32(c.statusChangeReason) + Le16(c.networkNodeId) + Le16(c.changedNodes)
  }

  /** The 4 bytes after the node slots: the two counts and the node bitmask. */
  function StatusTrailer(c: ConnectionStatus): (b: seq<byte>)
    ensures |b| == 4
  {
    [c.totalNodes, c.maxNodes] + Le16(c.nodeBitmask)
  }

  /** The 0x30-byte image; the node slots are at 0xC. */
  function ConnectionStatusBytes(c: ConnectionStatus): (b: seq<byte>)
    ensures |b| == ConnectionStatusSize
  {
    StatusHeader(c) + Le16s(c.nodes) + StatusTrailer(c)
  }

  function ReadConnectionStatus(b: seq<byte>): ConnectionStatus
    requires |b| == ConnectionStatusSize
  {
    ConnectionStatus(ReadLe32(b, 0), ReadLe32(b, 4), ReadLe16(b, 8), ReadLe16(b, 0xA),
                     ReadLe16s(b, 0xC, UDSMaxNodes), b[0x2C], b[0x2D], ReadLe16(b, 0x2E))
  }

  lemma StatusHeaderLayout(c: ConnectionStatus)
    ensures var h := StatusHeader(c);
      && h[0..4] == Le32(c.status) && h[4..8] == Le32(c.statusChangeReason)
      && h[8..0xA] == Le16(c.networkNodeId) && h[0xA..0xC] == Le16(c.changedNodes)
  {
    var h := StatusHeader(c);
    var s8 := Le32(c.status) + Le32(c.statusChangeReason);
    assert h == s8 + Le16(c.networkNodeId) + Le16(c.changedNodes);
    assert h[0..8] == s8;
    assert s8[0..4] == Le32(c.status) && s8[4..8] == Le32(c.statusChangeReason);
  }

  lemma ConnectionStatusLayout(c: ConnectionStatus)
    ensures var b := ConnectionStatusBytes(c);
      && b[0..4] == Le32(c.status)
      && b[4..8] == Le32(c.statusChangeReason)
      && b[8..0xA] == Le16(c.networkNodeId)
      && b[0xA..0xC] == Le16(c.changedNodes)
      && b[0xC..0x2C] == Le16s(c.nodes)
      && b[0x2C] == c.totalNodes && b[0x2D] == c.maxNodes
      && b[0x2E..0x30] == Le16(c.nodeBitmask)
  {
    var b := ConnectionStatusBytes(c);
    var h := StatusHeader(c);
    var t := StatusTrailer(c);
    StatusHeaderLayout(c);
    assert b[0..0xC] == h && b[0x2C..0x30] == t;
    assert b[0..4] == h[0..4] && b[4..8] == h[4..8];
    assert b[8..0xA] == h[8..0xA] && b[0xA..0xC] == h[0xA..0xC];
    assert b[0x2E..0x30] == t[2..4];
  }

  lemma ReadConnectionStatusOfBytes(c: ConnectionStatus)
    ensures ReadConnectionStatus(ConnectionStatusBytes(c)) == c
  {
    var b := ConnectionStatusBytes(c);
    ConnectionStatusLayout(c);
    StoresInjective(ReadLe32(b, 0), c.status, ReadLe16(b, 8), c.networkNodeId);
    StoresInjective(ReadLe32(b, 4), c.statusChangeReason, ReadLe16(b, 0xA), c.changedNodes);
    StoresInjective(0, 0, ReadLe16(b, 0x2E), c.nodeBitmask);
    ReadLe16sOfImage(b, 0xC, c.nodes);
  }

  /** The structure has no padding: the image of what was read is the bytes read. */
  lemma ConnectionStatusBytesOfRead(b: seq<byte>)
    requires |b| == ConnectionStatusSize
    ensures ConnectionStatusBytes(ReadConnectionStatus(b)) == b
  {
    Le16sOfRead(b, 0xC, UDSMaxNodes);
    ImageOfAgreeing(ReadConnectionStatus(b), b);
  }

  /** A status whose every field image matches the bytes at its offset has those bytes as its image. */
  lemma ImageOfAgreeing(c: ConnectionStatus, b: seq<byte>)
    requires |b| == ConnectionStatusSize
    requires b[0..4] == Le32(c.status) && b[4..8] == Le32(c.statusChangeReason)
    requires b[8..0xA] == Le16(c.networkNodeId) && b[0xA..0xC] == Le16(c.changedNodes)
    requires b[0xC..0x2C] == Le16s(c.nodes)
    requires b[0x2C] == c.totalNodes && b[0x2D] == c.maxNodes
    requires b[0x2E..0x30] == Le16(c.nodeBitmask)
    ensures ConnectionStatusBytes(c) == b
  {
    var r := ConnectionStatusBytes(c);
    ConnectionStatusLayout(c);
    assert r[0x2C..0x2E] == b[0x2C..0x2E];
    AgreeJoin(r, b, 0, 4, 8);
    AgreeJoin(r, b, 0, 8, 0xA);
    AgreeJoin(r, b, 0, 0xA, 0xC);
    AgreeJoin(r, b, 0, 0xC, 0x2C);
    AgreeJoin(r, b, 0, 0x2C, 0x2E);
    AgreeJoin(r, b, 0, 0x2E, 0x30);
    assert r == r[0..0x30] && b == b[0..0x30];
  }

  // ------------------------------------------------------------ NetworkInfo

  const NetworkInfoSize: nat := 0x108

  type MacAddress = s: seq<byte> | |s| == 6 witness [0, 0, 0, 0, 0, 0]
  type Oui = s: seq<byte> | |s| == 3 witness [0, 0, 0]
  type ApplicationData = s: seq<byte> | |s| == ApplicationDataSize witness Zeros(ApplicationDataSize)

  /**
   * The fields of a `NetworkInfo`. `wlanCommId`, `attributes` and
   * `networkId` are big-endian on the wire; the rest are bytes.
   */
  datatype NetworkInfo = NetworkInfo(
    hostMacAddress: MacAddress, channel: byte, initialized: byte, ouiValue: Oui, ouiType: byte,
    wlanCommId: bv32, id: byte, attributes: bv16, networkId: bv32,
    totalNodes: byte, maxNodes: byte, applicationDataSize: byte,
    applicationData: ApplicationData)

  /** Bytes 0 to 0xB: the host's MAC address, the channel and the initialized flag. */
  function NetworkHost(n: NetworkInfo): (b: seq<byte>)
    ensures |b| == 0xC
  {
    n.hostMacAddress + [n.channel, 0, n.initialized, 0, 0, 0]
  }

  /** Bytes 0xC to 0x1F: the OUI, the ids, the attributes and the node counts. */
  function NetworkIds(n: NetworkInfo): (b: seq<byte>)
    ensures |b| == 0x14
  {
    n.ouiValue + [n.ouiType] + Be32(n.wlanCommId) + [n.id, 0] + Be16(n.attributes)
    + Be32(n.networkId) + [n.totalNodes, n.maxNodes, 0, 0]
  }

  /** The 0x108-byte image; the application data starts at 0x40. */
  function NetworkInfoBytes(n: NetworkInfo): (b: seq<byte>)
    ensures |b| == NetworkInfoSize
  {
    NetworkHost(n) + NetworkIds(n) + (Zeros(0x1F) + [n.applicationDataSize]) + n.applicationData
  }

  function ReadNetworkInfo(b: seq<byte>): NetworkInfo
    requires |b| == NetworkInfoSize
  {
    NetworkInfo(b[0..6], b[6], b[8], b[0xC..0xF], b[0xF], ReadBe32(b, 0x10), b[0x14],
                ReadBe16(b, 0x16), ReadBe32(b, 0x18), b[0x1C], b[0x1D], b[0x3F], b[0x40..0x108])
  }

  lemma NetworkIdsLayout(n: NetworkInfo)
    ensures var d := NetworkIds(n);
      && d[0..3] == n.ouiValue && d[3] == n.ouiType
      && d[4..8] == Be32(n.wlanCommId) && d[8] == n.id
      && d[0xA..0xC] == Be16(n.attributes) && d[0xC..0x10] == Be32(n.networkId)
      && d[0x10] == n.totalNodes && d[0x11] == n.maxNodes
  {
    var d := NetworkIds(n);
    var front := n.ouiValue + [n.ouiType] + Be32(n.wlanCommId) + [n.id, 0] + Be16(n.attributes);
    assert d == front + Be32(n.networkId) + [n.totalNodes, n.maxNodes, 0, 0];
    assert d[0..0xC] == front;
  }

  /** Where each field of the image is: `oui_value` at 0xC and `wlan_comm_id` at 0x10. */
  lemma NetworkInfoLayout(n: NetworkInfo)
    ensures var b := NetworkInfoBytes(n);
      && b[0..6] == n.hostMacAddress && b[6] == n.channel && b[8] == n.initialized
      && b[0xC..0xF] == n.ouiValue && b[0xF] == n.ouiType
      && b[0x10..0x14] == Be32(n.wlanCommId) && b[0x14] == n.id
      && b[0x16..0x18] == Be16(n.attributes) && b[0x18..0x1C] == Be32(n.networkId)
      && b[0x1C] == n.totalNodes && b[0x1D] == n.maxNodes
      && b[0x3F] == n.applicationDataSize
      && b[0x40..0x108] == n.applicationData
  {
    var b := NetworkInfoBytes(n);
    var d := NetworkIds(n);
    NetworkIdsLayout(n);
    assert b[0..0xC] == NetworkHost(n) && b[0xC..0x20] == d;
    assert b[0xC..0xF] == d[0..3] && b[0x10..0x14] == d[4..8];
    assert b[0x16..0x18] == d[0xA..0xC] && b[0x18..0x1C] == d[0xC..0x10];
  }

  lemma ReadNetworkInfoOfBytes(n: NetworkInfo)
    ensures ReadNetworkInfo(NetworkInfoBytes(n)) == n
  {
    var b := NetworkInfoBytes(n);
    NetworkInfoLayout(n);
    StoresInjective(ReadBe32(b, 0x10), n.wlanCommId, ReadBe16(b, 0x16), n.attributes);
    StoresInjective(ReadBe32(b, 0x18), n.networkId, 0, 0);
  }

  /**
   * The image of what was read agrees with the bytes everywhere but in the
   * padding (bytes 7, 9 to 0xB, 0x15 and 0x1E to 0x3E).
   */
  lemma NetworkInfoBytesOfRead(b: seq<byte>)
    requires |b| == NetworkInfoSize
    ensures var r := NetworkInfoBytes(ReadNetworkInfo(b));
      && r[0..7] == b[0..7] && r[8] == b[8] && r[0xC..0x15] == b[0xC..0x15]
      && r[0x16..0x1E] == b[0x16..0x1E] && r[0x3F..0x108] == b[0x3F..0x108]
  {
    NetworkInfoAgreeing(ReadNetworkInfo(b), b);
  }

  /** A description whose every field matches the bytes at its offset has an image that agrees with them. */
  lemma NetworkInfoAgreeing(n: NetworkInfo, b: seq<byte>)
    requires |b| == NetworkInfoSize
    requires b[0..6] == n.hostMacAddress && b[6] == n.channel && b[8] == n.initialized
    requires b[0xC..0xF] == n.ouiValue && b[0xF] == n.ouiType
    requires b[0x10..0x14] == Be32(n.wlanCommId) && b[0x14] == n.id
    requires b[0x16..0x18] == Be16(n.attributes) && b[0x18..0x1C] == Be32(n.networkId)
    requires b[0x1C] == n.totalNodes && b[0x1D] == n.maxNodes
    requires b[0x3F] == n.applicationDataSize && b[0x40..0x108] == n.applicationData
    ensures var r := NetworkInfoBytes(n);
      && r[0..7] == b[0..7] && r[8] == b[8] && r[0xC..0x15] == b[0xC..0x15]
      && r[0x16..0x1E] == b[0x16..0x1E] && r[0x3F..0x108] == b[0x3F..0x108]
  {
    var r := NetworkInfoBytes(n);
    NetworkInfoLayout(n);
    assert r[6..7] == b[6..7] && r[0xF..0x10] == b[0xF..0x10] && r[0x14..0x15] == b[0x14..0x15];
    assert r[0x1C..0x1E] == b[0x1C..0x1E] && r[0x3F..0x40] == b[0x3F..0x40];
    AgreeJoin(r, b, 0, 6, 7);
    AgreeJoin(r, b, 0xC, 0xF, 0x10);
    AgreeJoin(r, b, 0xC, 0x10, 0x14);
    AgreeJoin(r, b, 0xC, 0x14, 0x15);
    AgreeJoin(r, b, 0x16, 0x18, 0x1C);
    AgreeJoin(r, b, 0x16, 0x1C, 0x1E);
    AgreeJoin(r, b, 0x3F, 0x40, 0x108);
  }
}
