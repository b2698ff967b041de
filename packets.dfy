/** The request envelope and its wire framing (packet.go, and the buffer that
    sendOnce in sender.go assembles): a 5-byte header, an 8-byte little-endian
    length, then the JSON body. */
module Packets {
  import opened Wrappers
  import opened Zabbix

  type Byte = b: int | 0 <= b < 256

  /** "ZBXD" followed by the protocol version 1 (getHeader). */
  const Header: seq<Byte> := [0x5A, 0x42, 0x58, 0x44, 0x01]

  /** Header plus the 8-byte length field. */
  const PrefixLength: nat := 13

  /** The length is written with PutUint32, so it is taken modulo 2^32. */
  const Uint32Modulus: nat := 0x1_0000_0000

  /** The request envelope. Clock, ns, host and hostMetadata are 0 or empty
      when unset, which the JSON encoding omits. */
  datatype Packet = Packet(request: string, data: seq<Metric>, clock: int, ns: int,
                           host: string, hostMetadata: string)

  /** NewPacket: the mode tag follows agentActive, the metrics are kept as
      given, and the optional batch timestamp is Go's variadic t. */
  function NewPacket(data: seq<Metric>, agentActive: bool, t: seq<Time>): (p: Packet)
    ensures p.request == (if agentActive then "agent data" else "sender data")
    ensures p.data == data
    ensures |t| == 0 ==> p.clock == 0 && p.ns == 0
    ensures |t| > 0 ==> p.clock == t[0].unix && p.ns == t[0].nanosecond
    ensures p.host == "" && p.hostMetadata == ""
  {
    var request := if agentActive then "agent data" else "sender data";
    var p := Packet(request, data, 0, 0, "", "");
    if |t| > 0 then p.(clock := t[0].unix, ns := t[0].nanosecond) else p
  }

  // ---------------------------------------------------------------------------
  // Little-endian integers

  function Pow256(width: nat): (r: nat)
    ensures r >= 1
  {
    if width == 0 then 1 else 256 * Pow256(width - 1)
  }

  /** The low width bytes of n, least significant first. */
  function LittleEndian(n: nat, width: nat): (b: seq<Byte>)
    ensures |b| == width
  {
    if width == 0 then [] else [n % 256] + LittleEndian(n / 256, width - 1)
  }

  /** The number that little-endian bytes denote (binary.LittleEndian.Uint64 for 8 bytes). */
  function FromLittleEndian(b: seq<Byte>): nat
  {
    if b == [] then 0 else b[0] + 256 * FromLittleEndian(b[1..])
  }

  /** Encoding a number that fits and decoding it again gives it back. */
  lemma {:induction false} LittleEndianRoundTrip(n: nat, width: nat)
    requires n < Pow256(width)
    ensures FromLittleEndian(LittleEndian(n, width)) == n
  {
    if width > 0 {
      LittleEndianRoundTrip(n / 256, width - 1);
      var b := LittleEndian(n, width);
      assert b[1..] == LittleEndian(n / 256, width - 1);
    }
  }

  /** Trailing zero bytes do not change the value. */
  lemma {:induction false} FromLittleEndianZeros(b: seq<Byte>, zeros: nat)
    ensures FromLittleEndian(b + Zeros(zeros)) == FromLittleEndian(b)
  {
    if b == [] {
      ZerosValue(zeros);
      assert b + Zeros(zeros) == Zeros(zeros);
    } else {
      FromLittleEndianZeros(b[1..], zeros);
      assert (b + Zeros(zeros))[1..] == b[1..] + Zeros(zeros);
    }
  }

  function Zeros(n: nat): (z: seq<Byte>)
    ensures |z| == n && forall k :: 0 <= k < n ==> z[k] == 0
  {
    seq(n, _ => 0)
  }

  lemma {:induction false} ZerosValue(n: nat)
    ensures FromLittleEndian(Zeros(n)) == 0
  {
    if n > 0 {
      ZerosValue(n - 1);
      assert Zeros(n)[1..] == Zeros(n - 1);
    }
  }

  /** The four bytes PutUint32 writes are the 4-byte little-endian encoding. */
  lemma LittleEndianBytes(v: nat)
    ensures LittleEndian(v, 4) == [v % 256, v / 0x100 % 256, v / 0x1_0000 % 256, v / 0x100_0000 % 256]
  {
    assert v / 256 / 256 == v / 0x1_0000;
    assert v / 0x1_0000 / 256 == v / 0x100_0000;
    assert LittleEndian(v / 0x100_0000, 1) == [v / 0x100_0000 % 256];
    assert LittleEndian(v / 0x1_0000, 2) == [v / 0x1_0000 % 256, v / 0x100_0000 % 256];
    assert LittleEndian(v / 0x100, 3) == [v / 0x100 % 256, v / 0x1_0000 % 256, v / 0x100_0000 % 256];
  }

  // ---------------------------------------------------------------------------
  // DataLen and the request frame

  /** DataLen: an 8-byte buffer into which the length of the packet's JSON
      encoding is written as a 32-bit little-endian number, so that the top
      four bytes stay zero. marshal stands for encoding/json. */
  method DataLen(p: Packet, marshal: Packet -> seq<Byte>) returns (dataLen: seq<Byte>)
    ensures |dataLen| == 8
    ensures dataLen[..4] == LittleEndian(|marshal(p)| % Uint32Modulus, 4)
    ensures dataLen[4..] == Zeros(4)
    ensures FromLittleEndian(dataLen) == |marshal(p)| % Uint32Modulus
  {
    var buffer := new Byte[8](_ => 0);
    var v := |marshal(p)| % Uint32Modulus;
    // binary.LittleEndian.PutUint32
    buffer[0] := v % 256;
    buffer[1] := v / 0x100 % 256;
    buffer[2] := v / 0x1_0000 % 256;
    buffer[3] := v / 0x100_0000 % 256;
    dataLen := buffer[..];
    LittleEndianBytes(v);
    assert dataLen[..4] == LittleEndian(v, 4);
    assert dataLen[4..] == Zeros(4);
    assert dataLen == dataLen[..4] + Zeros(4);
    FromLittleEndianZeros(dataLen[..4], 4);
    LittleEndianRoundTrip(v, 4);
  }

  /** The bytes sendOnce writes for a JSON body: header, DataLen, body. */
  function RequestFrame(json: seq<Byte>): seq<Byte>
  {
    Header + LittleEndian(|json| % Uint32Modulus, 4) + Zeros(4) + json
  }

  /** The frame's layout: header at 0..5, the length at 5..13, the body from 13. */
  lemma RequestFrameLayout(json: seq<Byte>)
    ensures var f := RequestFrame(json);
      && |f| == PrefixLength + |json|
      && f[..5] == Header
      && f[13..] == json
      && FromLittleEndian(f[5..13]) == |json| % Uint32Modulus
  {
    var f := RequestFrame(json);
    var len := LittleEndian(|json| % Uint32Modulus, 4);
    assert f[5..13] == len + Zeros(4);
    FromLittleEndianZeros(len, 4);
    LittleEndianRoundTrip(|json| % Uint32Modulus, 4);
  }

  /** How a receiver reads a request, as the test suite's mock collector does:
      5 header bytes, an 8-byte little-endian length, then exactly that many
      body bytes. */
  function ReadRequest(frame: seq<Byte>): Option<seq<Byte>>
  {
    if |frame| < PrefixLength then None
    else
      var n := FromLittleEndian(frame[5..13]);
      if |frame| - PrefixLength < n then None else Some(frame[13..13 + n])
  }

  /** A body shorter than 4 GiB is read back exactly; a longer one is not,
      because its length was truncated to 32 bits. */
  lemma RequestFrameRoundTrip(json: seq<Byte>)
    ensures |json| < Uint32Modulus ==> ReadRequest(RequestFrame(json)) == Some(json)
    ensures |json| >= Uint32Modulus ==> ReadRequest(RequestFrame(json)) != Some(json)
  {
    RequestFrameLayout(json);
    var f := RequestFrame(json);
    var n := |json| % Uint32Modulus;
    assert f[13..13 + n] == f[13..][..n] == json[..n];
    if |json| < Uint32Modulus {
      assert n == |json|;
      assert json[..n] == json;
    }
  }
}
