/** The network as the sender sees it (sender.go, sendOnce and read). A
    connection, a write and a read either fail or hand back the bytes the
    collector answered; which of these happens is decided by an oracle that
    knows the host, the request and how many exchanges came before. */
module Transport {
  import opened Wrappers
  import opened Packets
  import opened Responses

  /** What one exchange with a collector yields. */
  datatype Wire =
    | NoConnection            // net.DialTimeout failed
    | WriteFailure            // conn.Write failed
    | ReadFailure             // io.ReadAll failed
    | Bytes(data: seq<Byte>)  // everything the collector sent before closing

  /** The parts of the world the sender cannot see into: the JSON encoder and
      decoder, and the collectors at the other end of the network. respond is
      given the index of the exchange, so the same host may answer differently
      on a later call. */
  datatype Oracle = Oracle(
    marshal: Packet -> seq<Byte>,
    unmarshal: seq<Byte> -> Option<Response>,
    respond: (string, seq<Byte>, nat) -> Wire)

  /** One attempt to reach a host with a request. */
  datatype Contact = Contact(host: string, request: seq<Byte>)

  /** The kinds of error the sender reports, in place of the formatted texts. */
  datatype SendError =
    | ConnectError(host: string)
    | WriteError(host: string)
    | ReadError(host: string)
    | ResponseTooShort(host: string, length: nat)
    | InvalidHeader(header: seq<Byte>)
    | InvalidJson(host: string)
    | AttemptFailed(host: string, cause: SendError)         // sendOnce failed inside sendWithRedirects
    | FailedWithoutRedirect(host: string, response: string)
    | InvalidRedirect(address: string)
    | MaxRedirectsExceeded(startHost: string)
    | AllHostsFailed(count: nat)
    | SendingPacket(cause: SendError)                       // RegisterHost passing on an error of Send
    | AutoregistrationFailed
}
