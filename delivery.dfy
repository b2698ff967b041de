/** What the sender does with the network, stated as functions (sender.go):
    the checks on one answer (sendOnce), the redirect loop (sendWithRedirects),
    the cached host and the fall-back over the host list (Send), the split of a
    batch by mode (SendMetrics) and host autoregistration (RegisterHost). Each
    layer is stated over the one below it taken as a function value: the
    redirect loop over what sendOnce reports (Replies), Send over what the
    redirect loop yields (Loops). The methods of Senders.Sender are proved to
    compute exactly these. */
module Delivery {
  import opened Wrappers
  import opened Zabbix
  import opened Packets
  import opened Responses
  import opened Transport

  /** A Go result pair (Response, error): the response is visible beside the error. */
  datatype Outcome = Outcome(res: Response, err: Option<SendError>)

  /** The pair of a sub-batch that was never sent: a zero Response and no error. */
  const Idle := Outcome(ZeroResponse, None)

  /** The request bytes of a packet. */
  function Frame(o: Oracle, p: Packet): seq<Byte>
  {
    RequestFrame(o.marshal(p))
  }

  // ---------------------------------------------------------------------------
  // sendOnce: one exchange

  /** The checks sendOnce applies to the outcome of an exchange: a
      connection, a write and a read that work, at least 13 bytes, the
      "ZBXD\x01" header, and a body from byte 13 on that decodes; each
      failing check has its own error. The 8-byte length field is never
      looked at. */
  function Receive(host: string, wire: Wire, unmarshal: seq<Byte> -> Option<Response>): (o: Outcome)
    ensures o.err.None? <==>
      && wire.Bytes? && |wire.data| >= PrefixLength && wire.data[..5] == Header
      && unmarshal(wire.data[PrefixLength..]).Some?
    ensures o.err.None? ==> o.res == unmarshal(wire.data[PrefixLength..]).value
    ensures o.err.Some? ==> o.res == ZeroResponse
    ensures wire.NoConnection? ==> o.err == Some(ConnectError(host))
    ensures wire.WriteFailure? ==> o.err == Some(WriteError(host))
    ensures wire.ReadFailure? ==> o.err == Some(ReadError(host))
    ensures wire.Bytes? && |wire.data| < PrefixLength ==> o.err == Some(ResponseTooShort(host, |wire.data|))
    ensures wire.Bytes? && |wire.data| >= PrefixLength && wire.data[..5] != Header ==>
      o.err == Some(InvalidHeader(wire.data[..5]))
    ensures (wire.Bytes? && |wire.data| >= PrefixLength && wire.data[..5] == Header
             && unmarshal(wire.data[PrefixLength..]).None?) ==> o.err == Some(InvalidJson(host))
  {
    match wire
    case NoConnection => Outcome(ZeroResponse, Some(ConnectError(host)))
    case WriteFailure => Outcome(ZeroResponse, Some(WriteError(host)))
    case ReadFailure => Outcome(ZeroResponse, Some(ReadError(host)))
    case Bytes(b) =>
      if |b| < PrefixLength then Outcome(ZeroResponse, Some(ResponseTooShort(host, |b|)))
      else if b[..5] != Header then Outcome(ZeroResponse, Some(InvalidHeader(b[..5])))
      else match unmarshal(b[PrefixLength..])
        case None => Outcome(ZeroResponse, Some(InvalidJson(host)))
        case Some(r) => Outcome(r, None)
  }

  /** Two answers that agree on the header and on the body are treated alike,
      whatever their length fields say. */
  lemma ReceiveIgnoresLength(host: string, a: seq<Byte>, b: seq<Byte>, unmarshal: seq<Byte> -> Option<Response>)
    requires |a| >= PrefixLength && |b| >= PrefixLength
    requires a[..5] == b[..5] && a[PrefixLength..] == b[PrefixLength..]
    ensures Receive(host, Bytes(a), unmarshal) == Receive(host, Bytes(b), unmarshal)
  {
  }

  /** The answer a collector writes (header, the body length as an 8-byte
      little-endian number, the body) is accepted with the decoded body. */
  lemma ReceiveResponseFrame(host: string, json: seq<Byte>, unmarshal: seq<Byte> -> Option<Response>)
    requires unmarshal(json).Some?
    ensures Receive(host, Bytes(Header + LittleEndian(|json|, 8) + json), unmarshal) == Outcome(unmarshal(json).value, None)
  {
    var prefix := Header + LittleEndian(|json|, 8);
    var b := prefix + json;
    assert |prefix| == PrefixLength;
    assert b[..5] == prefix[..5] == Header;
    assert b[PrefixLength..] == json;
  }

  /** What the collector's answer to the n-th exchange means. */
  function ReplyAt(o: Oracle, host: string, frame: seq<Byte>, n: nat): Outcome
  {
    Receive(host, o.respond(host, frame, n), o.unmarshal)
  }

  /** What sendOnce reports when it sends a request to a host as the n-th
      exchange. */
  type Replies = (string, seq<Byte>, nat) -> Outcome

  /** The replies of an oracle's collectors. */
  function RepliesOf(o: Oracle): Replies
  {
    (host: string, frame: seq<Byte>, n: nat) => ReplyAt(o, host, frame, n)
  }

  // ---------------------------------------------------------------------------
  // sendWithRedirects: the redirect loop

  /** What a run of exchanges produced, and the exchanges it made in order. */
  datatype Run = Run(outcome: Outcome, contacts: seq<Contact>)

  /** How a round of sendWithRedirects ends: the loop stops with an
      outcome, or follows a redirect to the next host. */
  datatype Step = Stop(outcome: Outcome) | Follow(next: string)

  /** What sendWithRedirects makes of the result of one sendOnce to host: a
      failed exchange, a "success", a refusal without redirect address, or a
      redirect address without a ':' ends the loop, each with its own
      error; any other refusal names the next host. The response is kept in
      every case. */
  function Round(host: string, once: Outcome): (s: Step)
    ensures s.Follow? <==>
      && once.err.None? && once.res.response != "success" && once.res.redirect.Some?
      && ':' in once.res.redirect.value.address
    ensures s.Follow? ==> s.next == once.res.redirect.value.address
    ensures s.Stop? ==> s.outcome.res == once.res
    ensures s.Stop? ==> (s.outcome.err.None? <==> once.err.None? && once.res.response == "success")
    ensures s.Stop? && once.err.Some? ==> s.outcome.err == Some(AttemptFailed(host, once.err.value))
    ensures (once.err.None? && once.res.response != "success"
             && (once.res.redirect.None? || once.res.redirect.value.address == "")) ==>
      s == Stop(Outcome(once.res, Some(FailedWithoutRedirect(host, once.res.response))))
    ensures (once.err.None? && once.res.response != "success" && once.res.redirect.Some?
             && once.res.redirect.value.address != "" && ':' !in once.res.redirect.value.address) ==>
      s == Stop(Outcome(once.res, Some(InvalidRedirect(once.res.redirect.value.address))))
  {
    if once.err.Some? then Stop(Outcome(once.res, Some(AttemptFailed(host, once.err.value))))
    else if once.res.response == "success" then Stop(once)
    else if once.res.redirect.None? || once.res.redirect.value.address == "" then
      Stop(Outcome(once.res, Some(FailedWithoutRedirect(host, once.res.response))))
    else match ParseHostPort(once.res.redirect.value.address)
      case None => Stop(Outcome(once.res, Some(InvalidRedirect(once.res.redirect.value.address))))
      case Some(next) => Follow(next)
  }

  /** The loop of sendWithRedirects from round count on, at host current,
      with n exchanges made before and last the response of the previous
      round. After round max the loop gives up. */
  function Chain(reply: Replies, frame: seq<Byte>, start: string, current: string, count: nat, max: int,
                 n: nat, last: Response): Run
    decreases if count <= max then max - count + 1 else 0
  {
    if count > max then Run(Outcome(last, Some(MaxRedirectsExceeded(start))), [])
    else
      var once := reply(current, frame, n);
      match Round(current, once)
      case Stop(outcome) => Run(outcome, [Contact(current, frame)])
      case Follow(next) =>
        var rest := Chain(reply, frame, start, next, count + 1, max, n + 1, once.res);
        Run(rest.outcome, [Contact(current, frame)] + rest.contacts)
  }

  /** sendWithRedirects(packet, start) with n exchanges made before. */
  function Redirects(reply: Replies, frame: seq<Byte>, start: string, max: int, n: nat): Run
  {
    Chain(reply, frame, start, start, 0, max, n, ZeroResponse)
  }

  /** What the loop of sendWithRedirects yields from a given round on: the
      request, the start host, the current host, the round, the limit, the
      exchanges made before and the last response. */
  type Chains = (seq<Byte>, string, string, nat, int, nat, Response) -> Run

  /** The loops over the given replies, from any round on. */
  function ChainsOf(reply: Replies): Chains
  {
    (frame: seq<Byte>, start: string, current: string, count: nat, max: int, n: nat, last: Response) =>
      Chain(reply, frame, start, current, count, max, n, last)
  }

  /** The number of rounds left from round count on. */
  function RoundsLeft(count: nat, max: int): nat
  {
    if count <= max then max - count + 1 else 0
  }

  /** The shape of a run of the loop: at most one exchange per round left, the
      first one with the current host, every one carrying the same request;
      it gives up only after using every round, and succeeds only on a
      "success" answer, which is then the answer it returns. */
  lemma {:induction false} ChainShape(reply: Replies, frame: seq<Byte>, start: string, current: string, count: nat,
                                      max: int, n: nat, last: Response)
    ensures var run := Chain(reply, frame, start, current, count, max, n, last);
      && |run.contacts| <= RoundsLeft(count, max)
      && (count <= max ==> |run.contacts| >= 1 && run.contacts[0].host == current)
      && (forall j :: 0 <= j < |run.contacts| ==> run.contacts[j].request == frame)
      && (run.outcome.err == Some(MaxRedirectsExceeded(start)) ==> |run.contacts| == RoundsLeft(count, max))
      && (run.outcome.err.None? ==>
            && |run.contacts| >= 1 && run.outcome.res.response == "success"
            && run.outcome == reply(run.contacts[|run.contacts| - 1].host, frame, n + |run.contacts| - 1))
    decreases RoundsLeft(count, max)
  {
    var run := Chain(reply, frame, start, current, count, max, n, last);
    if count <= max {
      var once := reply(current, frame, n);
      if Round(current, once).Follow? {
        var next := once.res.redirect.value.address;
        var rest := Chain(reply, frame, start, next, count + 1, max, n + 1, once.res);
        ChainShape(reply, frame, start, next, count + 1, max, n + 1, once.res);
        assert run.contacts == [Contact(current, frame)] + rest.contacts;
        if run.outcome.err.None? {
          assert run.contacts[|run.contacts| - 1] == rest.contacts[|rest.contacts| - 1];
        }
      }
    }
  }

  /** The j-th of a sequence of exchanges, made after n others, was answered
      without error by a refusal whose redirect address holds a ':', and the
      next exchange went to that address. */
  predicate Redirected(reply: Replies, frame: seq<Byte>, contacts: seq<Contact>, n: nat, j: nat)
    requires j + 1 < |contacts|
  {
    var r := reply(contacts[j].host, frame, n + j);
    && r.err.None? && r.res.response != "success" && r.res.redirect.Some?
    && contacts[j + 1].host == r.res.redirect.value.address
    && ':' in contacts[j + 1].host
  }

  /** Every exchange but the last was answered, without error, by a refusal
      whose redirect address holds a ':', and the next exchange went to that
      address. So a failed exchange, a refusal without redirect, or a redirect
      without a port ends the loop at once. Conversely a redirect that can be
      followed is followed: the last answer is one only when every round was
      used. */
  lemma ChainFollows(reply: Replies, frame: seq<Byte>, start: string, current: string, count: nat,
                     max: int, n: nat, last: Response)
    ensures var run := Chain(reply, frame, start, current, count, max, n, last);
      && (forall j :: 0 <= j < |run.contacts| - 1 ==> Redirected(reply, frame, run.contacts, n, j))
      && (run.contacts != [] ==>
            var k := |run.contacts| - 1;
            Round(run.contacts[k].host, reply(run.contacts[k].host, frame, n + k)).Follow? ==>
              |run.contacts| == RoundsLeft(count, max))
  {
    ChainRedirected(reply, frame, start, current, count, max, n, last);
    ChainLast(reply, frame, start, current, count, max, n, last);
    ChainShape(reply, frame, start, current, count, max, n, last);
  }

  /** Every exchange of a run but the last was a followed redirect. */
  lemma {:induction false} ChainRedirected(reply: Replies, frame: seq<Byte>, start: string, current: string,
                                           count: nat, max: int, n: nat, last: Response)
    ensures var run := Chain(reply, frame, start, current, count, max, n, last);
      forall j :: 0 <= j < |run.contacts| - 1 ==> Redirected(reply, frame, run.contacts, n, j)
    decreases RoundsLeft(count, max)
  {
    var run := Chain(reply, frame, start, current, count, max, n, last);
    if count <= max {
      var once := reply(current, frame, n);
      if Round(current, once).Follow? {
        var next := once.res.redirect.value.address;
        var rest := Chain(reply, frame, start, next, count + 1, max, n + 1, once.res);
        ChainRedirected(reply, frame, start, next, count + 1, max, n + 1, once.res);
        ChainShape(reply, frame, start, next, count + 1, max, n + 1, once.res);
        assert run.contacts == [Contact(current, frame)] + rest.contacts;
        forall j | 0 <= j < |run.contacts| - 1
          ensures Redirected(reply, frame, run.contacts, n, j)
        {
          if j == 0 {
            assert run.contacts[0].host == current && run.contacts[1] == rest.contacts[0];
          } else {
            assert Redirected(reply, frame, rest.contacts, n + 1, j - 1);
            assert run.contacts[j] == rest.contacts[j - 1] && run.contacts[j + 1] == rest.contacts[j];
            assert n + j == n + 1 + (j - 1);
          }
        }
      } else {
        assert |run.contacts| == 1;
      }
    }
  }

  /** The loop always returns the response of its last exchange (the
      previous one when it made none), and a failed exchange is reported,
      wrapped, as the error. It ends without error exactly when the last
      answer is a "success", and it gives up on the limit exactly when the
      last answer is a redirect it would follow. */
  lemma ChainLast(reply: Replies, frame: seq<Byte>, start: string, current: string, count: nat,
                  max: int, n: nat, last: Response)
    ensures var run := Chain(reply, frame, start, current, count, max, n, last);
      && (run.contacts == [] ==> run.outcome == Outcome(last, Some(MaxRedirectsExceeded(start))))
      && (run.contacts != [] ==>
            var k := |run.contacts| - 1;
            var r := reply(run.contacts[k].host, frame, n + k);
            && run.outcome.res == r.res
            && (r.err.Some? ==> run.outcome.err == Some(AttemptFailed(run.contacts[k].host, r.err.value)))
            && (run.outcome.err.None? <==> r.err.None? && r.res.response == "success")
            && (Round(run.contacts[k].host, r).Follow? <==> run.outcome.err == Some(MaxRedirectsExceeded(start))))
  {
    ChainAnswer(reply, frame, start, current, count, max, n, last);
    ChainVerdict(reply, frame, start, current, count, max, n, last);
  }

  /** The response and the failed exchange a run reports come from its last
      exchange. */
  lemma {:induction false} ChainAnswer(reply: Replies, frame: seq<Byte>, start: string, current: string, count: nat,
                                       max: int, n: nat, last: Response)
    ensures var run := Chain(reply, frame, start, current, count, max, n, last);
      && (run.contacts == [] ==> run.outcome == Outcome(last, Some(MaxRedirectsExceeded(start))))
      && (run.contacts != [] ==>
            var k := |run.contacts| - 1;
            var r := reply(run.contacts[k].host, frame, n + k);
            && run.outcome.res == r.res
            && (r.err.Some? ==> run.outcome.err == Some(AttemptFailed(run.contacts[k].host, r.err.value))))
    decreases RoundsLeft(count, max)
  {
    var run := Chain(reply, frame, start, current, count, max, n, last);
    if count <= max {
      var once := reply(current, frame, n);
      var step := Round(current, once);
      if step.Follow? {
        var rest := Chain(reply, frame, start, step.next, count + 1, max, n + 1, once.res);
        ChainAnswer(reply, frame, start, step.next, count + 1, max, n + 1, once.res);
        assert run == Run(rest.outcome, [Contact(current, frame)] + rest.contacts);
        if rest.contacts != [] {
          var k := |run.contacts| - 1;
          assert run.contacts[k] == rest.contacts[k - 1];
          assert n + k == n + 1 + (k - 1);
        } else {
          assert |run.contacts| == 1 && run.contacts[0].host == current;
        }
      } else {
        assert run == Run(step.outcome, [Contact(current, frame)]);
      }
    }
  }

  /** A run ends without error exactly when its last answer is a "success",
      and gives up on the limit exactly when its last answer is a redirect
      that would be followed. */
  lemma {:induction false} ChainVerdict(reply: Replies, frame: seq<Byte>, start: string, current: string, count: nat,
                                        max: int, n: nat, last: Response)
    ensures var run := Chain(reply, frame, start, current, count, max, n, last);
      run.contacts != [] ==>
        var k := |run.contacts| - 1;
        var r := reply(run.contacts[k].host, frame, n + k);
        && (run.outcome.err.None? <==> r.err.None? && r.res.response == "success")
        && (Round(run.contacts[k].host, r).Follow? <==> run.outcome.err == Some(MaxRedirectsExceeded(start)))
    decreases RoundsLeft(count, max)
  {
    var run := Chain(reply, frame, start, current, count, max, n, last);
    if count <= max {
      var once := reply(current, frame, n);
      var step := Round(current, once);
      if step.Follow? {
        var rest := Chain(reply, frame, start, step.next, count + 1, max, n + 1, once.res);
        ChainVerdict(reply, frame, start, step.next, count + 1, max, n + 1, once.res);
        assert run == Run(rest.outcome, [Contact(current, frame)] + rest.contacts);
        if rest.contacts != [] {
          var k := |run.contacts| - 1;
          assert run.contacts[k] == rest.contacts[k - 1];
          assert n + k == n + 1 + (k - 1);
        } else {
          assert |run.contacts| == 1 && run.contacts[0].host == current;
          assert run.outcome.err == Some(MaxRedirectsExceeded(start));
        }
      } else {
        assert run == Run(step.outcome, [Contact(current, frame)]);
      }
    }
  }

  /** sendWithRedirects makes at most MaxRedirects+1 exchanges, none when
      MaxRedirects is negative, starts with the start host, and reports
      success only for a "success" answer. */
  lemma RedirectsBounded(reply: Replies, frame: seq<Byte>, start: string, max: int, n: nat)
    ensures var run := Redirects(reply, frame, start, max, n);
      && (max < 0 ==> run.contacts == [] && run.outcome == Outcome(ZeroResponse, Some(MaxRedirectsExceeded(start))))
      && (max >= 0 ==> 1 <= |run.contacts| <= max + 1 && run.contacts[0].host == start)
      && (run.outcome.err.None? ==> run.outcome.res.response == "success")
      && (run.outcome.err == Some(MaxRedirectsExceeded(start)) ==> |run.contacts| == RoundsLeft(0, max))
      && (run.contacts != [] ==>
            var k := |run.contacts| - 1;
            var r := reply(run.contacts[k].host, frame, n + k);
            && (run.outcome.err.None? <==> r.err.None? && r.res.response == "success")
            && (Round(run.contacts[k].host, r).Follow? <==> run.outcome.err == Some(MaxRedirectsExceeded(start))))
  {
    ChainShape(reply, frame, start, start, 0, max, n, ZeroResponse);
    ChainLast(reply, frame, start, start, 0, max, n, ZeroResponse);
  }

  /** A proxy group that redirects the first m exchanges to "proxy:10051"
      and accepts every later one. */
  function RedirectFirst(m: nat): Replies
  {
    (host: string, frame: seq<Byte>, n: nat) =>
      if n < m then Outcome(Response("failed", "", Some(RedirectInfo(1, "proxy:10051"))), None)
      else Outcome(Response("success", "", None), None)
  }

  /** Against such a group, up to MaxRedirects redirects followed by a
      "success" end in success after m+1 exchanges, while MaxRedirects+1 or
      more redirects end in the limit error after MaxRedirects+1 exchanges. */
  lemma RedirectLimit(frame: seq<Byte>, start: string, max: nat, m: nat)
    ensures var run := Redirects(RedirectFirst(m), frame, start, max, 0);
      m <= max ==> run.outcome.err.None? && |run.contacts| == m + 1
    ensures var run := Redirects(RedirectFirst(m), frame, start, max, 0);
      m > max ==> run.outcome.err == Some(MaxRedirectsExceeded(start)) && |run.contacts| == max + 1
  {
    var reply := RedirectFirst(m);
    var run := Redirects(reply, frame, start, max, 0);
    RedirectsBounded(reply, frame, start, max, 0);
    assert "proxy:10051"[5] == ':';
    var k := |run.contacts| - 1;
    var host := run.contacts[k].host;
    if k < m {
      assert Round(host, reply(host, frame, k)).Follow?;
    } else {
      assert reply(host, frame, k).res.response == "success";
      ChainFollows(reply, frame, start, start, 0, max, 0, ZeroResponse);
      assert m < k ==> !Redirected(reply, frame, run.contacts, 0, m);
    }
  }

  // ---------------------------------------------------------------------------
  // The redirect loop as Send sees it

  /** What sendWithRedirects yields for a request, a start host and a redirect
      limit, with n exchanges made before. */
  type Loops = (seq<Byte>, string, int, nat) -> Run

  /** The redirect loops over the given replies. */
  function LoopsOf(reply: Replies): Loops
  {
    (frame: seq<Byte>, start: string, max: int, n: nat) => Redirects(reply, frame, start, max, n)
  }

  /** What Send relies on about one redirect loop: every exchange carries the
      request, the first goes to the start host unless the limit is negative,
      and no error means a "success" answer. */
  predicate LoopShape(run: Run, frame: seq<Byte>, start: string, max: int)
  {
    && (forall j :: 0 <= j < |run.contacts| ==> run.contacts[j].request == frame)
    && (max >= 0 ==> |run.contacts| >= 1 && run.contacts[0].host == start)
    && (run.outcome.err.None? ==> run.outcome.res.response == "success")
  }

  /** Every loop has that shape. */
  ghost predicate SoundLoops(loops: Loops)
  {
    forall frame, start, max, n :: LoopShape(loops(frame, start, max, n), frame, start, max)
  }

  /** The redirect loop of sendWithRedirects has that shape, whatever the
      collectors answer. */
  lemma RedirectsSound(reply: Replies)
    ensures SoundLoops(LoopsOf(reply))
  {
    forall frame, start, max, n: nat
      ensures LoopShape(Redirects(reply, frame, start, max, n), frame, start, max)
    {
      RedirectsBounded(reply, frame, start, max, n);
      ChainShape(reply, frame, start, start, 0, max, n, ZeroResponse);
    }
  }

  // ---------------------------------------------------------------------------
  // Send: the cached host, then the host list

  /** One call of sendWithRedirects made by Send: its start host and its result. */
  datatype Try = Try(host: string, outcome: Outcome)

  /** What a Send produced, the exchanges it made, the redirect loops it
      started in order, and the cached host it leaves behind. */
  datatype SendRun = SendRun(outcome: Outcome, contacts: seq<Contact>, tries: seq<Try>, primary: string)

  /** The loop of Send over hosts[k..], with n exchanges made before and last
      the response of the previous try. The first host that succeeds is cached;
      when none does, the cache is left empty and the last response is
      returned beside the error. */
  function Fallback(loops: Loops, frame: seq<Byte>, hosts: seq<string>, k: nat, max: int, n: nat,
                    last: Response): SendRun
    requires k <= |hosts|
    decreases |hosts| - k
  {
    if k == |hosts| then SendRun(Outcome(last, Some(AllHostsFailed(|hosts|))), [], [], "")
    else
      var r := loops(frame, hosts[k], max, n);
      var try := [Try(hosts[k], r.outcome)];
      if r.outcome.err.None? then SendRun(r.outcome, r.contacts, try, hosts[k])
      else
        var rest := Fallback(loops, frame, hosts, k + 1, max, n + |r.contacts|, r.outcome.res);
        SendRun(rest.outcome, r.contacts + rest.contacts, try + rest.tries, rest.primary)
  }

  /** What the loop of Send over the host list yields from host k on: the
      request, the hosts, k, the limit, the exchanges made before and the
      response of the previous try. */
  type Fallbacks = (seq<Byte>, seq<string>, nat, int, nat, Response) -> SendRun

  /** The loops of Send over the given redirect loops; a start past the end
      of the list, which Send never makes, gives an idle run. */
  function FallbacksOf(loops: Loops): Fallbacks
  {
    (frame: seq<Byte>, hosts: seq<string>, k: nat, max: int, n: nat, last: Response) =>
      if k <= |hosts| then Fallback(loops, frame, hosts, k, max, n, last) else SendRun(Idle, [], [], "")
  }

  /** The exchanges made before the j-th of the redirect loops started in
      turn from hosts[0], hosts[1], ..., when n were made before the first. */
  function ExchangesBefore(loops: Loops, frame: seq<Byte>, hosts: seq<string>, max: int, n: nat, j: nat): nat
    requires j <= |hosts|
    decreases j
  {
    if j == 0 then n
    else
      var m := ExchangesBefore(loops, frame, hosts, max, n, j - 1);
      m + |loops(frame, hosts[j - 1], max, m).contacts|
  }

  /** Counting from the second host on, after the first loop's exchanges,
      gives the same counts. */
  lemma {:induction false} ExchangesBeforeShift(loops: Loops, frame: seq<Byte>, hosts: seq<string>, max: int,
                                                n: nat, j: nat)
    requires j < |hosts|
    ensures ExchangesBefore(loops, frame, hosts, max, n, j + 1)
         == ExchangesBefore(loops, frame, hosts[1..], max, n + |loops(frame, hosts[0], max, n).contacts|, j)
    decreases j
  {
    if j > 0 {
      ExchangesBeforeShift(loops, frame, hosts, max, n, j - 1);
      assert hosts[1..][j - 1] == hosts[j];
    }
  }

  /** The exchanges, in order, of the first j of the redirect loops started
      in turn from hosts[0], hosts[1], ..., when n were made before the first. */
  function ContactsBefore(loops: Loops, frame: seq<Byte>, hosts: seq<string>, max: int, n: nat, j: nat): seq<Contact>
    requires j <= |hosts|
    decreases j
  {
    if j == 0 then []
    else
      ContactsBefore(loops, frame, hosts, max, n, j - 1)
        + loops(frame, hosts[j - 1], max, ExchangesBefore(loops, frame, hosts, max, n, j - 1)).contacts
  }

  /** The exchanges from the second host on follow those of the first loop. */
  lemma {:induction false} ContactsBeforeShift(loops: Loops, frame: seq<Byte>, hosts: seq<string>, max: int,
                                               n: nat, j: nat)
    requires j < |hosts|
    ensures ContactsBefore(loops, frame, hosts, max, n, j + 1)
         == loops(frame, hosts[0], max, n).contacts
              + ContactsBefore(loops, frame, hosts[1..], max, n + |loops(frame, hosts[0], max, n).contacts|, j)
    decreases j
  {
    var first := loops(frame, hosts[0], max, n).contacts;
    var m := n + |first|;
    if j == 0 {
      assert ContactsBefore(loops, frame, hosts, max, n, 1) == [] + first;
      assert first + [] == first;
    } else {
      ContactsBeforeShift(loops, frame, hosts, max, n, j - 1);
      ExchangesBeforeShift(loops, frame, hosts, max, n, j - 1);
      assert hosts[1..][j - 1] == hosts[j];
      var tail := loops(frame, hosts[j], max, ExchangesBefore(loops, frame, hosts, max, n, j)).contacts;
      var before := ContactsBefore(loops, frame, hosts[1..], max, m, j - 1);
      assert ContactsBefore(loops, frame, hosts[1..], max, m, j) == before + tail;
      assert ContactsBefore(loops, frame, hosts, max, n, j + 1) == (first + before) + tail;
      assert (first + before) + tail == first + (before + tail);
    }
  }

  /** ContactsBeforeShift for the list from host k on. */
  lemma ContactsBeforeFrom(loops: Loops, frame: seq<Byte>, hosts: seq<string>, k: nat, max: int, n: nat, j: nat)
    requires k + j < |hosts|
    ensures ContactsBefore(loops, frame, hosts[k..], max, n, j + 1)
         == loops(frame, hosts[k], max, n).contacts
              + ContactsBefore(loops, frame, hosts[k + 1..], max, n + |loops(frame, hosts[k], max, n).contacts|, j)
  {
    ContactsBeforeShift(loops, frame, hosts[k..], max, n, j);
    assert hosts[k..][1..] == hosts[k + 1..];
    assert hosts[k..][0] == hosts[k];
  }

  /** tries are the redirect loops of cands[0], cands[1], ... in turn, each
      started after the exchanges of the ones before it. */
  predicate TriedInTurn(loops: Loops, frame: seq<Byte>, cands: seq<string>, max: int, n: nat, tries: seq<Try>)
  {
    && |tries| <= |cands|
    && forall j {:trigger tries[j]} :: 0 <= j < |tries| ==>
         tries[j] == Try(cands[j], loops(frame, cands[j], max, ExchangesBefore(loops, frame, cands, max, n, j)).outcome)
  }

  /** The loop of the first candidate followed by the loops of the others in turn. */
  lemma TriedInTurnCons(loops: Loops, frame: seq<Byte>, cands: seq<string>, max: int, n: nat, r: Run,
                        rest: seq<Try>)
    requires cands != [] && r == loops(frame, cands[0], max, n)
    requires TriedInTurn(loops, frame, cands[1..], max, n + |r.contacts|, rest)
    ensures TriedInTurn(loops, frame, cands, max, n, [Try(cands[0], r.outcome)] + rest)
  {
    var tries := [Try(cands[0], r.outcome)] + rest;
    var others := cands[1..];
    var m := n + |r.contacts|;
    forall j | 0 <= j < |tries|
      ensures tries[j] == Try(cands[j], loops(frame, cands[j], max, ExchangesBefore(loops, frame, cands, max, n, j)).outcome)
    {
      if j == 0 {
        assert ExchangesBefore(loops, frame, cands, max, n, 0) == n;
      } else {
        var e := ExchangesBefore(loops, frame, others, max, m, j - 1);
        assert rest[j - 1] == Try(others[j - 1], loops(frame, others[j - 1], max, e).outcome);
        ExchangesBeforeShift(loops, frame, cands, max, n, j - 1);
        assert tries[j] == rest[j - 1] && others[j - 1] == cands[j];
      }
    }
  }

  /** Send of the request frame from a sender with the given hosts, cached
      host and redirect limit, with n exchanges made before. */
  function SendSpec(loops: Loops, frame: seq<Byte>, hosts: seq<string>, primary: string, max: int, n: nat): SendRun
  {
    if primary != "" then
      var r := loops(frame, primary, max, n);
      var try := [Try(primary, r.outcome)];
      if r.outcome.err.None? then SendRun(r.outcome, r.contacts, try, primary)
      else
        var rest := Fallback(loops, frame, hosts, 0, max, n + |r.contacts|, r.outcome.res);
        SendRun(rest.outcome, r.contacts + rest.contacts, try + rest.tries, rest.primary)
    else Fallback(loops, frame, hosts, 0, max, n, ZeroResponse)
  }

  /** Each try of the loop over the host list is the redirect loop of its
      host, started after the exchanges of the tries before it. */
  lemma {:induction false} FallbackTries(loops: Loops, frame: seq<Byte>, hosts: seq<string>, k: nat, max: int,
                                         n: nat, last: Response)
    requires k <= |hosts|
    ensures TriedInTurn(loops, frame, hosts[k..], max, n, Fallback(loops, frame, hosts, k, max, n, last).tries)
    decreases |hosts| - k
  {
    if k < |hosts| {
      var r := loops(frame, hosts[k], max, n);
      assert hosts[k..][0] == hosts[k];
      if r.outcome.err.Some? {
        var m := n + |r.contacts|;
        FallbackTries(loops, frame, hosts, k + 1, max, m, r.outcome.res);
        assert hosts[k..][1..] == hosts[k + 1..];
        TriedInTurnCons(loops, frame, hosts[k..], max, n, r, Fallback(loops, frame, hosts, k + 1, max, m, r.outcome.res).tries);
      } else {
        TriedInTurnCons(loops, frame, hosts[k..], max, n, r, []);
      }
    }
  }

  /** The loop over the host list makes exactly the exchanges of its tries,
      in order: those of the first host's redirect loop, then those of the
      next, and so on. */
  lemma {:induction false} FallbackCount(loops: Loops, frame: seq<Byte>, hosts: seq<string>, k: nat, max: int,
                                         n: nat, last: Response)
    requires k <= |hosts|
    ensures var run := Fallback(loops, frame, hosts, k, max, n, last);
      && k + |run.tries| <= |hosts|
      && run.contacts == ContactsBefore(loops, frame, hosts[k..], max, n, |run.tries|)
      && n + |run.contacts| == ExchangesBefore(loops, frame, hosts[k..], max, n, |run.tries|)
    decreases |hosts| - k
  {
    var run := Fallback(loops, frame, hosts, k, max, n, last);
    if k < |hosts| {
      var r := loops(frame, hosts[k], max, n);
      var m := n + |r.contacts|;
      ExchangesBeforeFrom(loops, frame, hosts, k, max, n, 0);
      ContactsBeforeFrom(loops, frame, hosts, k, max, n, 0);
      if r.outcome.err.Some? {
        var rest := Fallback(loops, frame, hosts, k + 1, max, m, r.outcome.res);
        FallbackCount(loops, frame, hosts, k + 1, max, m, r.outcome.res);
        assert run.contacts == r.contacts + rest.contacts && |run.tries| == |rest.tries| + 1;
        ExchangesBeforeFrom(loops, frame, hosts, k, max, n, |rest.tries|);
        ContactsBeforeFrom(loops, frame, hosts, k, max, n, |rest.tries|);
      } else {
        assert run.contacts == r.contacts && |run.tries| == 1;
        assert ContactsBefore(loops, frame, hosts[k + 1..], max, m, 0) == [];
        assert r.contacts + [] == r.contacts;
      }
    }
  }

  /** ExchangesBeforeShift for the list from host k on. */
  lemma ExchangesBeforeFrom(loops: Loops, frame: seq<Byte>, hosts: seq<string>, k: nat, max: int, n: nat, j: nat)
    requires k + j < |hosts|
    ensures ExchangesBefore(loops, frame, hosts[k..], max, n, j + 1)
         == ExchangesBefore(loops, frame, hosts[k + 1..], max, n + |loops(frame, hosts[k], max, n).contacts|, j)
  {
    ExchangesBeforeShift(loops, frame, hosts[k..], max, n, j);
    assert hosts[k..][1..] == hosts[k + 1..];
    assert hosts[k..][0] == hosts[k];
  }

  /** The loop over the host list tries the hosts in list order, each one
      once, and stops at the first that succeeds; each try is the redirect
      loop of its host, started after the exchanges of the tries before it,
      and the loop makes exactly the exchanges of its tries, in order. */
  lemma FallbackOrder(loops: Loops, frame: seq<Byte>, hosts: seq<string>, k: nat, max: int,
                      n: nat, last: Response)
    requires k <= |hosts|
    ensures var run := Fallback(loops, frame, hosts, k, max, n, last);
      && k + |run.tries| <= |hosts|
      && (k < |hosts| ==> |run.tries| >= 1)
      && (forall j :: 0 <= j < |run.tries| ==> run.tries[j].host == hosts[k + j])
      && (forall j :: 0 <= j < |run.tries| - 1 ==> run.tries[j].outcome.err.Some?)
      && (forall j :: 0 <= j < |run.tries| ==>
            run.tries[j].outcome == loops(frame, hosts[k + j], max, ExchangesBefore(loops, frame, hosts[k..], max, n, j)).outcome)
      && run.contacts == ContactsBefore(loops, frame, hosts[k..], max, n, |run.tries|)
      && n + |run.contacts| == ExchangesBefore(loops, frame, hosts[k..], max, n, |run.tries|)
  {
    var run := Fallback(loops, frame, hosts, k, max, n, last);
    FallbackTries(loops, frame, hosts, k, max, n, last);
    FallbackCount(loops, frame, hosts, k, max, n, last);
    FallbackStops(loops, frame, hosts, k, max, n, last);
    forall j | 0 <= j < |run.tries|
      ensures run.tries[j].host == hosts[k + j]
      ensures run.tries[j].outcome == loops(frame, hosts[k + j], max, ExchangesBefore(loops, frame, hosts[k..], max, n, j)).outcome
    {
      assert hosts[k..][j] == hosts[k + j];
    }
  }

  /** The loop over the host list makes a try when a host is left, and
      moves on only after a failed one. */
  lemma {:induction false} FallbackStops(loops: Loops, frame: seq<Byte>, hosts: seq<string>, k: nat, max: int,
                                         n: nat, last: Response)
    requires k <= |hosts|
    ensures var run := Fallback(loops, frame, hosts, k, max, n, last);
      && (k < |hosts| ==> |run.tries| >= 1)
      && (forall j :: 0 <= j < |run.tries| - 1 ==> run.tries[j].outcome.err.Some?)
    decreases |hosts| - k
  {
    var run := Fallback(loops, frame, hosts, k, max, n, last);
    if k < |hosts| {
      var r := loops(frame, hosts[k], max, n);
      if r.outcome.err.Some? {
        var rest := Fallback(loops, frame, hosts, k + 1, max, n + |r.contacts|, r.outcome.res);
        FallbackStops(loops, frame, hosts, k + 1, max, n + |r.contacts|, r.outcome.res);
        assert run.tries == [Try(hosts[k], r.outcome)] + rest.tries;
        assert forall j :: 1 <= j < |run.tries| ==> run.tries[j] == rest.tries[j - 1];
      }
    }
  }

  /** The reply the loop over the host list returns is the one of its last
      try, or the reply it was handed when it makes none. */
  lemma {:induction false} FallbackReply(loops: Loops, frame: seq<Byte>, hosts: seq<string>, k: nat, max: int,
                                         n: nat, last: Response)
    requires k <= |hosts|
    ensures var run := Fallback(loops, frame, hosts, k, max, n, last);
      && (run.tries != [] ==> run.outcome.res == run.tries[|run.tries| - 1].outcome.res)
      && (run.tries == [] ==> run.outcome.res == last)
    decreases |hosts| - k
  {
    var run := Fallback(loops, frame, hosts, k, max, n, last);
    if k < |hosts| {
      var r := loops(frame, hosts[k], max, n);
      if r.outcome.err.Some? {
        var rest := Fallback(loops, frame, hosts, k + 1, max, n + |r.contacts|, r.outcome.res);
        FallbackReply(loops, frame, hosts, k + 1, max, n + |r.contacts|, r.outcome.res);
        assert run.tries == [Try(hosts[k], r.outcome)] + rest.tries;
        if rest.tries != [] {
          assert run.tries[|run.tries| - 1] == rest.tries[|rest.tries| - 1];
        }
      }
    }
  }

  /** The first host of the list whose redirect loop succeeds becomes the
      cached host, and the "success" answer of that loop is the result; if
      none succeeds every host was tried, the loop of each failed, the cache
      is empty, and the error counts the hosts. The loop succeeds exactly
      when its last try does, so a host that succeeds, the last one of the
      list included, ends it in success. Every exchange carries the request. */
  lemma FallbackResult(loops: Loops, frame: seq<Byte>, hosts: seq<string>, k: nat, max: int,
                       n: nat, last: Response)
    requires k <= |hosts|
    requires SoundLoops(loops)
    ensures var run := Fallback(loops, frame, hosts, k, max, n, last);
      && (run.outcome.err.None? ==>
            && 1 <= |run.tries| <= |hosts| - k && run.primary == hosts[k + |run.tries| - 1]
            && run.tries[|run.tries| - 1] == Try(run.primary, run.outcome)
            && run.outcome.res.response == "success"
            && run.outcome == loops(frame, run.primary, max,
                                    ExchangesBefore(loops, frame, hosts[k..], max, n, |run.tries| - 1)).outcome)
      && (run.outcome.err.Some? ==>
            && k + |run.tries| == |hosts| && run.primary == ""
            && run.outcome.err == Some(AllHostsFailed(|hosts|))
            && forall j :: k <= j < |hosts| ==>
                 loops(frame, hosts[j], max, ExchangesBefore(loops, frame, hosts[k..], max, n, j - k)).outcome.err.Some?)
      && (run.tries != [] ==> (run.outcome.err.None? <==> run.tries[|run.tries| - 1].outcome.err.None?))
      && (run.tries != [] ==> run.outcome.res == run.tries[|run.tries| - 1].outcome.res)
      && (run.tries == [] ==> run.outcome.res == last)
      && (forall j :: 0 <= j < |run.contacts| ==> run.contacts[j].request == frame)
  {
    var run := Fallback(loops, frame, hosts, k, max, n, last);
    FallbackCache(loops, frame, hosts, k, max, n, last);
    FallbackReply(loops, frame, hosts, k, max, n, last);
    FallbackOrder(loops, frame, hosts, k, max, n, last);
    if run.outcome.err.Some? {
      forall j | k <= j < |hosts|
        ensures loops(frame, hosts[j], max, ExchangesBefore(loops, frame, hosts[k..], max, n, j - k)).outcome.err.Some?
      {
        assert run.tries[j - k].outcome.err.Some?;
      }
    }
  }

  /** The cache and the result of the loop over the host list, by the
      loop's own steps. */
  lemma {:induction false} FallbackCache(loops: Loops, frame: seq<Byte>, hosts: seq<string>, k: nat, max: int,
                                          n: nat, last: Response)
    requires k <= |hosts|
    requires SoundLoops(loops)
    ensures var run := Fallback(loops, frame, hosts, k, max, n, last);
      && (run.outcome.err.None? ==>
            && 1 <= |run.tries| <= |hosts| - k && run.primary == hosts[k + |run.tries| - 1]
            && run.tries[|run.tries| - 1] == Try(run.primary, run.outcome)
            && run.outcome.res.response == "success")
      && (run.outcome.err.Some? ==>
            && k + |run.tries| == |hosts| && run.primary == ""
            && run.outcome.err == Some(AllHostsFailed(|hosts|)))
      && (run.tries != [] ==> (run.outcome.err.None? <==> run.tries[|run.tries| - 1].outcome.err.None?))
      && (forall j :: 0 <= j < |run.contacts| ==> run.contacts[j].request == frame)
    decreases |hosts| - k
  {
    var run := Fallback(loops, frame, hosts, k, max, n, last);
    if k < |hosts| {
      var r := loops(frame, hosts[k], max, n);
      assert LoopShape(r, frame, hosts[k], max);
      if r.outcome.err.Some? {
        var rest := Fallback(loops, frame, hosts, k + 1, max, n + |r.contacts|, r.outcome.res);
        FallbackCache(loops, frame, hosts, k + 1, max, n + |r.contacts|, r.outcome.res);
        assert run.tries == [Try(hosts[k], r.outcome)] + rest.tries;
        assert run.contacts == r.contacts + rest.contacts;
        if run.outcome.err.None? {
          assert run.tries[|run.tries| - 1] == rest.tries[|rest.tries| - 1];
        }
      }
    }
  }

  /** The exchanges part of FallbackCache. */
  lemma FallbackRequests(loops: Loops, frame: seq<Byte>, hosts: seq<string>, k: nat, max: int, n: nat, last: Response)
    requires k <= |hosts|
    requires SoundLoops(loops)
    ensures forall j :: 0 <= j < |Fallback(loops, frame, hosts, k, max, n, last).contacts| ==>
      Fallback(loops, frame, hosts, k, max, n, last).contacts[j].request == frame
  {
    FallbackCache(loops, frame, hosts, k, max, n, last);
  }

  /** How a loop over hosts[k..] ends: in success with the last host tried
      cached and its "success" answer, or after trying every host with an
      empty cache and the count of the list; in success exactly when its
      last try succeeded. */
  predicate FallbackEnds(run: SendRun, hosts: seq<string>, k: nat)
  {
    && (run.outcome.err.None? ==>
          && 1 <= |run.tries| && k + |run.tries| <= |hosts| && run.primary == hosts[k + |run.tries| - 1]
          && run.tries[|run.tries| - 1] == Try(run.primary, run.outcome)
          && run.outcome.res.response == "success")
    && (run.outcome.err.Some? ==>
          k + |run.tries| == |hosts| && run.primary == "" && run.outcome.err == Some(AllHostsFailed(|hosts|)))
    && (run.tries != [] ==> (run.outcome.err.None? <==> run.tries[|run.tries| - 1].outcome.err.None?))
  }

  /** The outcome part of FallbackCache. */
  lemma FallbackOutcome(loops: Loops, frame: seq<Byte>, hosts: seq<string>, k: nat, max: int, n: nat, last: Response)
    requires k <= |hosts|
    requires SoundLoops(loops)
    ensures FallbackEnds(Fallback(loops, frame, hosts, k, max, n, last), hosts, k)
  {
    FallbackCache(loops, frame, hosts, k, max, n, last);
  }

  /** With collectors whose answers do not depend on the exchanges made
      before, the loop over the host list caches the first host whose
      redirect loop succeeds, after trying exactly the hosts up to it. */
  lemma {:induction false} FallbackFirstSuccess(loops: Loops, frame: seq<Byte>, hosts: seq<string>, k: nat,
                                                max: int, n: nat, last: Response, j: nat)
    requires k <= j < |hosts|
    requires forall i, m: nat :: k <= i < j ==> loops(frame, hosts[i], max, m).outcome.err.Some?
    requires forall m: nat :: loops(frame, hosts[j], max, m).outcome.err.None?
    ensures var run := Fallback(loops, frame, hosts, k, max, n, last);
      run.outcome.err.None? && run.primary == hosts[j] && |run.tries| == j - k + 1
    decreases j - k
  {
    var r := loops(frame, hosts[k], max, n);
    if k < j {
      assert r.outcome.err.Some?;
      FallbackFirstSuccess(loops, frame, hosts, k + 1, max, n + |r.contacts|, r.outcome.res, j);
    } else {
      assert r.outcome.err.None?;
    }
  }

  /** The start hosts Send has in line: the cached one, if any, then the list. */
  function Candidates(hosts: seq<string>, primary: string): seq<string>
  {
    if primary != "" then [primary] + hosts else hosts
  }

  /** Send works through its candidates in order, each at most once, and
      stops at the first that succeeds; so the cached host, when there is
      one, is tried first, and kept without trying anything else when it
      succeeds. Each try is the redirect loop of its candidate, started
      after the exchanges of the tries before it, and Send makes exactly
      the exchanges of its tries, in order. */
  lemma SendOrder(loops: Loops, frame: seq<Byte>, hosts: seq<string>, primary: string, max: int, n: nat)
    ensures var run := SendSpec(loops, frame, hosts, primary, max, n);
      && |run.tries| <= |Candidates(hosts, primary)|
      && (forall j :: 0 <= j < |run.tries| ==> run.tries[j].host == Candidates(hosts, primary)[j])
      && (forall j :: 0 <= j < |run.tries| - 1 ==> run.tries[j].outcome.err.Some?)
      && (Candidates(hosts, primary) != [] ==> |run.tries| >= 1)
      && (forall j :: 0 <= j < |run.tries| ==>
            run.tries[j].outcome == loops(frame, Candidates(hosts, primary)[j], max,
                                          ExchangesBefore(loops, frame, Candidates(hosts, primary), max, n, j)).outcome)
      && run.contacts == ContactsBefore(loops, frame, Candidates(hosts, primary), max, n, |run.tries|)
      && n + |run.contacts| == ExchangesBefore(loops, frame, Candidates(hosts, primary), max, n, |run.tries|)
      && (primary != "" && run.tries[0].outcome.err.None? ==> run.primary == primary && |run.tries| == 1)
  {
    SendTries(loops, frame, hosts, primary, max, n);
    SendStops(loops, frame, hosts, primary, max, n);
  }

  /** Send makes a try when it has a candidate, moves on only after a failed
      one, and keeps a cached host that succeeds without trying another. */
  lemma SendStops(loops: Loops, frame: seq<Byte>, hosts: seq<string>, primary: string, max: int, n: nat)
    ensures var run := SendSpec(loops, frame, hosts, primary, max, n);
      && (Candidates(hosts, primary) != [] ==> |run.tries| >= 1)
      && (forall j :: 0 <= j < |run.tries| - 1 ==> run.tries[j].outcome.err.Some?)
      && (primary != "" && run.tries[0].outcome.err.None? ==> run.primary == primary && |run.tries| == 1)
  {
    var run := SendSpec(loops, frame, hosts, primary, max, n);
    if primary != "" {
      var r := loops(frame, primary, max, n);
      if r.outcome.err.Some? {
        var rest := Fallback(loops, frame, hosts, 0, max, n + |r.contacts|, r.outcome.res);
        FallbackStops(loops, frame, hosts, 0, max, n + |r.contacts|, r.outcome.res);
        assert run.tries == [Try(primary, r.outcome)] + rest.tries;
        assert forall j :: 1 <= j < |run.tries| ==> run.tries[j] == rest.tries[j - 1];
      }
    } else {
      FallbackStops(loops, frame, hosts, 0, max, n, ZeroResponse);
    }
  }

  /** Each try of Send is the redirect loop of its candidate, started after
      the exchanges of the tries before it, and Send makes exactly the
      exchanges of its tries, in order. */
  lemma SendTries(loops: Loops, frame: seq<Byte>, hosts: seq<string>, primary: string, max: int, n: nat)
    ensures var run := SendSpec(loops, frame, hosts, primary, max, n);
      && TriedInTurn(loops, frame, Candidates(hosts, primary), max, n, run.tries)
      && |run.tries| <= |Candidates(hosts, primary)|
      && run.contacts == ContactsBefore(loops, frame, Candidates(hosts, primary), max, n, |run.tries|)
      && n + |run.contacts| == ExchangesBefore(loops, frame, Candidates(hosts, primary), max, n, |run.tries|)
  {
    if primary != "" {
      CachedTries(loops, frame, hosts, primary, max, n);
      CachedCount(loops, frame, hosts, primary, max, n);
    } else {
      FallbackTries(loops, frame, hosts, 0, max, n, ZeroResponse);
      FallbackCount(loops, frame, hosts, 0, max, n, ZeroResponse);
      assert hosts[0..] == hosts;
    }
  }

  /** The tries of SendTries when a host is cached: its loop comes first,
      then the list's. */
  lemma CachedTries(loops: Loops, frame: seq<Byte>, hosts: seq<string>, primary: string, max: int, n: nat)
    requires primary != ""
    ensures TriedInTurn(loops, frame, [primary] + hosts, max, n, SendSpec(loops, frame, hosts, primary, max, n).tries)
  {
    var run := SendSpec(loops, frame, hosts, primary, max, n);
    var cands := [primary] + hosts;
    var r := loops(frame, primary, max, n);
    var m := n + |r.contacts|;
    assert cands[0] == primary && cands[1..] == hosts;
    if r.outcome.err.Some? {
      var rest := Fallback(loops, frame, hosts, 0, max, m, r.outcome.res);
      assert run.tries == [Try(primary, r.outcome)] + rest.tries;
      FallbackTries(loops, frame, hosts, 0, max, m, r.outcome.res);
      assert hosts[0..] == hosts;
      assert TriedInTurn(loops, frame, cands[1..], max, m, rest.tries);
      TriedInTurnCons(loops, frame, cands, max, n, r, rest.tries);
    } else {
      TriedInTurnCons(loops, frame, cands, max, n, r, []);
    }
  }

  /** The exchanges of SendTries when a host is cached. */
  lemma CachedCount(loops: Loops, frame: seq<Byte>, hosts: seq<string>, primary: string, max: int, n: nat)
    requires primary != ""
    ensures var run := SendSpec(loops, frame, hosts, primary, max, n);
      && |run.tries| <= 1 + |hosts|
      && run.contacts == ContactsBefore(loops, frame, [primary] + hosts, max, n, |run.tries|)
      && n + |run.contacts| == ExchangesBefore(loops, frame, [primary] + hosts, max, n, |run.tries|)
  {
    var run := SendSpec(loops, frame, hosts, primary, max, n);
    var cands := [primary] + hosts;
    var r := loops(frame, primary, max, n);
    var m := n + |r.contacts|;
    assert cands[0] == primary && cands[1..] == hosts;
    ExchangesBeforeShift(loops, frame, cands, max, n, 0);
    ContactsBeforeShift(loops, frame, cands, max, n, 0);
    if r.outcome.err.Some? {
      var rest := Fallback(loops, frame, hosts, 0, max, m, r.outcome.res);
      assert run.tries == [Try(primary, r.outcome)] + rest.tries;
      assert run.contacts == r.contacts + rest.contacts;
      FallbackCount(loops, frame, hosts, 0, max, m, r.outcome.res);
      assert hosts[0..] == hosts;
      ExchangesBeforeShift(loops, frame, cands, max, n, |rest.tries|);
      ContactsBeforeShift(loops, frame, cands, max, n, |rest.tries|);
    } else {
      assert run.tries == [Try(primary, r.outcome)] && run.contacts == r.contacts;
      assert ContactsBefore(loops, frame, hosts, max, m, 0) == [];
      assert r.contacts + [] == r.contacts;
    }
  }

  /** With collectors whose answers do not depend on the exchanges made
      before, Send caches the first of its candidates (the cached host, then
      the list) whose redirect loop succeeds, after trying exactly the
      candidates up to it. */
  lemma SendFirstSuccess(loops: Loops, frame: seq<Byte>, hosts: seq<string>, primary: string, max: int, n: nat,
                         j: nat)
    requires j < |Candidates(hosts, primary)|
    requires forall i, m: nat :: 0 <= i < j ==> loops(frame, Candidates(hosts, primary)[i], max, m).outcome.err.Some?
    requires forall m: nat :: loops(frame, Candidates(hosts, primary)[j], max, m).outcome.err.None?
    ensures var run := SendSpec(loops, frame, hosts, primary, max, n);
      run.outcome.err.None? && run.primary == Candidates(hosts, primary)[j] && |run.tries| == j + 1
  {
    var cands := Candidates(hosts, primary);
    if primary != "" {
      var r := loops(frame, primary, max, n);
      assert cands[0] == primary;
      if j == 0 {
        assert r.outcome.err.None?;
      } else {
        assert r.outcome.err.Some?;
        forall i, m: nat | 0 <= i < j - 1
          ensures loops(frame, hosts[i], max, m).outcome.err.Some?
        {
          assert cands[i + 1] == hosts[i];
        }
        assert cands[j] == hosts[j - 1];
        FallbackFirstSuccess(loops, frame, hosts, 0, max, n + |r.contacts|, r.outcome.res, j - 1);
      }
    } else {
      FallbackFirstSuccess(loops, frame, hosts, 0, max, n, ZeroResponse, j);
    }
  }

  /** Every exchange of a Send carries the request, and the first goes to
      the cached host when there is one. */
  lemma SendRequests(loops: Loops, frame: seq<Byte>, hosts: seq<string>, primary: string, max: int, n: nat)
    requires SoundLoops(loops)
    ensures var run := SendSpec(loops, frame, hosts, primary, max, n);
      && (forall j :: 0 <= j < |run.contacts| ==> run.contacts[j].request == frame)
      && (primary != "" && max >= 0 ==> |run.contacts| >= 1 && run.contacts[0].host == primary)
  {
    var run := SendSpec(loops, frame, hosts, primary, max, n);
    if primary != "" {
      var r := loops(frame, primary, max, n);
      assert LoopShape(r, frame, primary, max);
      if r.outcome.err.Some? {
        var rest := Fallback(loops, frame, hosts, 0, max, n + |r.contacts|, r.outcome.res);
        FallbackRequests(loops, frame, hosts, 0, max, n + |r.contacts|, r.outcome.res);
        assert run.contacts == r.contacts + rest.contacts;
        forall j | 0 <= j < |run.contacts|
          ensures run.contacts[j].request == frame
        {
          if j >= |r.contacts| {
            assert run.contacts[j] == rest.contacts[j - |r.contacts|];
          }
        }
      }
    } else {
      var rest := Fallback(loops, frame, hosts, 0, max, n, ZeroResponse);
      FallbackRequests(loops, frame, hosts, 0, max, n, ZeroResponse);
      assert run == rest;
      assert forall j :: 0 <= j < |rest.contacts| ==> rest.contacts[j].request == frame;
    }
  }

  /** Send succeeds only with a "success" answer, that of the redirect loop
      of the first candidate whose loop succeeds, and then caches the host
      that loop started from, the cached one or an entry of the list, never
      a redirect target. When it fails every candidate was tried and the
      loop of each failed, the cache is empty and the error counts the hosts
      of the list. It succeeds exactly when its last try does. */
  lemma SendResult(loops: Loops, frame: seq<Byte>, hosts: seq<string>, primary: string, max: int, n: nat)
    requires SoundLoops(loops)
    ensures var run := SendSpec(loops, frame, hosts, primary, max, n);
      && (run.outcome.err.None? ==>
            && run.outcome.res.response == "success"
            && 1 <= |run.tries| <= |Candidates(hosts, primary)|
            && run.primary == Candidates(hosts, primary)[|run.tries| - 1]
            && run.primary == run.tries[|run.tries| - 1].host
            && (run.primary == primary || run.primary in hosts)
            && run.outcome == loops(frame, run.primary, max,
                                    ExchangesBefore(loops, frame, Candidates(hosts, primary), max, n, |run.tries| - 1)).outcome)
      && (run.outcome.err.Some? ==>
            && run.primary == "" && run.outcome.err == Some(AllHostsFailed(|hosts|))
            && |run.tries| == |Candidates(hosts, primary)|
            && forall j :: 0 <= j < |Candidates(hosts, primary)| ==>
                 loops(frame, Candidates(hosts, primary)[j], max,
                       ExchangesBefore(loops, frame, Candidates(hosts, primary), max, n, j)).outcome.err.Some?)
      && (run.tries != [] ==> (run.outcome.err.None? <==> run.tries[|run.tries| - 1].outcome.err.None?))
      && (run.tries != [] ==> run.outcome.res == run.tries[|run.tries| - 1].outcome.res)
      && (run.tries == [] ==> run.outcome.res == ZeroResponse)
  {
    SendReply(loops, frame, hosts, primary, max, n);
    SendCache(loops, frame, hosts, primary, max, n);
    SendTries(loops, frame, hosts, primary, max, n);
    SendStops(loops, frame, hosts, primary, max, n);
    TriesVerdict(loops, frame, Candidates(hosts, primary), max, n, SendSpec(loops, frame, hosts, primary, max, n));
  }

  /** The reply Send returns is the one of its last try, or the zero reply
      when it has no candidate to try. */
  lemma SendReply(loops: Loops, frame: seq<Byte>, hosts: seq<string>, primary: string, max: int, n: nat)
    ensures var run := SendSpec(loops, frame, hosts, primary, max, n);
      && (run.tries != [] ==> run.outcome.res == run.tries[|run.tries| - 1].outcome.res)
      && (run.tries == [] ==> run.outcome.res == ZeroResponse)
  {
    var run := SendSpec(loops, frame, hosts, primary, max, n);
    if primary != "" {
      var r := loops(frame, primary, max, n);
      if r.outcome.err.Some? {
        var rest := Fallback(loops, frame, hosts, 0, max, n + |r.contacts|, r.outcome.res);
        FallbackReply(loops, frame, hosts, 0, max, n + |r.contacts|, r.outcome.res);
        assert run.tries == [Try(primary, r.outcome)] + rest.tries;
        if rest.tries != [] {
          assert run.tries[|run.tries| - 1] == rest.tries[|rest.tries| - 1];
        }
      }
    } else {
      FallbackReply(loops, frame, hosts, 0, max, n, ZeroResponse);
    }
  }

  /** A run whose tries are the loops of its candidates in turn, each but
      the last failed, that ends with the outcome of its last try or fails
      after trying every candidate: its outcome is that of the loop of the
      cached candidate, or every candidate's loop failed. */
  lemma TriesVerdict(loops: Loops, frame: seq<Byte>, cands: seq<string>, max: int, n: nat, run: SendRun)
    requires TriedInTurn(loops, frame, cands, max, n, run.tries)
    requires forall j :: 0 <= j < |run.tries| - 1 ==> run.tries[j].outcome.err.Some?
    requires run.outcome.err.None? ==>
      1 <= |run.tries| && run.tries[|run.tries| - 1] == Try(run.primary, run.outcome)
    requires run.outcome.err.Some? ==>
      |run.tries| == |cands| && (run.tries != [] ==> run.tries[|run.tries| - 1].outcome.err.Some?)
    ensures run.outcome.err.None? ==>
      && run.primary == cands[|run.tries| - 1]
      && run.outcome == loops(frame, run.primary, max, ExchangesBefore(loops, frame, cands, max, n, |run.tries| - 1)).outcome
    ensures run.outcome.err.Some? ==>
      forall j :: 0 <= j < |cands| ==> loops(frame, cands[j], max, ExchangesBefore(loops, frame, cands, max, n, j)).outcome.err.Some?
  {
    if run.outcome.err.Some? {
      forall j | 0 <= j < |cands|
        ensures loops(frame, cands[j], max, ExchangesBefore(loops, frame, cands, max, n, j)).outcome.err.Some?
      {
        assert run.tries[j].outcome.err.Some?;
      }
    }
  }

  /** The cache and the result of Send, by its own steps. */
  lemma SendCache(loops: Loops, frame: seq<Byte>, hosts: seq<string>, primary: string, max: int, n: nat)
    requires SoundLoops(loops)
    ensures var run := SendSpec(loops, frame, hosts, primary, max, n);
      && (run.outcome.err.None? ==>
            && run.outcome.res.response == "success"
            && 1 <= |run.tries| && run.tries[|run.tries| - 1] == Try(run.primary, run.outcome)
            && (run.primary == primary || run.primary in hosts))
      && (run.outcome.err.Some? ==>
            && run.primary == "" && run.outcome.err == Some(AllHostsFailed(|hosts|))
            && |run.tries| == |Candidates(hosts, primary)|)
      && (run.tries != [] ==> (run.outcome.err.None? <==> run.tries[|run.tries| - 1].outcome.err.None?))
  {
    var run := SendSpec(loops, frame, hosts, primary, max, n);
    if primary != "" {
      var r := loops(frame, primary, max, n);
      assert LoopShape(r, frame, primary, max);
      if r.outcome.err.Some? {
        var rest := Fallback(loops, frame, hosts, 0, max, n + |r.contacts|, r.outcome.res);
        FallbackOutcome(loops, frame, hosts, 0, max, n + |r.contacts|, r.outcome.res);
        assert run.tries == [Try(primary, r.outcome)] + rest.tries;
        if run.outcome.err.None? {
          assert run.tries[|run.tries| - 1] == rest.tries[|rest.tries| - 1];
        }
      }
    } else {
      FallbackOutcome(loops, frame, hosts, 0, max, n, ZeroResponse);
      assert run == Fallback(loops, frame, hosts, 0, max, n, ZeroResponse);
      if run.outcome.err.None? {
        assert run.primary == hosts[|run.tries| - 1];
      }
    }
  }

  /** What Send yields for a request, a host list, a cached host and a
      redirect limit, with n exchanges made before. */
  type Sends = (seq<Byte>, seq<string>, string, int, nat) -> SendRun

  /** Send over the given redirect loops. */
  function SendsOf(loops: Loops): Sends
  {
    (frame: seq<Byte>, hosts: seq<string>, primary: string, max: int, n: nat) => SendSpec(loops, frame, hosts, primary, max, n)
  }

  /** What SendMetrics and RegisterHost rely on about one Send: every
      exchange carries the request; no error means a "success" answer and a
      cached host that is the old one or an entry of the list; an error
      means an empty cache and the count of the list. */
  predicate SendShape(run: SendRun, frame: seq<Byte>, hosts: seq<string>, primary: string)
  {
    && (forall j :: 0 <= j < |run.contacts| ==> run.contacts[j].request == frame)
    && (run.outcome.err.None? ==> run.outcome.res.response == "success" && (run.primary == primary || run.primary in hosts))
    && (run.outcome.err.Some? ==> run.primary == "" && run.outcome.err == Some(AllHostsFailed(|hosts|)))
  }

  /** Every Send has that shape. */
  ghost predicate SoundSends(sends: Sends)
  {
    forall frame, hosts, primary, max, n :: SendShape(sends(frame, hosts, primary, max, n), frame, hosts, primary)
  }

  /** Send over well-shaped redirect loops has that shape. */
  lemma SendsSound(loops: Loops)
    requires SoundLoops(loops)
    ensures SoundSends(SendsOf(loops))
  {
    forall frame, hosts, primary, max, n: nat
      ensures SendShape(SendSpec(loops, frame, hosts, primary, max, n), frame, hosts, primary)
    {
      SendRequests(loops, frame, hosts, primary, max, n);
      SendResult(loops, frame, hosts, primary, max, n);
    }
  }

  // ---------------------------------------------------------------------------
  // SendMetrics: one packet per mode

  /** The metrics of one mode, in input order. */
  function OfMode(metrics: seq<Metric>, active: bool): (r: seq<Metric>)
    ensures |r| <= |metrics|
    ensures forall k :: 0 <= k < |r| ==> r[k].active == active
  {
    if metrics == [] then []
    else
      var last := metrics[|metrics| - 1];
      OfMode(metrics[..|metrics| - 1], active) + (if last.active == active then [last] else [])
  }

  /** Taking the metrics of one mode commutes with concatenation, so the
      sub-batches keep the input order. */
  lemma {:induction false} OfModeAppend(a: seq<Metric>, b: seq<Metric>, active: bool)
    ensures OfMode(a + b, active) == OfMode(a, active) + OfMode(b, active)
    decreases |b|
  {
    if b != [] {
      var b' := b[..|b| - 1];
      assert (a + b)[..|a + b| - 1] == a + b';
      assert (a + b)[|a + b| - 1] == b[|b| - 1];
      OfModeAppend(a, b', active);
    } else {
      assert a + b == a;
    }
  }

  /** The two sub-batches split the input: together they hold every metric
      exactly once. */
  lemma OfModePartition(metrics: seq<Metric>)
    ensures |OfMode(metrics, true)| + |OfMode(metrics, false)| == |metrics|
    ensures multiset(OfMode(metrics, true)) + multiset(OfMode(metrics, false)) == multiset(metrics)
  {
    OfModeMultiset(metrics);
    assert |multiset(OfMode(metrics, true))| == |OfMode(metrics, true)|;
    assert |multiset(OfMode(metrics, false))| == |OfMode(metrics, false)|;
  }

  /** The multiset half of OfModePartition, by induction on the input. */
  lemma {:induction false} OfModeMultiset(metrics: seq<Metric>)
    ensures multiset(OfMode(metrics, true)) + multiset(OfMode(metrics, false)) == multiset(metrics)
  {
    if metrics != [] {
      var init, last := metrics[..|metrics| - 1], metrics[|metrics| - 1];
      OfModeMultiset(init);
      assert metrics == init + [last];
      assert multiset(metrics) == multiset(init) + multiset{last};
      var t, f := OfMode(init, true), OfMode(init, false);
      if last.active {
        assert OfMode(metrics, true) == t + [last];
        assert multiset(OfMode(metrics, true)) == multiset(t) + multiset{last};
      } else {
        assert OfMode(metrics, false) == f + [last];
        assert multiset(OfMode(metrics, false)) == multiset(f) + multiset{last};
      }
    }
  }

  /** No metric of a mode, no sub-batch of that mode. */
  lemma {:induction false} OfModeNone(metrics: seq<Metric>, active: bool)
    requires forall k :: 0 <= k < |metrics| ==> metrics[k].active != active
    ensures OfMode(metrics, active) == []
  {
    if metrics != [] {
      OfModeNone(metrics[..|metrics| - 1], active);
    }
  }

  /** The request bytes of each packet. */
  type Frames = Packet -> seq<Byte>

  /** The request bytes an oracle's JSON encoder gives each packet. */
  function FramesOf(o: Oracle): Frames
  {
    (p: Packet) => Frame(o, p)
  }

  /** What SendMetrics hands back: the two result pairs, the exchanges, and
      the cached host it leaves behind. */
  datatype MetricsRun = MetricsRun(active: Outcome, trapper: Outcome, contacts: seq<Contact>, primary: string)

  /** One sub-batch: sent as a packet of its mode when it is not empty, left
      alone otherwise. */
  function Batch(sends: Sends, frames: Frames, batch: seq<Metric>, agentActive: bool, hosts: seq<string>,
                 primary: string, max: int, n: nat): SendRun
  {
    if |batch| > 0 then sends(frames(NewPacket(batch, agentActive, [])), hosts, primary, max, n)
    else SendRun(Idle, [], [], primary)
  }

  /** SendMetrics: the trapper metrics go first as "sender data", then the
      active ones as "agent data", each through Send. */
  function MetricsSpec(sends: Sends, frames: Frames, metrics: seq<Metric>, hosts: seq<string>, primary: string,
                       max: int, n: nat): MetricsRun
  {
    var trapper := Batch(sends, frames, OfMode(metrics, false), false, hosts, primary, max, n);
    var active := Batch(sends, frames, OfMode(metrics, true), true, hosts, trapper.primary, max, n + |trapper.contacts|);
    MetricsRun(active.outcome, trapper.outcome, trapper.contacts + active.contacts, active.primary)
  }

  /** A mode without metrics is not sent: its pair is a zero Response and no
      error, and every exchange and the cached host are those of the other
      mode's Send alone; with no metrics at all nothing is sent and the cache
      is kept. */
  lemma MetricsIdle(sends: Sends, frames: Frames, metrics: seq<Metric>, hosts: seq<string>, primary: string,
                    max: int, n: nat)
    ensures var run := MetricsSpec(sends, frames, metrics, hosts, primary, max, n);
      var a := Batch(sends, frames, OfMode(metrics, true), true, hosts, primary, max, n);
      (forall k :: 0 <= k < |metrics| ==> metrics[k].active) ==>
        run == MetricsRun(a.outcome, Idle, a.contacts, a.primary)
    ensures var run := MetricsSpec(sends, frames, metrics, hosts, primary, max, n);
      var t := Batch(sends, frames, OfMode(metrics, false), false, hosts, primary, max, n);
      (forall k :: 0 <= k < |metrics| ==> !metrics[k].active) ==>
        run == MetricsRun(Idle, t.outcome, t.contacts, t.primary)
    ensures metrics == [] ==> MetricsSpec(sends, frames, metrics, hosts, primary, max, n) == MetricsRun(Idle, Idle, [], primary)
  {
    if forall k :: 0 <= k < |metrics| ==> metrics[k].active {
      OfModeNone(metrics, false);
      TrapperIdle(sends, frames, metrics, hosts, primary, max, n);
    }
    if forall k :: 0 <= k < |metrics| ==> !metrics[k].active {
      OfModeNone(metrics, true);
      ActiveIdle(sends, frames, metrics, hosts, primary, max, n);
    }
  }

  /** Without trapper metrics SendMetrics is the Send of the active ones. */
  lemma TrapperIdle(sends: Sends, frames: Frames, metrics: seq<Metric>, hosts: seq<string>, primary: string,
                    max: int, n: nat)
    requires OfMode(metrics, false) == []
    ensures var a := Batch(sends, frames, OfMode(metrics, true), true, hosts, primary, max, n);
      MetricsSpec(sends, frames, metrics, hosts, primary, max, n) == MetricsRun(a.outcome, Idle, a.contacts, a.primary)
  {
    var t := Batch(sends, frames, OfMode(metrics, false), false, hosts, primary, max, n);
    assert t == SendRun(Idle, [], [], primary);
    var a := Batch(sends, frames, OfMode(metrics, true), true, hosts, primary, max, n);
    assert [] + a.contacts == a.contacts;
  }

  /** Without active metrics SendMetrics is the Send of the trapper ones. */
  lemma ActiveIdle(sends: Sends, frames: Frames, metrics: seq<Metric>, hosts: seq<string>, primary: string,
                   max: int, n: nat)
    requires OfMode(metrics, true) == []
    ensures var t := Batch(sends, frames, OfMode(metrics, false), false, hosts, primary, max, n);
      MetricsSpec(sends, frames, metrics, hosts, primary, max, n) == MetricsRun(Idle, t.outcome, t.contacts, t.primary)
  {
    var t := Batch(sends, frames, OfMode(metrics, false), false, hosts, primary, max, n);
    assert t.contacts + [] == t.contacts;
  }

  /** Every exchange of a sub-batch carries that sub-batch's packet. */
  lemma BatchRequests(sends: Sends, frames: Frames, batch: seq<Metric>, agentActive: bool, hosts: seq<string>,
                      primary: string, max: int, n: nat)
    requires SoundSends(sends)
    ensures var run := Batch(sends, frames, batch, agentActive, hosts, primary, max, n);
      forall j :: 0 <= j < |run.contacts| ==> run.contacts[j].request == frames(NewPacket(batch, agentActive, []))
  {
    if |batch| > 0 {
      var frame := frames(NewPacket(batch, agentActive, []));
      assert SendShape(sends(frame, hosts, primary, max, n), frame, hosts, primary);
    }
  }

  /** The "sender data" packet goes out before the "agent data" one: the
      exchanges are first those of the trapper packet, then those of the
      active packet. */
  lemma MetricsOrder(sends: Sends, frames: Frames, metrics: seq<Metric>, hosts: seq<string>, primary: string,
                     max: int, n: nat)
    requires SoundSends(sends)
    ensures var run := MetricsSpec(sends, frames, metrics, hosts, primary, max, n);
      var m := |Batch(sends, frames, OfMode(metrics, false), false, hosts, primary, max, n).contacts|;
      && m <= |run.contacts|
      && (forall j :: 0 <= j < m ==> run.contacts[j].request == frames(NewPacket(OfMode(metrics, false), false, [])))
      && (forall j :: m <= j < |run.contacts| ==> run.contacts[j].request == frames(NewPacket(OfMode(metrics, true), true, [])))
  {
    var trapper := Batch(sends, frames, OfMode(metrics, false), false, hosts, primary, max, n);
    var active := Batch(sends, frames, OfMode(metrics, true), true, hosts, trapper.primary, max, n + |trapper.contacts|);
    BatchRequests(sends, frames, OfMode(metrics, false), false, hosts, primary, max, n);
    BatchRequests(sends, frames, OfMode(metrics, true), true, hosts, trapper.primary, max, n + |trapper.contacts|);
    assert MetricsSpec(sends, frames, metrics, hosts, primary, max, n).contacts == trapper.contacts + active.contacts;
    ConcatRequests(trapper.contacts, active.contacts, frames(NewPacket(OfMode(metrics, false), false, [])),
                   frames(NewPacket(OfMode(metrics, true), true, [])));
  }

  /** Exchanges of two requests, one after the other. */
  lemma ConcatRequests(a: seq<Contact>, b: seq<Contact>, first: seq<Byte>, second: seq<Byte>)
    requires forall j :: 0 <= j < |a| ==> a[j].request == first
    requires forall j :: 0 <= j < |b| ==> b[j].request == second
    ensures forall j :: 0 <= j < |a| ==> (a + b)[j].request == first
    ensures forall j :: |a| <= j < |a + b| ==> (a + b)[j].request == second
  {
    assert forall j :: |a| <= j < |a + b| ==> (a + b)[j] == b[j - |a|];
  }

  /** Each packet holds only metrics of its own mode and is tagged for it. */
  lemma BatchPackets(metrics: seq<Metric>)
    ensures var trapperPacket := NewPacket(OfMode(metrics, false), false, []);
      && trapperPacket.request == "sender data"
      && (forall k :: 0 <= k < |trapperPacket.data| ==> !trapperPacket.data[k].active)
    ensures var activePacket := NewPacket(OfMode(metrics, true), true, []);
      && activePacket.request == "agent data"
      && (forall k :: 0 <= k < |activePacket.data| ==> activePacket.data[k].active)
  {
  }

  // ---------------------------------------------------------------------------
  // RegisterHost

  /** The "active checks" request that asks the collector to register a host. */
  function RegisterPacket(host: string, hostMetadata: string): Packet
  {
    Packet("active checks", [], 0, 0, host, hostMetadata)
  }

  /** What RegisterHost hands back: its error, the exchanges, the cached host. */
  datatype RegisterRun = RegisterRun(err: Option<SendError>, contacts: seq<Contact>, primary: string)

  /** RegisterHost as written: one Send, and a second one when the first
      returned no error yet no "success". */
  function RegisterSpec(sends: Sends, frames: Frames, host: string, hostMetadata: string, hosts: seq<string>,
                        primary: string, max: int, n: nat): RegisterRun
  {
    var frame := frames(RegisterPacket(host, hostMetadata));
    var first := sends(frame, hosts, primary, max, n);
    if first.outcome.err.Some? then RegisterRun(Some(SendingPacket(first.outcome.err.value)), first.contacts, first.primary)
    else if first.outcome.res.response == "success" then RegisterRun(None, first.contacts, first.primary)
    else
      var second := sends(frame, hosts, first.primary, max, n + |first.contacts|);
      var contacts := first.contacts + second.contacts;
      if second.outcome.err.Some? then RegisterRun(Some(SendingPacket(second.outcome.err.value)), contacts, second.primary)
      else if second.outcome.res.response == "failed" then RegisterRun(Some(AutoregistrationFailed), contacts, second.primary)
      else RegisterRun(None, contacts, second.primary)
  }

  /** The second round of RegisterHost never runs: Send reports no error
      only with a "success" answer. So RegisterHost succeeds exactly when its
      one Send does, makes exactly that Send's exchanges, and never reports
      AutoregistrationFailed. */
  lemma RegisterOneRound(sends: Sends, frames: Frames, host: string, hostMetadata: string, hosts: seq<string>,
                         primary: string, max: int, n: nat)
    requires SoundSends(sends)
    ensures var first := sends(frames(RegisterPacket(host, hostMetadata)), hosts, primary, max, n);
      RegisterSpec(sends, frames, host, hostMetadata, hosts, primary, max, n) ==
        RegisterRun(if first.outcome.err.Some? then Some(SendingPacket(first.outcome.err.value)) else None,
                    first.contacts, first.primary)
    ensures RegisterSpec(sends, frames, host, hostMetadata, hosts, primary, max, n).err != Some(AutoregistrationFailed)
  {
    var frame := frames(RegisterPacket(host, hostMetadata));
    assert SendShape(sends(frame, hosts, primary, max, n), frame, hosts, primary);
  }

  /** RegisterHost as its comment describes it: a first answer "failed" is
      expected, and the request is sent a second time; only a second "failed"
      means the registration failed. */
  function RegisterRetrySpec(sends: Sends, frames: Frames, host: string, hostMetadata: string, hosts: seq<string>,
                             primary: string, max: int, n: nat): RegisterRun
  {
    var frame := frames(RegisterPacket(host, hostMetadata));
    var first := sends(frame, hosts, primary, max, n);
    if first.outcome.err.None? then RegisterRun(None, first.contacts, first.primary)
    else if first.outcome.res.response != "failed" then
      RegisterRun(Some(SendingPacket(first.outcome.err.value)), first.contacts, first.primary)
    else
      var second := sends(frame, hosts, first.primary, max, n + |first.contacts|);
      var contacts := first.contacts + second.contacts;
      if second.outcome.err.None? then RegisterRun(None, contacts, second.primary)
      else if second.outcome.res.response == "failed" then RegisterRun(Some(AutoregistrationFailed), contacts, second.primary)
      else RegisterRun(Some(SendingPacket(second.outcome.err.value)), contacts, second.primary)
  }

  /** The retrying registration succeeds exactly when the first Send does or
      the first answer is "failed" and the second Send succeeds; it reports
      AutoregistrationFailed exactly when both answers are "failed". It sends
      a second time only after a "failed" answer, and agrees with RegisterHost
      as written whenever it does not. */
  lemma RegisterRetryRounds(sends: Sends, frames: Frames, host: string, hostMetadata: string, hosts: seq<string>,
                            primary: string, max: int, n: nat)
    requires SoundSends(sends)
    ensures var frame := frames(RegisterPacket(host, hostMetadata));
      var first := sends(frame, hosts, primary, max, n);
      var second := sends(frame, hosts, "", max, n + |first.contacts|);
      var run := RegisterRetrySpec(sends, frames, host, hostMetadata, hosts, primary, max, n);
      && (run.err.None? <==>
            first.outcome.err.None? || (first.outcome.res.response == "failed" && second.outcome.err.None?))
      && (run.err == Some(AutoregistrationFailed) <==>
            && first.outcome.res.response == "failed" && first.outcome.err.Some?
            && second.outcome.res.response == "failed" && second.outcome.err.Some?)
      && (first.outcome.err.None? || first.outcome.res.response != "failed" ==>
            run == RegisterSpec(sends, frames, host, hostMetadata, hosts, primary, max, n))
  {
    var frame := frames(RegisterPacket(host, hostMetadata));
    var first := sends(frame, hosts, primary, max, n);
    assert SendShape(first, frame, hosts, primary);
    assert SendShape(sends(frame, hosts, "", max, n + |first.contacts|), frame, hosts, "");
  }

  /** A collector that refuses the first registration request and accepts
      every later one: it answers "failed" to exchange 0 and "success" after. */
  function RefusesOnce(): Oracle
  {
    Oracle(
      (p: Packet) => [],
      (body: seq<Byte>) => if body == [1] then Some(Response("success", "", None)) else Some(Response("failed", "", None)),
      (host: string, request: seq<Byte>, k: nat) => Bytes(Header + Zeros(8) + (if k == 0 then [0] else [1])))
  }

  /** The collectors of RefusesOnce refuse the first exchange and accept every later one. */
  lemma RefusesOnceReplies(host: string, frame: seq<Byte>, k: nat)
    ensures RepliesOf(RefusesOnce())(host, frame, k)
         == Outcome(Response(if k == 0 then "failed" else "success", "", None), None)
  {
    var body: seq<Byte> := if k == 0 then [0] else [1];
    var b := Header + Zeros(8) + body;
    assert RefusesOnce().respond(host, frame, k) == Bytes(b);
    assert b[..5] == Header && b[PrefixLength..] == body;
  }

  /** Against such a collector RegisterHost as written gives up after the
      first answer, while the retrying registration succeeds. */
  lemma RegisterRefusedOnce()
    ensures var o := RefusesOnce();
      RegisterSpec(SendsOf(LoopsOf(RepliesOf(o))), FramesOf(o), "host", "meta", ["collector:10051"], "", 3, 0).err
        == Some(SendingPacket(AllHostsFailed(1)))
    ensures var o := RefusesOnce();
      RegisterRetrySpec(SendsOf(LoopsOf(RepliesOf(o))), FramesOf(o), "host", "meta", ["collector:10051"], "", 3, 0).err == None
  {
    var o := RefusesOnce();
    var reply := RepliesOf(o);
    var loops := LoopsOf(reply);
    var hosts := ["collector:10051"];
    var frame := FramesOf(o)(RegisterPacket("host", "meta"));
    RefusesOnceReplies(hosts[0], frame, 0);
    RefusesOnceReplies(hosts[0], frame, 1);
    var r0 := loops(frame, hosts[0], 3, 0);
    assert r0.outcome == Outcome(Response("failed", "", None), Some(FailedWithoutRedirect(hosts[0], "failed")));
    assert |r0.contacts| == 1;
    var first := Fallback(loops, frame, hosts, 0, 3, 0, ZeroResponse);
    assert first.outcome == Outcome(Response("failed", "", None), Some(AllHostsFailed(1)));
    assert first.primary == "" && |first.contacts| == 1;
    var r1 := loops(frame, hosts[0], 3, 1);
    assert r1.outcome == Outcome(Response("success", "", None), None);
    var second := Fallback(loops, frame, hosts, 0, 3, 1, ZeroResponse);
    assert second.outcome.err == None;
  }
}
