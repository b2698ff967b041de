/** The sender object (zabbix.go constructors, sender.go methods). Its
    methods talk to an Environment and are proved to do exactly what the
    functions of Delivery describe; the properties of the sender are proved
    there, about those functions. */
module Senders {
  import opened Wrappers
  import opened Zabbix
  import opened Packets
  import opened Responses
  import opened Transport
  import opened Delivery

  /** The network: an oracle and the log of every exchange made so far.
      Beside them it carries, as ghost function values, the request bytes of
      each packet, what sendOnce reports for each exchange, what the redirect
      loop yields from a given round and from its start, what the loop of
      Send over the host list yields from a given host, and what Send
      yields; Coherent ties each of them to its definition. */
  class Environment {
    const oracle: Oracle
    var log: seq<Contact>
    ghost const frames: Frames
    ghost const replies: Replies
    ghost const chains: Chains
    ghost const loops: Loops
    ghost const fallbacks: Fallbacks
    ghost const sends: Sends

    /** The views agree with Frame, ReplyAt, Chain, Redirects, Fallback and
        SendSpec over this oracle. */
    ghost predicate Coherent()
    {
      && (forall p {:trigger Frame(oracle, p)} :: frames(p) == Frame(oracle, p))
      && (forall h, f, n {:trigger ReplyAt(oracle, h, f, n)} :: replies(h, f, n) == ReplyAt(oracle, h, f, n))
      && (forall f, s, c, k, m, n, l {:trigger Chain(replies, f, s, c, k, m, n, l)} ::
            chains(f, s, c, k, m, n, l) == Chain(replies, f, s, c, k, m, n, l))
      && (forall f, h, m, n {:trigger Redirects(replies, f, h, m, n)} :: loops(f, h, m, n) == Redirects(replies, f, h, m, n))
      && (forall f, hs, k: nat, m, n, l {:trigger Fallback(loops, f, hs, k, m, n, l)} ::
            k <= |hs| ==> fallbacks(f, hs, k, m, n, l) == Fallback(loops, f, hs, k, m, n, l))
      && (forall f, hs, pr, m, n {:trigger SendSpec(loops, f, hs, pr, m, n)} :: sends(f, hs, pr, m, n) == SendSpec(loops, f, hs, pr, m, n))
    }

    constructor(oracle: Oracle)
      ensures this.oracle == oracle && log == []
      ensures frames == FramesOf(oracle) && replies == RepliesOf(oracle)
      ensures chains == ChainsOf(RepliesOf(oracle)) && loops == LoopsOf(RepliesOf(oracle))
      ensures fallbacks == FallbacksOf(LoopsOf(RepliesOf(oracle))) && sends == SendsOf(LoopsOf(RepliesOf(oracle)))
      ensures Coherent()
    {
      this.oracle := oracle;
      log := [];
      frames := FramesOf(oracle);
      replies := RepliesOf(oracle);
      chains := ChainsOf(RepliesOf(oracle));
      loops := LoopsOf(RepliesOf(oracle));
      fallbacks := FallbacksOf(LoopsOf(RepliesOf(oracle)));
      sends := SendsOf(LoopsOf(RepliesOf(oracle)));
    }

    /** Every redirect loop of a coherent environment has the shape Send
        relies on, so the lemmas of Delivery apply to its views. */
    lemma Sound()
      requires Coherent()
      ensures SoundLoops(loops) && SoundSends(sends)
    {
      RedirectsSound(replies);
      forall f, h, m, n
        ensures LoopShape(loops(f, h, m, n), f, h, m)
      {
        assert LoopShape(LoopsOf(replies)(f, h, m, n), f, h, m);
        assert loops(f, h, m, n) == Redirects(replies, f, h, m, n);
      }
      SendsSound(loops);
      forall f, hs, pr, m, n
        ensures SendShape(sends(f, hs, pr, m, n), f, hs, pr)
      {
        assert SendShape(SendsOf(loops)(f, hs, pr, m, n), f, hs, pr);
        assert sends(f, hs, pr, m, n) == SendSpec(loops, f, hs, pr, m, n);
      }
    }

    /** Past the last round the redirect loop gives up. */
    lemma Exceeded(f: seq<Byte>, s: string, c: string, k: nat, m: int, n: nat, l: Response)
      requires Coherent() && k > m
      ensures chains(f, s, c, k, m, n, l) == Run(Outcome(l, Some(MaxRedirectsExceeded(s))), [])
    {
      assert chains(f, s, c, k, m, n, l) == Chain(replies, f, s, c, k, m, n, l);
    }

    /** Once every host of the list failed, the loop of Send reports so. */
    lemma Exhausted(f: seq<Byte>, hs: seq<string>, m: int, n: nat, l: Response)
      requires Coherent()
      ensures fallbacks(f, hs, |hs|, m, n, l) == SendRun(Outcome(l, Some(AllHostsFailed(|hs|))), [], [], "")
    {
      assert fallbacks(f, hs, |hs|, m, n, l) == Fallback(loops, f, hs, |hs|, m, n, l);
    }

    /** Dial host, write request, read the answer until the collector closes. */
    method Exchange(host: string, request: seq<Byte>) returns (wire: Wire)
      modifies this
      ensures log == old(log) + [Contact(host, request)]
      ensures wire == oracle.respond(host, request, |old(log)|)
    {
      wire := oracle.respond(host, request, |log|);
      log := log + [Contact(host, request)];
    }
  }

  /** A finished redirect loop after the exchanges already made. */
  function After(done: seq<Contact>, run: Run): Run
  {
    Run(run.outcome, done + run.contacts)
  }

  /** The checks sendWithRedirects makes after each sendOnce, with their
      early returns: a failed exchange, a "success", a refusal without
      redirect address, a redirect address without a port. */
  method CheckRound(currentHost: string, once: Outcome) returns (step: Step)
    ensures step == Round(currentHost, once)
  {
    var res := once.res;
    if once.err.Some? {
      return Stop(Outcome(res, Some(AttemptFailed(currentHost, once.err.value))));
    }
    if res.response == "success" {
      return Stop(Outcome(res, None));
    }
    if res.redirect.None? || res.redirect.value.address == "" {
      return Stop(Outcome(res, Some(FailedWithoutRedirect(currentHost, res.response))));
    }
    var newHost := ParseHostPort(res.redirect.value.address);
    if newHost.None? {
      return Stop(Outcome(res, Some(InvalidRedirect(res.redirect.value.address))));
    }
    return Follow(newHost.value);
  }

  /** The loop at the head of SendMetrics: the metrics split by mode, each
      part in input order. */
  method SplitByMode(metrics: seq<Metric>) returns (trapperMetrics: seq<Metric>, activeMetrics: seq<Metric>)
    ensures trapperMetrics == OfMode(metrics, false) && activeMetrics == OfMode(metrics, true)
  {
    trapperMetrics := [];
    activeMetrics := [];
    for i := 0 to |metrics|
      invariant trapperMetrics == OfMode(metrics[..i], false)
      invariant activeMetrics == OfMode(metrics[..i], true)
    {
      assert metrics[..i + 1][..i] == metrics[..i];
      if metrics[i].active {
        activeMetrics := activeMetrics + [metrics[i]];
      } else {
        trapperMetrics := trapperMetrics + [metrics[i]];
      }
    }
    assert metrics[..|metrics|] == metrics;
  }

  class Sender {
    var hosts: seq<string>         // the collectors, in the order they are tried
    var primaryHost: string        // the cached host that last worked; "" when none
    var maxRedirects: int          // redirects followed before giving up
    var updateHost: bool           // declared but never read
    var connectTimeout: int        // nanoseconds; only the network layer reads the timeouts
    var readTimeout: int
    var writeTimeout: int

    /** NewSender: one collector, normalised, and the default settings. */
    constructor NewSender(host: string)
      ensures hosts == [NormalizeHost(host)] && primaryHost == ""
      ensures maxRedirects == DefaultMaxRedirects && updateHost == DefaultUpdateHost
      ensures connectTimeout == DefaultConnectTimeout && readTimeout == DefaultReadTimeout
      ensures writeTimeout == DefaultWriteTimeout
    {
      hosts := [NormalizeHost(host)];
      primaryHost := "";
      maxRedirects := DefaultMaxRedirects;
      updateHost := DefaultUpdateHost;
      connectTimeout := DefaultConnectTimeout;
      readTimeout := DefaultReadTimeout;
      writeTimeout := DefaultWriteTimeout;
    }

    /** NewSenderHosts: every collector normalised, in the given order. */
    constructor NewSenderHosts(addresses: seq<string>)
      ensures |hosts| == |addresses|
      ensures forall k :: 0 <= k < |addresses| ==> hosts[k] == NormalizeHost(addresses[k])
      ensures primaryHost == "" && maxRedirects == DefaultMaxRedirects && updateHost == DefaultUpdateHost
      ensures connectTimeout == DefaultConnectTimeout && readTimeout == DefaultReadTimeout
      ensures writeTimeout == DefaultWriteTimeout
    {
      var norm := NormalizeHosts(addresses);
      hosts := norm;
      primaryHost := "";
      maxRedirects := DefaultMaxRedirects;
      updateHost := DefaultUpdateHost;
      connectTimeout := DefaultConnectTimeout;
      readTimeout := DefaultReadTimeout;
      writeTimeout := DefaultWriteTimeout;
    }

    /** NewSenderTimeout: like NewSender, with the three timeouts given. */
    constructor NewSenderTimeout(host: string, connect: int, read: int, write: int)
      ensures hosts == [NormalizeHost(host)] && primaryHost == ""
      ensures maxRedirects == DefaultMaxRedirects && updateHost == DefaultUpdateHost
      ensures connectTimeout == connect && readTimeout == read && writeTimeout == write
    {
      hosts := [NormalizeHost(host)];
      primaryHost := "";
      maxRedirects := DefaultMaxRedirects;
      updateHost := DefaultUpdateHost;
      connectTimeout := connect;
      readTimeout := read;
      writeTimeout := write;
    }

    /** sendOnce: build the request (header, DataLen, JSON body), exchange it
        with host, and check the answer. */
    method SendOnce(p: Packet, host: string, env: Environment) returns (o: Outcome)
      requires env.Coherent()
      modifies env
      ensures env.log == old(env.log) + [Contact(host, env.frames(p))]
      ensures o == env.replies(host, env.frames(p), |old(env.log)|)
    {
      var dataPacket := env.oracle.marshal(p);
      var dataLen := DataLen(p, env.oracle.marshal);
      var buffer := Header + dataLen;
      buffer := buffer + dataPacket;
      assert dataLen == dataLen[..4] + dataLen[4..];
      assert buffer == RequestFrame(dataPacket) == Frame(env.oracle, p);
      ghost var n := |env.log|;
      var wire := env.Exchange(host, buffer);
      assert env.replies(host, buffer, n) == ReplyAt(env.oracle, host, buffer, n);
      match wire {
        case NoConnection => return Outcome(ZeroResponse, Some(ConnectError(host)));
        case WriteFailure => return Outcome(ZeroResponse, Some(WriteError(host)));
        case ReadFailure => return Outcome(ZeroResponse, Some(ReadError(host)));
        case Bytes(response) =>
          if |response| < PrefixLength {
            return Outcome(ZeroResponse, Some(ResponseTooShort(host, |response|)));
          }
          var header := response[..5];
          var data := response[PrefixLength..];
          if header != Header {
            return Outcome(ZeroResponse, Some(InvalidHeader(header)));
          }
          match env.oracle.unmarshal(data) {
            case None => return Outcome(ZeroResponse, Some(InvalidJson(host)));
            case Some(res) => return Outcome(res, None);
          }
      }
    }

    /** sendWithRedirects: at most maxRedirects+1 rounds of sendOnce,
        following each redirect to its address. */
    method SendWithRedirects(p: Packet, startHost: string, env: Environment) returns (o: Outcome)
      requires env.Coherent()
      modifies env
      ensures var run := env.loops(env.frames(p), startHost, maxRedirects, |old(env.log)|);
        o == run.outcome && env.log == old(env.log) + run.contacts
    {
      ghost var frame := env.frames(p);
      ghost var target := env.loops(frame, startHost, maxRedirects, |env.log|);
      assert target == Redirects(env.replies, frame, startHost, maxRedirects, |env.log|);
      ghost var log0 := env.log;
      ghost var done: seq<Contact> := [];
      var res := ZeroResponse;
      var currentHost := startHost;
      var redirectCount: nat := 0;
      assert target == env.chains(frame, startHost, currentHost, redirectCount, maxRedirects, |env.log|, res);
      while redirectCount <= maxRedirects
        invariant env.log == log0 + done
        invariant target == After(done, env.chains(frame, startHost, currentHost, redirectCount, maxRedirects, |env.log|, res))
        decreases maxRedirects - redirectCount
      {
        ghost var previousDone := done;
        var once, step := RedirectRound(p, startHost, currentHost, redirectCount, res, env);
        AppendAssociative(log0, done, [Contact(currentHost, frame)]);
        done := done + [Contact(currentHost, frame)];
        res := once.res;
        if step.Stop? {
          return step.outcome;
        }
        ghost var rest := env.chains(frame, startHost, step.next, redirectCount + 1, maxRedirects, |env.log|, res);
        AppendAssociative(previousDone, [Contact(currentHost, frame)], rest.contacts);
        currentHost := step.next;
        redirectCount := redirectCount + 1;
      }
      env.Exceeded(frame, startHost, currentHost, redirectCount, maxRedirects, |env.log|, res);
      return Outcome(res, Some(MaxRedirectsExceeded(startHost)));
    }

    /** One round of sendWithRedirects: sendOnce to the current host, then
        the checks on its answer; the round either ends the loop or hands it
        the next host. */
    method RedirectRound(p: Packet, startHost: string, currentHost: string, redirectCount: nat, ghost last: Response,
                         env: Environment) returns (once: Outcome, step: Step)
      requires env.Coherent() && redirectCount <= maxRedirects
      modifies env
      ensures env.log == old(env.log) + [Contact(currentHost, env.frames(p))]
      ensures var here := env.chains(env.frames(p), startHost, currentHost, redirectCount, maxRedirects, |old(env.log)|, last);
        && (step.Stop? ==> here == Run(step.outcome, [Contact(currentHost, env.frames(p))]))
        && (step.Follow? ==> here == After([Contact(currentHost, env.frames(p))],
              env.chains(env.frames(p), startHost, step.next, redirectCount + 1, maxRedirects, |env.log|, once.res)))
    {
      ghost var n := |env.log|;
      once := SendOnce(p, currentHost, env);
      step := CheckRound(currentHost, once);
      ghost var frame := env.frames(p);
      assert env.chains(frame, startHost, currentHost, redirectCount, maxRedirects, n, last)
          == Chain(env.replies, frame, startHost, currentHost, redirectCount, maxRedirects, n, last);
      if step.Follow? {
        assert env.chains(frame, startHost, step.next, redirectCount + 1, maxRedirects, n + 1, once.res)
            == Chain(env.replies, frame, startHost, step.next, redirectCount + 1, maxRedirects, n + 1, once.res);
      }
    }

    /** Send: the cached host first, then every host of the list in order;
        the first list entry that succeeds is cached. */
    method Send(p: Packet, env: Environment) returns (o: Outcome)
      modifies this`primaryHost, env
      requires env.Coherent()
      ensures var run := env.sends(env.frames(p), hosts, old(primaryHost), maxRedirects, |old(env.log)|);
        o == run.outcome && env.log == old(env.log) + run.contacts && primaryHost == run.primary
    {
      ghost var spec := SendSpec(env.loops, env.frames(p), hosts, primaryHost, maxRedirects, |env.log|);
      ghost var log0 := env.log;
      var res := ZeroResponse;
      if primaryHost != "" {
        ghost var r := env.loops(env.frames(p), primaryHost, maxRedirects, |env.log|);
        o := SendWithRedirects(p, primaryHost, env);
        if o.err.None? {
          return;
        }
        primaryHost := "";
        res := o.res;
        ghost var rest := env.fallbacks(env.frames(p), hosts, 0, maxRedirects, |env.log|, res);
        assert rest == Fallback(env.loops, env.frames(p), hosts, 0, maxRedirects, |env.log|, res);
        o := SendToHosts(p, res, env);
        AppendAssociative(log0, r.contacts, rest.contacts);
      } else {
        assert env.fallbacks(env.frames(p), hosts, 0, maxRedirects, |env.log|, res)
            == Fallback(env.loops, env.frames(p), hosts, 0, maxRedirects, |env.log|, res);
        o := SendToHosts(p, res, env);
      }
    }

    /** The loop of Send over the host list, entered with the cache empty and
        last the response of the cached host, if it was tried. */
    method SendToHosts(p: Packet, last: Response, env: Environment) returns (o: Outcome)
      requires env.Coherent() && primaryHost == ""
      modifies this`primaryHost, env
      ensures var run := env.fallbacks(env.frames(p), hosts, 0, maxRedirects, |old(env.log)|, last);
        o == run.outcome && env.log == old(env.log) + run.contacts && primaryHost == run.primary
    {
      ghost var frame := env.frames(p);
      var list := hosts;
      ghost var spec := env.fallbacks(frame, list, 0, maxRedirects, |env.log|, last);
      ghost var log0 := env.log;
      ghost var done: seq<Contact> := [];
      var res := last;
      for k := 0 to |list|
        invariant primaryHost == ""
        invariant env.log == log0 + done
        invariant var rest := env.fallbacks(frame, list, k, maxRedirects, |env.log|, res);
          spec.outcome == rest.outcome && spec.contacts == done + rest.contacts && spec.primary == rest.primary
      {
        ghost var contacts;
        o, contacts := HostAttempt(p, list, k, res, env);
        AppendAssociative(log0, done, contacts);
        if o.err.None? {
          primaryHost := list[k];
          return;
        }
        ghost var rest := env.fallbacks(frame, list, k + 1, maxRedirects, |env.log|, o.res);
        AppendAssociative(done, contacts, rest.contacts);
        done := done + contacts;
        res := o.res;
      }
      env.Exhausted(frame, list, maxRedirects, |env.log|, res);
      assert env.log == log0 + (done + []);
      o := Outcome(res, Some(AllHostsFailed(|list|)));
    }

    /** One pass of the loop of Send: sendWithRedirects to hosts[k]; on
        success the loop ends with hosts[k] cached, otherwise it goes on with
        the next host. */
    method HostAttempt(p: Packet, list: seq<string>, k: nat, ghost last: Response, env: Environment)
      returns (o: Outcome, ghost contacts: seq<Contact>)
      requires env.Coherent() && k < |list|
      modifies env
      ensures env.log == old(env.log) + contacts
      ensures var here := env.fallbacks(env.frames(p), list, k, maxRedirects, |old(env.log)|, last);
        && (o.err.None? ==> here.outcome == o && here.contacts == contacts && here.primary == list[k])
        && (o.err.Some? ==> var rest := env.fallbacks(env.frames(p), list, k + 1, maxRedirects, |env.log|, o.res);
              here.outcome == rest.outcome && here.contacts == contacts + rest.contacts && here.primary == rest.primary)
    {
      ghost var frame := env.frames(p);
      ghost var n := |env.log|;
      ghost var r := env.loops(frame, list[k], maxRedirects, n);
      o := SendWithRedirects(p, list[k], env);
      contacts := r.contacts;
      assert env.fallbacks(frame, list, k, maxRedirects, n, last) == Fallback(env.loops, frame, list, k, maxRedirects, n, last);
      if o.err.Some? {
        assert env.fallbacks(frame, list, k + 1, maxRedirects, n + |r.contacts|, o.res)
            == Fallback(env.loops, frame, list, k + 1, maxRedirects, n + |r.contacts|, o.res);
      }
    }

    /** SendMetrics: split the metrics by mode, keeping their order, then send
        the trapper ones as "sender data" and the active ones as "agent data",
        each only when there are any. */
    method SendMetrics(metrics: seq<Metric>, env: Environment) returns (active: Outcome, trapper: Outcome)
      modifies this`primaryHost, env
      requires env.Coherent()
      ensures var run := MetricsSpec(env.sends, env.frames, metrics, hosts, old(primaryHost), maxRedirects, |old(env.log)|);
        && active == run.active && trapper == run.trapper
        && env.log == old(env.log) + run.contacts && primaryHost == run.primary
    {
      var trapperMetrics, activeMetrics := SplitByMode(metrics);
      active, trapper := Idle, Idle;
      ghost var log0 := env.log;
      ghost var t := Batch(env.sends, env.frames, trapperMetrics, false, hosts, primaryHost, maxRedirects, |env.log|);
      if |trapperMetrics| > 0 {
        trapper := Send(NewPacket(trapperMetrics, false, []), env);
      } else {
        assert env.log == old(env.log) + t.contacts;
      }
      ghost var a := Batch(env.sends, env.frames, activeMetrics, true, hosts, primaryHost, maxRedirects, |env.log|);
      ghost var mid := env.log;
      if |activeMetrics| > 0 {
        active := Send(NewPacket(activeMetrics, true, []), env);
      } else {
        assert env.log == mid + a.contacts;
      }
      AppendAssociative(log0, t.contacts, a.contacts);
    }

    /** RegisterHost as written: the second round sits behind a test that
        Send's result never passes (Delivery.RegisterOneRound). */
    method RegisterHost(host: string, hostMetadata: string, env: Environment) returns (err: Option<SendError>)
      modifies this`primaryHost, env
      requires env.Coherent()
      ensures var run := RegisterSpec(env.sends, env.frames, host, hostMetadata, hosts, old(primaryHost), maxRedirects, |old(env.log)|);
        err == run.err && env.log == old(env.log) + run.contacts && primaryHost == run.primary
    {
      var p := Packet("active checks", [], 0, 0, host, hostMetadata);
      var res := Send(p, env);
      if res.err.Some? {
        return Some(SendingPacket(res.err.value));
      }
      if res.res.response == "success" {
        return None;
      }
      p := Packet("active checks", [], 0, 0, host, hostMetadata);
      res := Send(p, env);
      if res.err.Some? {
        return Some(SendingPacket(res.err.value));
      }
      if res.res.response == "failed" {
        return Some(AutoregistrationFailed);
      }
      return None;
    }

    /** RegisterHost as its comment intends it: a first "failed" answer is
        followed by a second request, and only a second "failed" is an
        autoregistration failure. */
    method RegisterHostRetrying(host: string, hostMetadata: string, env: Environment) returns (err: Option<SendError>)
      modifies this`primaryHost, env
      requires env.Coherent()
      ensures var run := RegisterRetrySpec(env.sends, env.frames, host, hostMetadata, hosts, old(primaryHost), maxRedirects, |old(env.log)|);
        err == run.err && env.log == old(env.log) + run.contacts && primaryHost == run.primary
    {
      var p := Packet("active checks", [], 0, 0, host, hostMetadata);
      var res := Send(p, env);
      if res.err.None? {
        return None;
      }
      if res.res.response != "failed" {
        return Some(SendingPacket(res.err.value));
      }
      res := Send(p, env);
      if res.err.None? {
        return None;
      }
      if res.res.response == "failed" {
        return Some(AutoregistrationFailed);
      }
      return Some(SendingPacket(res.err.value));
    }
  }
}
