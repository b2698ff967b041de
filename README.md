# golang-zabbix-sender, modelled in Dafny

This is a model of the core of a Go client for the Zabbix sender protocol. The client packs metrics into
"sender data" (trapper) and "agent data" (active agent) requests. Each request goes out in a frame of the
header `ZBXD\x01`, an 8-byte little-endian length and the JSON body. The client reads the collector's
answer and follows proxy-group redirects. It tries an ordered list of collectors and caches the first
list host whose redirect loop ends in success (the host the loop started from, not a redirect target). It also parses the statistics a collector reports in its `info` text, and
it asks for host autoregistration with an "active checks" request.

The modules follow the source files:

- `Zabbix` (zabbix.dfy): the defaults, `Metric`, `NewMetric`, and the normalisation of collector addresses.
- `Packets` (packets.dfy): `Packet`, `NewPacket`, `DataLen` with its 32-bit little-endian length, and the request frame.
- `Responses` (responses.dfy): the reply types, `parseHostPort`, and `GetInfo` (a method with its loop).
  `GetInfo` is proved equal to a recursive specification. Lemmas then say when it succeeds and what each counter holds.
- `Text` (text.dfy): the parts of Go's `strings` and `strconv` that `GetInfo` uses: `Split`, `TrimSpace`,
  `Atoi` and the numeral syntax `ParseFloat` accepts.
- `Transport` (transport.dfy): the network as an oracle.
  - The oracle decides what each exchange yields: no connection, a failed write or read, or the bytes the collector sent.
  - The oracle is given the host, the request and the number of earlier exchanges.
  - It also holds the JSON encoder and decoder.
- `Delivery` (delivery.dfy): what `sendOnce`, `sendWithRedirects`, `Send`, `SendMetrics` and `RegisterHost`
  compute, as functions, and the properties proved about them.
- `Senders` (senders.dfy): the `Sender` class with the fields of the Go struct, its constructors and its methods.
  - The methods talk to an `Environment` object: the oracle plus the log of every exchange made.
  - Each method is proved to return, and to leave in the log and in `primaryHost`, exactly what the matching `Delivery` function says.

To keep the proofs of the methods small, `Environment` carries ghost function values. They stand for what
`sendOnce`, the redirect loop, the loop over the host list and `Send` yield. `Environment.Coherent` ties
each one to its `Delivery` definition. The constructor sets them from the oracle.

## Model

| member | source | states |
|---|---|---|
| Zabbix.NewMetric | zabbix.go:31-38 | host, key, value and mode are kept; clock and ns are those of the first optional time, or 0 when none is given |
| Zabbix.NormalizeHost | zabbix_test.go:512-557 | the result always has a ':'; an address with a ':' is unchanged, one without gets ":10051" (a rule inferred from the test table, see "## Left out") |
| Zabbix.NormalizeHostIdempotent | zabbix_test.go:512-557 | normalising a normalised address changes nothing; a fact about the inferred rule, not one the tests settle |
| Zabbix.NormalizeHostExamples | zabbix_test.go:518-531 | the four addresses of the three cases of the package's test table |
| Zabbix.NormalizeHosts | zabbix.go:54-57 | the loop gives one normalised address per input address, in input order |
| Packets.NewPacket | packet.go:20-34 | the request is "agent data" for active metrics and "sender data" otherwise; the metrics are kept; clock and ns come from the first optional time, or are 0; host and metadata are empty |
| Packets.LittleEndianRoundTrip | packet.go:37-42 | decoding the little-endian bytes of a number below 256^width gives the number back |
| Packets.DataLen | packet.go:37-42 | eight bytes: the JSON length modulo 2^32, little-endian in the low four, and zeros in the high four; read as a 64-bit little-endian number they give that length modulo 2^32 |
| Packets.RequestFrameLayout | sender.go:146-150 | the frame is the header at 0..5, the length field at 5..13 and the JSON body from 13 |
| Packets.RequestFrameRoundTrip | sender.go:146-150 | a receiver that reads the length field and then that many bytes gets the body back exactly when it is shorter than 2^32 bytes |
| Responses.ParseHostPort | response.go:31-36 | a redirect address is accepted exactly when it contains ':', and then unchanged |
| Responses.GetInfo | response.go:39-76 | equals the specification Info: not "success" is an error; not 4 ';' segments is an error; a segment without exactly 2 ':' tokens is an error; an unparsable "seconds spent" is an error |
| Responses.LastWithKey | response.go:50-73 | the index found holds the key and no later segment does; None means no segment holds it |
| Responses.ParseSegmentsSucceeds | response.go:50-73 | the loop over the segments succeeds exactly when every segment is accepted, so a bad counter value never makes it fail |
| Responses.ParseSegmentsFields | response.go:57-64 | on success each counter is the value of the last segment naming it (0 for a non-integer), or its earlier value when none does |
| Responses.InfoNeedsSuccess | response.go:42-44 | GetInfo fails on every reply that is not "success", including the zero reply returned beside an error |
| Responses.InfoSpec | response.go:39-76 | GetInfo succeeds exactly when the reply is "success", the info text has four segments and each is accepted; then processed, failed and total are the last values named |
| Responses.StandardInfo | response.go:39-76 | a standard "processed: P; failed: F; total: T; seconds spent: S" text parses into P, F and T |
| Responses.StandardSegments | response.go:46-49 | the standard info text splits into its four "key: value" segments |
| Responses.InfoExample | response.go:39-76 | the reply of the package's tests parses into processed 1, failed 0, total 1 |
| Text.Split | response.go:46-49 | one more piece than separators, and no piece contains the separator |
| Text.JoinSplit | response.go:46-49 | joining the pieces of a split with the separator gives the input back |
| Text.SplitJoin | response.go:46-49 | splitting joined separator-free pieces gives the pieces back |
| Text.TrimSpaceShape | response.go:55-56 | the trimmed text is a slice of the input with only white space before and after it, and it neither starts nor ends with white space; a text that does neither is unchanged |
| Text.Atoi | response.go:59-64 | a value exactly for an optionally signed digit string, and then the decimal value of its digits: as is with no sign or after '+', negated after '-' |
| Text.DecimalIsFloat | response.go:65-70 | digits, a point and digits are accepted by the float syntax |
| Delivery.Receive | sender.go:164-184 | success exactly when the answer has 13 bytes or more, the header matches and the body from byte 13 decodes, and then the decoded reply; every failure gives the zero reply and its own error: a failed dial, write or read gives the connect, write or read error for the host, a short answer the too-short error with its length, a wrong header the header error with the 5 bytes read, and a body that does not decode the JSON error |
| Delivery.ReceiveIgnoresLength | sender.go:169-178 | the length field of the answer is never read: answers with the same header and body are treated alike |
| Delivery.ReceiveResponseFrame | sender.go:169-184 | a collector answer framed as header, 8-byte length and body is accepted with its decoded body |
| Delivery.Round | sender.go:112-132 | a round follows a redirect exactly when sendOnce succeeded with a refusal whose address holds a ':', and goes to that address; otherwise it stops, keeps the reply, wraps a failed sendOnce, and reports no error only for "success"; a refusal without a redirect address stops with the "failed without redirect" error naming the host and the answer, and a non-empty address without ':' with the "invalid redirect address" error naming the address |
| Delivery.ChainShape | sender.go:111-135 | a redirect loop makes at most one exchange per round left, the first with the current host, all with the same request; it gives up only after using every round, and succeeds only on a "success" answer, which it returns |
| Delivery.ChainFollows | sender.go:118-132 | every exchange but the last was a refusal with a usable redirect address, and the next exchange went to that address; conversely, a usable redirect in the last answer is not followed only because every round was used |
| Delivery.ChainRedirected | sender.go:118-132 | every exchange of a redirect loop but the last was a refusal with a usable redirect address, and the next exchange went to that address |
| Delivery.ChainAnswer | sender.go:112-135 | the loop returns the reply of its last exchange (the previous reply when it makes none) and reports a failed last sendOnce as a wrapped error |
| Delivery.ChainVerdict | sender.go:112-135 | the loop ends without error exactly when its last answer is a "success", and gives up on the limit exactly when its last answer is a redirect it would follow |
| Delivery.ChainLast | sender.go:112-135 | the loop returns the reply of its last exchange (the previous reply when it gives up) and a failed sendOnce as a wrapped error; it ends without error exactly when the last answer is a "success", and gives up on the limit exactly when the last answer is a redirect it would follow |
| Delivery.RedirectsBounded | sender.go:107-136 | sendWithRedirects makes between 1 and MaxRedirects+1 exchanges (none when MaxRedirects is negative), starting with the start host; it succeeds exactly when the last answer is a "success" and gives up on the limit exactly when the last answer is a usable redirect, which happens only after MaxRedirects+1 exchanges |
| Delivery.RedirectLimit | sender.go:111-135 | a collector that redirects m times and then accepts: with m <= MaxRedirects the loop succeeds after m+1 exchanges; with more redirects it gives up with the limit error after MaxRedirects+1 exchanges |
| Delivery.RedirectsSound | sender.go:107-136 | whatever the collectors answer, every redirect loop has the shape Send relies on |
| Delivery.FallbackOrder | sender.go:97-103 | the host list is tried in list order, each host at most once, stopping at the first success; every try is the outcome of its host's redirect loop, started after the exchanges of the tries before it; the loop's exchanges are exactly those of its tries' redirect loops, in try order (ContactsBefore), and their number |
| Delivery.FallbackTries | sender.go:97-103 | each try of the host-list loop is the redirect loop of its host, started after the exchanges of the tries before it |
| Delivery.FallbackCount | sender.go:97-103 | the host-list loop's exchanges are exactly the exchanges of its tries' redirect loops, concatenated in try order, each loop started after the ones before it |
| Delivery.FallbackStops | sender.go:97-103 | the host-list loop makes a try while a host is left, and moves on only after a failed one |
| Delivery.FallbackCache | sender.go:97-104 | on success the last host tried is cached with its "success" reply; on failure every host was tried, the cache is empty and the error counts the hosts |
| Delivery.FallbackResult | sender.go:97-104 | on success the cached host is the last one tried, and the outcome is its redirect loop's "success" (every earlier loop failed, by FallbackOrder); on failure every host's redirect loop failed, the cache is empty and the error counts the hosts; the loop succeeds exactly when its last try does; the reply returned is the last try's, or the reply handed in when no host is left |
| Delivery.FallbackReply | sender.go:97-104 | the host-list loop returns the reply of its last try, the failed one included, or the reply handed in when it makes no try |
| Delivery.FallbackFirstSuccess | sender.go:97-103 | with collectors whose answers do not depend on earlier exchanges, the loop caches the first host whose redirect loop succeeds, after trying exactly the hosts up to it |
| Delivery.SendOrder | sender.go:87-105 | Send tries the cached host first, then the list in order, each at most once; when the cached host succeeds nothing else is tried; every try is the outcome of its candidate's redirect loop, started after the exchanges of the tries before it; Send's exchanges are exactly those of its tries' redirect loops, in try order (ContactsBefore), and their number |
| Delivery.SendTries | sender.go:87-105 | each try of Send is the redirect loop of its candidate (the cached host, then the list), started after the exchanges of the tries before it; Send's exchanges are exactly those of its tries' redirect loops, concatenated in try order |
| Delivery.SendStops | sender.go:87-105 | Send makes a try when it has a candidate, moves on only after a failed one, and keeps a cached host that succeeds without trying another |
| Delivery.SendCache | sender.go:87-105 | on success the last candidate tried is cached with its "success" reply; on failure every candidate was tried, the cache is empty and the error counts the listed hosts |
| Delivery.SendReply | sender.go:87-105 | Send returns the reply of its last try, the failed one included, or the zero Response when there is no candidate |
| Delivery.SendRequests | sender.go:87-105 | every exchange of Send carries the packet's frame, and the first goes to the cached host when there is one |
| Delivery.SendResult | sender.go:87-105 | Send succeeds only with a "success" reply, the outcome of the redirect loop of the last candidate tried, and then caches that candidate, never a redirect target (every earlier loop failed, by SendOrder); on failure every candidate's loop failed, the cache is empty and the error counts the listed hosts; it succeeds exactly when its last try does; the reply returned is the last try's (on failure too), or the zero reply when there is nothing to try |
| Delivery.SendFirstSuccess | sender.go:87-105 | with collectors whose answers do not depend on earlier exchanges, Send caches the first of the cached host and then the list hosts whose redirect loop succeeds, after trying exactly the candidates up to it |
| Delivery.SendsSound | sender.go:87-105 | every Send over well-shaped redirect loops has the shape SendMetrics and RegisterHost rely on |
| Delivery.OfMode | sender.go:63-69 | the metrics of one mode are at most the input and all of that mode |
| Delivery.OfModeAppend | sender.go:63-69 | taking one mode commutes with concatenation, so input order is kept |
| Delivery.OfModePartition | sender.go:63-69 | the two modes together hold every metric exactly once (same size, same multiset as the input) |
| Delivery.OfModeNone | sender.go:63-69 | with no metric of a mode, that mode's sub-batch is empty |
| Delivery.MetricsIdle | sender.go:71-82 | a mode without metrics is not sent and yields the zero reply and no error; when all metrics are of one mode the exchanges, the cache and that mode's outcome are exactly those of the one Send for that mode; with no metrics nothing is sent and the cache is kept |
| Delivery.TrapperIdle | sender.go:71-82 | when no metric is of "sender data" mode, SendMetrics makes exactly the exchanges of the "agent data" Send and the trapper outcome is the zero reply with no error |
| Delivery.ActiveIdle | sender.go:71-82 | when no metric is of "agent data" mode, SendMetrics makes exactly the exchanges of the "sender data" Send and the active outcome is the zero reply with no error |
| Delivery.BatchRequests | sender.go:71-80 | every exchange of a sub-batch carries that sub-batch's packet |
| Delivery.MetricsOrder | sender.go:71-80 | the "sender data" exchanges all come before the "agent data" ones |
| Delivery.BatchPackets | sender.go:71-80 | the trapper packet is "sender data" and holds only trapper metrics; the active packet is "agent data" and holds only active metrics |
| Delivery.RegisterOneRound | sender.go:189-216 | RegisterHost as written makes exactly one Send, succeeds exactly when it does, and never reports an autoregistration failure |
| Delivery.RegisterRetryRounds | sender.go:202-213 | the retrying registration succeeds when the first Send does, or when the first reply is "failed" and the second Send succeeds; it reports an autoregistration failure exactly when both replies are "failed"; otherwise it agrees with RegisterHost as written |
| Delivery.RefusesOnceReplies | sender.go:164-184 | the refuse-once collector answers "failed" to the first exchange and "success" to every later one |
| Delivery.RegisterRefusedOnce | sender.go:189-216 | against a collector that refuses once, RegisterHost as written fails while the retrying registration succeeds |
| Senders.Environment.constructor | sender.go:138-185 | a fresh network with an empty log, whose views are the definitions over the oracle |
| Senders.Environment.Sound | sender.go:87-136 | the redirect loops and Sends of a coherent network have the shapes proved in Delivery |
| Senders.Environment.Exchange | sender.go:140-167 | one exchange is appended to the log, and its result is the oracle's for that host, request and position |
| Senders.CheckRound | sender.go:113-132 | the checks after each sendOnce compute Round |
| Senders.SplitByMode | sender.go:60-69 | the loop splits the metrics into the trapper and the active ones, each in input order |
| Senders.Sender.NewSender | zabbix.go:41-50 | one normalised host, empty cache, the default redirect limit, flag and timeouts |
| Senders.Sender.NewSenderHosts | zabbix.go:53-66 | every host normalised in the given order, empty cache, the defaults |
| Senders.Sender.NewSenderTimeout | zabbix.go:69-83 | one normalised host, empty cache, the default redirect limit and flag, the given timeouts |
| Senders.Sender.SendOnce | sender.go:138-185 | one exchange of the packet's frame (header, DataLen, JSON) with the host is logged, and the result is what Receive makes of the answer |
| Senders.Sender.SendWithRedirects | sender.go:107-136 | the result and the exchanges logged are those of the redirect loop from the start host |
| Senders.Sender.RedirectRound | sender.go:112-132 | one logged exchange, then either the loop's result or the loop continuing at the next host and round |
| Senders.Sender.Send | sender.go:87-105 | the result, the exchanges logged and the new cached host are those of SendSpec |
| Senders.Sender.SendToHosts | sender.go:96-104 | the result, the exchanges logged and the new cached host are those of the loop over the host list |
| Senders.Sender.HostAttempt | sender.go:97-103 | one sendWithRedirects to the k-th host: on success the loop ends with that host cached, otherwise it continues with the next host |
| Senders.Sender.SendMetrics | sender.go:59-83 | both result pairs, the exchanges logged and the new cached host are those of MetricsSpec |
| Senders.Sender.RegisterHost | sender.go:189-216 | the error, the exchanges logged and the new cached host are those of RegisterSpec (the code as written) |
| Senders.Sender.RegisterHostRetrying | sender.go:202-213 | the error, the exchanges logged and the new cached host are those of RegisterRetrySpec (the retry the comment describes) |

## Left out

- Sockets, dialing, deadlines and the three timeouts: the network is an oracle. It is given the host, the request and the index of the exchange. The timeouts are stored but never read by the model.
- JSON encoding and decoding (`json.Marshal`, `json.Unmarshal`): these are functions of the oracle. A reply that does not decode gives the zero reply beside the error. `json.Unmarshal` may have filled part of the reply before failing, and that partial reply is not modelled.
- Error texts: each `fmt.Errorf` is a constructor of `SendError` carrying the values the text names. The timeout values printed in the texts are dropped.
- `Responses.ResponseInfo`: has no `Spent`. Only whether the "seconds spent" value parses as a float is modelled, not the float or its conversion to a duration.
- Text.Atoi: has no 64-bit range check. An out-of-range counter keeps its unbounded value, where Go's `Atoi` clamps it.
- Text.IsFloat: covers decimal numerals with an optional exponent. It does not cover the hexadecimal, "inf", "nan" and underscore forms `strconv.ParseFloat` also accepts. It also has no float64 range: a well-formed numeral too large for a float64, such as "1e400", is accepted, where `strconv.ParseFloat` returns a range error and GetInfo (response.go:67-68) fails.
- Package: the four files are modelled as one package, although zabbix.go:2 declares `package zabbix_sender` and the other three `package zabbix`; as written the Go files do not build together.
- `normalizeHost`: its source file is not part of this model. The test table (zabbix_test.go:512-557) fixes four addresses only; the rule modelled, append ":10051" when the address has no ':', is inferred from them. Inputs such as "[::1]" or "host:" are not settled by the tests. Zabbix.NormalizeHostIdempotent is a fact about this inferred rule, not about the source.
- `NewSenderTimeout` in sender.go:24-38: this is a second definition that does not normalise the host. The model follows the one in zabbix.go:69-83.
- `UpdateHost`: it is set by the constructors and read nowhere, so it is a field with no behaviour.
- Go's variadic `t ...time.Time`: it is a sequence of which only the first element is read. `Time` holds only `Unix()` and `Nanosecond()`.
- Concurrency: a `Sender` shared by goroutines is not modelled. `Send` changes `PrimaryHost` without a lock.
- Senders.Environment.Exchange: logs the host and request even when the dial fails. The log is a record of attempts, not of bytes sent.
- Closing the connection (`defer conn.Close()`) is not modelled.

## Findings

| source | as written | input that shows it | evidently intended | confidence | as-written member | corrected member |
|---|---|---|---|---|---|---|
| sender.go:193-213 | `Send` returns no error only with a "success" reply, so `RegisterHost` returns at line 199 or earlier, and the second request of lines 204-213 never goes out; a first "failed" answer is reported as a sending error | a collector that answers "failed" to the first "active checks" request and "success" to the second (`Delivery.RefusesOnce`) | after a first "failed" answer the request is sent a second time, and only a second "failed" is an autoregistration failure, as the comment at lines 202-203 says | not executed | Delivery.RegisterOneRound | Delivery.RegisterRetryRounds |
