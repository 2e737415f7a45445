# go_proxy_mux: a verified model

go_proxy_mux is an HTTP proxy that authenticates its clients and sends each request through one of
several upstream proxies (HTTP, HTTPS, SOCKS4 or SOCKS5). This project models the part that decides
and negotiates, and proves what it promises for every input, every run and every interleaving:

- **AuthLimit, AuthHistory** - the failed-login limiter: a bounded least-recently-used cache of
  fixed-window counters with block periods. The cache answers exactly like a limiter that never
  forgets while the working set fits; few guesses pass unblocked; every block is justified.
- **Admission** - the order in which a request meets credentials, limiter and balancer.
- **Balancer, Fairness** - the choice of an upstream, cooldown as a function of history, freedom
  from starvation and exact round-robin while the health of upstreams changes.
- **Failover, Dispatch** - the two-attempt loops, for any script of outcomes and any interference,
  and the whole request around them.
- **SocksWire, SocksClient, SocksAgreement** - the SOCKS4/4a and SOCKS5 client, a decoding server,
  and their dialogue over two byte streams under any fragmentation (sections 3, 4 and 6 of
  RFC 1928, section 2 of RFC 1929).
- **ConnectReader, StatusLine** - the budgeted reader of an upstream's answer to CONNECT, and which
  status its bytes say.
- **Limits, Tunnels, Lifecycle** - the concurrency limiter, the tunnel registry, shutdown, and the
  life of a CONNECT request across them, in every interleaving of their critical sections.
- **BodyWatchdog, SetupRace, Relay** - the timers: small concurrent protocols with explicit time.
- **EnvFile, EnvLine, EnvOverrides** - configuration from environment files and variables.
- **Unicode, Prelude** - characters and their UTF-8 bytes, and facts about sequences.

What the code and its theorems share is stated a second time, by inputs and outputs alone: `Kept` and
`Expected` for whole requests, `Expressible4` and `Expressible5` for destinations, `Says` for a status
line, `Means` for a line of a file, and lemmas named `...Exactly` connect the two.

Objects that the program updates in place are classes, and each method's contract ties the new state
to a function of the old one; the theorems are about those functions. Goroutines are transition
systems: `Do` is one step, a step that is not possible changes nothing, `Run` is any sequence of
steps. Time is an unbounded integer, the zero time is `None`, and text of the network is bytes.

Where the repository's own documentation and the code differ, the model follows the code: the
limiter evicts the address that has not *attempted* for longest, not the one whose record is oldest.

Verify everything with `dafny verify dfyconfig.toml`.

## Model

| member | source | states |
|---|---|---|
| AuthLimit.AttemptValid | internal/proxy/auth_limit.go:43-85 | Every attempt keeps map and list in bijection, at most maxIPs records, 1 <= count <= maxAttempts, and a block set exactly when count reaches maxAttempts |
| AuthLimit.AuthFailureLimiter.Attempt | internal/proxy/auth_limit.go:43-85 | The object's map and list move as the pure cache does and give its answer, on every branch - blocked, valid, new window, counted, evicting - under the address itself, or "unknown" when it is empty |
| AuthLimit.AuthFailureLimiter.constructor | internal/proxy/auth_limit.go:29-39 | A new limiter is an empty, valid cache |
| AuthLimit.AuthFailureLimiter.MakeRoom | internal/proxy/auth_limit.go:66-71 | A full cache drops exactly its least recent address |
| AuthHistory.TableAtValid | internal/proxy/auth_limit.go:43-85 | The cache invariant holds in every run from a new limiter |
| AuthHistory.Retained | internal/proxy/auth_limit.go:50-73 | While fewer than maxIPs others attempt between its attempts, an address keeps exactly the record it would have without eviction, and those after it in the list are the others seen since |
| AuthHistory.BoundedRefinesUnbounded | internal/proxy/auth_limit.go:50-73 | If fewer than maxIPs distinct other addresses attempt between consecutive attempts of an address, every answer to it is that of a limiter with no eviction |
| AuthHistory.TrackedExactly | internal/proxy/auth_limit.go:50-73 | In a run of failures an address is tracked iff it has attempted and fewer than maxIPs distinct others have attempted since: the working-set bound is exact |
| AuthHistory.EvictionForgets | internal/proxy/auth_limit.go:66-73 | The condition cannot be dropped: once maxIPs others have failed since, the failure that should start a block is answered 0 |
| AuthHistory.GuessBound | internal/proxy/auth_limit.go:56-84 | For every run with block >= window: attempts of one address that span less than a window contain at most 2 * maxAttempts - 3 failures answered 0, one fewer than counting two full windows, plus maxAttempts - 1 for each time that others evict its record within the span |
| AuthHistory.GuessBoundUnevicted | internal/proxy/auth_limit.go:56-84 | The plain bound, whenever the record is not evicted within the span, whatever happened before or after |
| AuthHistory.GuessBoundByAttempts | internal/proxy/auth_limit.go:56-84 | The same bound by what can be counted outside: evictions within the span are at most one, and one more for every maxIPs attempts of other addresses in it |
| AuthHistory.EvictionTakesOthers | internal/proxy/auth_limit.go:66-71 | A record is evicted only once maxIPs distinct other addresses have attempted since its own last attempt |
| AuthHistory.GuessBoundUnbounded | internal/proxy/auth_limit.go:56-84 | The same bound for the limiter that never evicts, by a potential that every unblocked failure spends |
| AuthHistory.GuessBoundIsTight | internal/proxy/auth_limit.go:56-84 | With maxAttempts >= 2 and a window of at least two ticks of the clock there is a run without evictions that reaches the bound |
| AuthHistory.BlockIsJustified | internal/proxy/auth_limit.go:56-84 | A positive answer, evictions included, is what remains of a block started by the last of exactly maxAttempts failures of that address within less than a window, with no valid login between |
| AuthHistory.AddressesApart | internal/proxy/auth_limit.go:43-85 | An attempt of one address leaves the record of another alone or evicts it; only the empty address and "unknown" share one |
| AuthHistory.AnswerAtMostBlock | internal/proxy/auth_limit.go:56-58 | On a monotone clock each answer lies between 0 and block |
| AuthHistory.RetryAfter | internal/proxy/server.go:122-126 | The header is the least whole number of seconds that covers the wait |
| AuthHistory.RetryAfterSuffices | internal/proxy/server.go:118-135 | A valid login after the rounded-up Retry-After, with no attempt of that address between, is answered 0, evictions included |
| AuthHistory.WaitIsExact | internal/proxy/auth_limit.go:56-64 | Valid credentials, the next attempt of the address, are answered 0 if and only if the wait is over or others have evicted the record meanwhile |
| Admission.ServeHTTP | internal/proxy/server.go:118-146 | Limiter, then credentials, then balancer, each with its own reading of the clock; each is touched only when the ones before let the request pass |
| Admission.AtIsRun | internal/proxy/server.go:118-146 | The states that the run theorems speak of are those that one request after another leads to |
| Admission.ReplyByAnswer | internal/proxy/server.go:118-135 | 429 exactly for a positive answer, with the whole seconds that cover it; 407 exactly for an unblocked failure; 502 exactly for an admitted request that finds no upstream eligible; otherwise the balancer's choice |
| Admission.OnlyAdmittedTurn | internal/proxy/server.go:118-146 | Over every run the balancer stands as if the refused requests had never been made |
| Admission.RetryAfterIsHonoured | internal/proxy/server.go:118-135 | A client that waits for Retry-After and returns with valid credentials gets neither 429 nor 407 |
| Admission.BlockIsJustified | internal/proxy/server.go:118-135 | A 429 comes with exactly maxAttempts requests of that very address, all failures, within less than a window, and its Retry-After is the least number of seconds that covers the rest of the block |
| Admission.ChallengeBound | internal/proxy/server.go:118-135 | The guess bound as seen by clients, for every run: how many wrong credentials one address can have answered 407 within a window, with and without evictions of its record |
| Admission.ChallengeBoundByRequests | internal/proxy/server.go:118-135 | That bound in terms of the requests from other addresses |
| Balancer.AheadIsModulo | internal/balancer/balancer.go:60-67 | The cyclic step of the model is the program's remainder |
| Balancer.ChosenMeaning | internal/balancer/balancer.go:43-70 | Next finds an upstream if and only if one is healthy and not excluded, and it is the only possible choice for a state and a draw |
| Balancer.RandomIsFair | internal/balancer/balancer.go:46-58 | With random selection the draws below the number of eligible upstreams choose each of them, and no two of them the same |
| Balancer.Balancer.constructor | internal/balancer/balancer.go:31-40 | All upstreams start healthy and round-robin starts at the first |
| Balancer.Balancer.Next | internal/balancer/balancer.go:43-70 | Fails exactly when no upstream is eligible; otherwise the first eligible one from current on, cyclically, or the drawn one, with its entry; only current moves |
| Balancer.Balancer.Scan | internal/balancer/balancer.go:60-67 | The loop finds the available upstream that is cyclically nearest to current |
| Balancer.Balancer.MarkFailure | internal/balancer/balancer.go:73-79 | Starts one upstream's cooldown; an index out of range changes nothing |
| Balancer.Balancer.MarkSuccess | internal/balancer/balancer.go:82-88 | Ends one upstream's cooldown; an index out of range changes nothing |
| Fairness.NextFollowsHistory | internal/balancer/balancer.go:43-88 | Over every trace: Next fails iff no non-excluded upstream is healthy, and one it returns is; healthy means the last mark is absent, a success, or a failure at least cooldown old |
| Fairness.UntilIsLastMark | internal/balancer/balancer.go:73-88 | The stored instant is a function of the last mark alone |
| Fairness.NoStarvation | internal/balancer/balancer.go:43-70 | An upstream eligible at each of n consecutive Next calls is selected in one of them, whatever happens to the others |
| Fairness.LapConservation | internal/balancer/balancer.go:60-67 | With a steady healthy set every selection moves each healthy upstream one turn: the ledger behind exactness |
| Fairness.LapIsPermutation | internal/balancer/balancer.go:60-67 | With a steady healthy set H every H-size run of consecutive selections picks each member of H exactly once |
| Fairness.FairShare | internal/balancer/balancer.go:60-67 | Over any number of selections the shares of two healthy upstreams differ by at most one |
| Fairness.LapOrder | internal/balancer/balancer.go:60-67 | Within laps the upstream selected is the one whose place in cyclic order equals the number of calls since, modulo the size of H |
| Failover.HandleConnect | internal/proxy/connect.go:56-82 | The loop of CONNECT requests has exactly the events and balancer operations of the specification, under any interference; a tunnel answers 200, or what its relay says when it cannot start |
| Failover.ForwardRequest | internal/proxy/http.go:29-91 | The same for the loop of plain requests, which retries a bodyless GET or HEAD only, with replies that break off |
| Failover.FailOver | internal/proxy/connect.go:67-79 | After a failed attempt: the mark, if it deserves one, and an alternate other than the failed upstream |
| Failover.FailoverContract | internal/proxy/http.go:27-91 | From any upstream given, by the outcomes alone: a second try exactly when the request may be retried, the first upstream failed or answered 407, the client is there and another is eligible; the reply by the last outcome - none, 504, 502, the status, or how the tunnel's relay starts - never 407, cut off iff a body could not be copied; an upstream is marked bad iff it failed, other than by an unsupported destination or a client that left, or answered 407, and good iff it answered otherwise |
| Failover.FailureEffect | internal/proxy/connect.go:67-79 | An unsupported destination leaves the balancer as it is; any other failure of an upstream makes that one, and no other, ineligible until the cooldown is over |
| Dispatch.Handle | internal/proxy/server.go:118-146 | A whole request, from its credentials to its last attempt, has exactly the events and the effects of the specification |
| Dispatch.WholeRequest | internal/proxy/server.go:118-146 | Which status each request gets, in the program's order: 429 for a block, 407 for its credentials, 502 when no upstream is eligible, 400, 505, 500 and 429 for the checks before the loop, each without a try; any other request tries the balancer's choice and goes on as the loops must; at most one reply, and 407 exactly for the client's own credentials |
| Dispatch.RelayReplies | internal/proxy/tunnel.go:168-219 | A tunnel that shutdown refuses is answered 503 over HTTP/2 only, and over HTTP/2 one that came up is always answered |
| SocksWire.PortRoundTrip | internal/socks/socks.go:115 | The two port bytes carry every accepted port without truncation |
| SocksWire.PassesExactly | internal/socks/socks.go:45-61 | The checks before and in the handshake pass if and only if the protocol can express port, destination and credentials: SOCKS4 an address that is not 0.0.0.x or a name of 1 to 255 bytes without NUL, a USERID of at most 255 bytes without NUL and no password; SOCKS5 every kind of host, and both credentials of 1 to 255 bytes |
| SocksWire.RefusesExactly | internal/socks/socks.go:48-61 | Which refusals are "unsupported destination", the ones that cost an upstream nothing, and which are plain errors |
| SocksWire.Request4Heard | internal/socks/socks.go:111-133 | A server that decodes byte by byte hears exactly the port, the address or hostname and the USERID, and stops at the request's last byte |
| SocksWire.Request4Unambiguous | internal/socks/socks.go:111-133 | The encoding is injective and self-delimiting on accepted inputs: an address is never taken for a 4a hostname or the reverse |
| SocksWire.HearableIsSent4 | internal/socks/socks.go:111-133 | Completeness: whatever a SOCKS4 server can hear from any bytes within the limits on lengths is not refused |
| SocksWire.ReservedRefusalIsNeeded | internal/socks/socks.go:121-123 | A server hears an IPv4 destination as itself if and only if the address is not reserved for 4a |
| SocksWire.GreetingHeard | internal/socks/socks.go:148-157 | The greeting offers exactly the method that the credentials call for |
| SocksWire.AuthHeard | internal/socks/socks.go:165-172 | The server hears exactly the username and password; length bytes never truncate |
| SocksWire.Request5Heard | internal/socks/socks.go:181-197 | The port and the address or hostname are heard exactly, for all three address types |
| SocksWire.Request5Unambiguous | internal/socks/socks.go:181-197 | The SOCKS5 request is injective and self-delimiting on accepted inputs |
| SocksWire.HearableIsSent5 | internal/socks/socks.go:181-197 | Completeness: whatever a SOCKS5 server can hear from any bytes, with a name without NUL, is not refused |
| SocksClient.WriteAll | internal/socks/socks.go:229-241 | Under any partial writes it sends exactly the data, or a prefix of it; it fails if and only if one of its writes failed or took nothing |
| SocksClient.ReadFull | internal/socks/socks.go:138-140 | Under any fragmentation it reads exactly the bytes asked for, or what there was |
| SocksClient.Connect4 | internal/socks/socks.go:111-145 | The dialogue follows the client of the specification byte for byte and reports how that ends, or a broken connection if and only if a write was faulty; refused inputs send nothing |
| SocksClient.Connect5 | internal/socks/socks.go:147-227 | The same for SOCKS5, with all reply address types |
| SocksClient.FinishReply5 | internal/socks/socks.go:202-226 | The bound address is skipped in full before the status decides, and nothing is written |
| SocksClient.Succeeds4Exactly | internal/socks/socks.go:137-145 | On any bytes a SOCKS4 handshake succeeds iff eight arrive and the first two are 0 and 90; the rest stays unread |
| SocksClient.Succeeds5Exactly | internal/socks/socks.go:158-226 | On any bytes a SOCKS5 handshake succeeds iff they are the offered method, with credentials their acceptance, and a CONNECT reply with status 0 and its address; the rest stays unread |
| SocksClient.Dial | internal/socks/socks.go:45-61 | Exactly the destinations and credentials that the protocol can express reach the wire, and any other dial fails as unsupported or invalid, by its inputs, before a byte moves; the dial reports how the handshake ends, or a broken connection if and only if a write was faulty |
| SocksAgreement.Confluence | internal/socks/socks.go:111-241 | All schedules of client and server end in the same state after the same number of moves |
| SocksAgreement.Agreement | internal/socks/socks.go:111-227 | With a conforming server and any fragmentation the handshake always ends; the client succeeds iff the server granted, and then the server has heard exactly what the client was given |
| SocksAgreement.NoEndlessHandshake | internal/socks/socks.go:111-227 | No schedule goes on forever |
| SocksAgreement.ExactConsumption | internal/socks/socks.go:137-227 | The client reads exactly the server's handshake bytes, so the next byte is the first of the tunnel, and sends exactly what the server was sent |
| SocksAgreement.DialServer | internal/socks/socks.go:81-95 | The dialling code against a conforming server succeeds iff the server grants, and leaves exactly the tunnel's bytes unread, unless a write is faulty, which is then what it reports |
| SocksAgreement.FollowsDrive | internal/socks/socks.go:111-227 | The client of the dialogue is the one that the dialling methods are proved to follow |
| ConnectReader.Reader.ReadLine | internal/proxy/connect.go:215 | The library reader as used here: a line or, when it does not fit the buffer, a piece of it |
| ConnectReader.ReadLimitedLine | internal/proxy/connect.go:212-231 | Joins and charges pieces so that a line is accepted exactly when it fits the budget, however it is cut up |
| ConnectReader.ReadConnectStatus | internal/proxy/connect.go:184-210 | Its result and the position it leaves are a function of the bytes alone, and it stops within the budget and one buffer on an endless stream |
| ConnectReader.AcceptedExactly | internal/proxy/connect.go:184-231 | A response is accepted iff it starts with a complete block whose lines cost at most 65536 bytes, counted as length + 2 through the empty line; the reader is left right after it |
| ConnectReader.BlockOutcome | internal/proxy/connect.go:184-231 | A well-formed block is accepted iff it fits, and tunnel bytes after it are untouched |
| ConnectReader.AcceptedLines | internal/proxy/connect.go:214-225 | An accepted block has at most 32768 lines |
| ConnectReader.DecidedByPrefix | internal/proxy/connect.go:184-231 | 65537 bytes decide the outcome, whatever follows |
| StatusLine.FieldsAreWords | internal/proxy/connect.go:190 | Splitting at Unicode white space yields words: not empty and without white space |
| StatusLine.SpaceAtUtf8 | internal/proxy/connect.go:190 | White space is found in bytes exactly where the UTF-8 form of a white space character stands |
| StatusLine.StatusExactly | internal/proxy/connect.go:190-198 | A status line is understood as n iff it is white space, HTTP/1.0 or HTTP/1.1, white space, perhaps a plus sign and zeros, three digits d0, d1, d2 with n = 100 * d0 + 10 * d1 + d2 from 100 to 599, and then nothing or white space and anything |
| StatusLine.ResponseExactly | internal/proxy/connect.go:184-231 | The bytes are accepted with status n iff they start with a response block that says n and fits the budget; what follows it is left |
| StatusLine.ReadResponse | internal/proxy/connect.go:184-210 | The code returns the status that the upstream's response says and stands right after it, if and only if there is such a response within the budget |
| StatusLine.AwaitTunnel | internal/proxy/connect.go:162-174 | The upstream grants a tunnel iff its response says 200, and the next byte is the tunnel's first |
| Limits.ConcurrentLimiter.TryAcquire | internal/proxy/limits.go:24-35 | Grants a slot exactly when both limits allow, and then counts it under the host itself, or "unknown" when it is empty |
| Limits.Slot.Release | internal/proxy/limits.go:36-47 | Gives the slot back once; a later call changes nothing |
| Limits.LimitedConnection.Close | internal/proxy/limits.go:80-84 | Closes, and gives the slot back on the first call only |
| Limits.LimitedListener.Accept | internal/proxy/limits.go:59-72 | Returns the first arrival that the limits admit at its time, closes exactly those before it, and counts the accepted one |
| Limits.SlotConservation | internal/proxy/limits.go:24-48 | In every interleaving total is the number of grants not given back and the sum of perKey, each key's count is that of its grants, no key is kept at zero, and both limits hold |
| Limits.RefusedExactly | internal/proxy/limits.go:28-32 | An acquire is refused iff that many grants are really out, in all or to the same host: no slot is lost, counted twice or counted for another host |
| Limits.AllGivenBack | internal/proxy/limits.go:36-47 | When every grant is given back the limiter is as new, its map empty |
| Tunnels.TunnelRegistry.Track | internal/proxy/tunnel.go:29-46 | Adds the pair and counts it, or refuses once closing is set |
| Tunnels.TunnelRegistry.Release | internal/proxy/tunnel.go:37-45 | Removes an active pair and uncounts it; otherwise nothing |
| Tunnels.TunnelRegistry.CloseAll | internal/proxy/tunnel.go:48-59 | Sets closing and closes every pair that was active |
| Tunnels.RegistrySound | internal/proxy/tunnel.go:29-59 | In every interleaving the wait group counts the active pairs, and after closeAll every active pair has had close called |
| Tunnels.OnlyShrinks | internal/proxy/tunnel.go:29-46 | Once closing is set no pair is tracked and the wait group is never added to again |
| Tunnels.NoTunnelEscapes | internal/proxy/run.go:37-61 | Whatever runs before and after, once closeAll has returned no pair is active and open, and after a nil waitFor none is active at all |
| Tunnels.ShutdownCanEnd | internal/proxy/run.go:37-61 | From every moment before waitFor has returned, shutdown's own steps reach waitFor; there the context can end it, and it returns nil iff no pair is active, which releases can always bring about |
| Lifecycle.AlwaysValid | internal/proxy/connect.go:50-66 | Limiter, registry and the stage of each request agree in every interleaving |
| Lifecycle.TunnelsWithinLimits | internal/proxy/tunnel.go:168-219 | Tracked tunnels never exceed the slots held, so never MaxTunnels in all nor MaxTunnelsPerIP for one client address |
| Lifecycle.CleanShutdown | internal/proxy/run.go:37-61 | No pair leaves the registry open; after closeAll every pair ever tracked was closed, and after a nil waitFor each has left the registry |
| Lifecycle.ShutdownProgress | internal/proxy/run.go:37-61 | From closing on, the registry is empty after exactly the outstanding cleanup steps, nothing adds to them, and until then an owner has one to make |
| Lifecycle.CanLeave | internal/proxy/connect.go:50-66 | No slot is held for good: in every reachable world each request can leave by at most four steps of its own, its slot given back and its tunnel untracked |
| Lifecycle.InterruptOnlyCloses | internal/proxy/tunnel.go:168-219 | A pair closed from outside its request changes no account; the request still has to leave |
| Lifecycle.FreedAcquired | internal/proxy/limits.go:24-48 | Acquire and release cancel out, if and only if no key was kept at zero |
| Lifecycle.RelayHTTP1 | internal/proxy/tunnel.go:168-191 | On every path the upstream ends closed, the pair too once hijacked, and the registry is as before |
| Lifecycle.HandleConnect | internal/proxy/connect.go:50-66 | On every path the slot taken is given back and the registry is as before |
| BodyWatchdog.Watch | internal/proxy/http_body.go:49-66 | The loop cancels at the first wake-up that finds the stamp idleTimeout old, unless the copy ended before; every reset is for exactly the rest of the timeout |
| BodyWatchdog.GivesUpOnlyWhenIdle | internal/proxy/http_body.go:57-61 | When it decides to give up with no Read on the way to its store, the last Read that returned bytes is at least idleTimeout old, whatever the lag |
| BodyWatchdog.WrongExactlyBeforeStore | internal/proxy/http_body.go:20-26 | With a lag below half the timeout the decision, taken at the load, is wrong if and only if a Read has returned bytes and not yet stored its stamp |
| BodyWatchdog.GivesUpOnFreshBytes | internal/proxy/http_body.go:57-61 | For every timeout and lag there is a run in which it does decide so on bytes that have just arrived |
| BodyWatchdog.CancelIsRightExactly | internal/proxy/http_body.go:57-62 | With a lag below a third of the timeout the cancel itself is right - no bytes for idleTimeout - if and only if no Read is on its way to a store and none has stored since the load; it is then final |
| BodyWatchdog.CancelsOnlyWhenIdle | internal/proxy/http_body.go:57-62 | Under that condition the cancel is right whatever the lag |
| BodyWatchdog.CancelsOnStoredBytes | internal/proxy/http_body.go:57-62 | For every timeout and lag there is a run in which bytes are stored between load and cancel and the watchdog cancels at that very moment |
| BodyWatchdog.StoppedNeverCancels | internal/proxy/http_body.go:53-66 | Once it has learned that the copy has ended, the watchdog never cancels |
| BodyWatchdog.CancelsInTime | internal/proxy/http_body.go:53-65 | If stamps stop at L it cancels by L + idleTimeout + six lags |
| BodyWatchdog.ClockNeverStuck | internal/proxy/http_body.go:53-65 | That bound is not met by stopping the clock |
| BodyWatchdog.WakesAtMostOncePerStore | internal/proxy/http_body.go:53-65 | It wakes up at most once more than there are stores |
| SetupRace.ExactlyOneWinner | internal/proxy/http.go:98-113 | Exactly one of "headers received" and "timed out" wins; the caller reports a timeout iff the timer won, and otherwise gives the response or the client's error |
| SetupRace.ReturnedResponseIsSafe | internal/proxy/http.go:98-121 | A returned response is never cancelled by the setup timer and its body stays open, whatever happens later; it is cancelled iff the client leaves or its holder cancels; any other response has its body closed and its context cancelled |
| SetupRace.DoHTTPRequest | internal/proxy/http.go:95-122 | The code with its atomic variable ends as the run of its steps does: a timeout iff the timer fired before the swap, else the client's error or the response, whose body is closed unless it is returned |
| Relay.IdleCloser.Touch | internal/proxy/tunnel.go:110-116 | Sets the timer anew, unless stopped |
| Relay.IdleCloser.Stop | internal/proxy/tunnel.go:118-123 | Stops for good |
| Relay.ReturnsAfterBoth | internal/proxy/tunnel.go:142-165 | The relay returns only with both copies' results, each once; no copy waits for room in the channel; with both results sent the relay always goes on |
| Relay.ClosedExactly | internal/proxy/tunnel.go:158-162 | The pair is closed iff the copy that ended first had failed, the idle timer went off, or shutdown or the client's context closed it: a clean end of one direction leaves the other open; a copy's result is that of its io.Copy |
| Relay.EveryReturn | internal/proxy/tunnel.go:142-165 | Each way to return has a run: either copy first, each with or without a failure; then the pair is closed iff the first failed |
| Relay.ExpiresOnlyWhenIdle | internal/proxy/tunnel.go:104-116 | The timer goes off only idleTimeout after the last touch, so after bytes last moved when no touch is pending, whatever the lag |
| Relay.ExpiryIsRightExactly | internal/proxy/tunnel.go:77-116 | With a lag below the timeout it goes off on an idle tunnel if and only if no touch is pending |
| Relay.CloseIsRightExactly | internal/proxy/tunnel.go:104-116 | With a lag below half the timeout the timer's goroutine closes an idle tunnel if and only if no touch came since the timer went off and none is pending |
| Relay.ClosesOnlyWhenIdle | internal/proxy/tunnel.go:104-116 | Under that condition the tunnel is idle whatever the lag |
| Relay.ExpiresOnFreshBytes | internal/proxy/tunnel.go:77-83 | For every timeout and lag there is a run in which it goes off on bytes that have arrived and not yet touched it |
| Relay.ClosesOnTouchedBytes | internal/proxy/tunnel.go:104-116 | For every timeout and lag there is a run in which bytes touch the timer after it went off and the pair is closed at that very moment |
| Relay.IdleTunnelCloses | internal/proxy/tunnel.go:104-116 | A tunnel not touched for idleTimeout and two lags is closed, unless the relay has returned |
| Relay.ClockNeverStuck | internal/proxy/tunnel.go:104-116 | That bound is not met by stopping the clock |
| Relay.ReturnedMeansStopped | internal/proxy/tunnel.go:118-142 | After the relay has returned the timer is never set and never goes off again |
| EnvFile.ReadLines | internal/config/env.go:21-43 | Succeeds iff every line is short enough, a comment, foreign or a first assignment; then the values are exactly those assigned; else the error is the first bad line's |
| EnvFile.ReadEnvValues | internal/config/env.go:12-53 | The file's values, if there is one, with the process's MUX_ variables laid over them; a file that cannot be opened or read to its end is an error, unless a line before was one |
| EnvFile.CollectsUnique | internal/config/env.go:38-43 | The lines determine the values |
| EnvLine.LinesExactly | internal/config/env.go:20-22 | A text has the lines that, each ended by a newline, make it up; a last line that is not empty needs none |
| EnvLine.MeantExactly | internal/config/env.go:24-41 | A line is understood as what its characters say: nothing when blank, a comment or a foreign name; an assignment, with white space allowed around the name only; and otherwise an error |
| EnvLine.MeaningsExactly | internal/config/env.go:21-43 | The same for all lines of a file, where a line ends with up to two carriage returns |
| EnvFile.RoundTrip | internal/config/env.go:21-43 | Printing a map of valid MUX_ names and reading it back gives the map iff no value has a newline or ends in a carriage return and every line is below the scanner's limit |
| EnvFile.ReadPrinted | internal/config/env.go:12-53 | Such a printed map, read with the process's environment, gives the map with the process's MUX_ variables laid over it |
| EnvFile.EntryMeans | internal/config/env.go:24-39 | A printed line assigns its key the value it was printed with, up to two carriage returns at its end |
| EnvFile.ReadsHasNoNewline | internal/config/env.go:21-43 | No value read from a file has a newline |
| EnvFile.ProcessWins | internal/config/env.go:46-51 | The last assignment of the process to a MUX_ variable decides, by the text before and after its first equals sign; a variable that it does not assign keeps the file's value |
| EnvOverrides.ValueOfDecimal | internal/config/env.go:176 | Decimal printing of an index can be read back |
| EnvOverrides.IndexedNamesDistinct | internal/config/env.go:175-194 | The names for indexed upstreams are pairwise distinct |
| EnvOverrides.FixedNotIndexed | internal/config/env.go:68-205 | No variable is both a fixed name and one for an upstream |
| EnvOverrides.OneFieldEach | internal/config/env.go:175-201 | A variable for an upstream belongs to one upstream and one field |
| EnvOverrides.ApplyTable | internal/config/env.go:85-90 | One table's loop: each field is its override or its old value, or some variable does not convert |
| EnvOverrides.ReadUpstream | internal/config/env.go:175-204 | One upstream from its five variables, or which of them is wrong |
| EnvOverrides.ReadUpstreams | internal/config/env.go:169-207 | The count decides how many upstreams replace the configured ones |
| EnvOverrides.ApplyEnvOverrides | internal/config/env.go:67-217 | Succeeds iff every value converts, every counted upstream is complete, and every variable is a fixed name or one for an index from 1 to the count; then each field is its override or its old value |

## Left out

- Sockets, TLS handshakes, HTTP/2 framing, http.Transport, certificates: library behaviour; a connection is two byte streams and an attempt is its outcome.
- Parsing of addresses, URLs, integers, booleans and durations by the standard library, except the number of a status line: values arrive parsed, or the conversion is a parameter. IPv4-mapped IPv6 counts as IPv4.
- The random generator: any draw. Wall-clock jumps, and the saturation of time.Sub: time is an unbounded integer, and monotone where a theorem says so.
- internal/config/validate.go: its ranges are preconditions (maxAttempts, maxIPs, window and block positive, limits at least one).
- internal/proxy/auth.go and internal/proxy/headers.go: only the verdict on credentials is kept; header rewriting would add easy members.
- Logging, error texts and the command line.
- SocksClient.Dial: deadlines, cancellation and the closing of the connection after a failure are not modelled.
- ConnectReader.Reader.ReadLine: an I/O error is the end of the stream; the buffer may cut a line anywhere within its window.
- Dispatch.WholeRequest: whether the destination parses, the HTTP version, whether a connection can be hijacked and whether a tunnel slot is free are inputs; Limits and Lifecycle have the slot.
- Lifecycle.HandleConnect: one request on its own; interference by other goroutines is in the transition system only.
- Lifecycle.RelayHTTP1: one request on its own; relayHTTP2, whose order of cleanup is the same, and interference by other goroutines are in the transition system only.
- SetupRace.DoHTTPRequest: one order of events per call; every interleaving is in the transition system.
- BodyWatchdog.GivesUpOnlyWhenIdle: speaks of the decision at the load, as do WrongExactlyBeforeStore and GivesUpOnFreshBytes; CancelIsRightExactly has the cancel.
- BodyWatchdog.Watch: events stand for what select delivers; how copyHTTPResponse names the error afterwards is not modelled.
- Tunnels.NoTunnelEscapes: server.Shutdown, which Run calls between closeAll and waitFor, concerns requests that are not tunnels and is not modelled.
- EnvOverrides.ApplyEnvOverrides: a field is named by the variable that overrides it, and the state of the configuration after an error, which the caller discards, is left open.
- Liveness of goroutines: the progress theorems say which steps remain and that one is possible, not that the scheduler takes it.
