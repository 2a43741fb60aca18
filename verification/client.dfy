/**
 * The life of a query in `DNSClient`: `send` stamps the packet with the next
 * id, fills in default options and registers a request under that id; the
 * request then lives through timeouts (each one with retries left resends),
 * a socket error on sending, or a response datagram, and leaves the table
 * when it settles. Sockets and timers are events here: the environment calls
 * `OnTimeout` when a request's timer fires, `OnSendError` when a send fails,
 * and `OnMessage` when a datagram arrives; each send is counted in a ghost
 * counter instead of leaving the machine.
 */
module Client {
  import opened Wrappers
  import opened Bytes
  import opened Buffer
  import opened Message
  import PacketIO
  import PacketRead

  /** The options `send` is given; None is a missing option. */
  datatype Options = Options(retry: Option<int>, timeout: Option<int>, server: Option<Text>)

  /** The options a request runs with, once the defaults are filled in. */
  datatype Settings = Settings(retry: int, timeout: int, server: Text)

  /** Why a query failed. */
  datatype Failure =
    | TimedOut(trials: int, timeout: int)  // ETIMEDOUT, with the number of trials and the timeout the message reports
    | SocketError(code: int)               // the error the socket reported for a send

  /** The state of a request's promise: it settles once. */
  datatype Outcome = Pending | Resolved(answer: Packet) | Rejected(error: Failure)

  const DefaultRetry: int := 1
  const DefaultTimeout: int := 2000

  /** `v || d` on a number: a missing value and 0 are falsy. */
  function OrNumber(v: Option<int>, d: int): int
  {
    if v.Some? && v.value != 0 then v.value else d
  }

  /** `v || d` on a string: a missing value and the empty string are falsy. */
  function OrText(v: Option<Text>, d: Text): Text
  {
    if v.Some? && v.value != [] then v.value else d
  }

  /**
   * The option defaulting in `send`: a falsy `retry`, `timeout` or `server`
   * becomes 1, 2000 or the client's server; a truthy one is kept.
   */
  function Resolve(o: Options, server: Text): (s: Settings)
    ensures s.retry != 0 && s.timeout != 0
    ensures server != [] ==> s.server != []
    ensures o.retry.Some? && o.retry.value != 0 ==> s.retry == o.retry.value
    ensures o.timeout.Some? && o.timeout.value != 0 ==> s.timeout == o.timeout.value
    ensures o.server.Some? && o.server.value != [] ==> s.server == o.server.value
    ensures o.retry.None? || o.retry == Some(0) ==> s.retry == DefaultRetry
    ensures o.timeout.None? || o.timeout == Some(0) ==> s.timeout == DefaultTimeout
    ensures o.server.None? || o.server == Some([]) ==> s.server == server
  {
    Settings(OrNumber(o.retry, DefaultRetry), OrNumber(o.timeout, DefaultTimeout), OrText(o.server, server))
  }

  /**
   * Asking for no retries still gets one: 0 is falsy. With `Request.OnTimeout`,
   * which sends `retry + 1` times in all, such a query is sent twice.
   */
  lemma ZeroRetryIsOne(o: Options, server: Text)
    requires o.retry == Some(0)
    ensures Resolve(o, server).retry == 1
  {
  }

  /** A packet whose id does not fit in 16 bits has no encoding. */
  lemma WideIdFails(p: Packet)
    requires p.id >= Two16
    ensures EncodePacket(p).None?
  {
    assert EncodeHeader(p).None?;
  }

  /** One query: the encoded packet, its settings, and where it stands. */
  class Request {
    const id: int
    const client: DnsClient
    const packet: seq<byte>
    const options: Settings
    var retry: int
    var timerArmed: bool
    var outcome: Outcome
    ghost var sends: nat

    /** `new DNSRequest(...)`: no timer, nothing sent, the full retry budget. */
    constructor (id: int, packet: seq<byte>, client: DnsClient, options: Settings)
      ensures this.id == id && this.packet == packet && this.client == client && this.options == options
      ensures retry == options.retry && !timerArmed && outcome == Pending && sends == 0
    {
      this.id := id;
      this.packet := packet;
      this.client := client;
      this.options := options;
      retry := options.retry;
      timerArmed := false;
      outcome := Pending;
      sends := 0;
    }

    /** The client's table holds this request under its id. */
    ghost predicate Registered()
      reads this, client
    {
      id in client.req && client.req[id] == this
    }

    /**
     * Sends and retries left always add up to the retry setting plus one,
     * and a non-negative setting never runs the retries below zero.
     */
    ghost predicate Budget()
      reads this
    {
      sends + retry == options.retry + 1 && (options.retry >= 0 ==> retry >= 0)
    }

    /** `track`: register under the id, arm the timer, send once. */
    method Track()
      requires client.Valid() && outcome.Pending? && sends == 0 && retry == options.retry
      requires 0 <= id < client.nextId && id !in client.req
      modifies this, client
      ensures client.req == old(client.req)[id := this]
      ensures client.nextId == old(client.nextId) && client.server == old(client.server)
      ensures timerArmed && outcome == Pending && retry == old(retry) && sends == 1
      ensures Registered() && Budget() && client.Valid()
    {
      client.req := client.req[id := this];
      timerArmed := true;
      Send();
    }

    /** `send`: one datagram with the packet to the server's port 53. */
    method Send()
      modifies this
      ensures sends == old(sends) + 1
      ensures retry == old(retry) && timerArmed == old(timerArmed) && outcome == old(outcome)
    {
      sends := sends + 1;
    }

    /** `removeSelf`: clear the timer and delete the id from the client's table. */
    method RemoveSelf()
      requires client.Valid()
      modifies this, client
      ensures !timerArmed && client.req == old(client.req) - {id}
      ensures client.nextId == old(client.nextId) && client.server == old(client.server)
      ensures retry == old(retry) && outcome == old(outcome) && sends == old(sends)
      ensures !Registered() && client.Valid()
    {
      timerArmed := false;
      client.req := client.req - {id};
    }

    /** Settle the promise, unless it already is. */
    method Settle(o: Outcome)
      modifies this
      ensures outcome == if old(outcome).Pending? then o else old(outcome)
      ensures retry == old(retry) && timerArmed == old(timerArmed) && sends == old(sends)
    {
      if outcome.Pending? {
        outcome := o;
      }
    }

    /**
     * The send callback with an error: the request leaves the table and is
     * rejected with that error, without a retry.
     */
    method OnSendError(code: int)
      requires client.Valid()
      modifies this, client
      ensures !timerArmed && !Registered() && client.req == old(client.req) - {id}
      ensures outcome == if old(outcome).Pending? then Rejected(SocketError(code)) else old(outcome)
      ensures retry == old(retry) && sends == old(sends)
      ensures client.nextId == old(client.nextId) && client.server == old(client.server)
      ensures client.Valid()
    {
      RemoveSelf();
      Settle(Rejected(SocketError(code)));
    }

    /** `onPacket`: leave the table and resolve with the response. */
    method OnPacket(p: Packet)
      requires client.Valid()
      modifies this, client
      ensures !timerArmed && !Registered() && client.req == old(client.req) - {id}
      ensures outcome == if old(outcome).Pending? then Resolved(p) else old(outcome)
      ensures retry == old(retry) && sends == old(sends)
      ensures client.nextId == old(client.nextId) && client.server == old(client.server)
      ensures client.Valid()
    {
      RemoveSelf();
      Settle(Resolved(p));
    }

    /**
     * `onTimeout`, which fires only for a registered request (its timer is
     * armed): with retries left, spend one, resend and re-arm; otherwise
     * leave the table and reject with ETIMEDOUT. A query with a non-negative
     * retry setting is therefore sent exactly `retry + 1` times before it
     * times out.
     */
    method OnTimeout()
      requires client.Valid() && Registered() && Budget()
      modifies this, client
      ensures Budget() && client.Valid()
      ensures client.nextId == old(client.nextId) && client.server == old(client.server)
      ensures old(retry) > 0 ==>
                retry == old(retry) - 1 && sends == old(sends) + 1 && timerArmed && Registered() &&
                client.req == old(client.req) && outcome == Pending
      ensures old(retry) <= 0 ==>
                !timerArmed && !Registered() && client.req == old(client.req) - {id} && sends == old(sends) &&
                outcome == Rejected(TimedOut(options.retry + 1, options.timeout))
      ensures outcome.Rejected? && options.retry >= 0 ==> sends == options.retry + 1
    {
      if retry <= 0 {
        RemoveSelf();
        Settle(Rejected(TimedOut(options.retry + 1, options.timeout)));
      } else {
        retry := retry - 1;
        Send();
        timerArmed := true;
      }
    }
  }

  /** The client: the next id, the default server, and the table of pending requests by id. */
  class DnsClient {
    var nextId: int
    var server: Text
    var req: map<int, Request>

    /** `new DNSClient(options)`: the configured server, else the system's first one; ids start at 0. */
    constructor (configured: Option<Text>, systemServer: Text)
      ensures nextId == 0 && req == map[]
      ensures server == OrText(configured, systemServer)
      ensures systemServer != [] ==> server != []
    {
      nextId := 0;
      server := OrText(configured, systemServer);
      req := map[];
    }

    /**
     * Every request in the table is filed under its own id, belongs to this
     * client, was given an id already handed out, is still pending, and has
     * its timer armed.
     */
    ghost predicate Valid()
      reads this, req.Values
    {
      forall i :: i in req ==>
        req[i].id == i && req[i].client == this && 0 <= i < nextId &&
        req[i].outcome.Pending? && req[i].timerArmed
    }

    /**
     * `send`: stamp the packet with the next id (the counter goes up by one
     * and never wraps), fill in the options, encode, and track the request.
     * Encoding fails, and nothing is registered, when the stamped packet has
     * no encoding, for instance once the id no longer fits in 16 bits.
     */
    method Send(p: Packet, o: Options) returns (stamped: Packet, r: Option<Request>)
      requires Valid() && nextId >= 0
      modifies this
      ensures Valid()
      ensures nextId == old(nextId) + 1 && server == old(server)
      ensures stamped == p.(id := old(nextId))
      ensures r.None? ==> req == old(req)
      ensures r.Some? ==>
                fresh(r.value) && r.value.client == this && r.value.id == old(nextId) &&
                Some(r.value.packet) == EncodePacket(stamped) &&
                r.value.options == Resolve(o, old(server)) && r.value.retry == r.value.options.retry &&
                r.value.sends == 1 && r.value.timerArmed && r.value.outcome == Pending && r.value.Budget() &&
                req == old(req)[old(nextId) := r.value]
      ensures EncodePacket(stamped).None? ==> r.None?
      ensures EncodePacket(stamped).Some? && |EncodePacket(stamped).value| <= InitialCapacity ==> r.Some?
    {
      stamped := p.(id := nextId);
      nextId := nextId + 1;
      var settings := Resolve(o, server);
      var bytes := PacketIO.ToBuffer(stamped);
      if bytes.None? {
        return stamped, None;
      }
      var request := new Request(stamped.id, bytes.value, this, settings);
      request.Track();
      r := Some(request);
    }

    /**
     * The `message` handler: a datagram that does not decode, is not a
     * response, or carries an id with no pending request is dropped and
     * nothing changes; otherwise the request with that id is resolved with
     * the packet and leaves the table.
     */
    method OnMessage(msg: array<byte>)
      requires Valid()
      modifies this, req.Values
      ensures Valid()
      ensures nextId == old(nextId) && server == old(server)
      ensures var d := DecodePacket(old(msg[..]));
              d.None? || !d.value.flags.isResponse || d.value.id !in old(req) ==>
                req == old(req) && unchanged(old(req.Values))
      ensures var d := DecodePacket(old(msg[..]));
              d.Some? && d.value.flags.isResponse && d.value.id in old(req) ==>
                req == old(req) - {d.value.id} &&
                old(req[d.value.id]).outcome == Resolved(d.value) && !old(req[d.value.id]).timerArmed &&
                old(req[d.value.id]).retry == old(req[d.value.id].retry) &&
                old(req[d.value.id]).sends == old(req[d.value.id].sends)
      ensures var d := DecodePacket(old(msg[..]));
              d.Some? && d.value.flags.isResponse && d.value.id in old(req) ==>
                forall i :: i in old(req) && i != d.value.id ==> unchanged(old(req)[i])
    {
      var p := PacketRead.FromBuffer(msg);
      if p.None? || !p.value.flags.isResponse || p.value.id !in req {
        return;
      }
      req[p.value.id].OnPacket(p.value);
    }
  }
}
