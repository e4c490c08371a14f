/** The master server: heartbeats enter game servers into a map from address to
    server, and dead ones are cleaned out at most every five seconds.  Times are
    nanoseconds; a request is handled at one instant, under the lock. */
module MasterServer {
  import opened Prelude

  const SECOND: int := 1_000_000_000

  /** Go's zero time, in the first year of the calendar. */
  const ZERO_TIME: int := -62_135_596_800 * SECOND

  const MAX_DURATION: int := 0x7FFF_FFFF_FFFF_FFFF

  datatype ServerData = ServerData(port: string, name: string, numPlayers: int)

  datatype ActiveServer = ActiveServer(ip: string, lastBeat: int, data: ServerData)

  /** `time.Since`, whose result is capped at the longest duration. */
  function Since(now: int, t: int): int {
    if now - t <= MAX_DURATION then now - t else MAX_DURATION
  }

  function Trimmed(d: ServerData): ServerData {
    if |d.name| > 64 then d.(name := d.name[..64]) else d
  }

  datatype State = State(servers: map<string, ActiveServer>, lastCleanTime: int)

  predicate Dead(s: ActiveServer, now: int) {
    Since(now, s.lastBeat) > 60 * SECOND
  }

  function Cleaned(s: State, now: int): State {
    if Since(now, s.lastCleanTime) < 5 * SECOND then s
    else State(map ip | ip in s.servers && !Dead(s.servers[ip], now) :: s.servers[ip], now)
  }

  function Beaten(s: State, ip: string, d: ServerData, now: int): State {
    Cleaned(s.(servers := s.servers[ip := ActiveServer(ip, now, Trimmed(d))]), now)
  }

  class MasterServer {
    var servers: map<string, ActiveServer>
    var lastCleanTime: int

    constructor ()
      ensures View() == State(map[], ZERO_TIME)
    {
      servers, lastCleanTime := map[], ZERO_TIME;
    }

    ghost function View(): State
      reads this
    {
      State(servers, lastCleanTime)
    }

    method CleanDeadServers(now: int)
      modifies this
      ensures View() == Cleaned(old(View()), now)
    {
      if Since(now, lastCleanTime) < 5 * SECOND {
        return;
      }
      var left := servers.Keys;
      while left != {}
        invariant left <= servers.Keys <= old(servers).Keys && lastCleanTime == old(lastCleanTime)
        invariant forall ip | ip in servers :: servers[ip] == old(servers)[ip]
        invariant forall ip | ip in old(servers) && ip !in left :: ip in servers <==> !Dead(old(servers)[ip], now)
        decreases left
      {
        var ip :| ip in left;
        if Since(now, servers[ip].lastBeat) > 60 * SECOND {
          servers := servers - {ip};
        }
        left := left - {ip};
      }
      lastCleanTime := now;
      assert servers == Cleaned(old(View()), now).servers;
    }

    /** POST /heartbeat; a body that does not bind is None. */
    method Heartbeat(ip: string, body: Option<ServerData>, now: int) returns (ok: bool)
      modifies this
      ensures ok <==> body.Some?
      ensures View() == if body.Some? then Beaten(old(View()), ip, body.value, now) else old(View())
    {
      if body.None? {
        return false;
      }
      var json := body.value;
      if ip !in servers {
        servers := servers[ip := ActiveServer(ip, 0, ServerData("", "", 0))];
      }
      if |json.name| > 64 {
        json := json.(name := json.name[..64]);
      }
      servers := servers[ip := ActiveServer(ip, now, json)];
      CleanDeadServers(now);
      return true;
    }

    /** GET /servers */
    method List(now: int) returns (r: map<string, ActiveServer>)
      modifies this
      ensures View() == Cleaned(old(View()), now) && r == servers
    {
      CleanDeadServers(now);
      return servers;
    }
  }

  // ----- histories -----

  datatype Request = Beat(ip: string, data: ServerData, at: int) | Refused(at: int) | Listing(at: int)

  function Handle(s: State, r: Request): State {
    match r
    case Beat(ip, d, at) => Beaten(s, ip, d, at)
    case Refused(_) => s
    case Listing(at) => Cleaned(s, at)
  }

  /** The state after the requests, oldest first. */
  function After(requests: seq<Request>): State {
    if requests == [] then State(map[], ZERO_TIME)
    else Handle(After(requests[..|requests| - 1]), requests[|requests| - 1])
  }

  predicate InOrder(requests: seq<Request>) {
    && (forall i | 0 <= i < |requests| :: 0 <= requests[i].at < MAX_DURATION)
    && forall i, j | 0 <= i < j < |requests| :: requests[i].at <= requests[j].at
  }

  /** The latest heartbeat of an address. */
  function Latest(requests: seq<Request>, ip: string): (r: Option<Request>)
    ensures r.Some? ==> r.value.Beat? && r.value in requests
  {
    if requests == [] then None
    else
      var last := requests[|requests| - 1];
      if last.Beat? && last.ip == ip then Some(last) else Latest(requests[..|requests| - 1], ip)
  }

  /** The entry for an address, given its latest heartbeat and the time of the
      latest cleaning. */
  function Entry(beat: Option<Request>, cleaned: int): Option<ActiveServer>
    requires beat.Some? ==> beat.value.Beat?
  {
    if beat.Some? && cleaned - beat.value.at <= 60 * SECOND
    then Some(ActiveServer(beat.value.ip, beat.value.at, Trimmed(beat.value.data)))
    else None
  }

  function Lookup(servers: map<string, ActiveServer>, ip: string): Option<ActiveServer> {
    if ip in servers then Some(servers[ip]) else None
  }

  lemma PrefixInOrder(requests: seq<Request>)
    requires InOrder(requests) && requests != []
    ensures InOrder(requests[..|requests| - 1])
    ensures forall r | r in requests :: 0 <= r.at <= requests[|requests| - 1].at
  {
    forall r | r in requests
      ensures 0 <= r.at <= requests[|requests| - 1].at
    {
      var i :| 0 <= i < |requests| && requests[i] == r;
    }
  }

  lemma CleanTimeKnown(requests: seq<Request>)
    requires InOrder(requests)
    ensures var c := After(requests).lastCleanTime;
      c == ZERO_TIME || (requests != [] && 0 <= c <= requests[|requests| - 1].at)
    decreases |requests|
  {
    if requests != [] {
      PrefixInOrder(requests);
      var before := requests[..|requests| - 1];
      CleanTimeKnown(before);
      if before != [] {
        assert before[|before| - 1] in requests;
      }
    }
  }

  /** Cleaning drops exactly the entries that its own time makes too old. */
  lemma CleanedEntry(s: State, ip: string, beat: Option<Request>, now: int)
    requires beat.Some? ==> beat.value.Beat? && 0 <= beat.value.at <= now
    requires 0 <= now < MAX_DURATION && (s.lastCleanTime == ZERO_TIME || 0 <= s.lastCleanTime <= now)
    requires Lookup(s.servers, ip) == Entry(beat, s.lastCleanTime)
    ensures var c := Cleaned(s, now); Lookup(c.servers, ip) == Entry(beat, c.lastCleanTime)
  {
  }

  /** The whole map, in terms of the history: an address is listed, with the data
      of its latest heartbeat, exactly when that heartbeat was at most sixty
      seconds old at the latest cleaning. */
  lemma {:induction false} ListedIff(requests: seq<Request>, ip: string)
    requires InOrder(requests)
    ensures var s := After(requests);
      Lookup(s.servers, ip) == Entry(Latest(requests, ip), s.lastCleanTime)
    decreases |requests|
  {
    if requests != [] {
      PrefixInOrder(requests);
      var before, last := requests[..|requests| - 1], requests[|requests| - 1];
      ListedIff(before, ip);
      CleanTimeKnown(before);
      if before != [] {
        assert before[|before| - 1] in requests;
      }
      if Latest(before, ip).Some? {
        assert Latest(before, ip).value in requests;
      }
      var s := After(before);
      match last
      case Beat(from, d, at) =>
        CleanedEntry(s.(servers := s.servers[from := ActiveServer(from, at, Trimmed(d))]), ip,
                     Latest(requests, ip), at);
      case Refused(_) =>
      case Listing(at) => CleanedEntry(s, ip, Latest(requests, ip), at);
    }
  }

  /** A listing holds every server heard from within sixty seconds, none silent
      for sixty-five or more, and for each the data of its latest heartbeat, the
      name cut to its first 64 characters. */
  lemma ListingIsFresh(requests: seq<Request>, now: int, ip: string)
    requires InOrder(requests + [Listing(now)])
    ensures var listed := After(requests + [Listing(now)]).servers;
      var beat := Latest(requests, ip);
      && (beat.Some? && now - beat.value.at <= 60_000_000_000 ==> ip in listed)
      && (ip in listed ==>
           && beat.Some? && now - beat.value.at < 65_000_000_000
           && var (told, shown) := (beat.value.data, listed[ip].data);
           && listed[ip].ip == ip && listed[ip].lastBeat == beat.value.at
           && shown.port == told.port && shown.numPlayers == told.numPlayers
           && (if |told.name| <= 64 then shown.name == told.name else |shown.name| == 64 && shown.name <= told.name))
  {
    var all := requests + [Listing(now)];
    assert all[..|all| - 1] == requests;
    ListedIff(all, ip);
    CleanTimeKnown(all);
    if Latest(requests, ip).Some? {
      LatestHasAddress(requests, ip);
    }
  }

  /** When the map is cleaned: at the first heartbeat or listing, and then at each
      that comes five seconds or more after the cleaning before. */
  lemma CleanedEveryFiveSeconds(requests: seq<Request>, r: Request)
    requires InOrder(requests + [r])
    ensures var before, after := After(requests).lastCleanTime, After(requests + [r]).lastCleanTime;
      after == if !r.Refused? && (before < 0 || r.at - before >= 5_000_000_000) then r.at else before
    ensures r.Refused? ==> After(requests + [r]) == After(requests)
  {
    var all := requests + [r];
    assert all[..|all| - 1] == requests;
    PrefixInOrder(all);
    CleanTimeKnown(requests);
    assert r.at == all[|all| - 1].at;
    if requests != [] {
      assert requests[|requests| - 1] in all;
    }
  }

  lemma {:induction false} LatestHasAddress(requests: seq<Request>, ip: string)
    requires Latest(requests, ip).Some?
    ensures Latest(requests, ip).value.ip == ip
    decreases |requests|
  {
    var last := requests[|requests| - 1];
    if !(last.Beat? && last.ip == ip) {
      LatestHasAddress(requests[..|requests| - 1], ip);
    }
  }
}
