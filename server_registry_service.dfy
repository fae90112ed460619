/** The registry's domain rules: validating announcements and listing the
    servers that are live at the time of the call. */
module Services {
  import opened Entities
  import opened Store

  /** A record is live at a read whose cutoff is `now - timeoutPeriod` when its
      heartbeat is strictly after the cutoff. */
  predicate IsLive(server: ServerInfo, cutoff: int)
  {
    server.lastHeartbeat > cutoff
  }

  /** LINQ `Where(c => c.LastHeartbeat > cutoff)`: the live records, in the
      order of the listing. */
  function LiveServers(listing: seq<ServerInfo>, cutoff: int): (r: seq<ServerInfo>)
    ensures |r| <= |listing|
    ensures forall s :: s in r <==> s in listing && IsLive(s, cutoff)
  {
    if listing == [] then []
    else (if IsLive(listing[0], cutoff) then [listing[0]] else []) + LiveServers(listing[1..], cutoff)
  }

  /** Filtering keeps the listing's order: the live records of two consecutive
      stretches of the listing come out one stretch after the other. */
  lemma {:induction false} LiveServersAppend(a: seq<ServerInfo>, b: seq<ServerInfo>, cutoff: int)
    ensures LiveServers(a + b, cutoff) == LiveServers(a, cutoff) + LiveServers(b, cutoff)
  {
    if a == [] {
      assert a + b == b;
    } else {
      assert (a + b)[1..] == a[1..] + b;
      LiveServersAppend(a[1..], b, cutoff);
    }
  }

  /** Filtering an already filtered listing changes nothing. */
  lemma {:induction false} LiveServersIdempotent(listing: seq<ServerInfo>, cutoff: int)
    ensures LiveServers(LiveServers(listing, cutoff), cutoff) == LiveServers(listing, cutoff)
  {
    if listing != [] {
      var head := if IsLive(listing[0], cutoff) then [listing[0]] else [];
      LiveServersAppend(head, LiveServers(listing[1..], cutoff), cutoff);
      LiveServersIdempotent(listing[1..], cutoff);
      if IsLive(listing[0], cutoff) {
        assert LiveServers(head, cutoff) == head by {
          assert head[1..] == [];
        }
      }
    }
  }

  /** LINQ `Take(count)`: the first `count` elements, all of them when there are
      fewer, none when `count` is zero or negative. */
  function Take(s: seq<ServerInfo>, count: int): (r: seq<ServerInfo>)
    ensures r <= s
    ensures |r| == if count <= 0 then 0 else if count < |s| then count else |s|
  {
    if count <= 0 then [] else if count < |s| then s[..count] else s
  }

  class ServerRegistryService {
    const registryStore: InMemoryServerRegistryStore
    /** Liveness window, in ticks. */
    const timeoutPeriod: int
    /** Largest number of records one listing returns. */
    const maxServerCount: int

    /** Keeps the store and the two configuration settings, read once. */
    constructor (registryStore: InMemoryServerRegistryStore, timeoutPeriod: int, maxServerCount: int)
      ensures this.registryStore == registryStore
      ensures this.timeoutPeriod == timeoutPeriod && this.maxServerCount == maxServerCount
    {
      this.registryStore := registryStore;
      this.timeoutPeriod := timeoutPeriod;
      this.maxServerCount := maxServerCount;
    }

    /** The checks `AddServer` makes before touching the store: a null record is
        an argument-null error, a null or empty host address an argument error. */
    static function CheckServer(server: Option<ServerInfo>): (r: Outcome)
      ensures r.Pass? <==> server.Some? && !IsNullOrEmpty(server.value.hostIpAddress)
      ensures server.None? ==> r == Fail(ArgumentNull("server"))
      ensures server.Some? && IsNullOrEmpty(server.value.hostIpAddress) ==>
                r == Fail(Argument("HostIpAddress"))
    {
      match server
      case None => Fail(ArgumentNull("server"))
      case Some(s) => if IsNullOrEmpty(s.hostIpAddress) then Fail(Argument("HostIpAddress")) else Pass
    }

    /** Validates the announcement and hands the record, unmodified, to the
        store's upsert; a rejected announcement leaves the store as it was. */
    method AddServer(server: Option<ServerInfo>) returns (outcome: Outcome)
      requires registryStore.Valid()
      modifies registryStore
      ensures registryStore.Valid()
      ensures outcome == CheckServer(server)
      ensures outcome.Fail? ==> registryStore.servers == old(registryStore.servers)
      ensures outcome.Pass? ==>
                registryStore.servers ==
                  TryAdd(old(registryStore.servers), server.value.hostIpAddress.value, server.value)
    {
      if server.None? {
        return Fail(ArgumentNull("server"));
      }
      if IsNullOrEmpty(server.value.hostIpAddress) {
        return Fail(Argument("HostIpAddress"));
      }
      outcome := registryStore.UpsertServerInfo(server);
    }

    /** The records of the store's listing that are live at `now`, capped at
        `maxServerCount`, in the listing's order. A listing that throws makes
        the call throw the same error. */
    function GetAllServers(listing: Result<seq<ServerInfo>>, now: int): (r: Result<seq<ServerInfo>>)
      ensures listing.Failure? ==> r == Failure(listing.error)
      ensures listing.Success? ==> r.Success?
      ensures r.Success? ==> forall s :: s in r.value ==> IsLive(s, now - timeoutPeriod)
      ensures r.Success? ==> r.value <= LiveServers(listing.value, now - timeoutPeriod)
      ensures r.Success? ==> |r.value| <= maxServerCount || r.value == []
      ensures r.Success? && |LiveServers(listing.value, now - timeoutPeriod)| <= maxServerCount ==>
                r.value == LiveServers(listing.value, now - timeoutPeriod)
    {
      match listing
      case Failure(e) => Failure(e)
      case Success(records) => Success(Take(LiveServers(records, now - timeoutPeriod), maxServerCount))
    }

    /** A record whose heartbeat is at or before `now - timeoutPeriod` is not
        listed, even though the store still holds it. */
    lemma ExpiredServerNotListed(records: seq<ServerInfo>, now: int, server: ServerInfo)
      requires server.lastHeartbeat <= now - timeoutPeriod
      ensures server !in GetAllServers(Success(records), now).value
    {
    }

    /** When more records are live than the cap allows, exactly the cap is
        returned: the first `maxServerCount` live records of the listing. */
    lemma CapReachedReturnsFirstLive(records: seq<ServerInfo>, now: int)
      requires 0 <= maxServerCount < |LiveServers(records, now - timeoutPeriod)|
      ensures GetAllServers(Success(records), now).value
                == LiveServers(records, now - timeoutPeriod)[..maxServerCount]
    {
    }

    /** With the in-memory store, whose listing always throws, listing the
        servers always fails with not-implemented. */
    method GetAllServersInMemory(now: int) returns (r: Result<seq<ServerInfo>>)
      ensures r == Failure(NotImplemented)
    {
      var listing := registryStore.GetServerInfos(Some(s => IsLive(s, now - timeoutPeriod)), None);
      r := GetAllServers(listing, now);
    }

    /** Because the store's upsert keeps the first record for an address, an
        address that announces itself again keeps its first record. Once that
        record's heartbeat is at or before the cutoff, it is not live, and at
        this or any later time no listing that holds it returns it, however
        recent the second announcement was. */
    lemma ReannouncementDoesNotRefresh(
      servers: map<string, ServerInfo>, again: ServerInfo, now: int)
      requires KeyedByHost(servers)
      requires CheckServer(Some(again)).Pass?
      requires again.hostIpAddress.value in servers
      requires servers[again.hostIpAddress.value].lastHeartbeat <= now - timeoutPeriod
      ensures var after := TryAdd(servers, again.hostIpAddress.value, again);
              after[again.hostIpAddress.value] == servers[again.hostIpAddress.value] &&
              !IsLive(after[again.hostIpAddress.value], now - timeoutPeriod)
      ensures forall later, listing :: now <= later ==>
                servers[again.hostIpAddress.value] !in GetAllServers(Success(listing), later).value
    {
      var kept := servers[again.hostIpAddress.value];
      forall later, listing | now <= later
        ensures kept !in GetAllServers(Success(listing), later).value
      {
        ExpiredServerNotListed(listing, later, kept);
      }
    }
  }
}
