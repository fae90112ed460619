/** The in-process registry store: a dictionary from host address to record. */
module Store {
  import opened Entities

  /** `ConcurrentDictionary.TryAdd`: the entry is added only when the key is
      absent; an existing entry is kept, so the first write for a key wins. */
  function TryAdd(m: map<string, ServerInfo>, key: string, value: ServerInfo): (r: map<string, ServerInfo>)
    ensures r.Keys == m.Keys + {key}
    ensures key !in m ==> r[key] == value
    ensures key in m ==> r[key] == m[key]
    ensures forall k :: k in m && k != key ==> r[k] == m[k]
  {
    if key in m then m else m[key := value]
  }

  /** The dictionary after `TryRemove(id)` for each id of `ids` in turn. */
  function RemoveAll(m: map<string, ServerInfo>, ids: seq<string>): (r: map<string, ServerInfo>)
    ensures forall id :: id in ids ==> id !in r
    ensures forall k :: k in m && k !in ids ==> k in r && r[k] == m[k]
    ensures forall k :: k in r ==> k in m && r[k] == m[k]
  {
    if ids == [] then m
    else
      var last := |ids| - 1;
      assert forall id :: id in ids ==> id in ids[..last] || id == ids[last];
      RemoveAll(m, ids[..last]) - {ids[last]}
  }

  /** A store keyed by host address stays keyed by host address when a record
      is added under its own address. */
  lemma TryAddKeepsKeyedByHost(m: map<string, ServerInfo>, value: ServerInfo)
    requires KeyedByHost(m) && value.hostIpAddress.Some?
    ensures KeyedByHost(TryAdd(m, value.hostIpAddress.value, value))
  {
  }

  /** Deleting never breaks the keying invariant. */
  lemma RemoveAllKeepsKeyedByHost(m: map<string, ServerInfo>, ids: seq<string>)
    requires KeyedByHost(m)
    ensures KeyedByHost(RemoveAll(m, ids))
  {
  }

  /** Deleting the same batch twice is the same as deleting it once. */
  lemma RemoveAllIdempotent(m: map<string, ServerInfo>, ids: seq<string>)
    ensures RemoveAll(RemoveAll(m, ids), ids) == RemoveAll(m, ids)
  {
  }

  class InMemoryServerRegistryStore {
    /** The `servers` dictionary. */
    var servers: map<string, ServerInfo>

    ghost predicate Valid()
      reads this
    {
      KeyedByHost(servers)
    }

    constructor ()
      ensures Valid()
      ensures servers == map[]
    {
      servers := map[];
    }

    /** The record stored under `ipAddress`, or null when there is none. */
    method GetServerInfo(ipAddress: string) returns (r: Option<ServerInfo>)
      requires Valid()
      ensures ipAddress in servers ==> r == Some(servers[ipAddress])
      ensures ipAddress !in servers ==> r == None
      ensures r.Some? ==> r.value.hostIpAddress == Some(ipAddress)
    {
      if ipAddress in servers {
        r := Some(servers[ipAddress]);
      } else {
        r := None;
      }
    }

    /** Empties the dictionary. */
    method Initialize()
      modifies this
      ensures Valid()
      ensures servers == map[]
    {
      servers := map[];
    }

    /** Adds the record under its host address unless that address already has
      a record, in which case nothing changes. A null record fails when its
      host address is read; a null host address is a null dictionary key,
      which `TryAdd` rejects. */
    method UpsertServerInfo(serverInfo: Option<ServerInfo>) returns (outcome: Outcome)
      requires Valid()
      modifies this
      ensures Valid()
      ensures serverInfo.None? ==>
                outcome == Fail(NullReference) && servers == old(servers)
      ensures serverInfo.Some? && serverInfo.value.hostIpAddress.None? ==>
                outcome == Fail(ArgumentNull("key")) && servers == old(servers)
      ensures serverInfo.Some? && serverInfo.value.hostIpAddress.Some? ==>
                outcome == Pass &&
                servers == TryAdd(old(servers), serverInfo.value.hostIpAddress.value, serverInfo.value)
    {
      if serverInfo.None? {
        return Fail(NullReference);
      }
      var record := serverInfo.value;
      match record.hostIpAddress
      case None =>
        outcome := Fail(ArgumentNull("key"));
      case Some(key) =>
        TryAddKeepsKeyedByHost(servers, record);
        servers := TryAdd(servers, key, record);
        outcome := Pass;
    }

    /** The filtered listing is not implemented by this store: it always throws,
      whatever the filter and partition. */
    method GetServerInfos(whereExpression: Option<ServerInfo -> bool>, partitionKey: Option<string>)
      returns (r: Result<seq<ServerInfo>>)
      ensures r == Failure(NotImplemented)
    {
      r := Failure(NotImplemented);
    }

    /** The projected, filtered listing: always throws as well. */
    method GetProjectedServerInfos<TSelect>(
      selectExpression: ServerInfo -> TSelect,
      whereExpression: Option<ServerInfo -> bool>,
      partitionKey: Option<string>)
      returns (r: Result<seq<TSelect>>)
      ensures r == Failure(NotImplemented)
    {
      r := Failure(NotImplemented);
    }

    /** Removes the record of every id in `ids`, one id at a time; an id with no
      record is skipped silently. The partition key is ignored. */
    method DeleteServers(ids: seq<string>, partitionKey: Option<string>)
      requires Valid()
      modifies this
      ensures Valid()
      ensures servers == RemoveAll(old(servers), ids)
      ensures forall id :: id in ids ==> id !in servers
      ensures forall k :: k in old(servers) && k !in ids ==> k in servers && servers[k] == old(servers)[k]
    {
      var i := 0;
      while i < |ids|
        invariant 0 <= i <= |ids|
        invariant servers == RemoveAll(old(servers), ids[..i])
      {
        assert ids[..i + 1][..i] == ids[..i];
        servers := servers - {ids[i]};
        i := i + 1;
      }
      assert ids[..|ids|] == ids;
      RemoveAllKeepsKeyedByHost(old(servers), ids);
    }
  }
}
