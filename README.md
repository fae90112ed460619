# Giants server registry, modelled in Dafny

The Giants backend keeps a registry of running game servers. A server
announces itself; the HTTP controller stamps the announcement with the
caller's address and the current time and passes it to
`ServerRegistryService.AddServer`, which validates it and hands it to the
registry store. Clients ask `GetAllServers` for the servers whose last
heartbeat falls inside the liveness window, capped at `MaxServerCount`.
This project models:

- `entities.dfy` (module `Entities`): the server record, nullable references
  (`Option`), the exceptions thrown (`Error`, `Result`, `Outcome`), and the
  invariant that every stored record sits under its own host address.
- `in_memory_store.dfy` (module `Store`): `InMemoryServerRegistryStore` as a
  class whose `servers` field is a `map<string, ServerInfo>` mutated by its
  methods; `TryAdd` and `RemoveAll` are the pure functions its methods are
  proved against.
- `server_registry_service.dfy` (module `Services`): `ServerRegistryService`
  as a class with its store and its two read-once settings; `AddServer` is a
  method that modifies the store, `GetAllServers` a function of the store's
  listing and the current time.
- `version_info.dfy` (module `VersionInfoEntity`): `VersionInfo.GenerateId`,
  the `id` property and the `DocumentType` property.

Time is integer ticks and the clock is the `now` parameter. The service reads
`dateTimeProvider.UtcNow` inside the filter lambda
(Giants.Services/Services/ServerRegistryService.cs:49), so a store that
evaluated the lambda once per record could compare records against slightly
different cutoffs. The model reads the clock once per call: every record is
compared against the same `now - timeoutPeriod`. Null references are `None`: a
null record, a null host address, a null game name.

The store interface calls the operation `UpsertServerInfo`, but the in-memory
store implements it with `ConcurrentDictionary.TryAdd`
(Giants.Services/Store/InMemoryServerRegistryStore.cs:34). So the first record
written for an address is kept and later ones are ignored. The model states
that first-write-wins behaviour. `ReannouncementDoesNotRefresh` proves its
consequence for an address that announces itself again: the address keeps its
first record. Once that record's heartbeat is at or before the cutoff, a store
whose listing returned its stored records would omit it from `GetAllServers`
at that time and every later one. The in-memory store's own listing throws, so with
that store the server is never listed at all.

`GetAllServers` takes the store's listing as an argument. That argument is
either the store's records in the store's enumeration order or the error the
listing threw. The `Where` filter that the service passes to the store is
applied inside the model. With the in-memory store the listing always throws
not-implemented, and `GetAllServersInMemory` states that the whole call then
fails.

## Model

| member | source | states |
|---|---|---|
| `Store.TryAdd` | Giants.Services/Store/InMemoryServerRegistryStore.cs:34 | the key set gains exactly the key; an absent key gets the new record; a present key keeps its old record (first write wins); every other key keeps its record |
| `Store.RemoveAll` | Giants.Services/Store/InMemoryServerRegistryStore.cs:51-54 | after removing each id in turn no id of the batch is a key; every key outside the batch keeps its record; nothing is added or altered |
| `Store.TryAddKeepsKeyedByHost` | Giants.Services/Store/InMemoryServerRegistryStore.cs:32-37 | adding a record under its own address keeps every record stored under its own address (one record per host) |
| `Store.RemoveAllKeepsKeyedByHost` | Giants.Services/Store/InMemoryServerRegistryStore.cs:49-57 | deleting a batch keeps every record stored under its own address |
| `Store.RemoveAllIdempotent` | Giants.Services/Store/InMemoryServerRegistryStore.cs:49-57 | deleting the same batch again changes nothing, so a retried delete is safe |
| `Store.InMemoryServerRegistryStore.constructor` | Giants.Services/Store/InMemoryServerRegistryStore.cs:13 | a new store holds an empty dictionary |
| `Store.InMemoryServerRegistryStore.GetServerInfo` | Giants.Services/Store/InMemoryServerRegistryStore.cs:15-23 | returns the record stored under the address, or null when the address is not a key; a returned record carries that address; nothing changes |
| `Store.InMemoryServerRegistryStore.Initialize` | Giants.Services/Store/InMemoryServerRegistryStore.cs:25-30 | the dictionary is empty afterwards |
| `Store.InMemoryServerRegistryStore.UpsertServerInfo` | Giants.Services/Store/InMemoryServerRegistryStore.cs:32-37 | a null record throws null-reference and a null host address throws argument-null for the key, both changing nothing; otherwise the dictionary becomes `TryAdd` of the old one (insert if absent, first write wins, other keys untouched) |
| `Store.InMemoryServerRegistryStore.GetServerInfos` | Giants.Services/Store/InMemoryServerRegistryStore.cs:39-42 | throws not-implemented whatever the filter and partition key |
| `Store.InMemoryServerRegistryStore.GetProjectedServerInfos` | Giants.Services/Store/InMemoryServerRegistryStore.cs:44-47 | throws not-implemented whatever the projection, filter and partition key |
| `Store.InMemoryServerRegistryStore.DeleteServers` | Giants.Services/Store/InMemoryServerRegistryStore.cs:49-57 | afterwards no id of the batch is a key, ids that were absent are skipped silently, and every other key keeps its record |
| `Services.LiveServers` | Giants.Services/Services/ServerRegistryService.cs:49 | a record is kept exactly when it is in the listing and its heartbeat is after the cutoff; the result is no longer than the listing |
| `Services.LiveServersAppend` | Giants.Services/Services/ServerRegistryService.cs:48-49 | filtering keeps the listing's order: filtering two stretches of a listing one after the other gives their filtered stretches one after the other |
| `Services.LiveServersIdempotent` | Giants.Services/Services/ServerRegistryService.cs:49 | filtering an already filtered listing returns it unchanged |
| `Services.Take` | Giants.Services/Services/ServerRegistryService.cs:50 | the result is a prefix of the input, of length `count` capped at the input length, and empty for a zero or negative count |
| `Services.ServerRegistryService.constructor` | Giants.Services/Services/ServerRegistryService.cs:18-28 | keeps the store, the timeout and the cap as read-once settings |
| `Services.ServerRegistryService.CheckServer` | Giants.Services/Services/ServerRegistryService.cs:33-41 | an announcement passes exactly when the record is non-null and its host address is neither null nor empty; a null record is argument-null for `server`; a missing address is an argument error for `HostIpAddress` |
| `Services.ServerRegistryService.AddServer` | Giants.Services/Services/ServerRegistryService.cs:30-44 | a rejected announcement leaves the store unchanged; an accepted one upserts the record once, unmodified (heartbeat included), under its address, and the upsert cannot fail |
| `Services.ServerRegistryService.GetAllServers` | Giants.Services/Services/ServerRegistryService.cs:46-51 | every returned record has a heartbeat after `now - timeoutPeriod`; the result is a prefix of the live records in listing order; it holds at most `maxServerCount` records (none for a zero or negative cap); when the live records fit under the cap all are returned; a failing listing propagates its error |
| `Services.ServerRegistryService.ExpiredServerNotListed` | Giants.Services/Services/ServerRegistryService.cs:49 | a record whose heartbeat is at or before `now - timeoutPeriod` is never listed, even while the store holds it |
| `Services.ServerRegistryService.CapReachedReturnsFirstLive` | Giants.Services/Services/ServerRegistryService.cs:48-50 | when more records are live than the cap, exactly the first `maxServerCount` live records are returned |
| `Services.ServerRegistryService.GetAllServersInMemory` | Giants.Services/Services/ServerRegistryService.cs:46-51 | over the in-memory store, whose listing throws, listing the servers always fails with not-implemented |
| `Services.ServerRegistryService.ReannouncementDoesNotRefresh` | Giants.Services/Store/InMemoryServerRegistryStore.cs:34 | announcing a stored address again keeps its first record; once that record's heartbeat is at or before the cutoff it is not live, and no listing at that time or any later time returns it through `GetAllServers` |
| `VersionInfoEntity.GenerateId` | Giants.Services/Core/Entities/VersionInfo.cs:11 | the id is "VersionInfo", a dash, then the game name, with a null name rendered as empty |
| `VersionInfoEntity.GenerateIdShape` | Giants.Services/Core/Entities/VersionInfo.cs:11 | the id starts with "VersionInfo-" and is 12 characters longer than the game name |
| `VersionInfoEntity.GenerateIdInjective` | Giants.Services/Core/Entities/VersionInfo.cs:11 | equal ids come from equal non-null game names |
| `VersionInfoEntity.GenerateIdNullCollidesWithEmpty` | Giants.Services/Core/Entities/VersionInfo.cs:11 | a null game name and the empty name both give "VersionInfo-" |
| `VersionInfoEntity.VersionInfo.Id` | Giants.Services/Core/Entities/VersionInfo.cs:7 | the `id` property is `GenerateId` of the application name and starts with the document type and a dash |
| `VersionInfoEntity.VersionInfo.DocumentType` | Giants.Services/Core/Entities/VersionInfo.cs:9 | the document type is always "VersionInfo" |
| `VersionInfoEntity.IdDeterminesAppName` | Giants.Services/Core/Entities/VersionInfo.cs:7-11 | two documents with non-null application names have equal ids exactly when their names are equal |

## Left out

- Concurrency and `async`: `ConcurrentDictionary` thread safety and `Task` plumbing are modelled as sequential map updates. Each method call is one atomic step.
- The service's store is the in-memory class. C# injects the `IServerRegistryStore` interface, but the durable document store that also implements it is not part of this model.
- The cleanup hosted service and the dependency wiring (Giants.Services/Core/ServicesModule.cs) are not part of this model.
- Configuration parsing is left out. `TimeSpan.FromMinutes(Convert.ToDouble(...))` is floating point and `Convert.ToInt32` parses text. The constructor takes the timeout in ticks and the cap as integers.
- `DateTime` range errors are left out. In C#, `UtcNow - timeoutPeriod` throws when it falls below `DateTime.MinValue`; here time is unbounded integers.
- `Store.InMemoryServerRegistryStore.GetServerInfo`: a null address is not modelled. In C#, `ContainsKey(null)` throws argument-null; the model's address parameter is a non-null string.
- `Store.InMemoryServerRegistryStore.DeleteServers`: a null `ids` enumerable and a null id are not modelled. In C# both throw; the model's parameter is a sequence of non-null strings.
- The HTTP controller is left out. It maps the wire record, overwrites `HostIpAddress` with the caller's address and sets `LastHeartbeat` to the current time (Giants.WebApi/Controllers/ServersController.cs:67-68). Those are the values `AddServer` receives; the service itself never touches the heartbeat.
- Records are immutable values in the model. In C#, `ServerInfo` is a mutable class: the store keeps the caller's object and `GetServerInfo` hands back that same object. `KeyedByHost` and `GetServerInfo`'s promise that a returned record carries the looked-up address hold in C# only while no caller mutates a stored record; the model assumes none does, and does not capture that aliasing.
- The descriptive fields of a server record are one opaque `details` string, because the registry never reads them.
- `ServerInfoWithHostAddress.Equals` and `GetHashCode` depend on a base class and a library hash outside this model. Records are compared as Dafny values.
- The launcher forms and the community controller are UI and I/O glue.
