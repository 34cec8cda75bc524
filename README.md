# fundoland: user, notification and log services in Dafny

This project models the logic of three small Spring services and proves what
they promise.

- **User service.** `MainController` keeps users in a relational table with a
  soft-delete flag and a unique email column. It fronts the table with a
  `userByEmail` cache (`@CachePut`, `@Cacheable`, `@CacheEvict` and one explicit
  eviction) and publishes `UserCreated` / `UserCreationFailed` events to a
  RabbitMQ direct exchange through `UserEventPublisher`.
- **Notification service.** It binds one queue to that exchange. Its
  `SSEController` keeps a registry of server-sent-event emitters. New
  connections are appended; the completion and timeout callbacks remove an
  emitter; a broadcast iterates a snapshot of the registry, sends to each
  emitter and removes the ones whose send throws.
- **Log service.** `LogController` stamps incoming log entries with the current
  time, saves them in a MongoDB collection, and lists them, all or filtered by
  service.

The objects whose state the code changes through their methods are Dafny
classes: `MainController`, `User`, `SSEController`, `SseEmitter`,
`RabbitTemplate` and `LogController`. Each holds its state in fields, and
its methods say how that state changes. `LogEntry`, `UserCreatedEvent` and
`UserCreationFailedEvent` also have setters. They are modelled as values
(datatypes), because the code builds or receives each one and passes it on.
The only setter call on them is `addLog`'s `setTimestamp`, modelled by
`Logs.Stamped`.

Each controller method is proved against a pure function of the whole state:

| module | contents |
|---|---|
| `UserService` | The user service's state machine: table, id counter, cache, published messages. |
| `UserServiceProperties` | Properties relating several calls: invariants kept, listings, idempotence, what the cache serves afterwards. |
| `UserController` | `MainController`, proved call by call to follow `UserService`. |
| `UserEntity` | `User`, with one setter per field. |
| `UserEvents` | The events, the outbound message log and `UserEventPublisher`. |
| `NotificationRouting` | The binding table and exact-match routing. |
| `Sse` | The emitter registry. |
| `Logs` | The log store. |

Two things the model makes explicit:

- **How the cache annotations behave.** `@CachePut` caches the reply string,
  not the user. So a lookup right after `addNewUser` returns "Saved" or the
  error text.
- **How `@CacheEvict(key = "#email")` behaves.** It evicts the email argument,
  and only when the method returns normally. The user's old email stays
  cached, and an update that fails on the unique column evicts nothing.

`UserEventListener` subscribes to `user.creation.failed.queue`
(`notification-service/src/main/java/com/example/notificationservice/NotificationServiceApplication.java:35`).
Neither configuration shown declares or binds that queue. The notification
configuration binds only `user.created`
(`notification/src/main/java/com/example/notificationservice/config/RabbitMQConfig.java:26-27`).
So a `UserCreationFailed` message, routed with `user.created.failed`, matches
no binding and is dropped. The model follows the configuration
(`NotificationRouting.FailedEventIsUnroutable`,
`NotificationRouting.FailureListenerQueueNeverFed`).

## Model

| member | source | states |
|---|---|---|
| UserEntity.User.constructor | user/src/main/java/com/example/user/entity/User.java:54-68 | A new user has no id, name or email, and `deleted` is false. |
| UserEntity.User.GetId | user/src/main/java/com/example/user/entity/User.java:70-72 | Returns the id last set. |
| UserEntity.User.SetId | user/src/main/java/com/example/user/entity/User.java:74-76 | Sets the id and changes no other field. |
| UserEntity.User.GetName | user/src/main/java/com/example/user/entity/User.java:78-80 | Returns the name last set. |
| UserEntity.User.SetName | user/src/main/java/com/example/user/entity/User.java:82-84 | Sets the name and changes no other field. |
| UserEntity.User.GetEmail | user/src/main/java/com/example/user/entity/User.java:86-88 | Returns the email last set. |
| UserEntity.User.SetEmail | user/src/main/java/com/example/user/entity/User.java:90-92 | Sets the email and changes no other field. |
| UserEntity.User.IsDeleted | user/src/main/java/com/example/user/entity/User.java:94-96 | Returns the soft-delete flag last set. |
| UserEntity.User.SetDeleted | user/src/main/java/com/example/user/entity/User.java:98-100 | Sets the soft-delete flag and changes no other field. |
| UserEvents.RoutingKeyOf | user/src/main/java/com/example/user/event/UserEventPublisher.java:18-32 | The key is "user.created" exactly for a created event and "user.created.failed" exactly for a failure event. |
| UserEvents.Envelope | user/src/main/java/com/example/user/event/UserEventPublisher.java:18-32 | The message for an event goes to exchange "user.exchange" and carries the event unchanged. |
| UserEvents.RoutingKeyDeterminesVariant | user/src/main/java/com/example/user/config/RabbitMQConfig.java:14-16 | Two events get the same routing key if and only if they are the same variant. |
| UserEvents.RabbitTemplate.ConvertAndSend | user/src/main/java/com/example/user/event/UserEventPublisher.java:19-23 | Appends exactly one message (exchange, key, payload) to the outbound log. |
| UserEvents.UserEventPublisher.constructor | user/src/main/java/com/example/user/event/UserEventPublisher.java:11-16 | The publisher holds only the broker client it is given. |
| UserEvents.UserEventPublisher.PublishUserCreatedEvent | user/src/main/java/com/example/user/event/UserEventPublisher.java:18-24 | Appends exactly one message: "user.exchange", key "user.created", the event unchanged. It touches nothing but the outbound log. |
| UserEvents.UserEventPublisher.PublishUserCreationFailedEvent | user/src/main/java/com/example/user/event/UserEventPublisher.java:26-32 | Appends exactly one message: "user.exchange", key "user.created.failed", the event unchanged. It touches nothing but the outbound log. |
| NotificationRouting.Route | notification/src/main/java/com/example/notificationservice/config/RabbitMQConfig.java:26-27 | A queue is reached if and only if a binding names it with exactly the message's exchange and routing key. |
| NotificationRouting.CreatedEventReachesQueue | notification/src/main/java/com/example/notificationservice/config/RabbitMQConfig.java:12-27 | A published `UserCreated` reaches exactly `user.created.queue`. |
| NotificationRouting.FailedEventIsUnroutable | notification/src/main/java/com/example/notificationservice/config/RabbitMQConfig.java:12-27 | A published `UserCreationFailed` reaches no queue. |
| NotificationRouting.FailureListenerQueueNeverFed | notification-service/src/main/java/com/example/notificationservice/NotificationServiceApplication.java:35-38 | No event the user service publishes is routed to `user.creation.failed.queue`. |
| UserService.Initial | user/src/main/java/com/example/user/controller/MainController.java:31-44 | The starting state has an empty table and an empty cache, and it satisfies the table invariant. |
| UserService.FindByEmail | user/src/main/java/com/example/user/repository/UserRepository.java:12 | Finds a row with the email, deleted or not, or reports that no row has it. |
| UserService.IndexOfId | user/src/main/java/com/example/user/controller/MainController.java:168 | Finds the first row with the id, or reports that no row has it. |
| UserService.Add | user/src/main/java/com/example/user/controller/MainController.java:83-108 | Email taken (even by a deleted row): error reply, one failure event, table unchanged. Fresh email: "Saved", one new active row, one created event. Either way the cache maps the email to the reply string. |
| UserService.FetchByEmail | user/src/main/java/com/example/user/controller/MainController.java:145-150 | A returned user is stored, has the email and is not deleted; anything else is "Error: User not found.". |
| UserService.Lookup | user/src/main/java/com/example/user/controller/MainController.java:142-151 | A hit returns the cached value and changes nothing. A miss returns an active user with the email or the not-found text, and caches it. |
| UserService.WithDeleted | user/src/main/java/com/example/user/repository/UserRepository.java:14 | A listing filtered by the soft-delete flag is never longer than the table. The same filter serves `findAllByDeletedTrue` and the loop of `getAllUsers`. Its contents are stated by `WithDeletedMembers`. |
| UserService.EmailTakenByOther | user/src/main/java/com/example/user/entity/User.java:64-65 | For a new entity (no id), inserting breaks the unique email column exactly when `findByEmail` finds a row. So the pre-check at MainController.java:93 decides whether the insert at :104 would violate the column. |
| UserService.Edited | user/src/main/java/com/example/user/controller/MainController.java:172-174 | Name and email are replaced only by non-empty arguments; id and flag are kept. |
| UserService.Update | user/src/main/java/com/example/user/controller/MainController.java:163-177 | Unknown id: not-found reply, table unchanged, email argument evicted. A unique-email violation changes nothing. Sends nothing and keeps the table size. |
| UserService.Delete | user/src/main/java/com/example/user/controller/MainController.java:188-201 | Unknown id: not-found reply and nothing changes. Otherwise "Soft deleted". Sends nothing and keeps the table size. |
| UserServiceProperties.FindByEmailUnique | user/src/main/java/com/example/user/entity/User.java:64-65 | Under the unique-email invariant, `findByEmail` finds the one row with that email. |
| UserServiceProperties.IndexOfIdUnique | user/src/main/java/com/example/user/entity/User.java:54-56 | Under the invariant, `findById` finds the one row with that id. |
| UserServiceProperties.IndexOfIdAfterWrite | user/src/main/java/com/example/user/controller/MainController.java:175 | Saving a row back under its own id leaves it found at the same place. |
| UserServiceProperties.WithDeletedMembers | user/src/main/java/com/example/user/repository/UserRepository.java:14 | A listing holds exactly the rows with the requested flag, and is no longer than the table. |
| UserServiceProperties.WithDeletedAppend | user/src/main/java/com/example/user/controller/MainController.java:127-131 | Filtering by the flag distributes over concatenation. |
| UserServiceProperties.WithDeletedStep | user/src/main/java/com/example/user/controller/MainController.java:127-131 | One loop step: the row joins the listing exactly when its flag matches. |
| UserServiceProperties.ListingsPartitionTable | user/src/main/java/com/example/user/controller/MainController.java:58-60 | The active and deleted listings together hold every row exactly once (as multisets). |
| UserServiceProperties.AddPreservesConsistent | user/src/main/java/com/example/user/controller/MainController.java:93-104 | `addNewUser` keeps ids increasing and emails unique. |
| UserServiceProperties.AddThenList | user/src/main/java/com/example/user/controller/MainController.java:93-107 | A saved user appears in the active listing. A rejected add changes the active listing not at all. The deleted listing never changes. |
| UserServiceProperties.LookupAfterAddServesReply | user/src/main/java/com/example/user/controller/MainController.java:83 | A lookup right after `addNewUser` serves its reply string from the cache and changes nothing. |
| UserServiceProperties.LookupMissFindsActive | user/src/main/java/com/example/user/controller/MainController.java:142-150 | On a miss, the lookup yields a user if and only if an active row has the email, and then it yields that row. |
| UserServiceProperties.LookupTwice | user/src/main/java/com/example/user/controller/MainController.java:142 | A second lookup of the same email returns the same value and changes nothing. |
| UserServiceProperties.UpdateExisting | user/src/main/java/com/example/user/controller/MainController.java:172-176 | On an existing id the edited row is saved in place and no other row changes. If another row holds the new email, nothing changes. |
| UserServiceProperties.UpdatePreservesConsistent | user/src/main/java/com/example/user/controller/MainController.java:172-175 | `updateUser` keeps ids increasing and emails unique. |
| UserServiceProperties.UpdateLeavesOtherKeysCached | user/src/main/java/com/example/user/controller/MainController.java:163 | After an update, every cache entry under a key other than the email argument is still there, the old email included. |
| UserServiceProperties.DeleteExisting | user/src/main/java/com/example/user/controller/MainController.java:190-200 | The row stays with `deleted` set. No other row changes. The user's current email is evicted. The reply is "Soft deleted". |
| UserServiceProperties.DeletePreservesConsistent | user/src/main/java/com/example/user/controller/MainController.java:197-199 | `deleteUser` keeps the table invariant. |
| UserServiceProperties.DeleteIdempotent | user/src/main/java/com/example/user/controller/MainController.java:188-200 | Deleting twice gives the same state and reply as deleting once. |
| UserServiceProperties.LookupAfterDelete | user/src/main/java/com/example/user/controller/MainController.java:194-198 | After a soft delete, a lookup of the user's email misses the cache and reports not found. |
| UserController.MainController.constructor | user/src/main/java/com/example/user/controller/MainController.java:25-44 | Starts in the initial state, which satisfies the table invariant. |
| UserController.MainController.FindById | user/src/main/java/com/example/user/controller/MainController.java:168 | Returns nothing exactly when no row has the id. Otherwise returns a new entity holding that row's values. |
| UserController.MainController.Save | user/src/main/java/com/example/user/controller/MainController.java:104 | Fails, changing nothing, when another row holds the email. Otherwise inserts under a new id or overwrites the row with the entity's id. |
| UserController.MainController.GetDeletedUsers | user/src/main/java/com/example/user/controller/MainController.java:58-60 | Returns the rows with `deleted` true, keeping the order `findAll` gives them, and changes nothing. |
| UserController.MainController.AddNewUser | user/src/main/java/com/example/user/controller/MainController.java:83-108 | New state and reply are exactly `UserService.Add`; the table invariant is kept. |
| UserController.MainController.GetAllUsers | user/src/main/java/com/example/user/controller/MainController.java:124-133 | The loop returns the rows with `deleted` false, in the order `findAll` gives them, and changes nothing. |
| UserController.MainController.GetUserByEmail | user/src/main/java/com/example/user/controller/MainController.java:142-151 | New state and result are exactly `UserService.Lookup`. |
| UserController.MainController.UpdateUser | user/src/main/java/com/example/user/controller/MainController.java:163-177 | New state and outcome are exactly `UserService.Update`; the table invariant is kept. |
| UserController.MainController.DeleteUser | user/src/main/java/com/example/user/controller/MainController.java:188-201 | New state and reply are exactly `UserService.Delete`; the table invariant is kept. |
| Sse.SseEmitter.constructor | notification/src/main/java/com/example/notificationservice/controller/SSEController.java:17 | A new emitter has received nothing. |
| Sse.SseEmitter.Send | notification/src/main/java/com/example/notificationservice/controller/SSEController.java:27 | Succeeds exactly when the send does not throw, and then appends the event to what the client received. |
| Sse.RemoveFirst | notification/src/main/java/com/example/notificationservice/controller/SSEController.java:19-29 | `List.remove` (lines 19, 20 and 29) removes one element when the emitter is registered and none otherwise. |
| Sse.Survivors | notification/src/main/java/com/example/notificationservice/controller/SSEController.java:24-32 | The registry after a broadcast. When no send fails it is the registry unchanged. Its contents and order are stated by `SurvivorsMembers` and `SurvivorsKeepOrder`. |
| Sse.RemoveFirstDistinct | notification/src/main/java/com/example/notificationservice/controller/SSEController.java:19-20 | Removing from a duplicate-free registry takes the emitter out, keeps every other emitter and keeps the registry duplicate-free. |
| Sse.RemoveFirstAbsent | notification/src/main/java/com/example/notificationservice/controller/SSEController.java:19-20 | Removing an emitter that is not registered changes nothing. |
| Sse.RemoveTwice | notification/src/main/java/com/example/notificationservice/controller/SSEController.java:19-20 | Firing both callbacks leaves the same registry as firing one. |
| Sse.RemoveAfterPrefix | notification/src/main/java/com/example/notificationservice/controller/SSEController.java:29 | Removing the first occurrence of an emitter that follows a prefix without it drops exactly that occurrence. |
| Sse.SurvivorsMembers | notification/src/main/java/com/example/notificationservice/controller/SSEController.java:26-30 | After a broadcast, a registered emitter remains if and only if its send succeeded. |
| Sse.SurvivorsAppend | notification/src/main/java/com/example/notificationservice/controller/SSEController.java:25-31 | The survivors of two parts of the registry are the survivors of each part, in order. |
| Sse.SurvivorsSingleton | notification/src/main/java/com/example/notificationservice/controller/SSEController.java:26-30 | A single emitter survives exactly when its send succeeds. |
| Sse.BroadcastStep | notification/src/main/java/com/example/notificationservice/controller/SSEController.java:25-31 | One iteration keeps the invariant: registry = survivors of the visited part + the unvisited part. |
| Sse.SurvivorsDistinct | notification/src/main/java/com/example/notificationservice/controller/SSEController.java:13 | The survivors of a duplicate-free registry are duplicate-free. |
| Sse.SurvivorsKeepOrder | notification/src/main/java/com/example/notificationservice/controller/SSEController.java:13-29 | Two surviving emitters keep their relative order. |
| Sse.SSEController.constructor | notification/src/main/java/com/example/notificationservice/controller/SSEController.java:13 | The registry starts empty. |
| Sse.SSEController.StreamNotifications | notification/src/main/java/com/example/notificationservice/controller/SSEController.java:16-22 | Appends exactly one fresh emitter at the end, which has received nothing. The registry stays duplicate-free. |
| Sse.SSEController.OnCompletion | notification/src/main/java/com/example/notificationservice/controller/SSEController.java:19 | Removes the emitter and keeps every other one. |
| Sse.SSEController.OnTimeout | notification/src/main/java/com/example/notificationservice/controller/SSEController.java:20 | Removes the emitter and keeps every other one. |
| Sse.SSEController.Deliver | notification/src/main/java/com/example/notificationservice/controller/SSEController.java:26-30 | One send. On failure, that emitter is removed from the live registry; on success, the client gets the event. |
| Sse.SSEController.SendEventToClients | notification/src/main/java/com/example/notificationservice/controller/SSEController.java:24-32 | Iterates the snapshot, in order, and returns it. Every emitter whose send succeeds gets the event once, even after earlier failures. The registry becomes exactly the survivors, in order. An empty registry stays empty. |
| Logs.Filters | log-service/src/main/java/com/example/logservice/controller/LogController.java:34 | The read is unfiltered exactly when the service parameter is missing or empty. |
| Logs.Upsert | log-service/src/main/java/com/example/logservice/controller/LogController.java:26 | `MongoRepository.save` stores the document and grows the store by at most one. The exact effect is in `UpsertStores` and `UpsertSize`. |
| Logs.ByService | log-service/src/main/java/com/example/logservice/repository/LogEntryRepository.java:11 | `findByService` never returns more entries than are stored. Its contents are stated by `ByServiceMembers`. |
| Logs.Find | log-service/src/main/java/com/example/logservice/controller/LogController.java:26 | Finds the first stored document with the id, or reports that none has it. |
| Logs.Stamped | log-service/src/main/java/com/example/logservice/controller/LogController.java:25-26 | The saved entry has the timestamp `now` whatever the client sent. It keeps the client's service and message, and its id or a generated one. |
| Logs.ByServiceMembers | log-service/src/main/java/com/example/logservice/repository/LogEntryRepository.java:11 | `findByService` returns exactly the entries whose service equals the argument. |
| Logs.ByServiceSubMultiset | log-service/src/main/java/com/example/logservice/repository/LogEntryRepository.java:11 | `findByService` returns no entry more often than it is stored. |
| Logs.UpsertStores | log-service/src/main/java/com/example/logservice/controller/LogController.java:26 | After a save the document is stored. Every stored document under another id is still stored. Nothing else appears. |
| Logs.UpsertSize | log-service/src/main/java/com/example/logservice/controller/LogController.java:26 | A save adds one document when its id is new, and otherwise keeps the store's size. |
| Logs.UpsertKeepsUniqueIds | log-service/src/main/java/com/example/logservice/controller/LogController.java:26 | Saving keeps document ids unique. |
| Logs.UpsertIdempotent | log-service/src/main/java/com/example/logservice/controller/LogController.java:26 | Saving the same document twice leaves the store as saving it once. |
| Logs.LogController.constructor | log-service/src/main/java/com/example/logservice/controller/LogController.java:16-17 | The store starts empty. |
| Logs.LogController.AddLog | log-service/src/main/java/com/example/logservice/controller/LogController.java:24-27 | Returns the stamped entry, upserts it into the store, and keeps ids unique. |
| Logs.LogController.ReadLogs | log-service/src/main/java/com/example/logservice/controller/LogController.java:33-38 | With no service or an empty one it returns every entry. Otherwise it returns exactly the entries with that service, never more often than stored. It only reads the store. |
| Logs.FilteredWithinAll | log-service/src/main/java/com/example/logservice/controller/LogController.java:35-37 | The filtered listing is a sub-multiset of the unfiltered one. |
| Logs.AddThenRead | log-service/src/main/java/com/example/logservice/controller/LogController.java:24-38 | Right after `addLog`, an unfiltered read, or one filtered by the entry's own service, returns the saved entry; entries under other ids are still stored. |

## Left out

- HTTP routing, Spring wiring and the `System.out` logging are not modelled. The application classes are not part of this model.
- The broker transport and Jackson serialisation are not modelled. A message carries the event value itself. The exchange is a constant, and the bindings are a fixed table.
- `UserEventListener`'s handlers are not modelled separately. Each one only forwards the message to `sendEventToClients`, and `NotificationRouting` states which queue a published event reaches.
- Concurrency is not modelled: the thread-safety of `CopyOnWriteArrayList` and the callback threads. Each call runs alone, and a broadcast iterates a snapshot.
- The Redis cache backend is a map from email to value.
- UserController.MainController.UpdateUser: the email argument is a required string. When it is missing the eviction key is null and Spring's eviction fails, and that path is not modelled.
- The table invariant (increasing ids, unique emails) is a precondition of the user controller's methods. The database keeps it, and the methods are proved to keep it too.
- `@CreatedDate`/`@LastModifiedDate` auditing and their getters and setters are not modelled (clock-driven).
- Ids from `GenerationType.AUTO` come from a counter. The integer width of `Integer` ids is not modelled; the counter is unbounded.
- UserController.MainController.FindById returns a new entity carrying the row's values. JPA's managed-entity identity (the same object on repeated loads) is not modelled.
- A save that breaks the unique email column ends `updateUser` with the `UniqueViolation` outcome; the exception itself is not modelled.
- Sse.SseEmitter.Send: whether a send throws is decided by the client and the network. It is a parameter, and `SendEventToClients` takes the set of emitters whose send throws during that broadcast. Emitter timeouts and the HTTP stream itself are not modelled.
- Logs.LogController.AddLog: `LocalDateTime.now()` is the parameter `now` (an abstract instant). The id MongoDB generates for a body without one is the parameter `freshId`, which must not be in use. The request body is a value, so the in-place `setTimestamp` on the caller's object is seen only through the returned entry.
- The log collection's natural order is taken to be insertion order; a save under an existing id replaces the document where it stands.
- The user table's `findAll` order is taken to be id order. Neither `findAll` nor `findAllByDeletedTrue` sorts, so the source promises no order.
- UserEvents.RabbitTemplate.ConvertAndSend never fails. In the source it can throw when the broker is unreachable. At MainController.java:105 such a throw would come after the save at :104: the row would stay saved, with no created event and no `@CachePut` entry. `UserService.Add` always does all three.
