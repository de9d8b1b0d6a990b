# Optimistic-concurrency layer of the LeaderBoard event-store repository

This project models the layer that sits in front of the event-store repository of the
LeaderBoard shared kernel. It also proves properties of that model. The layer has two parts:

- `EventStoreDBRepositoryWithETagDecorator<T>`. It wraps an inner `IEventStoreDBRepository<T>`.
  - `Update` and `Delete` turn the request's expected resource version into the inner store's
    `ulong?` expected-version argument. The request supplies that version as a string token, an ETag.
  - An explicit argument wins over the token.
  - A null, blank or unparseable token becomes `null`, which means an unconditional write.
    This relaxed path is deliberate.
  - After each successful write, the decorator publishes the resulting stream version as a
    decimal string through `INextResourceVersionProvider.TrySet`.
- `EventStoreDbRepositoryExtensions`. It holds two read-modify-write helpers.
  - `Get` finds an aggregate or fails with `AggregateNotFound`.
  - `GetAndUpdate` gets the aggregate, applies the caller's action, and updates it with the
    caller's expected version.

Modules:

- `Wrappers`: `Option`, which stands for a C# nullable, and `Result`, which stands for a
  return-or-throw.
- `VersionToken`: the token format. It holds `ulong.ToString()` (`Format`), `ulong.TryParse`
  (`TryParse`), `string.IsNullOrWhiteSpace`, and a reference meaning for digit strings
  (`DecimalValue`).
- `EventStoreRepository`: the repository contract. It defines `Guid`, the error taxonomy, the
  calls the inner store receives, and the inner store as an oracle. Each inner operation is an
  arbitrary total function of the calls the store has already received and of its arguments.
  Nothing is claimed about how it checks versions or appends events.
- `ETagDecorator`: the decorator. Its state `Ctx` holds three things:
  - the expected-version provider's `Value`;
  - the next-version slot that `TrySet` writes;
  - the log of every call made to the inner store.
- `RepositoryExtensions`: `Get` and `GetAndUpdate` over any repository, given as `find` and
  `update` operations that thread a state. `Decorated` plugs in the decorator, so the helpers
  can also be seen from the inner store's side.

## Model

| member | source | states |
|---|---|---|
| VersionToken.Format | src/Shared/LeaderBoard.SharedKernel/EventStoreDB/Repository/EventStoreDBRepositoryWithETagDecorator.cs:34 | `ulong.ToString()` yields a non-empty digit string with no redundant leading zero, and that string reads back as the version |
| VersionToken.TryParse | src/Shared/LeaderBoard.SharedKernel/EventStoreDB/Repository/EventStoreDBRepositoryWithETagDecorator.cs:70-73 | the parse succeeds exactly on a non-empty ASCII digit string whose value is at most 2^64 - 1, and it then yields that value |
| VersionToken.ParseDigitsMeaning | src/Shared/LeaderBoard.SharedKernel/EventStoreDB/Repository/EventStoreDBRepositoryWithETagDecorator.cs:70 | the digit-by-digit parse, with its early exit on overflow, agrees with the reference value of the whole string |
| VersionToken.FormatThenParse | src/Shared/LeaderBoard.SharedKernel/EventStoreDB/Repository/EventStoreDBRepositoryWithETagDecorator.cs:34 | parsing a published version string gives back the same version |
| VersionToken.ParseThenFormat | src/Shared/LeaderBoard.SharedKernel/EventStoreDB/Repository/EventStoreDBRepositoryWithETagDecorator.cs:70-73 | a token without redundant leading zeros is exactly the string `ToString` prints for the version it parses to |
| VersionToken.NonDigitNeverParses | src/Shared/LeaderBoard.SharedKernel/EventStoreDB/Repository/EventStoreDBRepositoryWithETagDecorator.cs:70-71 | a token that contains any character other than an ASCII digit never yields a version |
| VersionToken.OutOfRangeNeverParses | src/Shared/LeaderBoard.SharedKernel/EventStoreDB/Repository/EventStoreDBRepositoryWithETagDecorator.cs:70-71 | a digit token whose value is above 18446744073709551615 never yields a version |
| ETagDecorator.GetExpectedVersion | src/Shared/LeaderBoard.SharedKernel/EventStoreDB/Repository/EventStoreDBRepositoryWithETagDecorator.cs:66-74 | the token maps to `v` only when it spells `v` in decimal; in every other case it maps to `null`, and a null, empty or white-space token always maps to `null` |
| ETagDecorator.Find | src/Shared/LeaderBoard.SharedKernel/EventStoreDB/Repository/EventStoreDBRepositoryWithETagDecorator.cs:24-25 | returns exactly the inner store's answer after one inner `Find`, and leaves both tokens alone |
| ETagDecorator.Add | src/Shared/LeaderBoard.SharedKernel/EventStoreDB/Repository/EventStoreDBRepositoryWithETagDecorator.cs:27-37 | makes one inner `Add` and returns its result; on success the next-version slot holds that version's decimal string; on failure the slot keeps its value |
| ETagDecorator.Update | src/Shared/LeaderBoard.SharedKernel/EventStoreDB/Repository/EventStoreDBRepositoryWithETagDecorator.cs:39-51 | the inner `Update` receives the explicit version when given and the token's version otherwise; the result is the inner result; a success publishes the version and a failure leaves the slot unchanged |
| ETagDecorator.Delete | src/Shared/LeaderBoard.SharedKernel/EventStoreDB/Repository/EventStoreDBRepositoryWithETagDecorator.cs:53-64 | the same version-substitution and publication rules as `Update`, applied to the inner `Delete` |
| ETagDecorator.TokenBecomesExpectedVersion | src/Shared/LeaderBoard.SharedKernel/EventStoreDB/Repository/EventStoreDBRepositoryWithETagDecorator.cs:70-73 | with no explicit version, a token that spells `v` makes the inner update or delete conditional on exactly `v` |
| ETagDecorator.UnusableTokenIsUnconditional | src/Shared/LeaderBoard.SharedKernel/EventStoreDB/Repository/EventStoreDBRepositoryWithETagDecorator.cs:70-71 | with no explicit version, a token that is missing, blank, non-numeric or out of range makes the inner write unconditional |
| ETagDecorator.PublishedTokenRoundTrip | src/Shared/LeaderBoard.SharedKernel/EventStoreDB/Repository/EventStoreDBRepositoryWithETagDecorator.cs:48-73 | feeding back the published token as the next expected version makes the next update or delete pass exactly the published version |
| ETagDecorator.AddThenEchoedUpdate | src/Shared/LeaderBoard.SharedKernel/EventStoreDB/Repository/EventStoreDBRepositoryWithETagDecorator.cs:27-51 | after a successful `Add`, a request that echoes its token and updates without an explicit version passes the version `Add` returned |
| ETagDecorator.UpdateAndDeleteAgree | src/Shared/LeaderBoard.SharedKernel/EventStoreDB/Repository/EventStoreDBRepositoryWithETagDecorator.cs:39-64 | `Update` and `Delete` pass the same expected version; when the inner store answers both alike, they return and publish the same version |
| RepositoryExtensions.Get | src/Shared/LeaderBoard.SharedKernel/EventStoreDB/Extensions/EventStoreDbRepositoryExtensions.cs:9-18 | makes one `Find`; returns the aggregate when found; otherwise fails with `AggregateNotFound` for the aggregate type and the given id |
| RepositoryExtensions.GetAndUpdate | src/Shared/LeaderBoard.SharedKernel/EventStoreDB/Extensions/EventStoreDbRepositoryExtensions.cs:20-33 | when the aggregate is missing, fails with `AggregateNotFound` after `Find` alone, with no action and no `Update`; otherwise the steps are exactly `Find`, the action, and one `Update` of the mutated entity with the caller's expected version unchanged, and it returns that `Update`'s result, success or failure |
| RepositoryExtensions.GetAndUpdateThroughDecorator | src/Shared/LeaderBoard.SharedKernel/EventStoreDB/Extensions/EventStoreDbRepositoryExtensions.cs:20-33 | through the decorator, the inner store sees exactly one `Find`, then exactly one `Update` of the mutated entity when the aggregate exists. That `Update` carries the caller's version, or the token's version when the caller gives none. A missing aggregate publishes nothing |

## Left out

- VersionToken.TryParse: it is a strict decimal parse. .NET's default integer style also accepts surrounding white space, a leading sign (`"+5"`, `"-0"`) and the culture's sign symbols. Those tokens map to `null` here, where .NET would yield a version.
- ETagDecorator.GetExpectedVersion: it inherits the strict parse above. A token such as `" 7 "` makes the write unconditional here, but conditional on 7 in .NET.
- The inner EventStoreDB repository is not part of this model. That covers its atomic check-and-append, event replay, and the errors it throws. It is an oracle whose answers depend only on the calls made through this decorator. Writes by other processes are not modelled.
- The provider implementations are not part of this model. Those are the HTTP header reading and writing behind the expected-version and next-version providers. The expected token is a read-only `Option<string>`. `TrySet` always writes the slot; a provider without a response boundary, for which `TrySet` does nothing, is not modelled.
- `IAggregate` domain logic is not part of this model. Aggregates are values of a type parameter, and the caller's `Action<T>` is a function from the entity to the mutated entity. An exception thrown by the action is not modelled.
- `Find` in the inner store cannot fail in this model. Only the three writes can fail.
- Async execution, `ConfigureAwait` and `CancellationToken` are not modelled. Each call is a synchronous step.
- Concurrent requests are not modelled. Each run threads one request's context.
- The transactional outbox and the exponential retry policy are MassTransit/RabbitMQ configuration in `src/Services/LeaderBoard.GameEventsSource/Program.cs`. Their delivery state machine and backoff live inside that library, which is not part of this model.
- Host bootstrap is not modelled: dependency injection, logging, Swagger, endpoint mapping, migrations and seeding.
