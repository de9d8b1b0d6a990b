/** The repository contract `IEventStoreDBRepository<T>` as seen from the
    decorator: `Find`, `Add`, `Update`, `Delete` over aggregates of type `T`.

    The EventStoreDB-backed implementation is not part of this model. It is an
    oracle: each operation answers as an arbitrary (total) function of the
    history of calls made to it so far and of its arguments, so any
    deterministic store, with or without a version check, is one instance.
    Nothing is assumed about how it checks expected versions or appends. */
module EventStoreRepository {
  import opened Wrappers
  import opened VersionToken

  /** A .NET `Guid`: a 128-bit identifier. */
  type Guid = x: int | 0 <= x < 0x1_0000_0000_0000_0000_0000_0000_0000_0000

  /** What a repository call can throw. `AggregateNotFound` is raised by the
      read-modify-write helpers; every failure of the event store itself
      (a wrong expected version, a stream that already exists, a lost
      connection) is an opaque `StoreFailure`. */
  datatype Error =
    | AggregateNotFound(aggregateType: string, id: Guid)
    | StoreFailure(reason: string)

  /** One call received by the inner repository, with its arguments. */
  datatype Call<T> =
    | FindCall(id: Guid)
    | AddCall(aggregate: T)
    | UpdateCall(aggregate: T, expectedVersion: Option<ULong>)
    | DeleteCall(aggregate: T, expectedVersion: Option<ULong>)

  /** The inner repository's answers, each a function of the calls it has
      already received (oldest first) and of the current call's arguments.
      A write answers with the stream's next expected version or fails. */
  datatype InnerStore<!T> = InnerStore(
    find: (seq<Call<T>>, Guid) -> Option<T>,
    add: (seq<Call<T>>, T) -> Result<ULong, Error>,
    update: (seq<Call<T>>, T, Option<ULong>) -> Result<ULong, Error>,
    delete: (seq<Call<T>>, T, Option<ULong>) -> Result<ULong, Error>)
}
