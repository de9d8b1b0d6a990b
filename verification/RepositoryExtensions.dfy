/** `EventStoreDbRepositoryExtensions`: the read-modify-write helpers `Get`
    (find or fail with `AggregateNotFound`) and `GetAndUpdate` (get, mutate,
    update), written against any repository.

    A repository is given by its `Find` and `Update` operations over a state
    `S` they thread through; `Decorated` instantiates it with the ETag
    decorator. The in-place `Action<T>` becomes a function from the entity to
    the mutated entity. Each run also reports the steps it took, in order. */
module RepositoryExtensions {
  import opened Wrappers
  import opened VersionToken
  import opened EventStoreRepository
  import ETagDecorator

  /** The part of `IEventStoreDBRepository<T>` the helpers use. */
  datatype Repository<!T, !S> = Repository(
    find: (S, Guid) -> (Option<T>, S),
    update: (S, T, Option<ULong>) -> (Result<ULong, Error>, S))

  /** One step of a helper: a repository call or the caller's mutation. */
  datatype HelperStep<T> =
    | FindCalled(id: Guid)
    | ActionApplied(entity: T)
    | UpdateCalled(entity: T, expectedVersion: Option<ULong>)

  /** A helper's outcome, the repository state after it, and its steps. */
  datatype Run<R, T, S> = Run(result: Result<R, Error>, state: S, steps: seq<HelperStep<T>>)

  /** `Get`: the aggregate `Find` returns, or `AggregateNotFound` for the
      aggregate type and `id` when it returns null. */
  function Get<T, S>(repo: Repository<T, S>, s: S, aggregateType: string, id: Guid): (r: Run<T, T, S>)
    ensures r.steps == [FindCalled(id)]
    ensures r.state == repo.find(s, id).1
    ensures repo.find(s, id).0.Some? ==> r.result == Success(repo.find(s, id).0.value)
    ensures repo.find(s, id).0.None? ==> r.result == Failure(AggregateNotFound(aggregateType, id))
  {
    var (entity, s') := repo.find(s, id);
    var result := if entity.Some? then Success(entity.value) else Failure(AggregateNotFound(aggregateType, id));
    Run(result, s', [FindCalled(id)])
  }

  /** `GetAndUpdate`: when the aggregate is missing it fails with
      `AggregateNotFound` after the lookup alone; otherwise it applies the
      action once and updates the mutated entity once, passing the caller's
      expected version unchanged and returning `Update`'s result as is. */
  function GetAndUpdate<T, S>(repo: Repository<T, S>, s: S, aggregateType: string, id: Guid,
                              action: T -> T, expectedVersion: Option<ULong>): (r: Run<ULong, T, S>)
    ensures repo.find(s, id).0.None? ==>
      && r.result == Failure(AggregateNotFound(aggregateType, id))
      && r.state == repo.find(s, id).1
      && r.steps == [FindCalled(id)]
    ensures repo.find(s, id).0.Some? ==>
      var entity := repo.find(s, id).0.value;
      var updated := repo.update(repo.find(s, id).1, action(entity), expectedVersion);
      && r.steps == [FindCalled(id), ActionApplied(entity), UpdateCalled(action(entity), expectedVersion)]
      && r.result == updated.0
      && r.state == updated.1
  {
    var got := Get(repo, s, aggregateType, id);
    if got.result.Failure? then
      Run(Failure(got.result.error), got.state, got.steps)
    else
      var entity := action(got.result.value);
      var (result, s') := repo.update(got.state, entity, expectedVersion);
      Run(result, s', got.steps + [ActionApplied(got.result.value), UpdateCalled(entity, expectedVersion)])
  }

  /** The ETag decorator over `store`, seen as a repository. */
  function Decorated<T>(store: InnerStore<T>): Repository<T, ETagDecorator.Ctx<T>> {
    Repository(
      (ctx: ETagDecorator.Ctx<T>, id: Guid) =>
        var r := ETagDecorator.Find(store, ctx, id); (r.result, r.ctx),
      (ctx: ETagDecorator.Ctx<T>, entity: T, expectedVersion: Option<ULong>) =>
        var r := ETagDecorator.Update(store, ctx, entity, expectedVersion); (r.result, r.ctx))
  }

  /** `GetAndUpdate` through the decorator, as the inner store sees it: a
      missing aggregate costs one `Find` and publishes nothing; a present one
      costs exactly one `Find` and one `Update` of the mutated entity, whose
      expected version is the caller's when given and the token's otherwise,
      and a successful update publishes the version it returns. */
  lemma {:induction false} GetAndUpdateThroughDecorator<T>(store: InnerStore<T>, ctx: ETagDecorator.Ctx<T>,
                                                         aggregateType: string, id: Guid,
                                                         action: T -> T, expectedVersion: Option<ULong>)
    ensures
      var r := GetAndUpdate(Decorated(store), ctx, aggregateType, id, action, expectedVersion);
      var version := if expectedVersion.Some? then expectedVersion
                     else ETagDecorator.GetExpectedVersion(ctx.expectedToken);
      && r.state.expectedToken == ctx.expectedToken
      && (store.find(ctx.log, id).None? ==>
            && r.result == Failure(AggregateNotFound(aggregateType, id))
            && r.state.log == ctx.log + [FindCall(id)]
            && r.state.nextToken == ctx.nextToken)
      && (store.find(ctx.log, id).Some? ==>
            var entity := store.find(ctx.log, id).value;
            && r.state.log == ctx.log + [FindCall(id), UpdateCall(action(entity), version)]
            && r.result == store.update(ctx.log + [FindCall(id)], action(entity), version)
            && (r.result.Success? ==> ETagDecorator.Publishes(r.state, r.result.value))
            && (r.result.Failure? ==> r.state.nextToken == ctx.nextToken))
  {
    var repo := Decorated(store);
    var version := if expectedVersion.Some? then expectedVersion
                   else ETagDecorator.GetExpectedVersion(ctx.expectedToken);
    var found := ETagDecorator.Find(store, ctx, id);
    assert repo.find(ctx, id) == (found.result, found.ctx);
    if store.find(ctx.log, id).Some? {
      var entity := store.find(ctx.log, id).value;
      var w := ETagDecorator.Update(store, found.ctx, action(entity), expectedVersion);
      assert repo.update(found.ctx, action(entity), expectedVersion) == (w.result, w.ctx);
      assert ctx.log + [FindCall(id)] + [UpdateCall(action(entity), version)]
          == ctx.log + [FindCall(id), UpdateCall(action(entity), version)];
    }
  }
}
