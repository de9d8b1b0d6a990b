/** `EventStoreDBRepositoryWithETagDecorator<T>`: a repository that wraps an
    inner one and maps the request's resource-version token (an ETag) onto the
    inner store's `ulong?` expected-version argument, then publishes each
    write's resulting version as the token for the response.

    The two request-scoped providers become fields of the context `Ctx`: the
    expected-version provider's `Value` is the read-only `expectedToken`, and
    `INextResourceVersionProvider.TrySet` writes the `nextToken` slot. The
    context also records every call the decorator makes to the inner store. */
module ETagDecorator {
  import opened Wrappers
  import opened VersionToken
  import opened EventStoreRepository

  /** Request-scoped state around the decorator. */
  datatype Ctx<T> = Ctx(
    expectedToken: Option<string>,
    nextToken: Option<string>,
    log: seq<Call<T>>)

  /** The value a repository call returns together with the context after it. */
  datatype Step<R, T> = Step(result: R, ctx: Ctx<T>)

  /** Reference meaning of an expected-version token: it is present and spells
      `v` in decimal digits. */
  predicate Denotes(token: Option<string>, v: ULong) {
    token.Some? && IsDecimal(token.value) && DecimalValue(token.value) == v
  }

  /** The next-version slot holds the canonical decimal spelling of `v`. */
  predicate Publishes<T>(ctx: Ctx<T>, v: ULong) {
    ctx.nextToken.Some? && IsCanonicalDecimal(ctx.nextToken.value)
    && DecimalValue(ctx.nextToken.value) == v
  }

  /** The private `GetExpectedVersion`: a null, empty, white-space or
      unparseable token maps to `null`, i.e. an unconditional write. */
  function GetExpectedVersion(token: Option<string>): (r: Option<ULong>)
    ensures r.Some? ==> Denotes(token, r.value)
    ensures r.None? ==> forall v: ULong :: !Denotes(token, v)
    ensures IsNullOrWhiteSpace(token) ==> r.None?
  {
    if IsNullOrWhiteSpace(token) then
      assert token.Some? ==> !IsDecimal(token.value) by {
        if token.Some? && |token.value| > 0 {
          assert IsWhiteSpace(token.value[0]);
        }
      }
      None
    else TryParse(token.value)
  }

  /** `TrySet(version.ToString())` after a successful inner write; a failed
      write throws before reaching it, so the slot keeps its value. */
  function Publish<T>(ctx: Ctx<T>, r: Result<ULong, Error>): Ctx<T> {
    if r.Success? then ctx.(nextToken := Some(Format(r.value))) else ctx
  }

  /** `Find`: handed straight to the inner store. */
  function Find<T>(store: InnerStore<T>, ctx: Ctx<T>, id: Guid): (r: Step<Option<T>, T>)
    ensures r.result == store.find(ctx.log, id)
    ensures r.ctx.log == ctx.log + [FindCall(id)]
    ensures r.ctx.expectedToken == ctx.expectedToken
    ensures r.ctx.nextToken == ctx.nextToken
  {
    Step(store.find(ctx.log, id), ctx.(log := ctx.log + [FindCall(id)]))
  }

  /** `Add`: delegates, then publishes the new stream's version. */
  function Add<T>(store: InnerStore<T>, ctx: Ctx<T>, aggregate: T): (r: Step<Result<ULong, Error>, T>)
    ensures r.ctx.log == ctx.log + [AddCall(aggregate)]
    ensures r.result == store.add(ctx.log, aggregate)
    ensures r.ctx.expectedToken == ctx.expectedToken
    ensures r.result.Success? ==> Publishes(r.ctx, r.result.value)
    ensures r.result.Failure? ==> r.ctx.nextToken == ctx.nextToken
  {
    var result := store.add(ctx.log, aggregate);
    Step(result, Publish(ctx.(log := ctx.log + [AddCall(aggregate)]), result))
  }

  /** Which conditional write the inner store is asked for. */
  datatype WriteKind = UpdateWrite | DeleteWrite

  /** The inner call for a conditional write of `aggregate` at `version`. */
  function WriteCall<T>(kind: WriteKind, aggregate: T, version: Option<ULong>): Call<T> {
    match kind
    case UpdateWrite => UpdateCall(aggregate, version)
    case DeleteWrite => DeleteCall(aggregate, version)
  }

  /** The shared body of `Update` and `Delete`: `expectedVersion ??
      GetExpectedVersion()` is passed to the inner write, whose resulting
      version is published and returned. */
  function ConditionalWrite<T>(kind: WriteKind, store: InnerStore<T>, ctx: Ctx<T>, aggregate: T,
                               expectedVersion: Option<ULong>): Step<Result<ULong, Error>, T>
  {
    var version := if expectedVersion.Some? then expectedVersion else GetExpectedVersion(ctx.expectedToken);
    var result :=
      match kind
      case UpdateWrite => store.update(ctx.log, aggregate, version)
      case DeleteWrite => store.delete(ctx.log, aggregate, version);
    Step(result, Publish(ctx.(log := ctx.log + [WriteCall(kind, aggregate, version)]), result))
  }

  /** `Update`: an explicit expected version wins over the token; otherwise the
      token's version, or none at all, is passed on. */
  function Update<T>(store: InnerStore<T>, ctx: Ctx<T>, aggregate: T, expectedVersion: Option<ULong>)
    : (r: Step<Result<ULong, Error>, T>)
    ensures expectedVersion.Some? ==> r.ctx.log == ctx.log + [UpdateCall(aggregate, expectedVersion)]
    ensures expectedVersion.None? ==>
      r.ctx.log == ctx.log + [UpdateCall(aggregate, GetExpectedVersion(ctx.expectedToken))]
    ensures r.result == store.update(ctx.log, aggregate, r.ctx.log[|ctx.log|].expectedVersion)
    ensures r.ctx.expectedToken == ctx.expectedToken
    ensures r.result.Success? ==> Publishes(r.ctx, r.result.value)
    ensures r.result.Failure? ==> r.ctx.nextToken == ctx.nextToken
  {
    ConditionalWrite(UpdateWrite, store, ctx, aggregate, expectedVersion)
  }

  /** `Delete`: the same version rules as `Update`, asking the inner store for
      a delete. */
  function Delete<T>(store: InnerStore<T>, ctx: Ctx<T>, aggregate: T, expectedVersion: Option<ULong>)
    : (r: Step<Result<ULong, Error>, T>)
    ensures expectedVersion.Some? ==> r.ctx.log == ctx.log + [DeleteCall(aggregate, expectedVersion)]
    ensures expectedVersion.None? ==>
      r.ctx.log == ctx.log + [DeleteCall(aggregate, GetExpectedVersion(ctx.expectedToken))]
    ensures r.result == store.delete(ctx.log, aggregate, r.ctx.log[|ctx.log|].expectedVersion)
    ensures r.ctx.expectedToken == ctx.expectedToken
    ensures r.result.Success? ==> Publishes(r.ctx, r.result.value)
    ensures r.result.Failure? ==> r.ctx.nextToken == ctx.nextToken
  {
    ConditionalWrite(DeleteWrite, store, ctx, aggregate, expectedVersion)
  }

  /** A token that is a digit string within range makes the write conditional
      on exactly the version it spells. */
  lemma TokenBecomesExpectedVersion<T>(store: InnerStore<T>, ctx: Ctx<T>, aggregate: T, v: ULong)
    requires Denotes(ctx.expectedToken, v)
    ensures Update(store, ctx, aggregate, None).ctx.log == ctx.log + [UpdateCall(aggregate, Some(v))]
    ensures Delete(store, ctx, aggregate, None).ctx.log == ctx.log + [DeleteCall(aggregate, Some(v))]
  {
  }

  /** With no explicit version, a missing, blank, non-numeric or out-of-range
      token makes the write unconditional. */
  lemma UnusableTokenIsUnconditional<T>(store: InnerStore<T>, ctx: Ctx<T>, aggregate: T)
    requires
      || IsNullOrWhiteSpace(ctx.expectedToken)
      || (exists k :: 0 <= k < |ctx.expectedToken.value| && !IsDigit(ctx.expectedToken.value[k]))
      || (IsDecimal(ctx.expectedToken.value) && DecimalValue(ctx.expectedToken.value) > MaxULong)
    ensures Update(store, ctx, aggregate, None).ctx.log == ctx.log + [UpdateCall(aggregate, None)]
    ensures Delete(store, ctx, aggregate, None).ctx.log == ctx.log + [DeleteCall(aggregate, None)]
  {
  }

  /** Round trip: the token published after a write, sent back as the next
      request's expected version, makes that request's update or delete
      conditional on exactly the published version. */
  lemma PublishedTokenRoundTrip<T>(store: InnerStore<T>, published: Ctx<T>, v: ULong,
                                   ctx: Ctx<T>, aggregate: T)
    requires Publishes(published, v)
    requires ctx.expectedToken == published.nextToken
    ensures Update(store, ctx, aggregate, None).ctx.log == ctx.log + [UpdateCall(aggregate, Some(v))]
    ensures Delete(store, ctx, aggregate, None).ctx.log == ctx.log + [DeleteCall(aggregate, Some(v))]
  {
    TokenBecomesExpectedVersion(store, ctx, aggregate, v);
  }

  /** The round trip across two requests: after a successful `Add`, a
      follow-up request that echoes the response's token and updates without
      an explicit version passes the version `Add` returned. */
  lemma AddThenEchoedUpdate<T>(store: InnerStore<T>, ctx: Ctx<T>, created: T, changed: T)
    requires Add(store, ctx, created).result.Success?
    ensures
      var first := Add(store, ctx, created);
      var second := first.ctx.(expectedToken := first.ctx.nextToken);
      Update(store, second, changed, None).ctx.log
        == first.ctx.log + [UpdateCall(changed, Some(first.result.value))]
  {
    var first := Add(store, ctx, created);
    PublishedTokenRoundTrip(store, first.ctx, first.result.value,
                            first.ctx.(expectedToken := first.ctx.nextToken), changed);
  }

  /** `Update` and `Delete` pass the same expected version, keep the same
      request state, and, when the inner store answers both alike, return and
      publish the same version. */
  lemma UpdateAndDeleteAgree<T>(store: InnerStore<T>, ctx: Ctx<T>, aggregate: T, expectedVersion: Option<ULong>)
    ensures
      var u := Update(store, ctx, aggregate, expectedVersion);
      var d := Delete(store, ctx, aggregate, expectedVersion);
      && u.ctx.log[..|ctx.log|] == d.ctx.log[..|ctx.log|] == ctx.log
      && u.ctx.log[|ctx.log|].expectedVersion == d.ctx.log[|ctx.log|].expectedVersion
      && u.ctx.expectedToken == d.ctx.expectedToken
      && (store.update(ctx.log, aggregate, u.ctx.log[|ctx.log|].expectedVersion)
            == store.delete(ctx.log, aggregate, d.ctx.log[|ctx.log|].expectedVersion)
          ==> u.result == d.result && u.ctx.nextToken == d.ctx.nextToken)
  {
  }
}
