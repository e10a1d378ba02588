/**
 * The event handlers. `on_message` routes a triggering message to its forums
 * and, forum by forum, either skips the forum (the member already has a
 * thread there) or asks for a new thread and records the link. Each forum is
 * handled on its own: a failure in one does not stop the next.
 * `on_raw_message_delete` pops the links of the deleted message and deletes
 * each linked thread on its own, whatever happens to the others.
 */
module Orchestrator {

  import opened Maybe
  import opened Platform
  import opened ThreadNaming
  import opened Resolver
  import opened Router
  import opened LinkStore
  import opened Collections

  /** The configuration the handlers read: the monitored channels and the routing. */
  datatype Config = Config(sourceChannelIds: seq<int>, routing: RoutingConfig)

  /**
   * The parts of a newly posted message the bot reads. `createdAt` is the
   * message's creation instant in whole seconds since 1970-01-01T00:00Z.
   */
  datatype Message = Message(
    id: int,
    channelId: int,
    authorIsBot: bool,
    inGuild: bool,
    authorRoleIds: seq<int>,
    displayName: string,
    createdAt: int)

  /** What happened in one target forum. */
  datatype ForumResult =
    | Skipped(forumId: int, existing: Thread)
    | Created(forumId: int, thread: Thread)
    | CreateFailed(forumId: int, error: PlatformError)

  datatype MessageOutcome =
    | Ignored
    | NoTargetForum
    | Handled(results: seq<ForumResult>)

  /** What happened to one linked thread. */
  datatype DeleteResult =
    | Deleted(threadId: int)
    | NotAThread(threadId: int)
    | AlreadyGone(threadId: int)
    | DeleteFailed(threadId: int, error: PlatformError)

  /** Messages that start the creation path: from a person, in a guild, in a monitored channel. */
  predicate Triggers(cfg: Config, msg: Message) {
    !msg.authorIsBot && msg.inGuild && msg.channelId in cfg.sourceChannelIds
  }

  predicate AllForums(guild: Guild, forumIds: seq<int>) {
    forall i :: 0 <= i < |forumIds| ==> IsForum(guild, forumIds[i])
  }

  /**
   * One iteration of the creation loop. A forum where the member already has
   * a thread gets no new thread; in any other forum a thread with the computed
   * name is asked for, and the result says whether the platform made it.
   */
  function ForumStep(guild: Guild, forumId: int, displayName: string, threadName: string): (r: ForumResult)
    requires IsForum(guild, forumId)
    ensures r.forumId == forumId
    ensures r.Skipped? <==> ExistingUserThread(guild[forumId].forum, displayName).Some?
    ensures r.Skipped? ==> Owned(r.existing, displayName)
    ensures r.Created? <==> ExistingUserThread(guild[forumId].forum, displayName).None? && guild[forumId].forum.onCreate.CreateSucceeds?
    ensures r.Created? ==> r.thread == Thread(guild[forumId].forum.onCreate.threadId, threadName)
  {
    var forum := guild[forumId].forum;
    ExistingUserThreadFound(forum, displayName);
    match ExistingUserThread(forum, displayName)
    case Some(t) => Skipped(forumId, t)
    case None =>
      match forum.onCreate
      case CreateSucceeds(tid) => Created(forumId, Thread(tid, threadName))
      case CreateFails(e) => CreateFailed(forumId, e)
  }

  /** The creation loop over `forumIds`, in order. */
  function ForumSteps(guild: Guild, forumIds: seq<int>, displayName: string, threadName: string): seq<ForumResult>
    requires AllForums(guild, forumIds)
  {
    if forumIds == [] then
      []
    else
      var last := forumIds[|forumIds| - 1];
      ForumSteps(guild, forumIds[..|forumIds| - 1], displayName, threadName) + [ForumStep(guild, last, displayName, threadName)]
  }

  /** The store after the links of the created threads are recorded, in order, for message `m`. */
  function LinksAfter(links: Links, m: int, results: seq<ForumResult>): Links {
    if results == [] then links
    else
      var before := LinksAfter(links, m, results[..|results| - 1]);
      match results[|results| - 1]
      case Created(_, thread) => WithLink(before, m, thread.id)
      case _ => before
  }

  /** The identifiers of the threads created, in order. */
  function CreatedIds(results: seq<ForumResult>): seq<int> {
    if results == [] then
      []
    else
      var last := match results[|results| - 1] case Created(_, thread) => [thread.id] case _ => [];
      CreatedIds(results[..|results| - 1]) + last
  }

  /** The target forums of a message. */
  function TargetForums(cfg: Config, guild: Guild, msg: Message): (forumIds: seq<int>)
    ensures AllForums(guild, forumIds)
  {
    var forumIds := Route(Candidates(cfg.routing, msg.authorRoleIds), {}, guild);
    RouteMembers(Candidates(cfg.routing, msg.authorRoleIds), {}, guild);
    assert forall i :: 0 <= i < |forumIds| ==> forumIds[i] in forumIds;
    forumIds
  }

  /**
   * What `on_message` does with a message: nothing unless it triggers; a
   * routing failure when no target forum is found; otherwise one result per
   * target forum, in order, each that forum's own step.
   */
  function HandleMessage(cfg: Config, guild: Guild, msg: Message): (outcome: MessageOutcome)
    ensures outcome == Ignored <==> !Triggers(cfg, msg)
    ensures outcome == NoTargetForum <==> Triggers(cfg, msg) && TargetForums(cfg, guild, msg) == []
    ensures outcome.Handled? ==>
      var forumIds := TargetForums(cfg, guild, msg);
      && |outcome.results| == |forumIds| > 0
      && forall i :: 0 <= i < |forumIds| ==>
           outcome.results[i] == ForumStep(guild, forumIds[i], msg.displayName, MakeThreadName(msg.displayName, msg.createdAt))
  {
    if !Triggers(cfg, msg) then Ignored
    else
      var forumIds := TargetForums(cfg, guild, msg);
      if forumIds == [] then NoTargetForum
      else
        var threadName := MakeThreadName(msg.displayName, msg.createdAt);
        ForumStepsPerForum(guild, forumIds, msg.displayName, threadName);
        Handled(ForumSteps(guild, forumIds, msg.displayName, threadName))
  }

  function ResultsOf(outcome: MessageOutcome): seq<ForumResult> {
    if outcome.Handled? then outcome.results else []
  }

  /** `on_message`. */
  method OnMessage(store: Store, cfg: Config, guild: Guild, msg: Message) returns (outcome: MessageOutcome)
    modifies store
    ensures outcome == HandleMessage(cfg, guild, msg)
    ensures store.links == LinksAfter(old(store.links), msg.id, ResultsOf(outcome))
    ensures store.flushes == old(store.flushes) + |Linked(store.links, msg.id)| - |Linked(old(store.links), msg.id)|
    ensures store.links == old(store.links) ==> store.flushes == old(store.flushes) && store.saved == old(store.saved)
    ensures store.links != old(store.links) ==> store.flushes > old(store.flushes) && store.saved == store.links
  {
    if msg.authorIsBot || !msg.inGuild {
      return Ignored;
    }
    if msg.channelId !in cfg.sourceChannelIds {
      return Ignored;
    }
    var forumIds := GatherTargetForums(cfg.routing, msg.authorRoleIds, guild);
    if forumIds == [] {
      // Logged as a routing failure.
      return NoTargetForum;
    }
    var threadName := MakeThreadName(msg.displayName, msg.createdAt);
    var results := CreateThreads(store, guild, forumIds, msg.id, msg.displayName, threadName);
    return Handled(results);
  }

  /** The creation loop of `on_message`: each target forum in turn, linking every thread created to message `m`. */
  method CreateThreads(store: Store, guild: Guild, forumIds: seq<int>, m: int, displayName: string, threadName: string)
    returns (results: seq<ForumResult>)
    requires AllForums(guild, forumIds)
    modifies store
    ensures results == ForumSteps(guild, forumIds, displayName, threadName)
    ensures store.links == LinksAfter(old(store.links), m, results)
    ensures store.flushes == old(store.flushes) + |Linked(store.links, m)| - |Linked(old(store.links), m)|
    ensures store.links == old(store.links) ==> store.flushes == old(store.flushes) && store.saved == old(store.saved)
    ensures store.links != old(store.links) ==> store.flushes > old(store.flushes) && store.saved == store.links
  {
    results := [];
    for i := 0 to |forumIds|
      invariant results == ForumSteps(guild, forumIds[..i], displayName, threadName)
      invariant store.links == LinksAfter(old(store.links), m, results)
      invariant store.flushes == old(store.flushes) + |Linked(store.links, m)| - |Linked(old(store.links), m)|
      invariant |Linked(store.links, m)| >= |Linked(old(store.links), m)|
      invariant store.links != old(store.links) ==> |Linked(store.links, m)| > |Linked(old(store.links), m)|
      invariant store.links == old(store.links) ==> store.saved == old(store.saved)
      invariant store.links != old(store.links) ==> store.saved == store.links
    {
      ghost var linksBefore := store.links;
      var result := HandleForum(store, guild, forumIds[i], m, displayName, threadName);
      ForumStepsNext(guild, forumIds, i, displayName, threadName);
      ghost var before := results;
      results := results + [result];
      assert results[..|results| - 1] == before && results[|results| - 1] == result;
      assert store.links != linksBefore ==> |Linked(store.links, m)| > |Linked(old(store.links), m)|;
    }
    assert forumIds[..|forumIds|] == forumIds;
  }

  /** The creation loop over one more forum adds that forum's step at the end. */
  lemma ForumStepsNext(guild: Guild, forumIds: seq<int>, i: nat, displayName: string, threadName: string)
    requires AllForums(guild, forumIds) && i < |forumIds|
    ensures AllForums(guild, forumIds[..i]) && AllForums(guild, forumIds[..i + 1])
    ensures ForumSteps(guild, forumIds[..i + 1], displayName, threadName)
         == ForumSteps(guild, forumIds[..i], displayName, threadName) + [ForumStep(guild, forumIds[i], displayName, threadName)]
  {
    var done := forumIds[..i + 1];
    assert done[..i] == forumIds[..i] && done[i] == forumIds[i];
  }

  /**
   * One iteration of the creation loop: skip the forum if the member already
   * has a thread there, otherwise ask for a thread and link it to message `m`.
   */
  method HandleForum(store: Store, guild: Guild, forumId: int, m: int, displayName: string, threadName: string)
    returns (result: ForumResult)
    requires IsForum(guild, forumId)
    modifies store
    ensures result == ForumStep(guild, forumId, displayName, threadName)
    ensures store.links == if result.Created? then WithLink(old(store.links), m, result.thread.id) else old(store.links)
    ensures store.links == old(store.links) ==> store.flushes == old(store.flushes) && store.saved == old(store.saved)
    ensures store.links != old(store.links) ==> store.flushes == old(store.flushes) + 1 && store.saved == store.links
    ensures store.links != old(store.links) ==> |Linked(store.links, m)| == |Linked(old(store.links), m)| + 1
  {
    var forum := guild[forumId].forum;
    var existing := FindExistingUserThread(forum, displayName);
    if existing.Some? {
      // Logged as a skip: the member already has a thread here.
      result := Skipped(forumId, existing.value);
    } else {
      match forum.onCreate {
        case CreateSucceeds(tid) =>
          store.AddLink(m, tid);
          result := Created(forumId, Thread(tid, threadName));
        case CreateFails(e) =>
          // Logged with the forum; the loop goes on.
          result := CreateFailed(forumId, e);
      }
    }
  }

  /**
   * One iteration of the deletion loop: fetch the linked channel and delete it
   * if it is a thread. Not-found, at fetch or at delete, counts as already
   * deleted; other failures are reported for this thread alone.
   */
  function DeleteStep(threadId: int, fetched: Fetched): (r: DeleteResult)
    ensures r.threadId == threadId
    ensures r.Deleted? <==> fetched == FetchedThread(DeleteSucceeds)
    ensures r.AlreadyGone? <==> fetched == FetchFails(NotFound) || fetched == FetchedThread(DeleteFails(NotFound))
    ensures r.NotAThread? <==> fetched == FetchedOther
    ensures r.DeleteFailed? ==> r.error != NotFound && (fetched == FetchFails(r.error) || fetched == FetchedThread(DeleteFails(r.error)))
  {
    match fetched
    case FetchFails(NotFound) => AlreadyGone(threadId)
    case FetchFails(e) => DeleteFailed(threadId, e)
    case FetchedOther => NotAThread(threadId)
    case FetchedThread(DeleteSucceeds) => Deleted(threadId)
    case FetchedThread(DeleteFails(NotFound)) => AlreadyGone(threadId)
    case FetchedThread(DeleteFails(e)) => DeleteFailed(threadId, e)
  }

  /** The deletion loop over the popped thread identifiers, in order. */
  function Cascade(threadIds: seq<int>, platform: int -> Fetched): seq<DeleteResult> {
    if threadIds == [] then
      []
    else
      var last := threadIds[|threadIds| - 1];
      Cascade(threadIds[..|threadIds| - 1], platform) + [DeleteStep(last, platform(last))]
  }

  /**
   * `on_raw_message_delete`. `platform(t)` is what fetching channel `t` and,
   * if it is a thread, deleting it would do.
   */
  method OnRawMessageDelete(store: Store, messageId: int, platform: int -> Fetched) returns (results: seq<DeleteResult>)
    modifies store
    ensures results == Cascade(Linked(old(store.links), messageId), platform)
    ensures store.links == WithoutEntry(old(store.links), messageId)
    ensures Linked(old(store.links), messageId) != [] ==> store.flushes == old(store.flushes) + 1 && store.saved == store.links
    ensures Linked(old(store.links), messageId) == [] ==> store.flushes == old(store.flushes) && store.saved == old(store.saved)
  {
    var threadIds := store.PopLinks(messageId);
    results := [];
    if threadIds == [] {
      return;
    }
    for i := 0 to |threadIds|
      invariant results == Cascade(threadIds[..i], platform)
    {
      assert threadIds[..i + 1][..i] == threadIds[..i];
      var tid := threadIds[i];
      var result: DeleteResult;
      match platform(tid) {
        case FetchFails(e) =>
          // A thread that is not found any more counts as already deleted.
          result := if e == NotFound then AlreadyGone(tid) else DeleteFailed(tid, e);
        case FetchedOther =>
          result := NotAThread(tid);
        case FetchedThread(onDelete) =>
          match onDelete {
            case DeleteSucceeds =>
              result := Deleted(tid);
            case DeleteFails(e) =>
              result := if e == NotFound then AlreadyGone(tid) else DeleteFailed(tid, e);
          }
      }
      results := results + [result];
    }
    assert threadIds[..|threadIds|] == threadIds;
  }

  // ---------------------------------------------------------------------------
  // Creation path

  /**
   * Each forum is handled on its own: the result for a forum depends only on
   * that forum, whatever happened in the forums before it.
   */
  lemma {:induction false} ForumStepsPerForum(guild: Guild, forumIds: seq<int>, displayName: string, threadName: string)
    requires AllForums(guild, forumIds)
    ensures |ForumSteps(guild, forumIds, displayName, threadName)| == |forumIds|
    ensures forall i :: 0 <= i < |forumIds| ==>
      ForumSteps(guild, forumIds, displayName, threadName)[i] == ForumStep(guild, forumIds[i], displayName, threadName)
  {
    if forumIds != [] {
      var prefix := forumIds[..|forumIds| - 1];
      assert AllForums(guild, prefix);
      ForumStepsPerForum(guild, prefix, displayName, threadName);
    }
  }

  /**
   * Recording links for a message changes only that message's entry: the old
   * list stays in front, and the entry holds exactly the old threads and the
   * ones created (skipped and failed forums add nothing).
   */
  lemma {:induction false} LinksAfterRecordsCreated(links: Links, m: int, results: seq<ForumResult>)
    ensures Linked(links, m) <= Linked(LinksAfter(links, m, results), m)
    ensures forall t :: t in Linked(LinksAfter(links, m, results), m) <==> t in Linked(links, m) || t in CreatedIds(results)
    ensures forall m' :: m' != m ==> Linked(LinksAfter(links, m, results), m') == Linked(links, m')
    ensures results == [] ==> LinksAfter(links, m, results) == links
  {
    if results != [] {
      var prefix := results[..|results| - 1];
      LinksAfterRecordsCreated(links, m, prefix);
    }
  }

  /** For a message with no entry yet, the entry lists the created threads in creation order. */
  lemma {:induction false} LinksAfterFreshMessage(links: Links, m: int, results: seq<ForumResult>)
    requires m !in links
    requires NoDuplicates(CreatedIds(results))
    ensures Linked(LinksAfter(links, m, results), m) == CreatedIds(results)
  {
    if results != [] {
      var prefix := results[..|results| - 1];
      var ids := CreatedIds(results);
      assert NoDuplicates(CreatedIds(prefix)) by {
        assert CreatedIds(prefix) == ids[..|CreatedIds(prefix)|];
      }
      LinksAfterFreshMessage(links, m, prefix);
      match results[|results| - 1]
      case Created(_, thread) =>
        assert ids == CreatedIds(prefix) + [thread.id];
        forall k | 0 <= k < |CreatedIds(prefix)| ensures CreatedIds(prefix)[k] != thread.id {
          assert ids[k] == CreatedIds(prefix)[k] && ids[|ids| - 1] == thread.id;
        }
      case _ =>
    }
  }

  /** With no matching role and no default forum, nothing is created and nothing is recorded. */
  lemma NoRouteNoThreads(cfg: Config, guild: Guild, msg: Message, links: Links)
    requires Triggers(cfg, msg)
    requires RoleForums(cfg.routing, msg.authorRoleIds) == [] && cfg.routing.defaultForumIds == []
    ensures HandleMessage(cfg, guild, msg) == NoTargetForum
    ensures LinksAfter(links, msg.id, ResultsOf(HandleMessage(cfg, guild, msg))) == links
  {
  }

  /** The threads created in forum `forumId`, in order. */
  function CreatedIn(results: seq<ForumResult>, forumId: int): seq<Thread> {
    if results == [] then
      []
    else
      var last := match results[|results| - 1]
        case Created(f, thread) => if f == forumId then [thread] else []
        case _ => [];
      CreatedIn(results[..|results| - 1], forumId) + last
  }

  lemma {:induction false} CreatedInHas(results: seq<ForumResult>, i: nat)
    requires i < |results| && results[i].Created?
    ensures results[i].thread in CreatedIn(results, results[i].forumId)
  {
    if i < |results| - 1 {
      CreatedInHas(results[..|results| - 1], i);
    }
  }

  /** The guild once the created threads are listed among the active threads of their forums. */
  function AfterHandling(guild: Guild, results: seq<ForumResult>): Guild {
    map id | id in guild ::
      match guild[id]
      case ForumChannel(f) => ForumChannel(f.(active := f.active + CreatedIn(results, id)))
      case OtherChannel => OtherChannel
  }

  /**
   * Idempotence: once the threads of a first run are listed in their forums, a
   * second run of the same message creates no thread in any forum where the
   * first run created or found one. This needs the display name and slash to
   * fit in a thread name, so that the generated name still belongs to the member.
   */
  lemma SecondRunSkips(cfg: Config, guild: Guild, msg: Message)
    requires |msg.displayName| + 1 <= MaxNameLength
    requires HandleMessage(cfg, guild, msg).Handled?
    ensures var rs := HandleMessage(cfg, guild, msg).results;
      var again := HandleMessage(cfg, AfterHandling(guild, rs), msg);
      && again.Handled? && |again.results| == |rs|
      && forall i :: 0 <= i < |rs| && !rs[i].CreateFailed? ==> again.results[i].Skipped?
  {
    var rs := HandleMessage(cfg, guild, msg).results;
    var guild' := AfterHandling(guild, rs);
    assert forall id :: IsForum(guild, id) == IsForum(guild', id);
    var candidates := Candidates(cfg.routing, msg.authorRoleIds);
    RouteSameForums(candidates, {}, guild, guild');
    var forumIds := TargetForums(cfg, guild, msg);
    assert forumIds == TargetForums(cfg, guild', msg);
    var D := msg.displayName;
    var name := MakeThreadName(D, msg.createdAt);
    ForumStepsPerForum(guild, forumIds, D, name);
    ForumStepsPerForum(guild', forumIds, D, name);
    var again := HandleMessage(cfg, guild', msg);
    forall i | 0 <= i < |rs| && !rs[i].CreateFailed? ensures again.results[i].Skipped? {
      var id := forumIds[i];
      var f := guild[id].forum;
      assert guild'[id].forum == f.(active := f.active + CreatedIn(rs, id));
      ExistingUserThreadMonotone(f, CreatedIn(rs, id), D);
      if rs[i].Created? {
        CreatedInHas(rs, i);
        GeneratedNameBelongs(D, msg.createdAt);
        assert Owned(rs[i].thread, D);
      }
    }
  }

  // ---------------------------------------------------------------------------
  // Deletion path

  /**
   * A delete is attempted for exactly the popped threads, in order, each on its
   * own; when nothing was linked, no platform call is made.
   */
  lemma {:induction false} CascadePerThread(threadIds: seq<int>, platform: int -> Fetched)
    ensures |Cascade(threadIds, platform)| == |threadIds|
    ensures forall i :: 0 <= i < |threadIds| ==>
      && Cascade(threadIds, platform)[i] == DeleteStep(threadIds[i], platform(threadIds[i]))
      && Cascade(threadIds, platform)[i].threadId == threadIds[i]
  {
    if threadIds != [] {
      CascadePerThread(threadIds[..|threadIds| - 1], platform);
    }
  }

  /**
   * The end-to-end run for an author with only the male role, two male forums
   * with no thread of theirs, and both creations succeeding: two threads are
   * made and linked under the one message; deleting the message deletes both
   * and removes the entry.
   */
  lemma MaleAuthorTwoForums(cfg: Config, guild: Guild, msg: Message, f1: int, f2: int, t1: int, t2: int,
                            links: Links, platform: int -> Fetched)
    requires Triggers(cfg, msg)
    requires cfg.routing.maleRoleId in msg.authorRoleIds && cfg.routing.femaleRoleId !in msg.authorRoleIds
    requires cfg.routing.maleForumIds == [f1, f2] && f1 != f2 && t1 != t2
    requires f1 in guild && guild[f1] == ForumChannel(Forum([], [], None, CreateSucceeds(t1)))
    requires f2 in guild && guild[f2] == ForumChannel(Forum([], [], None, CreateSucceeds(t2)))
    requires msg.id !in links
    requires platform(t1) == FetchedThread(DeleteSucceeds) && platform(t2) == FetchedThread(DeleteSucceeds)
    ensures var name := MakeThreadName(msg.displayName, msg.createdAt);
      HandleMessage(cfg, guild, msg) == Handled([Created(f1, Thread(t1, name)), Created(f2, Thread(t2, name))])
    ensures var after := LinksAfter(links, msg.id, ResultsOf(HandleMessage(cfg, guild, msg)));
      && Linked(after, msg.id) == [t1, t2]
      && Cascade(Linked(after, msg.id), platform) == [Deleted(t1), Deleted(t2)]
      && WithoutEntry(after, msg.id) == links
  {
    var name := MakeThreadName(msg.displayName, msg.createdAt);
    var rs := [Created(f1, Thread(t1, name)), Created(f2, Thread(t2, name))];
    MaleAuthorCreates(cfg, guild, msg, f1, f2, t1, t2);
    TwoCreatedThenDeleted(links, msg.id, rs, platform);
  }

  lemma MaleAuthorCreates(cfg: Config, guild: Guild, msg: Message, f1: int, f2: int, t1: int, t2: int)
    requires Triggers(cfg, msg)
    requires cfg.routing.maleRoleId in msg.authorRoleIds && cfg.routing.femaleRoleId !in msg.authorRoleIds
    requires cfg.routing.maleForumIds == [f1, f2] && f1 != f2
    requires f1 in guild && guild[f1] == ForumChannel(Forum([], [], None, CreateSucceeds(t1)))
    requires f2 in guild && guild[f2] == ForumChannel(Forum([], [], None, CreateSucceeds(t2)))
    ensures var name := MakeThreadName(msg.displayName, msg.createdAt);
      HandleMessage(cfg, guild, msg) == Handled([Created(f1, Thread(t1, name)), Created(f2, Thread(t2, name))])
  {
    var name := MakeThreadName(msg.displayName, msg.createdAt);
    MaleAuthorRoute(cfg, guild, msg, f1, f2);
    var rs := [Created(f1, Thread(t1, name)), Created(f2, Thread(t2, name))];
    assert [f1, f2][..1] == [f1];
    assert ForumSteps(guild, [f1], msg.displayName, name) == [rs[0]];
  }

  lemma TwoCreatedThenDeleted(links: Links, m: int, rs: seq<ForumResult>, platform: int -> Fetched)
    requires |rs| == 2 && rs[0].Created? && rs[1].Created?
    requires m !in links && rs[0].thread.id != rs[1].thread.id
    requires platform(rs[0].thread.id) == FetchedThread(DeleteSucceeds)
    requires platform(rs[1].thread.id) == FetchedThread(DeleteSucceeds)
    ensures var after := LinksAfter(links, m, rs);
      && Linked(after, m) == [rs[0].thread.id, rs[1].thread.id]
      && Cascade(Linked(after, m), platform) == [Deleted(rs[0].thread.id), Deleted(rs[1].thread.id)]
      && WithoutEntry(after, m) == links
  {
    var t1, t2 := rs[0].thread.id, rs[1].thread.id;
    var first := rs[..1];
    assert first[..0] == [] && first[0] == rs[0];
    assert LinksAfter(links, m, first) == WithLink(links, m, t1);
    assert rs[..|rs| - 1] == first;
    assert LinksAfter(links, m, rs) == WithLink(WithLink(links, m, t1), m, t2);
    TwoLinksThenPop(links, m, t1, t2);
    CascadeTwo(t1, t2, platform);
  }

  lemma CascadeTwo(t1: int, t2: int, platform: int -> Fetched)
    requires platform(t1) == FetchedThread(DeleteSucceeds) && platform(t2) == FetchedThread(DeleteSucceeds)
    ensures Cascade([t1, t2], platform) == [Deleted(t1), Deleted(t2)]
  {
    assert [t1, t2][..1] == [t1] && [t1][..0] == [];
    assert Cascade([t1], platform) == [Deleted(t1)];
  }

  lemma MaleAuthorRoute(cfg: Config, guild: Guild, msg: Message, f1: int, f2: int)
    requires cfg.routing.maleRoleId in msg.authorRoleIds && cfg.routing.femaleRoleId !in msg.authorRoleIds
    requires cfg.routing.maleForumIds == [f1, f2] && f1 != f2
    requires IsForum(guild, f1) && IsForum(guild, f2)
    ensures TargetForums(cfg, guild, msg) == [f1, f2]
  {
    var forumIds := [f1, f2];
    assert Candidates(cfg.routing, msg.authorRoleIds) == forumIds;
    assert forumIds[1..] == [f2] && [f2][1..] == [];
    assert Route([f2], {f1}, guild) == [f2] + Route([], {f1, f2}, guild);
    assert {} + {f1} == {f1};
    assert Route(forumIds, {}, guild) == [f1] + Route([f2], {f1}, guild);
  }

  /** A deletion for a message with no links makes no platform call and leaves the store as it was. */
  lemma DeleteUnknownMessage(links: Links, m: int, platform: int -> Fetched)
    requires m !in links
    ensures Cascade(Linked(links, m), platform) == []
    ensures WithoutEntry(links, m) == links
  {
  }
}
