/**
 * The existing-thread resolver (`find_existing_user_thread`): before creating
 * a thread for a member in a forum, look for one whose name already belongs to
 * that member, first among the active threads and then among at most 200
 * archived ones. A failure while listing the archive counts as "none found".
 */
module Resolver {

  import opened Maybe
  import opened Platform
  import opened ThreadNaming

  const ArchivedLimit := 200

  predicate Owned(t: Thread, displayName: string) {
    NameBelongsToUser(t.name, displayName)
  }

  /** The index of the first thread owned by `displayName`, or `|threads|` when there is none. */
  function FirstOwnedIndex(threads: seq<Thread>, displayName: string): (k: nat)
    ensures k <= |threads|
    ensures forall j :: 0 <= j < k ==> !Owned(threads[j], displayName)
    ensures k < |threads| ==> Owned(threads[k], displayName)
  {
    if threads == [] then 0
    else if Owned(threads[0], displayName) then 0
    else 1 + FirstOwnedIndex(threads[1..], displayName)
  }

  function FirstOwned(threads: seq<Thread>, displayName: string): Option<Thread> {
    var k := FirstOwnedIndex(threads, displayName);
    if k < |threads| then Some(threads[k]) else None
  }

  /** How many archived threads the listing hands over before it ends, reaches the limit, or fails. */
  function ArchivedListedCount(forum: Forum): (n: nat)
    ensures n <= |forum.archive| && n <= ArchivedLimit
    ensures forum.archiveFailsAfter.Some? ==> n <= forum.archiveFailsAfter.value
    ensures n == |forum.archive| || n == ArchivedLimit || (forum.archiveFailsAfter.Some? && n == forum.archiveFailsAfter.value)
  {
    var n := if |forum.archive| < ArchivedLimit then |forum.archive| else ArchivedLimit;
    match forum.archiveFailsAfter
    case Some(k) => if k < n then k else n
    case None => n
  }

  /** The thread the resolver returns for `displayName` in `forum`. */
  function ExistingUserThread(forum: Forum, displayName: string): Option<Thread> {
    match FirstOwned(forum.active, displayName)
    case Some(t) => Some(t)
    case None => FirstOwned(forum.archive[..ArchivedListedCount(forum)], displayName)
  }

  /** `find_existing_user_thread`: scan the active threads, then the archived listing. */
  method FindExistingUserThread(forum: Forum, displayName: string) returns (found: Option<Thread>)
    ensures found == ExistingUserThread(forum, displayName)
  {
    var i := 0;
    while i < |forum.active|
      invariant i <= |forum.active|
      invariant forall j :: 0 <= j < i ==> !Owned(forum.active[j], displayName)
    {
      if NameBelongsToUser(forum.active[i].name, displayName) {
        return Some(forum.active[i]);
      }
      i := i + 1;
    }
    ghost var listed := forum.archive[..ArchivedListedCount(forum)];
    i := 0;
    while i < |forum.archive| && i < ArchivedLimit
      invariant i <= |forum.archive| && i <= ArchivedLimit
      invariant forall j :: 0 <= j < i ==> !Owned(forum.archive[j], displayName)
      invariant forum.archiveFailsAfter.Some? ==> i <= forum.archiveFailsAfter.value
    {
      if forum.archiveFailsAfter == Some(i) {
        // The listing raises; the exception is logged and swallowed.
        return None;
      }
      if NameBelongsToUser(forum.archive[i].name, displayName) {
        return Some(forum.archive[i]);
      }
      i := i + 1;
    }
    return None;
  }

  /** The resolver finds nothing exactly when no active and no listed archived thread is owned. */
  lemma {:induction false} ExistingUserThreadNone(forum: Forum, displayName: string)
    ensures ExistingUserThread(forum, displayName) == None <==>
      && (forall j :: 0 <= j < |forum.active| ==> !Owned(forum.active[j], displayName))
      && (forall j :: 0 <= j < ArchivedListedCount(forum) ==> !Owned(forum.archive[j], displayName))
  {
    var listed := forum.archive[..ArchivedListedCount(forum)];
    var k := FirstOwnedIndex(forum.active, displayName);
    var k' := FirstOwnedIndex(listed, displayName);
    if k == |forum.active| && k' == |listed| {
      forall j | 0 <= j < ArchivedListedCount(forum) ensures !Owned(forum.archive[j], displayName) {
        assert listed[j] == forum.archive[j];
      }
    }
    if k' < |listed| {
      assert listed[k'] == forum.archive[k'];
    }
  }

  /** Whatever the resolver returns is owned by the member, and it is the first owned active thread when there is one. */
  lemma ExistingUserThreadFound(forum: Forum, displayName: string)
    ensures ExistingUserThread(forum, displayName).Some? ==> Owned(ExistingUserThread(forum, displayName).value, displayName)
    ensures FirstOwnedIndex(forum.active, displayName) < |forum.active| ==>
      ExistingUserThread(forum, displayName) == Some(forum.active[FirstOwnedIndex(forum.active, displayName)])
  {
  }

  /**
   * Only when no active thread is owned, the answer is the first owned thread
   * among the archived threads the listing hands over.
   */
  lemma ExistingUserThreadArchived(forum: Forum, displayName: string, k: nat)
    requires forall j :: 0 <= j < |forum.active| ==> !Owned(forum.active[j], displayName)
    requires k < ArchivedListedCount(forum) && Owned(forum.archive[k], displayName)
    requires forall j :: 0 <= j < k ==> !Owned(forum.archive[j], displayName)
    ensures ExistingUserThread(forum, displayName) == Some(forum.archive[k])
  {
    var listed := forum.archive[..ArchivedListedCount(forum)];
    var k' := FirstOwnedIndex(listed, displayName);
    assert listed[k] == forum.archive[k];
  }

  /** When the archive listing fails straight away, only the active threads are consulted. */
  lemma ListingFailureMeansActiveOnly(forum: Forum, displayName: string)
    requires forum.archiveFailsAfter == Some(0)
    ensures ExistingUserThread(forum, displayName) == FirstOwned(forum.active, displayName)
  {
  }

  /** Archived threads beyond the first 200 the platform lists are never consulted. */
  lemma ArchiveBeyondLimitIgnored(forum: Forum, more: seq<Thread>, displayName: string)
    requires |forum.archive| >= ArchivedLimit
    ensures ExistingUserThread(forum.(archive := forum.archive + more), displayName) == ExistingUserThread(forum, displayName)
  {
    var forum' := forum.(archive := forum.archive + more);
    assert ArchivedListedCount(forum') == ArchivedListedCount(forum);
    assert forum'.archive[..ArchivedListedCount(forum)] == forum.archive[..ArchivedListedCount(forum)];
  }

  /** Two members whose display names have no slash never resolve to each other's threads. */
  lemma NoForeignMatch(forum: Forum, d1: string, d2: string)
    requires '/' !in d1 && '/' !in d2
    requires ExistingUserThread(forum, d1).Some?
    requires Owned(ExistingUserThread(forum, d1).value, d2)
    ensures d1 == d2
  {
    ExistingUserThreadFound(forum, d1);
    OwnersNest(ExistingUserThread(forum, d1).value.name, d1, d2);
  }

  /** A member who had a thread in a forum still has one after more active threads appear there. */
  lemma ExistingUserThreadMonotone(forum: Forum, extra: seq<Thread>, displayName: string)
    ensures ExistingUserThread(forum, displayName).Some? ==> ExistingUserThread(forum.(active := forum.active + extra), displayName).Some?
    ensures (exists t :: t in extra && Owned(t, displayName)) ==> ExistingUserThread(forum.(active := forum.active + extra), displayName).Some?
  {
    var forum' := forum.(active := forum.active + extra);
    ExistingUserThreadNone(forum, displayName);
    ExistingUserThreadNone(forum', displayName);
    assert ArchivedListedCount(forum') == ArchivedListedCount(forum);
    if ExistingUserThread(forum', displayName).None? {
      forall j | 0 <= j < |forum.active| ensures !Owned(forum.active[j], displayName) {
        assert forum'.active[j] == forum.active[j];
      }
      forall t | t in extra ensures !Owned(t, displayName) {
        var k :| 0 <= k < |extra| && extra[k] == t;
        assert forum'.active[|forum.active| + k] == t;
      }
    }
  }
}
