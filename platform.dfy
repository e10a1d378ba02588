/**
 * The chat platform as the bot sees it: threads, forums, the guild's channel
 * cache, and the outcomes of the calls the bot makes (create a thread, fetch
 * a channel, delete a thread). Outcomes are given as data, so each forum and
 * each thread carries what the platform will answer when asked.
 */
module Platform {

  import opened Maybe

  datatype Thread = Thread(id: int, name: string)

  /**
   * The failures the bot tells apart: `discord.NotFound`, `discord.Forbidden`,
   * any other `discord.HTTPException`, and any other exception.
   */
  datatype PlatformError = NotFound | Forbidden | HttpError | OtherError

  /** What `forum.create_thread` does: a new thread with a fresh identifier, or a failure. */
  datatype CreateOutcome = CreateSucceeds(threadId: int) | CreateFails(error: PlatformError)

  /**
   * A forum channel. `active` are its active threads in enumeration order
   * (`forum.threads`); `archive` is what `forum.archived_threads` would list, in
   * the platform's order; when `archiveFailsAfter` is `Some(k)`, the listing
   * raises when asked for its item at index `k`. `onCreate` is the platform's
   * answer to a request for a new thread.
   */
  datatype Forum = Forum(active: seq<Thread>, archive: seq<Thread>, archiveFailsAfter: Option<nat>, onCreate: CreateOutcome)

  datatype Channel = ForumChannel(forum: Forum) | OtherChannel

  /** The guild's channel cache, as `guild.get_channel` reads it. */
  type Guild = map<int, Channel>

  /** `isinstance(guild.get_channel(id), discord.ForumChannel)`. */
  predicate IsForum(guild: Guild, id: int) {
    id in guild && guild[id].ForumChannel?
  }

  /** What `ch.delete` does for a thread. */
  datatype DeleteOutcome = DeleteSucceeds | DeleteFails(error: PlatformError)

  /** What `bot.fetch_channel(id)` answers: a failure, a channel that is not a thread, or a thread. */
  datatype Fetched = FetchFails(error: PlatformError) | FetchedOther | FetchedThread(onDelete: DeleteOutcome)
}
