/**
 * Thread names (`make_thread_name`) and the naming convention that ties a
 * thread to the member who asked for it (`name_belongs_to_user`).
 *
 * A name is the member's display name, a slash, and the date ten days after
 * the triggering message as "month/day" on the Tokyo calendar, cut to at most
 * 95 characters. Tokyo keeps UTC+9 all year, so the date is found from the
 * instant with a fixed offset.
 */
module ThreadNaming {

  import opened Maybe
  import opened IdList
  import opened Calendar

  const MaxNameLength := 95
  const DueDays := 10
  const SecondsPerDay := 86400
  /** Asia/Tokyo is UTC+9 with no daylight saving time. */
  const TokyoOffsetSeconds := 9 * 3600

  /** The day number on the Tokyo calendar of the instant `seconds` after 1970-01-01T00:00Z. */
  function TokyoDay(seconds: int): int {
    (seconds + TokyoOffsetSeconds) / SecondsPerDay
  }

  /** The date a thread name shows: ten days after the instant `base`, on the Tokyo calendar. */
  function DueDate(base: int): (d: Date)
    ensures ValidDate(d)
    ensures DaysFromCivil(d) == TokyoDay(base) + DueDays
  {
    var z := TokyoDay(base + DueDays * SecondsPerDay);
    CivilFromDaysValid(z);
    DaysFromCivilInverse(z);
    CivilFromDays(z)
  }

  /** `f"{due.month}/{due.day}"`: month and day without leading zeros. */
  function DateLabel(d: Date): string
    requires ValidDate(d)
  {
    Show(d.month) + ['/'] + Show(d.day)
  }

  /** The name before it is cut to length. */
  function FullName(displayName: string, base: int): string {
    displayName + ['/'] + DateLabel(DueDate(base))
  }

  /**
   * `make_thread_name`: the full name when it fits in 95 characters, otherwise
   * its first 95 characters.
   */
  function MakeThreadName(displayName: string, base: int): (name: string)
    ensures |name| <= MaxNameLength
    ensures name <= FullName(displayName, base)
    ensures |FullName(displayName, base)| <= MaxNameLength ==> name == FullName(displayName, base)
    ensures |FullName(displayName, base)| > MaxNameLength ==> |name| == MaxNameLength
  {
    var full := FullName(displayName, base);
    if |full| <= MaxNameLength then full else full[..MaxNameLength]
  }

  /** `name_belongs_to_user`: the thread name starts with the display name and a slash. */
  predicate NameBelongsToUser(threadName: string, displayName: string): (belongs: bool)
    ensures belongs <==> exists rest :: threadName == displayName + "/" + rest
  {
    var n := |displayName| + 1;
    assert n <= |threadName| ==> (displayName + ['/'] <= threadName <==> threadName == displayName + "/" + threadName[n..]);
    displayName + ['/'] <= threadName
  }

  /** The text before the first slash of a name, or None when it has no slash. */
  function FirstSegment(name: string): Option<string> {
    if name == [] then None
    else if name[0] == '/' then Some([])
    else match FirstSegment(name[1..])
      case None => None
      case Some(segment) => Some([name[0]] + segment)
  }

  /**
   * For a display name without a slash, belonging is the same as the name's
   * first slash-separated segment being that display name.
   */
  lemma {:induction false} BelongsIffFirstSegment(threadName: string, displayName: string)
    requires '/' !in displayName
    ensures NameBelongsToUser(threadName, displayName) <==> FirstSegment(threadName) == Some(displayName)
  {
    if threadName != [] && displayName != [] {
      BelongsIffFirstSegment(threadName[1..], displayName[1..]);
      assert displayName + ['/'] == [displayName[0]] + (displayName[1..] + ['/']);
      assert displayName == [displayName[0]] + displayName[1..];
      match FirstSegment(threadName[1..])
      case None =>
      case Some(segment) =>
        if threadName[0] != '/' && [threadName[0]] + segment == displayName {
          assert segment == displayName[1..];
        }
    } else if threadName != [] {
      assert NameBelongsToUser(threadName, displayName) <==> threadName[0] == '/';
      if threadName[0] != '/' {
        match FirstSegment(threadName[1..])
        case None =>
        case Some(segment) => assert |[threadName[0]] + segment| > 0;
      }
    }
  }

  /**
   * One thread can be claimed by two display names only when one of them,
   * followed by a slash, begins the other; two slash-free display names never
   * claim the same thread unless they are equal.
   */
  lemma OwnersNest(threadName: string, d1: string, d2: string)
    requires NameBelongsToUser(threadName, d1) && NameBelongsToUser(threadName, d2)
    ensures d1 + ['/'] <= d2 + ['/'] || d2 + ['/'] <= d1 + ['/']
    ensures '/' !in d1 && '/' !in d2 ==> d1 == d2
  {
    var a, b := d1 + ['/'], d2 + ['/'];
    assert a == threadName[..|a|] && b == threadName[..|b|];
    if |a| <= |b| {
      assert a == b[..|a|];
      assert b[|d1|] == '/';
    } else {
      assert b == a[..|b|];
      assert a[|d2|] == '/';
    }
    if '/' !in d1 && '/' !in d2 {
      assert |d1| == |d2|;
      assert d1 == a[..|d1|] && d2 == b[..|d2|];
    }
  }

  /** With a slash inside a display name, two members can both claim one thread. */
  lemma SlashedNamesCollide()
    ensures NameBelongsToUser("a/b/1/11", "a") && NameBelongsToUser("a/b/1/11", "a/b")
  {
    assert "a/" == "a/b/1/11"[..2];
    assert "a/b/" == "a/b/1/11"[..4];
  }

  /** A generated name belongs to its member whenever the display name and slash fit in 95 characters. */
  lemma GeneratedNameBelongs(displayName: string, base: int)
    requires |displayName| + 1 <= MaxNameLength
    ensures NameBelongsToUser(MakeThreadName(displayName, base), displayName)
  {
    var full := FullName(displayName, base);
    var name := MakeThreadName(displayName, base);
    var owner := displayName + ['/'];
    assert owner == full[..|owner|];
    assert |owner| <= |name|;
    assert name[..|owner|] == full[..|owner|];
  }

  /** Ten days after 2024-01-01T00:00 in Tokyo is 11 January 2024. */
  lemma DueDateExample()
    ensures DueDate(1704034800) == Date(2024, 1, 11)
  {
    var due := Date(2024, 1, 11);
    assert DaysFromCivil(due) == 19733;
    CivilFromDaysInverse(due);
    assert TokyoDay(1704034800 + DueDays * SecondsPerDay) == 19733;
  }

  /** "Alice" posting at 2024-01-01T00:00 in Tokyo (2023-12-31T15:00Z) gets the thread "Alice/1/11". */
  lemma AliceExample()
    ensures MakeThreadName("Alice", 1704034800) == "Alice/1/11"
  {
    DueDateExample();
    assert Show(1) == "1";
    assert Show(11) == "11";
    assert FullName("Alice", 1704034800) == "Alice/1/11";
  }
}
