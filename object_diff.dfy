/**
 * doDiffObjects: re-stat two URLs believed to name single objects and
 * report how they differ.
 */
module ObjectDiff {
  import opened Storage
  import opened Messages

  /**
   * The records doDiffObjects sends for `firstURL` and `secondURL`.
   * When both stats fail the Go code falls through with nil contents and
   * dereferences them, so that case is excluded.
   */
  function ObjectsDiff(env: Env, firstURL: string, secondURL: string): (r: seq<DiffMessage>)
    requires firstURL in env.stat || secondURL in env.stat
    ensures |r| <= 2
    ensures forall i :: 0 <= i < |r| && r[i].Difference? ==>
              r[i].firstURL == firstURL && r[i].secondURL == secondURL && r[i].diff != OnlyInFirst
    ensures forall i :: 0 <= i < |r| && r[i].Failure? ==> r == [r[i]]
  {
    if firstURL !in env.stat then
      [Failure(StatFailed, [firstURL, secondURL])]
    else if secondURL !in env.stat then
      [Failure(StatFailed, [firstURL, secondURL])]
    else
      var first := env.stat[firstURL].content;
      var second := env.stat[secondURL].content;
      if first.name == second.name then []
      else if first.kind != Regular then [Failure(NotAnObject(firstURL), [])]
      else
        (if second.kind != Regular then [Difference(firstURL, secondURL, TypeDiff)] else [])
        + (if first.size != second.size then [Difference(firstURL, secondURL, SizeDiff)] else [])
  }

  /** Exactly one of the two stats fails: one error record, traced with both URLs, and nothing else. */
  lemma OneStatFails(env: Env, firstURL: string, secondURL: string)
    requires (firstURL in env.stat) != (secondURL in env.stat)
    ensures ObjectsDiff(env, firstURL, secondURL) == [Failure(StatFailed, [firstURL, secondURL])]
  {
  }

  /** Entries with equal names are never compared: nothing is sent, whatever their kinds and sizes. */
  lemma SameNameSkipped(env: Env, firstURL: string, secondURL: string)
    requires firstURL in env.stat && secondURL in env.stat
    requires env.stat[firstURL].content.name == env.stat[secondURL].content.name
    ensures ObjectsDiff(env, firstURL, secondURL) == []
  {
  }

  /** A first entry that is not a regular file is an error, not a difference. */
  lemma FirstNotRegular(env: Env, firstURL: string, secondURL: string)
    requires firstURL in env.stat && secondURL in env.stat
    requires env.stat[firstURL].content.name != env.stat[secondURL].content.name
    requires env.stat[firstURL].content.kind != Regular
    ensures ObjectsDiff(env, firstURL, secondURL) == [Failure(NotAnObject(firstURL), [])]
  {
  }

  /**
   * Two regular files with different names: no record when the sizes agree,
   * otherwise exactly one "size" record carrying the two input URLs.
   */
  lemma RegularPair(env: Env, firstURL: string, secondURL: string)
    requires firstURL in env.stat && secondURL in env.stat
    requires env.stat[firstURL].content.name != env.stat[secondURL].content.name
    requires env.stat[firstURL].content.kind == Regular
    requires env.stat[secondURL].content.kind == Regular
    ensures var r := ObjectsDiff(env, firstURL, secondURL);
            (r == [] <==> env.stat[firstURL].content.size == env.stat[secondURL].content.size) &&
            (r != [] ==> r == [Difference(firstURL, secondURL, SizeDiff)])
  {
  }

  /**
   * A regular first entry against a non-regular second: a "type" record,
   * and, since the code does not return after it, a "size" record after it
   * exactly when the sizes also differ.
   */
  lemma TypeThenSize(env: Env, firstURL: string, secondURL: string)
    requires firstURL in env.stat && secondURL in env.stat
    requires env.stat[firstURL].content.name != env.stat[secondURL].content.name
    requires env.stat[firstURL].content.kind == Regular
    requires env.stat[secondURL].content.kind != Regular
    ensures var r := ObjectsDiff(env, firstURL, secondURL);
            1 <= |r| && r[0] == Difference(firstURL, secondURL, TypeDiff) &&
            (|r| == 2 <==> env.stat[firstURL].content.size != env.stat[secondURL].content.size) &&
            (|r| == 2 ==> r[1] == Difference(firstURL, secondURL, SizeDiff))
  {
  }

  /** doDiffObjects (diff.go:145-187), sending on `ch`. */
  method DoDiffObjects(env: Env, firstURL: string, secondURL: string, ch: Channel)
    requires firstURL in env.stat || secondURL in env.stat
    requires !ch.closed
    modifies ch
    ensures !ch.closed
    ensures ch.sent == old(ch.sent) + ObjectsDiff(env, firstURL, secondURL)
  {
    var firstOk := firstURL in env.stat;
    var secondOk := secondURL in env.stat;
    if !firstOk && secondOk {
      ch.Send(Failure(StatFailed, [firstURL, secondURL]));
      return;
    }
    if firstOk && !secondOk {
      ch.Send(Failure(StatFailed, [firstURL, secondURL]));
      return;
    }
    var firstContent := env.stat[firstURL].content;
    var secondContent := env.stat[secondURL].content;
    if firstContent.name == secondContent.name {
      return;
    }
    if firstContent.kind == Regular {
      if secondContent.kind != Regular {
        ch.Send(Difference(firstURL, secondURL, TypeDiff));
      }
    } else {
      ch.Send(Failure(NotAnObject(firstURL), []));
      return;
    }
    if firstContent.size != secondContent.size {
      ch.Send(Difference(firstURL, secondURL, SizeDiff));
    }
  }
}
