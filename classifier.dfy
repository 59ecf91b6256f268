/**
 * doDiffInRoutine and doDiffDirs: stat both inputs, decide which
 * comparison applies, dispatch, and close the channel.
 */
module Classifier {
  import opened Storage
  import opened Messages
  import opened ObjectDiff
  import opened FlatDiff
  import opened RecursiveDiff

  /** The records doDiffDirs sends; `order` is the walk order when `recursive`. */
  function DirsDiff(env: Env, firstClnt: Client, secondClnt: Client, recursive: bool, order: seq<string>): (r: seq<DiffMessage>)
    ensures forall i :: 0 <= i < |r| && r[i].Failure? ==>
              r[i].cause == ListFailed || (!recursive && r[i].cause == JoinFailed)
  {
    if recursive then RecursiveDiffOf(firstClnt, secondClnt, order)
    else FlatDiffOf(env, firstClnt, secondClnt)
  }

  /** Both inputs stat as directories: the case that reaches doDiffDirs. */
  predicate BothDirs(env: Env, firstURL: string, secondURL: string) {
    && firstURL in env.stat && secondURL in env.stat
    && env.stat[firstURL].content.kind == Dir
    && env.stat[secondURL].content.kind == Dir
  }

  /**
   * The records doDiffInRoutine sends for `firstURL` and `secondURL`;
   * `order` is the walk order of the recursive differ, when it runs.
   */
  function RoutineDiff(env: Env, firstURL: string, secondURL: string, recursive: bool, order: seq<string>): (r: seq<DiffMessage>)
    ensures !BothDirs(env, firstURL, secondURL) ==> |r| <= 2
    ensures forall i :: 0 <= i < |r| && r[i].Failure? && r[i].cause == ListFailed ==> BothDirs(env, firstURL, secondURL)
  {
    if firstURL !in env.stat then [Failure(StatFailed, [firstURL])]
    else if secondURL !in env.stat then [Failure(StatFailed, [secondURL])]
    else
      var first, second := env.stat[firstURL], env.stat[secondURL];
      if first.content.kind == Regular then
        if second.content.kind == Dir then
          match env.join(secondURL, firstURL)
          case None => [Failure(JoinFailed, [secondURL, firstURL])]
          case Some(newSecondURL) => ObjectsDiff(env, firstURL, newSecondURL)
        else if second.content.kind != Regular then [Difference(firstURL, secondURL, TypeDiff)]
        else ObjectsDiff(env, firstURL, secondURL)
      else if first.content.kind == Dir then
        if second.content.kind != Dir then [Difference(firstURL, secondURL, TypeDiff)]
        else DirsDiff(env, first.client, second.client, recursive, order)
      else []
  }

  /**
   * The first stat fails: exactly one error record, traced with the first
   * URL, whatever the second URL is; it is never examined.
   */
  lemma FirstStatFails(env: Env, firstURL: string, secondURL: string, otherURL: string, recursive: bool, order: seq<string>)
    requires firstURL !in env.stat
    ensures RoutineDiff(env, firstURL, secondURL, recursive, order) == [Failure(StatFailed, [firstURL])]
    ensures RoutineDiff(env, firstURL, secondURL, recursive, order) == RoutineDiff(env, firstURL, otherURL, recursive, order)
  {
  }

  /** The second stat fails: exactly one error record, traced with the second URL. */
  lemma SecondStatFails(env: Env, firstURL: string, secondURL: string, recursive: bool, order: seq<string>)
    requires firstURL in env.stat && secondURL !in env.stat
    ensures RoutineDiff(env, firstURL, secondURL, recursive, order) == [Failure(StatFailed, [secondURL])]
  {
  }

  /** A directory against anything but a directory: exactly one "type" record with the two input URLs. */
  lemma DirAgainstNonDir(env: Env, firstURL: string, secondURL: string, recursive: bool, order: seq<string>)
    requires firstURL in env.stat && secondURL in env.stat
    requires env.stat[firstURL].content.kind == Dir && env.stat[secondURL].content.kind != Dir
    ensures RoutineDiff(env, firstURL, secondURL, recursive, order) == [Difference(firstURL, secondURL, TypeDiff)]
  {
  }

  /** A regular file against an entry that is neither regular nor a directory: one "type" record. */
  lemma RegularAgainstOther(env: Env, firstURL: string, secondURL: string, recursive: bool, order: seq<string>)
    requires firstURL in env.stat && secondURL in env.stat
    requires env.stat[firstURL].content.kind == Regular && env.stat[secondURL].content.kind == Other
    ensures RoutineDiff(env, firstURL, secondURL, recursive, order) == [Difference(firstURL, secondURL, TypeDiff)]
  {
  }

  /** A first entry that is neither regular nor a directory: nothing is sent. */
  lemma FirstOtherSilent(env: Env, firstURL: string, secondURL: string, recursive: bool, order: seq<string>)
    requires firstURL in env.stat && secondURL in env.stat
    requires env.stat[firstURL].content.kind == Other
    ensures RoutineDiff(env, firstURL, secondURL, recursive, order) == []
  {
  }

  /**
   * A regular file against a directory: the whole first URL is joined onto
   * the second, and the file is compared as an object with that target.
   */
  lemma FileIntoDir(env: Env, firstURL: string, secondURL: string, recursive: bool, order: seq<string>)
    requires firstURL in env.stat && secondURL in env.stat
    requires env.stat[firstURL].content.kind == Regular && env.stat[secondURL].content.kind == Dir
    ensures RoutineDiff(env, firstURL, secondURL, recursive, order)
         == match env.join(secondURL, firstURL)
            case None => [Failure(JoinFailed, [secondURL, firstURL])]
            case Some(target) => ObjectsDiff(env, firstURL, target)
  {
  }

  /**
   * Two regular files of the same size whose stats report different names:
   * no record. Of different sizes: exactly one "size" record carrying the
   * two input URLs.
   */
  lemma RegularFiles(env: Env, firstURL: string, secondURL: string, recursive: bool, order: seq<string>)
    requires firstURL in env.stat && secondURL in env.stat
    requires env.stat[firstURL].content.kind == Regular && env.stat[secondURL].content.kind == Regular
    requires env.stat[firstURL].content.name != env.stat[secondURL].content.name
    ensures var r := RoutineDiff(env, firstURL, secondURL, recursive, order);
            if env.stat[firstURL].content.size == env.stat[secondURL].content.size then r == []
            else r == [Difference(firstURL, secondURL, SizeDiff)]
  {
    RegularPair(env, firstURL, secondURL);
  }

  /** doDiffDirs (diff.go:364-370). */
  method DoDiffDirs(env: Env, firstClnt: Client, secondClnt: Client, recursive: bool, ch: Channel)
    returns (ghost order: seq<string>)
    requires !ch.closed
    modifies ch
    ensures !ch.closed
    ensures recursive ==> Enumerates(order, IndexOf(firstClnt.fullListing).Keys)
    ensures ch.sent == old(ch.sent) + DirsDiff(env, firstClnt, secondClnt, recursive, order)
  {
    order := [];
    if recursive {
      order := DoDiffRecursive(firstClnt, secondClnt, ch);
      return;
    }
    DoDiff(env, firstClnt, secondClnt, ch);
  }

  /**
   * doDiffInRoutine (diff.go:91-142). The channel is closed on every path,
   * exactly once (a second close would fail Close's precondition).
   */
  method DoDiffInRoutine(env: Env, firstURL: string, secondURL: string, recursive: bool, ch: Channel)
    returns (ghost order: seq<string>)
    requires !ch.closed
    modifies ch
    ensures ch.closed
    ensures recursive && BothDirs(env, firstURL, secondURL) ==>
              Enumerates(order, IndexOf(env.stat[firstURL].client.fullListing).Keys)
    ensures ch.sent == old(ch.sent) + RoutineDiff(env, firstURL, secondURL, recursive, order)
  {
    order := [];
    if firstURL !in env.stat {
      ch.Send(Failure(StatFailed, [firstURL]));
      ch.Close();
      return;
    }
    var first := env.stat[firstURL];
    if secondURL !in env.stat {
      ch.Send(Failure(StatFailed, [secondURL]));
      ch.Close();
      return;
    }
    var second := env.stat[secondURL];
    if first.content.kind == Regular {
      if second.content.kind == Dir {
        var newSecondURL := env.join(secondURL, firstURL);
        if newSecondURL.None? {
          ch.Send(Failure(JoinFailed, [secondURL, firstURL]));
          ch.Close();
          return;
        }
        DoDiffObjects(env, firstURL, newSecondURL.value, ch);
      } else if second.content.kind != Regular {
        ch.Send(Difference(firstURL, secondURL, TypeDiff));
        ch.Close();
        return;
      } else {
        DoDiffObjects(env, firstURL, secondURL, ch);
      }
    }
    if first.content.kind == Dir {
      if second.content.kind != Dir {
        ch.Send(Difference(firstURL, secondURL, TypeDiff));
        ch.Close();
        return;
      }
      order := DoDiffDirs(env, first.client, second.client, recursive, ch);
    }
    ch.Close();
  }
}
