/**
 * dodiff: the single-level directory differ. It lists only the immediate
 * children of the first side and stats the joined path on both sides.
 */
module FlatDiff {
  import opened Storage
  import opened Messages
  import opened ObjectDiff

  /**
   * The records sent for one listed child, once its name has been joined
   * onto both client URLs giving `newFirstURL` and `newSecondURL`.
   */
  function EntryDiff(env: Env, newFirstURL: string, newSecondURL: string): (r: seq<DiffMessage>)
    ensures |r| <= 1
    ensures forall i :: 0 <= i < |r| ==>
              r[i].Difference? && r[i].firstURL == newFirstURL && r[i].secondURL == newSecondURL
  {
    if newFirstURL in env.stat && newSecondURL !in env.stat then
      [Difference(newFirstURL, newSecondURL, OnlyInFirst)]
    else if newFirstURL in env.stat && newSecondURL in env.stat then
      var first := env.stat[newFirstURL].content;
      var second := env.stat[newSecondURL].content;
      if first.kind == Dir then
        if second.kind != Dir then [Difference(newFirstURL, newSecondURL, TypeDiff)] else []
      else if first.kind == Regular then
        if second.kind != Regular then [Difference(newFirstURL, newSecondURL, TypeDiff)]
        else ObjectsDiff(env, newFirstURL, newSecondURL)
      else []
    else []
  }

  /** An error record that ends the flat walk: a listing error or a failed join. */
  predicate IsAbortRecord(m: DiffMessage) {
    m.Failure? && (m.cause == ListFailed || m.cause == JoinFailed)
  }

  /** Whether the listing step `item` stops the walk instead of being compared. */
  predicate Aborts(env: Env, item: ListItem, firstURL: string, secondURL: string) {
    || item.ListError?
    || env.join(firstURL, item.content.name).None?
    || env.join(secondURL, item.content.name).None?
  }

  /** The one record sent when `item` stops the walk. */
  function AbortRecord(env: Env, item: ListItem, firstURL: string, secondURL: string): (m: DiffMessage)
    requires Aborts(env, item, firstURL, secondURL)
    ensures IsAbortRecord(m)
    ensures m.cause == ListFailed <==> item.ListError?
    ensures m.trace == if item.ListError? || env.join(firstURL, item.content.name).None? then [firstURL] else [secondURL]
  {
    if item.ListError? then Failure(ListFailed, [firstURL])
    else if env.join(firstURL, item.content.name).None? then Failure(JoinFailed, [firstURL])
    else Failure(JoinFailed, [secondURL])
  }

  /** The records of a listing step that does not stop the walk: its child's, at the joined URLs. */
  function ItemDiff(env: Env, item: ListItem, firstURL: string, secondURL: string): (r: seq<DiffMessage>)
    requires !Aborts(env, item, firstURL, secondURL)
    ensures |r| <= 1
    ensures forall i :: 0 <= i < |r| ==>
              && r[i].Difference?
              && Some(r[i].firstURL) == env.join(firstURL, item.content.name)
              && Some(r[i].secondURL) == env.join(secondURL, item.content.name)
  {
    EntryDiff(env, env.join(firstURL, item.content.name).value, env.join(secondURL, item.content.name).value)
  }

  /**
   * The records dodiff sends for the listing steps `items` of the first
   * client, whose URL is `firstURL`, against the client at `secondURL`.
   * An error record that stops the walk is always the last record.
   */
  function FlatFrom(env: Env, items: seq<ListItem>, firstURL: string, secondURL: string): (r: seq<DiffMessage>)
    ensures forall i :: 0 <= i < |r| && IsAbortRecord(r[i]) ==> i == |r| - 1
    ensures forall i :: 0 <= i < |r| && r[i].Failure? ==> IsAbortRecord(r[i])
    decreases |items|
  {
    if items == [] then []
    else if Aborts(env, items[0], firstURL, secondURL) then [AbortRecord(env, items[0], firstURL, secondURL)]
    else ItemDiff(env, items[0], firstURL, secondURL) + FlatFrom(env, items[1..], firstURL, secondURL)
  }

  /** The records of the flat differ for two directory clients. */
  function FlatDiffOf(env: Env, firstClnt: Client, secondClnt: Client): seq<DiffMessage> {
    FlatFrom(env, firstClnt.flatListing, firstClnt.url, secondClnt.url)
  }

  /** A child whose first-side stat succeeds and second-side stat fails is "only-in-first" with the joined URLs. */
  lemma EntryOnlyInFirst(env: Env, newFirstURL: string, newSecondURL: string)
    requires newFirstURL in env.stat && newSecondURL !in env.stat
    ensures EntryDiff(env, newFirstURL, newSecondURL) == [Difference(newFirstURL, newSecondURL, OnlyInFirst)]
  {
  }

  /** A child whose first-side stat fails yields nothing. */
  lemma EntryFirstStatFails(env: Env, newFirstURL: string, newSecondURL: string)
    requires newFirstURL !in env.stat
    ensures EntryDiff(env, newFirstURL, newSecondURL) == []
  {
  }

  /** A child that is a directory on both sides yields nothing. */
  lemma EntryBothDirs(env: Env, newFirstURL: string, newSecondURL: string)
    requires newFirstURL in env.stat && newSecondURL in env.stat
    requires env.stat[newFirstURL].content.kind == Dir && env.stat[newSecondURL].content.kind == Dir
    ensures EntryDiff(env, newFirstURL, newSecondURL) == []
  {
  }

  /**
   * A listing step that stops the walk: the records are those of the steps
   * before it, then its one error record; nothing after it is looked at.
   */
  lemma {:induction false} FlatStopsAt(env: Env, items: seq<ListItem>, firstURL: string, secondURL: string, j: nat)
    requires j < |items|
    requires forall k :: 0 <= k < j ==> !Aborts(env, items[k], firstURL, secondURL)
    requires Aborts(env, items[j], firstURL, secondURL)
    ensures FlatFrom(env, items, firstURL, secondURL)
         == FlatFrom(env, items[..j], firstURL, secondURL) + [AbortRecord(env, items[j], firstURL, secondURL)]
  {
    if j > 0 {
      FlatStopsAt(env, items[1..], firstURL, secondURL, j - 1);
      assert items[1..][..j - 1] == items[..j][1..];
    }
  }

  /** Steps that do not stop the walk contribute their records and the walk continues. */
  lemma {:induction false} FlatAppend(env: Env, done: seq<ListItem>, rest: seq<ListItem>, firstURL: string, secondURL: string)
    requires forall k :: 0 <= k < |done| ==> !Aborts(env, done[k], firstURL, secondURL)
    ensures FlatFrom(env, done + rest, firstURL, secondURL)
         == FlatFrom(env, done, firstURL, secondURL) + FlatFrom(env, rest, firstURL, secondURL)
    decreases |done|
  {
    if done != [] {
      var all := done + rest;
      assert all[0] == done[0] && all[1..] == done[1..] + rest;
      FlatAppend(env, done[1..], rest, firstURL, secondURL);
    } else {
      assert done + rest == rest;
    }
  }

  /**
   * Every difference record carries the two URLs obtained by joining the
   * name of some listed child onto the two client URLs.
   */
  lemma {:induction false} FlatRecordsJoined(env: Env, items: seq<ListItem>, firstURL: string, secondURL: string, m: DiffMessage)
    requires m in FlatFrom(env, items, firstURL, secondURL) && m.Difference?
    ensures exists j :: 0 <= j < |items| && items[j].Entry? &&
              env.join(firstURL, items[j].content.name) == Some(m.firstURL) &&
              env.join(secondURL, items[j].content.name) == Some(m.secondURL)
    decreases |items|
  {
    var r := FlatFrom(env, items, firstURL, secondURL);
    if !Aborts(env, items[0], firstURL, secondURL) {
      var head := ItemDiff(env, items[0], firstURL, secondURL);
      if m in head {
        var i :| 0 <= i < |head| && head[i] == m;
        assert items[0].Entry?;
      } else {
        FlatRecordsJoined(env, items[1..], firstURL, secondURL, m);
        var j :| 0 <= j < |items[1..]| && items[1..][j].Entry? &&
                 env.join(firstURL, items[1..][j].content.name) == Some(m.firstURL) &&
                 env.join(secondURL, items[1..][j].content.name) == Some(m.secondURL);
        assert items[j + 1] == items[1..][j];
      }
    }
  }

  /** The comparison of one listed child at its joined URLs (diff.go:211-243), sending on `ch`. */
  method DoDiffEntry(env: Env, newFirstURL: string, newSecondURL: string, ch: Channel)
    requires !ch.closed
    modifies ch
    ensures !ch.closed
    ensures ch.sent == old(ch.sent) + EntryDiff(env, newFirstURL, newSecondURL)
  {
    var firstOk, secondOk := newFirstURL in env.stat, newSecondURL in env.stat;
    if firstOk && !secondOk {
      ch.Send(Difference(newFirstURL, newSecondURL, OnlyInFirst));
    } else if firstOk && secondOk {
      var firstKind, secondKind := env.stat[newFirstURL].content.kind, env.stat[newSecondURL].content.kind;
      if firstKind == Dir {
        if secondKind != Dir {
          ch.Send(Difference(newFirstURL, newSecondURL, TypeDiff));
        }
      } else if firstKind == Regular {
        if secondKind != Regular {
          ch.Send(Difference(newFirstURL, newSecondURL, TypeDiff));
        } else {
          DoDiffObjects(env, newFirstURL, newSecondURL, ch);
        }
      }
    }
  }

  /** dodiff (diff.go:189-245), sending on `ch`. */
  method DoDiff(env: Env, firstClnt: Client, secondClnt: Client, ch: Channel)
    requires !ch.closed
    modifies ch
    ensures !ch.closed
    ensures ch.sent == old(ch.sent) + FlatDiffOf(env, firstClnt, secondClnt)
  {
    var items := firstClnt.flatListing;
    var firstURL, secondURL := firstClnt.url, secondClnt.url;
    var i := 0;
    ghost var total := old(ch.sent) + FlatFrom(env, items, firstURL, secondURL);
    assert items[0..] == items;
    while i < |items|
      invariant 0 <= i <= |items|
      invariant !ch.closed
      invariant total == ch.sent + FlatFrom(env, items[i..], firstURL, secondURL)
    {
      var item := items[i];
      assert items[i..][0] == item && items[i..][1..] == items[i + 1..];
      if item.ListError? {
        ch.Send(Failure(ListFailed, [firstURL]));
        return;
      }
      var newFirstURL := env.join(firstURL, item.content.name);
      if newFirstURL.None? {
        ch.Send(Failure(JoinFailed, [firstURL]));
        return;
      }
      var newSecondURL := env.join(secondURL, item.content.name);
      if newSecondURL.None? {
        ch.Send(Failure(JoinFailed, [secondURL]));
        return;
      }
      ghost var before := ch.sent;
      DoDiffEntry(env, newFirstURL.value, newSecondURL.value, ch);
      assert ch.sent == before + ItemDiff(env, item, firstURL, secondURL);
      i := i + 1;
    }
  }
}
