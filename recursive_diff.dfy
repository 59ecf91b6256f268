/**
 * dodiffRecursive: list both sides in full into two indices, then walk
 * the keys of the first index and compare each against the second.
 * The tries become maps with exact-key lookup; the two listing goroutines
 * run one after the other, first side first.
 */
module RecursiveDiff {
  import opened Storage
  import opened Messages

  /** urlAttr: what the index keeps of an entry. */
  datatype Attr = Attr(size: int64, kind: Kind)

  function AttrOf(c: Content): Attr {
    Attr(c.size, c.kind)
  }

  function Lookup(index: map<string, Attr>, key: string): Option<Attr> {
    if key in index then Some(index[key]) else None
  }

  /** Trie insertion: a key already present keeps its item. */
  function TrieInsert(index: map<string, Attr>, key: string, a: Attr): (r: map<string, Attr>)
    ensures r.Keys == index.Keys + {key}
    ensures key in index ==> r == index
    ensures key !in index ==> r == index[key := a]
  {
    if key in index then index else index[key := a]
  }

  // ---------------------------------------------------------------------
  // Building an index from a listing (diff.go:257-282)
  // ---------------------------------------------------------------------

  /** The index after inserting the entries of `items`, up to the first listing error, into `index`. */
  function IndexFrom(index: map<string, Attr>, items: seq<ListItem>): (r: map<string, Attr>)
    ensures index.Keys <= r.Keys
    ensures forall k :: k in index ==> r[k] == index[k]
    decreases |items|
  {
    if items == [] || items[0].ListError? then index
    else IndexFrom(TrieInsert(index, items[0].content.name, AttrOf(items[0].content)), items[1..])
  }

  /** The index one listing goroutine builds. */
  function IndexOf(items: seq<ListItem>): map<string, Attr> {
    IndexFrom(map[], items)
  }

  /** The entries a listing yields before its first error. */
  function Indexed(items: seq<ListItem>): seq<Content>
    decreases |items|
  {
    if items == [] || items[0].ListError? then []
    else [items[0].content] + Indexed(items[1..])
  }

  /** The attributes of the first entry of `cs` named `key`, if any. */
  function FirstAttr(cs: seq<Content>, key: string): Option<Attr>
    decreases |cs|
  {
    if cs == [] then None
    else if cs[0].name == key then Some(AttrOf(cs[0]))
    else FirstAttr(cs[1..], key)
  }

  /** The error records one listing goroutine sends: one at its first listing error, if any. */
  function ListingErrors(items: seq<ListItem>, url: string): (r: seq<DiffMessage>)
    ensures |r| <= 1
    ensures forall i :: 0 <= i < |r| ==> r[i] == Failure(ListFailed, [url])
    decreases |items|
  {
    if items == [] then []
    else if items[0].ListError? then [Failure(ListFailed, [url])]
    else ListingErrors(items[1..], url)
  }

  lemma {:induction false} IndexFromLookup(index: map<string, Attr>, items: seq<ListItem>, key: string)
    ensures Lookup(IndexFrom(index, items), key)
         == if key in index then Some(index[key]) else FirstAttr(Indexed(items), key)
    decreases |items|
  {
    if items != [] && items[0].Entry? {
      var c := items[0].content;
      var next := TrieInsert(index, c.name, AttrOf(c));
      IndexFromLookup(next, items[1..], key);
      var cs := Indexed(items);
      assert cs[0] == c && cs[1..] == Indexed(items[1..]);
    }
  }

  /**
   * The index maps each name to the attributes of the first entry listed
   * under it before the first listing error, and holds no other key.
   */
  lemma IndexOfLookup(items: seq<ListItem>, key: string)
    ensures Lookup(IndexOf(items), key) == FirstAttr(Indexed(items), key)
  {
    IndexFromLookup(map[], items, key);
  }

  /**
   * A listing that fails at step `j` contributes exactly the entries before
   * `j`, in order, and exactly one error record; a listing that never
   * fails contributes all its entries and no error record.
   */
  lemma {:induction false} ListingStopsAtError(items: seq<ListItem>, url: string, j: nat)
    requires j <= |items|
    requires forall k :: 0 <= k < j ==> items[k].Entry?
    requires j < |items| ==> items[j].ListError?
    ensures |Indexed(items)| == j
    ensures forall k :: 0 <= k < j ==> Indexed(items)[k] == items[k].content
    ensures ListingErrors(items, url) == if j < |items| then [Failure(ListFailed, [url])] else []
    decreases j
  {
    if j > 0 {
      ListingStopsAtError(items[1..], url, j - 1);
      var cs := Indexed(items);
      assert cs == [items[0].content] + Indexed(items[1..]);
      forall k | 0 <= k < j ensures cs[k] == items[k].content {
        if k > 0 { assert cs[k] == Indexed(items[1..])[k - 1]; }
      }
    }
  }

  // ---------------------------------------------------------------------
  // Rebuilding URLs (diff.go:316-319)
  // ---------------------------------------------------------------------

  /** strings.LastIndex for a one-character separator: -1 when `c` does not occur. */
  function LastIndex(s: string, c: char): (i: int)
    ensures -1 <= i < |s|
    ensures 0 <= i ==> s[i] == c
    ensures forall j :: i < j < |s| ==> s[j] != c
    decreases |s|
  {
    if s == [] then -1
    else if s[|s| - 1] == c then |s| - 1
    else LastIndex(s[..|s| - 1], c)
  }

  /**
   * The URL cut just after its last separator, empty when it has none:
   * a prefix of `url` that is empty or ends with `sep`, and after which
   * `url` holds no `sep`.
   */
  function Delimited(url: string, sep: char): (b: string)
    ensures b <= url
    ensures b == [] || b[|b| - 1] == sep
    ensures forall j :: |b| <= j < |url| ==> url[j] != sep
  {
    url[..LastIndex(url, sep) + 1]
  }

  /** The three properties of Delimited determine it: no other prefix has them. */
  lemma DelimitedUnique(url: string, sep: char, p: string)
    requires p <= url
    requires p == [] || p[|p| - 1] == sep
    requires forall j :: |p| <= j < |url| ==> url[j] != sep
    ensures p == Delimited(url, sep)
  {
    var b := Delimited(url, sep);
    if |p| < |b| {
      assert false;
    } else if |b| < |p| {
      assert false;
    }
    assert p == url[..|p|] && b == url[..|b|];
  }

  lemma BaseKeyInjective(base: string, k1: string, k2: string)
    requires base + k1 == base + k2
    ensures k1 == k2
  {
    assert k1 == (base + k1)[|base|..];
    assert k2 == (base + k2)[|base|..];
  }

  // ---------------------------------------------------------------------
  // Comparing one key, and walking the first index (diff.go:315-360)
  // ---------------------------------------------------------------------

  /**
   * The record sent for `key` of the first index, if any. Its URLs are the
   * two bases followed by the key. A key missing from the second index is
   * "only-in-first"; otherwise the type checks come first, and the size
   * check applies to every remaining pair: two regular files, two
   * directories, or a first entry of another kind against any second entry.
   */
  function CompareKey(key: string, first: map<string, Attr>, second: map<string, Attr>,
                      firstBase: string, secondBase: string): (r: Option<DiffMessage>)
    requires key in first
    ensures r.Some? ==> (r.value.Difference? &&
              r.value.firstURL == firstBase + key && r.value.secondURL == secondBase + key)
    ensures key !in second <==> r.Some? && r.value.diff == OnlyInFirst
  {
    var firstURL, secondURL := firstBase + key, secondBase + key;
    if key !in second then Some(Difference(firstURL, secondURL, OnlyInFirst))
    else
      var a1, a2 := first[key], second[key];
      if a1.kind == Regular && a2.kind != Regular then Some(Difference(firstURL, secondURL, TypeDiff))
      else if a1.kind == Dir && a2.kind != Dir then Some(Difference(firstURL, secondURL, TypeDiff))
      else if a1.size != a2.size then Some(Difference(firstURL, secondURL, SizeDiff))
      else None
  }

  /** Type mismatches are reported before, and instead of, a size mismatch. */
  lemma TypeBeforeSize(key: string, first: map<string, Attr>, second: map<string, Attr>,
                       firstBase: string, secondBase: string)
    requires key in first && key in second
    requires (first[key].kind == Regular && second[key].kind != Regular) ||
             (first[key].kind == Dir && second[key].kind != Dir)
    ensures CompareKey(key, first, second, firstBase, secondBase)
         == Some(Difference(firstBase + key, secondBase + key, TypeDiff))
  {
  }

  /**
   * Every other pair present on both sides (two regular files, two
   * directories, or a first entry of another kind against any second
   * entry) is compared by size alone.
   */
  lemma SizeOtherwise(key: string, first: map<string, Attr>, second: map<string, Attr>,
                      firstBase: string, secondBase: string)
    requires key in first && key in second
    requires !(first[key].kind == Regular && second[key].kind != Regular)
    requires !(first[key].kind == Dir && second[key].kind != Dir)
    ensures CompareKey(key, first, second, firstBase, secondBase)
         == if first[key].size != second[key].size
            then Some(Difference(firstBase + key, secondBase + key, SizeDiff))
            else None
  {
  }

  /** The records sent for one visited key: none for a key outside the first index. */
  function Step(key: string, first: map<string, Attr>, second: map<string, Attr>,
                firstBase: string, secondBase: string): (r: seq<DiffMessage>)
    ensures |r| <= 1
    ensures key !in first ==> r == []
    ensures forall i :: 0 <= i < |r| ==>
              r[i].Difference? && r[i].firstURL == firstBase + key && r[i].secondURL == secondBase + key
    ensures key in first && key !in second ==> r == [Difference(firstBase + key, secondBase + key, OnlyInFirst)]
  {
    if key !in first then []
    else match CompareKey(key, first, second, firstBase, secondBase)
      case Some(m) => [m]
      case None => []
  }

  /**
   * The records of the compare walk when the keys are visited in `order`.
   * A key that is not in the first index contributes nothing (a visit of
   * the trie only yields its own keys).
   */
  function Walk(order: seq<string>, first: map<string, Attr>, second: map<string, Attr>,
                firstBase: string, secondBase: string): (r: seq<DiffMessage>)
    ensures |r| <= |order|
    ensures forall i :: 0 <= i < |r| ==> r[i].Difference?
    decreases |order|
  {
    if order == [] then []
    else Walk(order[..|order| - 1], first, second, firstBase, secondBase)
         + Step(order[|order| - 1], first, second, firstBase, secondBase)
  }

  predicate Distinct<T(==)>(s: seq<T>) {
    forall i, j :: 0 <= i < j < |s| ==> s[i] != s[j]
  }

  /** `order` visits every key of `keys` exactly once. */
  predicate Enumerates(order: seq<string>, keys: set<string>) {
    && Distinct(order)
    && (forall k :: k in order ==> k in keys)
    && (forall k :: k in keys ==> k in order)
  }

  /** A record is in the walk exactly when some visited key of the first index yields it. */
  lemma {:induction false} WalkMembers(order: seq<string>, first: map<string, Attr>, second: map<string, Attr>,
                                       firstBase: string, secondBase: string, m: DiffMessage)
    ensures m in Walk(order, first, second, firstBase, secondBase) <==>
            exists k :: k in order && k in first && CompareKey(k, first, second, firstBase, secondBase) == Some(m)
    decreases |order|
  {
    if order != [] {
      var init, last := order[..|order| - 1], order[|order| - 1];
      WalkMembers(init, first, second, firstBase, secondBase, m);
      assert order == init + [last];
      if m in Step(last, first, second, firstBase, secondBase) {
        assert last in order;
      }
      if exists k :: k in order && k in first && CompareKey(k, first, second, firstBase, secondBase) == Some(m) {
        var k :| k in order && k in first && CompareKey(k, first, second, firstBase, secondBase) == Some(m);
        if k != last {
          assert k in init;
        }
      }
    }
  }

  /** Every record carries the two bases followed by a key of the first index. */
  lemma WalkRecordKey(order: seq<string>, first: map<string, Attr>, second: map<string, Attr>,
                      firstBase: string, secondBase: string, m: DiffMessage)
    requires m in Walk(order, first, second, firstBase, secondBase)
    ensures exists k :: k in first && m == Difference(firstBase + k, secondBase + k, m.diff)
  {
    WalkMembers(order, first, second, firstBase, secondBase, m);
  }

  /** No two difference records of `r` share a first URL. */
  predicate OnePerKey(r: seq<DiffMessage>) {
    forall i, j :: 0 <= i < j < |r| && r[i].Difference? && r[j].Difference? ==> r[i].firstURL != r[j].firstURL
  }

  /** When no key is visited twice, no two records share a first URL: at most one record per key. */
  lemma {:induction false} WalkOnePerKey(order: seq<string>, first: map<string, Attr>, second: map<string, Attr>,
                                         firstBase: string, secondBase: string)
    requires Distinct(order)
    ensures OnePerKey(Walk(order, first, second, firstBase, secondBase))
    decreases |order|
  {
    if order != [] {
      var init, last := order[..|order| - 1], order[|order| - 1];
      WalkOnePerKey(init, first, second, firstBase, secondBase);
      var w := Walk(init, first, second, firstBase, secondBase);
      var s := Step(last, first, second, firstBase, secondBase);
      var r := w + s;
      forall i, j | 0 <= i < j < |r| ensures r[i].firstURL != r[j].firstURL {
        if j < |w| {
          assert r[i] == w[i] && r[j] == w[j];
        } else {
          assert r[i] == w[i] && r[j] == s[j - |w|];
          assert last in first;
          assert r[j].firstURL == firstBase + last;
          assert w[i] in w;
          WalkMembers(init, first, second, firstBase, secondBase, w[i]);
          var k :| k in init && k in first && CompareKey(k, first, second, firstBase, secondBase) == Some(w[i]);
          var n :| 0 <= n < |init| && init[n] == k;
          assert order[n] == k;
          if r[i].firstURL == r[j].firstURL {
            BaseKeyInjective(firstBase, k, last);
          }
        }
      }
    }
  }

  /** A key of the first index missing from the second yields "only-in-first", and no other key does. */
  lemma WalkOnlyInFirst(order: seq<string>, first: map<string, Attr>, second: map<string, Attr>,
                        firstBase: string, secondBase: string, key: string)
    requires Enumerates(order, first.Keys)
    ensures Difference(firstBase + key, secondBase + key, OnlyInFirst) in Walk(order, first, second, firstBase, secondBase)
        <==> key in first && key !in second
  {
    var m := Difference(firstBase + key, secondBase + key, OnlyInFirst);
    WalkMembers(order, first, second, firstBase, secondBase, m);
    if m in Walk(order, first, second, firstBase, secondBase) {
      var k :| k in order && k in first && CompareKey(k, first, second, firstBase, secondBase) == Some(m);
      BaseKeyInjective(firstBase, k, key);
    }
  }

  /** A key only in the second index yields no record. */
  lemma WalkIgnoresSecondOnly(order: seq<string>, first: map<string, Attr>, second: map<string, Attr>,
                              firstBase: string, secondBase: string, key: string)
    requires key !in first
    ensures forall m :: m in Walk(order, first, second, firstBase, secondBase) ==> m.firstURL != firstBase + key
  {
    forall m | m in Walk(order, first, second, firstBase, secondBase) ensures m.firstURL != firstBase + key {
      WalkMembers(order, first, second, firstBase, secondBase, m);
      var k :| k in order && k in first && CompareKey(k, first, second, firstBase, secondBase) == Some(m);
      if m.firstURL == firstBase + key {
        BaseKeyInjective(firstBase, k, key);
      }
    }
  }

  lemma {:induction false} DistinctCount<T>(s: seq<T>, x: T)
    requires Distinct(s)
    ensures multiset(s)[x] == if x in s then 1 else 0
    decreases |s|
  {
    if s != [] {
      var init, last := s[..|s| - 1], s[|s| - 1];
      assert s == init + [last];
      DistinctCount(init, x);
      assert last !in init;
    }
  }

  lemma {:induction false} EnumerationLength(order: seq<string>, keys: set<string>)
    requires Enumerates(order, keys)
    ensures |order| == |keys|
    decreases |order|
  {
    if order != [] {
      var init, last := order[..|order| - 1], order[|order| - 1];
      assert order == init + [last];
      assert last !in init;
      assert forall k :: k in init <==> k in keys - {last};
      EnumerationLength(init, keys - {last});
    } else {
      assert forall k :: k !in keys;
      assert keys == {};
    }
  }

  /** The walk sends at most one record per key of the first index. */
  lemma WalkBound(order: seq<string>, first: map<string, Attr>, second: map<string, Attr>,
                  firstBase: string, secondBase: string)
    requires Enumerates(order, first.Keys)
    ensures |Walk(order, first, second, firstBase, secondBase)| <= |first|
  {
    EnumerationLength(order, first.Keys);
  }

  /**
   * The visit order of the trie does not matter: any two enumerations of
   * the first index give the same multiset of records.
   */
  lemma WalkOrderIrrelevant(o1: seq<string>, o2: seq<string>, first: map<string, Attr>, second: map<string, Attr>,
                            firstBase: string, secondBase: string)
    requires Enumerates(o1, first.Keys) && Enumerates(o2, first.Keys)
    ensures multiset(Walk(o1, first, second, firstBase, secondBase))
         == multiset(Walk(o2, first, second, firstBase, secondBase))
  {
    var w1 := Walk(o1, first, second, firstBase, secondBase);
    var w2 := Walk(o2, first, second, firstBase, secondBase);
    WalkOnePerKey(o1, first, second, firstBase, secondBase);
    WalkOnePerKey(o2, first, second, firstBase, secondBase);
    forall m ensures multiset(w1)[m] == multiset(w2)[m] {
      WalkMembers(o1, first, second, firstBase, secondBase, m);
      WalkMembers(o2, first, second, firstBase, secondBase, m);
      DistinctCount(w1, m);
      DistinctCount(w2, m);
    }
  }

  // ---------------------------------------------------------------------
  // The whole recursive differ
  // ---------------------------------------------------------------------

  /**
   * The records dodiffRecursive sends when the walk visits the first
   * index in `order`: the listing errors of each side, then the walk.
   */
  function RecursiveDiffOf(firstClnt: Client, secondClnt: Client, order: seq<string>): (r: seq<DiffMessage>)
    ensures |r| <= 2 + |order|
    ensures forall i :: 0 <= i < |r| && r[i].Failure? ==> r[i].cause == ListFailed
  {
    ListingErrors(firstClnt.fullListing, firstClnt.url)
    + ListingErrors(secondClnt.fullListing, secondClnt.url)
    + Walk(order, IndexOf(firstClnt.fullListing), IndexOf(secondClnt.fullListing),
           Delimited(firstClnt.url, firstClnt.separator), Delimited(secondClnt.url, secondClnt.separator))
  }

  /**
   * Each side's listing contributes at most one error record, traced with
   * that side's URL, and all of them come before every compare record.
   */
  lemma ListingErrorsFirst(firstClnt: Client, secondClnt: Client, order: seq<string>)
    ensures var r := RecursiveDiffOf(firstClnt, secondClnt, order);
            var n := |ListingErrors(firstClnt.fullListing, firstClnt.url)|
                   + |ListingErrors(secondClnt.fullListing, secondClnt.url)|;
            n <= 2 && n <= |r| &&
            (forall i :: 0 <= i < |r| ==> (r[i].Failure? <==> i < n)) &&
            (forall i :: 0 <= i < n ==> r[i] == Failure(ListFailed, [firstClnt.url]) ||
                                        r[i] == Failure(ListFailed, [secondClnt.url]))
  {
  }

  lemma IndexOfOne(c: Content)
    ensures IndexOf([Entry(c)]) == map[c.name := AttrOf(c)]
  {
    assert [Entry(c)][1..] == [];
    assert TrieInsert(map[], c.name, AttrOf(c)) == map[c.name := AttrOf(c)];
    assert IndexOf([Entry(c)]) == IndexFrom(map[c.name := AttrOf(c)], []);
  }

  lemma IndexOfTwo(c: Content, d: Content)
    requires c.name != d.name
    ensures IndexOf([Entry(c), Entry(d)]) == map[c.name := AttrOf(c), d.name := AttrOf(d)]
  {
    var l := [Entry(c), Entry(d)];
    assert l[1..] == [Entry(d)] && l[1..][1..] == [];
    assert IndexOf(l) == IndexFrom(map[c.name := AttrOf(c)], [Entry(d)]);
  }

  lemma {:induction false} SingleRecordWalk(order: seq<string>, canonical: seq<string>,
                                            first: map<string, Attr>, second: map<string, Attr>,
                                            firstBase: string, secondBase: string, m: DiffMessage)
    requires Enumerates(order, first.Keys) && Enumerates(canonical, first.Keys)
    requires Walk(canonical, first, second, firstBase, secondBase) == [m]
    ensures Walk(order, first, second, firstBase, secondBase) == [m]
  {
    WalkOrderIrrelevant(order, canonical, first, second, firstBase, secondBase);
    var w := Walk(order, first, second, firstBase, secondBase);
    SingletonMultiset(w, m);
  }

  lemma SingletonMultiset<T>(w: seq<T>, m: T)
    requires multiset(w) == multiset([m])
    ensures w == [m]
  {
    assert |w| == |multiset(w)| == 1;
    assert w == [w[0]];
    assert w[0] in multiset(w);
  }

  lemma ScenarioWalk(order: seq<string>, first: map<string, Attr>, second: map<string, Attr>,
                     firstBase: string, secondBase: string)
    requires first == map["a/x.txt" := Attr(10, Regular), "a/y.txt" := Attr(5, Regular)]
    requires second == map["a/x.txt" := Attr(10, Regular)]
    requires Enumerates(order, first.Keys)
    ensures Walk(order, first, second, firstBase, secondBase)
         == [Difference(firstBase + "a/y.txt", secondBase + "a/y.txt", OnlyInFirst)]
  {
    var x, y := "a/x.txt", "a/y.txt";
    var m := Difference(firstBase + y, secondBase + y, OnlyInFirst);
    var canonical := [x, y];
    assert x != y by { assert x[2] != y[2]; }
    var none: seq<string> := [];
    assert canonical[..1] == [x] && [x][..0] == none;
    assert Step(x, first, second, firstBase, secondBase) == [];
    assert Step(y, first, second, firstBase, secondBase) == [m];
    assert Walk(canonical, first, second, firstBase, secondBase) == [m];
    SingleRecordWalk(order, canonical, first, second, firstBase, secondBase, m);
  }

  /**
   * First side {a/x.txt (10 bytes), a/y.txt (5 bytes)}, second side
   * {a/x.txt (10 bytes)}: whatever the visit order, the only record is
   * "only-in-first" for a/y.txt.
   */
  lemma ScenarioMissingEntry(firstClnt: Client, secondClnt: Client, order: seq<string>)
    requires firstClnt.fullListing == [Entry(Content("a/x.txt", 10, Regular)), Entry(Content("a/y.txt", 5, Regular))]
    requires secondClnt.fullListing == [Entry(Content("a/x.txt", 10, Regular))]
    requires Enumerates(order, IndexOf(firstClnt.fullListing).Keys)
    ensures RecursiveDiffOf(firstClnt, secondClnt, order)
         == [Difference(Delimited(firstClnt.url, firstClnt.separator) + "a/y.txt",
                        Delimited(secondClnt.url, secondClnt.separator) + "a/y.txt", OnlyInFirst)]
  {
    assert "a/x.txt" != "a/y.txt" by { assert "a/x.txt"[2] != "a/y.txt"[2]; }
    IndexOfTwo(Content("a/x.txt", 10, Regular), Content("a/y.txt", 5, Regular));
    IndexOfOne(Content("a/x.txt", 10, Regular));
    ScenarioWalk(order, IndexOf(firstClnt.fullListing), IndexOf(secondClnt.fullListing),
                 Delimited(firstClnt.url, firstClnt.separator), Delimited(secondClnt.url, secondClnt.separator));
    ListingStopsAtError(firstClnt.fullListing, firstClnt.url, 2);
    ListingStopsAtError(secondClnt.fullListing, secondClnt.url, 1);
  }

  /** One listing goroutine (diff.go:258-269 and 271-282): index the entries until the first error. */
  method BuildIndex(listing: seq<ListItem>, url: string, ch: Channel) returns (index: map<string, Attr>)
    requires !ch.closed
    modifies ch
    ensures !ch.closed
    ensures index == IndexOf(listing)
    ensures ch.sent == old(ch.sent) + ListingErrors(listing, url)
  {
    index := map[];
    var i := 0;
    while i < |listing|
      invariant 0 <= i <= |listing|
      invariant !ch.closed && ch.sent == old(ch.sent)
      invariant IndexFrom(index, listing[i..]) == IndexOf(listing)
      invariant ListingErrors(listing[i..], url) == ListingErrors(listing, url)
    {
      assert listing[i..][1..] == listing[i + 1..];
      if listing[i].ListError? {
        ch.Send(Failure(ListFailed, [url]));
        return;
      }
      var content := listing[i].content;
      index := TrieInsert(index, content.name, Attr(content.size, content.kind));
      i := i + 1;
    }
  }

  lemma WalkSnoc(order: seq<string>, key: string, first: map<string, Attr>, second: map<string, Attr>,
                  firstBase: string, secondBase: string)
    ensures Walk(order + [key], first, second, firstBase, secondBase)
         == Walk(order, first, second, firstBase, secondBase) + Step(key, first, second, firstBase, secondBase)
  {
    var next := order + [key];
    assert next[..|order|] == order && next[|order|] == key;
  }

  lemma DistinctSnoc<T>(s: seq<T>, x: T)
    requires Distinct(s) && x !in s
    ensures Distinct(s + [x])
  {
  }

  /**
   * The compare walk of dodiffRecursive (diff.go:306-360): visit every key
   * of the first index once, in an order the trie chooses, returned as
   * `order`, and send the record CompareKey gives for it. The two bases
   * are the client URLs cut after their last separator (diff.go:316-317),
   * the same for every key.
   */
  method CompareWalk(firstIndex: map<string, Attr>, secondIndex: map<string, Attr>,
                     firstURLDelimited: string, secondURLDelimited: string, ch: Channel)
    returns (ghost order: seq<string>)
    requires !ch.closed
    modifies ch
    ensures !ch.closed
    ensures Enumerates(order, firstIndex.Keys)
    ensures ch.sent == old(ch.sent) + Walk(order, firstIndex, secondIndex, firstURLDelimited, secondURLDelimited)
  {
    var remaining := firstIndex.Keys;
    order := [];
    ghost var start, walked := ch.sent, [];
    while remaining != {}
      invariant remaining <= firstIndex.Keys
      invariant Distinct(order)
      invariant forall k :: k in order ==> k in firstIndex && k !in remaining
      invariant forall k :: k in firstIndex ==> k in order || k in remaining
      invariant walked == Walk(order, firstIndex, secondIndex, firstURLDelimited, secondURLDelimited)
      invariant !ch.closed && ch.sent == start + walked
      decreases remaining
    {
      var matchName :| matchName in remaining;
      ghost var step := Step(matchName, firstIndex, secondIndex, firstURLDelimited, secondURLDelimited);
      var record := CompareKey(matchName, firstIndex, secondIndex, firstURLDelimited, secondURLDelimited);
      if record.Some? {
        ch.Send(record.value);
      }
      assert ch.sent == start + walked + step;
      assert start + walked + step == start + (walked + step);
      WalkSnoc(order, matchName, firstIndex, secondIndex, firstURLDelimited, secondURLDelimited);
      DistinctSnoc(order, matchName);
      walked := walked + step;
      order := order + [matchName];
      remaining := remaining - {matchName};
    }
  }

  /** dodiffRecursive (diff.go:247-361), its walk order returned as `order`. */
  method DoDiffRecursive(firstClnt: Client, secondClnt: Client, ch: Channel) returns (ghost order: seq<string>)
    requires !ch.closed
    modifies ch
    ensures !ch.closed
    ensures Enumerates(order, IndexOf(firstClnt.fullListing).Keys)
    ensures ch.sent == old(ch.sent) + RecursiveDiffOf(firstClnt, secondClnt, order)
  {
    var firstIndex := BuildIndex(firstClnt.fullListing, firstClnt.url, ch);
    var secondIndex := BuildIndex(secondClnt.fullListing, secondClnt.url, ch);
    var firstURLDelimited := Delimited(firstClnt.url, firstClnt.separator);
    var secondURLDelimited := Delimited(secondClnt.url, secondClnt.separator);
    order := CompareWalk(firstIndex, secondIndex, firstURLDelimited, secondURLDelimited, ch);
  }
}
