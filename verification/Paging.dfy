/** Listing a repository over the API: `ReadDatabase` collects and sorts, `ListPage` and the
    list handler cut a page, and the client's `List` asks for pages until one is short. */
module Paging {
  import opened Options
  import opened FileTree
  import Description
  import Names
  import Numbers
  import Text

  // ---------- ReadDatabase ----------

  /** A tar entry of a database: what the scanner delivers of its content. */
  datatype Entry = Entry(name: string, lines: seq<string>, scanned: bool)

  /** A database file; `complete` says that reading the archive reached its end. */
  datatype Archive = NoFile | NotAnArchive | Archive(entries: seq<Entry>, complete: bool)

  predicate IsDescription(e: Entry) { Names.HasSuffix(e.name, "/desc") }

  /** The packages of the first `n` entries in archive order; `None` if one does not parse. */
  function Described(entries: seq<Entry>, n: nat): Option<seq<Package>>
    requires n <= |entries|
  {
    if n == 0 then Some([]) else
    var earlier, last := Described(entries, n - 1), entries[n - 1];
    if earlier.None? || !IsDescription(last) then earlier
    else match Description.Meaning(last.lines, last.scanned)
      case Ok(p) => Some(earlier.value + [p])
      case _ => None
  }

  function Contents(a: Archive): Option<seq<Package>> {
    match a
    case NoFile => Some([])
    case NotAnArchive => None
    case Archive(entries, complete) => if complete then Described(entries, |entries|) else None
  }

  lemma {:induction false} UndescribedStays(entries: seq<Entry>, n: nat)
    requires n <= |entries| && Described(entries, n).None?
    ensures Described(entries, |entries|).None?
    decreases |entries| - n
  {
    if n < |entries| {
      UndescribedStays(entries, n + 1);
    }
  }

  /** A database is read exactly if there is none, or it is a complete archive in which every
      entry whose name ends in `/desc` parses. */
  lemma ReadableExactly(a: Archive)
    ensures Contents(a).Some? <==>
            a.NoFile? || (a.Archive? && a.complete && forall e | e in a.entries && Names.HasSuffix(e.name, "/desc") ::
                            Description.Meaning(e.lines, e.scanned).Ok?)
    ensures a.NoFile? ==> Contents(a) == Some([])
  {
    if a.Archive? { DescribedExactly(a.entries, |a.entries|); }
    hide Described, Description.Meaning, Names.HasSuffix;
    assert a.Archive? ==> a.entries[..|a.entries|] == a.entries;
  }

  lemma {:induction false} DescribedExactly(entries: seq<Entry>, n: nat)
    requires n <= |entries|
    ensures Described(entries, n).Some? <==>
            forall e | e in entries[..n] && Names.HasSuffix(e.name, "/desc") ::
              Description.Meaning(e.lines, e.scanned).Ok?
  {
    if n > 0 {
      assert entries[..n] == entries[..n - 1] + [entries[n - 1]];
      hide Description.Meaning, Names.HasSuffix;
      DescribedExactly(entries, n - 1);
    }
  }

  function NameOf(p: Package): Text.Key { (p.name, "") }

  /** A list `ReadDatabase` may return: sorted by name, ties in any order. */
  ghost predicate IsListing(a: Archive, list: seq<Package>) {
    Contents(a).Some? && Text.Ordered(list, NameOf) && multiset(list) == multiset(Contents(a).value)
  }

  lemma NextEntry(entries: seq<Entry>, n: nat, parsed: Description.Parsed)
    requires n < |entries| && Described(entries, n).Some?
    requires parsed == Description.Meaning(entries[n].lines, entries[n].scanned)
    ensures var earlier, next := Described(entries, n).value, Described(entries, n + 1);
            if !IsDescription(entries[n]) then next == Some(earlier)
            else if parsed.Ok? then next == Some(earlier + [parsed.pkg])
            else Described(entries, |entries|).None?
  {
    if IsDescription(entries[n]) && !parsed.Ok? { UndescribedStays(entries, n + 1); }
  }

  /** The loop over the archive's entries. */
  method ReadEntries(entries: seq<Entry>) returns (r: Option<seq<Package>>)
    ensures r == Described(entries, |entries|)
  {
    var packages := [];
    assert Described(entries, 0) == Some([]);
    hide Described, Description.Meaning, IsDescription;
    for i := 0 to |entries|
      invariant Described(entries, i) == Some(packages)
    {
      NextEntry(entries, i, Description.Meaning(entries[i].lines, entries[i].scanned));
      if IsDescription(entries[i]) {
        var parsed := Description.ParseDescription(entries[i].lines, entries[i].scanned);
        if !parsed.Ok? {
          return None;
        }
        packages := packages + [parsed.pkg];
      }
    }
    r := Some(packages);
  }

  method ReadDatabase(a: Archive) returns (r: Option<seq<Package>>)
    ensures r.None? <==> Contents(a).None?
    ensures r.Some? ==> IsListing(a, r.value)
  {
    match a {
      case NoFile => return Some([]);
      case NotAnArchive => return None;
      case Archive(entries, complete) =>
        var packages := ReadEntries(entries);
        if packages.None? || !complete { return None; }
        var sorted := Text.SortBy(packages.value, NameOf);
        return Some(sorted);
    }
  }

  // ---------- ListPage and the list handler ----------

  const MAX_PAGE_SIZE := 100

  function Page(list: seq<Package>, offset: nat, limit: nat): seq<Package> {
    if offset >= |list| then []
    else if offset + limit > |list| then list[offset..] else list[offset..offset + limit]
  }

  /** A page holds, in order, the packages from `offset` on, at most `limit` of them. */
  lemma PageExactly(list: seq<Package>, offset: nat, limit: nat, k: nat)
    ensures k < |Page(list, offset, limit)| <==> k < limit && offset + k < |list|
    ensures k < |Page(list, offset, limit)| ==> Page(list, offset, limit)[k] == list[offset + k]
  {
  }

  method ListPage(a: Archive, offset: nat, limit: nat) returns (r: Option<seq<Package>>)
    ensures r.None? <==> Contents(a).None?
    ensures r.Some? ==> exists list :: IsListing(a, list) && r.value == Page(list, offset, limit)
  {
    var packages := ReadDatabase(a);
    if packages.None? { return None; }
    if offset >= |packages.value| { return Some([]); }
    var end := offset + limit;
    if end > |packages.value| { end := |packages.value|; }
    return Some(packages.value[offset..end]);
  }

  datatype Response = BadRequest(message: string) | Packages(page: seq<Package>)

  /** A query parameter: absent or empty leaves the default. */
  function Parameter(raw: string, default: int): Option<int> {
    if |raw| == 0 then Some(default) else Numbers.Atoi(raw)
  }

  method ListHandler(a: Archive, limit: string, cursor: string) returns (r: Response)
    ensures var l := if limit == "" then 100 else if Numbers.IsSigned(limit) then Numbers.SignedValue(limit) else -1;
            var o := if cursor == "" then 0 else if Numbers.IsSigned(cursor) then Numbers.SignedValue(cursor) else -1;
            if 1 <= l <= 100 && 0 <= o <= 0x7fff_ffff_ffff_ffff && Contents(a).Some? then
              && r.Packages?
              && exists list :: IsListing(a, list) && r.page == Page(list, o, l)
            else
              r == BadRequest(if l < 1 || l > 100 then "limit must be between 1 and 100"
                              else if o < 0 || o > 0x7fff_ffff_ffff_ffff then "cursor must be a non-negative integer"
                              else "read repository database")
  {
    Numbers.AtoiExact(limit);
    Numbers.AtoiExact(cursor);
    hide Numbers.Atoi, Numbers.IsSigned, Numbers.SignedValue, IsListing, Contents;
    var size := Parameter(limit, MAX_PAGE_SIZE);
    if size.None? || size.value < 1 || size.value > MAX_PAGE_SIZE {
      return BadRequest("limit must be between 1 and 100");
    }
    var offset := Parameter(cursor, 0);
    if offset.None? || offset.value < 0 {
      return BadRequest("cursor must be a non-negative integer");
    }
    var page := ListPage(a, offset.value, size.value);
    if page.None? {
      return BadRequest("read repository database");
    }
    return Packages(page.value);
  }

  // ---------- the client ----------

  /** With distinct names every read of the database gives the same list. */
  lemma ListingUnique(a: Archive, s: seq<Package>, t: seq<Package>)
    requires IsListing(a, s) && IsListing(a, t) && Text.DistinctKeys(Contents(a).value, NameOf)
    ensures s == t
  {
    Text.PermutedDistinct(Contents(a).value, s, NameOf);
    Text.PermutedDistinct(Contents(a).value, t, NameOf);
    Text.DistinctOrderedIsStrict(s, NameOf);
    Text.DistinctOrderedIsStrict(t, NameOf);
    Text.StrictOrderUnique(s, t, NameOf);
  }

  lemma ListingLength(a: Archive, list: seq<Package>)
    requires IsListing(a, list)
    ensures |list| == |Contents(a).value|
  {
    assert |list| == |multiset(list)| == |multiset(Contents(a).value)|;
  }

  // ---------- what pages of independent readings make up ----------

  /** One reading of the database for each request: the server reads and sorts anew every time. */
  ghost predicate Readings(a: Archive, readings: seq<seq<Package>>) {
    && Contents(a).Some? && |readings| == |Contents(a).value| / MAX_PAGE_SIZE + 1
    && AllListings(a, readings)
  }

  ghost predicate AllListings(a: Archive, readings: seq<seq<Package>>) {
    forall i | 0 <= i < |readings| :: IsListing(a, readings[i])
  }

  /** The first `k` pages, each cut from a reading of its own, one after another. */
  function Pages(readings: seq<seq<Package>>, k: nat): seq<Package>
    requires k <= |readings|
  {
    if k == 0 then []
    else Pages(readings, k - 1) + Page(readings[k - 1], (k - 1) * MAX_PAGE_SIZE, MAX_PAGE_SIZE)
  }

  function Reassembled(readings: seq<seq<Package>>): seq<Package> { Pages(readings, |readings|) }

  /** In the sorted `list` a page ends between packages of one name, and not all packages of
      that name are equal. */
  ghost predicate SplitTie(a: Archive, list: seq<Package>, m: nat, p: Package, q: Package) {
    && IsListing(a, list) && 0 < m < |list| && m % MAX_PAGE_SIZE == 0
    && list[m - 1].name == list[m].name
    && p in list && q in list && p != q && p.name == list[m].name && q.name == list[m].name
  }

  ghost predicate Straddles(a: Archive) { exists list, m: nat, p, q :: SplitTie(a, list, m, p, q) }

  lemma DistinctNamesNeverStraddle(a: Archive)
    requires Contents(a).Some? && Text.DistinctKeys(Contents(a).value, NameOf)
    ensures !Straddles(a)
  {
    forall list, m: nat | IsListing(a, list) && 0 < m < |list|
      ensures NameOf(list[m - 1]) != NameOf(list[m])
    {
      Text.PermutedDistinct(Contents(a).value, list, NameOf);
    }
  }

  lemma Between(s: seq<Package>, i: nat, j: nat, k: nat)
    requires Text.Ordered(s, NameOf) && i <= j <= k < |s| && s[i].name == s[k].name
    ensures s[j].name == s[i].name
  {
    Text.KeyLessTotal(NameOf(s[i]), NameOf(s[j]));
  }

  lemma PrefixCounts(s: seq<Package>, m: nat)
    requires m <= |s|
    ensures multiset(s) == multiset(s[..m]) + multiset(s[m..])
  {
    assert s == s[..m] + s[m..];
  }

  lemma Within(a: multiset<Package>, b: multiset<Package>)
    requires a <= b
    ensures |a| <= |b| && (|a| == |b| ==> a == b)
  {
    assert b == a + (b - a);
  }

  /** Of two different multisets of one size, the first has more of something. */
  lemma Excess(a: multiset<Package>, b: multiset<Package>) returns (p: Package)
    requires |a| == |b| && a != b
    ensures a[p] > b[p]
  {
    if a <= b { Within(a, b); }
    p :| a[p] > b[p];
  }

  /** Two packages on different sides of `m` in the one list and in the other. */
  lemma Crossing(s: seq<Package>, t: seq<Package>, m: nat) returns (p: Package, q: Package)
    requires multiset(s) == multiset(t) && |s| == |t| && m <= |s| && multiset(s[..m]) != multiset(t[..m])
    ensures p != q && p in s[..m] && q in s[m..] && q in t[..m] && p in t[m..]
  {
    PrefixCounts(s, m);
    PrefixCounts(t, m);
    var before, other := multiset(s[..m]), multiset(t[..m]);
    p := Excess(before, other);
    q := Excess(other, before);
    assert multiset(s)[p] == multiset(t)[p] && multiset(s)[q] == multiset(t)[q];
    assert multiset(t[m..])[p] > 0 && multiset(s[m..])[q] > 0;
  }

  /** Up to the end of a page every reading has the same packages, unless a tie is split. */
  lemma SamePrefix(a: Archive, s: seq<Package>, t: seq<Package>, m: nat)
    requires IsListing(a, s) && IsListing(a, t) && !Straddles(a)
    requires m <= |s| && (m % MAX_PAGE_SIZE == 0 || m == |s|)
    ensures |t| == |s| && multiset(s[..m]) == multiset(t[..m]) && multiset(s[m..]) == multiset(t[m..])
  {
    ListingLength(a, s);
    ListingLength(a, t);
    PrefixCounts(s, m);
    PrefixCounts(t, m);
    hide Contents;
    if multiset(s[..m]) != multiset(t[..m]) {
      var p, q := Crossing(s, t, m);
      SplitBy(a, s, t, m, p, q);
    }
    assert multiset(s[m..]) == multiset(s) - multiset(s[..m]);
  }

  lemma SplitBy(a: Archive, s: seq<Package>, t: seq<Package>, m: nat, p: Package, q: Package)
    requires IsListing(a, s) && IsListing(a, t) && |t| == |s| && m <= |s|
    requires m == |s| || m % MAX_PAGE_SIZE == 0
    requires p != q && p in s[..m] && q in s[m..] && q in t[..m] && p in t[m..]
    ensures SplitTie(a, s, m, p, q)
  {
    var i :| 0 <= i < m && s[i] == p;
    var j :| m <= j < |s| && s[j] == q;
    var u :| 0 <= u < m && t[u] == q;
    var v :| m <= v < |t| && t[v] == p;
    Text.KeyLessTotal(NameOf(p), NameOf(q));
    Between(s, i, m - 1, j);
    Between(s, i, m, j);
  }

  lemma JoinOrdered(first: seq<Package>, page: seq<Package>, list: seq<Package>, m: nat)
    requires Text.Ordered(first, NameOf) && Text.Ordered(page, NameOf) && Text.Ordered(list, NameOf) && m <= |list|
    requires forall p | p in first :: p in list[..m]
    requires forall p | p in page :: p in list[m..]
    ensures Text.Ordered(first + page, NameOf)
  {
    var all := first + page;
    forall i, j | 0 <= i < j < |all|
      ensures !Text.KeyLess(NameOf(all[j]), NameOf(all[i]))
    {
      if i < |first| <= j {
        assert all[i] in first && all[j] in page;
        var u :| 0 <= u < m && list[u] == all[i];
        var v :| m <= v < |list| && list[v] == all[j];
      }
    }
  }

  /** Where the first `k` pages end. */
  function EndOf(list: seq<Package>, k: nat): nat {
    if k * MAX_PAGE_SIZE < |list| then k * MAX_PAGE_SIZE else |list|
  }

  lemma PageTo(list: seq<Package>, k: nat)
    requires k * MAX_PAGE_SIZE <= |list|
    ensures EndOf(list, k) == k * MAX_PAGE_SIZE <= EndOf(list, k + 1) <= |list|
    ensures Page(list, k * MAX_PAGE_SIZE, MAX_PAGE_SIZE) == list[EndOf(list, k)..EndOf(list, k + 1)]
  {
  }

  /** Without a split tie the first pages are the beginning of the sorted list. */
  lemma {:induction false} PagesBegin(a: Archive, readings: seq<seq<Package>>, k: nat)
    requires Readings(a, readings) && !Straddles(a) && k <= |readings|
    ensures Text.Ordered(Pages(readings, k), NameOf)
    ensures multiset(Pages(readings, k)) == multiset(readings[0][..EndOf(readings[0], k)])
  {
    NoPages(readings);
    hide Readings, IsListing, Straddles, Contents, Text.Ordered, Page, EndOf;
    if k > 0 {
      ReadingAt(a, readings, k - 1);
      PagesBegin(a, readings, k - 1);
      var first := Pages(readings, k - 1);
      assert Pages(readings, k) == first + Page(readings[k - 1], (k - 1) * MAX_PAGE_SIZE, MAX_PAGE_SIZE);
      hide Pages;
      OnePageMore(a, readings[0], readings[k - 1], k - 1, first);
    }
  }

  lemma NoPages(readings: seq<seq<Package>>)
    requires |readings| > 0
    ensures Text.Ordered(Pages(readings, 0), NameOf)
    ensures multiset(Pages(readings, 0)) == multiset(readings[0][..EndOf(readings[0], 0)])
  {
  }

  lemma ReadingAt(a: Archive, readings: seq<seq<Package>>, k: nat)
    requires Readings(a, readings) && k < |readings|
    ensures IsListing(a, readings[0]) && IsListing(a, readings[k]) && k * MAX_PAGE_SIZE <= |readings[0]|
  {
    hide IsListing, Contents;
    assert IsListing(a, readings[0]) && IsListing(a, readings[k]);
    ListingLength(a, readings[0]);
    assert k <= |readings[0]| / MAX_PAGE_SIZE;
  }

  lemma OnePageMore(a: Archive, list: seq<Package>, s: seq<Package>, k: nat, first: seq<Package>)
    requires IsListing(a, list) && IsListing(a, s) && !Straddles(a) && k * MAX_PAGE_SIZE <= |list|
    requires Text.Ordered(first, NameOf) && multiset(first) == multiset(list[..EndOf(list, k)])
    ensures var more := first + Page(s, k * MAX_PAGE_SIZE, MAX_PAGE_SIZE);
            Text.Ordered(more, NameOf) && multiset(more) == multiset(list[..EndOf(list, k + 1)])
  {
    var m, end := EndOf(list, k), EndOf(list, k + 1);
    ListingLength(a, s);
    ListingLength(a, list);
    PageTo(s, k);
    OrderedSlice(s, m, end);
    AtBoundary(list, k);
    AtBoundary(list, k + 1);
    assert EndOf(s, k) == m && EndOf(s, k + 1) == end;
    hide IsListing, Straddles, Contents, Text.Ordered, EndOf, Page;
    SamePrefix(a, s, list, m);
    SamePrefix(a, s, list, end);
    PageFits(list, s, m, end, first);
  }

  lemma AtBoundary(list: seq<Package>, k: nat)
    ensures EndOf(list, k) == |list| || EndOf(list, k) % MAX_PAGE_SIZE == 0
  {
  }

  lemma OrderedSlice(s: seq<Package>, m: nat, end: nat)
    requires Text.Ordered(s, NameOf) && m <= end <= |s|
    ensures Text.Ordered(s[m..end], NameOf)
  {
  }

  lemma PageFits(list: seq<Package>, s: seq<Package>, m: nat, end: nat, first: seq<Package>)
    requires |s| == |list| && m <= end <= |s| && multiset(s[m..]) == multiset(list[m..])
    requires multiset(s[..m]) == multiset(list[..m]) && multiset(s[..end]) == multiset(list[..end])
    requires Text.Ordered(list, NameOf) && Text.Ordered(first, NameOf) && Text.Ordered(s[m..end], NameOf)
    requires multiset(first) == multiset(list[..m])
    ensures Text.Ordered(first + s[m..end], NameOf) && multiset(first + s[m..end]) == multiset(list[..end])
  {
    hide Text.Ordered;
    var page := s[m..end];
    assert s[..end] == s[..m] + page;
    forall p | p in first
      ensures p in list[..m]
    {
      assert p in multiset(first);
    }
    forall p | p in page
      ensures p in list[m..]
    {
      assert p in s[m..] && p in multiset(s[m..]);
    }
    JoinOrdered(first, page, list, m);
  }

  // ---------- the pages of a split tie ----------

  lemma SwapListing(a: Archive, s: seq<Package>, i: nat, j: nat)
    requires IsListing(a, s) && i < |s| && j < |s| && s[i].name == s[j].name
    ensures IsListing(a, s[i := s[j]][j := s[i]])
  {
    var t := s[i := s[j]][j := s[i]];
    assert multiset(t) == multiset(s);
    assert forall k | 0 <= k < |s| :: NameOf(t[k]) == NameOf(s[k]);
  }

  /** A package can be sorted to any place that has its name. */
  lemma Brought(a: Archive, s: seq<Package>, k: nat, p: Package) returns (t: seq<Package>)
    requires IsListing(a, s) && k < |s| && p in s && p.name == s[k].name
    ensures |t| == |s| && IsListing(a, t) && t[k] == p && forall q :: q in s ==> q in t
    ensures forall i | 0 <= i < |s| :: t[i].name == s[i].name && (i != k && s[i] != p ==> t[i] == s[i])
  {
    hide IsListing;
    var j :| 0 <= j < |s| && s[j] == p;
    SwapListing(a, s, j, k);
    t := s[j := s[k]][k := p];
    forall q | q in s
      ensures q in t
    {
      assert q in multiset(s) && multiset(t) == multiset(s) && q in multiset(t);
    }
  }

  /** A split tie can be sorted either way around the end of the page. */
  lemma TwoOrders(a: Archive, list: seq<Package>, m: nat, p: Package, q: Package) returns (s: seq<Package>)
    requires SplitTie(a, list, m, p, q)
    ensures |s| == |list| && IsListing(a, s) && s[m - 1] == p && s[m] == q && IsListing(a, s[m - 1 := q][m := p])
  {
    hide IsListing;
    var first := Brought(a, list, m - 1, p);
    s := Brought(a, first, m, q);
    SwapListing(a, s, m - 1, m);
  }

  /** The first `b` pages cut from `s`, and the rest from `t`. */
  lemma {:induction false} PagesOfTwo(readings: seq<seq<Package>>, s: seq<Package>, t: seq<Package>, b: nat, k: nat)
    requires |t| == |s| && b * MAX_PAGE_SIZE <= |s| && k <= |readings| && (|readings| - 1) * MAX_PAGE_SIZE <= |s|
    requires forall i | 0 <= i < |readings| :: readings[i] == if i < b then s else t
    ensures Pages(readings, k) == if k <= b then s[..EndOf(s, k)] else s[..EndOf(s, b)] + t[EndOf(s, b)..EndOf(s, k)]
  {
    if k > 0 {
      PagesOfTwo(readings, s, t, b, k - 1);
      PageTo(readings[k - 1], k - 1);
      var e, end := EndOf(s, k - 1), EndOf(s, k);
      assert EndOf(t, k - 1) == e && EndOf(t, k) == end;
      if k <= b {
        assert s[..e] + s[e..end] == s[..end];
      } else {
        Glue(s, t, EndOf(s, b), e, end);
      }
    }
  }

  lemma Glue(s: seq<Package>, t: seq<Package>, m: nat, e: nat, end: nat)
    requires m <= e <= end <= |t| && m <= |s|
    ensures s[..m] + t[m..e] + t[e..end] == s[..m] + t[m..end]
  {
  }

  lemma TwoReadings(a: Archive, s: seq<Package>, t: seq<Package>, b: nat) returns (readings: seq<seq<Package>>)
    requires IsListing(a, s) && IsListing(a, t) && b * MAX_PAGE_SIZE <= |s|
    ensures |t| == |s| && Readings(a, readings)
    ensures Reassembled(readings) == s[..b * MAX_PAGE_SIZE] + t[b * MAX_PAGE_SIZE..]
  {
    hide IsListing, Contents, Readings, Reassembled;
    ListingLength(a, s);
    ListingLength(a, t);
    readings := seq(|s| / MAX_PAGE_SIZE + 1, i => if i < b then s else t);
    TwoRead(a, s, t, b, readings);
    TwoReassembled(s, t, b, readings);
  }

  lemma TwoRead(a: Archive, s: seq<Package>, t: seq<Package>, b: nat, readings: seq<seq<Package>>)
    requires IsListing(a, s) && IsListing(a, t)
    requires |readings| == |s| / MAX_PAGE_SIZE + 1
    requires forall i | 0 <= i < |readings| :: readings[i] == if i < b then s else t
    ensures Readings(a, readings)
  {
    ListingLength(a, s);
    assert Contents(a).Some?;
    hide IsListing, Contents;
  }

  lemma TwoReassembled(s: seq<Package>, t: seq<Package>, b: nat, readings: seq<seq<Package>>)
    requires |t| == |s| && b * MAX_PAGE_SIZE <= |s| && |readings| == |s| / MAX_PAGE_SIZE + 1
    requires forall i | 0 <= i < |readings| :: readings[i] == if i < b then s else t
    ensures Reassembled(readings) == s[..b * MAX_PAGE_SIZE] + t[b * MAX_PAGE_SIZE..]
  {
    hide Pages, EndOf;
    LastEnd(s, b);
    PagesOfTwo(readings, s, t, b, |readings|);
    assert t[b * MAX_PAGE_SIZE..|t|] == t[b * MAX_PAGE_SIZE..];
  }

  lemma LastEnd(s: seq<Package>, b: nat)
    requires b * MAX_PAGE_SIZE <= |s|
    ensures EndOf(s, b) == b * MAX_PAGE_SIZE && EndOf(s, |s| / MAX_PAGE_SIZE + 1) == |s| && b < |s| / MAX_PAGE_SIZE + 1
  {
  }

  lemma SplitTieGoesMissing(a: Archive, list: seq<Package>, m: nat, p: Package, q: Package)
    requires SplitTie(a, list, m, p, q)
    ensures exists readings :: Readings(a, readings) && multiset(Reassembled(readings)) != multiset(Contents(a).value)
  {
    var s := TwoOrders(a, list, m, p, q);
    assert multiset(s) == multiset(Contents(a).value) && m == m / MAX_PAGE_SIZE * MAX_PAGE_SIZE;
    hide IsListing, SplitTie, Contents, Pages;
    var readings := TwoReadings(a, s, s[m - 1 := q][m := p], m / MAX_PAGE_SIZE);
    Repeats(s, m, p, q);
  }

  lemma Repeats(s: seq<Package>, m: nat, p: Package, q: Package)
    requires 0 < m < |s| && s[m - 1] == p && s[m] == q && p != q
    ensures var t := s[m - 1 := q][m := p]; multiset(s[..m] + t[m..]) != multiset(s)
  {
    var t := s[m - 1 := q][m := p];
    assert s[..m] + t[m..] == s[m := p];
    assert multiset(s[m := p])[q] == multiset(s)[q] - 1;
  }

  /** The exact theorem of paging: whichever readings the pages are cut from, together they are
      the sorted database, if and only if no tie of different packages is split. */
  lemma PagingExact(a: Archive)
    requires Contents(a).Some?
    ensures (forall readings | Readings(a, readings) :: IsListing(a, Reassembled(readings))) <==> !Straddles(a)
  {
    if Straddles(a) {
      var list, m: nat, p, q :| SplitTie(a, list, m, p, q);
      SplitTieGoesMissing(a, list, m, p, q);
    } else {
      forall readings | Readings(a, readings)
        ensures IsListing(a, Reassembled(readings))
      {
        ReassembledListing(a, readings);
      }
    }
  }

  lemma ReassembledListing(a: Archive, readings: seq<seq<Package>>)
    requires Readings(a, readings) && !Straddles(a)
    ensures IsListing(a, Reassembled(readings))
  {
    var list := readings[0];
    PagesBegin(a, readings, |readings|);
    ListingLength(a, list);
    assert list[..|list|] == list;
  }

  /** Every reading has the same names in the same places, so the condition can be told from
      any one of them. */
  lemma StraddlesInEvery(a: Archive, list: seq<Package>)
    requires IsListing(a, list)
    ensures Straddles(a) <==> exists m: nat, p, q :: SplitTie(a, list, m, p, q)
  {
    if Straddles(a) {
      var other, m: nat, p, q :| SplitTie(a, other, m, p, q);
      ListingLength(a, list);
      ListingLength(a, other);
      SameNames(a, list, other, m);
      SameNames(a, list, other, m - 1);
      assert p in multiset(list) && q in multiset(list);
      hide IsListing;
      assert SplitTie(a, list, m, p, q);
    }
  }

  lemma SameNames(a: Archive, s: seq<Package>, t: seq<Package>, i: nat)
    requires IsListing(a, s) && IsListing(a, t) && i < |s| && i < |t|
    ensures s[i].name == t[i].name
  {
    NotBefore(a, s, t, i);
    NotBefore(a, t, s, i);
    Text.KeyLessTotal(NameOf(s[i]), NameOf(t[i]));
    hide IsListing, Text.KeyLess;
  }

  lemma NotBefore(a: Archive, s: seq<Package>, t: seq<Package>, i: nat)
    requires IsListing(a, s) && IsListing(a, t) && i < |s| && i < |t|
    ensures !Text.KeyLess(NameOf(s[i]), NameOf(t[i]))
  {
    if Text.KeyLess(NameOf(s[i]), NameOf(t[i])) {
      var few, many := multiset(t[..i]), multiset(s[..i + 1]);
      forall p
        ensures many[p] <= few[p]
      {
        if p in s[..i + 1] { Earlier(a, s, t, i, p); }
      }
      Within(many, few);
    }
  }

  lemma Earlier(a: Archive, s: seq<Package>, t: seq<Package>, i: nat, p: Package)
    requires IsListing(a, s) && IsListing(a, t) && i < |s| && i < |t|
    requires Text.KeyLess(NameOf(s[i]), NameOf(t[i])) && p in s[..i + 1]
    ensures multiset(s[..i + 1])[p] <= multiset(t[..i])[p]
  {
    PrefixCounts(s, i + 1);
    PrefixCounts(t, i);
    if p in t[i..] { Misplaced(s, t, i, p); }
    assert p !in t[i..] && multiset(t[i..])[p] == 0;
    assert multiset(s)[p] == multiset(t)[p];
  }

  lemma Misplaced(s: seq<Package>, t: seq<Package>, i: nat, p: Package)
    requires Text.Ordered(s, NameOf) && Text.Ordered(t, NameOf) && i < |s| && i < |t|
    requires p in s[..i + 1] && p in t[i..]
    ensures !Text.KeyLess(NameOf(s[i]), NameOf(t[i]))
  {
    var u :| 0 <= u <= i && s[u] == p;
    var v :| i <= v < |t| && t[v] == p;
    Text.KeyLessTotal(NameOf(p), NameOf(s[i]));
    if Text.KeyLess(NameOf(p), NameOf(s[i])) && Text.KeyLess(NameOf(s[i]), NameOf(t[i])) {
      Text.KeyLessTransitive(NameOf(p), NameOf(s[i]), NameOf(t[i]));
    }
    Text.KeyLessIrreflexive(NameOf(p));
  }

  lemma WrittenNumber(n: nat)
    requires n <= Numbers.MAX_INT64
    ensures Numbers.Decimal(n) != "" && Numbers.IsSigned(Numbers.Decimal(n))
    ensures Numbers.SignedValue(Numbers.Decimal(n)) == n
  {
    Numbers.AtoiDecimal(n);
    Numbers.AtoiExact(Numbers.Decimal(n));
    Numbers.DigitsOnly(n);
  }

  lemma MorePages(readings: seq<seq<Package>>, list: seq<Package>, k: nat)
    requires k <= |readings|
    ensures Pages(readings + [list], k) == Pages(readings, k)
  {
  }

  /** The paging loop over an unchanged database of `n` packages: it makes `n / 100 + 1`
      requests and returns `n` packages, cut from as many readings of the database; they are
      exactly the sorted list if no tie of different packages is split by a page. */
  method List(a: Archive) returns (all: Option<seq<Package>>, requests: nat)
    requires Contents(a).Some? ==> |Contents(a).value| <= Numbers.MAX_INT64
    ensures Contents(a).None? ==> all.None? && requests == 1
    ensures Contents(a).Some? ==>
              && all.Some? && |all.value| == |Contents(a).value|
              && requests == |Contents(a).value| / MAX_PAGE_SIZE + 1
              && exists readings :: Readings(a, readings) && all.value == Reassembled(readings)
    ensures Contents(a).Some? && !Straddles(a) ==> IsListing(a, all.value)
  {
    ghost var readings: seq<seq<Package>> := [];
    var collected: seq<Package> := [];
    assert Contents(a).Some? ==> Collected(a, readings, collected);
    hide IsListing, Page, Straddles, Readings, Reassembled, Collected, Described;
    hide Numbers.Decimal, Numbers.IsSigned, Numbers.SignedValue;
    var offset: nat := 0;
    requests := 0;
    while true
      invariant offset == |collected| && |readings| == requests
      invariant if Contents(a).None? then requests == 0 == offset else Collected(a, readings, collected)
      invariant Contents(a).Some? ==> offset == MAX_PAGE_SIZE * requests <= |Contents(a).value|
      decreases |Contents(a).GetOr([])| - offset
    {
      hide Contents;
      WrittenNumber(MAX_PAGE_SIZE);
      WrittenNumber(offset);
      var response := ListHandler(a, Numbers.Decimal(MAX_PAGE_SIZE), Numbers.Decimal(offset));
      requests := requests + 1;
      if response.BadRequest? { return None, requests; }
      ghost var list :| IsListing(a, list) && response.page == Page(list, offset, MAX_PAGE_SIZE);
      CollectMore(a, readings, collected, list, response.page);
      readings := readings + [list];
      collected := collected + response.page;
      if |response.page| < MAX_PAGE_SIZE {
        return Some(collected), requests;
      }
      offset := offset + MAX_PAGE_SIZE;
    }
  }

  /** Full pages have been collected, each cut from a reading of its own. */
  ghost predicate Collected(a: Archive, readings: seq<seq<Package>>, collected: seq<Package>) {
    && Contents(a).Some? && AllListings(a, readings) && collected == Reassembled(readings)
    && |collected| == MAX_PAGE_SIZE * |readings| <= |Contents(a).value|
  }

  /** One more page, which is the last one exactly if it is not full. */
  lemma CollectMore(
    a: Archive, readings: seq<seq<Package>>, collected: seq<Package>, list: seq<Package>, page: seq<Package>)
    requires Collected(a, readings, collected) && IsListing(a, list)
    requires page == Page(list, |collected|, MAX_PAGE_SIZE)
    ensures var more, all := readings + [list], collected + page;
            if |page| < MAX_PAGE_SIZE then
              && Readings(a, more) && all == Reassembled(more) && |all| == |Contents(a).value|
              && |more| == |Contents(a).value| / MAX_PAGE_SIZE + 1
              && (!Straddles(a) ==> IsListing(a, all))
            else |page| == MAX_PAGE_SIZE && Collected(a, more, all) && |all| <= |Contents(a).value|
  {
    hide IsListing, Contents, Straddles, Page, Pages;
    LastPage(a, readings, list);
    if |page| < MAX_PAGE_SIZE { AllRead(a, readings + [list]); }
  }

  lemma AllRead(a: Archive, readings: seq<seq<Package>>)
    requires Contents(a).Some? && AllListings(a, readings)
    requires (|readings| - 1) * MAX_PAGE_SIZE <= |Contents(a).value| < |readings| * MAX_PAGE_SIZE
    ensures |readings| == |Contents(a).value| / MAX_PAGE_SIZE + 1
    ensures Readings(a, readings) && (!Straddles(a) ==> IsListing(a, Reassembled(readings)))
  {
    if !Straddles(a) { ReassembledListing(a, readings); }
  }

  lemma LastPage(a: Archive, readings: seq<seq<Package>>, list: seq<Package>)
    requires AllListings(a, readings) && IsListing(a, list)
    ensures AllListings(a, readings + [list])
    ensures var offset, n := |readings| * MAX_PAGE_SIZE, |Contents(a).value|;
            |Page(list, offset, MAX_PAGE_SIZE)| ==
              if offset >= n then 0 else if offset + MAX_PAGE_SIZE > n then n - offset else MAX_PAGE_SIZE
    ensures Reassembled(readings + [list]) ==
              Reassembled(readings) + Page(list, |readings| * MAX_PAGE_SIZE, MAX_PAGE_SIZE)
  {
    MorePages(readings, list, |readings|);
    ListingLength(a, list);
    hide IsListing, Contents, Pages;
  }

  // ---------- a database whose pages go wrong ----------

  function EntryOf(p: Package): Entry
    requires Description.Renderable(p)
  {
    Entry(p.name + "-" + p.version + "/desc", Description.Render(Description.Sections(p)), true)
  }

  /** The database written for these packages. */
  function ArchiveOf(packages: seq<Package>): Archive
    requires forall i | 0 <= i < |packages| :: Description.Renderable(packages[i])
  {
    Archive(seq(|packages|, i requires 0 <= i < |packages| => EntryOf(packages[i])), true)
  }

  lemma {:induction false} DescribedBack(packages: seq<Package>, entries: seq<Entry>, n: nat)
    requires |entries| == |packages| && n <= |packages|
    requires forall i | 0 <= i < n :: Description.Renderable(packages[i]) && entries[i] == EntryOf(packages[i])
    ensures Described(entries, n) == Some(packages[..n])
  {
    NoneDescribed(entries);
    hide Described, EntryOf, Description.Renderable;
    if n > 0 {
      DescribedBack(packages, entries, n - 1);
      DescribedMore(packages, entries, n);
    } else {
      assert packages[..0] == [];
    }
  }

  lemma NoneDescribed(entries: seq<Entry>)
    ensures Described(entries, 0) == Some([])
  {
  }

  lemma DescribedMore(packages: seq<Package>, entries: seq<Entry>, n: nat)
    requires 0 < n <= |packages| == |entries|
    requires Description.Renderable(packages[n - 1]) && entries[n - 1] == EntryOf(packages[n - 1])
    requires Described(entries, n - 1) == Some(packages[..n - 1])
    ensures Described(entries, n) == Some(packages[..n])
  {
    hide Described, EntryOf, Description.Meaning, Description.Renderable, IsDescription;
    EntryRead(packages[n - 1]);
    NextEntry(entries, n - 1, Description.Ok(packages[n - 1]));
    assert packages[..n] == packages[..n - 1] + [packages[n - 1]];
  }

  lemma EntryRead(p: Package)
    requires Description.Renderable(p)
    ensures IsDescription(EntryOf(p)) && Description.Meaning(EntryOf(p).lines, EntryOf(p).scanned) == Description.Ok(p)
  {
    var name := p.name + "-" + p.version;
    assert (name + "/desc")[|name|..] == "/desc";
    Description.RenderedParses(p);
    hide Description.Meaning, Description.Render, Description.Sections;
  }

  /** Reading the database written for packages gives them back. */
  lemma ArchiveContents(packages: seq<Package>)
    requires forall i | 0 <= i < |packages| :: Description.Renderable(packages[i])
    ensures Contents(ArchiveOf(packages)) == Some(packages)
  {
    hide Described, EntryOf, Description.Renderable;
    DescribedBack(packages, ArchiveOf(packages).entries, |packages|);
    assert packages[..|packages|] == packages;
  }

  /** Readings that agree make up the very list they agree on, whatever its ties. */
  lemma EqualReadings(a: Archive, list: seq<Package>, readings: seq<seq<Package>>)
    requires Readings(a, readings) && forall i | 0 <= i < |readings| :: readings[i] == list
    ensures Reassembled(readings) == list
  {
    assert readings[0] == list && IsListing(a, readings[0]);
    ListingLength(a, list);
    TwoReassembled(list, list, 0, readings);
  }

  /** A database of two versions of one package, one of them a hundred times: as far as the
      order of ties is left open two readings may differ, and the pages then repeat one version
      and miss the other. */
  lemma TiesMayGoMissing()
    ensures exists a, readings ::
              Readings(a, readings) && multiset(Reassembled(readings)) != multiset(Contents(a).value)
  {
    var p, q := Package("a", "1", "any", "", "", 0, []), Package("a", "2", "any", "", "", 0, []);
    var packages := seq(MAX_PAGE_SIZE, i => p) + [q];
    assert Description.Renderable(p) && Description.Renderable(q);
    ArchiveContents(packages);
    SameNameOrdered(packages, "a");
    assert packages[0] == p && packages[MAX_PAGE_SIZE] == q;
    SplitTieGoesMissing(ArchiveOf(packages), packages, MAX_PAGE_SIZE, p, q);
  }

  lemma SameNameOrdered(s: seq<Package>, name: string)
    requires forall i | 0 <= i < |s| :: s[i].name == name
    ensures Text.Ordered(s, NameOf)
  {
    Text.KeyLessIrreflexive((name, ""));
  }
}
