/** The repository page: `ListRepository` gathers and sorts the packages of every
    architecture, `packageViews` groups them into rows, and the search filter drops rows. */
module Grouping {
  import opened Options
  import opened FileTree
  import Paging
  import Text

  /** A `LocatedPackage`. */
  datatype Located = Located(architecture: string, pkg: Package)

  /** A `packageVariantView`: the signature link is there exactly if `signed`. */
  datatype Variant = Variant(located: Located, signed: bool)

  /** A `repositoryPackageView`; `details` is the architecture its details link names. */
  datatype Row = Row(name: string, description: string, details: string, variants: seq<Variant>)

  // ---------- ListRepository ----------

  function LocatedKey(l: Located): Text.Key { (l.pkg.name, l.architecture) }

  function Locate(architecture: string, packages: seq<Package>): seq<Located> {
    seq(|packages|, i requires 0 <= i < |packages| => Located(architecture, packages[i]))
  }

  /** The packages of these architectures, each read from its own database. */
  ghost function Gathered(architectures: seq<string>, read: string -> Paging.Archive): Option<multiset<Located>> {
    if |architectures| == 0 then Some(multiset{}) else
    var last := architectures[|architectures| - 1];
    var earlier, here := Gathered(architectures[..|architectures| - 1], read), Paging.Contents(read(last));
    if earlier.None? || here.None? then None else Some(earlier.value + multiset(Locate(last, here.value)))
  }

  lemma {:induction false} GatheredFails(architectures: seq<string>, n: nat, read: string -> Paging.Archive)
    requires n <= |architectures| && Gathered(architectures[..n], read).None?
    ensures Gathered(architectures, read).None?
    decreases |architectures| - n
  {
    if n < |architectures| {
      assert architectures[..n + 1][..n] == architectures[..n];
      GatheredFails(architectures, n + 1, read);
    } else {
      assert architectures[..n] == architectures;
    }
  }

  lemma {:induction false} LocateCounts(architecture: string, s: seq<Package>, l: Located)
    ensures multiset(Locate(architecture, s))[l] == if l.architecture == architecture then multiset(s)[l.pkg] else 0
  {
    if |s| > 0 {
      var earlier, last := s[..|s| - 1], s[|s| - 1];
      LocateCounts(architecture, earlier, l);
      assert s == earlier + [last];
      assert Locate(architecture, s) == Locate(architecture, earlier) + [Located(architecture, last)];
      assert multiset(Locate(architecture, s)) ==
        multiset(Locate(architecture, earlier)) + multiset{Located(architecture, last)};
      assert multiset(s) == multiset(earlier) + multiset{last};
    }
  }

  lemma LocatePermuted(architecture: string, s: seq<Package>, t: seq<Package>)
    requires multiset(s) == multiset(t)
    ensures multiset(Locate(architecture, s)) == multiset(Locate(architecture, t))
  {
    forall l
      ensures multiset(Locate(architecture, s))[l] == multiset(Locate(architecture, t))[l]
    {
      LocateCounts(architecture, s, l);
      LocateCounts(architecture, t, l);
    }
  }

  /** Told one package at a time: it fails exactly if some database cannot be read, and otherwise
      each package is there as often as in the database of its architecture. */
  lemma {:induction false} GatheredExactly(architectures: seq<string>, read: string -> Paging.Archive)
    requires forall i, j | 0 <= i < j < |architectures| :: architectures[i] != architectures[j]
    ensures Gathered(architectures, read).None? <==> exists a | a in architectures :: Paging.Contents(read(a)).None?
    ensures Gathered(architectures, read).Some? ==> forall l: Located ::
              Gathered(architectures, read).value[l] ==
                if l.architecture in architectures
                then multiset(Paging.Contents(read(l.architecture)).value)[l.pkg] else 0
  {
    if |architectures| > 0 {
      var earlier, last := architectures[..|architectures| - 1], architectures[|architectures| - 1];
      GatheredExactly(earlier, read);
      assert architectures == earlier + [last];
      hide Paging.Contents;
      if Gathered(architectures, read).Some? {
        forall l: Located
          ensures Gathered(architectures, read).value[l] ==
                    if l.architecture in architectures
                    then multiset(Paging.Contents(read(l.architecture)).value)[l.pkg] else 0
        {
          LocateCounts(last, Paging.Contents(read(last)).value, l);
        }
      }
    }
  }

  /** Every package of every architecture once, by name and then architecture; an error if any
      database cannot be read. */
  method ListRepository(architectures: seq<string>, read: string -> Paging.Archive) returns (r: Option<seq<Located>>)
    ensures r.None? <==> Gathered(architectures, read).None?
    ensures r.Some? ==> Text.Ordered(r.value, LocatedKey) && Gathered(architectures, read) == Some(multiset(r.value))
    ensures r.Some? ==> forall i, j | 0 <= i < j < |r.value| ::
              var a, b := r.value[i], r.value[j];
              Text.Less(a.pkg.name, b.pkg.name)
              || (a.pkg.name == b.pkg.name && !Text.Less(b.architecture, a.architecture))
    ensures (forall i, j | 0 <= i < j < |architectures| :: architectures[i] != architectures[j]) ==>
              && (r.None? <==> exists a | a in architectures :: Paging.Contents(read(a)).None?)
              && (r.Some? ==> forall l: Located ::
                    multiset(r.value)[l] ==
                      if l.architecture in architectures
                      then multiset(Paging.Contents(read(l.architecture)).value)[l.pkg] else 0)
  {
    var packages: seq<Located> := [];
    if forall i, j | 0 <= i < j < |architectures| :: architectures[i] != architectures[j] {
      GatheredExactly(architectures, read);
    }
    hide Paging.Contents;
    for i := 0 to |architectures|
      invariant Gathered(architectures[..i], read) == Some(multiset(packages))
    {
      assert architectures[..i + 1][..i] == architectures[..i];
      var here := Paging.ReadDatabase(read(architectures[i]));
      if here.None? {
        GatheredFails(architectures, i + 1, read);
        return None;
      }
      LocatePermuted(architectures[i], here.value, Paging.Contents(read(architectures[i])).value);
      packages := packages + Locate(architectures[i], here.value);
    }
    assert architectures[..|architectures|] == architectures;
    packages := Text.SortBy(packages, LocatedKey);
    forall i, j | 0 <= i < j < |packages|
      ensures var a, b := packages[i], packages[j];
              Text.Less(a.pkg.name, b.pkg.name)
              || (a.pkg.name == b.pkg.name && !Text.Less(b.architecture, a.architecture))
    {
      Text.LessTotal(packages[i].pkg.name, packages[j].pkg.name);
    }
    return Some(packages);
  }

  // ---------- packageViews ----------

  function FirstDescription(variants: seq<Variant>): string {
    if |variants| == 0 then ""
    else
      var earlier := FirstDescription(variants[..|variants| - 1]);
      if |earlier| > 0 then earlier else variants[|variants| - 1].located.pkg.description
  }

  /** The first description that is not empty, if there is one. */
  lemma {:induction false} FirstDescriptionIsFirst(variants: seq<Variant>)
    ensures (FirstDescription(variants) == "" &&
             forall k | 0 <= k < |variants| :: variants[k].located.pkg.description == "")
            || exists k | 0 <= k < |variants| ::
                 && FirstDescription(variants) == variants[k].located.pkg.description != ""
                 && forall j | 0 <= j < k :: variants[j].located.pkg.description == ""
  {
    if |variants| > 0 {
      var earlier := variants[..|variants| - 1];
      FirstDescriptionIsFirst(earlier);
      if FirstDescription(earlier) != "" {
        var k :| 0 <= k < |earlier| && FirstDescription(earlier) == earlier[k].located.pkg.description
                 && forall j | 0 <= j < k :: earlier[j].located.pkg.description == "";
        assert variants[k] == earlier[k];
        assert forall j | 0 <= j < k :: variants[j] == earlier[j];
      } else {
        assert forall k | 0 <= k < |earlier| :: earlier[k] == variants[k];
      }
    }
  }

  /** The packages the rows show, in order. */
  function Shown(rows: seq<Row>): seq<Located> {
    if |rows| == 0 then [] else Shown(rows[..|rows| - 1]) + Locations(rows[|rows| - 1].variants)
  }

  function Locations(variants: seq<Variant>): seq<Located> {
    seq(|variants|, i requires 0 <= i < |variants| => variants[i].located)
  }

  /** A row shows variants of one name, under the first description they have, each with the
      signature link its file calls for. */
  ghost predicate IsRow(row: Row, inspect: Located -> Option<bool>) {
    && |row.variants| > 0
    && (forall v | v in row.variants :: v.located.pkg.name == row.name && inspect(v.located) == Some(v.signed))
    && row.description == FirstDescription(row.variants)
    && row.details == row.variants[0].located.architecture
  }

  ghost predicate IsGrouping(rows: seq<Row>, packages: seq<Located>, inspect: Located -> Option<bool>) {
    && Shown(rows) == packages
    && (forall i | 0 <= i < |rows| :: IsRow(rows[i], inspect))
    && (forall i | 0 < i < |rows| :: rows[i - 1].name != rows[i].name)
  }

  lemma NewRow(rows: seq<Row>, packages: seq<Located>, p: Located, signed: bool, inspect: Located -> Option<bool>)
    requires IsGrouping(rows, packages, inspect) && inspect(p) == Some(signed)
    requires |rows| > 0 ==> rows[|rows| - 1].name != p.pkg.name
    ensures IsGrouping(rows + [Row(p.pkg.name, p.pkg.description, p.architecture, [Variant(p, signed)])],
                       packages + [p], inspect)
  {
    var variants := [Variant(p, signed)];
    assert variants[..0] == [] && Locations(variants) == [p];
    var longer := rows + [Row(p.pkg.name, p.pkg.description, p.architecture, variants)];
    assert longer[..|rows|] == rows;
    assert IsRow(longer[|rows|], inspect);
    forall i | 0 <= i < |longer|
      ensures IsRow(longer[i], inspect)
    {
      if i < |rows| { assert longer[i] == rows[i]; }
    }
  }

  lemma LongerRow(rows: seq<Row>, packages: seq<Located>, p: Located, signed: bool, inspect: Located -> Option<bool>)
    requires IsGrouping(rows, packages, inspect) && inspect(p) == Some(signed)
    requires |rows| > 0 && rows[|rows| - 1].name == p.pkg.name
    ensures var last := rows[|rows| - 1];
            var description := if |last.description| == 0 then p.pkg.description else last.description;
            IsGrouping(rows[|rows| - 1 :=
                         Row(last.name, description, last.details, last.variants + [Variant(p, signed)])],
                       packages + [p], inspect)
  {
    var last := rows[|rows| - 1];
    var variants := last.variants + [Variant(p, signed)];
    assert variants[..|last.variants|] == last.variants;
    assert Locations(variants) == Locations(last.variants) + [p];
    var description := if |last.description| == 0 then p.pkg.description else last.description;
    var longer := rows[|rows| - 1 := Row(last.name, description, last.details, variants)];
    assert longer[..|rows| - 1] == rows[..|rows| - 1];
    assert IsRow(last, inspect);
  }

  /** The body of the loop for one package, whose signature has been looked up. */
  method AddVariant(views: seq<Row>, ghost packages: seq<Located>, p: Located, signed: bool,
                    ghost inspect: Located -> Option<bool>)
    returns (longer: seq<Row>)
    requires IsGrouping(views, packages, inspect) && inspect(p) == Some(signed)
    ensures IsGrouping(longer, packages + [p], inspect)
  {
    hide IsGrouping;
    if |views| == 0 || views[|views| - 1].name != p.pkg.name {
      NewRow(views, packages, p, signed, inspect);
      return views + [Row(p.pkg.name, p.pkg.description, p.architecture, [Variant(p, signed)])];
    }
    LongerRow(views, packages, p, signed, inspect);
    var view := views[|views| - 1];
    var description := if |view.description| == 0 then p.pkg.description else view.description;
    longer := views[|views| - 1 := Row(view.name, description, view.details, view.variants + [Variant(p, signed)])];
  }

  /** `inspect` is `HasSignature` on the file of a located package. */
  method PackageViews(packages: seq<Located>, inspect: Located -> Option<bool>) returns (r: Option<seq<Row>>)
    ensures r.None? <==> exists p | p in packages :: inspect(p).None?
    ensures r.Some? ==> IsGrouping(r.value, packages, inspect)
  {
    var views: seq<Row> := [];
    for i := 0 to |packages|
      invariant IsGrouping(views, packages[..i], inspect)
      invariant forall k | 0 <= k < i :: inspect(packages[k]).Some?
    {
      hide IsGrouping;
      var signed := inspect(packages[i]);
      if signed.None? {
        return None;
      }
      views := AddVariant(views, packages[..i], packages[i], signed.value, inspect);
      assert packages[..i + 1] == packages[..i] + [packages[i]];
    }
    assert packages[..|packages|] == packages;
    r := Some(views);
  }

  // ---------- what the grouping promises on a sorted list ----------

  /** Where the packages of row `i` begin in the list. */
  function Offset(rows: seq<Row>, i: nat): nat
    requires i <= |rows|
  {
    if i == 0 then 0 else Offset(rows, i - 1) + |rows[i - 1].variants|
  }

  lemma {:induction false} ShownAt(rows: seq<Row>, i: nat, k: nat)
    requires i < |rows| && k < |rows[i].variants|
    ensures Offset(rows, i) + k < |Shown(rows)| && Shown(rows)[Offset(rows, i) + k] == rows[i].variants[k].located
    ensures |Shown(rows)| == Offset(rows, |rows|)
  {
    ShownLength(rows);
    var earlier := rows[..|rows| - 1];
    ShownLength(earlier);
    OffsetPrefix(rows, |earlier|, |earlier|);
    if i < |earlier| {
      ShownAt(earlier, i, k);
      OffsetPrefix(rows, |earlier|, i);
    }
  }

  lemma {:induction false} ShownLength(rows: seq<Row>)
    ensures |Shown(rows)| == Offset(rows, |rows|)
  {
    if |rows| > 0 {
      ShownLength(rows[..|rows| - 1]);
      OffsetPrefix(rows, |rows| - 1, |rows| - 1);
    }
  }

  lemma {:induction false} OffsetPrefix(rows: seq<Row>, n: nat, i: nat)
    requires i <= n <= |rows|
    ensures Offset(rows[..n], i) == Offset(rows, i)
  {
    if i > 0 {
      OffsetPrefix(rows, n, i - 1);
    }
  }

  lemma NextRowAbove(rows: seq<Row>, packages: seq<Located>, inspect: Located -> Option<bool>, i: nat)
    requires IsGrouping(rows, packages, inspect) && Text.Ordered(packages, LocatedKey) && 0 < i < |rows|
    ensures Text.Less(rows[i - 1].name, rows[i].name)
  {
    assert IsRow(rows[i - 1], inspect) && IsRow(rows[i], inspect);
    assert rows[i - 1].variants[0] in rows[i - 1].variants && rows[i].variants[0] in rows[i].variants;
    ShownAt(rows, i - 1, 0);
    ShownAt(rows, i, 0);
    assert Offset(rows, i - 1) < Offset(rows, i);
    assert !Text.KeyLess(LocatedKey(packages[Offset(rows, i)]), LocatedKey(packages[Offset(rows, i - 1)]));
    Text.LessTotal(rows[i - 1].name, rows[i].name);
  }

  /** On the sorted list row names ascend strictly, so no name has two rows. */
  lemma {:induction false} RowNamesAscend(rows: seq<Row>, packages: seq<Located>, inspect: Located -> Option<bool>,
                                            i: nat, j: nat)
    requires IsGrouping(rows, packages, inspect) && Text.Ordered(packages, LocatedKey) && i < j < |rows|
    ensures Text.Less(rows[i].name, rows[j].name)
  {
    NextRowAbove(rows, packages, inspect, j);
    if i + 1 < j {
      RowNamesAscend(rows, packages, inspect, i, j - 1);
      Text.LessTransitive(rows[i].name, rows[j - 1].name, rows[j].name);
    }
  }

  lemma GroupingEmpty(rows: seq<Row>, packages: seq<Located>, inspect: Located -> Option<bool>)
    requires IsGrouping(rows, packages, inspect)
    ensures |rows| == 0 <==> |packages| == 0
  {
    if |rows| > 0 { assert IsRow(rows[|rows| - 1], inspect); }
  }

  /** The last row takes the longest run of packages of one name at the end of the list. */
  lemma LastRowIsRun(rows: seq<Row>, packages: seq<Located>, inspect: Located -> Option<bool>)
    requires IsGrouping(rows, packages, inspect) && |rows| > 0
    ensures var x, n := rows[|rows| - 1], |packages|; var m := |x.variants|;
            && 0 < m <= n
            && (forall k | n - m <= k < n :: packages[k].pkg.name == x.name)
            && (m < n ==> packages[n - m - 1].pkg.name != x.name)
  {
    var x, n, earlier := rows[|rows| - 1], |packages|, rows[..|rows| - 1];
    var m := |x.variants|;
    assert IsRow(x, inspect);
    forall k | n - m <= k < n
      ensures packages[k].pkg.name == x.name
    {
      assert packages[k] == x.variants[k - (n - m)].located && x.variants[k - (n - m)] in x.variants;
    }
    if |rows| > 1 {
      var before := rows[|rows| - 2];
      assert IsRow(before, inspect) && before == earlier[|earlier| - 1] && before.name != x.name;
      var last := before.variants[|before.variants| - 1];
      assert last in before.variants;
      assert Shown(earlier) == Shown(earlier[..|earlier| - 1]) + Locations(before.variants);
      assert Shown(earlier)[|Shown(earlier)| - 1] == last.located;
      assert packages == Shown(earlier) + Locations(x.variants);
    }
  }

  lemma LastRowNoShorter(s: seq<Row>, t: seq<Row>, packages: seq<Located>, inspect: Located -> Option<bool>)
    requires IsGrouping(s, packages, inspect) && IsGrouping(t, packages, inspect) && |s| > 0 && |t| > 0
    ensures |s[|s| - 1].variants| >= |t[|t| - 1].variants|
  {
    LastRowIsRun(s, packages, inspect);
    LastRowIsRun(t, packages, inspect);
    hide IsGrouping;
    assert packages[|packages| - 1].pkg.name == s[|s| - 1].name == t[|t| - 1].name;
  }

  lemma LastRowSame(s: seq<Row>, t: seq<Row>, packages: seq<Located>, inspect: Located -> Option<bool>)
    requires IsGrouping(s, packages, inspect) && IsGrouping(t, packages, inspect) && |s| > 0 && |t| > 0
    ensures s[|s| - 1] == t[|t| - 1]
  {
    var x, y := s[|s| - 1], t[|t| - 1];
    assert IsRow(x, inspect) && IsRow(y, inspect);
    LastRowNoShorter(s, t, packages, inspect);
    LastRowNoShorter(t, s, packages, inspect);
    var start := |packages| - |x.variants|;
    forall k | 0 <= k < |x.variants|
      ensures x.variants[k] == y.variants[k]
    {
      assert packages[start + k] == x.variants[k].located == y.variants[k].located;
      assert x.variants[k] in x.variants && y.variants[k] in y.variants;
    }
    assert x.variants == y.variants && x.variants[0] in x.variants;
  }

  lemma EarlierGrouping(rows: seq<Row>, packages: seq<Located>, inspect: Located -> Option<bool>)
    requires IsGrouping(rows, packages, inspect) && |rows| > 0
    ensures var m := |rows[|rows| - 1].variants|;
            m <= |packages| && IsGrouping(rows[..|rows| - 1], packages[..|packages| - m], inspect)
  {
    var earlier := rows[..|rows| - 1];
    assert packages == Shown(earlier) + Locations(rows[|rows| - 1].variants);
    assert Shown(earlier) == packages[..|Shown(earlier)|];
  }

  /** There is only one grouping of a list, so the rows are determined by the packages. */
  lemma {:induction false} GroupingUnique(s: seq<Row>, t: seq<Row>, packages: seq<Located>,
      inspect: Located -> Option<bool>)
    requires IsGrouping(s, packages, inspect) && IsGrouping(t, packages, inspect)
    ensures s == t
  {
    hide IsGrouping;
    GroupingEmpty(s, packages, inspect);
    GroupingEmpty(t, packages, inspect);
    if |s| > 0 {
      LastRowSame(s, t, packages, inspect);
      EarlierGrouping(s, packages, inspect);
      EarlierGrouping(t, packages, inspect);
      GroupingUnique(s[..|s| - 1], t[..|t| - 1], packages[..|packages| - |s[|s| - 1].variants|], inspect);
      assert s == s[..|s| - 1] + [s[|s| - 1]] && t == t[..|t| - 1] + [t[|t| - 1]];
    }
  }

  // ---------- the search filter ----------

  predicate OccursAt(s: string, sub: string, k: nat) {
    k + |sub| <= |s| && s[k..k + |sub|] == sub
  }

  /** `strings.Contains`. */
  predicate Contains(s: string, sub: string) { exists k: nat | k <= |s| :: OccursAt(s, sub, k) }

  /** `lower` is `strings.ToLower`; the query is already lower-case. */
  predicate Matches(row: Row, query: string, lower: string -> string) {
    || Contains(lower(row.name), query)
    || exists k: nat | k < |row.variants| :: Contains(lower(row.variants[k].located.pkg.description), query)
  }

  predicate Around(s: string, before: string, sub: string, after: string) { s == before + sub + after }

  /** A row matches exactly if the query stands somewhere in its name, or in the description of
      one of its variants, both in lower case. */
  lemma MatchesExactly(row: Row, query: string, lower: string -> string)
    ensures Matches(row, query, lower) <==>
            || (exists before, after :: Around(lower(row.name), before, query, after))
            || exists v, before, after | v in row.variants ::
                 Around(lower(v.located.pkg.description), before, query, after)
  {
    ContainsExactly(lower(row.name), query);
    forall v | v in row.variants
      ensures Contains(lower(v.located.pkg.description), query) <==>
              exists before, after :: Around(lower(v.located.pkg.description), before, query, after)
    {
      ContainsExactly(lower(v.located.pkg.description), query);
    }
    hide Contains, Around;
    assert forall k: nat | k < |row.variants| :: row.variants[k] in row.variants;
  }

  lemma ContainsExactly(s: string, sub: string)
    ensures Contains(s, sub) <==> exists before, after :: Around(s, before, sub, after)
  {
    if Contains(s, sub) {
      var k: nat :| k <= |s| && OccursAt(s, sub, k);
      assert Around(s, s[..k], sub, s[k + |sub|..]);
    }
    if before, after :| Around(s, before, sub, after) { assert OccursAt(s, sub, |before|); }
  }

  /** The rows that match, in order. */
  function Matching(rows: seq<Row>, query: string, lower: string -> string): seq<Row> {
    if |rows| == 0 then []
    else
      Matching(rows[..|rows| - 1], query, lower)
      + if Matches(rows[|rows| - 1], query, lower) then [rows[|rows| - 1]] else []
  }

  /** `slices.DeleteFunc` with the page's condition; an empty query deletes nothing. */
  method Search(rows: seq<Row>, query: string, lower: string -> string) returns (kept: seq<Row>)
    ensures kept == Matching(rows, query, lower)
  {
    if |query| == 0 {
      EmptyQuery(rows, query, lower);
      return rows;
    }
    kept := [];
    for i := 0 to |rows|
      invariant kept == Matching(rows[..i], query, lower)
    {
      assert rows[..i + 1][..i] == rows[..i];
      var found := Contains(lower(rows[i].name), query);
      var k := 0;
      while !found && k < |rows[i].variants|
        invariant 0 <= k <= |rows[i].variants|
        invariant found ==> Matches(rows[i], query, lower)
        invariant !found ==> !Contains(lower(rows[i].name), query)
        invariant !found ==> forall j | 0 <= j < k ::
                  !Contains(lower(rows[i].variants[j].located.pkg.description), query)
      {
        found := Contains(lower(rows[i].variants[k].located.pkg.description), query);
        k := k + 1;
      }
      if found { kept := kept + [rows[i]]; }
    }
    assert rows[..|rows|] == rows;
  }

  lemma {:induction false} EmptyQuery(rows: seq<Row>, query: string, lower: string -> string)
    requires |query| == 0
    ensures Matching(rows, query, lower) == rows
  {
    if |rows| > 0 {
      EmptyQuery(rows[..|rows| - 1], query, lower);
      var name := lower(rows[|rows| - 1].name);
      assert name[0..0] == query;
      assert OccursAt(name, query, 0);
      assert rows == rows[..|rows| - 1] + [rows[|rows| - 1]];
    }
  }

  /** `at` picks the matching rows, in order, each unchanged. */
  ghost predicate Picks(rows: seq<Row>, kept: seq<Row>, at: seq<nat>) {
    && |at| == |kept|
    && (forall i | 0 <= i < |at| :: at[i] < |rows| && kept[i] == rows[at[i]])
    && (forall i, j | 0 <= i < j < |at| :: at[i] < at[j])
  }

  ghost predicate PicksMatching(rows: seq<Row>, query: string, lower: string -> string, at: seq<nat>) {
    forall k: nat | k < |rows| :: Matches(rows[k], query, lower) <==> k in at
  }

  lemma MatchingStep(rows: seq<Row>, last: Row, query: string, lower: string -> string, before: seq<nat>)
    returns (at: seq<nat>)
    requires Picks(rows, Matching(rows, query, lower), before) && PicksMatching(rows, query, lower, before)
    ensures Picks(rows + [last], Matching(rows + [last], query, lower), at)
    ensures PicksMatching(rows + [last], query, lower, at)
  {
    var matches := Matches(last, query, lower);
    at := if matches then before + [|rows|] else before;
    PicksMore(rows, Matching(rows, query, lower), before, last, matches);
    PicksMatchingMore(rows, query, lower, before, last);
    MatchingLast(rows, last, query, lower);
    hide Matches, Matching, Picks, PicksMatching;
  }

  /** The filter keeps a row exactly if it matches, unchanged, and keeps their order. */
  lemma {:induction false} MatchingExact(rows: seq<Row>, query: string, lower: string -> string) returns (at: seq<nat>)
    ensures Picks(rows, Matching(rows, query, lower), at) && PicksMatching(rows, query, lower, at)
  {
    if |rows| == 0 {
      at := [];
    } else {
      var earlier, last := rows[..|rows| - 1], rows[|rows| - 1];
      at := MatchingExact(earlier, query, lower);
      at := MatchingStep(earlier, last, query, lower, at);
      assert rows == earlier + [last];
    }
  }

  lemma MatchingLast(rows: seq<Row>, last: Row, query: string, lower: string -> string)
    ensures Matching(rows + [last], query, lower) ==
            if Matches(last, query, lower) then Matching(rows, query, lower) + [last] else Matching(rows, query, lower)
  {
    assert (rows + [last])[..|rows|] == rows;
  }

  lemma PicksMore(rows: seq<Row>, kept: seq<Row>, at: seq<nat>, last: Row, matches: bool)
    requires Picks(rows, kept, at)
    ensures Picks(rows + [last], if matches then kept + [last] else kept, if matches then at + [|rows|] else at)
    ensures |rows| !in at
  {
  }

  lemma PicksMatchingMore(rows: seq<Row>, query: string, lower: string -> string, at: seq<nat>, last: Row)
    requires PicksMatching(rows, query, lower, at) && |rows| !in at
    ensures PicksMatching(rows + [last], query, lower, if Matches(last, query, lower) then at + [|rows|] else at)
  {
    hide Matches;
    var more := if Matches(last, query, lower) then at + [|rows|] else at;
    forall k: nat | k < |rows| + 1
      ensures Matches((rows + [last])[k], query, lower) <==> k in more
    {
      if k < |rows| { assert (rows + [last])[k] == rows[k]; }
    }
  }

  /** What the page shows: rows that match, no name twice, ascending, each with all its variants. */
  lemma FoundRowsAscend(rows: seq<Row>, packages: seq<Located>, inspect: Located -> Option<bool>,
                        query: string, lower: string -> string, i: nat, j: nat)
    requires IsGrouping(rows, packages, inspect) && Text.Ordered(packages, LocatedKey)
    requires i < j < |Matching(rows, query, lower)|
    ensures var found := Matching(rows, query, lower);
            && Text.Less(found[i].name, found[j].name)
            && found[i] in rows && Matches(found[i], query, lower)
  {
    var at := MatchingExact(rows, query, lower);
    RowNamesAscend(rows, packages, inspect, at[i], at[j]);
    assert Matches(rows[at[i]], query, lower);
  }
}
