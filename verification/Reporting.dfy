/** What directory listings and the list of repositories report. */
module Reporting {
  import opened Names
  import opened FileTree
  import opened Operations
  import opened Transactions
  import opened Serializability
  import opened Safety
  import Text

  function NameKey(name: string): Text.Key { (name, "") }

  ghost predicate IsListing(names: seq<string>, d: Tree) {
    && Text.StrictlyOrdered(names, NameKey)
    && forall n :: n in names <==> n in d
  }

  lemma ListingFromMultiset(names: seq<string>, d: Tree)
    requires multiset(names) == multiset(d.Keys) && Text.Ordered(names, NameKey)
    ensures IsListing(names, d)
  {
    forall n
      ensures n in names <==> n in d
    {
      assert n in multiset(names) <==> n in multiset(d.Keys);
    }
    forall i, j | 0 <= i < j < |names|
      ensures names[i] != names[j]
    {
      if names[i] == names[j] {
        Text.TwiceInMultiset(names, i, j);
      }
    }
    Text.DistinctOrderedIsStrict(names, NameKey);
  }

  datatype Repository = Repository(name: string, architectures: seq<string>)

  function RepositoryKey(r: Repository): Text.Key { (r.name, "") }

  ghost predicate ListsArchitectures(root: Tree, entry: Repository) {
    var archs := Architectures(root, entry.name);
    forall a :: a in entry.architectures <==> (a in archs && IsArchitecture(entry.name, a, archs[a]))
  }

  ghost predicate HasArchitecture(root: Tree, r: string) {
    && Component(r) && r in root && root[r].Dir?
    && exists a | a in root[r].entries :: IsArchitecture(r, a, root[r].entries[a])
  }

  /** A repository is reported when it has an architecture or nothing at all in it. */
  ghost predicate Reported(root: Tree, r: string) {
    HasArchitecture(root, r) || (Component(r) && r in root && root[r] == Dir(map[]))
  }

  /** The snapshot directory of a Rename is never reported. */
  lemma TemporaryNeverReported(root: Tree, repository: string, suffix: string)
    ensures !Reported(root, TemporaryName(repository, suffix))
  {
    TemporaryIsNoComponent(repository, suffix);
  }

  // ---------- what a Publish changes about it ----------

  /** The repository directory is made or was there, told beforehand. */
  predicate MakesRepository(op: Op, v: View)
    requires op.action.Publish?
  {
    Admitted(op.action) && MakeRepository !in op.faults && !v.Blocked?
  }

  lemma MadeStays(op: Op, l: Local, v: View)
    requires op.action.Publish? && !l.pc.Begin?
    ensures FinishView(op, l, v).0.made == l.made
    decreases Fuel(l.pc)
  {
    if !l.pc.Done? {
      StepViewDecreases(op, l, v);
      MadeStays(op, StepView(op, l, v).0, StepView(op, l, v).1);
    }
  }

  lemma MadeExactly(op: Op, v: View)
    requires op.action.Publish?
    ensures FinishView(op, START, v).0.made <==> MakesRepository(op, v)
  {
    var (l, w) := StepView(op, START, v);
    StepViewDecreases(op, START, v);
    MadeStays(op, l, w);
  }

  /** The database of the target after a Publish. */
  lemma PublishedDatabase(op: Op, before: View, r: string)
    requires op.action.Publish? && op.Rejection().None? && r == op.action.repository
    ensures var d, e, db := Entries(before), Entries(FinishView(op, START, before).1), DatabaseName(r);
            if PublishSucceeds(op, before) then db in e && e[db].File?
            else (db in e <==> db in d) && (db in d ==> e[db] == d[db])
  {
    var p := op.action;
    PublishAllOrNothing(op, before);
    NamesDisjoint(p.filename, p.filename, r, r);
    if PublishSucceeds(op, before) {
      PublishedContents(p, Entries(before));
      DatabaseIsNoLink(r, r);
    }
    hide FinishView, PackageFile, DatabaseName, SignatureName;
  }

  /** Exactly which repositories are reported after a Publish. It reports its own if it
      succeeds, and if the repository directory is new and its first architecture directory
      could not be made; otherwise a directory made in vain hides one that was empty. */
  lemma PublishReports(op: Op, root: Tree, r: string)
    requires op.action.Publish?
    ensures var v := TargetView(root, op);
            Reported(Apply(op, root).1, r) <==>
              if r != op.action.repository || Refused(op) then Reported(root, r)
              else if PublishSucceeds(op, v) then true
              else if r !in root then MakesRepository(op, v) && !MakesDirectory(op, v)
              else if MakesDirectory(op, v) then HasArchitecture(root, r)
              else Reported(root, r)
  {
    hide FinishView, Finish, Apply;
    if Refused(op) {
      RefusedLeavesTree(op, root);
    } else if r != op.action.repository {
      TargetRunEffect(op, root);
      SameRepository(root, Apply(op, root).1, r);
    } else {
      OwnReports(op, root, r);
    }
  }

  lemma SameRepository(root: Tree, after: Tree, r: string)
    requires (r in root <==> r in after) && forall b :: ViewOf(after, r, b) == ViewOf(root, r, b)
    ensures r in root ==> after[r] == root[r]
  {
    if r in root {
      assert ViewOf(after, r, "") == ViewOf(root, r, "");
      if root[r].Dir? {
        forall b
          ensures b in after[r].entries <==> b in root[r].entries
          ensures b in root[r].entries ==> after[r].entries[b] == root[r].entries[b]
        {
          assert ViewOf(after, r, b) == ViewOf(root, r, b);
        }
        assert after[r].entries == root[r].entries;
      }
    }
  }

  lemma DirectoryReported(root: Tree, after: Tree, r: string, a: string)
    requires Component(r) && Component(a) && (ViewOf(root, r, a).Missing? || IsDirectory(ViewOf(root, r, a)))
    requires IsDirectory(ViewOf(after, r, a)) && forall b | b != a :: ViewOf(after, r, b) == ViewOf(root, r, b)
    requires var d, e, db := Entries(ViewOf(root, r, a)), Entries(ViewOf(after, r, a)), DatabaseName(r);
             (db in e && e[db].File?) || ((db in e <==> db in d) && (db in d ==> e[db] == d[db]))
    ensures var e, db := Entries(ViewOf(after, r, a)), DatabaseName(r);
            Reported(after, r) <==> HasArchitecture(root, r) || (db in e && e[db].File?)
  {
    var archs, later := Architectures(root, r), after[r].entries;
    assert a in later;
    forall b | b != a
      ensures (b in later <==> b in archs) && (b in archs ==> later[b] == archs[b])
    {
      assert ViewOf(after, r, b) == ViewOf(root, r, b);
    }
    if HasArchitecture(root, r) {
      var b :| b in archs && IsArchitecture(r, b, archs[b]);
      assert IsArchitecture(r, b, later[b]);
    }
  }

  lemma OwnReports(op: Op, root: Tree, r: string)
    requires op.action.Publish? && !Refused(op) && r == op.action.repository
    ensures var v := TargetView(root, op);
            Reported(Apply(op, root).1, r) <==>
              if PublishSucceeds(op, v) then true
              else if r !in root then MakesRepository(op, v) && !MakesDirectory(op, v)
              else if MakesDirectory(op, v) then HasArchitecture(root, r)
              else Reported(root, r)
  {
    hide FinishView, Finish, Apply;
    var v, a, after := TargetView(root, op), op.action.architecture, Apply(op, root).1;
    TargetRunEffect(op, root);
    PublishAllOrNothing(op, v);
    MadeExactly(op, v);
    PublishedDatabase(op, v, r);
    var w := ViewOf(after, r, a);
    if MakesDirectory(op, v) {
      assert IsDirectory(w);
      DirectoryReported(root, after, r, a);
    } else if r in root {
      SameRepository(root, after, r);
    } else if r in after {
      forall b
        ensures b !in after[r].entries
      {
        assert ViewOf(after, r, b) == Missing;
      }
    }
  }

  /** A Publish hides a reported repository in exactly one case: the repository was empty, and
      the Publish fails after it made its architecture directory. */
  lemma FailedPublishHidesEmptyRepository(op: Op, root: Tree, r: string)
    requires op.action.Publish? && Reported(root, r)
    ensures var v := TargetView(root, op);
            !Reported(Apply(op, root).1, r) <==>
              && r == op.action.repository && root[r].entries == map[]
              && !Refused(op) && MakesDirectory(op, v) && !PublishSucceeds(op, v)
  {
    PublishReports(op, root, r);
  }

  /** Both ways to fail: an empty repository disappears when the package cannot be installed,
      and a new one appears when its architecture directory cannot be made. */
  lemma FailuresReported(p: Action, r: string)
    requires p.Publish? && Admitted(p) && p.repository == r
    requires Component(r) && Component(p.architecture) && PackageFile(p.filename)
    ensures var root, op := map[r := Dir(map[])], Op(p, {InstallPackage});
            Reported(root, r) && Apply(op, root).0.Failed? && !Reported(Apply(op, root).1, r)
    ensures var op := Op(p, {MakeArchitecture});
            Apply(op, map[]).0.Failed? && Reported(Apply(op, map[]).1, r)
  {
    var root: Tree, none: Tree := map[r := Dir(map[])], map[];
    var op, early := Op(p, {InstallPackage}), Op(p, {MakeArchitecture});
    PublishReports(op, root, r);
    PublishReports(early, none, r);
    TargetRunEffect(op, root);
    TargetRunEffect(early, none);
    PublishAllOrNothing(op, TargetView(root, op));
    PublishAllOrNothing(early, TargetView(none, early));
    hide FinishView, Finish, Apply;
  }
}
