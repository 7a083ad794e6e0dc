/**
 * The reporters' grouping of package changes: upgrades by the part of the
 * version that changed, then downgrades, additions and removals, each group
 * in the order the changes were given.
 */
module Grouping {
  import opened Model
  import Diff

  /** The six groups a report lists. */
  datatype GroupedChanges = GroupedChanges(
    major: seq<PackageChange>,
    minor: seq<PackageChange>,
    patch: seq<PackageChange>,
    added: seq<PackageChange>,
    removed: seq<PackageChange>,
    downgraded: seq<PackageChange>)

  /** A group, by name. */
  datatype Slot = MajorSlot | MinorSlot | PatchSlot | AddedSlot | RemovedSlot | DowngradedSlot

  /** The group of a slot. */
  function Group(g: GroupedChanges, s: Slot): seq<PackageChange>
  {
    match s
    case MajorSlot => g.major
    case MinorSlot => g.minor
    case PatchSlot => g.patch
    case AddedSlot => g.added
    case RemovedSlot => g.removed
    case DowngradedSlot => g.downgraded
  }

  /**
   * The group a change goes to. An upgrade goes to the group of its version
   * change; an upgrade without one goes to no group at all.
   */
  function SlotOf(c: PackageChange): (s: Option<Slot>)
    ensures s == None <==> c.kind == Upgraded && c.versionChange.None?
    ensures s == Some(DowngradedSlot) <==> c.kind == Downgraded
    ensures s == Some(AddedSlot) <==> c.kind == Added
    ensures s == Some(RemovedSlot) <==> c.kind == Removed
    ensures s == Some(MajorSlot) <==> c.kind == Upgraded && c.versionChange == Some(Major)
    ensures s == Some(MinorSlot) <==> c.kind == Upgraded && c.versionChange == Some(Minor)
    ensures s == Some(PatchSlot) <==> c.kind == Upgraded && c.versionChange == Some(Patch)
  {
    if c.kind == Upgraded && c.versionChange.Some? then
      match c.versionChange.value
      case Major => Some(MajorSlot)
      case Minor => Some(MinorSlot)
      case Patch => Some(PatchSlot)
    else if c.kind == Downgraded then Some(DowngradedSlot)
    else if c.kind == Added then Some(AddedSlot)
    else if c.kind == Removed then Some(RemovedSlot)
    else assert c.kind == Upgraded; None
  }

  /** The changes whose slot is `o`, in their order. */
  function Matching(changes: seq<PackageChange>, o: Option<Slot>): (r: seq<PackageChange>)
    ensures |r| <= |changes|
    decreases |changes|
  {
    if changes == [] then []
    else
      var last := changes[|changes| - 1];
      Matching(changes[..|changes| - 1], o) + (if SlotOf(last) == o then [last] else [])
  }

  /** The groups of the changes. */
  function Grouped(changes: seq<PackageChange>): GroupedChanges
  {
    GroupedChanges(
      Matching(changes, Some(MajorSlot)), Matching(changes, Some(MinorSlot)),
      Matching(changes, Some(PatchSlot)), Matching(changes, Some(AddedSlot)),
      Matching(changes, Some(RemovedSlot)), Matching(changes, Some(DowngradedSlot)))
  }

  /** `groupByVersionChange`: one pass over the changes, appending each to its group. */
  method GroupByVersionChange(changes: seq<PackageChange>) returns (result: GroupedChanges)
    ensures result == Grouped(changes)
  {
    result := GroupedChanges([], [], [], [], [], []);
    for i := 0 to |changes|
      invariant result == Grouped(changes[..i])
    {
      var change := changes[i];
      assert changes[..i + 1][..i] == changes[..i];
      if change.kind == Upgraded && change.versionChange.Some? {
        if change.versionChange.value == Major {
          result := result.(major := result.major + [change]);
        } else if change.versionChange.value == Minor {
          result := result.(minor := result.minor + [change]);
        } else if change.versionChange.value == Patch {
          result := result.(patch := result.patch + [change]);
        }
      } else if change.kind == Downgraded {
        result := result.(downgraded := result.downgraded + [change]);
      } else if change.kind == Added {
        result := result.(added := result.added + [change]);
      } else if change.kind == Removed {
        result := result.(removed := result.removed + [change]);
      }
    }
    assert changes[..|changes|] == changes;
  }

  // ---------------------------------------------------------------------------
  // Properties

  /** Selecting from a concatenation selects from each part, keeping their order. */
  lemma {:induction false} MatchingAppend(xs: seq<PackageChange>, ys: seq<PackageChange>, o: Option<Slot>)
    ensures Matching(xs + ys, o) == Matching(xs, o) + Matching(ys, o)
    decreases |ys|
  {
    if ys == [] {
      assert xs + ys == xs;
    } else {
      var init, last := ys[..|ys| - 1], ys[|ys| - 1];
      assert (xs + ys)[..|xs + ys| - 1] == xs + init;
      assert (xs + ys)[|xs + ys| - 1] == last;
      MatchingAppend(xs, init, o);
    }
  }

  /** Each change occurs in the selection exactly as often as in the input when its slot is `o`, and never otherwise. */
  lemma {:induction false} MatchingCounts(changes: seq<PackageChange>, o: Option<Slot>, c: PackageChange)
    ensures multiset(Matching(changes, o))[c] == if SlotOf(c) == o then multiset(changes)[c] else 0
    decreases |changes|
  {
    if changes != [] {
      var init, last := changes[..|changes| - 1], changes[|changes| - 1];
      assert changes == init + [last];
      MatchingCounts(init, o, c);
    }
  }

  /** A change is in a group exactly when it is one of the changes and that group is its slot. */
  lemma GroupMembership(changes: seq<PackageChange>, s: Slot, c: PackageChange)
    ensures c in Group(Grouped(changes), s) <==> c in changes && SlotOf(c) == Some(s)
  {
    MatchingCounts(changes, Some(s), c);
  }

  /** Each group holds every change of its slot as often as the input does, and nothing else. */
  lemma GroupCounts(changes: seq<PackageChange>, s: Slot, c: PackageChange)
    ensures multiset(Group(Grouped(changes), s))[c]
      == if SlotOf(c) == Some(s) then multiset(changes)[c] else 0
  {
    MatchingCounts(changes, Some(s), c);
  }

  /** The groups of a concatenation are the groups of each part, one after the other. */
  lemma GroupedAppend(xs: seq<PackageChange>, ys: seq<PackageChange>, s: Slot)
    ensures Group(Grouped(xs + ys), s) == Group(Grouped(xs), s) + Group(Grouped(ys), s)
  {
    MatchingAppend(xs, ys, Some(s));
  }

  /** A change is in at most one group. */
  lemma AtMostOneGroup(changes: seq<PackageChange>, s: Slot, t: Slot, c: PackageChange)
    requires c in Group(Grouped(changes), s) && c in Group(Grouped(changes), t)
    ensures s == t
  {
    GroupMembership(changes, s, c);
    GroupMembership(changes, t, c);
  }

  /** The number of changes in all six groups. */
  function Total(g: GroupedChanges): nat
  {
    |g.major| + |g.minor| + |g.patch| + |g.added| + |g.removed| + |g.downgraded|
  }

  /**
   * The groups hold every change except the upgrades without a version
   * change: together with those, they account for each change once.
   */
  lemma {:induction false} TotalAccounts(changes: seq<PackageChange>)
    ensures Total(Grouped(changes)) + |Matching(changes, None)| == |changes|
    decreases |changes|
  {
    if changes != [] {
      TotalAccounts(changes[..|changes| - 1]);
    }
  }

  /** The upgrades without a version change are in no group. */
  lemma UnclassifiedUpgradeDropped(changes: seq<PackageChange>, c: PackageChange, s: Slot)
    requires c.kind == Upgraded && c.versionChange.None?
    ensures c !in Group(Grouped(changes), s)
  {
    GroupMembership(changes, s, c);
  }

  /** A report of a diff has an empty downgrade group: the diff never reports a downgrade. */
  lemma DiffHasNoDowngrades(source: seq<Package>, target: seq<Package>)
    ensures Grouped(Diff.Diff(source, target)).downgraded == []
  {
    var changes := Diff.Diff(source, target);
    Diff.DiffNeverDowngraded(source, target);
    var g := Grouped(changes).downgraded;
    if g != [] {
      GroupMembership(changes, DowngradedSlot, g[0]);
      assert false;
    }
  }

  /** When every change has a group, no change is left out. */
  lemma {:induction false} AllClassifiedNoneDropped(changes: seq<PackageChange>)
    requires forall c :: c in changes ==> SlotOf(c).Some?
    ensures Matching(changes, None) == []
    decreases |changes|
  {
    if changes != [] {
      var init := changes[..|changes| - 1];
      assert forall c :: c in init ==> c in changes;
      AllClassifiedNoneDropped(init);
      assert changes[|changes| - 1] in changes;
    }
  }

  /** Every change of a diff is in exactly one group: the groups together hold as many changes as the diff. */
  lemma DiffFullyGrouped(source: seq<Package>, target: seq<Package>)
    ensures Total(Grouped(Diff.Diff(source, target))) == |Diff.Diff(source, target)|
  {
    var changes := Diff.Diff(source, target);
    Diff.DiffUpgradesClassified(source, target);
    AllClassifiedNoneDropped(changes);
    TotalAccounts(changes);
  }
}
