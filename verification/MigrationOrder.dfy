/** Migration file names: their versions, the uniqueness check and the order of application. */
module MigrationOrder {
  import opened Text
  import opened Ordering

  const MAX_U32: nat := 0xffff_ffff

  function Digits(s: string): Option<nat> {
    if s == "" then Some(0)
    else
      var front, last := Digits(s[..|s| - 1]), s[|s| - 1];
      if front.None? || !('0' <= last <= '9') then None
      else Some(front.value * 10 + (last as int - '0' as int))
  }

  /** `str::parse::<u32>`: an optional plus sign, at least one digit, no overflow. */
  function ParseU32(s: string): Option<nat> {
    var digits := if s != "" && s[0] == '+' then s[1..] else s;
    var n := Digits(digits);
    if digits == "" || n.None? || n.value > MAX_U32 then None else n
  }

  /** The number between `V` and the first underscore. */
  function Version(name: string): Option<nat> {
    var parts := Split(name, '_');
    if |parts| < 2 || parts[0] == "" || parts[0][0] != 'V' then None else ParseU32(parts[0][1..])
  }

  predicate AllVersioned(names: seq<string>) {
    forall i :: 0 <= i < |names| ==> Version(names[i]).Some?
  }

  /** Every name has a version and no two names share one. */
  predicate UniqueVersions(names: seq<string>) {
    && AllVersioned(names)
    && forall i, j :: 0 <= i < j < |names| ==> Version(names[i]) != Version(names[j])
  }

  datatype NamesError = InvalidName(name: string) | DuplicateVersions(versions: set<nat>)

  /** Two of the names have version `v`. */
  ghost predicate Shared(names: seq<string>, v: nat) {
    exists i, j :: 0 <= i < j < |names| && Version(names[i]) == Version(names[j]) == Some(v)
  }

  /** The names with version `v`, in order. */
  function Sharing(names: seq<string>, v: nat): seq<string> {
    if names == [] then []
    else Sharing(names[..|names| - 1], v)
         + if Version(names[|names| - 1]) == Some(v) then [names[|names| - 1]] else []
  }

  lemma SharingAppends(names: seq<string>, name: string, v: nat)
    ensures Sharing(names + [name], v) == Sharing(names, v) + if Version(name) == Some(v) then [name] else []
  {
  }

  /** The names with version `v` are filed under it, in order. */
  ghost predicate Filed(versions: map<nat, seq<string>>, names: seq<string>, v: nat) {
    (v in versions <==> Sharing(names, v) != []) && (v in versions ==> versions[v] == Sharing(names, v))
  }

  lemma OneMoreName(
    versions: map<nat, seq<string>>, more: map<nat, seq<string>>, names: seq<string>, name: string, v: nat)
    requires forall w :: Filed(versions, names, w)
    requires Version(name) == Some(v) && more == versions[v := (if v in versions then versions[v] else []) + [name]]
    ensures forall w :: Filed(more, names + [name], w)
  {
    var all := names + [name];
    forall w
      ensures Filed(more, all, w)
    {
      SharingAppends(names, name, w);
      assert Filed(versions, names, w);
      assert Sharing(all, w) == if w == v then Sharing(names, w) + [name] else Sharing(names, w);
    }
  }

  /** Files by version, up to the first name without one. */
  method GroupByVersion(names: seq<string>) returns (r: Result<map<nat, seq<string>>, NamesError>)
    ensures r.Ok? ==> AllVersioned(names) && forall v :: Filed(r.value, names, v)
    ensures r.Err? ==> r.error.InvalidName? && r.error.name in names && Version(r.error.name).None?
  {
    var versions: map<nat, seq<string>> := map[];
    for i := 0 to |names|
      invariant AllVersioned(names[..i])
      invariant forall w :: Filed(versions, names[..i], w)
    {
      var version := Version(names[i]);
      if version.None? {
        return Err(InvalidName(names[i]));
      }
      var v := version.value;
      assert names[..i + 1] == names[..i] + [names[i]];
      var more := versions[v := (if v in versions then versions[v] else []) + [names[i]]];
      OneMoreName(versions, more, names[..i], names[i], v);
      versions := more;
    }
    assert names[..|names|] == names;
    r := Ok(versions);
  }

  ghost predicate Has(names: seq<string>, v: nat) {
    exists i :: 0 <= i < |names| && Version(names[i]) == Some(v)
  }

  lemma SharedByLast(names: seq<string>, v: nat)
    requires names != []
    ensures var last := |names| - 1;
            Shared(names, v) <==>
              || Shared(names[..last], v)
              || (Version(names[last]) == Some(v) && Has(names[..last], v))
  {
  }

  lemma HasLast(names: seq<string>, name: string, v: nat)
    ensures Has(names + [name], v) <==> Has(names, v) || Version(name) == Some(v)
  {
    var all := names + [name];
    assert all[|names|] == name;
    if i :| 0 <= i < |names| && Version(names[i]) == Some(v) {
      assert all[i] == names[i];
    }
  }

  lemma {:induction false} SharedOnce(names: seq<string>, v: nat)
    ensures Sharing(names, v) != [] <==> Has(names, v)
    decreases |names|
  {
    if names != [] {
      var front, last := names[..|names| - 1], names[|names| - 1];
      assert names == front + [last];
      SharedOnce(front, v);
      HasLast(front, last, v);
      SharingAppends(front, last, v);
    }
  }

  lemma {:induction false} SharedTwice(names: seq<string>, v: nat)
    ensures |Sharing(names, v)| > 1 <==> Shared(names, v)
    decreases |names|
  {
    if names != [] {
      SharedTwice(names[..|names| - 1], v);
      SharedOnce(names[..|names| - 1], v);
      SharedByLast(names, v);
    }
  }

  lemma UniqueMeansNoneShared(names: seq<string>)
    requires AllVersioned(names)
    ensures UniqueVersions(names) <==> forall v :: !Shared(names, v)
  {
    if forall v :: !Shared(names, v) {
      forall i, j | 0 <= i < j < |names|
        ensures Version(names[i]) != Version(names[j])
      {
        assert !Shared(names, Version(names[i]).value);
      }
    }
  }

  method EnsureUniqueMigrationVersions(names: seq<string>) returns (r: Result<(), NamesError>)
    ensures r.Ok? <==> UniqueVersions(names)
    ensures r.Err? && r.error.InvalidName? ==> r.error.name in names && Version(r.error.name).None?
    ensures r.Err? && r.error.DuplicateVersions? ==> forall v :: v in r.error.versions <==> Shared(names, v)
  {
    var grouped := GroupByVersion(names);
    if grouped.Err? {
      return Err(grouped.error);
    }
    var versions := grouped.value;
    var duplicates := set v | v in versions && |versions[v]| > 1;
    forall v
      ensures v in duplicates <==> Shared(names, v)
    {
      SharedTwice(names, v);
      assert Filed(versions, names, v);
    }
    UniqueMeansNoneShared(names);
    if duplicates != {} {
      var v :| v in duplicates;
      return Err(DuplicateVersions(duplicates));
    }
    r := Ok(());
  }

  // ----- The order -----

  /** `migration_sort_key`, with the fallback of the sort for a name without a version. */
  predicate NameLeq(a: string, b: string) {
    var v := if Version(a).Some? then Version(a).value else 0;
    var w := if Version(b).Some? then Version(b).value else 0;
    v < w || (v == w && TextLeq(a, b))
  }

  lemma NameLeqIsTotal()
    ensures TotalPreorder(NameLeq)
  {
    forall a, b
      ensures NameLeq(a, b) || NameLeq(b, a)
    {
      TextLeqTotal(a, b);
    }
    forall a, b, c
      ensures NameLeq(a, b) && NameLeq(b, c) ==> NameLeq(a, c)
    {
      TextLeqTransitive(a, b, c);
    }
  }

  /** The order in which a directory listing is applied. */
  function Plan(listing: seq<string>): seq<string> {
    Sort(listing, NameLeq)
  }

  predicate Increasing(plan: seq<string>) {
    && AllVersioned(plan)
    && forall i, j :: 0 <= i < j < |plan| ==> Version(plan[i]).value < Version(plan[j]).value
  }

  lemma {:induction false} UniqueIsPerVersion(names: seq<string>)
    requires UniqueVersions(names)
    ensures forall x :: multiset(names)[x] <= 1
    ensures forall x, y :: x in names && y in names && Version(x) == Version(y) ==> x == y
    ensures forall x :: x in names ==> Version(x).Some?
    decreases |names|
  {
    if names != [] {
      var tail := names[1..];
      forall i, j | 0 <= i < j < |tail|
        ensures Version(tail[i]) != Version(tail[j])
      {
        assert names[i + 1] == tail[i] && names[j + 1] == tail[j];
      }
      UniqueIsPerVersion(tail);
      assert names == [names[0]] + tail;
      forall k | 0 <= k < |tail|
        ensures Version(names[0]) != Version(tail[k])
      {
        assert tail[k] == names[k + 1];
      }
    }
  }

  lemma RepeatCounts(xs: seq<string>, i: nat, j: nat)
    requires i < j < |xs| && xs[i] == xs[j]
    ensures multiset(xs)[xs[i]] >= 2
  {
    assert xs == xs[..j] + [xs[j]] + xs[j + 1..];
    assert xs[i] == xs[..j][i] && xs[i] in xs[..j];
  }

  /** With unique versions the plan runs through the files by strictly increasing version. */
  lemma PlanIncreases(listing: seq<string>)
    requires UniqueVersions(listing)
    ensures Increasing(Plan(listing)) && multiset(Plan(listing)) == multiset(listing)
  {
    var plan := Plan(listing);
    NameLeqIsTotal();
    SortSorts(listing, NameLeq);
    SortKeeps(listing, NameLeq);
    SameElements(plan, listing);
    UniqueIsPerVersion(listing);
    forall i, j | 0 <= i < j < |plan|
      ensures Version(plan[i]).value < Version(plan[j]).value
    {
      assert NameLeq(plan[i], plan[j]);
      if plan[i] == plan[j] {
        RepeatCounts(plan, i, j);
      }
    }
  }

  lemma IncreasingTail(p: seq<string>)
    requires Increasing(p) && p != []
    ensures Increasing(p[1..]) && multiset(p[1..]) == multiset(p) - multiset{p[0]}
  {
    assert p == [p[0]] + p[1..];
  }

  lemma SameLeast(p: seq<string>, q: seq<string>)
    requires Increasing(p) && Increasing(q) && p != [] && q != [] && forall x :: x in p <==> x in q
    ensures p[0] == q[0]
  {
    assert p[0] in q && q[0] in p;
    var i :| 0 <= i < |q| && q[i] == p[0];
    var j :| 0 <= j < |p| && p[j] == q[0];
  }

  lemma {:induction false} IncreasingIsCanonical(p: seq<string>, q: seq<string>)
    requires Increasing(p) && Increasing(q) && multiset(p) == multiset(q)
    ensures p == q
    decreases |p|
  {
    SameElements(p, q);
    if p != [] {
      SameLeast(p, q);
      IncreasingTail(p);
      IncreasingTail(q);
      IncreasingIsCanonical(p[1..], q[1..]);
      assert p == [p[0]] + p[1..] && q == [q[0]] + q[1..];
    }
  }

  lemma UniqueUnderReordering(listing: seq<string>, other: seq<string>)
    requires UniqueVersions(listing) && multiset(listing) == multiset(other)
    ensures UniqueVersions(other)
  {
    SameElements(listing, other);
    UniqueIsPerVersion(listing);
    forall i, j | 0 <= i < j < |other|
      ensures Version(other[i]) != Version(other[j])
    {
      if other[i] == other[j] {
        RepeatCounts(other, i, j);
      }
    }
  }

  /** The plan does not depend on the order in which the directory was listed. */
  lemma PlanIsCanonical(listing: seq<string>, other: seq<string>)
    requires UniqueVersions(listing) && multiset(listing) == multiset(other)
    ensures Plan(listing) == Plan(other)
  {
    PlanIncreases(listing);
    UniqueUnderReordering(listing, other);
    PlanIncreases(other);
    IncreasingIsCanonical(Plan(listing), Plan(other));
  }
}
