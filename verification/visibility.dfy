/**
 * What the search box promises: a method row is shown when its lower-cased
 * name contains the lower-cased query, a class row when its own name or one
 * of its methods matches, a package row when something beneath it matches.
 *
 * The rule is stated twice, on purpose: once per node of the package index
 * (`ClassShown`, `PackageShown`, laid out in pre-order by `Flags`), and once
 * on the flat pre-order rows of the tree store (`ShownUpTo`, "the row
 * matches or a row below it does"), which is what a walk over the store can
 * maintain. `FlagsAgree` proves the two the same on every index.
 */
module Visibility {
  import opened Text
  import opened PackageIndex
  import opened TreeModel

  /** The search test: the lower-cased name contains the lower-cased query. */
  predicate MatchesName(name: string, query: string) {
    IndexOf(Lower(name), Lower(query)) > -1
  }

  /** A class or method row whose name matches; package names are never tested. */
  predicate Matches(node: Node, query: string) {
    !node.Package? && MatchesName(node.name, query)
  }

  /** The empty query matches every name. */
  lemma EmptyQueryMatches(name: string)
    ensures MatchesName(name, "")
  {
    assert Lower("") == "";
    IndexOfEmpty(Lower(name));
  }

  // ---------------------------------------------------------------------
  // The rule per node of the package index

  /** A class is shown iff its own name or the name of one of its methods matches. */
  predicate ClassShown(c: ClassEntry, query: string) {
    || MatchesName(c.name, query)
    || exists i :: 0 <= i < |c.methods| && MatchesName(c.methods[i], query)
  }

  /** A package is shown iff some class beneath it is. */
  predicate PackageShown(p: PackageEntry, query: string) {
    exists i :: 0 <= i < |p.classes| && ClassShown(p.classes[i], query)
  }

  /** The flags of a class's method rows. */
  function MethodFlags(methods: seq<string>, query: string): seq<bool> {
    seq(|methods|, i requires 0 <= i < |methods| => MatchesName(methods[i], query))
  }

  function ClassFlags(c: ClassEntry, query: string): (r: seq<bool>)
    ensures |r| == |FlatClass(c)|
  {
    [ClassShown(c, query)] + MethodFlags(c.methods, query)
  }

  function ClassesFlags(cs: seq<ClassEntry>, query: string): (r: seq<bool>)
    ensures |r| == |FlatClasses(cs)|
  {
    if cs == [] then []
    else ClassesFlags(cs[..|cs| - 1], query) + ClassFlags(cs[|cs| - 1], query)
  }

  function PackageFlags(p: PackageEntry, query: string): (r: seq<bool>)
    ensures |r| == |FlatPackage(p)|
  {
    [PackageShown(p, query)] + ClassesFlags(p.classes, query)
  }

  /** The visibility column a search should leave: one flag per row of `Flatten(t)`. */
  function Flags(t: seq<PackageEntry>, query: string): (r: seq<bool>)
    ensures |r| == |Flatten(t)|
  {
    if t == [] then []
    else Flags(t[..|t| - 1], query) + PackageFlags(t[|t| - 1], query)
  }

  // ---------------------------------------------------------------------
  // The rule on the flat pre-order rows

  /** Row `k` lies below row `j`: below a package up to the next package, below a class up to the next non-method. */
  ghost predicate Descendant(s: seq<Node>, j: int, k: int) {
    && 0 <= j < k < |s|
    && (|| (s[j].Package? && forall m :: j < m <= k ==> !s[m].Package?)
        || (s[j].Class? && forall m :: j < m <= k ==> s[m].Method?))
  }

  /** Row `j`, judged on the first `n` rows only: it matches, or a row below it among them matches. */
  ghost predicate ShownUpTo(s: seq<Node>, n: int, j: int, query: string)
    requires 0 <= j < n <= |s|
  {
    || Matches(s[j], query)
    || exists k :: j < k < n && Descendant(s, j, k) && Matches(s[k], query)
  }

  /** Row `j` is shown: it matches, or a row below it matches. */
  ghost predicate Shown(s: seq<Node>, j: int, query: string)
    requires 0 <= j < |s|
  {
    ShownUpTo(s, |s|, j, query)
  }

  /** Taking one more row into account changes only the rows it lies below. */
  lemma ExtendShown(s: seq<Node>, n: int, query: string)
    requires 0 <= n < |s|
    ensures forall j :: 0 <= j < n ==>
      (ShownUpTo(s, n + 1, j, query) <==>
        ShownUpTo(s, n, j, query) || (Descendant(s, j, n) && Matches(s[n], query)))
    ensures ShownUpTo(s, n + 1, n, query) == Matches(s[n], query)
  {
  }

  /**
   * The rows a class or method row lies below are exactly the rows a walk
   * remembers on reaching it: the last package row, and for a method row
   * also the last class row.
   */
  lemma RowsAbove(s: seq<Node>, n: int)
    requires WellFormed(s) && 0 <= n < |s| && !s[n].Package?
    ensures forall j :: 0 <= j < n ==>
      (Descendant(s, j, n) <==> j == LastPackage(s, n) || (s[n].Method? && j == LastClass(s, n)))
  {
    var p := LastPackage(s, n);
    forall j | 0 <= j < n
      ensures Descendant(s, j, n) <==> j == p || (s[n].Method? && j == LastClass(s, n))
    {
      if Descendant(s, j, n) {
        if s[j].Package? {
          assert s[p].Package? && s[j].Package?;
        } else {
          var c := LastClass(s, n);
          assert !s[c].Method? && !s[j].Method?;
        }
      }
      if j == p {
        assert Descendant(s, j, n);
      }
      if s[n].Method? && j == LastClass(s, n) {
        assert Descendant(s, j, n);
      }
    }
  }

  /** After a walk has treated the first `n` rows, each of them carries its flag judged on those rows. */
  ghost predicate SettledUpTo(s: seq<Node>, vis: seq<bool>, n: int, query: string)
    requires 0 <= n <= |s|
  {
    |vis| == |s| && forall j :: 0 <= j < n ==> vis[j] == ShownUpTo(s, n, j, query)
  }

  /**
   * What the search walk does with row `n`: a package row is hidden; a class
   * or method row gets its own test, and a matching one also shows the rows
   * it lies below.
   */
  ghost function WalkStep(s: seq<Node>, vis: seq<bool>, n: int, query: string): seq<bool>
    requires WellFormed(s) && 0 <= n < |s| == |vis|
  {
    match s[n]
    case Package(_) => vis[n := false]
    case Class(name) =>
      if MatchesName(name, query) then vis[n := true][LastPackage(s, n) := true] else vis[n := false]
    case Method(name) =>
      if MatchesName(name, query) then vis[n := true][LastClass(s, n) := true][LastPackage(s, n) := true]
      else vis[n := false]
  }

  /** One step of the walk keeps every treated row's flag right, the new row included. */
  lemma WalkStepSettles(s: seq<Node>, vis: seq<bool>, n: int, query: string)
    requires WellFormed(s) && 0 <= n < |s| && SettledUpTo(s, vis, n, query)
    ensures SettledUpTo(s, WalkStep(s, vis, n, query), n + 1, query)
  {
    ExtendShown(s, n, query);
    if s[n].Package? {
      forall j | 0 <= j < n ensures !Descendant(s, j, n) { }
    } else {
      RowsAbove(s, n);
    }
  }

  /** A row below `j` in `a + b` lies in `a` when `b` starts at a boundary for `j`. */
  lemma DescendantCut(a: seq<Node>, b: seq<Node>, j: int, k: int)
    requires 0 <= j < |a| && j < k < |a| + |b|
    requires b == [] || b[0].Package? || (b[0].Class? && !a[j].Package?)
    ensures Descendant(a + b, j, k) <==> k < |a| && Descendant(a, j, k)
  {
    var s := a + b;
    if b != [] {
      assert s[|a|] == b[0];
    }
    if k < |a| {
      assert forall m :: j <= m <= k ==> s[m] == a[m];
    }
  }

  /** Rows after a package boundary (or a class boundary, for a non-package row) do not matter. */
  lemma Cut(a: seq<Node>, b: seq<Node>, j: int, query: string)
    requires 0 <= j < |a|
    requires b == [] || b[0].Package? || (b[0].Class? && !a[j].Package?)
    ensures Shown(a + b, j, query) == Shown(a, j, query)
  {
    var s := a + b;
    assert s[j] == a[j];
    if Shown(s, j, query) && !Matches(s[j], query) {
      var k :| j < k < |s| && Descendant(s, j, k) && Matches(s[k], query);
      DescendantCut(a, b, j, k);
      assert s[k] == a[k];
    }
    if Shown(a, j, query) && !Matches(a[j], query) {
      var k :| j < k < |a| && Descendant(a, j, k) && Matches(a[k], query);
      DescendantCut(a, b, j, k);
      assert s[k] == a[k];
    }
  }

  lemma DescendantShift(a: seq<Node>, b: seq<Node>, j: int, k: int)
    requires 0 <= j < k < |b|
    ensures Descendant(a + b, |a| + j, |a| + k) <==> Descendant(b, j, k)
  {
    var s := a + b;
    assert forall m :: j <= m <= k ==> s[|a| + m] == b[m];
    if Descendant(b, j, k) {
      forall m | |a| + j < m <= |a| + k
        ensures (b[j].Package? ==> !s[m].Package?) && (b[j].Class? ==> s[m].Method?)
      {
        assert s[m] == b[m - |a|];
      }
    }
  }

  /** Rows before a block do not matter to the rows inside it. */
  lemma Shift(a: seq<Node>, b: seq<Node>, j: int, query: string)
    requires 0 <= j < |b|
    ensures Shown(a + b, |a| + j, query) == Shown(b, j, query)
  {
    var s := a + b;
    assert s[|a| + j] == b[j];
    if Shown(s, |a| + j, query) && !Matches(s[|a| + j], query) {
      var k :| |a| + j < k < |s| && Descendant(s, |a| + j, k) && Matches(s[k], query);
      DescendantShift(a, b, j, k - |a|);
      assert s[k] == b[k - |a|];
    }
    if Shown(b, j, query) && !Matches(b[j], query) {
      var k :| j < k < |b| && Descendant(b, j, k) && Matches(b[k], query);
      DescendantShift(a, b, j, k);
      assert s[|a| + k] == b[k];
    }
  }

  /** The class row of a class's block is shown iff the class is. */
  lemma ClassRowShown(c: ClassEntry, query: string)
    ensures Shown(FlatClass(c), 0, query) == ClassShown(c, query)
  {
    var s := FlatClass(c);
    if ClassShown(c, query) && !MatchesName(c.name, query) {
      var i :| 0 <= i < |c.methods| && MatchesName(c.methods[i], query);
      assert s[i + 1] == Method(c.methods[i]);
      assert Descendant(s, 0, i + 1) by {
        forall m | 0 < m <= i + 1 ensures s[m].Method? {
          assert s[m] == Method(c.methods[m - 1]);
        }
      }
      assert Matches(s[i + 1], query);
    }
    if Shown(s, 0, query) && !Matches(s[0], query) {
      var k :| 0 < k < |s| && Descendant(s, 0, k) && Matches(s[k], query);
      assert s[k] == Method(c.methods[k - 1]);
      assert MatchesName(c.methods[k - 1], query);
    }
  }

  /** A method row is shown iff its own name matches. */
  lemma MethodRowShown(s: seq<Node>, j: int, query: string)
    requires 0 <= j < |s| && s[j].Method?
    ensures Shown(s, j, query) == MatchesName(s[j].name, query)
  {
  }

  lemma ClassBlock(c: ClassEntry, query: string)
    ensures forall j :: 0 <= j < |FlatClass(c)| ==> Shown(FlatClass(c), j, query) == ClassFlags(c, query)[j]
  {
    var s := FlatClass(c);
    var f := ClassFlags(c, query);
    forall j | 0 <= j < |s| ensures Shown(s, j, query) == f[j] {
      if j == 0 {
        ClassRowShown(c, query);
      } else {
        assert s[j] == Method(c.methods[j - 1]);
        MethodRowShown(s, j, query);
      }
    }
  }

  lemma {:induction false} ClassesBlock(cs: seq<ClassEntry>, query: string)
    ensures forall j :: 0 <= j < |FlatClasses(cs)| ==>
      Shown(FlatClasses(cs), j, query) == ClassesFlags(cs, query)[j]
  {
    if cs != [] {
      var a := FlatClasses(cs[..|cs| - 1]);
      var b := FlatClass(cs[|cs| - 1]);
      ClassesBlock(cs[..|cs| - 1], query);
      ClassBlock(cs[|cs| - 1], query);
      forall j | 0 <= j < |a + b| ensures Shown(a + b, j, query) == ClassesFlags(cs, query)[j] {
        if j < |a| {
          Cut(a, b, j, query);
        } else {
          Shift(a, b, j - |a|, query);
        }
      }
    }
  }

  /** Some row of a class's block matches iff the class is shown. */
  lemma SomeClassRowMatches(c: ClassEntry, query: string)
    ensures (exists k :: 0 <= k < |FlatClass(c)| && Matches(FlatClass(c)[k], query)) <==> ClassShown(c, query)
  {
    var s := FlatClass(c);
    if exists k :: 0 <= k < |s| && Matches(s[k], query) {
      var k :| 0 <= k < |s| && Matches(s[k], query);
      if k > 0 {
        assert s[k] == Method(c.methods[k - 1]);
      }
    }
    if ClassShown(c, query) {
      if MatchesName(c.name, query) {
        assert Matches(s[0], query);
      } else {
        var i :| 0 <= i < |c.methods| && MatchesName(c.methods[i], query);
        assert s[i + 1] == Method(c.methods[i]);
      }
    }
  }

  /** Some row of a package's classes matches iff one of the classes is shown. */
  lemma {:induction false} SomeRowMatches(cs: seq<ClassEntry>, query: string)
    ensures (exists k :: 0 <= k < |FlatClasses(cs)| && Matches(FlatClasses(cs)[k], query))
        <==> (exists i :: 0 <= i < |cs| && ClassShown(cs[i], query))
  {
    if cs != [] {
      var init := cs[..|cs| - 1];
      var c := cs[|cs| - 1];
      assert FlatClasses(cs) == FlatClasses(init) + FlatClass(c);
      SomeRowMatches(init, query);
      SomeClassRowMatches(c, query);
      MatchInConcat(FlatClasses(init), FlatClass(c), query);
      ShownInSnoc(cs, init, query);
    }
  }

  /** A row of `a + b` matches iff a row of `a` or a row of `b` does. */
  lemma MatchInConcat(a: seq<Node>, b: seq<Node>, query: string)
    ensures (exists k :: 0 <= k < |a + b| && Matches((a + b)[k], query))
        <==> (exists k :: 0 <= k < |a| && Matches(a[k], query)) || (exists k :: 0 <= k < |b| && Matches(b[k], query))
  {
    var s := a + b;
    if exists k :: 0 <= k < |s| && Matches(s[k], query) {
      var k :| 0 <= k < |s| && Matches(s[k], query);
      if k < |a| {
        assert s[k] == a[k];
      } else {
        assert s[k] == b[k - |a|];
      }
    }
    if exists k :: 0 <= k < |a| && Matches(a[k], query) {
      var k :| 0 <= k < |a| && Matches(a[k], query);
      assert s[k] == a[k];
    }
    if exists k :: 0 <= k < |b| && Matches(b[k], query) {
      var k :| 0 <= k < |b| && Matches(b[k], query);
      assert s[|a| + k] == b[k];
    }
  }

  /** A class of `cs` is shown iff one before the last is, or the last is. */
  lemma ShownInSnoc(cs: seq<ClassEntry>, init: seq<ClassEntry>, query: string)
    requires cs != [] && init == cs[..|cs| - 1]
    ensures (exists i :: 0 <= i < |cs| && ClassShown(cs[i], query))
        <==> (exists i :: 0 <= i < |init| && ClassShown(init[i], query)) || ClassShown(cs[|cs| - 1], query)
  {
    if exists i :: 0 <= i < |cs| && ClassShown(cs[i], query) {
      var i :| 0 <= i < |cs| && ClassShown(cs[i], query);
      if i < |cs| - 1 {
        assert init[i] == cs[i];
      }
    }
    if exists i :: 0 <= i < |init| && ClassShown(init[i], query) {
      var i :| 0 <= i < |init| && ClassShown(init[i], query);
      assert init[i] == cs[i];
    }
  }

  lemma PackageBlock(p: PackageEntry, query: string)
    ensures forall j :: 0 <= j < |FlatPackage(p)| ==> Shown(FlatPackage(p), j, query) == PackageFlags(p, query)[j]
  {
    var a := [Package(p.key)];
    var b := FlatClasses(p.classes);
    var s := a + b;
    ClassesBlock(p.classes, query);
    SomeRowMatches(p.classes, query);
    forall j | 0 <= j < |s| ensures Shown(s, j, query) == PackageFlags(p, query)[j] {
      if j == 0 {
        if PackageShown(p, query) {
          var k :| 0 <= k < |b| && Matches(b[k], query);
          assert s[k + 1] == b[k];
          assert Descendant(s, 0, k + 1);
        }
        if Shown(s, 0, query) {
          var k :| 0 < k < |s| && Descendant(s, 0, k) && Matches(s[k], query);
          assert s[k] == b[k - 1];
        }
      } else {
        Shift(a, b, j - 1, query);
      }
    }
  }

  /** The flat rule on the rows of an index is the per-node rule, row by row. */
  lemma {:induction false} FlagsAgree(t: seq<PackageEntry>, query: string)
    ensures forall j :: 0 <= j < |Flatten(t)| ==> Flags(t, query)[j] == Shown(Flatten(t), j, query)
  {
    if t != [] {
      var a := Flatten(t[..|t| - 1]);
      var b := FlatPackage(t[|t| - 1]);
      FlagsAgree(t[..|t| - 1], query);
      PackageBlock(t[|t| - 1], query);
      forall j | 0 <= j < |a + b| ensures Flags(t, query)[j] == Shown(a + b, j, query) {
        if j < |a| {
          Cut(a, b, j, query);
        } else {
          Shift(a, b, j - |a|, query);
        }
      }
    }
  }

  // ---------------------------------------------------------------------
  // Consequences

  /** A shown class or method row never sits under a hidden parent row. */
  lemma NoShownRowUnderHiddenParent(s: seq<Node>, j: int, query: string)
    requires WellFormed(s) && 0 <= j < |s| && !s[j].Package?
    requires Shown(s, j, query)
    ensures Shown(s, Parent(s, j), query)
  {
    var p := Parent(s, j);
    if s[j].Class? {
      if Matches(s[j], query) {
        assert Descendant(s, p, j);
      } else {
        var k :| j < k < |s| && Descendant(s, j, k) && Matches(s[k], query);
        assert Descendant(s, p, k);
      }
    } else {
      assert Descendant(s, p, j);
    }
  }

  lemma {:induction false} FlagsAllSet(t: seq<PackageEntry>)
    requires forall i :: 0 <= i < |t| ==> t[i].classes != []
    ensures forall j :: 0 <= j < |Flags(t, "")| ==> Flags(t, "")[j]
  {
    if t != [] {
      var init := t[..|t| - 1];
      var p := t[|t| - 1];
      FlagsAllSet(init);
      assert ClassShown(p.classes[0], "") by {
        EmptyQueryMatches(p.classes[0].name);
      }
      ClassesFlagsAllSet(p.classes);
    }
  }

  lemma {:induction false} ClassesFlagsAllSet(cs: seq<ClassEntry>)
    ensures forall j :: 0 <= j < |ClassesFlags(cs, "")| ==> ClassesFlags(cs, "")[j]
  {
    if cs != [] {
      var c := cs[|cs| - 1];
      ClassesFlagsAllSet(cs[..|cs| - 1]);
      EmptyQueryMatches(c.name);
      forall i | 0 <= i < |c.methods| ensures MatchesName(c.methods[i], "") {
        EmptyQueryMatches(c.methods[i]);
      }
    }
  }

  /** The empty query shows every row of an index. */
  lemma EmptyQueryShowsAll(t: seq<PackageEntry>, cs: seq<ClassEntry>)
    requires IsIndexOf(t, cs)
    ensures forall j :: 0 <= j < |Flags(t, "")| ==> Flags(t, "")[j]
  {
    forall i | 0 <= i < |t| ensures t[i].classes != [] {
      PackagesNonEmpty(t, cs, i);
    }
    FlagsAllSet(t);
  }
}
