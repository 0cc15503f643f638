/**
 * The two-column tree store behind the class tree view. Column 0 holds the
 * node's entity (a package, a class or a method), column 1 its visibility.
 * Rows are kept in pre-order, which is the order `Foreach` visits them in:
 * a package row is followed by its classes, each class row by its methods.
 */
module TreeModel {
  import opened Wrappers
  import opened PackageIndex

  /** The entity in column 0 of a row. */
  datatype Node = Package(name: string) | Class(name: string) | Method(name: string)

  /**
   * The pre-order rows of a package / class / method forest: a class row
   * never comes first (it has a package above it), and a method row comes
   * right after its class row or after a sibling method row.
   */
  ghost predicate WellFormed(s: seq<Node>) {
    forall i :: 0 <= i < |s| ==> RowFits(s, i)
  }

  /** Row `i` has the row it needs above it. */
  ghost predicate RowFits(s: seq<Node>, i: int)
    requires 0 <= i < |s|
  {
    && (s[i].Class? ==> 0 < i)
    && (s[i].Method? ==> 0 < i && !s[i - 1].Package?)
  }

  /** What well-formedness says about one row. */
  lemma WellFormedAt(s: seq<Node>, i: int)
    requires WellFormed(s) && 0 <= i < |s| && !s[i].Package?
    ensures 0 < i
    ensures s[i].Method? ==> !s[i - 1].Package?
  {
    assert RowFits(s, i);
  }

  /** A row that may follow the store's last row keeps it well formed. */
  lemma WellFormedSnoc(s: seq<Node>, value: Node)
    requires WellFormed(s)
    requires value.Class? ==> s != []
    requires value.Method? ==> s != [] && !s[|s| - 1].Package?
    ensures WellFormed(s + [value])
  {
    var s' := s + [value];
    forall i | 0 <= i < |s'| ensures RowFits(s', i) {
      if i < |s| {
        assert RowFits(s, i);
        assert s'[i] == s[i];
        if s[i].Method? {
          assert s'[i - 1] == s[i - 1];
        }
      }
    }
  }

  /** Row `p` is the parent of row `j`: the package above a class, the class above a method. */
  ghost predicate IsParent(s: seq<Node>, p: int, j: int) {
    && 0 <= p < j < |s|
    && (s[j].Class? ==> s[p].Package? && forall m :: p < m < j ==> !s[m].Package?)
    && (s[j].Method? ==> s[p].Class? && forall m :: p < m < j ==> s[m].Method?)
    && !s[j].Package?
  }

  /** The last package row at or before row `i`. */
  function LastPackage(s: seq<Node>, i: nat): (p: nat)
    requires WellFormed(s) && i < |s|
    ensures p <= i && s[p].Package?
    ensures forall m :: p < m <= i ==> !s[m].Package?
  {
    if s[i].Package? then i
    else
      WellFormedAt(s, i);
      LastPackage(s, i - 1)
  }

  /** The last class row at or before the class or method row `i`. */
  function LastClass(s: seq<Node>, i: nat): (p: nat)
    requires WellFormed(s) && i < |s| && !s[i].Package?
    ensures p <= i && s[p].Class?
    ensures forall m :: p < m <= i ==> s[m].Method?
  {
    if s[i].Class? then i
    else
      WellFormedAt(s, i);
      LastClass(s, i - 1)
  }

  /** `IterParent` on a class or method row. */
  function Parent(s: seq<Node>, j: nat): (p: nat)
    requires WellFormed(s) && j < |s| && !s[j].Package?
    ensures IsParent(s, p, j)
    ensures forall p' :: IsParent(s, p', j) ==> p' == p
  {
    WellFormedAt(s, j);
    if s[j].Class? then LastPackage(s, j - 1) else LastClass(s, j - 1)
  }

  /** Rows appended after row `j` do not change its parent. */
  lemma ParentInPrefix(a: seq<Node>, b: seq<Node>, j: nat)
    requires WellFormed(a) && WellFormed(a + b) && j < |a| && !a[j].Package?
    ensures Parent(a + b, j) == Parent(a, j)
  {
    var s := a + b;
    var q := Parent(a, j);
    assert IsParent(s, q, j) by {
      forall m | q <= m <= j ensures s[m] == a[m] { }
    }
  }

  /** The method rows of a class, in `GetMethods()` order. */
  function MethodRows(methods: seq<string>): seq<Node> {
    seq(|methods|, i requires 0 <= i < |methods| => Method(methods[i]))
  }

  /** The rows of one class: the class row, then its method rows. */
  function FlatClass(c: ClassEntry): seq<Node> {
    [Class(c.name)] + MethodRows(c.methods)
  }

  /** The rows of a package's classes, class after class. */
  function FlatClasses(cs: seq<ClassEntry>): (r: seq<Node>)
    ensures r != [] ==> r[0].Class?
    ensures forall i :: 0 <= i < |r| ==> !r[i].Package?
    ensures forall i :: 0 <= i < |r| && r[i].Method? ==> 0 < i
  {
    if cs == [] then [] else FlatClasses(cs[..|cs| - 1]) + FlatClass(cs[|cs| - 1])
  }

  /** The rows of one package: the package row, then the rows of its classes. */
  function FlatPackage(p: PackageEntry): seq<Node> {
    [Package(p.key)] + FlatClasses(p.classes)
  }

  /** The rows of a whole package index, in pre-order. */
  function Flatten(t: seq<PackageEntry>): (r: seq<Node>)
    ensures WellFormed(r)
    ensures r != [] ==> r[0].Package?
  {
    if t == [] then []
    else
      var init := Flatten(t[..|t| - 1]);
      var block := FlatPackage(t[|t| - 1]);
      PackageRowsWellFormed(t[|t| - 1]);
      ConcatWellFormed(init, block);
      init + block
  }

  /** The rows of one package are well formed and start with its package row. */
  lemma PackageRowsWellFormed(p: PackageEntry)
    ensures WellFormed(FlatPackage(p)) && FlatPackage(p)[0].Package?
  {
    var b := FlatPackage(p);
    var f := FlatClasses(p.classes);
    forall i | 0 <= i < |b| ensures RowFits(b, i) {
      if i > 0 {
        assert b[i] == f[i - 1];
        if b[i].Method? {
          assert b[i - 1] == f[i - 2];
        }
      }
    }
  }

  /** Well-formed rows followed by well-formed rows starting at a package row are well formed. */
  lemma ConcatWellFormed(a: seq<Node>, b: seq<Node>)
    requires WellFormed(a) && WellFormed(b) && b != [] && b[0].Package?
    ensures WellFormed(a + b)
  {
    var s := a + b;
    forall i | 0 <= i < |s| ensures RowFits(s, i) {
      if i < |a| {
        assert RowFits(a, i) && s[i] == a[i];
        if a[i].Method? {
          assert s[i - 1] == a[i - 1];
        }
      } else {
        var k := i - |a|;
        assert RowFits(b, k) && s[i] == b[k];
        if b[k].Method? {
          assert s[i - 1] == b[k - 1];
        }
      }
    }
  }

  lemma FlattenSnoc(t: seq<PackageEntry>, p: PackageEntry)
    ensures Flatten(t + [p]) == Flatten(t) + FlatPackage(p)
  {
    assert (t + [p])[..|t|] == t;
  }

  lemma FlatClassesSnoc(cs: seq<ClassEntry>, c: ClassEntry)
    ensures FlatClasses(cs + [c]) == FlatClasses(cs) + FlatClass(c)
  {
    assert (cs + [c])[..|cs|] == cs;
  }

  /** Appending `value` at the end keeps the rows a pre-order forest. */
  ghost predicate CanAppend(s: seq<Node>, value: Node) {
    && (value.Class? ==> s != [])
    && (value.Method? ==> s != [] && !s[|s| - 1].Package?)
  }

  /**
   * A GTK tree store restricted to the two columns the class tree uses.
   * Rows are only ever appended as the last child of the newest package or
   * class (or as a new last root), so they stay in pre-order.
   */
  class TreeStore {
    var rows: seq<Node>
    var visible: seq<bool>

    ghost predicate Valid()
      reads this
    {
      |visible| == |rows| && WellFormed(rows)
    }

    constructor ()
      ensures Valid() && rows == [] && visible == []
    {
      rows := [];
      visible := [];
    }

    /**
     * `AppendValues([parent,] value, isVisible)`: a new root when `parent` is
     * absent, otherwise a new last child of `parent`, which must be the row
     * the new one hangs under at the end of the store.
     */
    method AppendValues(parent: Option<nat>, value: Node, isVisible: bool)
      requires Valid()
      requires parent.None? <==> value.Package?
      requires CanAppend(rows, value)
      requires parent.Some? ==> IsParent(rows + [value], parent.value, |rows|)
      modifies this
      ensures Valid()
      ensures rows == old(rows) + [value]
      ensures visible == old(visible) + [isVisible]
    {
      WellFormedSnoc(rows, value);
      rows := rows + [value];
      visible := visible + [isVisible];
    }

    /** `SetValue(iter, 1, isVisible)`: sets the visibility column of one row. */
    method SetValue(i: nat, isVisible: bool)
      requires Valid() && i < |rows|
      modifies this`visible
      ensures Valid()
      ensures visible == old(visible)[i := isVisible]
    {
      visible := visible[i := isVisible];
    }
  }
}
