/**
 * The main window's logic, apart from its widgets: building the class tree
 * from a loaded container, filtering it with the search box, labelling its
 * rows, and rendering and highlighting the selected class or method.
 */
module Window {
  import opened Wrappers
  import opened Text
  import opened Ordinal
  import opened PackageIndex
  import opened TreeModel
  import opened Visibility
  import opened Highlight

  // ---------------------------------------------------------------------
  // Row labels

  /**
   * The text the tree shows for row `i`: a package's name, a method's name,
   * and for a class its name with "<parent package name>." removed.
   */
  function CellText(rows: seq<Node>, i: nat): string
    requires WellFormed(rows) && i < |rows|
  {
    match rows[i]
    case Package(name) => name
    case Class(name) => ReplaceAll(name, rows[Parent(rows, i)].name + ".", "")
    case Method(name) => name
  }

  /** Every class of an index sits under the package of its own key. */
  ghost predicate Keyed(t: seq<PackageEntry>) {
    forall i, c :: 0 <= i < |t| && c in t[i].classes ==> PackageKey(c.name) == t[i].key
  }

  lemma IndexIsKeyed(t: seq<PackageEntry>, cs: seq<ClassEntry>)
    requires IsIndexOf(t, cs)
    ensures Keyed(t)
  {
    forall i | 0 <= i < |t| ensures forall c :: c in t[i].classes ==> PackageKey(c.name) == t[i].key {
      FilterSpec(cs, t[i].key);
    }
  }

  /** A class row of a package's rows carries the name of one of its classes. */
  lemma {:induction false} ClassRowOf(cs: seq<ClassEntry>, j: int)
    requires 0 <= j < |FlatClasses(cs)| && FlatClasses(cs)[j].Class?
    ensures exists c :: c in cs && c.name == FlatClasses(cs)[j].name
  {
    var init := cs[..|cs| - 1];
    var last := cs[|cs| - 1];
    var a := FlatClasses(init);
    if j < |a| {
      assert FlatClasses(cs)[j] == a[j];
      ClassRowOf(init, j);
      var c :| c in init && c.name == a[j].name;
      assert c in cs;
    } else {
      var b := FlatClass(last);
      assert FlatClasses(cs)[j] == b[j - |a|];
      assert j - |a| == 0;
      assert last in cs;
    }
  }

  /** The parent of a class row in the rows of a keyed index is the package of the class's key. */
  lemma {:induction false} ClassRowParent(t: seq<PackageEntry>, j: int)
    requires Keyed(t) && 0 <= j < |Flatten(t)| && Flatten(t)[j].Class?
    ensures Flatten(t)[Parent(Flatten(t), j)] == Package(PackageKey(Flatten(t)[j].name))
  {
    var init := t[..|t| - 1];
    var p := t[|t| - 1];
    var a := Flatten(init);
    var s := Flatten(t);
    assert s == a + FlatPackage(p);
    if j < |a| {
      assert s[j] == a[j];
      KeyedInit(t);
      ClassRowParent(init, j);
      ParentInPrefix(a, FlatPackage(p), j);
      assert s[Parent(a, j)] == a[Parent(a, j)];
    } else {
      ClassRowInLastPackage(a, p, j);
    }
  }

  /** Dropping the last package of a keyed index leaves it keyed. */
  lemma KeyedInit(t: seq<PackageEntry>)
    requires Keyed(t) && t != []
    ensures Keyed(t[..|t| - 1])
  {
    var init := t[..|t| - 1];
    forall i, c | 0 <= i < |init| && c in init[i].classes ensures PackageKey(c.name) == init[i].key {
      assert init[i] == t[i];
    }
  }

  /** A class row in the last package's rows hangs under that package's row, which carries its key. */
  lemma ClassRowInLastPackage(a: seq<Node>, p: PackageEntry, j: int)
    requires WellFormed(a + FlatPackage(p)) && |a| <= j < |a + FlatPackage(p)| && (a + FlatPackage(p))[j].Class?
    requires forall c :: c in p.classes ==> PackageKey(c.name) == p.key
    ensures (a + FlatPackage(p))[Parent(a + FlatPackage(p), j)] == Package(PackageKey((a + FlatPackage(p))[j].name))
  {
    var s := a + FlatPackage(p);
    var k := j - |a| - 1;
    var f := FlatClasses(p.classes);
    assert s[|a|] == Package(p.key);
    assert 0 <= k < |f| && s[j] == f[k];
    assert IsParent(s, |a|, j) by {
      forall m | |a| < m < j ensures !s[m].Package? {
        assert s[m] == f[m - |a| - 1];
      }
    }
    ClassRowOf(p.classes, k);
  }

  /**
   * In the tree built from a container, a class row is labelled with the
   * text after the last dot of its name (the whole name when it has none).
   */
  lemma ClassLabel(t: seq<PackageEntry>, cs: seq<ClassEntry>, j: nat)
    requires IsIndexOf(t, cs) && j < |Flatten(t)| && Flatten(t)[j].Class?
    ensures CellText(Flatten(t), j) == AfterLastDot(Flatten(t)[j].name)
  {
    IndexIsKeyed(t, cs);
    ClassRowParent(t, j);
    ClassLabelIsAfterLastDot(Flatten(t)[j].name);
  }

  // ---------------------------------------------------------------------
  // Building the tree: helper facts about the rows appended so far

  /** A new class row hangs under the package row that starts the current package's rows. */
  lemma ClassAppendsUnderPackage(prefix: seq<Node>, key: string, done: seq<Node>, value: Node)
    requires forall i :: 0 <= i < |done| ==> !done[i].Package?
    requires value.Class?
    ensures IsParent(prefix + [Package(key)] + done + [value], |prefix|, |prefix + [Package(key)] + done|)
  {
    var s := prefix + [Package(key)] + done + [value];
    forall m | |prefix| < m < |s| - 1 ensures !s[m].Package? {
      assert s[m] == done[m - |prefix| - 1];
    }
  }

  /** A new method row hangs under the class row that starts the current class's rows. */
  lemma MethodAppendsUnderClass(prefix: seq<Node>, name: string, methods: seq<string>, value: Node)
    requires value.Method?
    ensures IsParent(prefix + [Class(name)] + MethodRows(methods) + [value], |prefix|,
      |prefix + [Class(name)] + MethodRows(methods)|)
  {
    var s := prefix + [Class(name)] + MethodRows(methods) + [value];
    forall m | |prefix| < m < |s| - 1 ensures s[m].Method? {
      assert s[m] == MethodRows(methods)[m - |prefix| - 1];
    }
  }

  /** `packages` groups the first `n` classes by package key, in container order. */
  ghost predicate GroupedUpTo(packages: map<string, seq<ClassEntry>>, cs: seq<ClassEntry>, n: int)
    requires 0 <= n <= |cs|
  {
    && packages.Keys == KeysOf(cs[..n])
    && forall k :: k in packages ==> packages[k] == Filter(cs[..n], k)
  }

  /** Adding class `n` to the list of its key groups the first `n + 1` classes. */
  lemma GroupStep(packages: map<string, seq<ClassEntry>>, cs: seq<ClassEntry>, n: int)
    requires 0 <= n < |cs| && GroupedUpTo(packages, cs, n)
    ensures var key := PackageKey(cs[n].name);
      GroupedUpTo(packages[key := (if key in packages then packages[key] else []) + [cs[n]]], cs, n + 1)
  {
    var c := cs[n];
    var key := PackageKey(c.name);
    var updated := packages[key := (if key in packages then packages[key] else []) + [c]];
    var a, b := cs[..n], cs[..n + 1];
    assert b == a + [c];
    KeysSnoc(a, c);
    forall k | k in updated ensures updated[k] == Filter(b, k) {
      FilterSnoc(a, c, k);
      if k == key && key !in packages {
        FilterAbsent(a, key);
      }
    }
  }

  lemma KeysSnoc(a: seq<ClassEntry>, c: ClassEntry)
    ensures KeysOf(a + [c]) == KeysOf(a) + {PackageKey(c.name)}
  {
    var b := a + [c];
    forall k | k in KeysOf(b) ensures k in KeysOf(a) + {PackageKey(c.name)} {
      var d :| d in b && PackageKey(d.name) == k;
      if d != c {
        assert d in a;
      }
    }
    assert c in b;
    forall k | k in KeysOf(a) ensures k in KeysOf(b) {
      var d :| d in a && PackageKey(d.name) == k;
      assert d in b;
    }
  }

  lemma FilterSnoc(a: seq<ClassEntry>, c: ClassEntry, k: string)
    ensures Filter(a + [c], k) == Filter(a, k) + (if PackageKey(c.name) == k then [c] else [])
  {
    assert (a + [c])[..|a|] == a;
  }

  /** A key no class has groups no class. */
  lemma FilterAbsent(cs: seq<ClassEntry>, k: string)
    requires k !in KeysOf(cs)
    ensures Filter(cs, k) == []
  {
  }

  // ---------------------------------------------------------------------
  // The two halves of `PopulateClasses`

  /**
   * The grouping loop: each class, in container order, is added to the list
   * of its package key, the list being created on the key's first class.
   */
  method GroupByPackage(classes: seq<ClassEntry>) returns (packages: map<string, seq<ClassEntry>>)
    ensures packages.Keys == KeysOf(classes)
    ensures forall k :: k in packages ==> packages[k] == Filter(classes, k)
  {
    packages := map[];
    var n := 0;
    assert classes[..0] == [];
    while n < |classes|
      invariant 0 <= n <= |classes|
      invariant GroupedUpTo(packages, classes, n)
    {
      var dexClass := classes[n];
      var packageName := PackageKey(dexClass.name);
      var group: seq<ClassEntry>;
      if packageName in packages {
        group := packages[packageName];
      } else {
        group := [];
      }
      GroupStep(packages, classes, n);
      packages := packages[packageName := group + [dexClass]];
      n := n + 1;
    }
    assert classes[..n] == classes;
  }

  /**
   * The building loop: a new store holding, for each key in order, a
   * package root, then its classes and their methods, every row visible.
   * `t` is the index the keys and groups make up.
   */
  method BuildStore(keys: seq<string>, packages: map<string, seq<ClassEntry>>, ghost t: seq<PackageEntry>)
    returns (store: TreeStore)
    requires forall i :: 0 <= i < |keys| ==> keys[i] in packages
    requires |t| == |keys| && forall i :: 0 <= i < |t| ==> t[i] == PackageEntry(keys[i], packages[keys[i]])
    ensures fresh(store) && store.Valid()
    ensures store.rows == Flatten(t)
    ensures forall j :: 0 <= j < |store.visible| ==> store.visible[j]
  {
    store := new TreeStore();
    var p := 0;
    while p < |keys|
      invariant 0 <= p <= |keys|
      invariant fresh(store) && store.Valid()
      invariant store.rows == Flatten(t[..p])
      invariant AllShown(store.visible)
    {
      ghost var before := store.visible;
      AppendPackage(store, keys[p], packages[keys[p]]);
      FlattenPrefix(t, p);
      AllShownAppend(before, |FlatPackage(t[p])|);
      p := p + 1;
    }
    assert t[..p] == t;
  }

  /** Every flag of `v` is set. */
  ghost predicate AllShown(v: seq<bool>)
  {
    forall j :: 0 <= j < |v| ==> v[j]
  }

  lemma AllShownAppend(v: seq<bool>, n: nat)
    requires AllShown(v)
    ensures AllShown(v + seq(n, _ => true))
  {
    var w := v + seq(n, _ => true);
    forall j | 0 <= j < |w| ensures w[j] {
      if j < |v| {
        assert w[j] == v[j];
      }
    }
  }

  lemma FlattenPrefix(t: seq<PackageEntry>, p: nat)
    requires p < |t|
    ensures Flatten(t[..p + 1]) == Flatten(t[..p]) + FlatPackage(t[p])
  {
    FlattenSnoc(t[..p], t[p]);
    assert t[..p + 1] == t[..p] + [t[p]];
  }

  method AppendPackage(store: TreeStore, key: string, group: seq<ClassEntry>)
    requires store.Valid()
    modifies store
    ensures store.Valid()
    ensures store.rows == old(store.rows) + FlatPackage(PackageEntry(key, group))
    ensures store.visible == old(store.visible) + seq(|FlatPackage(PackageEntry(key, group))|, _ => true)
  {
    ghost var prefix := store.rows;
    ghost var shownBefore := store.visible;
    var iterPackage := |store.rows|;
    store.AppendValues(None, Package(key), true);
    ghost var head := store.rows;

    var c := 0;
    while c < |group|
      invariant 0 <= c <= |group|
      invariant store.Valid()
      invariant store.rows == head + FlatClasses(group[..c])
      invariant store.visible == shownBefore + seq(1 + |FlatClasses(group[..c])|, _ => true)
    {
      var dexClass := group[c];
      ghost var done := FlatClasses(group[..c]);
      ClassAppendsUnderPackage(prefix, key, done, Class(dexClass.name));
      AppendClass(store, iterPackage, dexClass);
      assert group[..c + 1] == group[..c] + [dexClass];
      FlatClassesSnoc(group[..c], dexClass);
      assert head + done + FlatClass(dexClass) == head + (done + FlatClass(dexClass));
      c := c + 1;
    }
    assert group[..c] == group;
    assert prefix + [Package(key)] + FlatClasses(group) == prefix + ([Package(key)] + FlatClasses(group));
  }

  /** Appends a class row under the package row `iterPackage`, then its method rows under it. */
  method AppendClass(store: TreeStore, iterPackage: nat, dexClass: ClassEntry)
    requires store.Valid()
    requires CanAppend(store.rows, Class(dexClass.name))
    requires IsParent(store.rows + [Class(dexClass.name)], iterPackage, |store.rows|)
    modifies store
    ensures store.Valid()
    ensures store.rows == old(store.rows) + FlatClass(dexClass)
    ensures store.visible == old(store.visible) + seq(|FlatClass(dexClass)|, _ => true)
  {
    ghost var before := store.rows;
    ghost var shownBefore := store.visible;
    var iter := |store.rows|;
    store.AppendValues(Some(iterPackage), Class(dexClass.name), true);

    var methods := dexClass.methods;
    var m := 0;
    while m < |methods|
      invariant 0 <= m <= |methods|
      invariant store.Valid()
      invariant store.rows == before + [Class(dexClass.name)] + MethodRows(methods[..m])
      invariant store.visible == shownBefore + seq(m + 1, _ => true)
    {
      MethodAppendsUnderClass(before, dexClass.name, methods[..m], Method(methods[m]));
      store.AppendValues(Some(iter), Method(methods[m]), true);
      assert MethodRows(methods[..m + 1]) == MethodRows(methods[..m]) + [Method(methods[m])];
      m := m + 1;
    }
    assert methods[..m] == methods;
  }

  /**
   * The walk of the search: every class and method row is tested against the
   * query, a matching one also shows the package and class rows above it,
   * and package rows start hidden. Afterwards each row is shown exactly when
   * it or a row below it matches.
   */
  method ShowMatches(store: TreeStore, query: string)
    requires store.Valid()
    modifies store`visible
    ensures store.Valid()
    ensures forall j :: 0 <= j < |store.rows| ==> store.visible[j] == Shown(store.rows, j, query)
  {
    var rows := store.rows;
    var currentClass := 0;
    var currentPackage := 0;
    var i := 0;
    while i < |rows|
      invariant 0 <= i <= |rows|
      invariant store.Valid() && store.rows == rows
      invariant SettledUpTo(rows, store.visible, i, query)
      invariant 0 < i ==> currentPackage == LastPackage(rows, i - 1)
      invariant 0 < i && !rows[i - 1].Package? ==> currentClass == LastClass(rows, i - 1)
    {
      ghost var before := store.visible;
      match rows[i] {
      case Package(_) =>
        currentPackage := i;
        store.SetValue(i, false);
      case Class(name) =>
        WellFormedAt(rows, i);
        assert currentPackage == LastPackage(rows, i);
        currentClass := i;
        var isVisible := IndexOf(Lower(name), Lower(query)) > -1;
        store.SetValue(i, isVisible);
        // make sure the package is visible, otherwise the view hides the class
        if isVisible {
          store.SetValue(currentPackage, true);
        }
      case Method(name) =>
        WellFormedAt(rows, i);
        assert currentPackage == LastPackage(rows, i) && currentClass == LastClass(rows, i);
        var isVisible := IndexOf(Lower(name), Lower(query)) > -1;
        store.SetValue(i, isVisible);
        // make sure the class and the package are visible, otherwise the view hides the method
        if isVisible {
          store.SetValue(currentClass, true);
          store.SetValue(currentPackage, true);
        }
      }
      assert store.visible == WalkStep(rows, before, i, query);
      WalkStepSettles(rows, before, i, query);
      i := i + 1;
    }
  }

  /** The groups, taken in sorted key order, form the package index of the classes. */
  lemma GroupsIndex(classes: seq<ClassEntry>, packages: map<string, seq<ClassEntry>>, keys: seq<string>, t: seq<PackageEntry>)
    requires packages.Keys == KeysOf(classes)
    requires forall k :: k in packages ==> packages[k] == Filter(classes, k)
    requires StrictlySorted(keys) && forall k :: k in keys <==> k in packages
    requires |t| == |keys| && forall i :: 0 <= i < |t| ==> t[i] == PackageEntry(keys[i], packages[keys[i]])
    ensures IsIndexOf(t, classes)
  {
    assert Keys(t) == keys;
  }

  /** With a container loaded, `tree` is its package index and `rows` lay the index out. */
  ghost predicate Indexed(dex: Option<Dex>, tree: seq<PackageEntry>, rows: seq<Node>) {
    dex.Some? ==> IsIndexOf(tree, dex.value.classes) && rows == Flatten(tree)
  }

  // ---------------------------------------------------------------------
  // The window

  class MainWindow {
    /** The loaded container, if any. */
    var dex: Option<Dex>
    /** The tree store behind the class tree. */
    var store: TreeStore
    /** Whether the class tree view has a model attached. */
    var hasModel: bool
    /** The registered highlighting rules, in registration order. */
    var codeHighlight: seq<CodeHighlight>
    /** The tag-name counter. */
    var counter: nat
    /** The package index the store's rows lay out. */
    ghost var tree: seq<PackageEntry>

    ghost predicate Valid()
      reads this`dex, this`store, this`hasModel, this`tree, store
    {
      && store.Valid()
      && (hasModel ==> dex.Some?)
      && Indexed(dex, tree, store.rows)
    }

    constructor ()
      ensures Valid() && fresh(store)
      ensures dex.None? && !hasModel && codeHighlight == [] && counter == 0
    {
      dex := None;
      store := new TreeStore();
      hasModel := false;
      codeHighlight := [];
      counter := 0;
      tree := [];
    }

    /** Loads a container and builds its class tree. */
    method Open(d: Dex)
      requires Valid()
      modifies this
      ensures Valid() && fresh(store)
      ensures dex == Some(d) && hasModel
      ensures IsIndexOf(tree, d.classes) && store.rows == Flatten(tree)
      ensures forall j :: 0 <= j < |store.visible| ==> store.visible[j]
      ensures codeHighlight == old(codeHighlight) && counter == old(counter)
    {
      dex := Some(d);
      PopulateClasses();
    }

    /** Unloads the container and detaches the tree view's model. */
    method Close()
      requires Valid() && dex.Some?
      modifies this
      ensures Valid() && dex.None? && !hasModel
      ensures store == old(store) && codeHighlight == old(codeHighlight) && counter == old(counter)
    {
      hasModel := false;
      dex := None;
    }

    /**
     * Groups the container's classes by package key in a sorted dictionary,
     * then fills a new store: each package as a root, its classes beneath it
     * in container order, each class's methods beneath the class, every row
     * visible.
     */
    method PopulateClasses()
      requires dex.Some?
      modifies this
      ensures Valid() && fresh(store) && hasModel
      ensures dex == old(dex)
      ensures IsIndexOf(tree, dex.value.classes) && store.rows == Flatten(tree)
      ensures forall j :: 0 <= j < |store.visible| ==> store.visible[j]
      ensures codeHighlight == old(codeHighlight) && counter == old(counter)
    {
      var packages := GroupByPackage(dex.value.classes);
      var keys := SortedKeys(packages.Keys);
      ghost var t := seq(|keys|, i requires 0 <= i < |keys| => PackageEntry(keys[i], packages[keys[i]]));
      GroupsIndex(dex.value.classes, packages, keys, t);
      var newStore := BuildStore(keys, packages, t);
      store := newStore;
      tree := t;
      hasModel := true;
    }

    /**
     * The search: a pre-order walk over the store that hides each package
     * as it reaches it, shows each class or method whose lower-cased name
     * contains the lower-cased query, and then shows the package (and, for a
     * method, the class) it remembers as current. Only the visibility column
     * changes; without a loaded container nothing does.
     */
    method OnEntrySearchEditingDone(query: string)
      requires Valid()
      modifies store`visible
      ensures Valid()
      ensures store.rows == old(store.rows)
      ensures dex.None? ==> store.visible == old(store.visible)
      ensures dex.Some? ==> forall j :: 0 <= j < |store.rows| ==> store.visible[j] == Shown(store.rows, j, query)
      ensures dex.Some? ==> store.visible == Flags(tree, query)
    {
      if dex.None? {
        return;
      }

      ShowMatches(store, query);
      FlagsAgree(tree, query);
    }

    /**
     * A selection change: without a model nothing is shown. Otherwise the
     * selected class, or the selected method together with its parent class,
     * is rendered by the writer (any other row renders as empty text), and
     * every highlighting rule styles its matches in that text.
     */
    method OnSelectionChanged(selected: Option<nat>, writeClass: string -> string, writeMethod: (string, string) -> string,
                              engine: (string, string) -> seq<Capture>)
      returns (text: Option<string>, spans: seq<TagSpan>)
      requires Valid()
      ensures !hasModel ==> text.None? && spans == []
      ensures hasModel ==> text.Some? && spans == HighlightSpans(codeHighlight, text.value, engine)
      ensures hasModel && (selected.None? || selected.value >= |store.rows|) ==> text == Some("")
      ensures hasModel && selected.Some? && selected.value < |store.rows| ==>
        text == Some(match store.rows[selected.value]
          case Package(_) => ""
          case Class(name) => writeClass(name)
          case Method(name) => writeMethod(store.rows[Parent(store.rows, selected.value)].name, name))
    {
      if !hasModel {
        return None, [];
      }
      var written := "";
      if selected.Some? && selected.value < |store.rows| {
        var iter := selected.value;
        match store.rows[iter] {
          case Package(_) =>
          case Class(name) =>
            written := writeClass(name);
          case Method(name) =>
            var parent := Parent(store.rows, iter);
            written := writeMethod(store.rows[parent].name, name);
        }
      }
      text := Some(written);
      spans := ApplyHighlights(codeHighlight, written, engine);
    }

    /**
     * A change of output language with a container loaded: the rules are
     * replaced by the new writer's, each registered under the next tag
     * number. Without a container the rules stay as they are.
     */
    method LanguageChanged(infos: seq<HighlightInfo>)
      requires Valid()
      modifies this`codeHighlight, this`counter
      ensures Valid()
      ensures dex.None? ==> codeHighlight == old(codeHighlight) && counter == old(counter)
      ensures dex.Some? ==> codeHighlight == Registered(infos, old(counter))
      ensures dex.Some? ==> counter == old(counter) + |infos|
    {
      if dex.None? {
        return;
      }
      RegisterRules(infos);
    }

    /** Replaces the rules by the writer's, registering each under the next tag number. */
    method RegisterRules(infos: seq<HighlightInfo>)
      modifies this`codeHighlight, this`counter
      ensures codeHighlight == Registered(infos, old(counter))
      ensures counter == old(counter) + |infos|
    {
      ghost var start := counter;
      codeHighlight := [];
      var i := 0;
      while i < |infos|
        invariant 0 <= i <= |infos|
        invariant counter == start + i
        invariant codeHighlight == Registered(infos[..i], start)
      {
        var registered := NewCodeHighlight(infos[i], counter);
        RegisteredStep(infos, start, i, codeHighlight, registered.0);
        codeHighlight := codeHighlight + [registered.0];
        counter := registered.1;
        i := i + 1;
      }
      assert infos[..i] == infos;
    }
  }
}
