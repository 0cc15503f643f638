/**
 * The package index built by `PopulateClasses`: every class is grouped under
 * the package key derived from its dotted name, the packages are ordered by
 * key, and each package keeps its classes in container order.
 */
module PackageIndex {
  import opened Text
  import opened Ordinal

  /** A class of the container: its dotted name and its methods' names, in container order. */
  datatype ClassEntry = ClassEntry(name: string, methods: seq<string>)

  /** The decoded container; `classes` is what `GetClasses()` yields, in order. */
  datatype Dex = Dex(classes: seq<ClassEntry>)

  /** One package of the index and the classes grouped under it. */
  datatype PackageEntry = PackageEntry(key: string, classes: seq<ClassEntry>)

  /** The package of every class whose name has no dot. */
  const DefaultPackage: string := "default"

  /**
   * The package key of a class name: the text before its last dot, or
   * "default" when the name has no dot at all.
   */
  function PackageKey(name: string): string {
    var lastDotPosition := LastIndexOf(name, '.');
    if lastDotPosition >= 0 then name[..lastDotPosition] else DefaultPackage
  }

  /**
   * With a dot, the key is the part of the name before its last dot (so a
   * trailing dot keeps everything before it, and a lone leading dot gives
   * ""); without one, it is "default".
   */
  lemma PackageKeySpec(name: string)
    ensures var key := PackageKey(name);
      && ('.' in name ==>
            |key| < |name| && name[..|key|] == key && name[|key|] == '.' && '.' !in name[|key| + 1..])
      && ('.' !in name ==> key == DefaultPackage)
      && (|name| > 0 && name[|name| - 1] == '.' ==> key == name[..|name| - 1])
      && (|name| > 0 && name[0] == '.' && '.' !in name[1..] ==> key == "")
  {
    LastIndexOfSpec(name, '.');
    if |name| > 0 && name[0] == '.' && '.' !in name[1..] {
      assert LastIndexOf(name, '.') == 0;
    }
  }

  /** The text after the last dot of a name, or the whole name when it has no dot. */
  function AfterLastDot(name: string): (r: string)
    ensures '.' !in r
    ensures |r| <= |name| && name[|name| - |r|..] == r
    ensures '.' in name ==> |r| < |name| && name[|name| - |r| - 1] == '.'
    ensures '.' !in name ==> r == name
  {
    LastIndexOfSpec(name, '.');
    name[LastIndexOf(name, '.') + 1..]
  }

  /**
   * The label of a class node: its name with "<package key>." removed
   * everywhere, which leaves exactly the text after the last dot.
   */
  lemma ClassLabelIsAfterLastDot(name: string)
    ensures ReplaceAll(name, PackageKey(name) + ".", "") == AfterLastDot(name)
  {
    var key := PackageKey(name);
    PackageKeySpec(name);
    LastIndexOfSpec(name, '.');
    if '.' in name {
      var tail := name[|key| + 1..];
      assert name == (key + ".") + tail;
      ReplaceLeadingOnce(key + ".", tail, "", '.');
      assert LastIndexOf(name, '.') == |key|;
    } else {
      assert '.' in key + ".";
      ReplaceAllAbsent(name, key + ".", "", '.');
    }
  }

  /** The classes of `cs` whose package key is `key`, in their order in `cs`. */
  function Filter(cs: seq<ClassEntry>, key: string): seq<ClassEntry> {
    if cs == [] then []
    else
      var last := cs[|cs| - 1];
      Filter(cs[..|cs| - 1], key) + (if PackageKey(last.name) == key then [last] else [])
  }

  /** The group of a key holds the classes of that key and no other, and is no longer than `cs`. */
  lemma {:induction false} FilterSpec(cs: seq<ClassEntry>, key: string)
    ensures |Filter(cs, key)| <= |cs|
    ensures forall c :: c in Filter(cs, key) <==> c in cs && PackageKey(c.name) == key
  {
    if cs != [] {
      var init := cs[..|cs| - 1];
      FilterSpec(init, key);
      assert cs == init + [cs[|cs| - 1]];
    }
  }

  /** The distinct package keys of a sequence of classes. */
  ghost function KeysOf(cs: seq<ClassEntry>): set<string> {
    set c | c in cs :: PackageKey(c.name)
  }

  /** The keys of the package nodes, in tree order. */
  function Keys(t: seq<PackageEntry>): seq<string> {
    seq(|t|, i requires 0 <= i < |t| => t[i].key)
  }

  /**
   * `t` is the package index of `cs`: one package per distinct key, keys in
   * increasing order, and each package holding exactly the classes with its
   * key, in container order.
   */
  ghost predicate IsIndexOf(t: seq<PackageEntry>, cs: seq<ClassEntry>) {
    && StrictlySorted(Keys(t))
    && (forall k :: k in Keys(t) <==> k in KeysOf(cs))
    && (forall i :: 0 <= i < |t| ==> t[i].classes == Filter(cs, t[i].key))
  }

  /** The index of a class sequence is unique: rebuilding it gives the same tree. */
  lemma IndexUnique(t1: seq<PackageEntry>, t2: seq<PackageEntry>, cs: seq<ClassEntry>)
    requires IsIndexOf(t1, cs) && IsIndexOf(t2, cs)
    ensures t1 == t2
  {
    SortedUnique(Keys(t1), Keys(t2));
    assert |t1| == |Keys(t1)| == |Keys(t2)| == |t2|;
    forall i | 0 <= i < |t1| ensures t1[i] == t2[i] {
      assert Keys(t1)[i] == Keys(t2)[i];
    }
  }

  /** No class sequence at all gives the empty tree. */
  lemma IndexOfNothing(t: seq<PackageEntry>)
    requires IsIndexOf(t, [])
    ensures t == []
  {
    assert KeysOf([]) == {};
    assert IsIndexOf([], []);
    IndexUnique(t, [], []);
  }

  /** Every package of an index holds at least one class. */
  lemma PackagesNonEmpty(t: seq<PackageEntry>, cs: seq<ClassEntry>, i: int)
    requires IsIndexOf(t, cs) && 0 <= i < |t|
    ensures t[i].classes != []
  {
    assert Keys(t)[i] == t[i].key;
    assert t[i].key in KeysOf(cs);
    var c :| c in cs && PackageKey(c.name) == t[i].key;
    FilterSpec(cs, t[i].key);
    assert c in t[i].classes;
  }

  /** Each class of the container sits in exactly one package of the index, the one of its key. */
  lemma ClassInExactlyOnePackage(t: seq<PackageEntry>, cs: seq<ClassEntry>, c: ClassEntry)
    requires IsIndexOf(t, cs) && c in cs
    ensures exists i :: 0 <= i < |t| && t[i].key == PackageKey(c.name) && c in t[i].classes
    ensures forall i, j :: 0 <= i < |t| && 0 <= j < |t| && c in t[i].classes && c in t[j].classes ==> i == j
  {
    var key := PackageKey(c.name);
    assert key in KeysOf(cs);
    assert key in Keys(t);
    var i :| 0 <= i < |t| && Keys(t)[i] == key;
    FilterSpec(cs, key);
    assert c in t[i].classes;
    forall i, j | 0 <= i < |t| && 0 <= j < |t| && c in t[i].classes && c in t[j].classes
      ensures i == j
    {
      FilterSpec(cs, t[i].key);
      FilterSpec(cs, t[j].key);
      assert t[i].key == key == t[j].key;
      assert Keys(t)[i] == Keys(t)[j];
      if i < j {
        LessIrreflexive(key);
      } else if j < i {
        LessIrreflexive(key);
      }
    }
  }

  /** All classes of a tree, package by package, in tree order. */
  function ClassesOf(t: seq<PackageEntry>): seq<ClassEntry> {
    if t == [] then [] else ClassesOf(t[..|t| - 1]) + t[|t| - 1].classes
  }

  /** The classes of `cs` whose package key lies in `ks`, in their order in `cs`. */
  function FilterIn(cs: seq<ClassEntry>, ks: set<string>): seq<ClassEntry> {
    if cs == [] then []
    else
      var last := cs[|cs| - 1];
      FilterIn(cs[..|cs| - 1], ks) + (if PackageKey(last.name) in ks then [last] else [])
  }

  lemma {:induction false} FilterInAdd(cs: seq<ClassEntry>, ks: set<string>, k: string)
    requires k !in ks
    ensures multiset(FilterIn(cs, ks + {k})) == multiset(FilterIn(cs, ks)) + multiset(Filter(cs, k))
  {
    if cs != [] {
      FilterInAdd(cs[..|cs| - 1], ks, k);
    }
  }

  lemma {:induction false} FilterInAll(cs: seq<ClassEntry>, ks: set<string>)
    requires forall c :: c in cs ==> PackageKey(c.name) in ks
    ensures FilterIn(cs, ks) == cs
  {
    if cs != [] {
      var init := cs[..|cs| - 1];
      assert cs == init + [cs[|cs| - 1]];
      FilterInAll(init, ks);
    }
  }

  /** The set of keys held by a key sequence. */
  ghost function KeySet(ks: seq<string>): set<string> {
    set k | k in ks
  }

  /** The last key of a strictly sorted sequence occurs nowhere before it. */
  lemma LastKeyIsNew(ks: seq<string>)
    requires StrictlySorted(ks) && ks != []
    ensures ks[|ks| - 1] !in ks[..|ks| - 1]
  {
    forall i | 0 <= i < |ks| - 1 ensures ks[i] != ks[|ks| - 1] {
      LessIrreflexive(ks[i]);
    }
  }

  /** The classes of distinct-keyed packages, each a filter of `cs`, are those of their keys. */
  lemma {:induction false} ClassesOfFiltered(t: seq<PackageEntry>, cs: seq<ClassEntry>)
    requires StrictlySorted(Keys(t))
    requires forall i :: 0 <= i < |t| ==> t[i].classes == Filter(cs, t[i].key)
    ensures multiset(ClassesOf(t)) == multiset(FilterIn(cs, KeySet(Keys(t))))
  {
    if t == [] {
      assert KeySet(Keys(t)) == {};
      FilterInEmpty(cs);
    } else {
      var init := t[..|t| - 1];
      var last := t[|t| - 1];
      var initKeys := Keys(init);
      assert initKeys == Keys(t)[..|t| - 1];
      assert Keys(t) == initKeys + [last.key];
      assert StrictlySorted(initKeys);
      ClassesOfFiltered(init, cs);
      LastKeyIsNew(Keys(t));
      assert KeySet(Keys(t)) == KeySet(initKeys) + {last.key};
      FilterInAdd(cs, KeySet(initKeys), last.key);
      assert ClassesOf(t) == ClassesOf(init) + last.classes;
    }
  }

  lemma {:induction false} FilterInEmpty(cs: seq<ClassEntry>)
    ensures FilterIn(cs, {}) == []
  {
    if cs != [] {
      FilterInEmpty(cs[..|cs| - 1]);
    }
  }

  /**
   * The index partitions the container's classes: taken package by package,
   * they are the container's classes, each exactly as often as it occurs.
   */
  lemma IndexPartitions(t: seq<PackageEntry>, cs: seq<ClassEntry>)
    requires IsIndexOf(t, cs)
    ensures multiset(ClassesOf(t)) == multiset(cs)
  {
    ClassesOfFiltered(t, cs);
    assert KeySet(Keys(t)) == KeysOf(cs);
    FilterInAll(cs, KeysOf(cs));
  }
}
