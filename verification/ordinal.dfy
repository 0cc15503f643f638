/**
 * The key order of the package dictionary: ordinal lexicographic order on
 * strings (a proper prefix comes first, otherwise the first differing
 * character decides), with the facts that make it a strict total order, and
 * the in-order enumeration of a sorted dictionary's keys.
 */
module Ordinal {

  /** `a` sorts strictly before `b`. */
  predicate Less(a: string, b: string)
    decreases |a|
  {
    if a == [] then b != []
    else if b == [] then false
    else if a[0] == b[0] then Less(a[1..], b[1..])
    else a[0] < b[0]
  }

  lemma {:induction false} LessIrreflexive(a: string)
    ensures !Less(a, a)
    decreases |a|
  {
    if a != [] {
      LessIrreflexive(a[1..]);
    }
  }

  lemma {:induction false} LessTransitive(a: string, b: string, c: string)
    requires Less(a, b) && Less(b, c)
    ensures Less(a, c)
    decreases |a|
  {
    if a != [] && b != [] && c != [] && a[0] == b[0] && b[0] == c[0] {
      LessTransitive(a[1..], b[1..], c[1..]);
    }
  }

  lemma {:induction false} LessTotal(a: string, b: string)
    requires a != b
    ensures Less(a, b) || Less(b, a)
    decreases |a|
  {
    if a != [] && b != [] && a[0] == b[0] {
      assert a == [a[0]] + a[1..] && b == [b[0]] + b[1..];
      LessTotal(a[1..], b[1..]);
    }
  }

  lemma LessAsymmetric(a: string, b: string)
    requires Less(a, b)
    ensures !Less(b, a)
  {
    if Less(b, a) {
      LessTransitive(a, b, a);
      LessIrreflexive(a);
    }
  }

  /** Keys strictly increasing, hence pairwise distinct. */
  ghost predicate StrictlySorted(ks: seq<string>) {
    forall i, j :: 0 <= i < j < |ks| ==> Less(ks[i], ks[j])
  }

  /** `m` is the least element of `s`. */
  predicate IsLeast(m: string, s: set<string>) {
    m in s && forall o :: o in s && o != m ==> Less(m, o)
  }

  /** Every non-empty finite set of keys has a least key. */
  lemma {:induction false} LeastExists(s: set<string>)
    requires s != {}
    ensures exists m :: IsLeast(m, s)
    decreases |s|
  {
    var x :| x in s;
    var rest := s - {x};
    if rest == {} {
      assert s == {x};
      assert IsLeast(x, s);
    } else {
      LeastExists(rest);
      var m :| IsLeast(m, rest);
      if Less(m, x) {
        forall o | o in s && o != m ensures Less(m, o) {
          if o != x { assert o in rest; }
        }
        assert IsLeast(m, s);
      } else {
        LessTotal(m, x);
        forall o | o in s && o != x ensures Less(x, o) {
          if o != m { LessTransitive(x, m, o); }
        }
        assert IsLeast(x, s);
      }
    }
  }

  /** Two strictly sorted key sequences holding the same keys are the same sequence. */
  lemma {:induction false} SortedUnique(a: seq<string>, b: seq<string>)
    requires StrictlySorted(a) && StrictlySorted(b)
    requires forall k :: k in a <==> k in b
    ensures a == b
    decreases |a|
  {
    assert a != [] ==> a[0] in b;
    assert b != [] ==> b[0] in a;
    if a != [] && b != [] {
      if a[0] != b[0] {
        assert a[0] in b && b[0] in a;
        var i :| 0 <= i < |b| && b[i] == a[0];
        var j :| 0 <= j < |a| && a[j] == b[0];
        assert i != 0 && j != 0;
        LessAsymmetric(a[0], b[0]);
        assert false;
      }
      forall k ensures k in a[1..] <==> k in b[1..] {
        if k in a[1..] {
          var i :| 1 <= i < |a| && a[i] == k;
          LessIrreflexive(a[0]);
          assert k != a[0];
          assert k in b;
        }
        if k in b[1..] {
          var i :| 1 <= i < |b| && b[i] == k;
          LessIrreflexive(b[0]);
          assert k != b[0];
          assert k in a;
        }
      }
      SortedUnique(a[1..], b[1..]);
      assert a == [a[0]] + a[1..] && b == [b[0]] + b[1..];
    }
  }

  /**
   * Enumeration of a sorted dictionary: the keys, each once, in increasing
   * order. Each step takes the least key not yet produced.
   */
  method SortedKeys(keys: set<string>) returns (ks: seq<string>)
    ensures StrictlySorted(ks)
    ensures forall k :: k in ks <==> k in keys
  {
    ks := [];
    var remaining := keys;
    while remaining != {}
      invariant StrictlySorted(ks)
      invariant forall k :: k in keys <==> k in ks || k in remaining
      invariant forall i, r :: 0 <= i < |ks| && r in remaining ==> Less(ks[i], r)
      decreases remaining
    {
      LeastExists(remaining);
      var m :| IsLeast(m, remaining);
      forall i, r | 0 <= i < |ks| && r in remaining - {m} ensures Less(ks[i], r) {
        assert Less(ks[i], m) && Less(m, r);
        LessTransitive(ks[i], m, r);
      }
      ks := ks + [m];
      remaining := remaining - {m};
    }
  }
}
