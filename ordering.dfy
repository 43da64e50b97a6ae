/**
 * The ordering that `ORDER BY a ASC, b ASC` gives on two text columns under
 * SQLite's default BINARY collation: strings compare by code point,
 * lexicographically, a proper prefix first; pairs compare on the first column
 * and then on the second. Insertion into a sorted sequence is the sort used
 * to model those queries.
 */
module Ordering {

  /** Lexicographic `a <= b` on strings, by code point. */
  predicate StrLe(a: string, b: string)
  {
    a == [] || (b != [] && (a[0] < b[0] || (a[0] == b[0] && StrLe(a[1..], b[1..]))))
  }

  lemma {:induction false} StrLeReflexive(a: string)
    ensures StrLe(a, a)
  {
    if a != [] {
      StrLeReflexive(a[1..]);
    }
  }

  lemma {:induction false} StrLeTotal(a: string, b: string)
    ensures StrLe(a, b) || StrLe(b, a)
  {
    if a != [] && b != [] && a[0] == b[0] {
      StrLeTotal(a[1..], b[1..]);
    }
  }

  lemma {:induction false} StrLeTransitive(a: string, b: string, c: string)
    requires StrLe(a, b) && StrLe(b, c)
    ensures StrLe(a, c)
  {
    if a != [] && a[0] == b[0] && b[0] == c[0] {
      StrLeTransitive(a[1..], b[1..], c[1..]);
    }
  }

  lemma {:induction false} StrLeAntisymmetric(a: string, b: string)
    requires StrLe(a, b) && StrLe(b, a)
    ensures a == b
  {
    if a != [] {
      StrLeAntisymmetric(a[1..], b[1..]);
    }
  }

  /** A sort key of two text columns. */
  type Key = (string, string)

  /** `ORDER BY first ASC, second ASC`. */
  predicate KeyLe(a: Key, b: Key)
  {
    (StrLe(a.0, b.0) && a.0 != b.0) || (a.0 == b.0 && StrLe(a.1, b.1))
  }

  lemma KeyLeTotal(a: Key, b: Key)
    ensures KeyLe(a, b) || KeyLe(b, a)
  {
    StrLeTotal(a.0, b.0);
    StrLeTotal(a.1, b.1);
  }

  lemma KeyLeTransitive(a: Key, b: Key, c: Key)
    requires KeyLe(a, b) && KeyLe(b, c)
    ensures KeyLe(a, c)
  {
    if a.0 == b.0 && b.0 == c.0 {
      StrLeTransitive(a.1, b.1, c.1);
    } else {
      StrLeReflexive(a.0);
      StrLeReflexive(b.0);
      StrLeTransitive(a.0, b.0, c.0);
      if a.0 == c.0 {
        StrLeAntisymmetric(a.0, b.0);
      }
    }
  }

  ghost predicate SortedBy<T>(s: seq<T>, key: T -> Key)
  {
    forall i, j :: 0 <= i < j < |s| ==> KeyLe(key(s[i]), key(s[j]))
  }

  /** The position before the first element whose key is not below `key(x)`. */
  function InsertPos<T>(x: T, s: seq<T>, key: T -> Key): (p: nat)
    ensures p <= |s|
    ensures forall i :: 0 <= i < p ==> !KeyLe(key(x), key(s[i]))
    ensures p < |s| ==> KeyLe(key(x), key(s[p]))
  {
    if s == [] || KeyLe(key(x), key(s[0])) then 0
    else
      var p := 1 + InsertPos(x, s[1..], key);
      assert forall i :: 1 <= i < p ==> s[i] == s[1..][i - 1];
      p
  }

  /** Splicing `x` in at its insertion position keeps a sorted sequence sorted. */
  lemma SpliceSorted<T>(x: T, s: seq<T>, key: T -> Key, p: nat)
    requires p <= |s| && SortedBy(s, key)
    requires forall i :: 0 <= i < p ==> !KeyLe(key(x), key(s[i]))
    requires p < |s| ==> KeyLe(key(x), key(s[p]))
    ensures SortedBy(s[..p] + [x] + s[p..], key)
  {
    var r := s[..p] + [x] + s[p..];
    forall i, j | 0 <= i < j < |r| ensures KeyLe(key(r[i]), key(r[j])) {
      if j < p {
        assert r[i] == s[i] && r[j] == s[j];
      } else if j == p {
        assert r[i] == s[i] && r[j] == x;
        KeyLeTotal(key(x), key(s[i]));
      } else if i == p {
        assert r[i] == x && r[j] == s[j - 1];
        if j - 1 > p {
          KeyLeTransitive(key(x), key(s[p]), key(s[j - 1]));
        }
      } else if i < p {
        assert r[i] == s[i] && r[j] == s[j - 1];
      } else {
        assert r[i] == s[i - 1] && r[j] == s[j - 1];
      }
    }
  }

  /**
   * Inserts `x` before the first element whose key is not below it: the
   * result holds exactly the old elements and `x`, and stays sorted.
   */
  function InsertBy<T>(x: T, s: seq<T>, key: T -> Key): (r: seq<T>)
    ensures multiset(r) == multiset(s) + multiset{x}
    ensures |r| == |s| + 1
    ensures SortedBy(s, key) ==> SortedBy(r, key)
    ensures exists p :: 0 <= p <= |s| && r == s[..p] + [x] + s[p..]
  {
    var p := InsertPos(x, s, key);
    var r := s[..p] + [x] + s[p..];
    assert s == s[..p] + s[p..];
    assert SortedBy(s, key) ==> SortedBy(r, key) by {
      if SortedBy(s, key) {
        SpliceSorted(x, s, key, p);
      }
    }
    r
  }
}
