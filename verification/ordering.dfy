/** Frame order in `create_gif`: `images.sort()` or `images.sort(key=sort_key)`.
    Python's list sort is stable and compares keys with `<`. A key is modelled
    as a sequence of integers under lexicographic order, which is how Python
    compares strings (by code point), tuples of integers, and a single integer
    `n` (as the one-element key `[n]`). The default sort compares the names
    themselves, that is, their code points. */
module Ordering {
  import opened Wrappers

  type Key = seq<int>

  /** Python's `a <= b` on strings and tuples: the first difference decides,
      and a proper prefix comes first. */
  predicate KeyLe(a: Key, b: Key)
  {
    a == [] || (b != [] && (a[0] < b[0] || (a[0] == b[0] && KeyLe(a[1..], b[1..]))))
  }

  lemma {:induction false} KeyLeReflexive(a: Key)
    ensures KeyLe(a, a)
  {
    if a != [] {
      KeyLeReflexive(a[1..]);
    }
  }

  lemma {:induction false} KeyLeTotal(a: Key, b: Key)
    ensures KeyLe(a, b) || KeyLe(b, a)
  {
    if a != [] && b != [] && a[0] == b[0] {
      KeyLeTotal(a[1..], b[1..]);
    }
  }

  lemma {:induction false} KeyLeAntisymmetric(a: Key, b: Key)
    requires KeyLe(a, b) && KeyLe(b, a)
    ensures a == b
  {
    if a != [] && b != [] {
      KeyLeAntisymmetric(a[1..], b[1..]);
      assert a == [a[0]] + a[1..];
      assert b == [b[0]] + b[1..];
    }
  }

  lemma {:induction false} KeyLeTransitive(a: Key, b: Key, c: Key)
    requires KeyLe(a, b) && KeyLe(b, c)
    ensures KeyLe(a, c)
  {
    if a != [] && b != [] && c != [] && a[0] == b[0] && b[0] == c[0] {
      KeyLeTransitive(a[1..], b[1..], c[1..]);
    }
  }

  /** The key of the default sort: a name's code points. */
  function CodePoints(name: string): (k: Key)
    ensures |k| == |name|
  {
    seq(|name|, i requires 0 <= i < |name| => name[i] as int)
  }

  /** Distinct names have distinct default keys, so the default sort has no
      ties between different names. */
  lemma CodePointsInjective(a: string, b: string)
    requires CodePoints(a) == CodePoints(b)
    ensures a == b
  {
    assert forall i :: 0 <= i < |a| ==> a[i] as int == CodePoints(a)[i] == CodePoints(b)[i] == b[i] as int;
  }

  /** Every earlier element's key is at most every later element's key. */
  predicate Sorted(s: seq<string>, key: string -> Key)
  {
    forall i, j :: 0 <= i < j < |s| ==> KeyLe(key(s[i]), key(s[j]))
  }

  /** The elements of `s` whose key is `k`, in their order in `s`. */
  function Ties(s: seq<string>, key: string -> Key, k: Key): seq<string>
  {
    if s == [] then []
    else (if key(s[0]) == k then [s[0]] else []) + Ties(s[1..], key, k)
  }

  lemma {:induction false} TiesAppend(a: seq<string>, b: seq<string>, key: string -> Key, k: Key)
    ensures Ties(a + b, key, k) == Ties(a, key, k) + Ties(b, key, k)
  {
    if a == [] {
      assert a + b == b;
    } else {
      var c := a + b;
      assert c[0] == a[0];
      assert c[1..] == a[1..] + b;
      TiesAppend(a[1..], b, key, k);
      var h := if key(a[0]) == k then [a[0]] else [];
      calc {
        Ties(c, key, k);
        h + Ties(c[1..], key, k);
        h + Ties(a[1..] + b, key, k);
        h + (Ties(a[1..], key, k) + Ties(b, key, k));
        (h + Ties(a[1..], key, k)) + Ties(b, key, k);
        Ties(a, key, k) + Ties(b, key, k);
      }
    }
  }

  /** Puts `x` in front of the first element whose key is not below its own. */
  function Insert(x: string, s: seq<string>, key: string -> Key): seq<string>
  {
    if s == [] || KeyLe(key(x), key(s[0])) then [x] + s
    else [s[0]] + Insert(x, s[1..], key)
  }

  lemma {:induction false} InsertPermutes(x: string, s: seq<string>, key: string -> Key)
    ensures multiset(Insert(x, s, key)) == multiset(s) + multiset{x}
  {
    if s != [] && !KeyLe(key(x), key(s[0])) {
      InsertPermutes(x, s[1..], key);
      assert s == [s[0]] + s[1..];
    }
  }

  lemma {:induction false} InsertSorted(x: string, s: seq<string>, key: string -> Key)
    requires Sorted(s, key)
    ensures Sorted(Insert(x, s, key), key)
  {
    var r := Insert(x, s, key);
    if s == [] {
    } else if KeyLe(key(x), key(s[0])) {
      forall i, j | 0 <= i < j < |r| ensures KeyLe(key(r[i]), key(r[j])) {
        if i == 0 && j > 1 {
          KeyLeTransitive(key(x), key(s[0]), key(s[j - 1]));
        }
      }
    } else {
      KeyLeTotal(key(x), key(s[0]));
      var t := Insert(x, s[1..], key);
      InsertSorted(x, s[1..], key);
      InsertPermutes(x, s[1..], key);
      forall j | 0 <= j < |t| ensures KeyLe(key(s[0]), key(t[j])) {
        assert t[j] in multiset(s[1..]) + multiset{x};
        if t[j] != x {
          var m :| 0 <= m < |s[1..]| && s[1..][m] == t[j];
          assert s[m + 1] == t[j];
        }
      }
    }
  }

  /** Inserting `x` adds it in front of the elements that share its key, and
      leaves the order of every other key class alone. */
  lemma {:induction false} InsertTies(x: string, s: seq<string>, key: string -> Key, k: Key)
    ensures Ties(Insert(x, s, key), key, k) == (if key(x) == k then [x] else []) + Ties(s, key, k)
  {
    if s == [] || KeyLe(key(x), key(s[0])) {
      TiesAppend([x], s, key, k);
      assert [x][1..] == [];
    } else {
      var t := Insert(x, s[1..], key);
      InsertTies(x, s[1..], key, k);
      TiesAppend([s[0]], t, key, k);
      TiesAppend([s[0]], s[1..], key, k);
      assert s == [s[0]] + s[1..];
      assert [s[0]][1..] == [];
      KeyLeReflexive(key(x));
      assert key(s[0]) != key(x);
    }
  }

  /** Python's stable list sort under a key: insertion sort from the back, so
      that of two equal keys the earlier element ends up first. The result is
      a permutation of `s`, nondecreasing in the key, and within each key
      class keeps the order of `s`. */
  function SortBy(s: seq<string>, key: string -> Key): (r: seq<string>)
    ensures multiset(r) == multiset(s)
    ensures Sorted(r, key)
    ensures forall k :: Ties(r, key, k) == Ties(s, key, k)
  {
    if s == [] then []
    else
      var rest := SortBy(s[1..], key);
      InsertPermutes(s[0], rest, key);
      InsertSorted(s[0], rest, key);
      assert s == [s[0]] + s[1..];
      assert forall k :: Ties(Insert(s[0], rest, key), key, k) == Ties(s, key, k) by {
        forall k ensures Ties(Insert(s[0], rest, key), key, k) == Ties(s, key, k) {
          InsertTies(s[0], rest, key, k);
        }
      }
      Insert(s[0], rest, key)
  }

  /** The key the sort compares: `sort_key` when it is given (`if sort_key:`),
      the name itself otherwise. */
  function KeyOf(sortKey: Option<string -> Key>): string -> Key
  {
    match sortKey
    case Some(key) => key
    case None => CodePoints
  }

  /** `images.sort(key=sort_key)` when a key is given, `images.sort()` otherwise. */
  function Order(names: seq<string>, sortKey: Option<string -> Key>): seq<string>
  {
    SortBy(names, KeyOf(sortKey))
  }

  lemma {:induction false} TiesMembers(s: seq<string>, key: string -> Key, k: Key)
    ensures forall x :: x in Ties(s, key, k) <==> x in s && key(x) == k
  {
    if s != [] {
      TiesMembers(s[1..], key, k);
      assert s == [s[0]] + s[1..];
    }
  }

  lemma TiesHead(s: seq<string>, key: string -> Key)
    ensures s != [] ==> Ties(s, key, key(s[0])) != []
  {
  }

  /** Two sorted sequences with the same key classes start with the same
      element: both heads carry the least key, and each class keeps one
      order. */
  lemma SortedSameHead(a: seq<string>, b: seq<string>, key: string -> Key)
    requires a != [] && b != []
    requires Sorted(a, key) && Sorted(b, key)
    requires forall k :: Ties(a, key, k) == Ties(b, key, k)
    ensures a[0] == b[0]
  {
    var ka, kb := key(a[0]), key(b[0]);
    TiesMembers(b, key, ka);
    TiesMembers(a, key, kb);
    assert a[0] in Ties(a, key, ka);
    assert b[0] in Ties(b, key, kb);
    assert a[0] in Ties(b, key, ka);
    assert b[0] in Ties(a, key, kb);
    var i :| 0 <= i < |b| && b[i] == a[0];
    var j :| 0 <= j < |a| && a[j] == b[0];
    if i > 0 { assert KeyLe(kb, key(b[i])); } else { KeyLeReflexive(kb); }
    if j > 0 { assert KeyLe(ka, key(a[j])); } else { KeyLeReflexive(ka); }
    KeyLeAntisymmetric(ka, kb);
    assert Ties(a, key, ka)[0] == a[0];
    assert Ties(b, key, ka)[0] == b[0];
  }

  /** Dropping a common head keeps the key classes equal. */
  lemma SameTiesTail(a: seq<string>, b: seq<string>, key: string -> Key)
    requires a != [] && b != [] && a[0] == b[0]
    requires forall k :: Ties(a, key, k) == Ties(b, key, k)
    ensures forall k :: Ties(a[1..], key, k) == Ties(b[1..], key, k)
  {
    forall k ensures Ties(a[1..], key, k) == Ties(b[1..], key, k) {
      assert Ties(a, key, k) == Ties(b, key, k);
      if key(a[0]) == k {
        assert Ties(a[1..], key, k) == Ties(a, key, k)[1..];
        assert Ties(b[1..], key, k) == Ties(b, key, k)[1..];
      } else {
        assert Ties(a, key, k) == Ties(a[1..], key, k);
        assert Ties(b, key, k) == Ties(b[1..], key, k);
      }
    }
  }

  /** A sorted sequence is fixed by its key classes: two sorted sequences
      whose key classes agree are equal. */
  lemma {:induction false} SortedByTies(a: seq<string>, b: seq<string>, key: string -> Key)
    requires Sorted(a, key) && Sorted(b, key)
    requires forall k :: Ties(a, key, k) == Ties(b, key, k)
    ensures a == b
    decreases |a|
  {
    if a == [] || b == [] {
      TiesHead(a, key);
      TiesHead(b, key);
    } else {
      SortedSameHead(a, b, key);
      SameTiesTail(a, b, key);
      SortedByTies(a[1..], b[1..], key);
      assert a == [a[0]] + a[1..];
      assert b == [b[0]] + b[1..];
    }
  }

  /** Any stable sort gives the same order: a sequence that is nondecreasing
      in the key and keeps every key class in its original order is exactly
      `SortBy`'s result. */
  lemma SortByUnique(s: seq<string>, r: seq<string>, key: string -> Key)
    requires Sorted(r, key)
    requires forall k :: Ties(r, key, k) == Ties(s, key, k)
    ensures r == SortBy(s, key)
  {
    SortedByTies(r, SortBy(s, key), key);
  }

  predicate Distinct(s: seq<string>)
  {
    forall i, j :: 0 <= i < j < |s| ==> s[i] != s[j]
  }

  lemma {:induction false} DistinctMultiset(s: seq<string>)
    ensures Distinct(s) <==> forall x :: multiset(s)[x] <= 1
  {
    if s != [] {
      DistinctMultiset(s[1..]);
      assert s == [s[0]] + s[1..];
      if Distinct(s) {
        assert s[0] !in s[1..];
      } else {
        var i, j :| 0 <= i < j < |s| && s[i] == s[j];
        if i == 0 {
          assert s[j] == s[1..][j - 1];
          assert s[0] in multiset(s[1..]);
          assert multiset(s)[s[0]] == multiset(s[1..])[s[0]] + 1;
        } else {
          assert s[i] == s[1..][i - 1] && s[j] == s[1..][j - 1];
          assert !Distinct(s[1..]);
          var x :| multiset(s[1..])[x] > 1;
          assert multiset(s)[x] >= multiset(s[1..])[x];
        }
      }
    }
  }

  /** Default order: the names in ascending string order, strictly ascending
      when the names are distinct (as the entries of a directory are). */
  lemma DefaultOrderAscending(names: seq<string>)
    requires Distinct(names)
    ensures multiset(Order(names, None)) == multiset(names)
    ensures forall i, j :: 0 <= i < j < |Order(names, None)| ==>
      && KeyLe(CodePoints(Order(names, None)[i]), CodePoints(Order(names, None)[j]))
      && Order(names, None)[i] != Order(names, None)[j]
      && CodePoints(Order(names, None)[i]) != CodePoints(Order(names, None)[j])
  {
    var r := Order(names, None);
    DistinctMultiset(names);
    DistinctMultiset(r);
    forall i, j | 0 <= i < j < |r| ensures CodePoints(r[i]) != CodePoints(r[j]) {
      if CodePoints(r[i]) == CodePoints(r[j]) {
        CodePointsInjective(r[i], r[j]);
      }
    }
  }

  /** A key that only looks at a name's length. */
  function NameLength(name: string): Key
  {
    [|name|]
  }

  /** Under `NameLength` the two six-character names tie and keep their
      listing order. */
  lemma StableKeyExample()
    ensures SortBy(["cc.png", "a.png", "bb.png"], NameLength) == ["a.png", "cc.png", "bb.png"]
  {
    var s := ["cc.png", "a.png", "bb.png"];
    assert s[1..] == ["a.png", "bb.png"] && s[1..][1..] == ["bb.png"];
    assert NameLength("a.png") == [5] && NameLength("bb.png") == [6] && NameLength("cc.png") == [6];
    assert KeyLe([5], [6]) && !KeyLe([6], [5]) && KeyLe([6], [6]);
    assert SortBy(["bb.png"], NameLength) == ["bb.png"];
    assert SortBy(["a.png", "bb.png"], NameLength) == ["a.png", "bb.png"];
    assert Insert("cc.png", ["bb.png"], NameLength) == ["cc.png", "bb.png"];
    assert Insert("cc.png", ["a.png", "bb.png"], NameLength) == ["a.png", "cc.png", "bb.png"];
  }

  /** Without a key the names come out in string order, not numeric order. */
  lemma DefaultOrderExample()
    ensures Order(["p2.png", "p10.png"], None) == ["p10.png", "p2.png"]
  {
    var b, c := CodePoints("p10.png"), CodePoints("p2.png");
    assert b[0] == c[0] == 112;
    assert b[1..][0] == 49 && c[1..][0] == 50;
    assert !KeyLe(c, b);
    assert SortBy(["p10.png"], CodePoints) == ["p10.png"];
  }
}
