/** Strings of Unicode characters: their size in bytes, the order every listing uses (byte
    order and character order agree in UTF-8), and sorting by it. */
module Text {

  /** How many bytes a character takes in UTF-8. */
  function Width(c: char): nat {
    if c as int < 0x80 then 1 else if c as int < 0x800 then 2 else if c as int < 0x1_0000 then 3 else 4
  }

  /** The length of a string in bytes, as `len` counts it. */
  function Size(s: string): nat { SizeOfFirst(s, |s|) }

  function SizeOfFirst(s: string, n: nat): nat
    requires n <= |s|
  {
    if n == 0 then 0 else SizeOfFirst(s, n - 1) + Width(s[n - 1])
  }

  predicate Less(a: string, b: string) {
    b != "" && (a == "" || a[0] < b[0] || (a[0] == b[0] && Less(a[1..], b[1..])))
  }

  /** The order is that of the first character in which two strings differ; a string is less than
      what it is the beginning of. */
  lemma {:induction false} LessExactly(a: string, b: string)
    ensures Less(a, b) <==>
            exists k: nat | k <= |a| && k < |b| :: a[..k] == b[..k] && (k == |a| || a[k] < b[k])
  {
    if Less(a, b) {
      if a == "" || a[0] < b[0] {
        assert a[..0] == b[..0];
      } else {
        LessExactly(a[1..], b[1..]);
        var k: nat :| k <= |a[1..]| && k < |b[1..]| && a[1..][..k] == b[1..][..k]
                      && (k == |a[1..]| || a[1..][k] < b[1..][k]);
        assert a[..k + 1] == [a[0]] + a[1..][..k] && b[..k + 1] == [b[0]] + b[1..][..k];
      }
    } else if k: nat :| k <= |a| && k < |b| && a[..k] == b[..k] && (k == |a| || a[k] < b[k]) {
      if k > 0 {
        assert a[0] == a[..k][0] == b[..k][0] == b[0];
        assert a[1..][..k - 1] == a[..k][1..] && b[1..][..k - 1] == b[..k][1..];
        LessExactly(a[1..], b[1..]);
      }
    }
  }

  lemma LessIrreflexive(a: string)
    ensures !Less(a, a)
  {
  }

  lemma LessTransitive(a: string, b: string, c: string)
    requires Less(a, b) && Less(b, c)
    ensures Less(a, c)
  {
  }

  lemma LessTotal(a: string, b: string)
    ensures Less(a, b) || a == b || Less(b, a)
  {
    if a != "" && b != "" && a[0] == b[0] {
      LessTotal(a[1..], b[1..]);
      assert a == [a[0]] + a[1..] && b == [b[0]] + b[1..];
    }
  }

  // ---------- pairs of strings, first component first ----------

  type Key = (string, string)

  predicate KeyLess(a: Key, b: Key) {
    Less(a.0, b.0) || (a.0 == b.0 && Less(a.1, b.1))
  }

  lemma KeyLessIrreflexive(a: Key)
    ensures !KeyLess(a, a)
  {
    LessIrreflexive(a.0);
    LessIrreflexive(a.1);
  }

  lemma KeyLessTransitive(a: Key, b: Key, c: Key)
    requires KeyLess(a, b) && KeyLess(b, c)
    ensures KeyLess(a, c)
  {
    if Less(a.0, b.0) && Less(b.0, c.0) { LessTransitive(a.0, b.0, c.0); }
    if Less(a.1, b.1) && Less(b.1, c.1) { LessTransitive(a.1, b.1, c.1); }
  }

  lemma KeyLessTotal(a: Key, b: Key)
    ensures KeyLess(a, b) || a == b || KeyLess(b, a)
  {
    LessTotal(a.0, b.0);
    LessTotal(a.1, b.1);
  }

  /** No element is below an earlier one: all that an unstable sort promises. */
  ghost predicate Ordered<T(!new)>(s: seq<T>, key: T -> Key) {
    forall i, j | 0 <= i < j < |s| :: !KeyLess(key(s[j]), key(s[i]))
  }

  ghost predicate StrictlyOrdered<T(!new)>(s: seq<T>, key: T -> Key) {
    forall i, j | 0 <= i < j < |s| :: KeyLess(key(s[i]), key(s[j]))
  }

  ghost predicate DistinctKeys<T(!new)>(s: seq<T>, key: T -> Key) {
    forall i, j | 0 <= i < j < |s| :: key(s[i]) != key(s[j])
  }

  lemma DistinctOrderedIsStrict<T(!new)>(s: seq<T>, key: T -> Key)
    requires Ordered(s, key) && DistinctKeys(s, key)
    ensures StrictlyOrdered(s, key)
  {
    forall i, j | 0 <= i < j < |s|
      ensures KeyLess(key(s[i]), key(s[j]))
    {
      KeyLessTotal(key(s[i]), key(s[j]));
    }
  }

  /** Distinct keys survive a permutation. */
  lemma PermutedDistinct<T(!new)>(s: seq<T>, t: seq<T>, key: T -> Key)
    requires multiset(s) == multiset(t) && DistinctKeys(s, key)
    ensures DistinctKeys(t, key)
  {
    forall i, j | 0 <= i < j < |t|
      ensures key(t[i]) != key(t[j])
    {
      if key(t[i]) == key(t[j]) {
        assert t[i] in multiset(t) && t[j] in multiset(t);
        var k :| 0 <= k < |s| && s[k] == t[i];
        var m :| 0 <= m < |s| && s[m] == t[j];
        assert k == m;
        TwiceInMultiset(t, i, j);
        OnceInMultiset(s, k, key);
      }
    }
  }

  lemma TwiceInMultiset<T>(t: seq<T>, i: nat, j: nat)
    requires i < j < |t| && t[i] == t[j]
    ensures multiset(t)[t[i]] >= 2
  {
    assert t == t[..i] + [t[i]] + t[i + 1..j] + [t[j]] + t[j + 1..];
  }

  lemma OnceInMultiset<T(!new)>(s: seq<T>, k: nat, key: T -> Key)
    requires k < |s| && DistinctKeys(s, key)
    ensures multiset(s)[s[k]] == 1
  {
    var a, b := s[..k], s[k + 1..];
    assert s == a + [s[k]] + b;
    assert s[k] !in a && s[k] !in b;
  }

  /** The first element of a strictly ordered list is its least. */
  lemma SameFirst<T(!new)>(s: seq<T>, t: seq<T>, key: T -> Key)
    requires multiset(s) == multiset(t) && StrictlyOrdered(s, key) && StrictlyOrdered(t, key)
    requires |s| > 0 && |t| > 0
    ensures s[0] == t[0]
  {
    assert s[0] in multiset(t) && t[0] in multiset(s);
    var i :| 0 <= i < |t| && t[i] == s[0];
    var j :| 0 <= j < |s| && s[j] == t[0];
    if i > 0 && j > 0 {
      KeyLessTransitive(key(s[0]), key(s[j]), key(t[i]));
      KeyLessIrreflexive(key(s[0]));
    }
  }

  lemma RestOfMultiset<T>(s: seq<T>)
    requires |s| > 0
    ensures multiset(s[1..]) == multiset(s) - multiset{s[0]}
  {
    assert s == [s[0]] + s[1..];
  }

  /** A strictly ordered permutation is unique, so re-sorting gives the same list. */
  lemma {:induction false} StrictOrderUnique<T(!new)>(s: seq<T>, t: seq<T>, key: T -> Key)
    requires multiset(s) == multiset(t) && StrictlyOrdered(s, key) && StrictlyOrdered(t, key)
    ensures s == t
    decreases |s|
  {
    assert |s| == |multiset(s)| == |multiset(t)| == |t|;
    if |s| > 0 {
      SameFirst(s, t, key);
      RestOfMultiset(s);
      RestOfMultiset(t);
      assert StrictlyOrdered(s[1..], key) && StrictlyOrdered(t[1..], key);
      hide StrictlyOrdered;
      StrictOrderUnique(s[1..], t[1..], key);
      assert s == [s[0]] + s[1..] && t == [t[0]] + t[1..];
    }
  }

  lemma PlacedOrdered<T(!new)>(s: seq<T>, i: nat, x: T, key: T -> Key)
    requires Ordered(s, key) && i <= |s|
    requires forall j | i <= j < |s| :: KeyLess(key(x), key(s[j]))
    requires i > 0 ==> !KeyLess(key(x), key(s[i - 1]))
    ensures Ordered(s[..i] + [x] + s[i..], key)
  {
    forall a | 0 <= a < i
      ensures !KeyLess(key(x), key(s[a]))
    {
      if KeyLess(key(x), key(s[a])) {
        KeyLessTotal(key(s[a]), key(s[i - 1]));
        if KeyLess(key(s[a]), key(s[i - 1])) { KeyLessTransitive(key(x), key(s[a]), key(s[i - 1])); }
      }
    }
    forall b | i <= b < |s|
      ensures !KeyLess(key(s[b]), key(x))
    {
      if KeyLess(key(s[b]), key(x)) {
        KeyLessTransitive(key(x), key(s[b]), key(x));
        KeyLessIrreflexive(key(x));
      }
    }
    var r := s[..i] + [x] + s[i..];
    assert forall a | 0 <= a < |r| :: r[a] == if a < i then s[a] else if a == i then x else s[a - 1];
  }

  /** Put `x` in its place in an ordered list. */
  method Place<T(!new)>(s: seq<T>, x: T, key: T -> Key) returns (r: seq<T>)
    requires Ordered(s, key)
    ensures Ordered(r, key) && multiset(r) == multiset(s) + multiset{x}
  {
    var i := |s|;
    while i > 0 && KeyLess(key(x), key(s[i - 1]))
      invariant 0 <= i <= |s|
      invariant forall j | i <= j < |s| :: KeyLess(key(x), key(s[j]))
    {
      i := i - 1;
    }
    PlacedOrdered(s, i, x, key);
    r := s[..i] + [x] + s[i..];
    assert s == s[..i] + s[i..];
  }

  /** `sort.Slice` by that key. */
  method SortBy<T(!new)>(s: seq<T>, key: T -> Key) returns (r: seq<T>)
    ensures Ordered(r, key) && multiset(r) == multiset(s)
  {
    r := [];
    for i := 0 to |s|
      invariant Ordered(r, key) && multiset(r) == multiset(s[..i])
    {
      r := Place(r, s[i], key);
      assert s[..i + 1] == s[..i] + [s[i]];
    }
    assert s[..|s|] == s;
  }
}
