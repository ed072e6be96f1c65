/**
 Byte-wise ordering, and the library sort and dedup the source calls on its vectors.

 Everything canonical in the program is a vector sorted by a key and then checked for equal
 neighbours, or deduplicated. The lemmas say what that amounts to: a strictly ordered vector of
 the same elements, found repeated exactly when two elements share a key, and determined by its
 members alone.
 */
module Order {
  import opened Wrappers

  predicate Less(a: string, b: string) {
    b != [] && (a == [] || a[0] < b[0] || (a[0] == b[0] && Less(a[1..], b[1..])))
  }

  lemma {:induction false} Trichotomy(a: string, b: string)
    ensures Less(a, b) || Less(b, a) || a == b
    ensures !(Less(a, b) && Less(b, a)) && !Less(a, a)
  {
    if a != [] && b != [] {
      Trichotomy(a[1..], b[1..]);
      assert a == [a[0]] + a[1..] && b == [b[0]] + b[1..];
    }
    if a != [] {
      Trichotomy(a[1..], a[1..]);
    }
  }

  lemma {:induction false} Transitive(a: string, b: string, c: string)
    requires !Less(b, a) && !Less(c, b)
    ensures !Less(c, a)
    ensures Less(a, b) || Less(b, c) ==> Less(a, c)
  {
    if a != [] && b != [] && c != [] {
      if a[0] == b[0] == c[0] {
        Transitive(a[1..], b[1..], c[1..]);
      }
    }
  }

  /** Fixed-width fields compare one after the other. */
  lemma {:induction false} LessByFields(a: string, x: string, b: string, y: string)
    requires |a| == |b|
    ensures Less(a + x, b + y) <==> Less(a, b) || (a == b && Less(x, y))
  {
    if a == [] {
      assert a + x == x && b + y == y;
    } else {
      LessByFields(a[1..], x, b[1..], y);
      assert (a + x)[1..] == a[1..] + x && (b + y)[1..] == b[1..] + y;
      assert a == [a[0]] + a[1..] && b == [b[0]] + b[1..];
    }
  }

  // ---------- sorting by a key ----------

  ghost predicate Sorted<T>(s: seq<T>, key: T -> string) {
    forall i, j :: 0 <= i < j < |s| ==> !Less(key(s[j]), key(s[i]))
  }

  ghost predicate Strict<T>(s: seq<T>, key: T -> string) {
    forall i, j :: 0 <= i < j < |s| ==> Less(key(s[i]), key(s[j]))
  }

  function Insert<T>(x: T, s: seq<T>, key: T -> string): seq<T> {
    if s == [] || !Less(key(s[0]), key(x)) then [x] + s else [s[0]] + Insert(x, s[1..], key)
  }

  /** The stable `sort_by` on a key. */
  function Sort<T>(s: seq<T>, key: T -> string): seq<T> {
    if s == [] then [] else Insert(s[0], Sort(s[1..], key), key)
  }

  lemma {:induction false} InsertSorted<T>(x: T, s: seq<T>, key: T -> string)
    requires Sorted(s, key)
    ensures Sorted(Insert(x, s, key), key)
    ensures multiset(Insert(x, s, key)) == multiset(s) + multiset{x}
  {
    if s == [] {
    } else if !Less(key(s[0]), key(x)) {
      forall j | 0 <= j < |s| ensures !Less(key(s[j]), key(x)) {
        if j > 0 {
          Transitive(key(x), key(s[0]), key(s[j]));
        }
      }
    } else {
      assert s == [s[0]] + s[1..];
      InsertSorted(x, s[1..], key);
      var r := Insert(x, s[1..], key);
      forall j | 0 <= j < |r| ensures !Less(key(r[j]), key(s[0])) {
        assert r[j] in multiset(r);
        Trichotomy(key(s[0]), key(x));
        if r[j] != x {
          assert r[j] in s[1..];
        }
      }
    }
  }

  lemma {:induction false} SortSorted<T>(s: seq<T>, key: T -> string)
    ensures Sorted(Sort(s, key), key)
    ensures multiset(Sort(s, key)) == multiset(s)
  {
    if s != [] {
      SortSorted(s[1..], key);
      InsertSorted(s[0], Sort(s[1..], key), key);
      assert s == [s[0]] + s[1..];
    }
  }

  lemma {:induction false} SortMembers<T>(s: seq<T>, key: T -> string)
    ensures |Sort(s, key)| == |s|
    ensures forall x :: x in Sort(s, key) <==> x in s
  {
    SortSorted(s, key);
    assert |multiset(Sort(s, key))| == |multiset(s)|;
    forall x ensures x in Sort(s, key) <==> x in s {
      assert x in multiset(Sort(s, key)) <==> x in multiset(s);
    }
  }

  lemma {:induction false} SortIdentity<T>(s: seq<T>, key: T -> string)
    requires Sorted(s, key)
    ensures Sort(s, key) == s
  {
    if s != [] {
      SortIdentity(s[1..], key);
      assert s == [s[0]] + s[1..];
    }
  }

  lemma StrictIsSorted<T>(s: seq<T>, key: T -> string)
    requires Strict(s, key)
    ensures Sorted(s, key)
    ensures forall i, j :: 0 <= i < |s| && 0 <= j < |s| && key(s[i]) == key(s[j]) ==> i == j
  {
    forall i, j | 0 <= i < j < |s| ensures !Less(key(s[j]), key(s[i])) && key(s[i]) != key(s[j]) {
      Trichotomy(key(s[i]), key(s[j]));
    }
  }

  /** `windows(2).find(|pair| pair[0].key == pair[1].key)` */
  function FirstRepeat<T>(s: seq<T>, key: T -> string): (r: Option<T>)
    ensures r.None? <==> forall i :: 0 <= i < |s| - 1 ==> key(s[i]) != key(s[i + 1])
    ensures r.Some? ==> exists i :: 0 <= i < |s| - 1 && r.value == s[i] && key(s[i]) == key(s[i + 1])
  {
    if |s| < 2 then None
    else if key(s[0]) == key(s[1]) then Some(s[0])
    else
      var t := s[1..];
      assert forall i :: 0 <= i < |t| ==> t[i] == s[i + 1];
      FirstRepeat(t, key)
  }

  /** On a sorted vector the adjacent test finds a repeat exactly when there is one. */
  lemma NoRepeatIsStrict<T>(s: seq<T>, key: T -> string)
    requires Sorted(s, key)
    ensures FirstRepeat(s, key).None? <==> Strict(s, key)
  {
    if FirstRepeat(s, key).None? {
      forall i, j | 0 <= i < j < |s| ensures Less(key(s[i]), key(s[j])) {
        Trichotomy(key(s[i]), key(s[i + 1]));
        if i + 1 < j {
          Transitive(key(s[i]), key(s[i + 1]), key(s[j]));
        }
      }
    } else if Strict(s, key) {
      StrictIsSorted(s, key);
    }
  }

  ghost predicate DistinctKeys<T>(s: seq<T>, key: T -> string) {
    forall i, j :: 0 <= i < |s| && 0 <= j < |s| && key(s[i]) == key(s[j]) ==> i == j
  }

  lemma RepeatInMultiset<T>(s: seq<T>, i: nat, j: nat)
    requires i < j < |s|
    ensures s[i] in multiset(s) && s[j] in multiset(s)
    ensures s[i] == s[j] ==> multiset(s)[s[i]] >= 2
  {
    assert s == s[..i] + [s[i]] + s[i + 1..j] + [s[j]] + s[j + 1..];
  }

  lemma OnceInMultiset<T>(s: seq<T>, key: T -> string, x: T)
    requires DistinctKeys(s, key) && x in s
    ensures multiset(s)[x] == 1
  {
    var i :| 0 <= i < |s| && s[i] == x;
    assert s == s[..i] + [x] + s[i + 1..];
    assert x !in s[..i] && x !in s[i + 1..];
  }

  lemma DistinctInvariant<T>(s: seq<T>, t: seq<T>, key: T -> string)
    requires DistinctKeys(s, key) && multiset(s) == multiset(t)
    ensures DistinctKeys(t, key)
  {
    forall i, j | 0 <= i < j < |t| ensures key(t[i]) != key(t[j]) {
      RepeatInMultiset(t, i, j);
      assert t[i] in s && t[j] in s;
      OnceInMultiset(s, key, t[i]);
    }
  }

  /** Sorting and then testing neighbours finds a repeated key exactly when there is one. */
  lemma RepeatExact<T>(s: seq<T>, key: T -> string)
    ensures FirstRepeat(Sort(s, key), key).None? <==> DistinctKeys(s, key)
    ensures FirstRepeat(Sort(s, key), key).None? <==> Strict(Sort(s, key), key)
  {
    var t := Sort(s, key);
    SortSorted(s, key);
    NoRepeatIsStrict(t, key);
    if Strict(t, key) {
      StrictIsSorted(t, key);
      DistinctInvariant(t, s, key);
    }
    if DistinctKeys(s, key) {
      DistinctInvariant(s, t, key);
    }
  }

  // ---------- which repeat is found ----------

  /** Two elements have the key `k`. */
  ghost predicate Repeated<T>(s: seq<T>, key: T -> string, k: string) {
    exists i, j :: 0 <= i < j < |s| && key(s[i]) == key(s[j]) == k
  }

  ghost function Count<T>(s: seq<T>, key: T -> string, k: string): nat {
    if s == [] then 0 else (if key(s[0]) == k then 1 else 0) + Count(s[1..], key, k)
  }

  lemma CountCons<T>(x: T, s: seq<T>, key: T -> string, k: string)
    ensures Count([x] + s, key, k) == (if key(x) == k then 1 else 0) + Count(s, key, k)
  {
    assert ([x] + s)[1..] == s;
  }

  lemma {:induction false} Counted<T>(s: seq<T>, key: T -> string, k: string, i: nat)
    requires i < |s| && key(s[i]) == k
    ensures Count(s, key, k) >= 1
  {
    if i > 0 {
      Counted(s[1..], key, k, i - 1);
    }
  }

  lemma {:induction false} CountedAt<T>(s: seq<T>, key: T -> string, k: string) returns (i: nat)
    requires Count(s, key, k) >= 1
    ensures i < |s| && key(s[i]) == k
  {
    if key(s[0]) == k {
      i := 0;
    } else {
      i := CountedAt(s[1..], key, k);
      i := i + 1;
    }
  }

  lemma {:induction false} CountedTwice<T>(s: seq<T>, key: T -> string, k: string, i: nat, j: nat)
    requires i < j < |s| && key(s[i]) == key(s[j]) == k
    ensures Count(s, key, k) >= 2
  {
    if i == 0 {
      Counted(s[1..], key, k, j - 1);
    } else {
      CountedTwice(s[1..], key, k, i - 1, j - 1);
    }
  }

  lemma {:induction false} CountedTwiceAt<T>(s: seq<T>, key: T -> string, k: string) returns (i: nat, j: nat)
    requires Count(s, key, k) >= 2
    ensures i < j < |s| && key(s[i]) == key(s[j]) == k
  {
    if key(s[0]) == k {
      i := 0;
      j := CountedAt(s[1..], key, k);
      j := j + 1;
    } else {
      i, j := CountedTwiceAt(s[1..], key, k);
      i, j := i + 1, j + 1;
    }
  }

  lemma RepeatedIsCounted<T>(s: seq<T>, key: T -> string, k: string)
    ensures Repeated(s, key, k) <==> Count(s, key, k) >= 2
  {
    if Repeated(s, key, k) {
      var i, j :| 0 <= i < j < |s| && key(s[i]) == key(s[j]) == k;
      CountedTwice(s, key, k, i, j);
    }
    if Count(s, key, k) >= 2 {
      var i, j := CountedTwiceAt(s, key, k);
    }
  }

  lemma {:induction false} InsertCounts<T>(x: T, s: seq<T>, key: T -> string, k: string)
    ensures Count(Insert(x, s, key), key, k) == (if key(x) == k then 1 else 0) + Count(s, key, k)
  {
    hide Count, Less;
    if s == [] || !Less(key(s[0]), key(x)) {
      CountCons(x, s, key, k);
    } else {
      assert s == [s[0]] + s[1..];
      InsertCounts(x, s[1..], key, k);
      CountCons(s[0], s[1..], key, k);
      CountCons(s[0], Insert(x, s[1..], key), key, k);
    }
  }

  lemma {:induction false} SortCounts<T>(s: seq<T>, key: T -> string, k: string)
    ensures Count(Sort(s, key), key, k) == Count(s, key, k)
  {
    if s != [] {
      SortCounts(s[1..], key, k);
      InsertCounts(s[0], Sort(s[1..], key), key, k);
    }
  }

  lemma {:induction false} FirstIsLeast<T(!new)>(s: seq<T>, key: T -> string, k: string)
    requires Sorted(s, key) && FirstRepeat(s, key).Some? && Count(s, key, k) >= 2
    ensures !Less(k, key(FirstRepeat(s, key).value))
  {
    hide Less;
    var i, j := CountedTwiceAt(s, key, k);
    Trichotomy(k, k);
    if key(s[0]) == key(s[1]) {
      assert i > 0 ==> !Less(key(s[i]), key(s[0]));
    } else {
      if key(s[0]) == k {
        assert s[j] in s[1..];
        HeadBelow(s, key, s[j]);
      }
      FirstIsLeast(s[1..], key, k);
    }
  }

  lemma FoundIsRepeated<T(!new)>(s: seq<T>, key: T -> string)
    ensures FirstRepeat(s, key).Some? ==> Count(s, key, key(FirstRepeat(s, key).value)) >= 2
  {
    hide Less, Count;
    if FirstRepeat(s, key).Some? {
      var i :| 0 <= i < |s| - 1 && FirstRepeat(s, key).value == s[i] && key(s[i]) == key(s[i + 1]);
      CountedTwice(s, key, key(s[i]), i, i + 1);
    }
  }

  /** Of all repeated keys, the one found by sorting and testing neighbours is the least. */
  lemma RepeatIsLeast<T(!new)>(s: seq<T>, key: T -> string)
    ensures var r := FirstRepeat(Sort(s, key), key);
      r.Some? ==> Repeated(s, key, key(r.value)) && forall k :: Repeated(s, key, k) ==> !Less(k, key(r.value))
  {
    hide *;
    var r := FirstRepeat(Sort(s, key), key);
    SortSorted(s, key);
    FoundIsRepeated(Sort(s, key), key);
    if r.Some? {
      SortCounts(s, key, key(r.value));
      RepeatedIsCounted(s, key, key(r.value));
      forall k | Repeated(s, key, k) ensures !Less(k, key(r.value)) {
        RepeatedIsCounted(s, key, k);
        SortCounts(s, key, k);
        FirstIsLeast(Sort(s, key), key, k);
      }
    }
  }

  /** `Vec::dedup`: drops an element equal to the one before it. */
  function Dedup<T(==,!new)>(s: seq<T>): (r: seq<T>)
    ensures |r| <= |s|
    ensures s != [] ==> r != [] && r[0] == s[0]
    ensures forall x :: x in r <==> x in s
  {
    if |s| < 2 then s
    else
      assert s == [s[0]] + s[1..];
      if s[0] == s[1] then Dedup(s[1..]) else [s[0]] + Dedup(s[1..])
  }

  lemma HeadBelow<T(!new)>(s: seq<T>, key: T -> string, x: T)
    requires |s| >= 2 && Sorted(s, key) && key(s[0]) != key(s[1]) && x in s[1..]
    ensures Less(key(s[0]), key(x))
  {
    hide Less;
    var k :| 1 <= k < |s| && s[k] == x;
    Trichotomy(key(s[0]), key(s[1]));
    assert !Less(key(s[1]), key(s[0]));
    if k > 1 {
      assert !Less(key(s[k]), key(s[1]));
      Transitive(key(s[0]), key(s[1]), key(s[k]));
    }
  }

  lemma {:induction false} DedupStrict<T(!new)>(s: seq<T>, key: T -> string)
    requires Sorted(s, key)
    requires forall x, y :: x in s && y in s && key(x) == key(y) ==> x == y
    ensures Strict(Dedup(s), key)
  {
    hide Less;
    if |s| >= 2 {
      DedupStrict(s[1..], key);
      if s[0] != s[1] {
        var r := Dedup(s[1..]);
        forall j | 0 <= j < |r| ensures Less(key(s[0]), key(r[j])) {
          assert r[j] in s[1..];
          HeadBelow(s, key, r[j]);
        }
      }
    }
  }

  lemma {:induction false} DedupIdentity<T(!new)>(s: seq<T>, key: T -> string)
    requires Strict(s, key)
    ensures Dedup(s) == s
  {
    if |s| >= 2 {
      StrictIsSorted(s, key);
      DedupIdentity(s[1..], key);
      assert s[0] != s[1];
      assert s == [s[0]] + s[1..];
    }
  }

  function Keys<T>(s: seq<T>, key: T -> string): (keys: seq<string>)
    ensures |keys| == |s| && forall i :: 0 <= i < |s| ==> keys[i] == key(s[i])
  {
    seq(|s|, i requires 0 <= i < |s| => key(s[i]))
  }

  ghost predicate StrictKeys(s: seq<string>) {
    forall i, j :: 0 <= i < j < |s| ==> Less(s[i], s[j])
  }

  /** A strictly ordered sequence is determined by its set of members. */
  lemma {:induction false} StrictKeysUnique(a: seq<string>, b: seq<string>)
    requires StrictKeys(a) && StrictKeys(b)
    requires forall x :: x in a <==> x in b
    ensures a == b
  {
    if a == [] {
      assert forall i :: 0 <= i < |b| ==> b[i] in b;
    } else {
      assert a[0] in b && b[0] in a;
      Trichotomy(a[0], b[0]);
      assert a[0] == b[0];
      StrictTail(a);
      StrictTail(b);
      StrictKeysUnique(a[1..], b[1..]);
      assert a == [a[0]] + a[1..] && b == [b[0]] + b[1..];
    }
  }

  lemma StrictTail(a: seq<string>)
    requires StrictKeys(a) && a != []
    ensures StrictKeys(a[1..])
    ensures forall x :: x in a[1..] <==> x in a && x != a[0]
  {
    assert a == [a[0]] + a[1..];
    forall x | x in a[1..] ensures x != a[0] {
      Trichotomy(a[0], x);
    }
  }

  /** So is a sequence strictly ordered by a key. */
  lemma StrictUnique<T>(a: seq<T>, b: seq<T>, key: T -> string)
    requires Strict(a, key) && Strict(b, key)
    requires multiset(a) == multiset(b)
    ensures a == b
  {
    SameKeys(a, b, key);
    SameKeys(b, a, key);
    StrictKeysUnique(Keys(a, key), Keys(b, key));
    StrictIsSorted(b, key);
    forall i | 0 <= i < |a| ensures a[i] == b[i] {
      assert a[i] in multiset(b);
      var k :| 0 <= k < |b| && b[k] == a[i];
      assert key(b[k]) == Keys(a, key)[i] == Keys(b, key)[i];
    }
  }

  lemma SameKeys<T>(a: seq<T>, b: seq<T>, key: T -> string)
    requires multiset(a) == multiset(b)
    ensures forall x :: x in Keys(a, key) ==> x in Keys(b, key)
    ensures |a| == |b|
  {
    assert |multiset(a)| == |multiset(b)|;
    forall x | x in Keys(a, key) ensures x in Keys(b, key) {
      var i :| 0 <= i < |a| && key(a[i]) == x;
      assert a[i] in multiset(b);
      var k :| 0 <= k < |b| && b[k] == a[i];
      assert Keys(b, key)[k] == x;
    }
  }
}
