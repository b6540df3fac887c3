/** The sort stage of the book list: the comparator over the chosen field and direction,
    the stable sort it induces (a specification function), its properties, and the
    in-place sort of a fresh copy that the list runs. */
module BookSort {
  import opened BookTypes
  import JsString

  /** The value the comparator compares: the numeric id, or the lowercased string. */
  datatype SortKey = NumKey(n: int) | TextKey(s: string)

  function KeyOf(b: Book, field: SortField): SortKey {
    match field
    case IdField => NumKey(b.id)
    case NameField => TextKey(JsString.ToLower(b.name))
    case CategoryField => TextKey(JsString.ToLower(b.category))
  }

  /** JavaScript's `<` on two keys of the same kind. Keys of one field are all of one
      kind, so the mixed case never arises. */
  predicate KeyLess(x: SortKey, y: SortKey) {
    match (x, y)
    case (NumKey(m), NumKey(n)) => m < n
    case (TextKey(a), TextKey(b)) => JsString.Less(a, b)
    case _ => false
  }

  /** The comparator returns a negative number for `(a, b)`: `a` is placed before `b`. */
  predicate Before(a: Book, b: Book, field: SortField, dir: SortDirection) {
    if dir == Asc then KeyLess(KeyOf(a, field), KeyOf(b, field))
    else KeyLess(KeyOf(b, field), KeyOf(a, field))
  }

  /** Two books the comparator orders strictly have different keys. */
  lemma BeforeKeysDiffer(a: Book, b: Book, field: SortField, dir: SortDirection)
    requires Before(a, b, field, dir)
    ensures KeyOf(a, field) != KeyOf(b, field)
  {
    var ka, kb := KeyOf(a, field), KeyOf(b, field);
    if ka.TextKey? && kb.TextKey? {
      JsString.LessAsymmetric(if dir == Asc then ka.s else kb.s, if dir == Asc then kb.s else ka.s);
    }
  }

  lemma BeforeAsymmetric(a: Book, b: Book, field: SortField, dir: SortDirection)
    requires Before(a, b, field, dir)
    ensures !Before(b, a, field, dir)
  {
    var ka, kb := KeyOf(a, field), KeyOf(b, field);
    if ka.TextKey? && kb.TextKey? {
      JsString.LessAsymmetric(if dir == Asc then ka.s else kb.s, if dir == Asc then kb.s else ka.s);
    }
  }

  /** "Not before" is transitive: the comparator is a consistent total preorder, as
      `Array.prototype.sort` requires. */
  lemma NotBeforeTransitive(a: Book, b: Book, c: Book, field: SortField, dir: SortDirection)
    requires !Before(a, b, field, dir) && !Before(b, c, field, dir)
    ensures !Before(a, c, field, dir)
  {
    if field != IdField {
      var x, y, z := KeyOf(a, field).s, KeyOf(b, field).s, KeyOf(c, field).s;
      JsString.LessTotal(x, y);
      JsString.LessTotal(y, z);
      JsString.LessIrreflexive(x);
      JsString.LessIrreflexive(z);
      if dir == Asc {
        if JsString.Less(x, z) {
          if JsString.Less(y, x) { JsString.LessTransitive(y, x, z); }
          if JsString.Less(z, y) && y != x { JsString.LessTransitive(z, y, x); JsString.LessTransitive(x, z, x); }
        }
      } else {
        if JsString.Less(z, x) {
          if JsString.Less(x, y) { JsString.LessTransitive(z, x, y); }
          if JsString.Less(y, z) && y != x { JsString.LessTransitive(x, y, z); JsString.LessTransitive(x, z, x); }
        }
      }
    }
  }

  /** Inserting `x` into a sorted prefix the way an insertion sort does: it moves left
      past every element it goes strictly before, and stops at the first it does not. */
  function Insert(t: seq<Book>, x: Book, field: SortField, dir: SortDirection): seq<Book>
    decreases |t|
  {
    if t == [] then [x]
    else if Before(x, t[|t| - 1], field, dir) then Insert(t[..|t| - 1], x, field, dir) + [t[|t| - 1]]
    else t + [x]
  }

  /** The stable sort of `s` under the comparator. */
  function StableSort(s: seq<Book>, field: SortField, dir: SortDirection): seq<Book>
    decreases |s|
  {
    if s == [] then [] else Insert(StableSort(s[..|s| - 1], field, dir), s[|s| - 1], field, dir)
  }

  /** No book is placed after one it should precede. */
  predicate SortedBy(s: seq<Book>, field: SortField, dir: SortDirection) {
    forall i, j :: 0 <= i < j < |s| ==> !Before(s[j], s[i], field, dir)
  }

  /** The books of `s` whose key is `k`, in their order in `s`. */
  function WithKey(s: seq<Book>, k: SortKey, field: SortField): seq<Book>
    decreases |s|
  {
    if s == [] then []
    else WithKey(s[..|s| - 1], k, field) + (if KeyOf(s[|s| - 1], field) == k then [s[|s| - 1]] else [])
  }

  lemma {:induction false} InsertMultiset(t: seq<Book>, x: Book, field: SortField, dir: SortDirection)
    ensures multiset(Insert(t, x, field, dir)) == multiset(t) + multiset{x}
    decreases |t|
  {
    if t != [] && Before(x, t[|t| - 1], field, dir) {
      InsertMultiset(t[..|t| - 1], x, field, dir);
      assert t == t[..|t| - 1] + [t[|t| - 1]];
    }
  }

  /** Appending `y` to a sorted sequence keeps it sorted when `y` goes before none of it. */
  lemma SortedAppend(s: seq<Book>, y: Book, field: SortField, dir: SortDirection)
    requires SortedBy(s, field, dir)
    requires forall e :: e in s ==> !Before(y, e, field, dir)
    ensures SortedBy(s + [y], field, dir)
  {
    var r := s + [y];
    forall i, j | 0 <= i < j < |r| ensures !Before(r[j], r[i], field, dir) {
      if j == |s| {
        assert r[i] in s;
      } else {
        assert r[i] == s[i] && r[j] == s[j];
      }
    }
  }

  lemma {:induction false} InsertSorted(t: seq<Book>, x: Book, field: SortField, dir: SortDirection)
    requires SortedBy(t, field, dir)
    ensures SortedBy(Insert(t, x, field, dir), field, dir)
    decreases |t|
  {
    if t == [] {
    } else {
      var init, last := t[..|t| - 1], t[|t| - 1];
      assert SortedBy(init, field, dir) by {
        forall i, j | 0 <= i < j < |init| ensures !Before(init[j], init[i], field, dir) {
          assert init[i] == t[i] && init[j] == t[j];
        }
      }
      if Before(x, last, field, dir) {
        var u := Insert(init, x, field, dir);
        InsertSorted(init, x, field, dir);
        InsertMultiset(init, x, field, dir);
        forall e | e in u ensures !Before(last, e, field, dir) {
          assert e in multiset(init) + multiset{x};
          if e == x {
            BeforeAsymmetric(x, last, field, dir);
          } else {
            assert e in init;
            var i :| 0 <= i < |init| && init[i] == e;
            assert t[i] == e;
          }
        }
        SortedAppend(u, last, field, dir);
      } else {
        forall e | e in t ensures !Before(x, e, field, dir) {
          var i :| 0 <= i < |t| && t[i] == e;
          if i < |t| - 1 {
            NotBeforeTransitive(x, last, e, field, dir);
          }
        }
        SortedAppend(t, x, field, dir);
      }
    }
  }

  /** The books of key `k` among `x` alone. */
  function KeyMatch(x: Book, k: SortKey, field: SortField): seq<Book> {
    if KeyOf(x, field) == k then [x] else []
  }

  lemma WithKeySnoc(s: seq<Book>, y: Book, k: SortKey, field: SortField)
    ensures WithKey(s + [y], k, field) == WithKey(s, k, field) + KeyMatch(y, k, field)
  {
    assert (s + [y])[..|s|] == s;
  }

  /** The step of `InsertWithKey` where `x` moves left past `last`: the two differ in key,
      so at most one of them contributes to the books of key `k`. */
  lemma WithKeyPastLast(u: seq<Book>, init: seq<Book>, last: Book, x: Book, k: SortKey, field: SortField)
    requires WithKey(u, k, field) == WithKey(init, k, field) + KeyMatch(x, k, field)
    requires KeyMatch(x, k, field) == [] || KeyMatch(last, k, field) == []
    ensures WithKey(u + [last], k, field) == WithKey(init + [last], k, field) + KeyMatch(x, k, field)
  {
    WithKeySnoc(u, last, k, field);
    WithKeySnoc(init, last, k, field);
  }

  lemma {:induction false} InsertWithKey(t: seq<Book>, x: Book, k: SortKey, field: SortField, dir: SortDirection)
    ensures WithKey(Insert(t, x, field, dir), k, field) == WithKey(t, k, field) + KeyMatch(x, k, field)
    decreases |t|
  {
    if t == [] {
      assert Insert(t, x, field, dir) == [] + [x];
      WithKeySnoc([], x, k, field);
    } else {
      var init, last := t[..|t| - 1], t[|t| - 1];
      assert t == init + [last];
      if Before(x, last, field, dir) {
        var u := Insert(init, x, field, dir);
        assert Insert(t, x, field, dir) == u + [last];
        InsertWithKey(init, x, k, field, dir);
        BeforeKeysDiffer(x, last, field, dir);
        WithKeyPastLast(u, init, last, x, k, field);
      } else {
        assert Insert(t, x, field, dir) == t + [x];
        WithKeySnoc(t, x, k, field);
      }
    }
  }

  lemma {:induction false} StableSortPermutes(s: seq<Book>, field: SortField, dir: SortDirection)
    ensures multiset(StableSort(s, field, dir)) == multiset(s)
    decreases |s|
  {
    if s != [] {
      var init, last := s[..|s| - 1], s[|s| - 1];
      StableSortPermutes(init, field, dir);
      InsertMultiset(StableSort(init, field, dir), last, field, dir);
      assert s == init + [last];
    }
  }

  lemma {:induction false} StableSortSorts(s: seq<Book>, field: SortField, dir: SortDirection)
    ensures SortedBy(StableSort(s, field, dir), field, dir)
    decreases |s|
  {
    if s != [] {
      var init := s[..|s| - 1];
      StableSortSorts(init, field, dir);
      InsertSorted(StableSort(init, field, dir), s[|s| - 1], field, dir);
    }
  }

  lemma {:induction false} StableSortKeepsTies(s: seq<Book>, k: SortKey, field: SortField, dir: SortDirection)
    ensures WithKey(StableSort(s, field, dir), k, field) == WithKey(s, k, field)
    decreases |s|
  {
    if s != [] {
      var init, last := s[..|s| - 1], s[|s| - 1];
      var t := StableSort(init, field, dir);
      assert StableSort(s, field, dir) == Insert(t, last, field, dir);
      StableSortKeepsTies(init, k, field, dir);
      InsertWithKey(t, last, k, field, dir);
      assert WithKey(s, k, field) == WithKey(init, k, field) + KeyMatch(last, k, field);
    }
  }

  /** The stable sort is a permutation of its input, is sorted under the comparator, and
      keeps the books of each key in their input order (ties are not reordered). */
  lemma StableSortCorrect(s: seq<Book>, field: SortField, dir: SortDirection)
    ensures multiset(StableSort(s, field, dir)) == multiset(s)
    ensures SortedBy(StableSort(s, field, dir), field, dir)
    ensures forall k :: WithKey(StableSort(s, field, dir), k, field) == WithKey(s, k, field)
  {
    StableSortPermutes(s, field, dir);
    StableSortSorts(s, field, dir);
    forall k ensures WithKey(StableSort(s, field, dir), k, field) == WithKey(s, k, field) {
      StableSortKeepsTies(s, k, field, dir);
    }
  }

  /** The insertion moves `x` left past `t[j - 1]` when it goes strictly before it. */
  lemma InsertPastLast(t: seq<Book>, j: int, x: Book, field: SortField, dir: SortDirection)
    requires 0 < j <= |t| && Before(x, t[j - 1], field, dir)
    ensures Insert(t[..j], x, field, dir) + t[j..] == Insert(t[..j - 1], x, field, dir) + t[j - 1..]
  {
    assert t[..j][..j - 1] == t[..j - 1];
    assert t[j - 1..] == [t[j - 1]] + t[j..];
  }

  /** The insertion stops in front of the first element `x` does not go before. */
  lemma InsertStops(t: seq<Book>, j: int, x: Book, field: SortField, dir: SortDirection)
    requires 0 <= j <= |t| && (j == 0 || !Before(x, t[j - 1], field, dir))
    ensures Insert(t[..j], x, field, dir) == t[..j] + [x]
  {
  }

  /** Scans left from `i` for the slot of `x`: past every element `x` goes strictly
      before. */
  method InsertionSlot(a: array<Book>, i: int, x: Book, field: SortField, dir: SortDirection) returns (j: int)
    requires 0 <= i <= a.Length
    ensures 0 <= j <= i
    ensures Insert(a[..i], x, field, dir) == a[..j] + [x] + a[j..i]
  {
    ghost var t := a[..i];
    j := i;
    assert t[..j] == t && t[j..] == [];
    while j > 0 && Before(x, a[j - 1], field, dir)
      invariant 0 <= j <= i
      invariant Insert(t, x, field, dir) == Insert(t[..j], x, field, dir) + t[j..]
    {
      assert a[j - 1] == t[j - 1];
      InsertPastLast(t, j, x, field, dir);
      j := j - 1;
    }
    InsertStops(t, j, x, field, dir);
    assert t[..j] == a[..j] && t[j..] == a[j..i];
  }

  /** Moves `a[j..i]` one place right, over `a[i]`. */
  method ShiftRight(a: array<Book>, j: int, i: int)
    requires 0 <= j <= i < a.Length
    modifies a
    ensures forall k :: 0 <= k < j ==> a[k] == old(a[k])
    ensures forall k :: j < k <= i ==> a[k] == old(a[k - 1])
    ensures forall k :: i < k < a.Length ==> a[k] == old(a[k])
  {
    var k := i;
    while k > j
      invariant j <= k <= i
      invariant forall m :: 0 <= m <= k ==> a[m] == old(a[m])
      invariant forall m :: k < m <= i ==> a[m] == old(a[m - 1])
      invariant forall m :: i < m < a.Length ==> a[m] == old(a[m])
    {
      a[k] := a[k - 1];
      k := k - 1;
    }
  }

  /** Shifting `s[j..i]` one place right and writing `x` at `j` inserts `x` at `j`. */
  lemma ShiftedInsert(s: seq<Book>, shifted: seq<Book>, j: int, i: int, x: Book)
    requires 0 <= j <= i < |s| == |shifted|
    requires forall k :: 0 <= k < j ==> shifted[k] == s[k]
    requires forall k :: j < k <= i ==> shifted[k] == s[k - 1]
    requires forall k :: i < k < |s| ==> shifted[k] == s[k]
    ensures shifted[j := x][..i + 1] == s[..j] + [x] + s[j..i]
    ensures shifted[j := x][i + 1..] == s[i + 1..]
  {
    var r := shifted[j := x];
    forall k | 0 <= k <= i ensures r[..i + 1][k] == (s[..j] + [x] + s[j..i])[k] {
      if k > j {
        assert r[k] == s[j..i][k - j - 1];
      }
    }
  }

  /** One pass of the insertion sort: `a[..i]` is sorted, and `a[i]` is moved left past
      every element it goes strictly before. */
  method InsertAt(a: array<Book>, i: int, field: SortField, dir: SortDirection)
    requires 0 <= i < a.Length
    modifies a
    ensures a[..i + 1] == Insert(old(a[..i]), old(a[i]), field, dir)
    ensures a[i + 1..] == old(a[i + 1..])
  {
    var x := a[i];
    var j := InsertionSlot(a, i, x, field, dir);
    ghost var s := a[..];
    ShiftRight(a, j, i);
    ghost var shifted := a[..];
    a[j] := x;
    assert a[..] == shifted[j := x];
    ShiftedInsert(s, shifted, j, i, x);
    assert a[..i + 1] == a[..][..i + 1] && a[i + 1..] == a[..][i + 1..];
    assert s[..j] == old(a[..j]) && s[j..i] == old(a[j..i]);
  }

  /** `[...filteredBooks].sort(comparator)`: copies the list into a fresh array and sorts
      it in place by insertion, which is stable. */
  method SortedBooks(filtered: seq<Book>, field: SortField, dir: SortDirection) returns (sorted: seq<Book>)
    ensures sorted == StableSort(filtered, field, dir)
    ensures multiset(sorted) == multiset(filtered)
    ensures SortedBy(sorted, field, dir)
    ensures forall k :: WithKey(sorted, k, field) == WithKey(filtered, k, field)
  {
    var a := new Book[|filtered|](i requires 0 <= i < |filtered| => filtered[i]);
    var i := 0;
    while i < a.Length
      invariant 0 <= i <= a.Length
      invariant a[..i] == StableSort(filtered[..i], field, dir)
      invariant a[i..] == filtered[i..]
    {
      assert a[i] == filtered[i] by { assert a[i..][0] == filtered[i..][0]; }
      assert a[i + 1..] == filtered[i + 1..] by { assert a[i + 1..] == a[i..][1..]; }
      InsertAt(a, i, field, dir);
      assert filtered[..i + 1][..i] == filtered[..i];
      i := i + 1;
    }
    sorted := a[..];
    assert a[..] == a[..a.Length];
    assert filtered[..|filtered|] == filtered;
    StableSortCorrect(filtered, field, dir);
  }
}
