/** Sequence helpers shared by the whole model: optional values, flattening,
    first-appearance de-duplication. */
module Collections {

  datatype Option<T> = None | Some(value: T)

  /** No value occurs twice in `s`. */
  predicate NoDuplicates<T(==)>(s: seq<T>) {
    forall i, j :: 0 <= i < j < |s| ==> s[i] != s[j]
  }

  /** Appending keeps a sequence free of duplicates exactly when the new
      element is not already in it. */
  lemma NoDuplicatesSnoc<T>(s: seq<T>, x: T)
    ensures NoDuplicates(s + [x]) <==> NoDuplicates(s) && x !in s
  {
    var t := s + [x];
    if NoDuplicates(t) {
      forall i, j | 0 <= i < j < |s| ensures s[i] != s[j] {
        assert t[i] == s[i] && t[j] == s[j];
      }
      forall i | 0 <= i < |s| ensures s[i] != x {
        assert t[i] == s[i] && t[|s|] == x;
      }
    }
  }

  /** A sequence without members is empty. */
  lemma NoMembersEmpty<T>(s: seq<T>)
    requires forall x :: x !in s
    ensures s == []
  {
    forall x ensures multiset(s)[x] == 0 {
      assert x !in s;
    }
    assert multiset(s) == multiset{};
  }

  lemma AppendAssoc<T>(a: seq<T>, b: seq<T>, c: seq<T>)
    ensures (a + b) + c == a + (b + c)
  {
  }

  /** Concatenation of a sequence of sequences, in order. */
  function Flatten<T>(ss: seq<seq<T>>): seq<T> {
    if ss == [] then [] else ss[0] + Flatten(ss[1..])
  }

  lemma {:induction false} FlattenAppend<T>(a: seq<seq<T>>, b: seq<seq<T>>)
    ensures Flatten(a + b) == Flatten(a) + Flatten(b)
  {
    if a == [] {
      assert a + b == b;
    } else {
      assert (a + b)[0] == a[0];
      assert (a + b)[1..] == a[1..] + b;
      FlattenAppend(a[1..], b);
    }
  }

  /** Flattening a one-longer prefix appends that element: what a loop over
      the chunks of a batch job needs. */
  lemma FlattenSnoc<T>(ss: seq<seq<T>>, i: nat)
    requires i < |ss|
    ensures Flatten(ss[..i + 1]) == Flatten(ss[..i]) + ss[i]
  {
    assert ss[..i + 1] == ss[..i] + [ss[i]];
    FlattenAppend(ss[..i], [ss[i]]);
    assert Flatten([ss[i]]) == ss[i] + Flatten([]);
  }

  /** The elements of `s` in order of first appearance, each once
      (`[...new Set(s)]`). */
  function Distinct<T(==)>(s: seq<T>): seq<T> {
    if s == [] then []
    else
      var d := Distinct(s[..|s| - 1]);
      if s[|s| - 1] in d then d else d + [s[|s| - 1]]
  }

  lemma {:induction false} DistinctSpec<T>(s: seq<T>)
    ensures NoDuplicates(Distinct(s))
    ensures forall x :: x in Distinct(s) <==> x in s
  {
    if s != [] {
      var init := s[..|s| - 1];
      DistinctSpec(init);
      assert s == init + [s[|s| - 1]];
    }
  }

  /** Distinct keeps first appearances in order: the first element of `s` is
      the first element of the result, and a prefix of `s` yields a prefix. */
  lemma {:induction false} DistinctPrefix<T>(s: seq<T>, k: nat)
    requires k <= |s|
    ensures Distinct(s[..k]) <= Distinct(s)
  {
    if k < |s| {
      DistinctPrefix(s[..|s| - 1], k);
      assert s[..|s| - 1][..k] == s[..k];
    } else {
      assert s[..k] == s;
    }
  }

  lemma DistinctSnoc<T>(s: seq<T>, x: T)
    ensures Distinct(s + [x]) == if x in Distinct(s) then Distinct(s) else Distinct(s) + [x]
  {
    assert (s + [x])[..|s + [x]| - 1] == s;
  }

  /** `s.map(f)`. */
  function MapSeq<T, U>(s: seq<T>, f: T -> U): (r: seq<U>)
    ensures |r| == |s| && forall i :: 0 <= i < |s| ==> r[i] == f(s[i])
  {
    seq(|s|, i requires 0 <= i < |s| => f(s[i]))
  }

  lemma MapSeqAppend<T, U>(a: seq<T>, b: seq<T>, f: T -> U)
    ensures MapSeq(a + b, f) == MapSeq(a, f) + MapSeq(b, f)
  {
  }

  /** Every element of a flattened sequence comes from one of its parts. */
  lemma {:induction false} FlattenMember<T>(ss: seq<seq<T>>, x: T)
    requires x in Flatten(ss)
    ensures exists i :: 0 <= i < |ss| && x in ss[i]
  {
    if ss != [] {
      if x !in ss[0] {
        FlattenMember(ss[1..], x);
        var i :| 0 <= i < |ss[1..]| && x in ss[1..][i];
        assert x in ss[i + 1];
      }
    }
  }

  /** Every element of a part is in the flattened sequence. */
  lemma {:induction false} FlattenContains<T>(ss: seq<seq<T>>, i: nat, x: T)
    requires i < |ss| && x in ss[i]
    ensures x in Flatten(ss)
  {
    if i > 0 {
      FlattenContains(ss[1..], i - 1, x);
    }
  }

  /** A flattened sequence is the parts before `i`, part `i`, and the parts after. */
  lemma FlattenSplit<T>(ss: seq<seq<T>>, i: nat)
    requires i < |ss|
    ensures Flatten(ss) == Flatten(ss[..i]) + ss[i] + Flatten(ss[i + 1..])
  {
    assert ss == ss[..i + 1] + ss[i + 1..];
    FlattenAppend(ss[..i + 1], ss[i + 1..]);
    FlattenSnoc(ss, i);
  }

  /** `s.flatMap(f)` grows by `f(s[i])` when `s[i]` is added. */
  lemma FlatMapSnoc<T, U>(s: seq<T>, f: T -> seq<U>, i: nat)
    requires i < |s|
    ensures Flatten(MapSeq(s[..i + 1], f)) == Flatten(MapSeq(s[..i], f)) + f(s[i])
  {
    var ss := MapSeq(s[..i], f);
    assert MapSeq(s[..i + 1], f) == ss + [f(s[i])];
    FlattenAppend(ss, [f(s[i])]);
  }

  /** An element of `s.flatMap(f)` is an element of `f(y)` for some `y` in
      `s`, and every such element is in it. */
  lemma FlatMapMember<T, U>(s: seq<T>, f: T -> seq<U>)
    ensures forall x :: x in Flatten(MapSeq(s, f)) <==> exists y :: y in s && x in f(y)
  {
    var ss := MapSeq(s, f);
    forall x | x in Flatten(ss) ensures exists y :: y in s && x in f(y) {
      FlattenMember(ss, x);
      var i :| 0 <= i < |ss| && x in ss[i];
      assert s[i] in s && x in f(s[i]);
    }
    forall x | exists y :: y in s && x in f(y) ensures x in Flatten(ss) {
      var y :| y in s && x in f(y);
      var i :| 0 <= i < |s| && s[i] == y;
      FlattenContains(ss, i, x);
    }
  }

  /** `xs.filter(x => keys.has(key(x)))` (`inside`), or its negation. */
  function Where<T, K>(xs: seq<T>, key: T -> K, keys: set<K>, inside: bool): seq<T> {
    if xs == [] then []
    else
      var init := Where(xs[..|xs| - 1], key, keys, inside);
      var x := xs[|xs| - 1];
      if (key(x) in keys) == inside then init + [x] else init
  }

  /** A filter keeps every element on its side as often as it occurs, and
      drops the others. */
  lemma {:induction false} WhereCount<T, K>(xs: seq<T>, key: T -> K, keys: set<K>, inside: bool)
    ensures forall x ::
      multiset(Where(xs, key, keys, inside))[x] == if (key(x) in keys) == inside then multiset(xs)[x] else 0
    ensures forall x :: x in Where(xs, key, keys, inside) <==> x in xs && (key(x) in keys) == inside
  {
    if xs != [] {
      var init := xs[..|xs| - 1];
      WhereCount(init, key, keys, inside);
      assert xs == init + [xs[|xs| - 1]];
    }
  }

  /** A filter every element passes keeps the whole sequence. */
  lemma {:induction false} WhereAll<T, K>(xs: seq<T>, key: T -> K, keys: set<K>, inside: bool)
    requires forall x :: x in xs ==> (key(x) in keys) == inside
    ensures Where(xs, key, keys, inside) == xs
  {
    if xs != [] {
      var init := xs[..|xs| - 1];
      assert forall x :: x in init ==> x in xs;
      WhereAll(init, key, keys, inside);
      assert xs == init + [xs[|xs| - 1]];
    }
  }

  /** A filter every element fails keeps nothing. */
  lemma {:induction false} WhereNone<T, K>(xs: seq<T>, key: T -> K, keys: set<K>, inside: bool)
    requires forall x :: x in xs ==> (key(x) in keys) != inside
    ensures Where(xs, key, keys, inside) == []
  {
    if xs != [] {
      var init := xs[..|xs| - 1];
      assert forall x :: x in init ==> x in xs;
      WhereNone(init, key, keys, inside);
      assert xs[|xs| - 1] in xs;
    }
  }

  /** The two sides of a filter split the sequence: together they hold every
      element as often as it occurs. */
  lemma {:induction false} WherePartition<T, K>(xs: seq<T>, key: T -> K, keys: set<K>)
    ensures multiset(Where(xs, key, keys, false)) + multiset(Where(xs, key, keys, true)) == multiset(xs)
  {
    if xs != [] {
      var init := xs[..|xs| - 1];
      WherePartition(init, key, keys);
      assert xs == init + [xs[|xs| - 1]];
    }
  }
}
