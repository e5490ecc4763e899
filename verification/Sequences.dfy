/** Sequences as the loops of the providers build them: the elements a condition
    keeps, the first element for each key in the order of the input, the first
    elements up to a limit, and texts joined end to end.  A step lemma says what one
    more turn of such a loop adds. */
module Sequences {
  function Filter<T>(xs: seq<T>, keep: T -> bool): seq<T> {
    if xs == [] then []
    else
      var last := xs[|xs| - 1];
      Filter(xs[..|xs| - 1], keep) + if keep(last) then [last] else []
  }

  function Take<T>(xs: seq<T>, limit: nat): seq<T> {
    if |xs| <= limit then xs else xs[..limit]
  }

  function KeysOf<T(==), K(==)>(xs: seq<T>, key: T -> K): set<K> {
    set x | x in xs :: key(x)
  }

  /** Each element whose key no earlier element has. */
  function FirstByKey<T(==), K(==)>(xs: seq<T>, key: T -> K): seq<T> {
    if xs == [] then []
    else
      var before, last := xs[..|xs| - 1], xs[|xs| - 1];
      FirstByKey(before, key) + if key(last) in KeysOf(before, key) then [] else [last]
  }

  /** The parts with a blank between each two. */
  function Joined(parts: seq<string>): string {
    if parts == [] then ""
    else if |parts| == 1 then parts[0]
    else Joined(parts[..|parts| - 1]) + " " + parts[|parts| - 1]
  }

  predicate Contains<T(==)>(xs: seq<T>, part: seq<T>) {
    part <= xs || (xs != [] && Contains(xs[1..], part))
  }

  lemma FilterStep<T>(xs: seq<T>, x: T, keep: T -> bool)
    ensures Filter(xs + [x], keep) == Filter(xs, keep) + if keep(x) then [x] else []
  {
    assert (xs + [x])[..|xs|] == xs;
  }

  lemma FirstByKeyStep<T, K>(xs: seq<T>, x: T, key: T -> K)
    ensures FirstByKey(xs + [x], key) == FirstByKey(xs, key) + if key(x) in KeysOf(xs, key) then [] else [x]
    ensures KeysOf(xs + [x], key) == KeysOf(xs, key) + {key(x)}
  {
    assert (xs + [x])[..|xs|] == xs;
  }

  lemma {:induction false} FilterAppend<T>(xs: seq<T>, ys: seq<T>, keep: T -> bool)
    ensures Filter(xs + ys, keep) == Filter(xs, keep) + Filter(ys, keep)
  {
    if ys == [] {
      assert xs + ys == xs;
    } else {
      var front, last := ys[..|ys| - 1], ys[|ys| - 1];
      assert xs + ys == (xs + front) + [last] && ys == front + [last];
      FilterAppend(xs, front, keep);
      FilterStep(xs + front, last, keep);
      FilterStep(front, last, keep);
    }
  }

  lemma {:induction false} FilterContents<T>(xs: seq<T>, keep: T -> bool)
    ensures forall x :: x in Filter(xs, keep) <==> x in xs && keep(x)
    ensures |Filter(xs, keep)| <= |xs|
  {
    if xs != [] {
      FilterContents(xs[..|xs| - 1], keep);
      assert xs == xs[..|xs| - 1] + [xs[|xs| - 1]];
    }
  }

  lemma {:induction false} FilterNone<T>(xs: seq<T>, keep: T -> bool)
    requires forall x :: x in xs ==> !keep(x)
    ensures Filter(xs, keep) == []
  {
    if xs != [] {
      FilterNone(xs[..|xs| - 1], keep);
    }
  }

  lemma {:induction false} FilterAll<T>(xs: seq<T>, keep: T -> bool)
    requires forall x :: x in xs ==> keep(x)
    ensures Filter(xs, keep) == xs
  {
    if xs != [] {
      var front, last := xs[..|xs| - 1], xs[|xs| - 1];
      assert xs == front + [last];
      assert last in xs && forall x :: x in front ==> x in xs;
      FilterAll(front, keep);
      FilterStep(front, last, keep);
    }
  }

  lemma TakePrefix<T>(xs: seq<T>, ys: seq<T>, limit: nat)
    requires xs <= ys && |xs| >= limit
    ensures Take(xs, limit) == Take(ys, limit)
  {
    assert xs[..limit] == ys[..limit];
  }

  /** First occurrences have distinct keys and lose none. */
  lemma {:induction false} FirstByKeyDistinct<T, K>(xs: seq<T>, key: T -> K)
    ensures forall i, j :: 0 <= i < j < |FirstByKey(xs, key)| ==>
      key(FirstByKey(xs, key)[i]) != key(FirstByKey(xs, key)[j])
    ensures KeysOf(FirstByKey(xs, key), key) == KeysOf(xs, key)
    ensures forall x :: x in FirstByKey(xs, key) ==> x in xs
    ensures |FirstByKey(xs, key)| <= |xs|
  {
    if xs != [] {
      var before, last := xs[..|xs| - 1], xs[|xs| - 1];
      FirstByKeyDistinct(before, key);
      assert xs == before + [last];
      FirstByKeyStep(before, last, key);
      var first := FirstByKey(before, key);
      assert forall i :: 0 <= i < |first| ==> key(first[i]) in KeysOf(first, key);
      FirstKeysStep(first, last, key);
    }
  }

  lemma FirstKeysStep<T, K>(first: seq<T>, last: T, key: T -> K)
    ensures KeysOf(first + [last], key) == KeysOf(first, key) + {key(last)}
  {
  }

  /** Each element kept is the first with its key. */
  lemma {:induction false} FirstByKeyIsFirst<T, K>(xs: seq<T>, key: T -> K, x: T) returns (i: nat)
    requires x in FirstByKey(xs, key)
    ensures i < |xs| && xs[i] == x && forall j :: 0 <= j < i ==> key(xs[j]) != key(x)
  {
    var before, last := xs[..|xs| - 1], xs[|xs| - 1];
    if x in FirstByKey(before, key) {
      i := FirstByKeyIsFirst(before, key, x);
    } else {
      i := |before|;
      assert forall j :: 0 <= j < i ==> before[j] in before && key(before[j]) in KeysOf(before, key);
    }
  }

  /** More input only adds to the end. */
  lemma {:induction false} FirstByKeyGrows<T, K>(xs: seq<T>, ys: seq<T>, key: T -> K)
    ensures FirstByKey(xs, key) <= FirstByKey(xs + ys, key)
  {
    if ys == [] {
      assert xs + ys == xs;
    } else {
      var front, last := ys[..|ys| - 1], ys[|ys| - 1];
      assert xs + ys == (xs + front) + [last];
      FirstByKeyGrows(xs, front, key);
      FirstByKeyStep(xs + front, last, key);
    }
  }

  /** A part is contained exactly when it stands at some place. */
  lemma {:induction false} ContainsExactly<T>(xs: seq<T>, part: seq<T>)
    ensures Contains(xs, part) <==> exists i :: 0 <= i <= |xs| && part <= xs[i..]
  {
    if xs != [] {
      var rest := xs[1..];
      ContainsExactly(rest, part);
      if i :| 0 <= i <= |rest| && part <= rest[i..] {
        assert xs[i + 1..] == rest[i..];
      }
      if i :| 0 < i <= |xs| && part <= xs[i..] {
        assert rest[i - 1..] == xs[i..];
      }
      assert xs[0..] == xs;
    } else {
      assert xs[0..] == xs;
    }
  }

  /** Texts are joined by one blank. */
  lemma {:induction false} JoinedAppend(a: seq<string>, b: seq<string>)
    requires a != [] && b != []
    ensures Joined(a + b) == Joined(a) + " " + Joined(b)
  {
    var front, last := b[..|b| - 1], b[|b| - 1];
    if front == [] {
      assert b == [last] && (a + b)[..|a|] == a;
    } else {
      JoinedAppend(a, front);
      assert (a + b)[..|a + b| - 1] == a + front;
      assert Joined(a) + " " + Joined(front) + (" " + last) == Joined(a) + " " + (Joined(front) + " " + last);
    }
  }
}
