/** The array primitives the engine relies on: `filter` by position,
    `findIndex`, and the remove-then-insert pair of `splice` calls that a
    drag-and-drop reorder performs. */
module Sequences {
  import opened Options

  /** `s.filter((_, i) => i !== index)`: every element except the one at
      `index`; an index outside the array keeps everything. */
  function Without<T>(s: seq<T>, index: int): (r: seq<T>)
    ensures 0 <= index < |s| ==> r == s[..index] + s[index + 1..]
    ensures !(0 <= index < |s|) ==> r == s
    decreases |s|
  {
    if |s| == 0 then []
    else (if index == 0 then [] else [s[0]]) + Without(s[1..], index - 1)
  }

  /** `s.findIndex((x) => x === key)` over the keys of `s`: the first
      position holding `key`, None for -1. */
  function FirstIndex<K(==)>(keys: seq<K>, key: K): (r: Option<nat>)
    ensures r.Some? ==> r.value < |keys| && keys[r.value] == key
    ensures r.Some? ==> forall j :: 0 <= j < r.value ==> keys[j] != key
    ensures r.None? <==> key !in keys
    decreases |keys|
  {
    if |keys| == 0 then None
    else if keys[0] == key then Some(0)
    else match FirstIndex(keys[1..], key)
      case None => None
      case Some(j) => Some(j + 1)
  }

  /** `s.splice(index, 0, x)`: insert `x` so that it lands at `index`. */
  function InsertAt<T>(s: seq<T>, index: nat, x: T): (r: seq<T>)
    requires index <= |s|
    ensures |r| == |s| + 1 && r[index] == x
    ensures Without(r, index) == s
    ensures multiset(r) == multiset(s) + multiset{x}
  {
    var r := s[..index] + [x] + s[index..];
    assert r[..index] == s[..index] && r[index + 1..] == s[index..];
    assert s == s[..index] + s[index..];
    r
  }

  /** Removing one element takes exactly that element out of the multiset. */
  lemma WithoutMultiset<T>(s: seq<T>, index: nat)
    requires index < |s|
    ensures multiset(s) == multiset(Without(s, index)) + multiset{s[index]}
  {
    SliceMultiset(s, index);
  }

  lemma SliceMultiset<T>(s: seq<T>, i: nat)
    requires i < |s|
    ensures multiset(s) == multiset(s[..i] + s[i + 1..]) + multiset{s[i]}
  {
    var front, back := s[..i], s[i + 1..];
    SplitAt(s, i);
    assert multiset(s) == multiset(front) + multiset([s[i]]) + multiset(back);
    assert multiset(front + back) == multiset(front) + multiset(back);
  }

  lemma HeadMultiset<T>(s: seq<T>)
    requires |s| > 0
    ensures multiset(s) == multiset{s[0]} + multiset(s[1..])
  {
    assert s == [s[0]] + s[1..];
  }

  /** `const [x] = s.splice(from, 1); s.splice(to, 0, x)`: take the element
      at `from` out and insert it at `to` of the shortened array, so that it
      ends up at position `to`. */
  function Move<T>(s: seq<T>, from: nat, to: nat): (r: seq<T>)
    requires from < |s| && to < |s|
    ensures |r| == |s|
    ensures r[to] == s[from]
  {
    InsertAt(Without(s, from), to, s[from])
  }

  /** A move rearranges the elements: it neither adds nor loses any. */
  lemma MovePermutes<T>(s: seq<T>, from: nat, to: nat)
    requires from < |s| && to < |s|
    ensures multiset(Move(s, from, to)) == multiset(s)
  {
    WithoutMultiset(s, from);
  }

  /** Taking the moved element out again leaves what was left after it
      was taken out in the first place: the rest keep their relative order. */
  lemma MoveRest<T>(s: seq<T>, from: nat, to: nat)
    requires from < |s| && to < |s|
    ensures Without(Move(s, from, to), to) == Without(s, from)
  {
  }

  /** Dragging the element back to where it came from restores the order. */
  lemma {:induction false} MoveBack<T>(s: seq<T>, from: nat, to: nat)
    requires from < |s| && to < |s|
    ensures Move(Move(s, from, to), to, from) == s
  {
    var r := Move(s, from, to);
    var rest := Without(s, from);
    MoveRest(s, from, to);
    calc {
      Move(r, to, from);
      InsertAt(rest, from, s[from]);
      { assert rest[..from] == s[..from] && rest[from..] == s[from + 1..]; }
      s[..from] + [s[from]] + s[from + 1..];
      { SplitAt(s, from); }
      s;
    }
  }

  lemma SplitAt<T>(s: seq<T>, i: nat)
    requires i < |s|
    ensures s == s[..i] + [s[i]] + s[i + 1..]
  {
  }
}
