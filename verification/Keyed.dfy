/** Lists edited by key: the item a key addresses is put or removed, and every other item stays where it was. */
module Keyed {
  /** The item a key addresses, if it addresses one. */
  datatype Sole = Absent | At(index: nat) | Ambiguous

  function SoleIndex<T>(items: seq<T>, key: T -> string, k: string): (s: Sole)
    ensures s.Absent? <==> forall i :: 0 <= i < |items| ==> key(items[i]) != k
    ensures s.At? ==> s.index < |items| && key(items[s.index]) == k
    ensures s.At? ==> forall i :: 0 <= i < |items| && i != s.index ==> key(items[i]) != k
    ensures s.Ambiguous? <==> exists i, j :: 0 <= i < j < |items| && key(items[i]) == k && key(items[j]) == k
    decreases |items|
  {
    if items == [] then Absent
    else
      var last := |items| - 1;
      var before := SoleIndex(items[..last], key, k);
      if key(items[last]) != k then before
      else if before.Absent? then At(last)
      else Ambiguous
  }

  /** Replaces the addressed item where it stands, or appends. */
  function Put<T>(items: seq<T>, key: T -> string, x: T): seq<T>
    requires !SoleIndex(items, key, key(x)).Ambiguous?
  {
    var at := SoleIndex(items, key, key(x));
    if at.At? then items[at.index := x] else items + [x]
  }

  function Remove<T>(items: seq<T>, key: T -> string, k: string): seq<T>
    requires SoleIndex(items, key, k).At?
  {
    var at := SoleIndex(items, key, k).index;
    items[..at] + items[at + 1..]
  }

  /** The items a key does, or does not, address, in order. */
  function Select<T>(items: seq<T>, key: T -> string, k: string, addressed: bool): seq<T>
    decreases |items|
  {
    if items == [] then []
    else
      var rest := Select(items[1..], key, k, addressed);
      if (key(items[0]) == k) == addressed then [items[0]] + rest else rest
  }

  lemma {:induction false} SelectJoins<T>(a: seq<T>, b: seq<T>, key: T -> string, k: string, addressed: bool)
    ensures Select(a + b, key, k, addressed) == Select(a, key, k, addressed) + Select(b, key, k, addressed)
    decreases |a|
  {
    if a == [] {
      assert a + b == b;
    } else {
      SelectJoins(a[1..], b, key, k, addressed);
      assert (a + b)[1..] == a[1..] + b;
    }
  }

  lemma {:induction false} SelectNone<T>(items: seq<T>, key: T -> string, k: string)
    requires forall i :: 0 <= i < |items| ==> key(items[i]) != k
    ensures Select(items, key, k, true) == [] && Select(items, key, k, false) == items
    decreases |items|
  {
    if items != [] {
      SelectNone(items[1..], key, k);
    }
  }

  /** An item split out of the list by its key. */
  lemma SelectAt<T>(items: seq<T>, key: T -> string, k: string, i: nat)
    requires i < |items| && key(items[i]) == k
    requires forall j :: 0 <= j < |items| && j != i ==> key(items[j]) != k
    ensures Select(items, key, k, true) == [items[i]]
    ensures Select(items, key, k, false) == items[..i] + items[i + 1..]
  {
    var (before, after) := (items[..i], items[i + 1..]);
    assert items == before + ([items[i]] + after);
    SelectNone(before, key, k);
    SelectNone(after, key, k);
    assert ([items[i]] + after)[1..] == after;
    SelectJoins(before, [items[i]] + after, key, k, true);
    SelectJoins(before, [items[i]] + after, key, k, false);
  }

  /** After a put the key addresses exactly the new item; every other item is there, in order and in place. */
  lemma PutChangesOne<T>(items: seq<T>, key: T -> string, x: T)
    requires !SoleIndex(items, key, key(x)).Ambiguous?
    ensures var after := Put(items, key, x);
      && Select(after, key, key(x), true) == [x]
      && Select(after, key, key(x), false) == Select(items, key, key(x), false)
      && |items| <= |after|
      && forall i :: 0 <= i < |items| ==> after[i] == if key(items[i]) == key(x) then x else items[i]
  {
    var at := SoleIndex(items, key, key(x));
    var after := Put(items, key, x);
    if at.At? {
      SelectAt(items, key, key(x), at.index);
      SelectAt(after, key, key(x), at.index);
    } else {
      SelectNone(items, key, key(x));
      SelectAt(after, key, key(x), |items|);
    }
  }

  /** A remove takes the addressed item and keeps every other in order. */
  lemma RemoveTakesOne<T>(items: seq<T>, key: T -> string, k: string)
    requires SoleIndex(items, key, k).At?
    ensures var after := Remove(items, key, k);
      && Select(after, key, k, true) == []
      && after == Select(items, key, k, false)
      && |after| + 1 == |items|
  {
    var i := SoleIndex(items, key, k).index;
    SelectAt(items, key, k, i);
    SelectNone(Remove(items, key, k), key, k);
  }
}
