/** Lists of keys as the source treats them: duplicates dropped, other keys filtered out. */
module Sequences {
  /** `[...new Set(keys)]`: the first occurrence of each key, in order. */
  function Distinct(keys: seq<string>): (distinct: seq<string>)
    ensures forall key :: key in distinct <==> key in keys
    ensures forall i, j :: 0 <= i < j < |distinct| ==> distinct[i] != distinct[j]
  {
    if keys == [] then []
    else
      var front := Distinct(keys[..|keys| - 1]);
      var last := keys[|keys| - 1];
      assert keys == keys[..|keys| - 1] + [last];
      if last in front then front else front + [last]
  }

  /** `keys.filter(key => !removed.includes(key))`. */
  function Without(keys: seq<string>, removed: seq<string>): (kept: seq<string>)
    ensures forall key :: key in kept <==> key in keys && key !in removed
    ensures |kept| <= |keys|
  {
    if keys == [] then []
    else
      var rest := Without(keys[1..], removed);
      if keys[0] in removed then rest else [keys[0]] + rest
  }

  /** The list has the keys of another one, each once, in the order in which they first come there. */
  ghost predicate ListedOnce(list: seq<string>, keys: seq<string>) {
    && (forall key :: key in list <==> key in keys)
    && (forall i, j :: 0 <= i < j < |list| ==> list[i] != list[j] && ComesFirst(keys, list[i], list[j]))
  }

  ghost predicate ComesFirst(keys: seq<string>, x: string, y: string) {
    exists n: nat :: n <= |keys| && x in keys[..n] && y !in keys[..n]
  }

  lemma {:induction false} DistinctListsOnce(keys: seq<string>)
    ensures ListedOnce(Distinct(keys), keys)
  {
    if keys != [] {
      var front := keys[..|keys| - 1];
      DistinctListsOnce(front);
      var list := Distinct(keys);
      forall i, j | 0 <= i < j < |list|
        ensures ComesFirst(keys, list[i], list[j])
      {
        if j < |Distinct(front)| {
          var n: nat :| n <= |front| && list[i] in front[..n] && list[j] !in front[..n];
          assert front[..n] == keys[..n];
        } else {
          assert list[i] in Distinct(front) && keys[..|front|] == front;
        }
      }
    }
  }

  /** The list is what is left of the keys, in their order, when the removed ones are taken out. */
  predicate LeftOver(list: seq<string>, keys: seq<string>, removed: seq<string>) {
    if |keys| == 0 then |list| == 0
    else if keys[|keys| - 1] in removed then LeftOver(list, keys[..|keys| - 1], removed)
    else |list| > 0 && list[|list| - 1] == keys[|keys| - 1]
         && LeftOver(list[..|list| - 1], keys[..|keys| - 1], removed)
  }

  lemma {:induction false} WithoutGrows(keys: seq<string>, key: string, removed: seq<string>)
    ensures Without(keys + [key], removed) == Without(keys, removed) + (if key in removed then [] else [key])
  {
    if keys == [] {
      assert keys + [key] == [key];
      assert Without([], removed) == [];
    } else {
      assert (keys + [key])[1..] == keys[1..] + [key];
      WithoutGrows(keys[1..], key, removed);
    }
  }

  lemma {:induction false} WithoutLeavesOver(keys: seq<string>, removed: seq<string>, distinct: seq<string>)
    requires forall key :: key in distinct <==> key in removed
    ensures LeftOver(Without(keys, distinct), keys, removed)
  {
    if |keys| > 0 {
      var front, last := keys[..|keys| - 1], keys[|keys| - 1];
      assert keys == front + [last];
      WithoutGrows(front, last, distinct);
      WithoutLeavesOver(front, removed, distinct);
      if last !in removed {
        assert (Without(front, distinct) + [last])[..|Without(front, distinct)|] == Without(front, distinct);
      } else {
        assert Without(front, distinct) + [] == Without(front, distinct);
      }
    }
  }
}
