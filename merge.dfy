/**
 * Last-write-wins merging of maps, as Python's `dict` assignment and
 * `dict.update` do it: a later map's value for a key replaces an earlier one.
 */
module Merge {

  /** `d = {}` followed by `d.update(m)` for each `m` of `ms` in order. */
  function Overlay<K, V>(ms: seq<map<K, V>>): map<K, V>
  {
    if ms == [] then map[] else Overlay(ms[..|ms| - 1]) + ms[|ms| - 1]
  }

  /** A key is in the merge exactly when some map has it. */
  lemma {:induction false} OverlayKeys<K, V>(ms: seq<map<K, V>>, k: K)
    ensures k in Overlay(ms) <==> exists i :: 0 <= i < |ms| && k in ms[i]
  {
    if ms != [] {
      var init := ms[..|ms| - 1];
      OverlayKeys(init, k);
      if exists i :: 0 <= i < |init| && k in init[i] {
        var i :| 0 <= i < |init| && k in init[i];
        assert ms[i] == init[i];
      }
      if exists i :: 0 <= i < |ms| && k in ms[i] {
        var i :| 0 <= i < |ms| && k in ms[i];
        if i < |init| { assert init[i] == ms[i]; }
      }
    }
  }

  /** The merged value of a key is the one of the last map that has the key. */
  lemma {:induction false} OverlayLastWrite<K, V>(ms: seq<map<K, V>>, i: nat, k: K)
    requires i < |ms| && k in ms[i]
    requires forall j :: i < j < |ms| ==> k !in ms[j]
    ensures k in Overlay(ms) && Overlay(ms)[k] == ms[i][k]
  {
    if i < |ms| - 1 {
      var init := ms[..|ms| - 1];
      assert init[i] == ms[i];
      OverlayLastWrite(init, i, k);
    }
  }

  lemma UnionRegroup<K, V>(x: map<K, V>, y: map<K, V>, z: map<K, V>)
    ensures x + y + z == x + (y + z)
  {
  }

  /** Merging a concatenation is merging the merges of the two parts. */
  lemma {:induction false} OverlayAppend<K, V>(a: seq<map<K, V>>, b: seq<map<K, V>>)
    ensures Overlay(a + b) == Overlay(a) + Overlay(b)
  {
    if b == [] {
      assert a + b == a;
      assert Overlay(a) + map[] == Overlay(a);
    } else {
      var init, last := b[..|b| - 1], b[|b| - 1];
      OverlayAppend(a, init);
      assert (a + b)[..|a + b| - 1] == a + init;
      assert (a + b)[|a + b| - 1] == last;
      UnionRegroup(Overlay(a), Overlay(init), last);
    }
  }

  /** Merging maps that all write nothing writes nothing. */
  lemma {:induction false} OverlayOfEmpty<K, V>(ms: seq<map<K, V>>)
    requires forall i :: 0 <= i < |ms| ==> ms[i] == map[]
    ensures Overlay(ms) == map[]
  {
    if ms != [] {
      var init := ms[..|ms| - 1];
      assert forall i :: 0 <= i < |init| ==> init[i] == ms[i];
      OverlayOfEmpty(init);
      assert Overlay(ms) == map[] + map[];
    }
  }

  /** A map that writes nothing can be left out of a merge. */
  lemma OverlaySkipsEmpty<K, V>(a: seq<map<K, V>>, b: seq<map<K, V>>)
    ensures Overlay(a + [map[]] + b) == Overlay(a + b)
  {
    OverlayAppend(a + [map[]], b);
    OverlayAppend(a, b);
    assert (a + [map[]])[..|a|] == a;
  }
}
