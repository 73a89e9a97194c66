/**
 * First-wins de-duplication by key, the rule shared by the colour wheel's album map
 * (frontend/src/components/TracksColorWheel.js) and the playlist unique-album filter
 * (server/spotify.go). Entries are given by their keys; `None` marks an entry that is
 * skipped altogether. The result is the list of kept INDICES in input order, so that a
 * caller can keep either the entries themselves or their identities.
 */
module FirstWins {
  import opened Wrappers

  /** The keys carried by the entries of `keys` (a `None` entry carries none). */
  function Seen<K(==,!new)>(keys: seq<Option<K>>): (s: set<K>)
    ensures forall v :: v in s <==> exists i :: 0 <= i < |keys| && keys[i] == Some(v)
  {
    if keys == [] then {}
    else
      var n := |keys| - 1;
      assert forall i :: 0 <= i < n ==> keys[..n][i] == keys[i];
      Seen(keys[..n]) + (if keys[n].Some? then {keys[n].value} else {})
  }

  /** Index `i` carries a key, and no earlier entry carries the same key. */
  predicate IsFirst<K(==,!new)>(keys: seq<Option<K>>, i: int)
    requires 0 <= i < |keys|
  {
    keys[i].Some? && forall j :: 0 <= j < i ==> keys[j] != keys[i]
  }

  /**
   * The indices that a single left-to-right pass keeps: an entry is kept when it carries
   * a key that no earlier entry carried.
   */
  function Firsts<K(==,!new)>(keys: seq<Option<K>>): (r: seq<nat>)
    ensures forall m :: 0 <= m < |r| ==> r[m] < |keys|
    ensures forall m, m' :: 0 <= m < m' < |r| ==> r[m] < r[m']
  {
    if keys == [] then []
    else
      var n := |keys| - 1;
      if keys[n].Some? && keys[n].value !in Seen(keys[..n]) then Firsts(keys[..n]) + [n]
      else Firsts(keys[..n])
  }

  /** Exactly the first occurrences are kept: both directions. */
  lemma {:induction false} FirstsAreExactlyFirstOccurrences<K(!new)>(keys: seq<Option<K>>)
    ensures forall i :: i in Firsts(keys) <==> 0 <= i < |keys| && IsFirst(keys, i)
  {
    if keys != [] {
      var n := |keys| - 1;
      var pre := keys[..n];
      FirstsAreExactlyFirstOccurrences(pre);
      forall i | 0 <= i < n
        ensures IsFirst(pre, i) <==> IsFirst(keys, i)
      {
        assert forall j :: 0 <= j <= i ==> pre[j] == keys[j];
      }
      if keys[n].Some? {
        assert keys[n].value !in Seen(pre) <==> forall j :: 0 <= j < n ==> keys[j] != keys[n] by {
          assert forall j :: 0 <= j < n ==> pre[j] == keys[j];
        }
      }
    }
  }

  /** No two kept entries share a key. */
  lemma KeptKeysDistinct<K(!new)>(keys: seq<Option<K>>)
    ensures forall m, m' :: 0 <= m < m' < |Firsts(keys)| ==>
      keys[Firsts(keys)[m]] != keys[Firsts(keys)[m']]
  {
    var r := Firsts(keys);
    FirstsAreExactlyFirstOccurrences(keys);
    forall m, m' | 0 <= m < m' < |r|
      ensures keys[r[m]] != keys[r[m']]
    {
      assert r[m'] in r;
      assert IsFirst(keys, r[m']);
    }
  }

  /** Every key that occurs in the input is carried by some kept entry, and by nothing else. */
  lemma {:induction false} KeptKeysCoverInput<K(!new)>(keys: seq<Option<K>>)
    ensures forall v :: v in Seen(keys) <==>
      exists m :: 0 <= m < |Firsts(keys)| && keys[Firsts(keys)[m]] == Some(v)
  {
    if keys != [] {
      var n := |keys| - 1;
      var pre := keys[..n];
      var r, r' := Firsts(keys), Firsts(pre);
      KeptKeysCoverInput(pre);
      assert r[..|r'|] == r';
      forall v
        ensures v in Seen(keys) <==> exists m :: 0 <= m < |r| && keys[r[m]] == Some(v)
      {
        if v in Seen(pre) {
          var m :| 0 <= m < |r'| && pre[r'[m]] == Some(v);
          assert r[m] == r'[m] && keys[r[m]] == Some(v);
        } else if v in Seen(keys) {
          assert keys[n] == Some(v);
          assert r == r' + [n] && keys[r[|r'|]] == Some(v);
        } else {
          forall m | 0 <= m < |r| ensures keys[r[m]] != Some(v) {
          }
        }
      }
    }
  }

  /** One kept entry per distinct key: the output is as long as the set of keys. */
  lemma {:induction false} KeptCountIsKeyCount<K(!new)>(keys: seq<Option<K>>)
    ensures |Firsts(keys)| == |Seen(keys)|
  {
    if keys != [] {
      var n := |keys| - 1;
      KeptCountIsKeyCount(keys[..n]);
      if keys[n].Some? && keys[n].value !in Seen(keys[..n]) {
        assert Seen(keys) == Seen(keys[..n]) + {keys[n].value};
      } else {
        assert Seen(keys) == Seen(keys[..n]);
      }
    }
  }

  /** Extending the input by one entry: the step a loop over the input takes. */
  lemma FirstsSnoc<K(!new)>(keys: seq<Option<K>>, i: nat)
    requires i < |keys|
    ensures Firsts(keys[..i + 1]) ==
      if keys[i].Some? && keys[i].value !in Seen(keys[..i]) then Firsts(keys[..i]) + [i]
      else Firsts(keys[..i])
    ensures Seen(keys[..i + 1]) ==
      Seen(keys[..i]) + (if keys[i].Some? then {keys[i].value} else {})
  {
    assert keys[..i + 1][..i] == keys[..i];
  }

  /** A key, the same key again, then a new key: the first and the third entries are kept. */
  lemma FirstsOfRepeatThenNew<K(!new)>(x: K, y: K)
    requires x != y
    ensures Firsts([Some(x), Some(x), Some(y)]) == [0, 2]
  {
    var k1: seq<Option<K>> := [Some(x)];
    var k2 := k1 + [Some(x)];
    var keys := k2 + [Some(y)];
    assert k1[..0] == [];
    assert Firsts(k1) == [0] && Seen(k1) == {x};
    assert k2[..1] == k1;
    assert Firsts(k2) == [0] && Seen(k2) == {x};
    assert keys[..2] == k2;
    assert Firsts(keys) == [0, 2];
    assert keys == [Some(x), Some(x), Some(y)];
  }
}
