/** The recency list of both buffer pools. The source keeps an intrusive doubly
    linked list between a head and a tail sentinel; here the list is the sequence
    of the page ids it links, index 0 being the node next to the head sentinel
    (most recently used) and the last index the node next to the tail sentinel
    (least recently used). */
module Recency {
  import opened Types

  /** No element occurs twice. */
  predicate Distinct(s: seq<PageId>) {
    forall i, j :: 0 <= i < j < |s| ==> s[i] != s[j]
  }

  /** `s` links exactly the elements of `keys`, each once: the list mirrors the
      cache's key set. */
  ghost predicate Tracks(s: seq<PageId>, keys: set<PageId>) {
    Distinct(s) && forall x :: x in s <==> x in keys
  }

  /** Reference definition: `s` with every element of `gone` dropped and the
      others kept in their order. */
  function Without(s: seq<PageId>, gone: set<PageId>): (r: seq<PageId>)
    ensures forall x :: x in r <==> x in s && x !in gone
    ensures Distinct(s) ==> Distinct(r)
    ensures |r| <= |s|
  {
    if s == [] then []
    else if s[0] in gone then Without(s[1..], gone)
    else [s[0]] + Without(s[1..], gone)
  }

  /** Dropping elements from a list without repeats leaves a list without repeats. */
  lemma {:induction false} WithoutDistinct(s: seq<PageId>, gone: set<PageId>)
    requires Distinct(s)
    ensures Distinct(Without(s, gone))
  {
    if s != [] {
      var rest := s[1..];
      assert Distinct(rest) by {
        forall i, j | 0 <= i < j < |rest| ensures rest[i] != rest[j] {
          assert rest[i] == s[i + 1] && rest[j] == s[j + 1];
        }
      }
      WithoutDistinct(rest, gone);
      if s[0] !in gone {
        assert s[0] !in rest by {
          forall k | 0 <= k < |rest| ensures rest[k] != s[0] { assert rest[k] == s[k + 1]; }
        }
        DistinctAppend([s[0]], Without(rest, gone));
      }
    }
  }

  /** Position of `x` in `s` (the node the list links for `x`). */
  function IndexOf(s: seq<PageId>, x: PageId): (i: nat)
    requires x in s
    ensures i < |s| && s[i] == x && x !in s[..i]
  {
    if s[0] == x then 0 else 1 + IndexOf(s[1..], x)
  }

  /** addToHead: link a node that is not in the list right after the head sentinel. */
  function AddToHead(s: seq<PageId>, x: PageId): (r: seq<PageId>)
    requires x !in s
    ensures |r| > 0 && r[0] == x
    ensures forall y :: y in r <==> y == x || y in s
    ensures Distinct(s) ==> Distinct(r) && Without(r, {x}) == Without(s, {x})
  {
    var r := [x] + s;
    assert r[1..] == s;
    r
  }

  /** remove: unlink a linked node; the others keep their order. */
  function Remove(s: seq<PageId>, x: PageId): (r: seq<PageId>)
    requires x in s
    ensures Distinct(s) ==> r == Without(s, {x})
  {
    var i := IndexOf(s, x);
    if Distinct(s) then WithoutAt(s, i); s[..i] + s[i + 1..]
    else s[..i] + s[i + 1..]
  }

  /** moveToHead: unlink a node and link it again right after the head sentinel. */
  function MoveToHead(s: seq<PageId>, x: PageId): (r: seq<PageId>)
    requires x in s
    ensures Distinct(s) ==> Distinct(r) && r == [x] + Without(s, {x})
    ensures forall y :: y in r <==> y in s
  {
    var rest := Remove(s, x);
    if Distinct(s) then AddToHead(rest, x)
    else
      // out of the modelled state: the unlinked node may still be reachable
      [x] + rest
  }

  /** removeLast: unlink the node before the tail sentinel and hand it back. */
  function RemoveLast(s: seq<PageId>): (r: (PageId, seq<PageId>))
    requires |s| > 0
    ensures r.0 == s[|s| - 1]
    ensures Distinct(s) ==> r.1 == s[..|s| - 1] && r.0 !in r.1
  {
    var last := s[|s| - 1];
    if Distinct(s) then WithoutAt(s, |s| - 1); (last, Remove(s, last))
    else (last, Remove(s, last))
  }

  /** Moving the head node to the head leaves the list as it is. */
  lemma MoveHeadKeeps(s: seq<PageId>, x: PageId)
    requires Distinct(s) && |s| > 0 && s[0] == x
    ensures MoveToHead(s, x) == s
  {
    assert s == [x] + s[1..];
    WithoutDisjoint(s[1..], {x});
  }

  /** In a list without repeats, dropping the element at `i` is cutting it out. */
  lemma WithoutAt(s: seq<PageId>, i: nat)
    requires Distinct(s) && i < |s|
    ensures Without(s, {s[i]}) == s[..i] + s[i + 1..]
  {
    var front, back := s[..i], s[i + 1..];
    OnlyAt(s, i, front, back);
    assert s == front + [s[i]] + back;
    WithoutSplit(front, s[i], back);
  }

  /** In a list without repeats, s[i] occurs neither before nor after index i. */
  lemma OnlyAt(s: seq<PageId>, i: nat, front: seq<PageId>, back: seq<PageId>)
    requires Distinct(s) && i < |s| && front == s[..i] && back == s[i + 1..]
    ensures s[i] !in front && s[i] !in back
  {
    forall k | 0 <= k < |front| ensures front[k] != s[i] { assert front[k] == s[k]; }
    forall k | 0 <= k < |back| ensures back[k] != s[i] { assert back[k] == s[i + 1 + k]; }
  }

  /** Dropping an element that occurs once, between `front` and `back`. */
  lemma WithoutSplit(front: seq<PageId>, x: PageId, back: seq<PageId>)
    requires x !in front && x !in back
    ensures Without(front + [x] + back, {x}) == front + back
  {
    var tail := [x] + back;
    assert front + [x] + back == front + tail;
    WithoutAppend(front, tail, {x});
    assert tail[1..] == back;
    WithoutDisjoint(front, {x});
    WithoutDisjoint(back, {x});
  }

  lemma {:induction false} WithoutAppend(a: seq<PageId>, b: seq<PageId>, gone: set<PageId>)
    ensures Without(a + b, gone) == Without(a, gone) + Without(b, gone)
  {
    if a != [] {
      assert (a + b)[0] == a[0];
      assert (a + b)[1..] == a[1..] + b;
      WithoutAppend(a[1..], b, gone);
      if a[0] !in gone {
        assert Without(a + b, gone) == [a[0]] + (Without(a[1..], gone) + Without(b, gone));
      }
    } else {
      assert a + b == b;
    }
  }

  lemma {:induction false} WithoutDisjoint(s: seq<PageId>, gone: set<PageId>)
    requires forall x :: x in s ==> x !in gone
    ensures Without(s, gone) == s
  {
    if s != [] {
      assert s[0] !in gone;
      WithoutDisjoint(s[1..], gone);
      assert Without(s, gone) == [s[0]] + Without(s[1..], gone);
      assert s == [s[0]] + s[1..];
    }
  }

  /** Dropping two sets one after the other is dropping their union. */
  lemma {:induction false} WithoutTwice(s: seq<PageId>, a: set<PageId>, b: set<PageId>)
    ensures Without(Without(s, a), b) == Without(s, a + b)
  {
    if s != [] {
      WithoutTwice(s[1..], a, b);
      if s[0] !in a {
        assert Without(s, a) == [s[0]] + Without(s[1..], a);
        assert Without(s, a)[1..] == Without(s[1..], a);
      }
    }
  }

  /** Two lists without repeats and without common elements join into one. */
  lemma DistinctAppend(a: seq<PageId>, b: seq<PageId>)
    requires Distinct(a) && Distinct(b) && forall x :: x in a ==> x !in b
    ensures Distinct(a + b)
  {
    forall i, j | 0 <= i < j < |a + b| ensures (a + b)[i] != (a + b)[j] {
      if i < |a| && j >= |a| {
        assert (a + b)[i] in a && (a + b)[j] in b;
      }
    }
  }

  /** Linking a new key at the head keeps a list tracking its key set. */
  lemma TracksAddToHead(s: seq<PageId>, keys: set<PageId>, x: PageId)
    requires Tracks(s, keys) && x !in keys
    ensures Tracks([x] + s, keys + {x})
  {
    assert ([x] + s)[1..] == s;
  }

  /** The list rotated at `k`: its nodes from `k` on moved ahead of the others,
      as a tail-first scan leaves it after relinking |s| - k nodes at the head. */
  function Rotated(s: seq<PageId>, k: nat): seq<PageId>
    requires k <= |s|
  {
    s[k..] + s[..k]
  }

  /** Rotating at either end leaves the list as it is. */
  lemma RotatedWhole(s: seq<PageId>)
    ensures Rotated(s, 0) == s && Rotated(s, |s|) == s
  {
    assert s[0..] == s && s[..0] == [];
    assert s[|s|..] == [] && s[..|s|] == s;
  }

  /** The list a tail-first scan leaves when it stops at position `k`: the nodes
      after `k` rotated to the front, and the node at `k` unlinked. */
  function RotatedPast(s: seq<PageId>, k: nat): seq<PageId>
    requires k < |s|
  {
    s[k + 1..] + s[..k]
  }

  /** Rotating a list (moving its last |s| - m nodes to the front) keeps it
      free of repeats. */
  lemma RotatedDistinct(s: seq<PageId>, m: nat)
    requires Distinct(s) && m <= |s|
    ensures Distinct(s[m..] + s[..m])
  {
    DistinctAppend(s[m..], s[..m]);
  }

  /** Rotating and then dropping the node at the cut unlinks exactly that node. */
  lemma RotatedDrop(s: seq<PageId>, keys: set<PageId>, m: nat)
    requires Tracks(s, keys) && 0 < m <= |s|
    ensures Tracks(s[m..] + s[..m - 1], keys - {s[m - 1]})
  {
    DistinctAppend(s[m..], s[..m - 1]);
  }

  /** One step of a tail-to-head rotation of a list without repeats: with the
      cut at `m`, removeLast hands back s[m - 1], and linking it again at the
      head moves the cut to m - 1. */
  lemma RotateStep(s: seq<PageId>, m: nat)
    requires Distinct(s) && 0 < m <= |s|
    ensures |s[m..] + s[..m]| > 0
    ensures RemoveLast(s[m..] + s[..m]) == (s[m - 1], s[m..] + s[..m - 1])
    ensures s[m - 1] !in s[m..] + s[..m - 1]
    ensures AddToHead(s[m..] + s[..m - 1], s[m - 1]) == s[m - 1..] + s[..m - 1]
  {
    RotateUnlink(s, m);
    RotateRelink(s, m);
  }

  /** The unlinking half of RotateStep. */
  lemma RotateUnlink(s: seq<PageId>, m: nat)
    requires Distinct(s) && 0 < m <= |s|
    ensures Distinct(s[m..] + s[..m])
    ensures (s[m..] + s[..m])[..|s| - 1] == s[m..] + s[..m - 1]
    ensures (s[m..] + s[..m])[|s| - 1] == s[m - 1]
    ensures s[m - 1] !in s[m..] + s[..m - 1]
  {
    var t := s[m..] + s[..m];
    var rest := s[m..] + s[..m - 1];
    RotatedDistinct(s, m);
    assert t == rest + [s[m - 1]];
    assert t[..|t| - 1] == rest;
  }

  /** The relinking half of RotateStep. */
  lemma RotateRelink(s: seq<PageId>, m: nat)
    requires 0 < m <= |s|
    ensures [s[m - 1]] + (s[m..] + s[..m - 1]) == s[m - 1..] + s[..m - 1]
  {
    assert s[m - 1..] == [s[m - 1]] + s[m..];
  }

  /** A list that tracks a key set has exactly one node per key. */
  lemma {:induction false} TracksCard(s: seq<PageId>, keys: set<PageId>)
    requires Tracks(s, keys)
    ensures |keys| == |s|
  {
    if s != [] {
      var rest := keys - {s[0]};
      assert Tracks(s[1..], rest) by {
        forall x ensures x in s[1..] <==> x in rest {
          if x in s[1..] {
            var j :| 0 <= j < |s[1..]| && s[1..][j] == x;
            assert s[j + 1] == x;
          }
          if x in rest {
            var j :| 0 <= j < |s| && s[j] == x;
            assert j != 0;
            assert s[1..][j - 1] == x;
          }
        }
      }
      TracksCard(s[1..], rest);
    }
  }
}
