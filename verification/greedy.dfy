/** The greedy packing loop that both chunkers run: items are visited left to
    right with one open group; an item that fits the open group joins it, any
    other item closes the open group (when it holds anything) and opens a new
    group with that item alone; at the end the open group is closed. The two
    chunkers differ only in the test that decides whether an item fits. */
module Greedy {

  /** The open group, emitted if non-empty (`if current_chunk: chunks.append(...)`). */
  function Closed<T>(cur: seq<T>): (gs: seq<seq<T>>)
    ensures |gs| <= 1
  {
    if cur == [] then [] else [cur]
  }

  /** Groups produced from the items `rest` when `cur` is the open group. */
  function Pack<T>(rest: seq<T>, cur: seq<T>, fits: (seq<T>, T) -> bool): (gs: seq<seq<T>>)
    ensures |gs| <= |rest| + |Closed(cur)|
    decreases |rest|
  {
    if rest == [] then Closed(cur)
    else if fits(cur, rest[0]) then Pack(rest[1..], cur + [rest[0]], fits)
    else Closed(cur) + Pack(rest[1..], [rest[0]], fits)
  }

  /** One step of the loop, at position `i` of the item list. */
  lemma PackStep<T>(items: seq<T>, i: int, cur: seq<T>, fits: (seq<T>, T) -> bool)
    requires 0 <= i < |items|
    ensures Pack(items[i..], cur, fits) ==
      if fits(cur, items[i]) then Pack(items[i + 1..], cur + [items[i]], fits)
      else Closed(cur) + Pack(items[i + 1..], [items[i]], fits)
  {
    assert items[i..][0] == items[i] && items[i..][1..] == items[i + 1..];
  }

  /** The loop step that closes the open group: the item fails the fit test,
      so the open group is emitted and the item opens the next one. */
  lemma CloseStep<T>(groups: seq<seq<T>>, items: seq<T>, i: int, cur: seq<T>, fits: (seq<T>, T) -> bool)
    requires 0 <= i < |items| && !fits(cur, items[i])
    ensures groups + Pack(items[i..], cur, fits)
         == (groups + Closed(cur)) + Pack(items[i + 1..], [items[i]], fits)
  {
    PackStep(items, i, cur, fits);
  }

  /** `[f(g) for g in gs]`: what a loop emits for its closed groups. */
  function MapEach<T, U>(f: seq<T> -> U, gs: seq<seq<T>>): (us: seq<U>)
    ensures |us| == |gs|
  {
    seq(|gs|, k requires 0 <= k < |gs| => f(gs[k]))
  }

  /** The first group's output comes first, then the rest's. */
  lemma MapEachCons<T, U>(f: seq<T> -> U, gs: seq<seq<T>>)
    requires gs != []
    ensures MapEach(f, gs) == [f(gs[0])] + MapEach(f, gs[1..])
  {
    var r := [f(gs[0])] + MapEach(f, gs[1..]);
    forall k | 0 <= k < |gs| ensures MapEach(f, gs)[k] == r[k] {
      if k > 0 {
        assert gs[1..][k - 1] == gs[k];
      }
    }
  }

  /** Closing the open group emits one more output exactly when the group is
      non-empty (`if current_chunk: chunks.append(...)`). */
  lemma CloseMapped<T, U>(f: seq<T> -> U, groups: seq<seq<T>>, cur: seq<T>)
    ensures MapEach(f, groups + Closed(cur))
         == MapEach(f, groups) + (if cur != [] then [f(cur)] else [])
  {
    if cur == [] {
      assert groups + [] == groups;
    }
  }

  function Flatten<T>(gs: seq<seq<T>>): seq<T>
  {
    if gs == [] then [] else gs[0] + Flatten(gs[1..])
  }

  /** The lists `f(x)` for the items `x` of `xs`, concatenated in order. */
  function FlatMap<T, U>(f: T -> seq<U>, xs: seq<T>): seq<U>
  {
    if xs == [] then [] else f(xs[0]) + FlatMap(f, xs[1..])
  }

  lemma {:induction false} FlatMapAppend<T, U>(f: T -> seq<U>, a: seq<T>, b: seq<T>)
    ensures FlatMap(f, a + b) == FlatMap(f, a) + FlatMap(f, b)
  {
    if a == [] {
      assert a + b == b;
    } else {
      assert (a + b)[0] == a[0] && (a + b)[1..] == a[1..] + b;
      FlatMapAppend(f, a[1..], b);
    }
  }

  /** When every item maps to itself alone, the list is unchanged. */
  lemma {:induction false} FlatMapIdentity<T>(f: T -> seq<T>, xs: seq<T>)
    requires forall k :: 0 <= k < |xs| ==> f(xs[k]) == [xs[k]]
    ensures FlatMap(f, xs) == xs
  {
    if xs != [] {
      assert forall k :: 0 <= k < |xs[1..]| ==> xs[1..][k] == xs[k + 1];
      FlatMapIdentity(f, xs[1..]);
      assert [xs[0]] + xs[1..] == xs;
    }
  }

  /** Every item of a group after the first was admitted by the fit test
      against the items before it. */
  predicate Built<T>(g: seq<T>, fits: (seq<T>, T) -> bool)
  {
    forall j :: 1 <= j < |g| ==> fits(g[..j], g[j])
  }

  /** The second item of a built group fitted beside the first alone. */
  lemma FirstOfGroup<T>(g: seq<T>, fits: (seq<T>, T) -> bool)
    requires |g| > 1 && Built(g, fits)
    ensures fits([g[0]], g[1])
  {
    assert fits(g[..1], g[1]);
    assert g[..1] == [g[0]];
  }

  lemma {:induction false} FlattenAppend<T>(a: seq<seq<T>>, b: seq<seq<T>>)
    ensures Flatten(a + b) == Flatten(a) + Flatten(b)
  {
    if a != [] {
      assert (a + b)[1..] == a[1..] + b;
      FlattenAppend(a[1..], b);
    } else {
      assert a + b == b;
    }
  }

  /** Each item of a flattened list sits in one of the groups. */
  lemma {:induction false} FlattenMember<T>(gs: seq<seq<T>>, i: nat)
    requires i < |Flatten(gs)|
    ensures exists k, j :: 0 <= k < |gs| && 0 <= j < |gs[k]| && gs[k][j] == Flatten(gs)[i]
  {
    if i < |gs[0]| {
      assert gs[0][i] == Flatten(gs)[i];
    } else {
      FlattenMember(gs[1..], i - |gs[0]|);
      var k, j :| 0 <= k < |gs[1..]| && 0 <= j < |gs[1..][k]| && gs[1..][k][j] == Flatten(gs[1..])[i - |gs[0]|];
      assert gs[k + 1][j] == Flatten(gs)[i];
    }
  }

  /** Nothing is dropped, duplicated or reordered: the groups, concatenated,
      are the open group followed by the remaining items. */
  lemma {:induction false} PackPartition<T>(rest: seq<T>, cur: seq<T>, fits: (seq<T>, T) -> bool)
    ensures Flatten(Pack(rest, cur, fits)) == cur + rest
    decreases |rest|
  {
    if rest == [] {
      assert cur + rest == cur;
    } else if fits(cur, rest[0]) {
      PackPartition(rest[1..], cur + [rest[0]], fits);
      assert cur + [rest[0]] + rest[1..] == cur + rest;
    } else {
      PackPartition(rest[1..], [rest[0]], fits);
      FlattenAppend(Closed(cur), Pack(rest[1..], [rest[0]], fits));
      assert [rest[0]] + rest[1..] == rest;
    }
  }

  /** Every group holds at least one item. */
  lemma {:induction false} PackNonEmpty<T>(rest: seq<T>, cur: seq<T>, fits: (seq<T>, T) -> bool)
    ensures forall k :: 0 <= k < |Pack(rest, cur, fits)| ==> Pack(rest, cur, fits)[k] != []
    decreases |rest|
  {
    if rest != [] {
      if fits(cur, rest[0]) {
        PackNonEmpty(rest[1..], cur + [rest[0]], fits);
      } else {
        PackNonEmpty(rest[1..], [rest[0]], fits);
      }
    }
  }

  /** With something to pack there is a first group, and it starts with the
      first item. */
  lemma {:induction false} PackHead<T>(rest: seq<T>, cur: seq<T>, fits: (seq<T>, T) -> bool)
    requires cur + rest != []
    ensures var r := Pack(rest, cur, fits);
      |r| >= 1 && r[0] != [] && r[0][0] == (cur + rest)[0]
    decreases |rest|
  {
    if rest != [] {
      if fits(cur, rest[0]) {
        PackHead(rest[1..], cur + [rest[0]], fits);
      } else {
        PackHead(rest[1..], [rest[0]], fits);
      }
    }
  }

  /** Group `k + 1` is non-empty and its first item did not fit group `k`. */
  predicate ClosedBefore<T>(r: seq<seq<T>>, k: int, fits: (seq<T>, T) -> bool)
    requires 0 <= k < |r| - 1
  {
    r[k + 1] != [] && !fits(r[k], r[k + 1][0])
  }

  /** A group is closed only when the first item of the next group does not fit it. */
  lemma {:induction false} PackBoundary<T>(rest: seq<T>, cur: seq<T>, fits: (seq<T>, T) -> bool)
    ensures var r := Pack(rest, cur, fits);
      forall k :: 0 <= k < |r| - 1 ==> ClosedBefore(r, k, fits)
    decreases |rest|
  {
    if rest != [] {
      var r := Pack(rest, cur, fits);
      if fits(cur, rest[0]) {
        assert r == Pack(rest[1..], cur + [rest[0]], fits);
        PackBoundary(rest[1..], cur + [rest[0]], fits);
      } else {
        var tail := Pack(rest[1..], [rest[0]], fits);
        assert r == Closed(cur) + tail;
        PackBoundary(rest[1..], [rest[0]], fits);
        PackHead(rest[1..], [rest[0]], fits);
        if cur != [] {
          forall k | 0 <= k < |r| - 1 ensures ClosedBefore(r, k, fits) {
            if k > 0 {
              assert r[k] == tail[k - 1] && r[k + 1] == tail[k];
              assert ClosedBefore(tail, k - 1, fits);
            }
          }
        } else {
          assert r == tail;
        }
      }
    }
  }

  lemma BuiltExtend<T>(g: seq<T>, x: T, fits: (seq<T>, T) -> bool)
    requires Built(g, fits) && fits(g, x)
    ensures Built(g + [x], fits)
  {
    var h := g + [x];
    forall j | 1 <= j < |h| ensures fits(h[..j], h[j]) {
      if j < |g| {
        assert h[..j] == g[..j] && h[j] == g[j];
      } else {
        assert h[..j] == g;
      }
    }
  }

  /** Every group is built only from items that fit. */
  lemma {:induction false} PackBuilt<T>(rest: seq<T>, cur: seq<T>, fits: (seq<T>, T) -> bool)
    requires Built(cur, fits)
    ensures forall k :: 0 <= k < |Pack(rest, cur, fits)| ==> Built(Pack(rest, cur, fits)[k], fits)
    decreases |rest|
  {
    if rest != [] {
      if fits(cur, rest[0]) {
        BuiltExtend(cur, rest[0], fits);
        PackBuilt(rest[1..], cur + [rest[0]], fits);
      } else {
        PackBuilt(rest[1..], [rest[0]], fits);
      }
    }
  }

  /** The laws above, for packing a whole list from an empty open group. */
  lemma PackLaws<T>(items: seq<T>, fits: (seq<T>, T) -> bool)
    ensures var r := Pack(items, [], fits);
      && Flatten(r) == items
      && (items == [] <==> r == [])
      && (forall k :: 0 <= k < |r| ==> r[k] != [] && Built(r[k], fits))
      && (forall k :: 0 <= k < |r| - 1 ==> ClosedBefore(r, k, fits))
  {
    PackPartition(items, [], fits);
    PackNonEmpty(items, [], fits);
    PackBoundary(items, [], fits);
    PackBuilt(items, [], fits);
    assert [] + items == items;
    if items != [] { PackHead(items, [], fits); }
  }
}
