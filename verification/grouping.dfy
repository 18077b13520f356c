/**
 * The pages' "group by day" loops: a `forEach` that files each item under a key in a
 * dictionary, creating the key's list on first use and pushing onto it.  The specification
 * is the dictionary whose keys are the keys met and whose list at a key is the items filed
 * under it, in input order.
 */
module Grouping {
  import opened Wrappers
  import opened Calendar
  import opened Timestamps

  /** An item together with the key it is filed under. */
  datatype Entry<T> = Entry(key: string, item: T)

  /** The items filed under `k`, in input order; an absent entry is an item that was skipped. */
  function Bucket<T>(es: seq<Option<Entry<T>>>, k: string): seq<T> {
    if es == [] then []
    else
      var last := es[|es| - 1];
      Bucket(es[..|es| - 1], k) + (if last.Some? && last.value.key == k then [last.value.item] else [])
  }

  /** The keys met. */
  function KeysOf<T>(es: seq<Option<Entry<T>>>): set<string> {
    set i | 0 <= i < |es| && es[i].Some? :: es[i].value.key
  }

  /** The dictionary the loop builds. */
  function Grouped<T>(es: seq<Option<Entry<T>>>): (g: map<string, seq<T>>)
    ensures g.Keys == KeysOf(es)
    ensures forall k :: k in g ==> g[k] == Bucket(es, k)
  {
    map k | k in KeysOf(es) :: Bucket(es, k)
  }

  /** An item is in a key's list exactly when some entry files it there. */
  lemma {:induction false} BucketMembers<T>(es: seq<Option<Entry<T>>>, k: string, x: T)
    ensures x in Bucket(es, k) <==> exists i :: 0 <= i < |es| && es[i] == Some(Entry(k, x))
  {
    if es != [] {
      var init := es[..|es| - 1];
      var last := es[|es| - 1];
      var tail := if last.Some? && last.value.key == k then [last.value.item] else [];
      assert Bucket(es, k) == Bucket(init, k) + tail;
      assert x in tail <==> last == Some(Entry(k, x));
      BucketMembers(init, k, x);
      if exists i :: 0 <= i < |es| && es[i] == Some(Entry(k, x)) {
        var i :| 0 <= i < |es| && es[i] == Some(Entry(k, x));
        if i < |init| {
          assert init[i] == es[i];
        }
      }
      if exists i :: 0 <= i < |init| && init[i] == Some(Entry(k, x)) {
        var i :| 0 <= i < |init| && init[i] == Some(Entry(k, x));
        assert es[i] == init[i];
      }
    }
  }

  /** A key that was never met has an empty list. */
  lemma {:induction false} BucketOfUnknownKey<T>(es: seq<Option<Entry<T>>>, k: string)
    requires k !in KeysOf(es)
    ensures Bucket(es, k) == []
  {
    if es != [] {
      var init := es[..|es| - 1];
      assert KeysOf(init) <= KeysOf(es) by {
        forall j | 0 <= j < |init| && init[j].Some?
          ensures init[j].value.key in KeysOf(es)
        {
          assert es[j] == init[j];
        }
      }
      assert es[|es| - 1].Some? ==> es[|es| - 1].value.key in KeysOf(es);
      BucketOfUnknownKey(init, k);
    }
  }

  /** One more entry: its item is pushed onto its key's list; every other list is unchanged. */
  lemma GroupedStep<T>(es: seq<Option<Entry<T>>>, i: int)
    requires 0 <= i < |es|
    ensures es[i].None? ==> Grouped(es[..i + 1]) == Grouped(es[..i])
    ensures es[i].Some? ==>
      var k := es[i].value.key;
      Grouped(es[..i + 1]) == Grouped(es[..i])[k := Bucket(es[..i], k) + [es[i].value.item]]
  {
    var before := es[..i];
    var after := es[..i + 1];
    assert after[..|after| - 1] == before;
    assert after[|after| - 1] == es[i];
    assert KeysOf(before) <= KeysOf(after) by {
      forall j | 0 <= j < |before| && before[j].Some?
        ensures before[j].value.key in KeysOf(after)
      {
        assert after[j] == before[j];
      }
    }
    assert KeysOf(after) <= KeysOf(before) + (if es[i].Some? then {es[i].value.key} else {}) by {
      forall j | 0 <= j < |after| && after[j].Some?
        ensures after[j].value.key in KeysOf(before) + (if es[i].Some? then {es[i].value.key} else {})
      {
        if j < i {
          assert before[j] == after[j];
        }
      }
    }
    forall k
      ensures Bucket(after, k) == Bucket(before, k) + (if es[i].Some? && es[i].value.key == k then [es[i].value.item] else [])
    {
    }
    if es[i].None? {
      assert KeysOf(after) == KeysOf(before);
      forall k | k in KeysOf(before)
        ensures Grouped(after)[k] == Grouped(before)[k]
      {
      }
    } else {
      var k := es[i].value.key;
      assert k in KeysOf(after) by {
        assert after[i] == es[i];
      }
      forall k' | k' in KeysOf(before) && k' != k
        ensures Bucket(after, k') == Bucket(before, k')
      {
      }
      var updated := Grouped(before)[k := Bucket(before, k) + [es[i].value.item]];
      assert Grouped(after).Keys == updated.Keys;
      assert Grouped(after) == updated;
    }
  }

  /**
   * The loop body's step on a dictionary that is the grouping so far: a new key gets the
   * one-item list, a known key's list grows by the item.
   */
  lemma PushStep<T>(g: map<string, seq<T>>, es: seq<Option<Entry<T>>>, i: int)
    requires 0 <= i < |es| && es[i].Some?
    requires g == Grouped(es[..i])
    ensures var e := es[i].value;
      Grouped(es[..i + 1]) == (if e.key in g then g[e.key := g[e.key] + [e.item]] else g[e.key := [e.item]])
  {
    var e := es[i].value;
    GroupedStep(es, i);
    if e.key !in g {
      BucketOfUnknownKey(es[..i], e.key);
      assert Bucket(es[..i], e.key) + [e.item] == [e.item];
    }
  }

  /**
   * The `forEach` of both pages' groupings: create a key's list on first use, then push the
   * item onto it.
   */
  method FillGroups<T>(es: seq<Option<Entry<T>>>) returns (grouped: map<string, seq<T>>)
    ensures grouped == Grouped(es)
  {
    grouped := map[];
    var i := 0;
    while i < |es|
      invariant 0 <= i <= |es|
      invariant grouped == Grouped(es[..i])
    {
      if es[i].Some? {
        var e := es[i].value;
        PushStep(grouped, es, i);
        if e.key !in grouped {
          grouped := grouped[e.key := []];
        }
        grouped := grouped[e.key := grouped[e.key] + [e.item]];
      } else {
        GroupedStep(es, i);
      }
      i := i + 1;
    }
    assert es[..i] == es;
  }

  /** Every item filed under its key. */
  function KeyedEntries<T>(xs: seq<T>, key: T -> string): (es: seq<Option<Entry<T>>>)
    ensures |es| == |xs|
    ensures forall i :: 0 <= i < |xs| ==> es[i] == Some(Entry(key(xs[i]), xs[i]))
  {
    seq(|xs|, i requires 0 <= i < |xs| => Some(Entry(key(xs[i]), xs[i])))
  }

  /**
   * Filing every item under its key partitions the items: the keys are exactly the items'
   * keys, and an item is in a key's list exactly when it is one of the items and has that key.
   */
  lemma KeyedPartition<T>(xs: seq<T>, key: T -> string, k: string, x: T)
    ensures k in Grouped(KeyedEntries(xs, key)) <==> exists i :: 0 <= i < |xs| && key(xs[i]) == k
    ensures k in Grouped(KeyedEntries(xs, key)) ==>
      (x in Grouped(KeyedEntries(xs, key))[k] <==> x in xs && key(x) == k)
  {
    var es := KeyedEntries(xs, key);
    BucketMembers(es, k, x);
    if k in KeysOf(es) {
      var i :| 0 <= i < |es| && es[i].Some? && es[i].value.key == k;
      assert key(xs[i]) == k;
    }
    if exists i :: 0 <= i < |xs| && key(xs[i]) == k {
      var i :| 0 <= i < |xs| && key(xs[i]) == k;
      assert es[i].value.key == k;
    }
    if x in xs && key(x) == k {
      var i :| 0 <= i < |xs| && xs[i] == x;
      assert es[i] == Some(Entry(k, x));
    }
  }

  // ---------------------------------------------------------------------------------------
  // groupSlotsByDate
  // ---------------------------------------------------------------------------------------

  /** Each slot filed under the date part of its ISO text. */
  function SlotEntries(slots: seq<Instant>): seq<Option<Entry<Instant>>> {
    KeyedEntries(slots, IsoDatePart)
  }

  /**
   * The `forEach` filing every item under its key: it partitions the items by key, each list
   * in input order.
   */
  method GroupByKey<T>(xs: seq<T>, key: T -> string) returns (grouped: map<string, seq<T>>)
    ensures grouped == Grouped(KeyedEntries(xs, key))
    ensures forall x :: x in xs ==> key(x) in grouped
    ensures forall k, x :: k in grouped ==> (x in grouped[k] <==> x in xs && key(x) == k)
  {
    grouped := FillGroups(KeyedEntries(xs, key));
    forall k, x
      ensures k in grouped ==> (x in grouped[k] <==> x in xs && key(x) == k)
    {
      KeyedPartition(xs, key, k, x);
    }
    forall x | x in xs
      ensures key(x) in grouped
    {
      var i :| 0 <= i < |xs| && xs[i] == x;
      KeyedPartition(xs, key, key(x), x);
    }
  }

  /**
   * `groupSlotsByDate` (the booking page's and the admin page's are the same code): each slot
   * filed under `new Date(slot).toISOString().split('T')[0]`.
   */
  method GroupSlotsByDate(slots: seq<Instant>) returns (grouped: map<string, seq<Instant>>)
    ensures grouped == Grouped(SlotEntries(slots))
  {
    grouped := GroupByKey(slots, IsoDatePart);
  }

  /**
   * The grouping partitions the slots by day: the keys are exactly the slots' dates, a slot is
   * in a group exactly when it is one of the slots and the group is its date, and each group
   * keeps the input order (it is the in-order selection `Bucket`).
   */
  lemma SlotGroupsPartition(slots: seq<Instant>, k: string, s: Instant)
    ensures k in Grouped(SlotEntries(slots)) <==> exists i :: 0 <= i < |slots| && IsoDatePart(slots[i]) == k
    ensures k in Grouped(SlotEntries(slots)) ==>
      (s in Grouped(SlotEntries(slots))[k] <==> s in slots && IsoDatePart(s) == k)
  {
    KeyedPartition(slots, IsoDatePart, k, s);
  }
}
