/**
 * The whole-list edits the request handlers make to the appointments sheet before writing
 * it back: dropping every row of an order, replacing rows, removing one row, and the admin
 * list's clean-up.
 */
module Edits {
  import opened Wrappers
  import opened Text
  import opened Records

  /** The rows of `appts` whose order number the rule does not match against `key`, in order. */
  function Without(appts: seq<Appointment>, rule: Rule, key: string): (r: seq<Appointment>)
    ensures |r| <= |appts|
  {
    if appts == [] then []
    else
      var last := appts[|appts| - 1];
      Without(appts[..|appts| - 1], rule, key) + (if Matches(rule, last.orderNumber, key) then [] else [last])
  }

  /** Exactly the rows that do not match survive. */
  lemma {:induction false} WithoutMembers(appts: seq<Appointment>, rule: Rule, key: string, a: Appointment)
    ensures a in Without(appts, rule, key) <==> a in appts && !Matches(rule, a.orderNumber, key)
  {
    if appts != [] {
      var init := appts[..|appts| - 1];
      WithoutMembers(init, rule, key, a);
      assert appts == init + [appts[|appts| - 1]];
    }
  }

  /** With no matching row nothing is dropped; with one, the list gets shorter. */
  lemma {:induction false} WithoutShrinks(appts: seq<Appointment>, rule: Rule, key: string)
    ensures (forall j :: 0 <= j < |appts| ==> !Matches(rule, appts[j].orderNumber, key)) ==> Without(appts, rule, key) == appts
    ensures (exists j :: 0 <= j < |appts| && Matches(rule, appts[j].orderNumber, key)) ==> |Without(appts, rule, key)| < |appts|
  {
    if appts != [] {
      var init := appts[..|appts| - 1];
      WithoutShrinks(init, rule, key);
      assert appts == init + [appts[|appts| - 1]];
      if exists j :: 0 <= j < |appts| && Matches(rule, appts[j].orderNumber, key) {
        var j :| 0 <= j < |appts| && Matches(rule, appts[j].orderNumber, key);
        if j < |init| {
          assert init[j] == appts[j];
        }
      }
    }
  }

  /** `splice(i, 1)`, and the list of every row but the one at `i`. */
  function RemoveAt(appts: seq<Appointment>, i: nat): (r: seq<Appointment>)
    requires i < |appts|
    ensures |r| == |appts| - 1
    ensures forall j :: 0 <= j < i ==> r[j] == appts[j]
    ensures forall j :: i <= j < |r| ==> r[j] == appts[j + 1]
  {
    appts[..i] + appts[i + 1..]
  }

  /** The list comprehension that puts `record` in place of every row matching `key` (Python rule). */
  function ReplaceAll(appts: seq<Appointment>, key: string, record: Appointment): (r: seq<Appointment>)
    ensures |r| == |appts|
    ensures forall j :: 0 <= j < |appts| ==>
      r[j] == if Matches(GetRule, appts[j].orderNumber, key) then record else appts[j]
  {
    seq(|appts|, j requires 0 <= j < |appts| => if Matches(GetRule, appts[j].orderNumber, key) then record else appts[j])
  }

  /**
   * After the Python booking's replacement every row of the order is the new record, and every
   * other row is untouched, as long as the record carries the requested number.
   */
  lemma ReplaceAllLeavesOnlyRecord(appts: seq<Appointment>, key: string, record: Appointment)
    requires record.orderNumber == Some(key)
    ensures forall j :: 0 <= j < |appts| && Matches(GetRule, ReplaceAll(appts, key, record)[j].orderNumber, key) ==>
      ReplaceAll(appts, key, record)[j] == record
    ensures Matches(GetRule, record.orderNumber, key)
  {
  }

  /**
   * The replacement leaves the other orders' rows as they were, in order, and the order keeps
   * as many rows as it had, when the record carries the requested number.
   */
  lemma {:induction false} ReplaceAllKeepsOthers(appts: seq<Appointment>, key: string, record: Appointment)
    requires Matches(GetRule, record.orderNumber, key)
    ensures Without(ReplaceAll(appts, key, record), GetRule, key) == Without(appts, GetRule, key)
    ensures MatchCount(ReplaceAll(appts, key, record), GetRule, key) == MatchCount(appts, GetRule, key)
  {
    if appts != [] {
      var n := |appts|;
      var init := appts[..n - 1];
      var r := ReplaceAll(appts, key, record);
      assert r[..n - 1] == ReplaceAll(init, key, record);
      ReplaceAllKeepsOthers(init, key, record);
      assert Matches(GetRule, r[n - 1].orderNumber, key) <==> Matches(GetRule, appts[n - 1].orderNumber, key);
      assert !Matches(GetRule, appts[n - 1].orderNumber, key) ==> r[n - 1] == appts[n - 1];
    }
  }

  /** A row of `rule`-matching rows: how many rows of `appts` belong to the order. */
  function MatchCount(appts: seq<Appointment>, rule: Rule, key: string): nat {
    if appts == [] then 0
    else MatchCount(appts[..|appts| - 1], rule, key) + (if Matches(rule, appts[|appts| - 1].orderNumber, key) then 1 else 0)
  }

  lemma {:induction false} MatchCountZero(appts: seq<Appointment>, rule: Rule, key: string)
    ensures MatchCount(appts, rule, key) == 0 <==> forall j :: 0 <= j < |appts| ==> !Matches(rule, appts[j].orderNumber, key)
  {
    if appts != [] {
      var init := appts[..|appts| - 1];
      MatchCountZero(init, rule, key);
      assert forall j :: 0 <= j < |init| ==> init[j] == appts[j];
    }
  }

  /** Counting matches of a list with one row replaced. */
  lemma {:induction false} MatchCountUpdate(appts: seq<Appointment>, rule: Rule, key: string, i: nat, a: Appointment)
    requires i < |appts|
    ensures MatchCount(appts[i := a], rule, key)
         == MatchCount(appts, rule, key)
          - (if Matches(rule, appts[i].orderNumber, key) then 1 else 0)
          + (if Matches(rule, a.orderNumber, key) then 1 else 0)
  {
    var n := |appts|;
    if i == n - 1 {
      assert appts[i := a][..n - 1] == appts[..n - 1];
    } else {
      MatchCountUpdate(appts[..n - 1], rule, key, i, a);
      assert appts[i := a][..n - 1] == appts[..n - 1][i := a];
    }
  }

  lemma MatchCountAppend(appts: seq<Appointment>, rule: Rule, key: string, a: Appointment)
    ensures MatchCount(appts + [a], rule, key) == MatchCount(appts, rule, key) + (if Matches(rule, a.orderNumber, key) then 1 else 0)
  {
    assert (appts + [a])[..|appts|] == appts;
  }

  /**
   * The Node booking's placement: over the first matching row, else at the end.  Starting
   * from at most one row of the order, exactly one row of the order is left, the record.
   */
  function NodePlace(appts: seq<Appointment>, key: string, record: Appointment): (r: seq<Appointment>)
  {
    match FirstAppointment(appts, NodeRule, key)
    case Some(i) => appts[i := record]
    case None => appts + [record]
  }

  lemma NodePlaceKeepsOneRow(appts: seq<Appointment>, key: string, record: Appointment)
    requires MatchCount(appts, NodeRule, key) <= 1
    requires Matches(NodeRule, record.orderNumber, key)
    ensures MatchCount(NodePlace(appts, key, record), NodeRule, key) == 1
    ensures record in NodePlace(appts, key, record)
  {
    match FirstAppointment(appts, NodeRule, key)
    case Some(i) =>
      MatchCountZero(appts, NodeRule, key);
      MatchCountUpdate(appts, NodeRule, key, i, record);
      assert appts[i := record][i] == record;
    case None =>
      MatchCountZero(appts, NodeRule, key);
      MatchCountAppend(appts, NodeRule, key, record);
  }

  /** Every row the Node placement does not overwrite keeps its index and contents. */
  lemma NodePlaceKeepsOthers(appts: seq<Appointment>, key: string, record: Appointment, j: nat)
    requires j < |appts| && !Matches(NodeRule, appts[j].orderNumber, key)
    ensures j < |NodePlace(appts, key, record)| && NodePlace(appts, key, record)[j] == appts[j]
  {
  }

  // ---------------------------------------------------------------------------------------
  // The admin list's clean-up
  // ---------------------------------------------------------------------------------------

  /** The pickup status of the order a row belongs to reads "fulfilled" (`order && order['Pick up Status']` first). */
  predicate OrderFulfilled(orders: seq<Order>, rule: Rule, key: string) {
    var found := At(orders, FirstOrder(orders, rule, key));
    found.Some? && Truthy(found.value.pickupStatus) && Fulfilled(found.value)
  }

  /** A row survives the admin list when it is complete and its order is not fulfilled. */
  predicate Kept(orders: seq<Order>, rule: Rule, a: Appointment) {
    Truthy(a.orderNumber) && Truthy(a.date) && Truthy(a.time)
    && !OrderFulfilled(orders, rule, a.orderNumber.value)
  }

  /** The cleaned list, in the original order. */
  function Cleaned(orders: seq<Order>, rule: Rule, appts: seq<Appointment>): (r: seq<Appointment>)
    ensures |r| <= |appts|
  {
    if appts == [] then []
    else
      var last := appts[|appts| - 1];
      Cleaned(orders, rule, appts[..|appts| - 1]) + (if Kept(orders, rule, last) then [last] else [])
  }

  lemma {:induction false} CleanedWhole(orders: seq<Order>, rule: Rule, appts: seq<Appointment>)
    requires forall j :: 0 <= j < |appts| ==> Kept(orders, rule, appts[j])
    ensures Cleaned(orders, rule, appts) == appts
  {
    if appts != [] {
      var init := appts[..|appts| - 1];
      var last := appts[|appts| - 1];
      assert Kept(orders, rule, last);
      forall j | 0 <= j < |init|
        ensures Kept(orders, rule, init[j])
      {
        assert init[j] == appts[j];
      }
      CleanedWhole(orders, rule, init);
      assert Cleaned(orders, rule, appts) == Cleaned(orders, rule, init) + [last];
      assert appts == init + [last];
    }
  }

  lemma {:induction false} CleanedDrops(orders: seq<Order>, rule: Rule, appts: seq<Appointment>, j: int)
    requires 0 <= j < |appts| && !Kept(orders, rule, appts[j])
    ensures |Cleaned(orders, rule, appts)| < |appts|
  {
    var init := appts[..|appts| - 1];
    if j < |init| {
      assert init[j] == appts[j];
      CleanedDrops(orders, rule, init, j);
    }
  }

  /** The cleaned list is the whole list exactly when every row is kept; otherwise it is shorter. */
  lemma CleanedShrinks(orders: seq<Order>, rule: Rule, appts: seq<Appointment>)
    ensures (forall j :: 0 <= j < |appts| ==> Kept(orders, rule, appts[j])) <==> Cleaned(orders, rule, appts) == appts
    ensures Cleaned(orders, rule, appts) != appts ==> |Cleaned(orders, rule, appts)| < |appts|
  {
    if forall j :: 0 <= j < |appts| ==> Kept(orders, rule, appts[j]) {
      CleanedWhole(orders, rule, appts);
    } else {
      var j :| 0 <= j < |appts| && !Kept(orders, rule, appts[j]);
      CleanedDrops(orders, rule, appts, j);
    }
  }

  /** Every row of the cleaned list is kept. */
  lemma {:induction false} CleanedRowsAreKept(orders: seq<Order>, rule: Rule, appts: seq<Appointment>)
    ensures forall a :: a in Cleaned(orders, rule, appts) ==> a in appts && Kept(orders, rule, a)
  {
    if appts != [] {
      CleanedRowsAreKept(orders, rule, appts[..|appts| - 1]);
    }
  }

  /** Listing twice in a row: the second clean-up keeps everything, so it writes nothing. */
  lemma CleanedIsStable(orders: seq<Order>, rule: Rule, appts: seq<Appointment>)
    ensures Cleaned(orders, rule, Cleaned(orders, rule, appts)) == Cleaned(orders, rule, appts)
  {
    var c := Cleaned(orders, rule, appts);
    CleanedRowsAreKept(orders, rule, appts);
    assert forall j :: 0 <= j < |c| ==> c[j] in c;
    CleanedShrinks(orders, rule, c);
  }
}
