/** `recursivelyCondenseObject` of web/js/utils.js, which drops everything that says nothing from a tree of values. */
module CondensedJson {

  /** A value: a scalar is anything that is not null, an array or a plain object. Objects keep their key order. */
  datatype Json =
    | Undefined
    | Null
    | Scalar(text: string)
    | Array(items: seq<Json>)
    | Object(entries: seq<Entry>)

  datatype Entry = Entry(key: string, value: Json)

  predicate IsNothing(j: Json) {
    match j
    case Array(items) => items == []
    case Object(entries) => entries == []
    case _ => j.Undefined? || j.Null?
  }

  function Condense(j: Json): Json {
    match j
    case Array(items) => Array(CondenseItems(items))
    case Object(entries) => Object(CondenseEntries(entries))
    case _ => j
  }

  function CondenseItems(items: seq<Json>): seq<Json> {
    if items == [] then []
    else
      var last := Condense(items[|items| - 1]);
      CondenseItems(items[..|items| - 1]) + if IsNothing(last) then [] else [last]
  }

  function CondenseEntries(entries: seq<Entry>): seq<Entry> {
    if entries == [] then []
    else
      var last := entries[|entries| - 1];
      var value := Condense(last.value);
      CondenseEntries(entries[..|entries| - 1]) + if IsNothing(value) then [] else [Entry(last.key, value)]
  }

  // ---------- What a tree says ----------

  /** A scalar together with the object keys on the way to it. */
  datatype Leaf = Leaf(path: seq<string>, text: string)

  function Under(key: string, leaves: seq<Leaf>): seq<Leaf> {
    seq(|leaves|, i requires 0 <= i < |leaves| => Leaf([key] + leaves[i].path, leaves[i].text))
  }

  /** Every scalar of the tree, in order. */
  function Leaves(j: Json): seq<Leaf> {
    match j
    case Scalar(text) => [Leaf([], text)]
    case Array(items) => LeavesOfItems(items)
    case Object(entries) => LeavesOfEntries(entries)
    case _ => []
  }

  function LeavesOfItems(items: seq<Json>): seq<Leaf> {
    if items == [] then [] else LeavesOfItems(items[..|items| - 1]) + Leaves(items[|items| - 1])
  }

  function LeavesOfEntries(entries: seq<Entry>): seq<Leaf> {
    if entries == [] then []
    else
      var last := entries[|entries| - 1];
      LeavesOfEntries(entries[..|entries| - 1]) + Under(last.key, Leaves(last.value))
  }

  /** Nothing strictly inside the tree is null, undefined or an empty container. */
  predicate CompactInside(j: Json) {
    match j
    case Array(items) => forall item :: item in items ==> !IsNothing(item) && CompactInside(item)
    case Object(entries) => forall e :: e in entries ==> !IsNothing(e.value) && CompactInside(e.value)
    case _ => true
  }

  // ---------- Condensing keeps what a tree says and nothing else ----------

  lemma {:induction false} CondenseCompacts(j: Json)
    ensures CompactInside(Condense(j))
    decreases j, 0
  {
    match j
    case Array(items) => CondenseItemsCompacts(items);
    case Object(entries) => CondenseEntriesCompacts(entries);
    case _ =>
  }

  lemma {:induction false} CondenseItemsCompacts(items: seq<Json>)
    ensures forall item :: item in CondenseItems(items) ==> !IsNothing(item) && CompactInside(item)
    decreases items, 1
  {
    if items != [] {
      CondenseItemsCompacts(items[..|items| - 1]);
      CondenseCompacts(items[|items| - 1]);
    }
  }

  lemma {:induction false} CondenseEntriesCompacts(entries: seq<Entry>)
    ensures forall e :: e in CondenseEntries(entries) ==> !IsNothing(e.value) && CompactInside(e.value)
    decreases entries, 1
  {
    if entries != [] {
      CondenseEntriesCompacts(entries[..|entries| - 1]);
      CondenseCompacts(entries[|entries| - 1].value);
    }
  }

  /**
   Every scalar stays, in its place in the order and under its keys, and a value vanishes exactly when it holds
   no scalar.
   */
  lemma {:induction false} CondenseKeepsLeaves(j: Json)
    ensures Leaves(Condense(j)) == Leaves(j)
    ensures IsNothing(Condense(j)) <==> Leaves(j) == []
    decreases j, 0
  {
    match j
    case Array(items) => CondenseItemsKeepsLeaves(items);
    case Object(entries) => CondenseEntriesKeepsLeaves(entries);
    case _ =>
  }

  lemma {:induction false} CondenseItemsKeepsLeaves(items: seq<Json>)
    ensures LeavesOfItems(CondenseItems(items)) == LeavesOfItems(items)
    ensures CondenseItems(items) == [] <==> LeavesOfItems(items) == []
    decreases items, 1
  {
    if items != [] {
      var init, last := items[..|items| - 1], items[|items| - 1];
      CondenseItemsKeepsLeaves(init);
      CondenseKeepsLeaves(last);
      var kept := CondenseItems(init);
      if !IsNothing(Condense(last)) {
        assert (kept + [Condense(last)])[..|kept|] == kept;
      } else {
        assert kept + [] == kept;
      }
    }
  }

  lemma {:induction false} CondenseEntriesKeepsLeaves(entries: seq<Entry>)
    ensures LeavesOfEntries(CondenseEntries(entries)) == LeavesOfEntries(entries)
    ensures CondenseEntries(entries) == [] <==> LeavesOfEntries(entries) == []
    decreases entries, 1
  {
    if entries != [] {
      var init, last := entries[..|entries| - 1], entries[|entries| - 1];
      CondenseEntriesKeepsLeaves(init);
      CondenseKeepsLeaves(last.value);
      var kept := CondenseEntries(init);
      if !IsNothing(Condense(last.value)) {
        assert (kept + [Entry(last.key, Condense(last.value))])[..|kept|] == kept;
      } else {
        assert kept + [] == kept;
        assert Under(last.key, Leaves(last.value)) == [];
      }
    }
  }

  /** The trees that condensing leaves alone are exactly the compact ones. */
  lemma {:induction false} CompactIsFixed(j: Json)
    ensures CompactInside(j) <==> Condense(j) == j
    decreases j, 0
  {
    CondenseCompacts(j);
    match j
    case Array(items) => if CompactInside(j) { CompactItemsFixed(items); }
    case Object(entries) => if CompactInside(j) { CompactEntriesFixed(entries); }
    case _ =>
  }

  lemma {:induction false} CompactItemsFixed(items: seq<Json>)
    requires forall item :: item in items ==> !IsNothing(item) && CompactInside(item)
    ensures CondenseItems(items) == items
    decreases items, 1
  {
    if items != [] {
      assert items == items[..|items| - 1] + [items[|items| - 1]];
      CompactItemsFixed(items[..|items| - 1]);
      CompactIsFixed(items[|items| - 1]);
    }
  }

  lemma {:induction false} CompactEntriesFixed(entries: seq<Entry>)
    requires forall e :: e in entries ==> !IsNothing(e.value) && CompactInside(e.value)
    ensures CondenseEntries(entries) == entries
    decreases entries, 1
  {
    if entries != [] {
      assert entries == entries[..|entries| - 1] + [entries[|entries| - 1]];
      CompactEntriesFixed(entries[..|entries| - 1]);
      CompactIsFixed(entries[|entries| - 1].value);
    }
  }

  lemma CondenseIdempotent(j: Json)
    ensures Condense(Condense(j)) == Condense(j)
  {
    CondenseCompacts(j);
    CompactIsFixed(Condense(j));
  }
}
