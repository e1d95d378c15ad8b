/**
 A room's score table. The source keeps it in a JavaScript object, whose
 entries are listed in the order their keys were first inserted; here it is
 that list of entries. Assigning to an existing key keeps its place,
 assigning to a new key appends it, and `delete` removes it.
 */
module Scores {
  import opened Wrappers

  /** One score entry, the `{ name, score }` records of the leaderboard. */
  datatype Entry = Entry(name: string, score: int)

  type Table = seq<Entry>

  /** The keys of an object are distinct. */
  predicate Distinct(t: Table)
  {
    forall i, j :: 0 <= i < j < |t| ==> t[i].name != t[j].name
  }

  /** Position of `name`'s entry, or |t| when it has none. */
  function IndexOf(t: Table, name: string): (i: nat)
    ensures i <= |t|
    ensures i < |t| ==> t[i].name == name
    ensures forall k :: 0 <= k < i ==> t[k].name != name
  {
    if t == [] || t[0].name == name then 0 else 1 + IndexOf(t[1..], name)
  }

  /** The first-occurrence index is determined by its two properties. */
  lemma IndexOfIs(t: Table, name: string, j: nat)
    requires j <= |t|
    requires j < |t| ==> t[j].name == name
    requires forall k :: 0 <= k < j ==> t[k].name != name
    ensures IndexOf(t, name) == j
  {
  }

  /** `scores[name]`: the score under `name`, or `None` (`undefined`). */
  function Lookup(t: Table, name: string): Option<int>
  {
    var i := IndexOf(t, name);
    if i < |t| then Some(t[i].score) else None
  }

  /** Two tables with the same names at the same places find every name at
      the same index. */
  lemma SameNamesSameIndex(t: Table, r: Table, name: string)
    requires |r| == |t|
    requires forall k :: 0 <= k < |t| ==> r[k].name == t[k].name
    ensures IndexOf(r, name) == IndexOf(t, name)
  {
    IndexOfIs(r, name, IndexOf(t, name));
  }

  /** `scores[name] = value`. */
  function Put(t: Table, name: string, value: int): (r: Table)
    ensures Lookup(r, name) == Some(value)
    ensures forall other :: other != name ==> Lookup(r, other) == Lookup(t, other)
    ensures |r| == if Lookup(t, name).Some? then |t| else |t| + 1
    ensures forall k :: 0 <= k < |t| ==> r[k].name == t[k].name
    ensures Distinct(t) ==> Distinct(r)
  {
    var i := IndexOf(t, name);
    var r := if i < |t| then t[i := Entry(name, value)] else t + [Entry(name, value)];
    PutFacts(t, name, value, r);
    r
  }

  lemma PutFacts(t: Table, name: string, value: int, r: Table)
    requires var i := IndexOf(t, name);
      r == if i < |t| then t[i := Entry(name, value)] else t + [Entry(name, value)]
    ensures Lookup(r, name) == Some(value)
    ensures forall other :: other != name ==> Lookup(r, other) == Lookup(t, other)
    ensures Distinct(t) ==> Distinct(r)
  {
    if IndexOf(t, name) < |t| {
      PutExisting(t, name, value, IndexOf(t, name));
    } else {
      PutNew(t, name, value);
    }
  }

  lemma PutExisting(t: Table, name: string, value: int, i: nat)
    requires i == IndexOf(t, name) && i < |t|
    ensures Lookup(t[i := Entry(name, value)], name) == Some(value)
    ensures forall other :: other != name ==> Lookup(t[i := Entry(name, value)], other) == Lookup(t, other)
    ensures Distinct(t) ==> Distinct(t[i := Entry(name, value)])
  {
    var r := t[i := Entry(name, value)];
    forall other ensures IndexOf(r, other) == IndexOf(t, other) {
      SameNamesSameIndex(t, r, other);
    }
  }

  lemma PutNew(t: Table, name: string, value: int)
    requires IndexOf(t, name) == |t|
    ensures Lookup(t + [Entry(name, value)], name) == Some(value)
    ensures forall other :: other != name ==> Lookup(t + [Entry(name, value)], other) == Lookup(t, other)
    ensures Distinct(t) ==> Distinct(t + [Entry(name, value)])
  {
    var r := t + [Entry(name, value)];
    forall other | other != name ensures Lookup(r, other) == Lookup(t, other) {
      if IndexOf(t, other) < |t| {
        IndexOfIs(r, other, IndexOf(t, other));
      } else {
        IndexOfIs(r, other, |r|);
      }
    }
    IndexOfIs(r, name, |t|);
  }

  /** `delete scores[name]`. */
  function Remove(t: Table, name: string): (r: Table)
    ensures Lookup(t, name).None? ==> r == t
    ensures Distinct(t) ==> Lookup(r, name) == None
    ensures forall other :: other != name ==> Lookup(r, other) == Lookup(t, other)
    ensures |r| == if Lookup(t, name).Some? then |t| - 1 else |t|
    ensures Lookup(t, name).Some? ==>
      forall k :: 0 <= k < |r| ==> r[k] == t[if k < IndexOf(t, name) then k else k + 1]
    ensures Distinct(t) ==> Distinct(r)
  {
    var i := IndexOf(t, name);
    if i == |t| then t
    else
      var r := t[..i] + t[i + 1..];
      RemoveFacts(t, name, i, r);
      RemovedEntries(t, i, r);
      r
  }

  lemma RemoveFacts(t: Table, name: string, i: nat, r: Table)
    requires i < |t| && i == IndexOf(t, name) && r == t[..i] + t[i + 1..]
    ensures Distinct(t) ==> Lookup(r, name) == None
    ensures forall other :: other != name ==> Lookup(r, other) == Lookup(t, other)
    ensures Distinct(t) ==> Distinct(r)
  {
    RemovedEntries(t, i, r);
    forall other | other != name ensures Lookup(r, other) == Lookup(t, other) {
      RemoveOther(t, name, i, r, other);
    }
    if Distinct(t) {
      RemoveDistinct(t, i, r);
      IndexOfIs(r, name, |r|);
    }
  }

  /** Where each remaining entry sat before the removal. */
  lemma RemovedEntries(t: Table, i: nat, r: Table)
    requires i < |t| && r == t[..i] + t[i + 1..]
    ensures |r| == |t| - 1
    ensures forall k :: 0 <= k < i ==> r[k] == t[k]
    ensures forall k :: i <= k < |r| ==> r[k] == t[k + 1]
  {
  }

  lemma RemoveOther(t: Table, name: string, i: nat, r: Table, other: string)
    requires i < |t| && i == IndexOf(t, name) && other != name
    requires |r| == |t| - 1
    requires forall k :: 0 <= k < i ==> r[k] == t[k]
    requires forall k :: i <= k < |r| ==> r[k] == t[k + 1]
    ensures Lookup(r, other) == Lookup(t, other)
  {
    var j := IndexOf(t, other);
    if j < i {
      IndexOfIs(r, other, j);
    } else {
      assert j != i;
      IndexOfIs(r, other, j - 1);
    }
  }

  lemma RemoveDistinct(t: Table, i: nat, r: Table)
    requires Distinct(t) && i < |t| && |r| == |t| - 1
    requires forall k :: 0 <= k < i ==> r[k] == t[k]
    requires forall k :: i <= k < |r| ==> r[k] == t[k + 1]
    ensures Distinct(r)
    ensures forall k :: 0 <= k < |r| ==> r[k].name != t[i].name
  {
    forall a, b | 0 <= a < b < |r| ensures r[a].name != r[b].name {
      var a', b' := if a < i then a else a + 1, if b < i then b else b + 1;
      assert r[a] == t[a'] && r[b] == t[b'];
    }
    forall k | 0 <= k < |r| ensures r[k].name != t[i].name {
      var k' := if k < i then k else k + 1;
      assert r[k] == t[k'];
    }
  }

  /** The corrected `scores[name] += points`: only a name that has an entry
      is credited, and no entry is created. */
  function Credit(t: Table, name: string, points: int): (r: Table)
    ensures Lookup(r, name) == if Lookup(t, name).Some? then Some(Lookup(t, name).value + points) else None
    ensures forall other :: other != name ==> Lookup(r, other) == Lookup(t, other)
    ensures |r| == |t| && forall k :: 0 <= k < |t| ==> r[k].name == t[k].name
    ensures Distinct(t) ==> Distinct(r)
  {
    var i := IndexOf(t, name);
    if i == |t| then t
    else
      var r := t[i := Entry(name, t[i].score + points)];
      forall other ensures IndexOf(r, other) == IndexOf(t, other) {
        SameNamesSameIndex(t, r, other);
      }
      r
  }
}
