/** The snapshot the session publishes after a controllers list or a newly embedded controller:
    every record of the store, sorted by display name with the comparator of line 214. Line
    numbers refer to src/app/app.component.ts. */
module Snapshot {
  import opened Protocol

  /** JavaScript `<` on strings: lexicographic order, character by character. */
  predicate TextLess(a: string, b: string)
    decreases |a|
  {
    if |a| == 0 then |b| > 0
    else if |b| == 0 then false
    else a[0] < b[0] || (a[0] == b[0] && TextLess(a[1..], b[1..]))
  }

  lemma {:induction false} TextLessIrreflexive(a: string)
    ensures !TextLess(a, a)
    decreases |a|
  {
    if |a| > 0 {
      TextLessIrreflexive(a[1..]);
    }
  }

  /** Two different strings are ordered one way, and only one. */
  lemma {:induction false} TextLessTotal(a: string, b: string)
    ensures a != b <==> TextLess(a, b) || TextLess(b, a)
    ensures !(TextLess(a, b) && TextLess(b, a))
    decreases |a|
  {
    if a == b {
      TextLessIrreflexive(a);
    } else if |a| > 0 && |b| > 0 {
      TextLessTotal(a[1..], b[1..]);
      if a[0] == b[0] {
        assert a == [a[0]] + a[1..] && b == [b[0]] + b[1..];
      }
    }
  }

  lemma {:induction false} TextLessTransitive(a: string, b: string, c: string)
    requires TextLess(a, b) && TextLess(b, c)
    ensures TextLess(a, c)
    decreases |a|
  {
    if |a| > 0 && |b| > 0 && |c| > 0 && a[0] == b[0] == c[0] {
      TextLessTransitive(a[1..], b[1..], c[1..]);
    }
  }

  /** The comparator of line 214: 0 for equal display names, -1 when the first sorts first, 1 otherwise. */
  function Compare(a: ControllerState, b: ControllerState): (r: int)
    ensures -1 <= r <= 1
    ensures r == 0 <==> a.displayName == b.displayName
    ensures r == -1 <==> TextLess(a.displayName, b.displayName)
    ensures r == 1 <==> TextLess(b.displayName, a.displayName)
  {
    TextLessTotal(a.displayName, b.displayName);
    if a.displayName == b.displayName then 0
    else if TextLess(a.displayName, b.displayName) then -1
    else 1
  }

  lemma CompareTransitive(a: ControllerState, b: ControllerState, c: ControllerState)
    requires Compare(a, b) <= 0 && Compare(b, c) <= 0
    ensures Compare(a, c) <= 0
  {
    if a.displayName != b.displayName && b.displayName != c.displayName {
      TextLessTransitive(a.displayName, b.displayName, c.displayName);
    }
  }

  /** Every earlier record compares at most equal to every later one. */
  ghost predicate SortedByName(s: seq<ControllerState>) {
    forall i, j :: 0 <= i < j < |s| ==> Compare(s[i], s[j]) <= 0
  }

  /** Inserts `x` in front of the first record it does not compare above. */
  function Insert(x: ControllerState, s: seq<ControllerState>): (r: seq<ControllerState>)
    ensures multiset(r) == multiset(s) + multiset{x}
    ensures SortedByName(s) ==> SortedByName(r)
  {
    if |s| == 0 then [x]
    else if Compare(x, s[0]) <= 0 then
      InsertFrontSorted(x, s);
      [x] + s
    else
      var t := Insert(x, s[1..]);
      assert s == [s[0]] + s[1..];
      InsertBehindSorted(x, s, t);
      [s[0]] + t
  }

  lemma InsertFrontSorted(x: ControllerState, s: seq<ControllerState>)
    requires |s| > 0 && Compare(x, s[0]) <= 0
    ensures SortedByName(s) ==> SortedByName([x] + s)
  {
    if SortedByName(s) {
      var r := [x] + s;
      forall i, j | 0 <= i < j < |r| ensures Compare(r[i], r[j]) <= 0 {
        if i == 0 && j > 1 { CompareTransitive(x, s[0], r[j]); }
      }
    }
  }

  lemma InsertBehindSorted(x: ControllerState, s: seq<ControllerState>, t: seq<ControllerState>)
    requires |s| > 0 && Compare(x, s[0]) > 0
    requires multiset(t) == multiset(s[1..]) + multiset{x}
    requires SortedByName(s[1..]) ==> SortedByName(t)
    ensures SortedByName(s) ==> SortedByName([s[0]] + t)
  {
    if SortedByName(s) {
      var r := [s[0]] + t;
      forall j | 0 <= j < |t| ensures Compare(s[0], t[j]) <= 0 {
        assert t[j] in multiset(t);
        if t[j] != x {
          assert t[j] in multiset(s[1..]);
          var k :| 0 <= k < |s[1..]| && s[1..][k] == t[j];
          assert s[k + 1] == t[j];
        }
      }
      forall i, j | 0 <= i < j < |r| ensures Compare(r[i], r[j]) <= 0 {
        if i == 0 { assert r[j] == t[j - 1]; } else { assert r[i] == t[i - 1] && r[j] == t[j - 1]; }
      }
    }
  }

  /** `Array.prototype.sort` with the comparator of line 214, as an insertion sort: the result
      is a permutation of the input in display-name order. */
  function SortByName(s: seq<ControllerState>): (r: seq<ControllerState>)
    ensures multiset(r) == multiset(s)
    ensures SortedByName(r)
  {
    if |s| == 0 then []
    else
      assert s == [s[0]] + s[1..];
      Insert(s[0], SortByName(s[1..]))
  }

  /** How many ids of the store hold the record `x`. */
  ghost function IdsHolding(m: map<int, ControllerState>, x: ControllerState): nat {
    |set id | id in m && m[id] == x|
  }

  /** Taking one id out of the store takes one holder of its record away. */
  lemma IdsHoldingRemove(m: map<int, ControllerState>, id: int, x: ControllerState)
    requires id in m
    ensures IdsHolding(m, x) == IdsHolding(m - {id}, x) + (if m[id] == x then 1 else 0)
  {
    var rest := m - {id};
    var all := set k | k in m && m[k] == x;
    var others := set k | k in rest && rest[k] == x;
    if m[id] == x {
      assert all == others + {id};
    } else {
      assert all == others;
    }
  }

  /** A subset of a finite set of ids is no larger than it. */
  lemma SubsetNoLarger(a: set<int>, b: set<int>)
    requires a <= b
    ensures |a| <= |b|
    decreases b
  {
    if a != {} {
      assert exists e :: e in a by { if forall e :: e !in a { assert false; } }
      var e :| e in a;
      SubsetNoLarger(a - {e}, b - {e});
    }
  }

  /** No more ids hold a record than the store has. */
  lemma IdsHoldingAtMost(m: map<int, ControllerState>, x: ControllerState)
    ensures IdsHolding(m, x) <= |m|
  {
    SubsetNoLarger((set id | id in m && m[id] == x), m.Keys);
  }

  /** A record some id holds is one of the store's records. */
  lemma HeldIsStored(m: map<int, ControllerState>, x: ControllerState)
    requires IdsHolding(m, x) > 0
    ensures x in m.Values
  {
    var holders := set id | id in m && m[id] == x;
    assert exists k :: k in holders by { if forall k :: k !in holders { assert false; } }
    var k :| k in holders;
    assert m[k] in m.Values;
  }

  /** The record of a stored id is held by at least that id. */
  lemma StoredIsHeld(m: map<int, ControllerState>, id: int)
    requires id in m
    ensures IdsHolding(m, m[id]) > 0
  {
    SubsetNoLarger({id}, set k | k in m && m[k] == m[id]);
  }

  /** The values of the store in some order, each record once per id holding it
      (`Array.from(values())`; the order the store yields them in is not modelled). */
  ghost function StoreValues(m: map<int, ControllerState>): (r: seq<ControllerState>)
    ensures |r| == |m|
    ensures forall x :: multiset(r)[x] == IdsHolding(m, x)
    decreases |m|
  {
    if m == map[] then
      assert forall x :: IdsHolding(m, x) == 0 by {
        forall x ensures IdsHolding(m, x) == 0 {
          IdsHoldingAtMost(m, x);
        }
      }
      []
    else
      assert exists k :: k in m by {
        if forall k :: k !in m { assert false; }
      }
      var id :| id in m;
      var rest := m - {id};
      assert rest.Keys == m.Keys - {id};
      assert |rest| == |m| - 1;
      var r := [m[id]] + StoreValues(rest);
      forall x ensures multiset(r)[x] == IdsHolding(m, x) {
        IdsHoldingRemove(m, id, x);
      }
      r
  }

  /** Line 214: the published snapshot, every record of the store in display-name order, each
      as many times as ids hold it. */
  ghost function Snapshot(m: map<int, ControllerState>): (r: seq<ControllerState>)
    ensures SortedByName(r)
    ensures |r| == |m|
    ensures forall x :: multiset(r)[x] == IdsHolding(m, x)
    ensures forall id :: id in m ==> m[id] in r
    ensures forall x :: x in r ==> x in m.Values
  {
    var v := StoreValues(m);
    var r := SortByName(v);
    forall id | id in m ensures m[id] in r {
      StoredIsHeld(m, id);
      assert m[id] in multiset(r);
    }
    forall x | x in r ensures x in m.Values {
      assert x in multiset(r);
      HeldIsStored(m, x);
    }
    r
  }

  /** A record whose display name sorts before another's comes first in the snapshot: with
      controllers named "B" and "A", the one named "A" is listed first. */
  lemma SnapshotOrdersByName(m: map<int, ControllerState>, i: int, j: int)
    requires 0 <= i < |Snapshot(m)| && 0 <= j < |Snapshot(m)|
    requires TextLess(Snapshot(m)[i].displayName, Snapshot(m)[j].displayName)
    ensures i < j
  {
    var r := Snapshot(m);
    if j <= i {
      TextLessTotal(r[i].displayName, r[j].displayName);
      if j == i { TextLessIrreflexive(r[i].displayName); }
    }
  }
}
