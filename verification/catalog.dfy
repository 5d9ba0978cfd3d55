/** The catalog's service table as the handlers see it: a sequence of rows
    in insertion order, and the next primary key the store will assign.
    Only the rows still visible to queries are kept; a deleted row simply
    leaves the sequence. */
module Catalog {
  import opened Wrappers
  import opened Seqs

  const ContainerType := "container"
  const ComposeType := "compose"

  /** A service record. SubServices is not a stored column: it is the set of
      rows whose parent is this one, and is computed by ChildrenOf. */
  datatype Service = Service(
    id: nat,
    name: string,
    environmentId: nat,
    parentServiceId: Option<nat>,
    serviceType: string,
    image: string,
    containerId: string,
    composePath: string)

  datatype Table = Table(rows: seq<Service>, nextId: nat)

  /** Every stored row has its own key, and every key is below the next one to assign */
  predicate WellKeyed(t: Table) {
    (forall i :: 0 <= i < |t.rows| ==> t.rows[i].id < t.nextId) && DistinctKeys(t.rows)
  }

  predicate DistinctKeys(rows: seq<Service>) {
    forall i, j :: 0 <= i < j < |rows| ==> rows[i].id != rows[j].id
  }

  /** A WHERE condition of the delete statements the handlers issue */
  datatype Selector =
    | ChildOf(parent: nat)          // parent_service_id = parent
    | WithContainer(container: string)  // container_id = container

  predicate Selects(sel: Selector, s: Service) {
    match sel
    case ChildOf(p) => s.parentServiceId == Some(p)
    case WithContainer(c) => s.containerId == c
  }

  /** The rows a selector matches, in table order */
  function Matching(rows: seq<Service>, sel: Selector): (r: seq<Service>)
    ensures |r| <= |rows|
    ensures forall s :: s in r <==> s in rows && Selects(sel, s)
  {
    if rows == [] then []
    else (if Selects(sel, rows[0]) then [rows[0]] else []) + Matching(rows[1..], sel)
  }

  /** The rows a selector does not match, in table order */
  function Unmatched(rows: seq<Service>, sel: Selector): (r: seq<Service>)
    ensures |r| <= |rows|
    ensures forall s :: s in r <==> s in rows && !Selects(sel, s)
  {
    if rows == [] then []
    else (if Selects(sel, rows[0]) then [] else [rows[0]]) + Unmatched(rows[1..], sel)
  }

  /** The sub-services of a parent, as a preload of SubServices loads them */
  function ChildrenOf(t: Table, parent: nat): seq<Service> {
    Matching(t.rows, ChildOf(parent))
  }

  /** The row stored under a key, if any */
  function Find(t: Table, id: nat): (r: Option<Service>)
    ensures r.Some? ==> r.value in t.rows && r.value.id == id
    ensures r.None? ==> forall i :: 0 <= i < |t.rows| ==> t.rows[i].id != id
    decreases |t.rows|
  {
    if t.rows == [] then None
    else if t.rows[0].id == id then Some(t.rows[0])
    else Find(Table(t.rows[1..], t.nextId), id)
  }

  /** DELETE ... WHERE sel */
  function Delete(t: Table, sel: Selector): (r: Table)
    ensures r.nextId == t.nextId
    ensures forall s :: s in r.rows <==> s in t.rows && !Selects(sel, s)
  {
    Table(Unmatched(t.rows, sel), t.nextId)
  }

  /** INSERT of one record: the store assigns the next key */
  function Insert(t: Table, s: Service): (r: Table)
    ensures |r.rows| == |t.rows| + 1 && r.rows[..|t.rows|] == t.rows
    ensures r.rows[|t.rows|] == s.(id := t.nextId)
    ensures r.nextId == t.nextId + 1
    ensures WellKeyed(t) ==> WellKeyed(r)
  {
    Table(t.rows + [s.(id := t.nextId)], t.nextId + 1)
  }

  /** One INSERT per record, in order */
  function InsertAll(t: Table, ss: seq<Service>): Table
    decreases |ss|
  {
    if ss == [] then t else InsertAll(Insert(t, ss[0]), ss[1..])
  }

  /** The records ss as the store keys them when inserted from key `from` on */
  function Keyed(ss: seq<Service>, from: nat): (r: seq<Service>)
    ensures |r| == |ss|
    decreases |ss|
  {
    if ss == [] then [] else [ss[0].(id := from)] + Keyed(ss[1..], from + 1)
  }

  /** The i-th keyed record is the i-th record under key from + i */
  lemma {:induction false} KeyedAt(ss: seq<Service>, from: nat)
    ensures forall i :: 0 <= i < |ss| ==> Keyed(ss, from)[i] == ss[i].(id := from + i)
    decreases |ss|
  {
    if ss != [] {
      KeyedAt(ss[1..], from + 1);
    }
  }

  /** Inserting a batch appends the batch, keyed consecutively */
  lemma {:induction false} InsertAllAppends(t: Table, ss: seq<Service>)
    ensures InsertAll(t, ss) == Table(t.rows + Keyed(ss, t.nextId), t.nextId + |ss|)
    decreases |ss|
  {
    if ss != [] {
      var first := ss[0].(id := t.nextId);
      var t1 := Table(t.rows + [first], t.nextId + 1);
      assert InsertAll(t, ss) == InsertAll(t1, ss[1..]);
      InsertAllAppends(t1, ss[1..]);
      Associative(t.rows, [first], Keyed(ss[1..], t1.nextId));
    }
  }

  lemma {:induction false} MatchingAppend(a: seq<Service>, b: seq<Service>, sel: Selector)
    ensures Matching(a + b, sel) == Matching(a, sel) + Matching(b, sel)
    decreases |a|
  {
    if a != [] {
      var head := if Selects(sel, a[0]) then [a[0]] else [];
      assert (a + b)[0] == a[0];
      assert (a + b)[1..] == a[1..] + b;
      calc {
        Matching(a + b, sel);
        head + Matching(a[1..] + b, sel);
        { MatchingAppend(a[1..], b, sel); }
        head + (Matching(a[1..], sel) + Matching(b, sel));
        { Associative(head, Matching(a[1..], sel), Matching(b, sel)); }
        Matching(a, sel) + Matching(b, sel);
      }
    } else {
      assert a + b == b;
    }
  }

  /** A selector matches nothing among the rows a delete with it left behind */
  lemma {:induction false} MatchingUnmatched(rows: seq<Service>, sel: Selector)
    ensures Matching(Unmatched(rows, sel), sel) == []
    decreases |rows|
  {
    if rows != [] {
      var rest := Unmatched(rows[1..], sel);
      MatchingUnmatched(rows[1..], sel);
      MatchingAppend(if Selects(sel, rows[0]) then [] else [rows[0]], rest, sel);
    }
  }

  /** The rows a selector matches are all of them when it matches every row */
  lemma {:induction false} MatchingAll(rows: seq<Service>, sel: Selector)
    requires forall i :: 0 <= i < |rows| ==> Selects(sel, rows[i])
    ensures Matching(rows, sel) == rows
    decreases |rows|
  {
    if rows != [] {
      MatchingAll(rows[1..], sel);
      assert [rows[0]] + rows[1..] == rows;
    }
  }

  /** Deleting the rows a selector matches and inserting records it matches
      leaves exactly the inserted records, keyed, matching it. The proof is
      the four lemma calls below, not an induction; automatic induction on ss
      is switched off because it only slows the solver. */
  lemma {:induction false} ReplaceMatching(t: Table, sel: Selector, ss: seq<Service>)
    requires forall i :: 0 <= i < |ss| ==> Selects(sel, ss[i])
    ensures Matching(InsertAll(Delete(t, sel), ss).rows, sel) == Keyed(ss, t.nextId)
  {
    var cleared := Delete(t, sel);
    var created := Keyed(ss, t.nextId);
    InsertAllAppends(cleared, ss);
    MatchingAppend(cleared.rows, created, sel);
    MatchingUnmatched(t.rows, sel);
    KeyedAt(ss, t.nextId);
    assert forall i :: 0 <= i < |created| ==> Selects(sel, created[i]);
    MatchingAll(created, sel);
  }

  /** A lookup finds the same row after a DELETE that does not match it,
      whatever is appended afterwards and whatever the counter */
  lemma {:induction false} FindUnmatched(rows: seq<Service>, sel: Selector, more: seq<Service>, n: nat, m: nat, id: nat)
    requires Find(Table(rows, n), id).Some? && !Selects(sel, Find(Table(rows, n), id).value)
    ensures Find(Table(Unmatched(rows, sel) + more, m), id) == Find(Table(rows, n), id)
    decreases |rows|
  {
    var kept := Unmatched(rows, sel) + more;
    var later := Unmatched(rows[1..], sel) + more;
    var head := if Selects(sel, rows[0]) then [] else [rows[0]];
    assert Unmatched(rows, sel) == head + Unmatched(rows[1..], sel);
    Associative(head, Unmatched(rows[1..], sel), more);
    assert kept == head + later;
    if rows[0].id == id {
      assert kept[0] == rows[0];
    } else {
      assert Find(Table(rows, n), id) == Find(Table(rows[1..], n), id);
      FindUnmatched(rows[1..], sel, more, n, m, id);
      if head != [] {
        assert kept[0] == rows[0] && kept[1..] == later;
        assert Find(Table(kept, m), id) == Find(Table(kept[1..], m), id);
      } else {
        assert kept == later;
      }
      assert Find(Table(kept, m), id) == Find(Table(later, m), id);
    }
  }

  /** In a well-keyed table the row a lookup finds is the only one with its key */
  lemma OnlyRowWithKey(t: Table, id: nat, x: Service)
    requires WellKeyed(t) && Find(t, id).Some? && x in t.rows
    ensures x.id == id ==> x == Find(t, id).value
  {
    var s := Find(t, id).value;
    var i :| 0 <= i < |t.rows| && t.rows[i] == s;
    var j :| 0 <= j < |t.rows| && t.rows[j] == x;
    assert t.rows[i].id == id;
  }

  /** Deleting keeps the table well keyed */
  lemma DeleteWellKeyed(t: Table, sel: Selector)
    requires WellKeyed(t)
    ensures WellKeyed(Delete(t, sel))
  {
    var r := Delete(t, sel);
    UnmatchedDistinct(t.rows, sel);
    forall i | 0 <= i < |r.rows|
      ensures r.rows[i].id < r.nextId
    {
      assert r.rows[i] in t.rows;
    }
  }

  lemma {:induction false} UnmatchedDistinct(rows: seq<Service>, sel: Selector)
    requires DistinctKeys(rows)
    ensures DistinctKeys(Unmatched(rows, sel))
    decreases |rows|
  {
    if rows != [] {
      var rest := Unmatched(rows[1..], sel);
      UnmatchedDistinct(rows[1..], sel);
      var r := Unmatched(rows, sel);
      if Selects(sel, rows[0]) {
        assert r == rest;
      } else {
        assert r == [rows[0]] + rest;
        forall i, j | 0 <= i < j < |r|
          ensures r[i].id != r[j].id
        {
          if i == 0 {
            assert r[j] in rows[1..];
            var k :| 0 <= k < |rows[1..]| && rows[1..][k] == r[j];
            assert rows[0].id != rows[k + 1].id;
            assert r[0] == rows[0];
          } else {
            assert r[i] == rest[i - 1] && r[j] == rest[j - 1];
          }
        }
      }
    }
  }
}
