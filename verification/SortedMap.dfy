/**
  The public operations of the tree, first on its sorted contents and then on a
  plain map from keys to nodes.  The two agree on every run.
 */
module SortedMap {
  import opened Keys
  import opened TimeoutNode
  import opened AvlTheory

  datatype Op =
    | InsertOp(e: Entry)
    | RemoveOp(k: Key)
    | RemoveMinOp
    | RemoveMaxOp
    | PopMinOp
    | PopMaxOp
    | GetMinOp
    | GetMaxOp

  datatype Reply = Inserted(yes: bool) | Found(node: Node?) | Done

  /** `remove_min` and `remove_max` do not look whether the tree is empty. */
  predicate NeedsElement(op: Op) {
    op.RemoveMinOp? || op.RemoveMaxOp?
  }

  // ---------- On sorted contents ----------

  function First(s: seq<Entry>): Node? {
    if s == [] then null else s[0].node
  }

  function Last(s: seq<Entry>): Node? {
    if s == [] then null else s[|s| - 1].node
  }

  function Step(s: seq<Entry>, op: Op): (seq<Entry>, Reply)
    requires NeedsElement(op) ==> s != []
  {
    match op
    case InsertOp(e) => (SeqInsert(s, e), Inserted(!Holds(s, e.key)))
    case RemoveOp(k) => (SeqRemove(s, k), Found(if Holds(s, k) then s[Rank(s, k)].node else null))
    case RemoveMinOp => (s[1..], Done)
    case RemoveMaxOp => (s[..|s| - 1], Done)
    case PopMinOp => (if s == [] then s else s[1..], Found(First(s)))
    case PopMaxOp => (if s == [] then s else s[..|s| - 1], Found(Last(s)))
    case GetMinOp => (s, Found(First(s)))
    case GetMaxOp => (s, Found(Last(s)))
  }

  // ---------- On a map ----------

  type NodeMap = map<Key, Node>

  ghost function MapStep(m: NodeMap, op: Op): (NodeMap, Reply)
    requires NeedsElement(op) ==> m != map[]
  {
    match op
    case InsertOp(e) => (if e.key in m then m else m[e.key := e.node], Inserted(e.key !in m))
    case RemoveOp(k) => (m - {k}, Found(if k in m then m[k] else null))
    case RemoveMinOp => (m - {Least(m.Keys)}, Done)
    case RemoveMaxOp => (m - {Greatest(m.Keys)}, Done)
    case PopMinOp => if m == map[] then (m, Found(null)) else (m - {Least(m.Keys)}, Found(m[Least(m.Keys)]))
    case PopMaxOp => if m == map[] then (m, Found(null)) else (m - {Greatest(m.Keys)}, Found(m[Greatest(m.Keys)]))
    case GetMinOp => (m, Found(if m == map[] then null else m[Least(m.Keys)]))
    case GetMaxOp => (m, Found(if m == map[] then null else m[Greatest(m.Keys)]))
  }

  // ---------- One step ----------

  ghost function MapOf(s: seq<Entry>): (m: NodeMap)
    ensures m.Keys == KeySet(s)
  {
    map k | k in KeySet(s) :: (var e :| e in s && e.key == k; e.node)
  }

  /** On sorted contents an entry is what its key maps to. */
  lemma {:induction false} MapOfEntry(s: seq<Entry>, e: Entry)
    requires Sorted(s) && e in s
    ensures e.key in MapOf(s) && MapOf(s)[e.key] == e.node
  {
    HoldsIsMembership(s, e.key);
    assert e.key in KeySet(s);
  }

  lemma {:induction false} SameMap(s: seq<Entry>, m: NodeMap)
    requires Sorted(s) && m.Keys == KeySet(s)
    requires forall e | e in s :: m[e.key] == e.node
    ensures MapOf(s) == m
  {
    forall k | k in KeySet(s) ensures MapOf(s)[k] == m[k] {
      var e :| e in s && e.key == k;
      MapOfEntry(s, e);
    }
  }

  lemma {:induction false} ExtremesOfSorted(s: seq<Entry>)
    requires Sorted(s) && s != []
    ensures s[0].key in MapOf(s) && MapOf(s)[s[0].key] == s[0].node
    ensures s[|s| - 1].key in MapOf(s) && MapOf(s)[s[|s| - 1].key] == s[|s| - 1].node
    ensures Least(KeySet(s)) == s[0].key && Greatest(KeySet(s)) == s[|s| - 1].key
  {
    MapOfEntry(s, s[0]);
    MapOfEntry(s, s[|s| - 1]);
    var lo :| lo in s && lo.key == Least(KeySet(s));
    var hi :| hi in s && hi.key == Greatest(KeySet(s));
    assert s[0].key in KeySet(s) && s[|s| - 1].key in KeySet(s);
  }

  lemma {:induction false} CutsAreRemovals(s: seq<Entry>)
    requires Sorted(s) && s != []
    ensures s[1..] == SeqRemove(s, s[0].key)
    ensures s[..|s| - 1] == SeqRemove(s, s[|s| - 1].key)
  {
    var n := |s| - 1;
    RankUnique(s, s[0].key, 0);
    RankUnique(s, s[n].key, n);
    assert s[..0] + s[0 + 1..] == s[1..];
    assert s[..n] + s[n + 1..] == s[..n];
  }

  lemma {:induction false} RemovalOnMap(s: seq<Entry>, k: Key)
    requires Sorted(s)
    ensures MapOf(SeqRemove(s, k)) == MapOf(s) - {k}
  {
    SeqRemoveIsMapRemove(s, k);
    forall e | e in SeqRemove(s, k) ensures e.key in MapOf(s) && MapOf(s)[e.key] == e.node {
      MapOfEntry(s, e);
    }
    SameMap(SeqRemove(s, k), MapOf(s) - {k});
  }

  /** One operation on the sorted contents is that operation on the map they represent. */
  lemma {:induction false} StepRefinesMap(s: seq<Entry>, op: Op)
    requires Sorted(s) && (NeedsElement(op) ==> s != [])
    ensures s == [] <==> MapOf(s) == map[]
    ensures Sorted(Step(s, op).0)
    ensures MapStep(MapOf(s), op) == (MapOf(Step(s, op).0), Step(s, op).1)
  {
    if s != [] {
      ExtremesOfSorted(s);
      CutsAreRemovals(s);
      SeqRemoveIsMapRemove(s, s[0].key);
      SeqRemoveIsMapRemove(s, s[|s| - 1].key);
      RemovalOnMap(s, s[0].key);
      RemovalOnMap(s, s[|s| - 1].key);
    }
    if op.InsertOp? {
      InsertionOnMap(s, op.e);
    } else if op.RemoveOp? {
      SeqRemoveIsMapRemove(s, op.k);
      RemovalOnMap(s, op.k);
      HoldsIsMembership(s, op.k);
      if Holds(s, op.k) {
        MapOfEntry(s, s[Rank(s, op.k)]);
      }
    }
  }

  lemma {:induction false} InsertionOnMap(s: seq<Entry>, e: Entry)
    requires Sorted(s)
    ensures Sorted(SeqInsert(s, e)) && (Holds(s, e.key) <==> e.key in MapOf(s))
    ensures MapOf(SeqInsert(s, e)) == if e.key in MapOf(s) then MapOf(s) else MapOf(s)[e.key := e.node]
  {
    SeqInsertIsMapUpdate(s, e);
    HoldsIsMembership(s, e.key);
    if !Holds(s, e.key) {
      forall x | x in SeqInsert(s, e) && x != e ensures x in s && MapOf(s)[x.key] == x.node {
        MapOfEntry(s, x);
      }
      SameMap(SeqInsert(s, e), MapOf(s)[e.key := e.node]);
    }
  }

  // ---------- Whole runs ----------

  /** No operation of the run removes an extreme of empty contents. */
  predicate Enabled(s: seq<Entry>, ops: seq<Op>)
    decreases |ops|
  {
    ops != [] ==> (NeedsElement(ops[0]) ==> s != []) && Enabled(Step(s, ops[0]).0, ops[1..])
  }

  function Run(s: seq<Entry>, ops: seq<Op>): (seq<Entry>, seq<Reply>)
    requires Enabled(s, ops)
    decreases |ops|
  {
    if ops == [] then (s, [])
    else
      var (s', reply) := Step(s, ops[0]);
      var (end, replies) := Run(s', ops[1..]);
      (end, [reply] + replies)
  }

  ghost predicate MapEnabled(m: NodeMap, ops: seq<Op>)
    decreases |ops|
  {
    ops != [] ==> (NeedsElement(ops[0]) ==> m != map[]) && MapEnabled(MapStep(m, ops[0]).0, ops[1..])
  }

  ghost function MapRun(m: NodeMap, ops: seq<Op>): (NodeMap, seq<Reply>)
    requires MapEnabled(m, ops)
    decreases |ops|
  {
    if ops == [] then (m, [])
    else
      var (m', reply) := MapStep(m, ops[0]);
      var (end, replies) := MapRun(m', ops[1..]);
      (end, [reply] + replies)
  }

  /** Every run of operations answers, and ends, as the map would. */
  lemma {:induction false} RunRefinesMap(s: seq<Entry>, ops: seq<Op>)
    requires Sorted(s)
    ensures Enabled(s, ops) <==> MapEnabled(MapOf(s), ops)
    ensures Enabled(s, ops) ==>
              && Sorted(Run(s, ops).0)
              && MapRun(MapOf(s), ops) == (MapOf(Run(s, ops).0), Run(s, ops).1)
    decreases |ops|
  {
    if ops != [] {
      var op := ops[0];
      assert s == [] ==> MapOf(s) == map[];
      assert s != [] ==> s[0].key in MapOf(s) by {
        if s != [] { assert s[0].key in KeySet(s); }
      }
      if NeedsElement(op) ==> s != [] {
        StepRefinesMap(s, op);
        RunRefinesMap(Step(s, op).0, ops[1..]);
      }
    }
  }
}
