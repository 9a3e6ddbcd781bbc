/** When a hash table is an index of a log: it holds one entry for each live put and nothing else. */
module Index {
  import opened LogFormat
  import opened Liveness
  import opened RobinHood
  import opened HashTables

  /** The cell of a put. */
  function CellOf(hash: Bytes -> nat, c: Compression, gs: seq<Group>, p: Place): Cell
    requires InLog(gs, p)
  {
    var key := EntryAt(gs, p).key;
    Used(hash(key), key, p, Pos(c, gs, p.group))
  }

  ghost predicate Live(gs: seq<Group>, m: map<Bytes, Place>) {
    forall k {:trigger m[k]} :: k in m ==> InLog(gs, m[k]) && EntryAt(gs, m[k]).Put? && EntryAt(gs, m[k]).key == k
  }

  /** How often a used cell must occur. */
  ghost function Due(x: Cell, m: map<Bytes, Place>, hash: Bytes -> nat, c: Compression, gs: seq<Group>): nat
    requires x.Used? && Live(gs, m)
  {
    if x.key in m && x == CellOf(hash, c, gs, m[x.key]) then 1 else 0
  }

  /** The used cells are those of the live puts, each once. */
  ghost predicate Holds(cells: seq<Cell>, m: map<Bytes, Place>, hash: Bytes -> nat, c: Compression, gs: seq<Group>) {
    Live(gs, m) && forall x: Cell :: x.Used? ==> multiset(cells)[x] == Due(x, m, hash, c, gs)
  }

  lemma HoldsCell(cells: seq<Cell>, m: map<Bytes, Place>, hash: Bytes -> nat, c: Compression, gs: seq<Group>, i: nat)
    requires Holds(cells, m, hash, c, gs) && i < |cells| && cells[i].Used?
    ensures cells[i].key in m && cells[i] == CellOf(hash, c, gs, m[cells[i].key])
  {
    assert cells[i] in multiset(cells);
  }

  /** The table has the key exactly when the key is live. */
  lemma HoldsKey(cells: seq<Cell>, m: map<Bytes, Place>, hash: Bytes -> nat, c: Compression, gs: seq<Group>, key: Bytes)
    requires Holds(cells, m, hash, c, gs)
    ensures HasKey(cells, key) <==> key in m
  {
    if HasKey(cells, key) {
      var i :| 0 <= i < |cells| && IsKey(cells[i], key);
      HoldsCell(cells, m, hash, c, gs, i);
    }
    if key in m {
      var x := CellOf(hash, c, gs, m[key]);
      assert multiset(cells)[x] == Due(x, m, hash, c, gs) == 1;
      assert x in cells;
      var i :| 0 <= i < |cells| && cells[i] == x;
      assert IsKey(cells[i], key);
    }
  }

  lemma HoldsRefer(cells: seq<Cell>, m: map<Bytes, Place>, hash: Bytes -> nat, c: Compression, gs: seq<Group>)
    requires Holds(cells, m, hash, c, gs)
    ensures AllRefer(cells, c, gs)
  {
    forall i | 0 <= i < |cells| ensures RefersTo(cells[i], c, gs) {
      if cells[i].Used? {
        HoldsCell(cells, m, hash, c, gs, i);
      }
    }
  }

  lemma NothingHeld(n: nat, hash: Bytes -> nat, c: Compression, gs: seq<Group>)
    ensures Holds(seq(n, _ => Free), map[], hash, c, gs)
  {
    var cells: seq<Cell> := seq(n, _ => Free);
    forall x: Cell | x.Used? ensures multiset(cells)[x] == Due(x, map[], hash, c, gs) {
      assert x !in cells;
    }
  }

  /** A put of a key that was not live. */
  lemma HoldsInserted(before: seq<Cell>, after: seq<Cell>, m: map<Bytes, Place>, hash: Bytes -> nat,
                      c: Compression, gs: seq<Group>, p: Place)
    requires Holds(before, m, hash, c, gs) && InLog(gs, p) && EntryAt(gs, p).Put? && EntryAt(gs, p).key !in m
    requires multiset(after) + multiset{Free} == multiset(before) + multiset{CellOf(hash, c, gs, p)}
    ensures Holds(after, m[EntryAt(gs, p).key := p], hash, c, gs)
  {
    var key, cell := EntryAt(gs, p).key, CellOf(hash, c, gs, p);
    var m' := m[key := p];
    forall x: Cell | x.Used? ensures multiset(after)[x] == Due(x, m', hash, c, gs) {
      assert (multiset(after) + multiset{Free})[x] == (multiset(before) + multiset{cell})[x];
      assert multiset(before)[x] == Due(x, m, hash, c, gs);
    }
  }

  /** A put of a key that was live: its cell has been replaced. */
  lemma HoldsReplaced(before: seq<Cell>, at: nat, m: map<Bytes, Place>, hash: Bytes -> nat,
                      c: Compression, gs: seq<Group>, p: Place)
    requires Holds(before, m, hash, c, gs) && InLog(gs, p) && EntryAt(gs, p).Put?
    requires at < |before| && IsKey(before[at], EntryAt(gs, p).key)
    ensures Holds(before[at := CellOf(hash, c, gs, p)], m[EntryAt(gs, p).key := p], hash, c, gs)
  {
    var key, cell := EntryAt(gs, p).key, CellOf(hash, c, gs, p);
    var m', after := m[key := p], before[at := cell];
    HoldsCell(before, m, hash, c, gs, at);
    ReplacedOne(before, at, cell);
    forall x: Cell | x.Used? ensures multiset(after)[x] == Due(x, m', hash, c, gs) {
      assert (multiset(after) + multiset{before[at]})[x] == (multiset(before) + multiset{cell})[x];
      assert multiset(before)[x] == Due(x, m, hash, c, gs);
    }
  }

  /** A delete of a key that was live. */
  lemma HoldsRemoved(before: seq<Cell>, after: seq<Cell>, at: nat, m: map<Bytes, Place>, hash: Bytes -> nat,
                     c: Compression, gs: seq<Group>, key: Bytes)
    requires Holds(before, m, hash, c, gs) && at < |before| && IsKey(before[at], key)
    requires multiset(after) + multiset{before[at]} == multiset(before) + multiset{Free}
    ensures Holds(after, m - {key}, hash, c, gs)
  {
    HoldsCell(before, m, hash, c, gs, at);
    var m' := m - {key};
    forall x: Cell | x.Used? ensures multiset(after)[x] == Due(x, m', hash, c, gs) {
      assert (multiset(after) + multiset{before[at]})[x] == (multiset(before) + multiset{Free})[x];
      assert multiset(before)[x] == Due(x, m, hash, c, gs);
    }
  }

  // ---- Counting ----

  /** Each put adds at most one live key. */
  lemma {:induction false} LiveCount(gs: seq<Group>, p: Place, q: Place)
    requires NoEmptyGroups(gs) && OnPath(gs, p) && OnPath(gs, q) && (p == q || Precedes(p, q))
    ensures Puts(EntriesBefore(gs, p)) <= Puts(EntriesBefore(gs, q))
    ensures |LiveAt(gs, q)| <= |LiveAt(gs, p)| + Puts(EntriesBefore(gs, q)) - Puts(EntriesBefore(gs, p))
    decreases q.group, q.index
  {
    if p != q {
      var r := Prior(gs, q);
      AfterIsNext(gs, r);
      LiveCount(gs, p, r);
      PutsAppend(EntriesBefore(gs, r), EntryAt(gs, r));
      StepCount(LiveAt(gs, r), EntryAt(gs, r), r);
    }
  }

  lemma StepCount(m: map<Bytes, Place>, e: Entry, p: Place)
    ensures |Step(m, e, p)| == if e.Put? then (if e.key in m then |m| else |m| + 1)
                               else (if e.key in m then |m| - 1 else |m|)
  {
    if e.Delete? {
      assert (m - {e.key}).Keys == m.Keys - {e.key};
    }
  }
}
