/** What a log means: which puts are live after the entries before a place have been replayed. */
module Liveness {
  import opened LogFormat

  predicate NoEmptyGroups(gs: seq<Group>) {
    forall g :: 0 <= g < |gs| ==> |gs[g].entries| > 0
  }

  /** An entry of the log, or its end. */
  predicate OnPath(gs: seq<Group>, p: Place) {
    InLog(gs, p) || p == End(gs)
  }

  const FIRST := Place(0, 0)

  /** The place just before p. */
  function Prior(gs: seq<Group>, p: Place): (q: Place)
    requires NoEmptyGroups(gs) && OnPath(gs, p) && p != FIRST
    ensures InLog(gs, q) && Precedes(q, p) && After(gs, q) == p
  {
    if p.index > 0 then Place(p.group, p.index - 1) else Place(p.group - 1, |gs[p.group - 1].entries| - 1)
  }

  lemma AfterIsNext(gs: seq<Group>, p: Place)
    requires NoEmptyGroups(gs) && InLog(gs, p)
    ensures OnPath(gs, After(gs, p)) && After(gs, p) != FIRST && Prior(gs, After(gs, p)) == p
    ensures forall q :: OnPath(gs, q) ==> (Precedes(q, After(gs, p)) <==> Precedes(q, p) || q == p)
  {
  }

  /** The entries before p, in order. */
  function EntriesBefore(gs: seq<Group>, p: Place): seq<Entry>
    requires NoEmptyGroups(gs) && OnPath(gs, p)
    decreases p.group, p.index
  {
    if p == FIRST then [] else
      var q := Prior(gs, p);
      EntriesBefore(gs, q) + [EntryAt(gs, q)]
  }

  /** The live puts: for each key its last put, unless a delete of the key came later. */
  function LiveAt(gs: seq<Group>, p: Place): map<Bytes, Place>
    requires NoEmptyGroups(gs) && OnPath(gs, p)
    decreases p.group, p.index
  {
    if p == FIRST then map[] else
      var q := Prior(gs, p);
      Step(LiveAt(gs, q), EntryAt(gs, q), q)
  }

  function Step(m: map<Bytes, Place>, e: Entry, p: Place): map<Bytes, Place> {
    match e
    case Put(key, _) => m[key := p]
    case Delete(key) => m - {key}
  }

  /** One more entry. */
  lemma LiveAfter(gs: seq<Group>, p: Place)
    requires NoEmptyGroups(gs) && InLog(gs, p)
    ensures OnPath(gs, After(gs, p))
    ensures LiveAt(gs, After(gs, p)) == Step(LiveAt(gs, p), EntryAt(gs, p), p)
    ensures EntriesBefore(gs, After(gs, p)) == EntriesBefore(gs, p) + [EntryAt(gs, p)]
  {
    AfterIsNext(gs, p);
  }

  /** A live place is an earlier put of its key with no entry of that key in between, and conversely. */
  lemma {:induction false} LiveIsLastPut(gs: seq<Group>, p: Place, key: Bytes)
    requires NoEmptyGroups(gs) && OnPath(gs, p)
    ensures key in LiveAt(gs, p) ==> LastPut(gs, p, key, LiveAt(gs, p)[key])
    ensures forall q :: LastPut(gs, p, key, q) ==> key in LiveAt(gs, p) && LiveAt(gs, p)[key] == q
    decreases p.group, p.index
  {
    if p != FIRST {
      var q := Prior(gs, p);
      LiveIsLastPut(gs, q, key);
      AfterIsNext(gs, q);
      if EntryAt(gs, q).key == key {
        forall r | LastPut(gs, p, key, r) ensures r == q {
          assert !Precedes(r, q);
        }
      } else {
        forall r ensures LastPut(gs, p, key, r) <==> LastPut(gs, q, key, r) {
        }
      }
    }
  }

  ghost predicate LastPut(gs: seq<Group>, p: Place, key: Bytes, q: Place) {
    && InLog(gs, q) && Precedes(q, p) && EntryAt(gs, q).Put? && EntryAt(gs, q).key == key
    && forall r :: InLog(gs, r) && Precedes(q, r) && Precedes(r, p) ==> EntryAt(gs, r).key != key
  }

  /** Entries appended later change nothing about what was live before them. */
  lemma {:induction false} LivePrefix(gs: seq<Group>, more: seq<Group>, p: Place)
    requires gs <= more && NoEmptyGroups(more) && OnPath(gs, p)
    ensures NoEmptyGroups(gs) && OnPath(more, p)
    ensures LiveAt(more, p) == LiveAt(gs, p) && EntriesBefore(more, p) == EntriesBefore(gs, p)
    decreases p.group, p.index
  {
    assert forall g :: 0 <= g < |gs| ==> gs[g] == more[g];
    assert p == End(gs) ==> p.group < |more| || p == End(more);
    if p != FIRST {
      LivePrefix(gs, more, Prior(gs, p));
    }
  }

  // ---- The same, on keys and values ----

  /** The simple meaning of a log: a map from keys to values. */
  function Fold(es: seq<Entry>): map<Bytes, Bytes> {
    if es == [] then map[] else FoldStep(Fold(es[..|es| - 1]), es[|es| - 1])
  }

  function FoldStep(m: map<Bytes, Bytes>, e: Entry): map<Bytes, Bytes> {
    match e
    case Put(key, value) => m[key := value]
    case Delete(key) => m - {key}
  }

  lemma FoldAppend(es: seq<Entry>, e: Entry)
    ensures Fold(es + [e]) == FoldStep(Fold(es), e)
  {
    assert (es + [e])[..|es|] == es;
  }

  /** The live places and the folded map agree: same keys, and the place of a key holds its value. */
  ghost predicate Agree(gs: seq<Group>, m: map<Bytes, Place>, f: map<Bytes, Bytes>) {
    m.Keys == f.Keys && forall k :: k in m ==> InLog(gs, m[k]) && ValueOf(EntryAt(gs, m[k])) == f[k]
  }

  lemma StepAgrees(gs: seq<Group>, m: map<Bytes, Place>, f: map<Bytes, Bytes>, q: Place)
    requires Agree(gs, m, f) && InLog(gs, q)
    ensures Agree(gs, Step(m, EntryAt(gs, q), q), FoldStep(f, EntryAt(gs, q)))
  {
  }

  lemma {:induction false} LiveIsFold(gs: seq<Group>, p: Place)
    requires NoEmptyGroups(gs) && OnPath(gs, p)
    ensures Agree(gs, LiveAt(gs, p), Fold(EntriesBefore(gs, p)))
    decreases p.group, p.index
  {
    hide Agree, Fold;
    if p == FIRST {
      NothingAgrees(gs);
    } else {
      var q := Prior(gs, p);
      LiveIsFold(gs, q);
      FoldAppend(EntriesBefore(gs, q), EntryAt(gs, q));
      StepAgrees(gs, LiveAt(gs, q), Fold(EntriesBefore(gs, q)), q);
    }
  }

  lemma NothingAgrees(gs: seq<Group>)
    ensures Agree(gs, map[], Fold([]))
  {
  }

  lemma EntriesUpTo(gs: seq<Group>, g: nat)
    requires 0 < g <= |gs|
    ensures Entries(gs[..g]) == Entries(gs[..g - 1]) + gs[g - 1].entries
  {
    assert gs[..g] == gs[..g - 1] + [gs[g - 1]];
    EntriesAppend(gs[..g - 1], [gs[g - 1]]);
    assert Entries([gs[g - 1]]) == gs[g - 1].entries + Entries([]);
  }

  lemma Snoc<T>(a: seq<T>, s: seq<T>, i: nat)
    requires 0 < i <= |s|
    ensures a + s[..i - 1] + [s[i - 1]] == a + s[..i]
  {
  }

  /** The entries before a place are those of the groups before, and those before it in its group. */
  lemma {:induction false} EntriesBeforeGroup(gs: seq<Group>, g: nat, i: nat)
    requires NoEmptyGroups(gs) && OnPath(gs, Place(g, i))
    ensures EntriesBefore(gs, Place(g, i)) == Entries(gs[..g]) + if g < |gs| then gs[g].entries[..i] else []
    decreases g, i
  {
    hide Entries;
    if i > 0 {
      EntriesBeforeGroup(gs, g, i - 1);
      Snoc(Entries(gs[..g]), gs[g].entries, i);
    } else if g > 0 {
      var n := |gs[g - 1].entries|;
      EntriesBeforeGroup(gs, g - 1, n - 1);
      Snoc(Entries(gs[..g - 1]), gs[g - 1].entries, n);
      assert gs[g - 1].entries[..n] == gs[g - 1].entries;
      EntriesUpTo(gs, g);
      assert Entries(gs[..g]) + [] == Entries(gs[..g]);
    } else {
      assert gs[..0] == [];
      NoEntries();
    }
  }

  lemma NoEntries()
    ensures Entries([]) == []
  {
  }

  lemma EntriesBeforeEnd(gs: seq<Group>)
    requires NoEmptyGroups(gs)
    ensures EntriesBefore(gs, End(gs)) == Entries(gs)
  {
    EntriesBeforeGroup(gs, |gs|, 0);
    assert gs[..|gs|] == gs;
  }

  // ---- Sizes ----

  /** The encoded size of the entries before p whose places are in s. */
  function SizeIn(gs: seq<Group>, p: Place, s: set<Place>): nat
    requires NoEmptyGroups(gs) && OnPath(gs, p)
    decreases p.group, p.index
  {
    if p == FIRST then 0 else
      var q := Prior(gs, p);
      SizeIn(gs, q, s) + if q in s then |Encoded(EntryAt(gs, q))| else 0
  }

  function LiveSize(gs: seq<Group>, p: Place): nat
    requires NoEmptyGroups(gs) && OnPath(gs, p)
  {
    SizeIn(gs, p, LiveAt(gs, p).Values)
  }

  lemma {:induction false} SizeWithout(gs: seq<Group>, p: Place, s: set<Place>, r: Place)
    requires NoEmptyGroups(gs) && OnPath(gs, p) && InLog(gs, r)
    ensures SizeIn(gs, p, s - {r}) + (if r in s && Precedes(r, p) then |Encoded(EntryAt(gs, r))| else 0) == SizeIn(gs, p, s)
    decreases p.group, p.index
  {
    hide Encoded;
    if p != FIRST {
      SizeWithout(gs, Prior(gs, p), s, r);
      AfterIsNext(gs, Prior(gs, p));
    }
  }

  lemma ValuesWithout<K, V>(m: map<K, V>, k: K)
    requires k in m ==> forall x :: x in m && x != k ==> m[x] != m[k]
    ensures (m - {k}).Values == if k in m then m.Values - {m[k]} else m.Values
  {
    forall v | v in m.Values && (k in m ==> v != m[k]) ensures v in (m - {k}).Values {
      var x :| x in m && m[x] == v;
      assert (m - {k})[x] == v;
    }
  }

  lemma ValuesWith<K, V>(m: map<K, V>, k: K, v: V)
    requires k !in m
    ensures m[k := v].Values == m.Values + {v}
  {
    var m' := m[k := v];
    assert m'[k] == v;
    forall x | x in m.Values ensures x in m'.Values {
      var y :| y in m && m[y] == x;
      assert m'[y] == x;
    }
  }

  lemma SizeAfter(gs: seq<Group>, p: Place, s: set<Place>)
    requires NoEmptyGroups(gs) && InLog(gs, p) && OnPath(gs, After(gs, p))
    ensures SizeIn(gs, After(gs, p), s) == SizeIn(gs, p, s) + if p in s then |Encoded(EntryAt(gs, p))| else 0
  {
    hide Encoded;
    AfterIsNext(gs, p);
  }

  /** Without the entry of a key the live size is smaller by the size of that put. */
  lemma SizeWithoutKey(gs: seq<Group>, p: Place, key: Bytes)
    requires NoEmptyGroups(gs) && OnPath(gs, p)
    ensures var m := LiveAt(gs, p);
            && (key in m ==> InLog(gs, m[key]))
            && SizeIn(gs, p, (m - {key}).Values) + (if key in m then |Encoded(EntryAt(gs, m[key]))| else 0)
            == LiveSize(gs, p)
  {
    hide Encoded, LiveAt, SizeIn;
    var m := LiveAt(gs, p);
    LivePlaces(gs, p);
    ValuesWithout(m, key);
    if key in m {
      SizeWithout(gs, p, m.Values, m[key]);
    }
  }

  /** The size of the live entries after one more entry: its own size is added if it is a put, and
      the size of the put it replaces or deletes is taken off. */
  lemma LiveSizeAfter(gs: seq<Group>, p: Place)
    requires NoEmptyGroups(gs) && InLog(gs, p) && OnPath(gs, After(gs, p))
    ensures var m, e := LiveAt(gs, p), EntryAt(gs, p);
            && (e.key in m ==> InLog(gs, m[e.key]))
            && LiveSize(gs, After(gs, p)) + (if e.key in m then |Encoded(EntryAt(gs, m[e.key]))| else 0)
            == LiveSize(gs, p) + (if e.Put? then |Encoded(e)| else 0)
  {
    hide Encoded, LiveAt, SizeIn;
    AfterIsNext(gs, p);
    LiveAfter(gs, p);
    var m, e := LiveAt(gs, p), EntryAt(gs, p);
    SizeWithoutKey(gs, p, e.key);
    var s := (m - {e.key}).Values;
    NotLive(gs, p, e.key);
    if e.Put? {
      ValuesWith(m - {e.key}, e.key, p);
      assert m[e.key := p] == (m - {e.key})[e.key := p];
      SizeAfter(gs, p, s + {p});
      SizeWithout(gs, p, s + {p}, p);
      assert s + {p} - {p} == s;
    } else {
      SizeAfter(gs, p, s);
    }
  }

  lemma NotLive(gs: seq<Group>, p: Place, key: Bytes)
    requires NoEmptyGroups(gs) && OnPath(gs, p)
    ensures p !in LiveAt(gs, p).Values && p !in (LiveAt(gs, p) - {key}).Values
  {
    LivePlaces(gs, p);
  }

  /** The live places are earlier puts, a different one for each key. */
  lemma LivePlaces(gs: seq<Group>, p: Place)
    requires NoEmptyGroups(gs) && OnPath(gs, p)
    ensures forall k :: k in LiveAt(gs, p) ==> LastPut(gs, p, k, LiveAt(gs, p)[k])
  {
    forall k | k in LiveAt(gs, p) ensures LastPut(gs, p, k, LiveAt(gs, p)[k]) {
      LiveIsLastPut(gs, p, k);
    }
  }
}
