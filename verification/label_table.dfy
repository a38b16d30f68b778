/**
 * The generator's `self.labels` dictionary: label name to raw text, kept in
 * insertion order as Python dictionaries are. Re-assigning a name replaces its
 * text but keeps its original position (lwc_label_generator.py:17, 100, 108).
 */
module LabelTables {
  import opened Sorting

  /** One `labels[name] = raw` write. */
  datatype Entry = Entry(name: string, raw: string)

  /** Keys in insertion order, and the text each one maps to. */
  datatype LabelTable = LabelTable(order: seq<string>, values: map<string, string>) {

    /** The order lists every key exactly once and nothing else. */
    predicate Valid() {
      && Distinct(order)
      && (forall k :: k in values ==> k in order)
      && (forall i :: 0 <= i < |order| ==> order[i] in values)
    }
  }

  const EmptyTable := LabelTable([], map[])

  /** The strings a sequence lists. */
  function Elems(s: seq<string>): set<string> {
    set k | k in s
  }

  lemma ElemsSnoc(s: seq<string>)
    requires s != []
    ensures Elems(s) == Elems(s[..|s| - 1]) + {s[|s| - 1]}
  {
    assert s == s[..|s| - 1] + [s[|s| - 1]];
  }

  lemma DistinctSnoc(s: seq<string>)
    requires s != []
    ensures Distinct(s) <==> Distinct(s[..|s| - 1]) && s[|s| - 1] !in s[..|s| - 1]
  {
  }

  /**
   * A sequence lists at most as many strings as it has entries, and exactly
   * as many when none is repeated.
   */
  lemma {:induction false} ElemsSize(s: seq<string>)
    ensures |Elems(s)| <= |s|
    ensures |Elems(s)| == |s| <==> Distinct(s)
    decreases |s|
  {
    if s == [] {
      assert Elems(s) == {};
    } else {
      var init := s[..|s| - 1];
      ElemsSize(init);
      ElemsSnoc(s);
      DistinctSnoc(s);
      if s[|s| - 1] in init {
        assert s[|s| - 1] in Elems(init);
        assert Elems(s) == Elems(init);
      } else {
        assert s[|s| - 1] !in Elems(init);
      }
    }
  }

  /** A valid table has as many keys as its order has entries. */
  lemma ValidSize(t: LabelTable)
    requires t.Valid()
    ensures |t.values| == |t.order|
  {
    assert t.values.Keys == Elems(t.order);
    ElemsSize(t.order);
  }

  /** `labels[e.name] = e.raw`: a new name goes to the end, an existing one keeps its place. */
  function Put(t: LabelTable, e: Entry): (r: LabelTable)
    requires t.Valid()
    ensures r.Valid()
    ensures r.values == t.values[e.name := e.raw]
    ensures e.name in t.values ==> r.order == t.order
    ensures e.name !in t.values ==> r.order == t.order + [e.name]
  {
    if e.name in t.values then LabelTable(t.order, t.values[e.name := e.raw])
    else LabelTable(t.order + [e.name], t.values[e.name := e.raw])
  }

  /** The writes applied one after another. */
  function PutAll(t: LabelTable, ws: seq<Entry>): (r: LabelTable)
    requires t.Valid()
    ensures r.Valid()
    decreases |ws|
  {
    if ws == [] then t else PutAll(Put(t, ws[0]), ws[1..])
  }

  /** The names written, in order. */
  function Names(ws: seq<Entry>): (ns: seq<string>)
    ensures |ns| == |ws|
    ensures forall i :: 0 <= i < |ws| ==> ns[i] == ws[i].name
  {
    seq(|ws|, i requires 0 <= i < |ws| => ws[i].name)
  }

  /** The texts written, in order. */
  function Raws(ws: seq<Entry>): (rs: seq<string>)
    ensures |rs| == |ws|
    ensures forall i :: 0 <= i < |ws| ==> rs[i] == ws[i].raw
  {
    seq(|ws|, i requires 0 <= i < |ws| => ws[i].raw)
  }

  /** The text of the last write to `k`. */
  function LastRaw(ws: seq<Entry>, k: string): (raw: string)
    requires k in Names(ws)
    ensures exists i :: 0 <= i < |ws| && ws[i] == Entry(k, raw) && forall j :: i < j < |ws| ==> ws[j].name != k
  {
    var e := ws[|ws| - 1];
    if e.name == k then e.raw
    else
      var init := ws[..|ws| - 1];
      assert k in Names(init) by {
        var i :| 0 <= i < |ws| && Names(ws)[i] == k;
        assert Names(init)[i] == k;
      }
      var raw := LastRaw(init, k);
      var i :| 0 <= i < |init| && init[i] == Entry(k, raw) && forall j :: i < j < |init| ==> init[j].name != k;
      assert ws[i] == Entry(k, raw);
      assert forall j :: i < j < |ws| ==> ws[j].name != k by {
        forall j | i < j < |ws| ensures ws[j].name != k {
          if j < |init| {
            assert ws[j] == init[j];
          }
        }
      }
      raw
  }

  /** Index of the first write to `k`. */
  function FirstIndex(ns: seq<string>, k: string): (i: nat)
    requires k in ns
    ensures i < |ns| && ns[i] == k && k !in ns[..i]
  {
    if ns[0] == k then 0
    else
      var i := 1 + FirstIndex(ns[1..], k);
      assert ns[..i] == [ns[0]] + ns[1..][..i - 1];
      i
  }

  lemma {:induction false} PutAllSnoc(t: LabelTable, ws: seq<Entry>, e: Entry)
    requires t.Valid()
    ensures PutAll(t, ws + [e]) == Put(PutAll(t, ws), e)
    decreases |ws|
  {
    if ws == [] {
      assert PutAll(t, [e]) == PutAll(Put(t, e), []);
    } else {
      assert (ws + [e])[1..] == ws[1..] + [e];
      PutAllSnoc(Put(t, ws[0]), ws[1..], e);
    }
  }

  /**
   * After the writes, the table holds the names written and the earlier keys;
   * each written name maps to the text of its LAST write, and a later write
   * silently replaces an earlier one.
   */
  lemma {:induction false} LastWriteWins(t: LabelTable, ws: seq<Entry>)
    requires t.Valid()
    ensures forall k :: k in PutAll(t, ws).values <==> k in t.values || k in Names(ws)
    ensures forall k :: k in Names(ws) ==> PutAll(t, ws).values[k] == LastRaw(ws, k)
    ensures forall k :: k in t.values && k !in Names(ws) ==> PutAll(t, ws).values[k] == t.values[k]
    decreases |ws|
  {
    if ws != [] {
      var init := ws[..|ws| - 1];
      var e := ws[|ws| - 1];
      assert ws == init + [e];
      LastWriteWins(t, init);
      PutAllSnoc(t, init, e);
      NamesSnoc(init, e);
      forall k | k in Names(ws) && k != e.name ensures k in Names(init) && LastRaw(ws, k) == LastRaw(init, k) {
        LastRawSnoc(init, e, k);
      }
    }
  }

  lemma NamesSnoc(ws: seq<Entry>, e: Entry)
    ensures Names(ws + [e]) == Names(ws) + [e.name]
  {
  }

  /** A write to another name does not change the last text written to `k`. */
  lemma LastRawSnoc(ws: seq<Entry>, e: Entry, k: string)
    requires k in Names(ws + [e]) && k != e.name
    ensures k in Names(ws) && LastRaw(ws + [e], k) == LastRaw(ws, k)
  {
    NamesSnoc(ws, e);
    assert (ws + [e])[..|ws|] == ws;
  }

  /**
   * The insertion order of the table built from an empty one is the names in
   * the order of their first write.
   */
  lemma {:induction false} OrderIsFirstWrites(ws: seq<Entry>)
    ensures forall k :: k in PutAll(EmptyTable, ws).order <==> k in Names(ws)
    ensures forall i, j :: 0 <= i < j < |PutAll(EmptyTable, ws).order| ==>
      FirstIndex(Names(ws), PutAll(EmptyTable, ws).order[i]) < FirstIndex(Names(ws), PutAll(EmptyTable, ws).order[j])
    decreases |ws|
  {
    if ws != [] {
      var init := ws[..|ws| - 1];
      var e := ws[|ws| - 1];
      assert ws == init + [e];
      OrderIsFirstWrites(init);
      PutAllSnoc(EmptyTable, init, e);
      assert Names(ws) == Names(init) + [e.name];
      var before := PutAll(EmptyTable, init);
      assert e.name in before.values <==> e.name in Names(init);
      OrderStep(Names(init), e.name, before.order, Put(before, e).order);
    }
  }

  /** One write keeps the order-of-first-write property of the key order. */
  lemma OrderStep(ns: seq<string>, n: string, before: seq<string>, after: seq<string>)
    requires forall k :: k in before <==> k in ns
    requires forall i, j :: 0 <= i < j < |before| ==> FirstIndex(ns, before[i]) < FirstIndex(ns, before[j])
    requires after == if n in ns then before else before + [n]
    ensures forall k :: k in after <==> k in ns + [n]
    ensures forall i, j :: 0 <= i < j < |after| ==> FirstIndex(ns + [n], after[i]) < FirstIndex(ns + [n], after[j])
  {
    FirstIndexesKept(ns, n, before);
    if n !in ns {
      OrderStepNew(ns, n, before);
    }
  }

  /** Appending a name moves no first write of the names already listed. */
  lemma FirstIndexesKept(ns: seq<string>, n: string, before: seq<string>)
    requires forall k :: k in before ==> k in ns
    ensures forall i :: 0 <= i < |before| ==> FirstIndex(ns + [n], before[i]) == FirstIndex(ns, before[i])
  {
    forall i | 0 <= i < |before| ensures FirstIndex(ns + [n], before[i]) == FirstIndex(ns, before[i]) {
      assert before[i] in before;
      FirstIndexOfPrefix(ns, [n], before[i]);
    }
  }

  /** A new name goes after every name already in the order. */
  lemma OrderStepNew(ns: seq<string>, n: string, before: seq<string>)
    requires n !in ns && forall k :: k in before <==> k in ns
    requires forall i :: 0 <= i < |before| ==> FirstIndex(ns + [n], before[i]) == FirstIndex(ns, before[i])
    ensures forall i :: 0 <= i < |before| ==> FirstIndex(ns + [n], before[i]) < FirstIndex(ns + [n], n)
  {
    assert FirstIndex(ns + [n], n) == |ns| by {
      assert (ns + [n])[..|ns|] == ns;
    }
  }

  lemma {:induction false} FirstIndexOfPrefix(a: seq<string>, b: seq<string>, k: string)
    requires k in a
    ensures FirstIndex(a + b, k) == FirstIndex(a, k)
  {
    if a[0] != k {
      assert (a + b)[1..] == a[1..] + b;
      FirstIndexOfPrefix(a[1..], b, k);
    }
  }

  /**
   * The table has one key per distinct name written: never more keys than
   * writes, and exactly as many only when no two writes share a name.
   */
  lemma {:induction false} TableSizeCountsDistinctNames(ws: seq<Entry>)
    ensures |PutAll(EmptyTable, ws).values| == |set i | 0 <= i < |ws| :: ws[i].name|
    ensures |PutAll(EmptyTable, ws).values| <= |ws|
    ensures |PutAll(EmptyTable, ws).values| == |ws| <==> forall i, j :: 0 <= i < j < |ws| ==> ws[i].name != ws[j].name
  {
    var t := PutAll(EmptyTable, ws);
    LastWriteWins(EmptyTable, ws);
    var names := set i | 0 <= i < |ws| :: ws[i].name;
    assert t.values.Keys == names by {
      forall k ensures k in t.values.Keys <==> k in names {
        if k in Names(ws) {
          var i :| 0 <= i < |ws| && Names(ws)[i] == k;
        }
      }
    }
    ImageSize(ws);
  }

  /** The set of names written has at most one element per write, with equality exactly when they are distinct. */
  lemma ImageSize(ws: seq<Entry>)
    ensures |set i | 0 <= i < |ws| :: ws[i].name| <= |ws|
    ensures |set i | 0 <= i < |ws| :: ws[i].name| == |ws| <==> forall i, j :: 0 <= i < j < |ws| ==> ws[i].name != ws[j].name
  {
    var names := Names(ws);
    assert (set i | 0 <= i < |ws| :: ws[i].name) == Elems(names) by {
      forall k | k in names ensures exists i :: 0 <= i < |ws| && ws[i].name == k {
        var i :| 0 <= i < |names| && names[i] == k;
      }
    }
    ElemsSize(names);
  }
}
