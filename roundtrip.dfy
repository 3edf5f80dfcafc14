/** `replace_idx_with_fds` undoes `replace_fds_with_idx` (asyncdbus/_private/util.py):
    decoding the encoded body with the table encoding built gives back the
    original body, for a body that matches its signature and has no
    descriptor-typed dict key.

    Each walk function gets a round-trip lemma. Encoding only appends to the
    table, so decoding may use any table that extends the one a part of the
    walk ended with. Every lemma also states that the variant phase of
    `signature_contains_type` judges the encoded form as it judges the
    original, which is what makes decoding walk the encoded body at all. */
module FdRoundTrip {
  import opened DBusSignature
  import opened DBusValue
  import opened Containment
  import opened FdIndirection
  import opened FdIndirectionProofs

  /** A body without descriptor-typed dict keys is a body. */
  lemma {:induction false} TypedRelax(t: SigType, v: Value)
    requires Typed(t, v, false)
    ensures Typed(t, v, true)
    decreases v
  {
    if t.token == 'v' {
      TypedRelax(v.vtype, v.value);
    } else if t.token == 'a' && |t.children| == 1 && t.children[0].token == '{' {
      var e := t.children[0];
      forall i | 0 <= i < |v.entries|
        ensures Typed(e.children[0], v.entries[i].key, true) && Typed(e.children[1], v.entries[i].value, true)
      {
        TypedRelax(e.children[0], v.entries[i].key);
        TypedRelax(e.children[1], v.entries[i].value);
      }
    } else if t.token == 'a' && |t.children| == 1 {
      forall i | 0 <= i < |v.items| ensures Typed(t.children[0], v.items[i], true) {
        TypedRelax(t.children[0], v.items[i]);
      }
    } else if t.token == '(' {
      forall i | 0 <= i < |v.items| ensures Typed(t.children[i], v.items[i], true) {
        TypedRelax(t.children[i], v.items[i]);
      }
    }
  }

  /** Putting `a[k - 1]` in place turns the splice at `k - 1` into the splice at `k`. */
  lemma Splice<T>(a: seq<T>, b: seq<T>, k: nat)
    requires 0 < k <= |a| == |b|
    ensures (a[..k - 1] + b[k - 1..])[k - 1 := a[k - 1]] == a[..k] + b[k..]
  {
  }

  /** `a` and `b` answer alike, position by position, in the variant phase. */
  predicate SameContains(a: seq<Value>, b: seq<Value>) {
    |a| == |b| && forall j | 0 <= j < |a| :: MemberContains(a[j], 'h') == MemberContains(b[j], 'h')
  }

  /** Replacing position `i` by a value that answers as `b[i]` keeps `SameContains`. */
  lemma SameContainsStep(a: seq<Value>, prior: seq<Value>, b: seq<Value>, i: nat)
    requires i < |a| == |prior| && a == prior[i := a[i]] && SameContains(prior, b)
    requires MemberContains(a[i], 'h') == MemberContains(b[i], 'h')
    ensures SameContains(a, b)
  {
    forall j | 0 <= j < |a| ensures MemberContains(a[j], 'h') == MemberContains(b[j], 'h') {
      if j != i {
        assert a[j] == prior[j];
      }
    }
  }

  /** A list that agrees with `enc` on `k` positions agrees with the list
      before step `k` on `k - 1` of them. */
  lemma Agree(enc: seq<Value>, prior: seq<Value>, decoded: seq<Value>, k: nat)
    requires 0 < k <= |enc| && |prior| == |enc| && |decoded| == |enc|
    requires enc == prior[k - 1 := enc[k - 1]] && decoded[..k] == enc[..k]
    ensures decoded[..k - 1] == prior[..k - 1] && decoded[k - 1] == enc[k - 1]
  {
    assert decoded[..k - 1] == enc[..k][..k - 1];
    assert decoded[k - 1] == decoded[..k][k - 1];
  }

  // ---------------------------------------------------------------------
  // One iteration of the field loop, in each direction.

  lemma FieldsEncodeStep(items: seq<Value>, children: seq<SigType>, k: nat, fds: Table, enc: seq<Value>, encTable: Table)
    requires 0 < k <= |children| && k <= |items|
    requires FieldsUpTo(ToIndex, items, children, k, fds) == Ok((enc, encTable))
    ensures FieldsUpTo(ToIndex, items, children, k - 1, fds).Ok?
    ensures var prior := FieldsUpTo(ToIndex, items, children, k - 1, fds).value;
      enc == prior.0[k - 1 := enc[k - 1]] && enc[..k - 1] == prior.0[..k - 1] &&
      if Skipped(children[k - 1]) then enc[k - 1] == items[k - 1] && encTable == prior.1
      else Field(ToIndex, children[k - 1], items[k - 1], prior.1) == Ok((enc[k - 1], encTable))
  {
    var prior := FieldsUpTo(ToIndex, items, children, k - 1, fds).value;
    UpdatePrefix(enc, prior.0, k - 1);
  }

  lemma FieldsDecodeStep(decoded: seq<Value>, children: seq<SigType>, k: nat, table: Table, prior: seq<Value>, x: Value)
    requires 0 < k <= |children| && k <= |decoded|
    requires FieldsUpTo(FromIndex, decoded, children, k - 1, table) == Ok((prior, table))
    requires Skipped(children[k - 1]) ==> x == decoded[k - 1]
    requires !Skipped(children[k - 1]) ==> Field(FromIndex, children[k - 1], decoded[k - 1], table) == Ok((x, table))
    ensures FieldsUpTo(FromIndex, decoded, children, k, table) == Ok((prior[k - 1 := x], table))
  {
    if Skipped(children[k - 1]) {
      assert prior[k - 1] == decoded[k - 1];
      assert prior[k - 1 := x] == prior;
    }
  }

  /** The field loop after `k` fields, decoding a list `decoded` that agrees
      with the encoded fields so far: the original fields come back in those
      positions and the rest is left alone. */
  lemma {:induction false} FieldsRoundTrip(items: seq<Value>, children: seq<SigType>, k: nat, fds: Table,
                                           enc: seq<Value>, encTable: Table, table: Table, decoded: seq<Value>)
    requires FieldsTyped(items, children, false) && k <= |children|
    requires FieldsUpTo(ToIndex, items, children, k, fds) == Ok((enc, encTable))
    requires encTable <= table
    requires |decoded| == |items| && decoded[..k] == enc[..k]
    ensures FieldsUpTo(FromIndex, decoded, children, k, table) == Ok((items[..k] + decoded[k..], table))
    ensures SameContains(enc, items)
    ensures FieldsSlots(enc, children, k) == Indices(table, FieldsSlots(items, children, k))
    decreases SeqSize(items), 2, k
  {
    if k == 0 {
      assert items[..0] + decoded[0..] == decoded;
    } else {
      FieldsStepGrows(items, children, k, fds);
      FieldsEncodeStep(items, children, k, fds, enc, encTable);
      var prior := FieldsUpTo(ToIndex, items, children, k - 1, fds).value;
      Agree(enc, prior.0, decoded, k);
      FieldsRoundTrip(items, children, k - 1, fds, prior.0, prior.1, table, decoded);
      var st := children[k - 1];
      if !Skipped(st) {
        SeqSizeElement(items, k - 1);
        FieldRoundTrip(st, items[k - 1], prior.1, enc[k - 1], encTable, table);
      }
      FieldsSlotsUnfold(items, children, k);
      FieldsSlotsUnfold(enc, children, k);
      FieldsSlotsPrefix(enc, prior.0, children, k - 1);
      IndexedAppend(table, FieldsSlots(items, children, k), FieldsSlots(items, children, k - 1), MemberSlots(st, items[k - 1]),
                    FieldsSlots(enc, children, k), FieldsSlots(enc, children, k - 1), MemberSlots(st, enc[k - 1]));
      FieldsDecodeStep(decoded, children, k, table, items[..k - 1] + decoded[k - 1..], items[k - 1]);
      Splice(items, decoded, k);
      SameContainsStep(enc, prior.0, items, k - 1);
    }
  }

  /** The slots after one more step, when the ones before and the new ones
      are related by `Indices`, are so related. */
  lemma IndexedAppend(table: Table, x: seq<Value>, xPrefix: seq<Value>, xStep: seq<Value>,
                      e: seq<Value>, ePrefix: seq<Value>, eStep: seq<Value>)
    requires x == xPrefix + xStep && e == ePrefix + eStep
    requires ePrefix == Indices(table, xPrefix) && eStep == Indices(table, xStep)
    ensures e == Indices(table, x)
  {
    IndicesAppend(table, xPrefix, xStep);
  }

  /** One field: its encoded form decodes back with any table that extends
      the table after encoding it. */
  lemma {:induction false} FieldRoundTrip(st: SigType, v: Value, fds: Table, enc: Value, encTable: Table, table: Table)
    requires WellFormed(st) && Typed(st, v, false)
    requires Field(ToIndex, st, v, fds) == Ok((enc, encTable))
    requires encTable <= table
    ensures Field(FromIndex, st, enc, table) == Ok((v, table))
    ensures MemberContains(enc, 'h') == MemberContains(v, 'h')
    ensures FieldSlots(st, enc) == Indices(table, FieldSlots(st, v))
    decreases Size(v), 1, 0
  {
    if st.token == 'h' {
      assert Signature(st) == "h";
      LeafIndex(v, fds, table);
    } else if st.token == 'a' && st.children[0].token == '{' {
      DictFieldRoundTrip(st, v, fds, enc, encTable, table);
    } else if st.token == 'a' {
      ArrayFieldRoundTrip(st, v, fds, enc, encTable, table);
    } else if st.token == '(' {
      StructFieldRoundTrip(st, v, fds, enc, encTable, table);
    } else if st.token == 'v' {
      VariantFieldRoundTrip(st, v, fds, enc, encTable, table);
    } else {
      assert Signature(st) == [st.token];
    }
  }

  lemma {:induction false} DictFieldRoundTrip(st: SigType, v: Value, fds: Table, enc: Value, encTable: Table, table: Table)
    requires WellFormed(st) && Typed(st, v, false)
    requires st.token == 'a' && st.children[0].token == '{'
    requires Field(ToIndex, st, v, fds) == Ok((enc, encTable))
    requires encTable <= table
    ensures Field(FromIndex, st, enc, table) == Ok((v, table))
    ensures MemberContains(enc, 'h') == MemberContains(v, 'h')
    ensures FieldSlots(st, enc) == Indices(table, FieldSlots(st, v))
    decreases Size(v), 0, 0
  {
    var c, es := st.children[0], v.entries;
    assert st == SigType('a', [c]);
    FieldOfDict(ToIndex, c, es, fds);
    var p := DictUpTo(ToIndex, c, es, |es|, fds).value;
    DictRoundTrip(c, es, |es|, fds, p.0, p.1, table);
    VisitedDecode(c, es, p.0, table);
    FieldOfDict(FromIndex, c, p.0, table);
    assert Signature(st)[0] == 'a';
  }

  /** A dict whose every entry was visited by the encoding side decodes back
      to the snapshot, answers the variant phase alike, and holds in its
      descriptor slots the indices of the original descriptors. */
  lemma VisitedDecode(c: SigType, es: seq<Entry>, d: seq<Entry>, table: Table)
    requires WellFormedEntry(c) && c.children[0].token != 'h' && DistinctKeys(es)
    requires Visited(c.children[1], es, |es|, d, table)
    ensures DictUpTo(FromIndex, c, d, |d|, table) == Ok((es, table))
    ensures AnyMemberContains(Values(d), 'h') == AnyMemberContains(Values(es), 'h')
    ensures DictSlots(c, d, |d|) == Indices(table, DictSlots(c, es, |es|))
  {
    VisitedAll(c.children[1], es, d, table);
    assert DistinctKeys(d) by {
      forall i, j | 0 <= i < j < |d| ensures d[i].key != d[j].key {
        assert d[i].key == es[i].key && d[j].key == es[j].key;
      }
    }
    assert Signature(c.children[0]) != "h" by {
      assert Signature(c.children[0])[0] == c.children[0].token;
    }
    DictDecode(c, d, es, |d|, table);
    assert d[|d|..] + es[..|es|] == es;
    AnyMemberContainsPointwise(Values(d), Values(es), 'h');
    DictSlotsIndexed(c, d, es, |es|, table);
  }

  lemma {:induction false} ArrayFieldRoundTrip(st: SigType, v: Value, fds: Table, enc: Value, encTable: Table, table: Table)
    requires WellFormed(st) && Typed(st, v, false)
    requires st.token == 'a' && st.children[0].token != '{'
    requires Field(ToIndex, st, v, fds) == Ok((enc, encTable))
    requires encTable <= table
    ensures Field(FromIndex, st, enc, table) == Ok((v, table))
    ensures MemberContains(enc, 'h') == MemberContains(v, 'h')
    ensures FieldSlots(st, enc) == Indices(table, FieldSlots(st, v))
    decreases Size(v), 0, 0
  {
    var xs := v.items;
    assert Signature(st)[0] == 'a';
    var p := ArrayUpTo(ToIndex, st, xs, |xs|, fds).value;
    assert enc == List(p.0) && encTable == p.1;
    ArrayRoundTrip(st, xs, |xs|, fds, p.0, p.1, table, p.0);
    assert xs[..|xs|] + p.0[|xs|..] == xs;
    AnyMemberContainsPointwise(p.0, xs, 'h');
  }

  lemma {:induction false} StructFieldRoundTrip(st: SigType, v: Value, fds: Table, enc: Value, encTable: Table, table: Table)
    requires WellFormed(st) && Typed(st, v, false)
    requires st.token == '('
    requires Field(ToIndex, st, v, fds) == Ok((enc, encTable))
    requires encTable <= table
    ensures Field(FromIndex, st, enc, table) == Ok((v, table))
    ensures MemberContains(enc, 'h') == MemberContains(v, 'h')
    ensures FieldSlots(st, enc) == Indices(table, FieldSlots(st, v))
    decreases Size(v), 0, 0
  {
    var xs := v.items;
    FieldOfStruct(ToIndex, st, xs, fds);
    var p := FieldsUpTo(ToIndex, xs, st.children, |st.children|, fds).value;
    FieldsRoundTrip(xs, st.children, |st.children|, fds, p.0, p.1, table, p.0);
    assert xs[..|xs|] + p.0[|xs|..] == xs;
    FieldOfStruct(FromIndex, st, p.0, table);
    AnyMemberContainsPointwise(p.0, xs, 'h');
    assert Signature(st)[0] == '(';
  }

  lemma {:induction false} VariantFieldRoundTrip(st: SigType, v: Value, fds: Table, enc: Value, encTable: Table, table: Table)
    requires WellFormed(st) && Typed(st, v, false)
    requires st.token == 'v'
    requires Field(ToIndex, st, v, fds) == Ok((enc, encTable))
    requires encTable <= table
    ensures Field(FromIndex, st, enc, table) == Ok((v, table))
    ensures MemberContains(enc, 'h') == MemberContains(v, 'h')
    ensures FieldSlots(st, enc) == Indices(table, FieldSlots(st, v))
    decreases Size(v), 0, 0
  {
    assert Signature(st) == "v";
    var t, x := v.vtype, v.value;
    if Signature(t) == "h" {
      assert t.token == 'h';
      assert TreeHas([t][0], 'h');
      LeafIndex(x, fds, table);
    } else {
      SeqSizeSingleton(x);
      var w := FieldsUpTo(ToIndex, [x], [t], 1, fds).value;
      assert enc == Variant(t, w.0[0]) && encTable == w.1;
      FieldsRoundTrip([x], [t], 1, fds, w.0, w.1, table, w.0);
      assert [x][..1] + w.0[1..] == [x];
      assert w.0 == [w.0[0]];
      AnyMemberContainsSingleton(x, 'h');
      AnyMemberContainsSingleton(w.0[0], 'h');
    }
  }

  // ---------------------------------------------------------------------
  // The element loop of an array.

  lemma ArrayEncodeStep(st: SigType, xs: seq<Value>, k: nat, fds: Table, enc: seq<Value>, encTable: Table)
    requires 0 < k <= |xs|
    requires ArrayUpTo(ToIndex, st, xs, k, fds) == Ok((enc, encTable))
    ensures ArrayUpTo(ToIndex, st, xs, k - 1, fds).Ok?
    ensures var prior := ArrayUpTo(ToIndex, st, xs, k - 1, fds).value;
      enc == prior.0[k - 1 := enc[k - 1]] && enc[..k - 1] == prior.0[..k - 1] &&
      if Signature(st) == "ah" then Leaf(ToIndex, xs[k - 1], prior.1) == Ok((enc[k - 1], encTable))
      else FieldsUpTo(ToIndex, [xs[k - 1]], st.children, |st.children|, prior.1) == Ok(([enc[k - 1]], encTable))
  {
    var prior := ArrayUpTo(ToIndex, st, xs, k - 1, fds).value;
    UpdatePrefix(enc, prior.0, k - 1);
    if Signature(st) != "ah" {
      var p := FieldsUpTo(ToIndex, [xs[k - 1]], st.children, |st.children|, prior.1).value;
      assert p.0 == [p.0[0]];
    }
  }

  lemma ArrayDecodeStep(st: SigType, decoded: seq<Value>, k: nat, table: Table, prior: seq<Value>, x: Value)
    requires 0 < k <= |decoded|
    requires ArrayUpTo(FromIndex, st, decoded, k - 1, table) == Ok((prior, table))
    requires Signature(st) == "ah" ==> Leaf(FromIndex, decoded[k - 1], table) == Ok((x, table))
    requires Signature(st) != "ah" ==>
      FieldsUpTo(FromIndex, [decoded[k - 1]], st.children, |st.children|, table) == Ok(([x], table))
    ensures ArrayUpTo(FromIndex, st, decoded, k, table) == Ok((prior[k - 1 := x], table))
  {
  }

  /** One element of an array: it decodes back, and its encoded slots hold
      the indices of its descriptors. */
  lemma {:induction false} ArrayElementRoundTrip(st: SigType, x: Value, fds: Table, ex: Value, encTable: Table, table: Table)
    requires WellFormed(st) && st.token == 'a' && st.children[0].token != '{'
    requires Typed(st.children[0], x, false)
    requires Signature(st) == "ah" ==> Leaf(ToIndex, x, fds) == Ok((ex, encTable))
    requires Signature(st) != "ah" ==>
      FieldsUpTo(ToIndex, [x], st.children, |st.children|, fds) == Ok(([ex], encTable))
    requires encTable <= table
    ensures Signature(st) == "ah" ==> Leaf(FromIndex, ex, table) == Ok((x, table))
    ensures Signature(st) != "ah" ==> FieldsUpTo(FromIndex, [ex], st.children, |st.children|, table) == Ok(([x], table))
    ensures ElementSlots(st, ex) == Indices(table, ElementSlots(st, x))
    ensures MemberContains(ex, 'h') == MemberContains(x, 'h')
    decreases Size(x), 3, 0
  {
    ArrayOfFds(st);
    if Signature(st) == "ah" {
      assert table[ex.i] == encTable[ex.i] == x;
      LeafIndex(x, fds, table);
    } else {
      SeqSizeSingleton(x);
      assert WellFormed(st.children[0]);
      FieldsRoundTrip([x], st.children, 1, fds, [ex], encTable, table, [ex]);
      assert [x][..1] + [ex][1..] == [x];
    }
  }

  /** Updating position `i` leaves the positions before it alone. */
  lemma UpdatePrefix<T>(a: seq<T>, prior: seq<T>, i: nat)
    requires i < |a| == |prior| && a == prior[i := a[i]]
    ensures a[..i] == prior[..i]
  {
  }

  /** The element loop after `k` elements, decoding a list `decoded` that
      agrees with the encoded elements so far. */
  lemma {:induction false} ArrayRoundTrip(st: SigType, xs: seq<Value>, k: nat, fds: Table,
                                          enc: seq<Value>, encTable: Table, table: Table, decoded: seq<Value>)
    requires WellFormed(st) && st.token == 'a' && st.children[0].token != '{'
    requires k <= |xs|
    requires ItemsTyped(st.children[0], xs, false)
    requires ArrayUpTo(ToIndex, st, xs, k, fds) == Ok((enc, encTable))
    requires encTable <= table
    requires |decoded| == |xs| && decoded[..k] == enc[..k]
    ensures ArrayUpTo(FromIndex, st, decoded, k, table) == Ok((xs[..k] + decoded[k..], table))
    ensures SameContains(enc, xs)
    ensures ArraySlots(st, enc, k) == Indices(table, ArraySlots(st, xs, k))
    decreases SeqSize(xs), 3, k
  {
    if k == 0 {
      assert enc == enc[0..] == xs[0..] == xs;
      assert xs[..0] + decoded[0..] == decoded;
    } else {
      ArrayStepGrows(st, xs, k, fds);
      ArrayEncodeStep(st, xs, k, fds, enc, encTable);
      var prior := ArrayUpTo(ToIndex, st, xs, k - 1, fds).value;
      Agree(enc, prior.0, decoded, k);
      ArrayRoundTrip(st, xs, k - 1, fds, prior.0, prior.1, table, decoded);
      var x := xs[k - 1];
      SeqSizeElement(xs, k - 1);
      ArrayElementRoundTrip(st, x, prior.1, enc[k - 1], encTable, table);
      ArraySlotsUnfold(st, xs, k);
      ArraySlotsUnfold(st, enc, k);
      ArraySlotsPrefix(st, enc, prior.0, k - 1);
      IndexedAppend(table, ArraySlots(st, xs, k), ArraySlots(st, xs, k - 1), ElementSlots(st, x),
                    ArraySlots(st, enc, k), ArraySlots(st, enc, k - 1), ElementSlots(st, enc[k - 1]));
      ArrayDecodeStep(st, decoded, k, table, xs[..k - 1] + decoded[k - 1..], x);
      Splice(xs, decoded, k);
      SameContainsStep(enc, prior.0, xs, k - 1);
    }
  }

  // ---------------------------------------------------------------------
  // The dict loop.

  lemma DictEncodeStep(e: SigType, snapshot: seq<Entry>, k: nat, fds: Table, d: seq<Entry>, encTable: Table)
    requires 0 < k <= |snapshot|
    requires |e.children| >= 2 && Signature(e.children[0]) != "h"
    requires DictUpTo(ToIndex, e, snapshot, k, fds) == Ok((d, encTable))
    ensures DictUpTo(ToIndex, e, snapshot, k - 1, fds).Ok?
    ensures var prior := DictUpTo(ToIndex, e, snapshot, k - 1, fds).value;
      var entry := snapshot[k - 1];
      DictValue(ToIndex, e.children[1], entry.value, prior.1).Ok? &&
      var pv := DictValue(ToIndex, e.children[1], entry.value, prior.1).value;
      d == Store(Remove(prior.0, entry.key), entry.key, pv.0) && encTable == pv.1
  {
  }

  /** What the encoding side of the dict loop has done after `k` entries of
      the snapshot: the entries not yet visited come first, unchanged, then
      the visited ones in snapshot order, with their keys kept and values of
      type `vt` that decode back with `table` and hold, in their descriptor
      slots, the indices in `table` of the original descriptors. */
  predicate Visited(vt: SigType, snapshot: seq<Entry>, k: nat, d: seq<Entry>, table: Table) {
    k <= |snapshot| && |d| == |snapshot| && d[..|snapshot| - k] == snapshot[k..] &&
    VisitedPrefix(vt, snapshot, k, d[|snapshot| - k..], table)
  }

  /** The first `k` entries of the snapshot, visited: `done[j]` came from
      `snapshot[j]`. */
  predicate VisitedPrefix(vt: SigType, snapshot: seq<Entry>, k: nat, done: seq<Entry>, table: Table)
    requires k <= |snapshot|
  {
    |done| == k &&
    (k > 0 ==>
      VisitedPrefix(vt, snapshot, k - 1, done[..k - 1], table) &&
      VisitedEntry(vt, done[k - 1], snapshot[k - 1], table))
  }

  lemma {:induction false} VisitedPrefixAll(vt: SigType, snapshot: seq<Entry>, k: nat, done: seq<Entry>, table: Table)
    requires k <= |snapshot| && VisitedPrefix(vt, snapshot, k, done, table)
    ensures |done| == k && forall j | 0 <= j < k :: VisitedEntry(vt, done[j], snapshot[j], table)
  {
    if k > 0 {
      VisitedPrefixAll(vt, snapshot, k - 1, done[..k - 1], table);
      forall j | 0 <= j < k - 1 ensures VisitedEntry(vt, done[j], snapshot[j], table) {
        assert done[..k - 1][j] == done[j];
      }
    }
  }

  lemma {:induction false} VisitedPrefixKeys(vt: SigType, snapshot: seq<Entry>, k: nat, done: seq<Entry>, table: Table)
    requires k <= |snapshot| && VisitedPrefix(vt, snapshot, k, done, table)
    ensures |done| == k && forall j | 0 <= j < k :: done[j].key == snapshot[j].key
  {
    if k > 0 {
      VisitedPrefixKeys(vt, snapshot, k - 1, done[..k - 1], table);
      forall j | 0 <= j < k - 1 ensures done[j].key == snapshot[j].key {
        assert done[..k - 1][j] == done[j];
      }
    }
  }

  /** A visited entry `w` of the encoded dict against the snapshot entry
      `original` it came from. */
  predicate VisitedEntry(vt: SigType, w: Entry, original: Entry, table: Table) {
    w.key == original.key &&
    DictValue(FromIndex, vt, w.value, table) == Ok((original.value, table)) &&
    MemberContains(w.value, 'h') == MemberContains(original.value, 'h') &&
    ValueSlots(vt, w.value) == Indices(table, ValueSlots(vt, original.value))
  }

  /** The dict loop once every entry of the snapshot has been visited. */
  lemma VisitedAll(vt: SigType, snapshot: seq<Entry>, d: seq<Entry>, table: Table)
    requires Visited(vt, snapshot, |snapshot|, d, table)
    ensures |d| == |snapshot|
    ensures forall j | 0 <= j < |d| ::
      d[j].key == snapshot[j].key &&
      DictValue(FromIndex, vt, d[j].value, table) == Ok((snapshot[j].value, table)) &&
      MemberContains(d[j].value, 'h') == MemberContains(snapshot[j].value, 'h') &&
      ValueSlots(vt, d[j].value) == Indices(table, ValueSlots(vt, snapshot[j].value))
  {
    assert d[0..] == d;
    VisitedPrefixAll(vt, snapshot, |snapshot|, d, table);
  }

  /** One iteration keeps Visited: the popped entry goes back, with its new
      value, at the end. */
  lemma VisitStep(vt: SigType, snapshot: seq<Entry>, k: nat, prior: seq<Entry>, d: seq<Entry>, w: Value, table: Table)
    requires 0 < k <= |snapshot| && DistinctKeys(snapshot)
    requires Visited(vt, snapshot, k - 1, prior, table)
    requires d == Store(Remove(prior, snapshot[k - 1].key), snapshot[k - 1].key, w)
    requires VisitedEntry(vt, Entry(snapshot[k - 1].key, w), snapshot[k - 1], table)
    ensures Visited(vt, snapshot, k, d, table)
  {
    var n := |snapshot| - k;
    var entry := snapshot[k - 1];
    var done' := prior[n + 1..];
    VisitedPrefixKeys(vt, snapshot, k - 1, done', table);
    StoreVisited(snapshot, k, prior, d, w);
    Slices(d, snapshot[k..], done', Entry(entry.key, w));
    VisitedPrefixSnoc(vt, snapshot, k, done', Entry(entry.key, w), table);
  }

  /** Visiting entry `k - 1` after the first `k - 1`. */
  lemma VisitedPrefixSnoc(vt: SigType, snapshot: seq<Entry>, k: nat, done: seq<Entry>, x: Entry, table: Table)
    requires 0 < k <= |snapshot| && VisitedPrefix(vt, snapshot, k - 1, done, table)
    requires VisitedEntry(vt, x, snapshot[k - 1], table)
    ensures VisitedPrefix(vt, snapshot, k, done + [x], table)
  {
    assert (done + [x])[..k - 1] == done;
  }

  /** The dict loop on the encoding side after `k` entries of the snapshot. */
  lemma {:induction false} DictRoundTrip(e: SigType, snapshot: seq<Entry>, k: nat, fds: Table,
                                         d: seq<Entry>, encTable: Table, table: Table)
    requires WellFormedEntry(e) && e.children[0].token != 'h'
    requires k <= |snapshot| && DistinctKeys(snapshot) && EntriesTyped(e, snapshot, false)
    requires DictUpTo(ToIndex, e, snapshot, k, fds) == Ok((d, encTable))
    requires encTable <= table
    ensures Visited(e.children[1], snapshot, k, d, table)
    decreases EntriesSize(snapshot), 3, k, 2
  {
    if k == 0 {
      VisitedNone(e.children[1], snapshot, table);
    } else {
      DictUnstep(e, snapshot, k, fds, d, encTable);
      var prior := DictUpTo(ToIndex, e, snapshot, k - 1, fds).value;
      DictRoundTripStep(e, snapshot, k, fds, prior.0, prior.1, d, table);
    }
  }

  /** The same, for `k > 0`, with the state after `k - 1` entries and the
      value step of entry `k - 1` already taken apart. */
  lemma {:induction false} DictRoundTripStep(e: SigType, snapshot: seq<Entry>, k: nat, fds: Table,
                                             prior: seq<Entry>, priorTable: Table, d: seq<Entry>, table: Table)
    requires WellFormedEntry(e) && e.children[0].token != 'h'
    requires 0 < k <= |snapshot| && DistinctKeys(snapshot) && EntriesTyped(e, snapshot, false)
    requires DictUpTo(ToIndex, e, snapshot, k - 1, fds) == Ok((prior, priorTable)) && priorTable <= table
    requires DictValue(ToIndex, e.children[1], snapshot[k - 1].value, priorTable).Ok?
    requires var pv := DictValue(ToIndex, e.children[1], snapshot[k - 1].value, priorTable).value;
      d == Store(Remove(prior, snapshot[k - 1].key), snapshot[k - 1].key, pv.0) && pv.1 <= table
    ensures Visited(e.children[1], snapshot, k, d, table)
    decreases EntriesSize(snapshot), 3, k, 1
  {
    DictRoundTrip(e, snapshot, k - 1, fds, prior, priorTable, table);
    DictVisit(e, snapshot, k, prior, priorTable, d, table);
  }

  lemma VisitedNone(vt: SigType, snapshot: seq<Entry>, table: Table)
    ensures Visited(vt, snapshot, 0, snapshot, table)
  {
    assert snapshot[..|snapshot|] == snapshot[0..];
  }

  /** Iteration `k` of the dict loop on the encoding side, read backwards:
      the loop succeeded before it, with a table that the last one extends. */
  lemma DictUnstep(e: SigType, snapshot: seq<Entry>, k: nat, fds: Table, d: seq<Entry>, encTable: Table)
    requires WellFormedEntry(e) && e.children[0].token != 'h' && 0 < k <= |snapshot|
    requires DictUpTo(ToIndex, e, snapshot, k, fds) == Ok((d, encTable))
    ensures DictUpTo(ToIndex, e, snapshot, k - 1, fds).Ok?
    ensures var prior := DictUpTo(ToIndex, e, snapshot, k - 1, fds).value;
      prior.1 <= encTable &&
      DictValue(ToIndex, e.children[1], snapshot[k - 1].value, prior.1).Ok? &&
      var pv := DictValue(ToIndex, e.children[1], snapshot[k - 1].value, prior.1).value;
      d == Store(Remove(prior.0, snapshot[k - 1].key), snapshot[k - 1].key, pv.0) && pv.1 == encTable
  {
    assert Signature(e.children[0]) != "h" by {
      assert Signature(e.children[0])[0] == e.children[0].token;
    }
    DictStepGrows(e, snapshot, k, fds);
    DictEncodeStep(e, snapshot, k, fds, d, encTable);
  }

  /** Iteration `k` of the dict loop on the encoding side, after the first
      `k - 1` have been visited. */
  lemma {:induction false} DictVisit(e: SigType, snapshot: seq<Entry>, k: nat, prior: seq<Entry>, priorTable: Table,
                                     d: seq<Entry>, table: Table)
    requires WellFormedEntry(e) && 0 < k <= |snapshot| && DistinctKeys(snapshot) && EntriesTyped(e, snapshot, false)
    requires Visited(e.children[1], snapshot, k - 1, prior, table)
    requires DictValue(ToIndex, e.children[1], snapshot[k - 1].value, priorTable).Ok?
    requires var pv := DictValue(ToIndex, e.children[1], snapshot[k - 1].value, priorTable).value;
      d == Store(Remove(prior, snapshot[k - 1].key), snapshot[k - 1].key, pv.0) && pv.1 <= table
    ensures Visited(e.children[1], snapshot, k, d, table)
    decreases EntriesSize(snapshot), 3, k, 0
  {
    var entry := snapshot[k - 1];
    EntriesSizeElement(snapshot, k - 1);
    var pv := DictValue(ToIndex, e.children[1], entry.value, priorTable).value;
    DictValueRoundTrip(e.children[1], entry.value, priorTable, pv.0, pv.1, table);
    assert VisitedEntry(e.children[1], Entry(entry.key, pv.0), entry, table);
    VisitStep(e.children[1], snapshot, k, prior, d, pv.0, table);
  }

  /** The value half of a dict iteration. */
  lemma {:induction false} DictValueRoundTrip(vt: SigType, x: Value, fds: Table, enc: Value, encTable: Table, table: Table)
    requires WellFormed(vt) && Typed(vt, x, false)
    requires DictValue(ToIndex, vt, x, fds) == Ok((enc, encTable))
    requires encTable <= table
    ensures DictValue(FromIndex, vt, enc, table) == Ok((x, table))
    ensures MemberContains(enc, 'h') == MemberContains(x, 'h')
    ensures ValueSlots(vt, enc) == Indices(table, ValueSlots(vt, x))
    decreases Size(x), 2, 2
  {
    if Signature(vt) == "h" {
      assert vt.token == 'h';
      LeafIndex(x, fds, table);
    } else {
      SeqSizeSingleton(x);
      var w := FieldsUpTo(ToIndex, [x], [vt], 1, fds).value;
      assert enc == w.0[0] && encTable == w.1;
      FieldsRoundTrip([x], [vt], 1, fds, w.0, w.1, table, w.0);
      assert [x][..1] + w.0[1..] == [x];
      assert w.0 == [w.0[0]];
    }
  }

  /** The dict loop on the decoding side, over a dict `encoded` whose keys
      are those of `original`, in order, and whose values decode to those of
      `original`: after `k` entries, the unvisited entries come first, then
      the decoded ones. */
  lemma {:induction false} DictDecode(e: SigType, encoded: seq<Entry>, original: seq<Entry>, k: nat, table: Table)
    requires |e.children| >= 2 && Signature(e.children[0]) != "h"
    requires |encoded| == |original| && k <= |encoded| && DistinctKeys(encoded)
    requires forall j | 0 <= j < |encoded| ::
      encoded[j].key == original[j].key &&
      DictValue(FromIndex, e.children[1], encoded[j].value, table) == Ok((original[j].value, table))
    ensures DictUpTo(FromIndex, e, encoded, k, table) == Ok((encoded[k..] + original[..k], table))
  {
    if k == 0 {
      assert encoded[0..] + original[..0] == encoded;
    } else {
      DictDecode(e, encoded, original, k - 1, table);
      var entry := encoded[k - 1];
      var rest := encoded[k..] + original[..k - 1];
      var d := encoded[k - 1..] + original[..k - 1];
      assert d == [entry] + rest;
      DecodeRestKeys(encoded, original, k);
      RemoveFirst(d);
      assert d[1..] == rest;
      assert Entry(entry.key, original[k - 1].value) == original[k - 1];
      assert rest + [original[k - 1]] == encoded[k..] + original[..k];
      EntriesSizeElement(encoded, k - 1);
    }
  }

  /** While decoding, the entry popped at step `k` has a key that no other
      entry of the dict has. */
  lemma DecodeRestKeys(encoded: seq<Entry>, original: seq<Entry>, k: nat)
    requires |encoded| == |original| && 0 < k <= |encoded| && DistinctKeys(encoded)
    requires forall j | 0 <= j < |encoded| :: encoded[j].key == original[j].key
    ensures var rest := encoded[k..] + original[..k - 1];
      forall j | 0 <= j < |rest| :: rest[j].key != encoded[k - 1].key
  {
    var rest := encoded[k..] + original[..k - 1];
    forall j | 0 <= j < |rest| ensures rest[j].key != encoded[k - 1].key {
      if j < |encoded| - k {
        assert rest[j] == encoded[k + j];
      } else {
        assert rest[j] == original[j - (|encoded| - k)];
      }
    }
  }

  /** `replace_idx_with_fds` undoes `replace_fds_with_idx`: on a body that
      matches its signature and has no descriptor-typed dict key, encoding
      succeeds, and decoding its result with its table gives the body back. */
  lemma RoundTrip(types: seq<SigType>, body: seq<Value>)
    requires AllWellFormed(types) && BodyTyped(types, body, false)
    ensures ToIndexed(types, body).Ok?
    ensures FromIndexed(types, ToIndexed(types, body).value.0, ToIndexed(types, body).value.1) == Ok(body)
  {
    forall i | 0 <= i < |types| ensures Typed(types[i], body[i], true) {
      TypedRelax(types[i], body[i]);
    }
    EncodeOk(types, body);
    if Contains(types, body, 'h') {
      var p := FieldsUpTo(ToIndex, body, types, |types|, []).value;
      FieldsRoundTrip(body, types, |types|, [], p.0, p.1, p.1, p.0);
      assert body[..|types|] + p.0[|types|..] == body;
      AnyMemberContainsPointwise(p.0, body, 'h');
    }
  }

  /** Where the walk runs, every descriptor slot of the encoded body holds an
      index into the table, the table holds the original descriptor there,
      and a descriptor met twice gets the same index twice. */
  lemma EncodedSlots(types: seq<SigType>, body: seq<Value>)
    requires AllWellFormed(types) && BodyTyped(types, body, false)
    requires Contains(types, body, 'h')
    ensures ToIndexed(types, body).Ok?
    ensures var (enc, table) := ToIndexed(types, body).value;
      var slots, encoded := BodySlots(types, body), BodySlots(types, enc);
      |encoded| == |slots| &&
      (forall p | 0 <= p < |slots| ::
        encoded[p].Int? && 0 <= encoded[p].i < |table| && table[encoded[p].i] == slots[p]) &&
      (forall p, q | 0 <= p < |slots| && 0 <= q < |slots| && slots[p] == slots[q] :: encoded[p] == encoded[q])
  {
    RoundTrip(types, body);
    var (enc, table) := ToIndexed(types, body).value;
    FieldsRoundTrip(body, types, |types|, [], enc, table, table, enc);
    EncodeTable(types, body);
    AddNewGrows([], BodySlots(types, body));
    IndicesAt(table, BodySlots(types, body));
  }
}
