/** What `replace_idx_with_fds` (asyncdbus/_private/util.py:78-99) makes of
    an arbitrary body, such as one received from a peer: each descriptor
    slot is resolved against the table on its own, as `_replace` does
    (util.py:91-95), and nothing else changes shape.

    Each walk function gets a lemma stating that decoding succeeds, leaves
    the table alone and resolves the slots it meets one by one, for a body
    that matches its signature and has no descriptor-typed dict key. */
module FdDecode {
  import opened DBusSignature
  import opened DBusValue
  import opened Containment
  import opened FdIndirection
  import opened FdIndirectionProofs
  import opened FdRoundTrip

  /** Position by position, `decoded` is what `_replace` makes of `slots`. */
  predicate Resolves(table: Table, slots: seq<Value>, decoded: seq<Value>) {
    |decoded| == |slots| &&
    forall p | 0 <= p < |slots| :: Leaf(FromIndex, slots[p], table) == Ok((decoded[p], table))
  }

  lemma ResolvesAppend(table: Table, a: seq<Value>, b: seq<Value>, c: seq<Value>, d: seq<Value>)
    requires Resolves(table, a, c) && Resolves(table, b, d)
    ensures Resolves(table, a + b, c + d)
  {
    forall p | 0 <= p < |a + b| ensures Leaf(FromIndex, (a + b)[p], table) == Ok(((c + d)[p], table)) {
      if p < |a| {
        assert (a + b)[p] == a[p] && (c + d)[p] == c[p];
      } else {
        assert (a + b)[p] == b[p - |a|] && (c + d)[p] == d[p - |a|];
      }
    }
  }

  /** One field of a body decodes, with the table unchanged, and its slots
      are resolved. */
  lemma {:induction false} FieldDecoded(st: SigType, v: Value, table: Table)
    requires WellFormed(st) && Typed(st, v, false)
    ensures Field(FromIndex, st, v, table).Ok?
    ensures var dv := Field(FromIndex, st, v, table).value;
      dv.1 == table && Resolves(table, FieldSlots(st, v), FieldSlots(st, dv.0))
    decreases Size(v), 1, 0
  {
    if st.token == 'h' {
      assert Signature(st) == "h";
    } else if st.token == 'a' && st.children[0].token == '{' {
      DictFieldDecoded(st, v, table);
    } else if st.token == 'a' {
      ArrayFieldDecoded(st, v, table);
    } else if st.token == '(' {
      StructFieldDecoded(st, v, table);
    } else if st.token == 'v' {
      VariantFieldDecoded(st, v, table);
    } else {
      assert Signature(st) == [st.token];
    }
  }

  lemma {:induction false} StructFieldDecoded(st: SigType, v: Value, table: Table)
    requires WellFormed(st) && Typed(st, v, false) && st.token == '('
    ensures Field(FromIndex, st, v, table).Ok?
    ensures var dv := Field(FromIndex, st, v, table).value;
      dv.1 == table && Resolves(table, FieldSlots(st, v), FieldSlots(st, dv.0))
    decreases Size(v), 0, 0
  {
    var xs := v.items;
    FieldOfStruct(FromIndex, st, xs, table);
    FieldsDecoded(xs, st.children, |st.children|, table);
    assert Signature(st)[0] == '(';
  }

  lemma {:induction false} ArrayFieldDecoded(st: SigType, v: Value, table: Table)
    requires WellFormed(st) && Typed(st, v, false) && st.token == 'a' && st.children[0].token != '{'
    ensures Field(FromIndex, st, v, table).Ok?
    ensures var dv := Field(FromIndex, st, v, table).value;
      dv.1 == table && Resolves(table, FieldSlots(st, v), FieldSlots(st, dv.0))
    decreases Size(v), 0, 0
  {
    var xs := v.items;
    FieldOfList(FromIndex, st, xs, table);
    ArrayDecoded(st, xs, |xs|, table);
    assert Signature(st)[0] == 'a';
  }

  lemma {:induction false} VariantFieldDecoded(st: SigType, v: Value, table: Table)
    requires WellFormed(st) && Typed(st, v, false) && st.token == 'v'
    ensures Field(FromIndex, st, v, table).Ok?
    ensures var dv := Field(FromIndex, st, v, table).value;
      dv.1 == table && Resolves(table, FieldSlots(st, v), FieldSlots(st, dv.0))
    decreases Size(v), 0, 0
  {
    assert Signature(st) == "v";
    var t, x := v.vtype, v.value;
    if Signature(t) == "h" {
      assert t.token == 'h';
    } else {
      SeqSizeSingleton(x);
      FieldsDecoded([x], [t], 1, table);
      var w := FieldsUpTo(FromIndex, [x], [t], 1, table).value;
      assert w.0 == [w.0[0]];
    }
  }

  lemma {:induction false} DictFieldDecoded(st: SigType, v: Value, table: Table)
    requires WellFormed(st) && Typed(st, v, false) && st.token == 'a' && st.children[0].token == '{'
    ensures Field(FromIndex, st, v, table).Ok?
    ensures var dv := Field(FromIndex, st, v, table).value;
      dv.1 == table && Resolves(table, FieldSlots(st, v), FieldSlots(st, dv.0))
    decreases Size(v), 0, 0
  {
    var c, es := st.children[0], v.entries;
    assert st == SigType('a', [c]);
    FieldOfDict(FromIndex, c, es, table);
    DictDecoded(c, es, |es|, table);
    var d := DictUpTo(FromIndex, c, es, |es|, table).value.0;
    assert d[|es| - |es|..] == d && es[|es|..] == [];
    DictSlotsResolved(c, es, d, |es|, table);
    assert Signature(st)[0] == 'a';
  }

  /** The field loop after `k` fields. */
  lemma {:induction false} FieldsDecoded(items: seq<Value>, children: seq<SigType>, k: nat, table: Table)
    requires FieldsTyped(items, children, false) && k <= |children|
    ensures FieldsUpTo(FromIndex, items, children, k, table).Ok?
    ensures var p := FieldsUpTo(FromIndex, items, children, k, table).value;
      p.1 == table && Resolves(table, FieldsSlots(items, children, k), FieldsSlots(p.0, children, k))
    decreases SeqSize(items), 2, k, 1
  {
    if k > 0 {
      FieldsDecoded(items, children, k - 1, table);
      var prior := FieldsUpTo(FromIndex, items, children, k - 1, table).value;
      FieldsDecodedStep(items, children, k, table, prior.0);
    }
  }

  /** Iteration `k` of the field loop, given the loop before it. */
  lemma {:induction false} FieldsDecodedStep(items: seq<Value>, children: seq<SigType>, k: nat, table: Table, prior: seq<Value>)
    requires FieldsTyped(items, children, false) && 0 < k <= |children|
    requires FieldsUpTo(FromIndex, items, children, k - 1, table) == Ok((prior, table))
    requires Resolves(table, FieldsSlots(items, children, k - 1), FieldsSlots(prior, children, k - 1))
    ensures FieldsUpTo(FromIndex, items, children, k, table).Ok?
    ensures var p := FieldsUpTo(FromIndex, items, children, k, table).value;
      p.1 == table && Resolves(table, FieldsSlots(items, children, k), FieldsSlots(p.0, children, k))
    decreases SeqSize(items), 2, k, 0
  {
    var st := children[k - 1];
    if !Skipped(st) {
      SeqSizeElement(items, k - 1);
      FieldDecoded(st, items[k - 1], table);
    }
    var p := FieldsUpTo(FromIndex, items, children, k, table).value;
    assert prior[k - 1] == items[k - 1];
    if !Skipped(st) {
      UpdatePrefix(p.0, prior, k - 1);
    } else {
      assert p.0 == prior;
    }
    FieldsSlotsUnfold(items, children, k);
    FieldsSlotsUnfold(p.0, children, k);
    FieldsSlotsPrefix(p.0, prior, children, k - 1);
    ResolvesAppend(table, FieldsSlots(items, children, k - 1), MemberSlots(st, items[k - 1]),
                   FieldsSlots(p.0, children, k - 1), MemberSlots(st, p.0[k - 1]));
  }

  /** The element loop of an array after `k` elements. */
  lemma {:induction false} ArrayDecoded(st: SigType, xs: seq<Value>, k: nat, table: Table)
    requires WellFormed(st) && st.token == 'a' && st.children[0].token != '{'
    requires k <= |xs| && ItemsTyped(st.children[0], xs, false)
    ensures ArrayUpTo(FromIndex, st, xs, k, table).Ok?
    ensures var p := ArrayUpTo(FromIndex, st, xs, k, table).value;
      p.1 == table && Resolves(table, ArraySlots(st, xs, k), ArraySlots(st, p.0, k))
    decreases SeqSize(xs), 3, k
  {
    if k > 0 {
      ArrayDecoded(st, xs, k - 1, table);
      var prior := ArrayUpTo(FromIndex, st, xs, k - 1, table).value;
      SeqSizeElement(xs, k - 1);
      var y := ArrayElementDecoded(st, xs[k - 1], table);
      ArrayDecodedStep(st, xs, k, table, prior.0, y);
    }
  }

  /** One element of an array decodes to `y`, whose slots resolve its own. */
  lemma {:induction false} ArrayElementDecoded(st: SigType, x: Value, table: Table) returns (y: Value)
    requires WellFormed(st) && st.token == 'a' && st.children[0].token != '{'
    requires Typed(st.children[0], x, false)
    ensures Signature(st) == "ah" ==> Leaf(FromIndex, x, table) == Ok((y, table))
    ensures Signature(st) != "ah" ==> FieldsUpTo(FromIndex, [x], st.children, |st.children|, table) == Ok(([y], table))
    ensures Resolves(table, ElementSlots(st, x), ElementSlots(st, y))
    decreases Size(x), 3, 0
  {
    ArrayOfFds(st);
    if Signature(st) == "ah" {
      y := Leaf(FromIndex, x, table).value.0;
    } else {
      SeqSizeSingleton(x);
      assert WellFormed(st.children[0]);
      FieldsDecoded([x], st.children, 1, table);
      var w := FieldsUpTo(FromIndex, [x], st.children, 1, table).value;
      y := w.0[0];
      assert w.0 == [y];
    }
  }

  /** Iteration `k` of the element loop, given the loop before it. */
  lemma ArrayDecodedStep(st: SigType, xs: seq<Value>, k: nat, table: Table, prior: seq<Value>, y: Value)
    requires 0 < k <= |xs|
    requires ArrayUpTo(FromIndex, st, xs, k - 1, table) == Ok((prior, table))
    requires Resolves(table, ArraySlots(st, xs, k - 1), ArraySlots(st, prior, k - 1))
    requires Signature(st) == "ah" ==> Leaf(FromIndex, xs[k - 1], table) == Ok((y, table))
    requires Signature(st) != "ah" ==> FieldsUpTo(FromIndex, [xs[k - 1]], st.children, |st.children|, table) == Ok(([y], table))
    requires Resolves(table, ElementSlots(st, xs[k - 1]), ElementSlots(st, y))
    ensures ArrayUpTo(FromIndex, st, xs, k, table).Ok?
    ensures var p := ArrayUpTo(FromIndex, st, xs, k, table).value;
      p.1 == table && Resolves(table, ArraySlots(st, xs, k), ArraySlots(st, p.0, k))
  {
    var p := ArrayUpTo(FromIndex, st, xs, k, table).value;
    assert p.0 == prior[k - 1 := y];
    UpdatePrefix(p.0, prior, k - 1);
    ArraySlotsUnfold(st, xs, k);
    ArraySlotsUnfold(st, p.0, k);
    ArraySlotsPrefix(st, p.0, prior, k - 1);
    ResolvesAppend(table, ArraySlots(st, xs, k - 1), ElementSlots(st, xs[k - 1]),
                   ArraySlots(st, p.0, k - 1), ElementSlots(st, y));
  }

  /** How a value of a dict decodes: `y`, with its slots resolved. */
  predicate ValueDecoded(vt: SigType, x: Value, y: Value, table: Table) {
    DictValue(FromIndex, vt, x, table) == Ok((y, table)) &&
    Resolves(table, ValueSlots(vt, x), ValueSlots(vt, y))
  }

  /** What the decoding side of the dict loop has done after `k` entries:
      the unvisited entries come first, unchanged, then the visited ones in
      snapshot order, under their own keys and with their values decoded. */
  predicate DecodedUpTo(vt: SigType, snapshot: seq<Entry>, k: nat, d: seq<Entry>, table: Table) {
    KeysVisited(snapshot, k, d) &&
    forall j | 0 <= j < k :: ValueDecoded(vt, snapshot[j].value, d[|snapshot| - k..][j].value, table)
  }

  /** The dict loop after `k` entries of the snapshot. */
  lemma {:induction false} DictDecoded(e: SigType, snapshot: seq<Entry>, k: nat, table: Table)
    requires WellFormedEntry(e) && e.children[0].token != 'h'
    requires k <= |snapshot| && DistinctKeys(snapshot) && EntriesTyped(e, snapshot, false)
    ensures DictUpTo(FromIndex, e, snapshot, k, table).Ok?
    ensures var p := DictUpTo(FromIndex, e, snapshot, k, table).value;
      p.1 == table && DecodedUpTo(e.children[1], snapshot, k, p.0, table)
    decreases EntriesSize(snapshot), 3, k, 1
  {
    if k == 0 {
      assert snapshot[..|snapshot|] == snapshot[0..];
    } else {
      DictDecoded(e, snapshot, k - 1, table);
      var prior := DictUpTo(FromIndex, e, snapshot, k - 1, table).value;
      EntriesSizeElement(snapshot, k - 1);
      var entry := snapshot[k - 1];
      DictValueDecoded(e.children[1], entry.value, table);
      var w := DictValue(FromIndex, e.children[1], entry.value, table).value.0;
      DictDecodeUnfold(e, snapshot, k, table, prior.0, w);
      DecodedStep(e.children[1], snapshot, k, prior.0, Store(Remove(prior.0, entry.key), entry.key, w), w, table);
    }
  }

  /** Iteration `k` of the dict loop, with a key that is not a descriptor. */
  lemma DictDecodeUnfold(e: SigType, snapshot: seq<Entry>, k: nat, table: Table, prior: seq<Entry>, w: Value)
    requires WellFormedEntry(e) && e.children[0].token != 'h' && 0 < k <= |snapshot|
    requires DictUpTo(FromIndex, e, snapshot, k - 1, table) == Ok((prior, table))
    requires DictValue(FromIndex, e.children[1], snapshot[k - 1].value, table) == Ok((w, table))
    ensures DictUpTo(FromIndex, e, snapshot, k, table) ==
      Ok((Store(Remove(prior, snapshot[k - 1].key), snapshot[k - 1].key, w), table))
  {
    assert Signature(e.children[0]) != "h" by {
      assert Signature(e.children[0])[0] == e.children[0].token;
    }
  }

  /** One iteration of the dict loop keeps DecodedUpTo. */
  lemma DecodedStep(vt: SigType, snapshot: seq<Entry>, k: nat, prior: seq<Entry>, d: seq<Entry>, w: Value, table: Table)
    requires 0 < k <= |snapshot| && DistinctKeys(snapshot) && DecodedUpTo(vt, snapshot, k - 1, prior, table)
    requires d == Store(Remove(prior, snapshot[k - 1].key), snapshot[k - 1].key, w)
    requires ValueDecoded(vt, snapshot[k - 1].value, w, table)
    ensures DecodedUpTo(vt, snapshot, k, d, table)
  {
    var n := |snapshot| - k;
    var done' := prior[n + 1..];
    KeysStep(snapshot, k, prior, d, w);
    StoreVisited(snapshot, k, prior, d, w);
    Slices(d, snapshot[k..], done', Entry(snapshot[k - 1].key, w));
    forall j | 0 <= j < k ensures ValueDecoded(vt, snapshot[j].value, d[n..][j].value, table) {
      if j < k - 1 {
        assert d[n..][j] == done'[j];
      }
    }
  }

  /** The value half of a dict iteration. */
  lemma {:induction false} DictValueDecoded(vt: SigType, x: Value, table: Table)
    requires WellFormed(vt) && Typed(vt, x, false)
    ensures DictValue(FromIndex, vt, x, table).Ok?
    ensures ValueDecoded(vt, x, DictValue(FromIndex, vt, x, table).value.0, table)
    decreases Size(x), 2, 2
  {
    if Signature(vt) == "h" {
      assert vt.token == 'h';
    } else {
      SeqSizeSingleton(x);
      FieldsDecoded([x], [vt], 1, table);
      var w := FieldsUpTo(FromIndex, [x], [vt], 1, table).value;
      assert w.0 == [w.0[0]];
    }
  }

  /** Two dicts whose values, position by position, have resolved slots,
      and whose key type is not `h`, have all their slots resolved. */
  lemma {:induction false} DictSlotsResolved(e: SigType, a: seq<Entry>, b: seq<Entry>, k: nat, table: Table)
    requires WellFormedEntry(e) && e.children[0].token != 'h'
    requires k <= |a| && k <= |b|
    requires forall j | 0 <= j < k :: ValueDecoded(e.children[1], a[j].value, b[j].value, table)
    ensures Resolves(table, DictSlots(e, a, k), DictSlots(e, b, k))
  {
    if k > 0 {
      DictSlotsResolved(e, a, b, k - 1, table);
      var vt := e.children[1];
      assert ValueDecoded(vt, a[k - 1].value, b[k - 1].value, table);
      DictSlotsUnfold(e, a, k);
      DictSlotsUnfold(e, b, k);
      ResolvesAppend(table, DictSlots(e, a, k - 1), ValueSlots(vt, a[k - 1].value),
                     DictSlots(e, b, k - 1), ValueSlots(vt, b[k - 1].value));
    }
  }

  /** The slots of a dict whose key type is not `h` are those of its values. */
  lemma DictSlotsUnfold(e: SigType, a: seq<Entry>, k: nat)
    requires WellFormedEntry(e) && e.children[0].token != 'h' && 0 < k <= |a|
    ensures DictSlots(e, a, k) == DictSlots(e, a, k - 1) + ValueSlots(e.children[1], a[k - 1].value)
  {
    assert Signature(e.children[0]) != "h" by {
      assert Signature(e.children[0])[0] == e.children[0].token;
    }
    assert [] + ValueSlots(e.children[1], a[k - 1].value) == ValueSlots(e.children[1], a[k - 1].value);
  }

  /** `replace_idx_with_fds` on any body that matches its signature, has no
      descriptor-typed dict key and passes the `h` check: it succeeds, the
      decoded body has a slot for each slot of the body, and each slot that
      held the index `i` now holds `table[i]` for `0 <= i < |table|`,
      `table[|table| + i]` for a negative `i` down to `-|table|`, and `Null`
      for any other `i`. */
  lemma DecodedSlots(types: seq<SigType>, body: seq<Value>, table: Table)
    requires AllWellFormed(types) && BodyTyped(types, body, false)
    requires Contains(types, body, 'h')
    ensures FromIndexed(types, body, table).Ok?
    ensures var slots, decoded := BodySlots(types, body), BodySlots(types, FromIndexed(types, body, table).value);
      |decoded| == |slots| &&
      forall p | 0 <= p < |slots| :: slots[p].Int? &&
        var i := slots[p].i;
        (0 <= i < |table| ==> decoded[p] == table[i]) &&
        (-|table| <= i < 0 ==> decoded[p] == table[|table| + i]) &&
        (i >= |table| || i < -|table| ==> decoded[p] == Null)
  {
    FieldsDecoded(body, types, |types|, table);
  }
}
