/** What the descriptor indirection of asyncdbus/_private/util.py promises,
    proved about the walk functions of FdIndirection:

    - on a body that matches its signature neither direction fails, and
      decoding in particular never raises, whatever the table;
    - encoding builds its table by appending each descriptor the first time
      the walk meets it, so the table has no duplicates and keeps
      first-seen order;
    - decoding the encoded body with the returned table gives back the
      original body, for bodies whose dict keys are not descriptors;
    - the dict loop keeps the keys and their order when keys are not
      descriptors, and can lose an entry when they are. */
module FdIndirectionProofs {
  import opened DBusSignature
  import opened DBusValue
  import opened Containment
  import opened FdIndirection

  /** An array node's signature is "ah" exactly when its element is `h`. */
  lemma ArrayOfFds(st: SigType)
    requires st.token == 'a' && |st.children| == 1
    ensures Signature(st) == "ah" <==> st.children[0].token == 'h'
  {
    var c := st.children[0];
    assert Concat(st.children) == Signature(c) + Concat([]);
    assert Signature(st) == "a" + Signature(c);
    if Signature(st) == "ah" {
      assert Signature(c) == Signature(st)[1..];
    }
  }

  // ---------------------------------------------------------------------
  // Neither direction fails on a body that matches its signature.

  lemma {:induction false} FieldOk(dir: Direction, st: SigType, v: Value, fds: Table, fdKeys: bool)
    requires WellFormed(st) && Typed(st, v, fdKeys)
    ensures Field(dir, st, v, fds).Ok?
    decreases Size(v), 1, 0
  {
    if Signature(st) == "h" {
      assert st.token == 'h';
    } else if st.token == 'a' {
      var c := st.children[0];
      if c.token == '{' {
        DictOk(dir, c, v.entries, |v.entries|, fds, fdKeys);
      } else {
        ArrayOk(dir, st, v.items, |v.items|, fds, fdKeys);
      }
    } else if st.token == '(' {
      FieldsOk(dir, v.items, st.children, |st.children|, fds, fdKeys);
    } else if st.token == 'v' {
      assert Signature(st) == "v";
      var t, x := v.vtype, v.value;
      if Signature(t) != "h" {
        SeqSizeSingleton(x);
        FieldsOk(dir, [x], [t], 1, fds, fdKeys);
      }
    }
  }

  lemma {:induction false} FieldsOk(dir: Direction, items: seq<Value>, children: seq<SigType>, k: nat, fds: Table, fdKeys: bool)
    requires FieldsTyped(items, children, fdKeys) && k <= |children|
    ensures FieldsUpTo(dir, items, children, k, fds).Ok?
    decreases SeqSize(items), 2, k
  {
    if k > 0 {
      FieldsOk(dir, items, children, k - 1, fds, fdKeys);
      var prior := FieldsUpTo(dir, items, children, k - 1, fds).value;
      if !Skipped(children[k - 1]) {
        SeqSizeElement(items, k - 1);
        FieldOk(dir, children[k - 1], items[k - 1], prior.1, fdKeys);
      }
    }
  }

  lemma {:induction false} ArrayOk(dir: Direction, st: SigType, xs: seq<Value>, k: nat, fds: Table, fdKeys: bool)
    requires WellFormed(st) && st.token == 'a' && st.children[0].token != '{'
    requires k <= |xs| && ItemsTyped(st.children[0], xs, fdKeys)
    ensures ArrayUpTo(dir, st, xs, k, fds).Ok?
    decreases SeqSize(xs), 3, k
  {
    if k > 0 {
      ArrayOk(dir, st, xs, k - 1, fds, fdKeys);
      var prior := ArrayUpTo(dir, st, xs, k - 1, fds).value;
      SeqSizeElement(xs, k - 1);
      ArrayElementOk(dir, st, xs[k - 1], prior.1, fdKeys);
      ArrayStepOk(dir, st, xs, k, fds);
    }
  }

  /** One element of a list of type `st` is walked without failing. */
  lemma {:induction false} ArrayElementOk(dir: Direction, st: SigType, x: Value, fds: Table, fdKeys: bool)
    requires WellFormed(st) && st.token == 'a' && st.children[0].token != '{'
    requires Typed(st.children[0], x, fdKeys)
    ensures Signature(st) == "ah" ==> Leaf(dir, x, fds).Ok?
    ensures Signature(st) != "ah" ==> FieldsUpTo(dir, [x], st.children, |st.children|, fds).Ok?
    decreases Size(x), 3, 0
  {
    ArrayOfFds(st);
    if Signature(st) != "ah" {
      SeqSizeSingleton(x);
      assert WellFormed(st.children[0]);
      FieldsOk(dir, [x], st.children, 1, fds, fdKeys);
    }
  }

  lemma ArrayStepOk(dir: Direction, st: SigType, xs: seq<Value>, k: nat, fds: Table)
    requires 0 < k <= |xs| && ArrayUpTo(dir, st, xs, k - 1, fds).Ok?
    requires var prior := ArrayUpTo(dir, st, xs, k - 1, fds).value;
      (Signature(st) == "ah" ==> Leaf(dir, xs[k - 1], prior.1).Ok?) &&
      (Signature(st) != "ah" ==> FieldsUpTo(dir, [xs[k - 1]], st.children, |st.children|, prior.1).Ok?)
    ensures ArrayUpTo(dir, st, xs, k, fds).Ok?
  {
  }

  /** Every item is well formed and matches the type at its position. */
  predicate FieldsTyped(items: seq<Value>, children: seq<SigType>, fdKeys: bool) {
    |items| == |children| &&
    forall j | 0 <= j < |children| :: WellFormed(children[j]) && Typed(children[j], items[j], fdKeys)
  }

  /** Every element of `xs` matches the element type `t`. */
  predicate ItemsTyped(t: SigType, xs: seq<Value>, fdKeys: bool) {
    forall j | 0 <= j < |xs| :: Typed(t, xs[j], fdKeys)
  }

  /** Every entry of `es` has a key and a value of the entry type `e`. */
  predicate EntriesTyped(e: SigType, es: seq<Entry>, fdKeys: bool) {
    |e.children| >= 2 &&
    forall i | 0 <= i < |es| :: Typed(e.children[0], es[i].key, fdKeys) && Typed(e.children[1], es[i].value, fdKeys)
  }

  lemma {:induction false} DictOk(dir: Direction, e: SigType, snapshot: seq<Entry>, k: nat, fds: Table, fdKeys: bool)
    requires WellFormedEntry(e) && k <= |snapshot| && EntriesTyped(e, snapshot, fdKeys)
    ensures DictUpTo(dir, e, snapshot, k, fds).Ok?
    decreases EntriesSize(snapshot), 3, k, 1
  {
    if k > 0 {
      DictOk(dir, e, snapshot, k - 1, fds, fdKeys);
      DictOkStep(dir, e, snapshot, k, fds, fdKeys);
    }
  }

  /** The dict loop gets past entry `k - 1` once it got past the entries before it. */
  lemma {:induction false} DictOkStep(dir: Direction, e: SigType, snapshot: seq<Entry>, k: nat, fds: Table, fdKeys: bool)
    requires WellFormedEntry(e) && 0 < k <= |snapshot|
    requires DictUpTo(dir, e, snapshot, k - 1, fds).Ok?
    requires Typed(e.children[0], snapshot[k - 1].key, fdKeys) && Typed(e.children[1], snapshot[k - 1].value, fdKeys)
    ensures DictUpTo(dir, e, snapshot, k, fds).Ok?
    decreases EntriesSize(snapshot), 3, k, 0
  {
    var prior := DictUpTo(dir, e, snapshot, k - 1, fds).value;
    var entry := snapshot[k - 1];
    var pk := if Signature(e.children[0]) == "h" then Leaf(dir, entry.key, prior.1) else Ok((entry.key, prior.1));
    EntriesSizeElement(snapshot, k - 1);
    DictValueOk(dir, e.children[1], entry.value, pk.value.1, fdKeys);
    DictStepOk(dir, e, entry, prior.0, prior.1);
  }

  /** One dict iteration succeeds when its key half and its value half do. */
  lemma DictStepOk(dir: Direction, e: SigType, entry: Entry, d: seq<Entry>, fds: Table)
    requires |e.children| >= 2
    requires var pk := if Signature(e.children[0]) == "h" then Leaf(dir, entry.key, fds) else Ok((entry.key, fds));
      pk.Ok? && DictValue(dir, e.children[1], entry.value, pk.value.1).Ok?
    ensures DictStep(dir, e, entry, d, fds).Ok?
  {
  }

  lemma {:induction false} DictValueOk(dir: Direction, vt: SigType, x: Value, fds: Table, fdKeys: bool)
    requires WellFormed(vt) && Typed(vt, x, fdKeys)
    ensures DictValue(dir, vt, x, fds).Ok?
    decreases Size(x), 2, 2
  {
    if Signature(vt) != "h" {
      SeqSizeSingleton(x);
      FieldsOk(dir, [x], [vt], 1, fds, fdKeys);
    }
  }

  /** Encoding never fails on a body that matches its signature. */
  lemma EncodeOk(types: seq<SigType>, body: seq<Value>)
    requires AllWellFormed(types) && BodyTyped(types, body, true)
    ensures ToIndexed(types, body).Ok?
  {
    FieldsOk(ToIndex, body, types, |types|, [], true);
  }

  /** Decoding never fails on a body that matches its signature, whatever
      the table: an index outside it decodes to `Null` rather than raising. */
  lemma DecodeOk(types: seq<SigType>, body: seq<Value>, fds: Table)
    requires AllWellFormed(types) && BodyTyped(types, body, true)
    ensures FromIndexed(types, body, fds).Ok?
  {
    FieldsOk(FromIndex, body, types, |types|, fds, true);
  }

  // ---------------------------------------------------------------------
  // The encoding table: each descriptor appended the first time it is met.

  /** The table after meeting `fds` in order, starting from `table`: a
      descriptor not yet present is appended, one already present is not. */
  function AddNew(table: Table, fds: seq<Value>): Table
    decreases |fds|
  {
    if fds == [] then table
    else AddNew(if fds[0] in table then table else table + [fds[0]], fds[1..])
  }

  predicate NoDuplicates(s: seq<Value>) {
    forall i, j | 0 <= i < j < |s| :: s[i] != s[j]
  }

  lemma {:induction false} AddNewAppend(table: Table, a: seq<Value>, b: seq<Value>)
    ensures AddNew(table, a + b) == AddNew(AddNew(table, a), b)
    decreases |a|
  {
    if a == [] {
      assert a + b == b;
    } else {
      assert (a + b)[0] == a[0];
      assert (a + b)[1..] == a[1..] + b;
      AddNewAppend(if a[0] in table then table else table + [a[0]], a[1..], b);
    }
  }

  /** The table only grows, never gains a duplicate, and holds exactly the
      descriptors it started with and those met. */
  lemma {:induction false} AddNewGrows(table: Table, fds: seq<Value>)
    ensures table <= AddNew(table, fds)
    ensures NoDuplicates(table) ==> NoDuplicates(AddNew(table, fds))
    ensures forall x :: x in AddNew(table, fds) <==> x in table || x in fds
    decreases |fds|
  {
    if fds != [] {
      var next := if fds[0] in table then table else table + [fds[0]];
      AddNewGrows(next, fds[1..]);
      assert forall x :: x in fds <==> x == fds[0] || x in fds[1..] by {
        assert fds == [fds[0]] + fds[1..];
      }
    }
  }

  /** The values in descriptor slots, in the order the walk meets them, read
      the way the walk reads them: keys and values of a dict from its
      snapshot, the value of a Variant whose signature is `h`. */
  function FieldSlots(st: SigType, v: Value): seq<Value>
    decreases Size(v), 1, 0
  {
    if Signature(st) == "h" then [v]
    else if st.token == 'a' then
      if |st.children| == 0 then []
      else if st.children[0].token == '{' then
        if |st.children| != 1 then []
        else
          match v
          case Dict(es) => DictSlots(st.children[0], es, |es|)
          case _ => []
      else
        match v
        case List(xs) => ArraySlots(st, xs, |xs|)
        case _ => []
    else if st.token == '(' then
      match v
      case List(xs) => FieldsSlots(xs, st.children, |st.children|)
      case _ => []
    else if st.token == '{' then []
    else if Signature(st) == "v" then
      match v
      case Variant(t, x) =>
        if Signature(t) == "h" then [x]
        else
          SeqSizeSingleton(x);
          FieldsSlots([x], [t], 1)
      case _ => []
    else if st.children != [] then
      match v
      case List(xs) => FieldsSlots(xs, st.children, |st.children|)
      case _ => []
    else []
  }

  function FieldsSlots(items: seq<Value>, children: seq<SigType>, k: nat): seq<Value>
    requires k <= |children|
    decreases SeqSize(items), 2, k
  {
    if k == 0 then []
    else
      FieldsSlots(items, children, k - 1) +
      if Skipped(children[k - 1]) || k - 1 >= |items| then []
      else
        SeqSizeElement(items, k - 1);
        FieldSlots(children[k - 1], items[k - 1])
  }

  /** The slots of one member of a struct or body: none when it is skipped. */
  function MemberSlots(t: SigType, v: Value): seq<Value> {
    if Skipped(t) then [] else FieldSlots(t, v)
  }

  lemma FieldsSlotsUnfold(items: seq<Value>, children: seq<SigType>, k: nat)
    requires 0 < k <= |children| && k <= |items|
    ensures FieldsSlots(items, children, k) == FieldsSlots(items, children, k - 1) + MemberSlots(children[k - 1], items[k - 1])
  {
  }

  function ArraySlots(st: SigType, xs: seq<Value>, k: nat): seq<Value>
    requires k <= |xs|
    decreases SeqSize(xs), 3, k
  {
    if k == 0 then []
    else
      ArraySlots(st, xs, k - 1) +
      if Signature(st) == "ah" then [xs[k - 1]]
      else
        SeqSizeElement(xs, k - 1);
        SeqSizeSingleton(xs[k - 1]);
        FieldsSlots([xs[k - 1]], st.children, |st.children|)
  }

  /** The slots of one element of a list of type `st`. */
  function ElementSlots(st: SigType, x: Value): seq<Value> {
    if Signature(st) == "ah" then [x] else FieldsSlots([x], st.children, |st.children|)
  }

  lemma ArraySlotsUnfold(st: SigType, xs: seq<Value>, k: nat)
    requires 0 < k <= |xs|
    ensures ArraySlots(st, xs, k) == ArraySlots(st, xs, k - 1) + ElementSlots(st, xs[k - 1])
  {
  }

  function DictSlots(e: SigType, snapshot: seq<Entry>, k: nat): seq<Value>
    requires k <= |snapshot|
    decreases EntriesSize(snapshot), 3, k
  {
    if k == 0 then []
    else
      DictSlots(e, snapshot, k - 1) +
      if |e.children| < 2 then []
      else
        EntriesSizeElement(snapshot, k - 1);
        (if Signature(e.children[0]) == "h" then [snapshot[k - 1].key] else []) +
        ValueSlots(e.children[1], snapshot[k - 1].value)
  }

  function ValueSlots(vt: SigType, x: Value): seq<Value>
    decreases Size(x), 2, 2
  {
    if Signature(vt) == "h" then [x]
    else
      SeqSizeSingleton(x);
      FieldsSlots([x], [vt], 1)
  }

  /** The slots of a whole body. */
  function BodySlots(types: seq<SigType>, body: seq<Value>): seq<Value> {
    FieldsSlots(body, types, |types|)
  }

  lemma LeafTable(x: Value, fds: Table)
    ensures Leaf(ToIndex, x, fds).value.1 == AddNew(fds, [x])
  {
  }

  lemma {:induction false} FieldTable(st: SigType, v: Value, fds: Table)
    requires Field(ToIndex, st, v, fds).Ok?
    ensures Field(ToIndex, st, v, fds).value.1 == AddNew(fds, FieldSlots(st, v))
    decreases Size(v), 1, 0
  {
    if Signature(st) == "h" {
      LeafTable(v, fds);
    } else if st.token == 'a' {
      if st.children[0].token == '{' {
        DictTable(st.children[0], v.entries, |v.entries|, fds);
      } else {
        ArrayTable(st, v.items, |v.items|, fds);
      }
    } else if st.token == '(' {
      FieldsTable(v.items, st.children, |st.children|, fds);
    } else if st.token == '{' {
    } else if Signature(st) == "v" {
      if Signature(v.vtype) == "h" {
        LeafTable(v.value, fds);
      } else {
        SeqSizeSingleton(v.value);
        FieldsTable([v.value], [v.vtype], 1, fds);
      }
    } else if st.children != [] {
      FieldsTable(v.items, st.children, |st.children|, fds);
    }
  }

  lemma {:induction false} FieldsTable(items: seq<Value>, children: seq<SigType>, k: nat, fds: Table)
    requires k <= |children|
    requires FieldsUpTo(ToIndex, items, children, k, fds).Ok?
    ensures FieldsUpTo(ToIndex, items, children, k, fds).value.1 == AddNew(fds, FieldsSlots(items, children, k))
    decreases SeqSize(items), 2, k
  {
    if k > 0 {
      FieldsTable(items, children, k - 1, fds);
      var prior := FieldsUpTo(ToIndex, items, children, k - 1, fds).value;
      var before := FieldsSlots(items, children, k - 1);
      if Skipped(children[k - 1]) {
        assert before + [] == before;
      } else {
        SeqSizeElement(items, k - 1);
        FieldTable(children[k - 1], items[k - 1], prior.1);
        AddNewAppend(fds, before, FieldSlots(children[k - 1], items[k - 1]));
      }
    }
  }

  lemma {:induction false} ArrayTable(st: SigType, xs: seq<Value>, k: nat, fds: Table)
    requires k <= |xs|
    requires ArrayUpTo(ToIndex, st, xs, k, fds).Ok?
    ensures ArrayUpTo(ToIndex, st, xs, k, fds).value.1 == AddNew(fds, ArraySlots(st, xs, k))
    decreases SeqSize(xs), 3, k
  {
    if k > 0 {
      ArrayTable(st, xs, k - 1, fds);
      var prior := ArrayUpTo(ToIndex, st, xs, k - 1, fds).value;
      var before := ArraySlots(st, xs, k - 1);
      if Signature(st) == "ah" {
        LeafTable(xs[k - 1], prior.1);
        AddNewAppend(fds, before, [xs[k - 1]]);
      } else {
        SeqSizeElement(xs, k - 1);
        SeqSizeSingleton(xs[k - 1]);
        FieldsTable([xs[k - 1]], st.children, |st.children|, prior.1);
        AddNewAppend(fds, before, FieldsSlots([xs[k - 1]], st.children, |st.children|));
      }
    }
  }

  lemma {:induction false} DictTable(e: SigType, snapshot: seq<Entry>, k: nat, fds: Table)
    requires k <= |snapshot|
    requires DictUpTo(ToIndex, e, snapshot, k, fds).Ok?
    ensures DictUpTo(ToIndex, e, snapshot, k, fds).value.1 == AddNew(fds, DictSlots(e, snapshot, k))
    decreases EntriesSize(snapshot), 3, k
  {
    if k > 0 {
      DictTable(e, snapshot, k - 1, fds);
      var prior := DictUpTo(ToIndex, e, snapshot, k - 1, fds).value;
      var before := DictSlots(e, snapshot, k - 1);
      var entry := snapshot[k - 1];
      var keySlots := if Signature(e.children[0]) == "h" then [entry.key] else [];
      var pk := if Signature(e.children[0]) == "h" then Leaf(ToIndex, entry.key, prior.1) else Ok((entry.key, prior.1));
      if Signature(e.children[0]) == "h" {
        LeafTable(entry.key, prior.1);
      }
      assert pk.value.1 == AddNew(prior.1, keySlots);
      EntriesSizeElement(snapshot, k - 1);
      DictValueTable(e.children[1], entry.value, pk.value.1);
      AddNewAppend(prior.1, keySlots, ValueSlots(e.children[1], entry.value));
      AddNewAppend(fds, before, keySlots + ValueSlots(e.children[1], entry.value));
    }
  }

  lemma {:induction false} DictValueTable(vt: SigType, x: Value, fds: Table)
    requires DictValue(ToIndex, vt, x, fds).Ok?
    ensures DictValue(ToIndex, vt, x, fds).value.1 == AddNew(fds, ValueSlots(vt, x))
    decreases Size(x), 2, 2
  {
    if Signature(vt) == "h" {
      LeafTable(x, fds);
    } else {
      SeqSizeSingleton(x);
      FieldsTable([x], [vt], 1, fds);
    }
  }

  /** The table `replace_fds_with_idx` returns lists each descriptor of the
      body once, in the order the walk first meets it, and nothing else. */
  lemma EncodeTable(types: seq<SigType>, body: seq<Value>)
    requires ToIndexed(types, body).Ok?
    ensures var fds := ToIndexed(types, body).value.1;
      NoDuplicates(fds) &&
      (Contains(types, body, 'h') ==> fds == AddNew([], BodySlots(types, body)))
  {
    if Contains(types, body, 'h') {
      FieldsTable(body, types, |types|, []);
      AddNewGrows([], BodySlots(types, body));
    }
  }

  /** What the encoded slots hold: the index of each descriptor in `table`. */
  function Indices(table: Table, fds: seq<Value>): (r: seq<Value>)
    ensures |r| == |fds|
  {
    if fds == [] then [] else [Int(IndexOf(table, fds[0]))] + Indices(table, fds[1..])
  }

  /** Position `p` of `Indices(table, fds)` is the index of `fds[p]`. */
  lemma {:induction false} IndicesAt(table: Table, fds: seq<Value>)
    ensures forall p | 0 <= p < |fds| :: Indices(table, fds)[p] == Int(IndexOf(table, fds[p]))
  {
    if fds != [] {
      IndicesAt(table, fds[1..]);
      forall p | 0 < p < |fds| ensures Indices(table, fds)[p] == Int(IndexOf(table, fds[p])) {
        assert fds[p] == fds[1..][p - 1];
      }
    }
  }

  lemma IndicesAppend(table: Table, a: seq<Value>, b: seq<Value>)
    ensures Indices(table, a + b) == Indices(table, a) + Indices(table, b)
  {
    var l, r := Indices(table, a + b), Indices(table, a) + Indices(table, b);
    IndicesAt(table, a + b);
    IndicesAt(table, a);
    IndicesAt(table, b);
    forall p | 0 <= p < |l| ensures l[p] == r[p] {
      if p < |a| {
        assert (a + b)[p] == a[p];
      } else {
        assert (a + b)[p] == b[p - |a|];
      }
    }
  }

  /** A position that is the first one holding `x` in a prefix of `table`
      is the first one holding it in `table`. */
  lemma IndexOfPrefix(prefix: Table, table: Table, i: nat, x: Value)
    requires prefix <= table && i < |prefix| && prefix[i] == x && x !in prefix[..i]
    ensures IndexOf(table, x) == i
  {
    assert table[i] == x;
  }

  /** Encoding one descriptor gives its index in any table that extends the
      table it leaves. */
  lemma LeafIndex(x: Value, fds: Table, table: Table)
    requires Leaf(ToIndex, x, fds).value.1 <= table
    ensures Leaf(ToIndex, x, fds).value.0 == Int(IndexOf(table, x))
  {
    var r := Leaf(ToIndex, x, fds).value;
    if x !in fds {
      assert r.1[..r.0.i] == fds;
    }
    IndexOfPrefix(r.1, table, r.0.i, x);
  }

  // The slots a loop has visited depend only on the positions it has visited.

  lemma {:induction false} FieldsSlotsPrefix(a: seq<Value>, b: seq<Value>, children: seq<SigType>, k: nat)
    requires k <= |children| && |a| == |b| && k <= |a| && a[..k] == b[..k]
    ensures FieldsSlots(a, children, k) == FieldsSlots(b, children, k)
  {
    if k > 0 {
      assert a[..k - 1] == a[..k][..k - 1];
      assert b[..k - 1] == b[..k][..k - 1];
      FieldsSlotsPrefix(a, b, children, k - 1);
      assert a[k - 1] == a[..k][k - 1];
      assert b[k - 1] == b[..k][k - 1];
    }
  }

  lemma {:induction false} ArraySlotsPrefix(st: SigType, a: seq<Value>, b: seq<Value>, k: nat)
    requires k <= |a| && k <= |b| && a[..k] == b[..k]
    ensures ArraySlots(st, a, k) == ArraySlots(st, b, k)
  {
    if k > 0 {
      assert a[..k - 1] == a[..k][..k - 1];
      assert b[..k - 1] == b[..k][..k - 1];
      ArraySlotsPrefix(st, a, b, k - 1);
      assert a[k - 1] == a[..k][k - 1];
      assert b[k - 1] == b[..k][k - 1];
    }
  }

  /** Two dicts whose values, position by position, have slots related by
      `Indices`, and whose key type is not `h`, have all their slots so related. */
  lemma {:induction false} DictSlotsIndexed(e: SigType, a: seq<Entry>, b: seq<Entry>, k: nat, table: Table)
    requires |e.children| >= 2 && Signature(e.children[0]) != "h"
    requires k <= |a| && k <= |b|
    requires forall j | 0 <= j < k :: ValueSlots(e.children[1], a[j].value) == Indices(table, ValueSlots(e.children[1], b[j].value))
    ensures DictSlots(e, a, k) == Indices(table, DictSlots(e, b, k))
  {
    if k > 0 {
      DictSlotsIndexed(e, a, b, k - 1, table);
      var vt := e.children[1];
      var va, vb := ValueSlots(vt, a[k - 1].value), ValueSlots(vt, b[k - 1].value);
      assert DictSlots(e, a, k) == DictSlots(e, a, k - 1) + ([] + va);
      assert DictSlots(e, b, k) == DictSlots(e, b, k - 1) + ([] + vb);
      assert [] + va == va && [] + vb == vb;
      IndicesAppend(table, DictSlots(e, b, k - 1), vb);
    }
  }

  // ---------------------------------------------------------------------
  // Encoding only ever appends to the table.

  lemma FieldsStepGrows(items: seq<Value>, children: seq<SigType>, k: nat, fds: Table)
    requires 0 < k <= |children|
    requires FieldsUpTo(ToIndex, items, children, k, fds).Ok?
    ensures FieldsUpTo(ToIndex, items, children, k - 1, fds).Ok?
    ensures FieldsUpTo(ToIndex, items, children, k - 1, fds).value.1 <= FieldsUpTo(ToIndex, items, children, k, fds).value.1
  {
    FieldsTable(items, children, k - 1, fds);
    FieldsTable(items, children, k, fds);
    var before := FieldsSlots(items, children, k - 1);
    var extra := if Skipped(children[k - 1]) || k - 1 >= |items| then [] else FieldSlots(children[k - 1], items[k - 1]);
    assert FieldsSlots(items, children, k) == before + extra;
    AddNewAppend(fds, before, extra);
    AddNewGrows(AddNew(fds, before), extra);
  }

  lemma ArrayStepGrows(st: SigType, xs: seq<Value>, k: nat, fds: Table)
    requires 0 < k <= |xs|
    requires ArrayUpTo(ToIndex, st, xs, k, fds).Ok?
    ensures ArrayUpTo(ToIndex, st, xs, k - 1, fds).Ok?
    ensures ArrayUpTo(ToIndex, st, xs, k - 1, fds).value.1 <= ArrayUpTo(ToIndex, st, xs, k, fds).value.1
  {
    ArrayTable(st, xs, k - 1, fds);
    ArrayTable(st, xs, k, fds);
    var before := ArraySlots(st, xs, k - 1);
    var extra := ElementSlots(st, xs[k - 1]);
    ArraySlotsUnfold(st, xs, k);
    AddNewAppend(fds, before, extra);
    AddNewGrows(AddNew(fds, before), extra);
  }

  lemma DictStepGrows(e: SigType, snapshot: seq<Entry>, k: nat, fds: Table)
    requires 0 < k <= |snapshot|
    requires DictUpTo(ToIndex, e, snapshot, k, fds).Ok?
    ensures DictUpTo(ToIndex, e, snapshot, k - 1, fds).Ok?
    ensures DictUpTo(ToIndex, e, snapshot, k - 1, fds).value.1 <= DictUpTo(ToIndex, e, snapshot, k, fds).value.1
  {
    DictTable(e, snapshot, k - 1, fds);
    DictTable(e, snapshot, k, fds);
    var before := DictSlots(e, snapshot, k - 1);
    var extra := DictSlots(e, snapshot, k)[|before|..];
    assert DictSlots(e, snapshot, k) == before + extra;
    AddNewAppend(fds, before, extra);
    AddNewGrows(AddNew(fds, before), extra);
  }

  // ---------------------------------------------------------------------
  // The dict loop keeps the keys and their order when keys are not
  // descriptors, in either direction.

  /** Popping the next snapshot entry from the dict as the encoding loop
      leaves it: the entry is first, and no other entry has its key. */
  lemma PopVisited(snapshot: seq<Entry>, k: nat, d: seq<Entry>)
    requires 0 < k <= |snapshot| && DistinctKeys(snapshot)
    requires |d| == |snapshot| && d[..|snapshot| - k + 1] == snapshot[k - 1..]
    requires forall j | 0 <= j < k - 1 :: d[|snapshot| - k + 1..][j].key == snapshot[j].key
    ensures Remove(d, snapshot[k - 1].key) == snapshot[k..] + d[|snapshot| - k + 1..]
    ensures KeyIndex(snapshot[k..] + d[|snapshot| - k + 1..], snapshot[k - 1].key) == -1
  {
    var n := |snapshot| - k;
    var entry := snapshot[k - 1];
    var done := d[n + 1..];
    var rest := snapshot[k..] + done;
    assert d == [entry] + rest by {
      assert d == d[..n + 1] + done;
      assert snapshot[k - 1..] == [entry] + snapshot[k..];
    }
    forall j | 0 <= j < |rest| ensures rest[j].key != entry.key {
      if j < n {
        assert rest[j] == snapshot[k + j];
        assert snapshot[k - 1].key != snapshot[k + j].key;
      } else {
        assert rest[j] == done[j - n];
        assert done[j - n].key == snapshot[j - n].key;
        assert snapshot[j - n].key != snapshot[k - 1].key;
      }
    }
    RemoveFirst(d);
    assert d[1..] == rest;
  }

  /** After `k` iterations the unvisited entries come first, unchanged,
      then the visited ones in snapshot order under their own keys. */
  predicate KeysVisited(snapshot: seq<Entry>, k: nat, d: seq<Entry>) {
    k <= |snapshot| && |d| == |snapshot| && d[..|snapshot| - k] == snapshot[k..] &&
    forall j | 0 <= j < k :: d[|snapshot| - k..][j].key == snapshot[j].key
  }

  /** The parts of `a + b + [x]`. */
  lemma Slices<T>(d: seq<T>, a: seq<T>, b: seq<T>, x: T)
    requires d == a + b + [x]
    ensures d[..|a|] == a && d[|a|..] == b + [x] && d[|a|..][..|b|] == b && d[|a|..][|b|] == x
  {
  }

  /** Where the encoding loop puts the entry it pops at step `k`: at the end,
      behind the unvisited entries and the earlier visited ones. */
  lemma StoreVisited(snapshot: seq<Entry>, k: nat, prior: seq<Entry>, d: seq<Entry>, w: Value)
    requires 0 < k <= |snapshot| && DistinctKeys(snapshot)
    requires |prior| == |snapshot| && prior[..|snapshot| - k + 1] == snapshot[k - 1..]
    requires forall j | 0 <= j < k - 1 :: prior[|snapshot| - k + 1..][j].key == snapshot[j].key
    requires d == Store(Remove(prior, snapshot[k - 1].key), snapshot[k - 1].key, w)
    ensures d == snapshot[k..] + prior[|snapshot| - k + 1..] + [Entry(snapshot[k - 1].key, w)]
  {
    PopVisited(snapshot, k, prior);
  }

  /** One iteration of the dict loop keeps KeysVisited. */
  lemma KeysStep(snapshot: seq<Entry>, k: nat, prior: seq<Entry>, d: seq<Entry>, w: Value)
    requires 0 < k <= |snapshot| && DistinctKeys(snapshot) && KeysVisited(snapshot, k - 1, prior)
    requires d == Store(Remove(prior, snapshot[k - 1].key), snapshot[k - 1].key, w)
    ensures KeysVisited(snapshot, k, d)
  {
    var n := |snapshot| - k;
    var done' := prior[n + 1..];
    StoreVisited(snapshot, k, prior, d, w);
    Slices(d, snapshot[k..], done', Entry(snapshot[k - 1].key, w));
    forall j | 0 <= j < k ensures d[n..][j].key == snapshot[j].key {
      if j < k - 1 {
        assert d[n..][j] == d[n..][..k - 1][j];
      }
    }
  }

  lemma {:induction false} DictKeysVisited(dir: Direction, e: SigType, snapshot: seq<Entry>, k: nat, fds: Table)
    requires |e.children| >= 2 && Signature(e.children[0]) != "h"
    requires k <= |snapshot| && DistinctKeys(snapshot)
    requires DictUpTo(dir, e, snapshot, k, fds).Ok?
    ensures KeysVisited(snapshot, k, DictUpTo(dir, e, snapshot, k, fds).value.0)
  {
    var d := DictUpTo(dir, e, snapshot, k, fds).value.0;
    if k == 0 {
      assert d[..|snapshot|] == snapshot[0..];
    } else {
      var prior := DictUpTo(dir, e, snapshot, k - 1, fds).value;
      DictKeysVisited(dir, e, snapshot, k - 1, fds);
      var entry := snapshot[k - 1];
      EntriesSizeElement(snapshot, k - 1);
      var pv := DictValue(dir, e.children[1], entry.value, prior.1).value;
      assert d == Store(Remove(prior.0, entry.key), entry.key, pv.0);
      KeysStep(snapshot, k, prior.0, d, pv.0);
    }
  }

  /** With keys that are not descriptors, both directions give back a dict
      with the snapshot's keys in the snapshot's order: only values change. */
  lemma DictKeepsKeys(dir: Direction, e: SigType, snapshot: seq<Entry>, fds: Table)
    requires |e.children| >= 2 && Signature(e.children[0]) != "h"
    requires DistinctKeys(snapshot)
    requires DictUpTo(dir, e, snapshot, |snapshot|, fds).Ok?
    ensures var d := DictUpTo(dir, e, snapshot, |snapshot|, fds).value.0;
      |d| == |snapshot| && forall j | 0 <= j < |d| :: d[j].key == snapshot[j].key
  {
    DictKeysVisited(dir, e, snapshot, |snapshot|, fds);
    var d := DictUpTo(dir, e, snapshot, |snapshot|, fds).value.0;
    assert d[|snapshot| - |snapshot|..] == d;
  }
}
