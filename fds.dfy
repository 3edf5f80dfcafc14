/** The descriptor indirection of asyncdbus/_private/util.py.

    Application code puts a file descriptor itself in every `h` field; on
    the wire the field holds an index into the message's out-of-band
    descriptor array. `replace_fds_with_idx` (ToIndex) and
    `replace_idx_with_fds` (FromIndex) convert between the two forms with
    one shared walk, `_replace_fds`, that follows the signature tree and
    applies a direction-specific replace function at each descriptor slot.

    The walk is specified by the functions FieldsUpTo (the field loop of
    `_replace_fds`), Field (its per-field branches), ArrayUpTo (the element
    loop of an array) and DictUpTo (the pop/re-insert loop of a dict); the
    methods ReplaceFds and ReplaceField run the same loops imperatively and
    are proved to compute them. A Python exception is an `Err`. */
module FdIndirection {
  import opened DBusSignature
  import opened DBusValue
  import opened Containment

  datatype Error =
    | BodyShapeMismatch   // the body does not have the shape its signature names
    | MalformedSignature  // a container node lacks the children the walk reads
    | IndexNotInteger     // decoding met a descriptor slot that holds no integer

  datatype Result<T> = Ok(value: T) | Err(error: Error) {
    predicate IsFailure() {
      Err?
    }

    function PropagateFailure<U>(): Result<U>
      requires Err?
    {
      Err(error)
    }

    function Extract(): T
      requires Ok?
    {
      value
    }
  }

  /** Which of the two `_replace` closures the walk applies. */
  datatype Direction = ToIndex | FromIndex

  /** The descriptor table: built by ToIndex, read by FromIndex. */
  type Table = seq<Value>

  /** `list.index`: the first position of `fd`, or -1 where Python raises ValueError. */
  function IndexOf(fds: Table, fd: Value): (i: int)
    ensures -1 <= i < |fds|
    ensures i == -1 <==> fd !in fds
    ensures 0 <= i ==> fds[i] == fd && fd !in fds[..i]
  {
    if fds == [] then -1
    else if fds[0] == fd then 0
    else
      var j := IndexOf(fds[1..], fd);
      assert j >= 0 ==> fds[..j + 1] == [fds[0]] + fds[1..][..j];
      if j == -1 then -1 else j + 1
  }

  /** The replace function of each direction (util.py:66-71 and 91-95).

      ToIndex returns the index of `v` in the table, appending `v` first when
      it is not there yet. FromIndex reads the table at the index `v` holds,
      counting from the end for a negative one as Python does, and yields
      `Null` where Python's IndexError is caught; a slot that holds no
      integer raises TypeError, which is not caught. */
  function Leaf(dir: Direction, v: Value, fds: Table): (r: Result<(Value, Table)>)
    ensures dir == ToIndex ==>
      r.Ok? && r.value.0.Int? && 0 <= r.value.0.i < |r.value.1| && r.value.1[r.value.0.i] == v
    ensures dir == ToIndex && v in fds ==> r.value.1 == fds && v !in fds[..r.value.0.i]
    ensures dir == ToIndex && v !in fds ==> r.value.1 == fds + [v] && r.value.0.i == |fds|
    ensures dir == FromIndex ==> (r.Ok? <==> v.Int?) && (r.Ok? ==> r.value.1 == fds)
    ensures dir == FromIndex && v.Int? && 0 <= v.i < |fds| ==> r == Ok((fds[v.i], fds))
    ensures dir == FromIndex && v.Int? && -|fds| <= v.i < 0 ==> r == Ok((fds[|fds| + v.i], fds))
    ensures dir == FromIndex && v.Int? && (v.i >= |fds| || v.i < -|fds|) ==> r == Ok((Null, fds))
  {
    match dir
    case ToIndex =>
      var i := IndexOf(fds, v);
      if i >= 0 then Ok((Int(i), fds)) else Ok((Int(|fds|), fds + [v]))
    case FromIndex =>
      match v
      case Int(i) =>
        if 0 <= i < |fds| then Ok((fds[i], fds))
        else if -|fds| <= i < 0 then Ok((fds[|fds| + i], fds))
        else Ok((Null, fds))
      case _ => Err(IndexNotInteger)
  }

  /** `not any(sig in st.signature for sig in 'hv')`: the field is left alone. */
  predicate Skipped(st: SigType) {
    'h' !in Signature(st) && 'v' !in Signature(st)
  }

  /** The field loop of `_replace_fds(items, children)` after its first `k`
      iterations: the list so far and the table so far. A skipped field is
      never read, so a body shorter than its signature only fails at a field
      that is not skipped. */
  function FieldsUpTo(dir: Direction, items: seq<Value>, children: seq<SigType>, k: nat, fds: Table)
    : (r: Result<(seq<Value>, Table)>)
    requires k <= |children|
    ensures r.Ok? ==> |r.value.0| == |items|
    ensures r.Ok? ==> forall j | 0 <= j < |items| :: (j >= k || Skipped(children[j])) ==> r.value.0[j] == items[j]
    decreases SeqSize(items), 2, k
  {
    if k == 0 then Ok((items, fds))
    else
      var prior :- FieldsUpTo(dir, items, children, k - 1, fds);
      var st := children[k - 1];
      if Skipped(st) then Ok(prior)
      else if k - 1 >= |items| then Err(BodyShapeMismatch)
      else
        SeqSizeElement(items, k - 1);
        var p :- Field(dir, st, items[k - 1], prior.1);
        Ok((prior.0[k - 1 := p.0], p.1))
  }

  /** The branches of `_replace_fds` for one field `v` of type `st` that is
      not skipped (util.py:110-141), tried in the source's order. */
  function Field(dir: Direction, st: SigType, v: Value, fds: Table): (r: Result<(Value, Table)>)
    decreases Size(v), 1, 0
  {
    if Signature(st) == "h" then Leaf(dir, v, fds)
    else if st.token == 'a' then
      if |st.children| == 0 then Err(MalformedSignature)
      else if st.children[0].token == '{' then
        if |st.children| != 1 then Err(MalformedSignature)
        else
          match v
          case Dict(es) =>
            var p :- DictUpTo(dir, st.children[0], es, |es|, fds);
            Ok((Dict(p.0), p.1))
          case _ => Err(BodyShapeMismatch)
      else
        match v
        case List(xs) =>
          var p :- ArrayUpTo(dir, st, xs, |xs|, fds);
          Ok((List(p.0), p.1))
        case _ => Err(BodyShapeMismatch)
    else if st.token == '(' then
      match v
      case List(xs) =>
        var p :- FieldsUpTo(dir, xs, st.children, |st.children|, fds);
        Ok((List(p.0), p.1))
      case _ => Err(BodyShapeMismatch)
    else if st.token == '{' then
      Err(BodyShapeMismatch)
    else if Signature(st) == "v" then
      match v
      case Variant(t, x) =>
        if Signature(t) == "h" then
          var p :- Leaf(dir, x, fds);
          Ok((Variant(t, p.0), p.1))
        else
          SeqSizeSingleton(x);
          var p :- FieldsUpTo(dir, [x], [t], 1, fds);
          Ok((Variant(t, p.0[0]), p.1))
      case _ => Err(BodyShapeMismatch)
    else if st.children != [] then
      match v
      case List(xs) =>
        var p :- FieldsUpTo(dir, xs, st.children, |st.children|, fds);
        Ok((List(p.0), p.1))
      case _ => Err(BodyShapeMismatch)
    else Ok((v, fds))
  }

  /** The element loop of an array field of type `st` after `k` elements
      (util.py:116-120): each element of an `ah` is replaced, any other
      element is walked as the one field of `[child]`. */
  function ArrayUpTo(dir: Direction, st: SigType, xs: seq<Value>, k: nat, fds: Table)
    : (r: Result<(seq<Value>, Table)>)
    requires k <= |xs|
    ensures r.Ok? ==> |r.value.0| == |xs|
    ensures r.Ok? ==> r.value.0[k..] == xs[k..]
    decreases SeqSize(xs), 3, k
  {
    if k == 0 then Ok((xs, fds))
    else
      var prior :- ArrayUpTo(dir, st, xs, k - 1, fds);
      var x := xs[k - 1];
      SeqSizeElement(xs, k - 1);
      SeqSizeSingleton(x);
      if Signature(st) == "ah" then
        var p :- Leaf(dir, x, prior.1);
        Ok((prior.0[k - 1 := p.0], p.1))
      else
        var p :- FieldsUpTo(dir, [x], st.children, |st.children|, prior.1);
        Ok((prior.0[k - 1 := p.0[0]], p.1))
  }

  /** The dict loop (util.py:124-132) over the snapshot `list(d.items())`
      after `k` entries: the current dict and table. Each entry is popped,
      its key replaced when the key type is `h`, its value replaced or
      walked, and the pair stored back, so a new key lands at the end and a
      key already present is overwritten in place. */
  function DictUpTo(dir: Direction, e: SigType, snapshot: seq<Entry>, k: nat, fds: Table)
    : (r: Result<(seq<Entry>, Table)>)
    requires k <= |snapshot|
    decreases EntriesSize(snapshot), 3, k
  {
    if k == 0 then Ok((snapshot, fds))
    else
      var prior :- DictUpTo(dir, e, snapshot, k - 1, fds);
      EntriesSizeElement(snapshot, k - 1);
      DictStep(dir, e, snapshot[k - 1], prior.0, prior.1)
  }

  /** One iteration of the dict loop on the pair `entry` of the snapshot,
      with `d` the dict as it stands. */
  function DictStep(dir: Direction, e: SigType, entry: Entry, d: seq<Entry>, fds: Table)
    : (r: Result<(seq<Entry>, Table)>)
    decreases EntrySize(entry), 2, 0
  {
    var rest := Remove(d, entry.key);
    if |e.children| < 2 then Err(MalformedSignature)
    else
      var pk :- (if Signature(e.children[0]) == "h" then Leaf(dir, entry.key, fds)
                 else Ok((entry.key, fds)));
      var pv :- DictValue(dir, e.children[1], entry.value, pk.1);
      Ok((Store(rest, pk.0, pv.0), pv.1))
  }

  /** The value half of a dict iteration (util.py:128-131): an `h` value is
      replaced, any other value is walked as the one field of `[value]`. */
  function DictValue(dir: Direction, vt: SigType, x: Value, fds: Table): (r: Result<(Value, Table)>)
    decreases Size(x), 2, 2
  {
    if Signature(vt) == "h" then Leaf(dir, x, fds)
    else
      SeqSizeSingleton(x);
      var w :- FieldsUpTo(dir, [x], [vt], 1, fds);
      Ok((w.0[0], w.1))
  }

  /** `replace_fds_with_idx`: the body in wire form and its descriptor table. */
  function ToIndexed(types: seq<SigType>, body: seq<Value>): (r: Result<(seq<Value>, Table)>)
    ensures r.Ok? ==> |r.value.0| == |body|
    ensures !Contains(types, body, 'h') ==> r == Ok((body, []))
  {
    if !Contains(types, body, 'h') then Ok((body, []))
    else FieldsUpTo(ToIndex, body, types, |types|, [])
  }

  /** `replace_idx_with_fds`: the body in application form. */
  function FromIndexed(types: seq<SigType>, body: seq<Value>, fds: Table): (r: Result<seq<Value>>)
    ensures r.Ok? ==> |r.value| == |body|
    ensures !Contains(types, body, 'h') ==> r == Ok(body)
  {
    if !Contains(types, body, 'h') then Ok(body)
    else
      var p :- FieldsUpTo(FromIndex, body, types, |types|, fds);
      Ok(p.0)
  }

  // Once a loop iteration fails, the whole loop fails with that error.

  lemma {:induction false} FieldsUpToFails(dir: Direction, items: seq<Value>, children: seq<SigType>, k: nat, k': nat, fds: Table)
    requires k <= k' <= |children|
    requires FieldsUpTo(dir, items, children, k, fds).Err?
    ensures FieldsUpTo(dir, items, children, k', fds) == FieldsUpTo(dir, items, children, k, fds)
    decreases k' - k
  {
    if k < k' {
      FieldsUpToFails(dir, items, children, k, k' - 1, fds);
    }
  }

  lemma {:induction false} ArrayUpToFails(dir: Direction, st: SigType, xs: seq<Value>, k: nat, k': nat, fds: Table)
    requires k <= k' <= |xs|
    requires ArrayUpTo(dir, st, xs, k, fds).Err?
    ensures ArrayUpTo(dir, st, xs, k', fds) == ArrayUpTo(dir, st, xs, k, fds)
    decreases k' - k
  {
    if k < k' {
      ArrayUpToFails(dir, st, xs, k, k' - 1, fds);
    }
  }

  lemma {:induction false} DictUpToFails(dir: Direction, e: SigType, snapshot: seq<Entry>, k: nat, k': nat, fds: Table)
    requires k <= k' <= |snapshot|
    requires DictUpTo(dir, e, snapshot, k, fds).Err?
    ensures DictUpTo(dir, e, snapshot, k', fds) == DictUpTo(dir, e, snapshot, k, fds)
    decreases k' - k
  {
    if k < k' {
      DictUpToFails(dir, e, snapshot, k, k' - 1, fds);
    }
  }

  /** An array field whose element type is not a dict entry is its element
      loop, wrapped back in a `List`. */
  lemma FieldOfList(dir: Direction, st: SigType, xs: seq<Value>, fds: Table)
    requires st.token == 'a' && |st.children| > 0 && st.children[0].token != '{'
    ensures ArrayUpTo(dir, st, xs, |xs|, fds).Err? ==>
      Field(dir, st, List(xs), fds) == Err(ArrayUpTo(dir, st, xs, |xs|, fds).error)
    ensures ArrayUpTo(dir, st, xs, |xs|, fds).Ok? ==>
      Field(dir, st, List(xs), fds) == Ok((List(ArrayUpTo(dir, st, xs, |xs|, fds).value.0), ArrayUpTo(dir, st, xs, |xs|, fds).value.1))
  {
    assert Signature(st)[0] == 'a';
  }

  /** A struct field is its field loop, wrapped back in a `List`. */
  lemma FieldOfStruct(dir: Direction, st: SigType, xs: seq<Value>, fds: Table)
    requires st.token == '('
    ensures FieldsUpTo(dir, xs, st.children, |st.children|, fds).Err? ==>
      Field(dir, st, List(xs), fds) == Err(FieldsUpTo(dir, xs, st.children, |st.children|, fds).error)
    ensures FieldsUpTo(dir, xs, st.children, |st.children|, fds).Ok? ==>
      Field(dir, st, List(xs), fds) ==
        Ok((List(FieldsUpTo(dir, xs, st.children, |st.children|, fds).value.0), FieldsUpTo(dir, xs, st.children, |st.children|, fds).value.1))
  {
    assert Signature(st)[0] == '(';
  }

  /** A dict field is its dict loop, wrapped back in a `Dict`. */
  lemma FieldOfDict(dir: Direction, e: SigType, snapshot: seq<Entry>, fds: Table)
    requires e.token == '{'
    ensures DictUpTo(dir, e, snapshot, |snapshot|, fds).Err? ==>
      Field(dir, SigType('a', [e]), Dict(snapshot), fds) == Err(DictUpTo(dir, e, snapshot, |snapshot|, fds).error)
    ensures DictUpTo(dir, e, snapshot, |snapshot|, fds).Ok? ==>
      Field(dir, SigType('a', [e]), Dict(snapshot), fds) ==
        Ok((Dict(DictUpTo(dir, e, snapshot, |snapshot|, fds).value.0), DictUpTo(dir, e, snapshot, |snapshot|, fds).value.1))
  {
    assert Signature(SigType('a', [e]))[0] == 'a';
  }

  /** `_replace_fds(body_obj, children, replace_fn)` on a list: the field
      loop, assigning `body_obj[index]` in turn. */
  method ReplaceFds(dir: Direction, items: seq<Value>, children: seq<SigType>, fds: Table)
    returns (r: Result<(seq<Value>, Table)>)
    ensures r == FieldsUpTo(dir, items, children, |children|, fds)
    decreases SeqSize(items), 2, |children|
  {
    var cur := items;
    var table := fds;
    for index := 0 to |children|
      invariant FieldsUpTo(dir, items, children, index, fds) == Ok((cur, table))
      invariant forall j | index <= j < |items| :: cur[j] == items[j]
    {
      var st := children[index];
      if Skipped(st) {
        continue;
      }
      if index >= |cur| {
        FieldsUpToFails(dir, items, children, index + 1, |children|, fds);
        return Err(BodyShapeMismatch);
      }
      SeqSizeElement(items, index);
      var p := ReplaceField(dir, st, cur[index], table);
      if p.Err? {
        FieldsUpToFails(dir, items, children, index + 1, |children|, fds);
        return Err(p.error);
      }
      cur := cur[index := p.value.0];
      table := p.value.1;
    }
    return Ok((cur, table));
  }

  /** The body of the field loop of `_replace_fds` for a field that is not
      skipped, with the array and dict loops written out. */
  method ReplaceField(dir: Direction, st: SigType, v: Value, fds: Table) returns (r: Result<(Value, Table)>)
    ensures r == Field(dir, st, v, fds)
    decreases Size(v), 1, 0
  {
    if Signature(st) == "h" {
      return Leaf(dir, v, fds);
    } else if st.token == 'a' {
      if |st.children| == 0 {
        return Err(MalformedSignature);
      }
      if st.children[0].token == '{' {
        if |st.children| != 1 {
          return Err(MalformedSignature);
        }
        if !v.Dict? {
          return Err(BodyShapeMismatch);
        }
        r := ReplaceInDict(dir, st.children[0], v.entries, fds);
      } else {
        if !v.List? {
          return Err(BodyShapeMismatch);
        }
        r := ReplaceInArray(dir, st, v.items, fds);
      }
    } else if st.token == '(' {
      if !v.List? {
        return Err(BodyShapeMismatch);
      }
      var p := ReplaceFds(dir, v.items, st.children, fds);
      if p.Err? {
        return Err(p.error);
      }
      return Ok((List(p.value.0), p.value.1));
    } else if st.token == '{' {
      return Err(BodyShapeMismatch);
    } else if Signature(st) == "v" {
      if !v.Variant? {
        return Err(BodyShapeMismatch);
      }
      if Signature(v.vtype) == "h" {
        var p := Leaf(dir, v.value, fds);
        if p.Err? {
          return Err(p.error);
        }
        return Ok((Variant(v.vtype, p.value.0), p.value.1));
      }
      SeqSizeSingleton(v.value);
      var p := ReplaceFds(dir, [v.value], [v.vtype], fds);
      if p.Err? {
        return Err(p.error);
      }
      return Ok((Variant(v.vtype, p.value.0[0]), p.value.1));
    } else if st.children != [] {
      if !v.List? {
        return Err(BodyShapeMismatch);
      }
      var p := ReplaceFds(dir, v.items, st.children, fds);
      if p.Err? {
        return Err(p.error);
      }
      return Ok((List(p.value.0), p.value.1));
    } else {
      return Ok((v, fds));
    }
  }

  /** The element loop of an array field, assigning `body_obj[index][i]`. */
  method ReplaceInArray(dir: Direction, st: SigType, xs: seq<Value>, fds: Table) returns (r: Result<(Value, Table)>)
    requires st.token == 'a' && |st.children| > 0 && st.children[0].token != '{'
    ensures r == Field(dir, st, List(xs), fds)
    decreases Size(List(xs)), 0, 0
  {
    FieldOfList(dir, st, xs, fds);
    var cur := xs;
    var table := fds;
    for i := 0 to |xs|
      invariant ArrayUpTo(dir, st, xs, i, fds) == Ok((cur, table))
    {
      assert cur[i] == cur[i..][0] == xs[i..][0];
      var child := cur[i];
      SeqSizeElement(xs, i);
      SeqSizeSingleton(child);
      if Signature(st) == "ah" {
        var p := Leaf(dir, child, table);
        if p.Err? {
          assert ArrayUpTo(dir, st, xs, i + 1, fds) == Err(p.error);
          ArrayUpToFails(dir, st, xs, i + 1, |xs|, fds);
          return Err(p.error);
        }
        cur := cur[i := p.value.0];
        table := p.value.1;
      } else {
        var p := ReplaceFds(dir, [child], st.children, table);
        if p.Err? {
          ArrayUpToFails(dir, st, xs, i + 1, |xs|, fds);
          return Err(p.error);
        }
        cur := cur[i := p.value.0[0]];
        table := p.value.1;
      }
    }
    return Ok((List(cur), table));
  }

  /** The dict loop: for each pair of the snapshot, pop the key, replace the
      key and the value as their types say, and store the pair back. */
  method ReplaceInDict(dir: Direction, e: SigType, snapshot: seq<Entry>, fds: Table) returns (r: Result<(Value, Table)>)
    requires e.token == '{'
    ensures r == Field(dir, SigType('a', [e]), Dict(snapshot), fds)
    decreases Size(Dict(snapshot)), 0, 0
  {
    FieldOfDict(dir, e, snapshot, fds);
    var d := snapshot;
    var table := fds;
    for k := 0 to |snapshot|
      invariant DictUpTo(dir, e, snapshot, k, fds) == Ok((d, table))
    {
      EntriesSizeElement(snapshot, k);
      var p := ReplaceDictEntry(dir, e, snapshot[k], d, table);
      if p.Err? {
        DictUpToFails(dir, e, snapshot, k + 1, |snapshot|, fds);
        return Err(p.error);
      }
      d, table := p.value.0, p.value.1;
    }
    return Ok((Dict(d), table));
  }

  /** One pass of the dict loop: pop the key, replace the key and the value
      as their types say, store the pair back. */
  method ReplaceDictEntry(dir: Direction, e: SigType, entry: Entry, d: seq<Entry>, fds: Table)
    returns (r: Result<(seq<Entry>, Table)>)
    ensures r == DictStep(dir, e, entry, d, fds)
    decreases EntrySize(entry), 2, 0
  {
    var cur := Remove(d, entry.key);
    if |e.children| < 2 {
      return Err(MalformedSignature);
    }
    var table := fds;
    var key := entry.key;
    if Signature(e.children[0]) == "h" {
      var p := Leaf(dir, key, table);
      if p.Err? {
        return Err(p.error);
      }
      key, table := p.value.0, p.value.1;
    }
    var value := entry.value;
    if Signature(e.children[1]) == "h" {
      var p := Leaf(dir, value, table);
      if p.Err? {
        return Err(p.error);
      }
      value, table := p.value.0, p.value.1;
    } else {
      SeqSizeSingleton(value);
      var w := ReplaceFds(dir, [value], [e.children[1]], table);
      if w.Err? {
        return Err(w.error);
      }
      value, table := w.value.0[0], w.value.1;
    }
    return Ok((Store(cur, key, value), table));
  }

  /** `replace_fds_with_idx` (util.py:50-75). */
  method ReplaceFdsWithIdx(types: seq<SigType>, body: seq<Value>) returns (r: Result<(seq<Value>, Table)>)
    ensures r == ToIndexed(types, body)
    ensures !Contains(types, body, 'h') ==> r == Ok((body, []))
  {
    var has := SignatureContainsType(types, body, 'h');
    if !has {
      return Ok((body, []));
    }
    r := ReplaceFds(ToIndex, body, types, []);
  }

  /** `replace_idx_with_fds` (util.py:78-99). */
  method ReplaceIdxWithFds(types: seq<SigType>, body: seq<Value>, fds: Table) returns (r: Result<seq<Value>>)
    ensures r == FromIndexed(types, body, fds)
    ensures !Contains(types, body, 'h') ==> r == Ok(body)
  {
    var has := SignatureContainsType(types, body, 'h');
    if !has {
      return Ok(body);
    }
    var p := ReplaceFds(FromIndex, body, types, fds);
    if p.Err? {
      return Err(p.error);
    }
    return Ok(p.value.0);
  }
}
