/** Message body values as application code hands them to the library.

    Arrays and structs are both Python lists; a dict keeps its insertion
    order (the pop/re-insert loop of the fd walk depends on it), so it is an
    ordered association list; a Variant pairs a parsed single-type
    signature with its value. `Null` is Python's `None`, which decoding
    produces for a descriptor index the table does not hold. */
module DBusValue {
  import opened DBusSignature

  datatype Value =
    | Null
    | Int(i: int)
    | Str(s: string)
    | List(items: seq<Value>)
    | Dict(entries: seq<Entry>)
    | Variant(vtype: SigType, value: Value)

  datatype Entry = Entry(key: Value, value: Value)

  /** A size measure that bounds the recursion of the body walks. */
  function Size(v: Value): (n: nat)
    ensures n >= 1
  {
    match v
    case List(xs) => 1 + SeqSize(xs)
    case Dict(es) => 1 + EntriesSize(es)
    case Variant(_, x) => 1 + Size(x)
    case _ => 1
  }

  function SeqSize(xs: seq<Value>): nat {
    if xs == [] then 0 else Size(xs[0]) + SeqSize(xs[1..])
  }

  function EntriesSize(es: seq<Entry>): nat {
    if es == [] then 0 else EntrySize(es[0]) + EntriesSize(es[1..])
  }

  function EntrySize(e: Entry): nat {
    1 + Size(e.key) + Size(e.value)
  }

  lemma {:induction false} SeqSizeAppend(a: seq<Value>, b: seq<Value>)
    ensures SeqSize(a + b) == SeqSize(a) + SeqSize(b)
  {
    if a == [] {
      assert a + b == b;
    } else {
      assert (a + b)[0] == a[0];
      assert (a + b)[1..] == a[1..] + b;
      SeqSizeAppend(a[1..], b);
    }
  }

  lemma SeqSizeSingleton(x: Value)
    ensures SeqSize([x]) == Size(x)
  {
  }

  lemma {:induction false} SeqSizeElement(xs: seq<Value>, i: nat)
    requires i < |xs|
    ensures Size(xs[i]) <= SeqSize(xs)
  {
    if i > 0 {
      SeqSizeElement(xs[1..], i - 1);
    }
  }

  lemma {:induction false} EntriesSizeElement(es: seq<Entry>, i: nat)
    requires i < |es|
    ensures EntrySize(es[i]) <= EntriesSize(es)
    ensures Size(es[i].key) < EntriesSize(es) && Size(es[i].value) < EntriesSize(es)
  {
    if i > 0 {
      EntriesSizeElement(es[1..], i - 1);
    }
  }

  /** `dict.values()`, in insertion order. */
  function Values(es: seq<Entry>): (vs: seq<Value>)
    ensures |vs| == |es|
    ensures forall i | 0 <= i < |es| :: vs[i] == es[i].value
  {
    if es == [] then [] else [es[0].value] + Values(es[1..])
  }

  lemma {:induction false} ValuesSize(es: seq<Entry>)
    ensures SeqSize(Values(es)) < 1 + EntriesSize(es)
  {
    if es != [] {
      ValuesSize(es[1..]);
      SeqSizeAppend([es[0].value], Values(es[1..]));
      SeqSizeSingleton(es[0].value);
    }
  }

  /** Position of the entry with key `k`, or -1 when there is none. */
  function KeyIndex(es: seq<Entry>, k: Value): (i: int)
    ensures -1 <= i < |es|
    ensures i == -1 <==> forall j | 0 <= j < |es| :: es[j].key != k
    ensures 0 <= i ==> es[i].key == k && forall j | 0 <= j < i :: es[j].key != k
  {
    if es == [] then -1
    else if es[0].key == k then 0
    else
      var j := KeyIndex(es[1..], k);
      if j == -1 then -1 else j + 1
  }

  /** `d.pop(k)`: the dict without the entry for `k`. */
  function Remove(es: seq<Entry>, k: Value): (r: seq<Entry>)
    ensures forall j | 0 <= j < |r| :: r[j].key != k
    ensures |r| <= |es|
  {
    if es == [] then []
    else if es[0].key == k then Remove(es[1..], k)
    else [es[0]] + Remove(es[1..], k)
  }

  lemma {:induction false} RemoveAbsent(es: seq<Entry>, k: Value)
    requires forall j | 0 <= j < |es| :: es[j].key != k
    ensures Remove(es, k) == es
  {
    if es != [] {
      RemoveAbsent(es[1..], k);
      assert es == [es[0]] + es[1..];
    }
  }

  /** Popping the first key of a dict whose other keys differ from it. */
  lemma RemoveFirst(es: seq<Entry>)
    requires es != []
    requires forall j | 1 <= j < |es| :: es[j].key != es[0].key
    ensures Remove(es, es[0].key) == es[1..]
  {
    RemoveAbsent(es[1..], es[0].key);
  }

  /** `d[k] = v`: an existing key keeps its position and takes the new
      value; a new key goes to the end. */
  function Store(es: seq<Entry>, k: Value, v: Value): seq<Entry> {
    var i := KeyIndex(es, k);
    if i >= 0 then es[i := Entry(k, v)] else es + [Entry(k, v)]
  }

  predicate DistinctKeys(es: seq<Entry>) {
    forall i, j | 0 <= i < j < |es| :: es[i].key != es[j].key
  }

  /** What `d.pop(k)` leaves: exactly the entries under other keys, in
      their order; a dict without `k` is left as it is, and a dict with
      distinct keys loses just the entry for `k`. */
  lemma RemovePops(es: seq<Entry>, k: Value)
    ensures forall x :: x in Remove(es, k) <==> x in es && x.key != k
    ensures KeyIndex(es, k) == -1 ==> Remove(es, k) == es
    ensures DistinctKeys(es) && KeyIndex(es, k) >= 0 ==>
      Remove(es, k) == es[..KeyIndex(es, k)] + es[KeyIndex(es, k) + 1..]
    ensures DistinctKeys(es) ==> DistinctKeys(Remove(es, k))
  {
    RemoveMembers(es, k);
    RemoveShape(es, k);
  }

  /** The order-keeping half of RemovePops. */
  lemma RemoveShape(es: seq<Entry>, k: Value)
    ensures KeyIndex(es, k) == -1 ==> Remove(es, k) == es
    ensures DistinctKeys(es) && KeyIndex(es, k) >= 0 ==>
      Remove(es, k) == es[..KeyIndex(es, k)] + es[KeyIndex(es, k) + 1..]
    ensures DistinctKeys(es) ==> DistinctKeys(Remove(es, k))
  {
    var i := KeyIndex(es, k);
    if i == -1 {
      RemoveAbsent(es, k);
    } else if DistinctKeys(es) {
      RemoveAt(es, k);
      DistinctWithout(es, i);
    }
  }

  /** Leaving out one entry keeps keys distinct. */
  lemma DistinctWithout(es: seq<Entry>, i: nat)
    requires DistinctKeys(es) && i < |es|
    ensures DistinctKeys(es[..i] + es[i + 1..])
  {
    var r := es[..i] + es[i + 1..];
    forall a, b | 0 <= a < b < |r| ensures r[a].key != r[b].key {
      var a', b' := if a < i then a else a + 1, if b < i then b else b + 1;
      assert r[a] == es[a'] && r[b] == es[b'];
    }
  }

  /** Removing `k` keeps exactly the entries under other keys. */
  lemma {:induction false} RemoveMembers(es: seq<Entry>, k: Value)
    ensures forall x :: x in Remove(es, k) <==> x in es && x.key != k
  {
    if es != [] {
      RemoveMembers(es[1..], k);
      assert es == [es[0]] + es[1..];
    }
  }

  /** With distinct keys, removing a present `k` cuts out its one entry. */
  lemma {:induction false} RemoveAt(es: seq<Entry>, k: Value)
    requires DistinctKeys(es) && KeyIndex(es, k) >= 0
    ensures Remove(es, k) == es[..KeyIndex(es, k)] + es[KeyIndex(es, k) + 1..]
  {
    var i := KeyIndex(es, k);
    if i == 0 {
      RemoveAbsent(es[1..], k);
    } else {
      assert DistinctKeys(es[1..]) by {
        forall a, b | 0 <= a < b < |es[1..]| ensures es[1..][a].key != es[1..][b].key {
          assert es[1..][a] == es[a + 1] && es[1..][b] == es[b + 1];
        }
      }
      RemoveAt(es[1..], k);
      assert es[..i] == [es[0]] + es[1..][..i - 1];
      assert es[i + 1..] == es[1..][i..];
    }
  }

  /** What `d[k] = v` leaves: `k` is present with value `v`, every entry
      under another key keeps its position, the dict grows by one exactly
      when `k` was absent, and distinct keys stay distinct. */
  lemma StoreAssigns(es: seq<Entry>, k: Value, v: Value)
    ensures var r := Store(es, k, v);
      KeyIndex(r, k) >= 0 && r[KeyIndex(r, k)] == Entry(k, v) &&
      |r| == (if KeyIndex(es, k) == -1 then |es| + 1 else |es|) &&
      (forall j | 0 <= j < |es| && es[j].key != k :: r[j] == es[j]) &&
      (DistinctKeys(es) ==> DistinctKeys(r))
  {
    var r := Store(es, k, v);
    var i := KeyIndex(es, k);
    if i >= 0 {
      assert r[i].key == k;
    } else {
      assert r[|es|].key == k;
    }
  }

  /** `v` has the shape that node `t` describes. Descriptor (`h`) slots hold
      integers; a variant carries a well-formed signature and a value of
      that shape; dict keys are distinct. With `fdKeys` false, no dict
      entry type met on the way, including inside variants, has an `h` key. */
  predicate Typed(t: SigType, v: Value, fdKeys: bool)
    decreases v
  {
    if t.token == 'h' then v.Int?
    else if IsBasic(t.token) then v.Int? || v.Str?
    else if t.token == 'v' then
      v.Variant? && WellFormed(v.vtype) && Typed(v.vtype, v.value, fdKeys)
    else if t.token == 'a' && |t.children| == 1 && t.children[0].token == '{' then
      var e := t.children[0];
      |e.children| == 2 && (fdKeys || e.children[0].token != 'h') &&
      v.Dict? && DistinctKeys(v.entries) &&
      forall i | 0 <= i < |v.entries| ::
        Typed(e.children[0], v.entries[i].key, fdKeys) && Typed(e.children[1], v.entries[i].value, fdKeys)
    else if t.token == 'a' && |t.children| == 1 then
      v.List? && forall i | 0 <= i < |v.items| :: Typed(t.children[0], v.items[i], fdKeys)
    else if t.token == '(' then
      v.List? && |v.items| == |t.children| &&
      forall i | 0 <= i < |v.items| :: Typed(t.children[i], v.items[i], fdKeys)
    else false
  }

  /** A whole body matches a sequence of top-level types. */
  predicate BodyTyped(ts: seq<SigType>, body: seq<Value>, fdKeys: bool) {
    |body| == |ts| && forall i | 0 <= i < |ts| :: Typed(ts[i], body[i], fdKeys)
  }
}
