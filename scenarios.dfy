/** Worked inputs for the descriptor indirection of asyncdbus/_private/util.py,
    each stated as the exact result of the walk. */
module FdScenarios {
  import opened DBusSignature
  import opened DBusValue
  import opened Containment
  import opened FdIndirection

  function Node(token: char): SigType {
    SigType(token, [])
  }

  /** `ah` holding the descriptors 7, 9, 7: the repeated 7 shares index 0,
      and the table lists 7 and 9 once each, in first-seen order. */
  lemma ArrayOfFdsEncoding()
    ensures var ah := SigType('a', [Node('h')]);
      ToIndexed([ah], [List([Int(7), Int(9), Int(7)])]) ==
      Ok(([List([Int(0), Int(1), Int(0)])], [Int(7), Int(9)]))
  {
    var ah := SigType('a', [Node('h')]);
    var body := [List([Int(7), Int(9), Int(7)])];
    assert TreeHas([ah][0].children[0], 'h');
    assert Signature(ah) == "ah" by {
      assert Concat(ah.children) == "h" + Concat([]);
    }
    var xs := [Int(7), Int(9), Int(7)];
    var empty: Table := [];
    assert empty + [Int(7)] == [Int(7)];
    assert Leaf(ToIndex, Int(7), []) == Ok((Int(0), [Int(7)]));
    assert [Int(7)][1..] == [];
    assert IndexOf([Int(7)], Int(9)) == -1;
    assert [Int(7)] + [Int(9)] == [Int(7), Int(9)];
    assert Leaf(ToIndex, Int(9), [Int(7)]) == Ok((Int(1), [Int(7), Int(9)]));
    assert Leaf(ToIndex, Int(7), [Int(7), Int(9)]) == Ok((Int(0), [Int(7), Int(9)]));
    assert xs[0 := Int(0)] == [Int(0), Int(9), Int(7)];
    assert [Int(0), Int(9), Int(7)][1 := Int(1)] == [Int(0), Int(1), Int(7)];
    assert [Int(0), Int(1), Int(7)][2 := Int(0)] == [Int(0), Int(1), Int(0)];
    assert ArrayUpTo(ToIndex, ah, xs, 1, []) == Ok(([Int(0), Int(9), Int(7)], [Int(7)]));
    assert ArrayUpTo(ToIndex, ah, xs, 2, []) == Ok(([Int(0), Int(1), Int(7)], [Int(7), Int(9)]));
    assert ArrayUpTo(ToIndex, ah, xs, 3, []) == Ok(([Int(0), Int(1), Int(0)], [Int(7), Int(9)]));
    assert [List(xs)][0 := List([Int(0), Int(1), Int(0)])] == [List([Int(0), Int(1), Int(0)])];
  }

  /** Two `h` fields holding the same descriptor get the same index. */
  lemma RepeatedFdEncoding()
    ensures ToIndexed([Node('h'), Node('h')], [Int(5), Int(5)]) == Ok(([Int(0), Int(0)], [Int(5)]))
  {
    var types := [Node('h'), Node('h')];
    assert TreeHas(types[0], 'h');
    assert Signature(Node('h')) == "h";
    assert IndexOf([], Int(5)) == -1;
    var empty: Table := [];
    assert empty + [Int(5)] == [Int(5)];
    assert Leaf(ToIndex, Int(5), []) == Ok((Int(0), [Int(5)]));
    assert Field(ToIndex, Node('h'), Int(5), []) == Ok((Int(0), [Int(5)]));
    assert [Int(5), Int(5)][0 := Int(0)] == [Int(0), Int(5)];
    assert FieldsUpTo(ToIndex, [Int(5), Int(5)], types, 1, []) == Ok(([Int(0), Int(5)], [Int(5)]));
    assert IndexOf([Int(5)], Int(5)) == 0;
    assert Field(ToIndex, Node('h'), Int(5), [Int(5)]) == Ok((Int(0), [Int(5)]));
    assert [Int(0), Int(5)][1 := Int(0)] == [Int(0), Int(0)];
  }

  /** A variant whose signature is `h` is found by the variant phase and has
      its value replaced. */
  lemma VariantFdEncoding()
    ensures ToIndexed([Node('v')], [Variant(Node('h'), Int(7))]) ==
      Ok(([Variant(Node('h'), Int(0))], [Int(7)]))
  {
    var types := [Node('v')];
    var body := [Variant(Node('h'), Int(7))];
    assert TreeHas(types[0], 'v');
    assert TreeHas([Node('h')][0], 'h');
    assert MemberContains(body[0], 'h');
    assert Contains(types, body, 'h');
    assert Signature(Node('v')) == "v" && Signature(Node('h')) == "h";
    var empty: Table := [];
    assert empty + [Int(7)] == [Int(7)];
    assert Leaf(ToIndex, Int(7), []) == Ok((Int(0), [Int(7)]));
    assert Field(ToIndex, Node('v'), body[0], []) == Ok((Variant(Node('h'), Int(0)), [Int(7)]));
    assert body[0 := Variant(Node('h'), Int(0))] == [Variant(Node('h'), Int(0))];
  }

  /** A body with no descriptor anywhere comes back as it is, with an empty table. */
  lemma NoFdFastPath()
    ensures ToIndexed([Node('s')], [Str("x")]) == Ok(([Str("x")], []))
    ensures FromIndexed([Node('s')], [Str("x")], [Int(3)]) == Ok([Str("x")])
  {
  }

  /** Decoding an index past the end of the table gives `None`, and a
      negative one counts from the end as Python's indexing does. */
  lemma DecodeIndexBounds()
    ensures FromIndexed([Node('h')], [Int(3)], [Int(7)]) == Ok([Null])
    ensures FromIndexed([Node('h')], [Int(-1)], [Int(7), Int(9)]) == Ok([Int(9)])
  {
    assert TreeHas([Node('h')][0], 'h');
    assert Signature(Node('h')) == "h";
    assert Leaf(FromIndex, Int(3), [Int(7)]) == Ok((Null, [Int(7)]));
    assert [Int(3)][0 := Null] == [Null];
    assert Leaf(FromIndex, Int(-1), [Int(7), Int(9)]) == Ok((Int(9), [Int(7), Int(9)]));
    assert [Int(-1)][0 := Int(9)] == [Int(9)];
  }

  /** `a{hs}`: a dict from descriptors to strings. */
  function FdKeyDict(): SigType {
    SigType('a', [SigType('{', [Node('h'), Node('s')])])
  }

  /** The first iteration of the dict loop: key 5 becomes index 0 and is
      stored over the entry still waiting under key 0. */
  lemma FdKeysFirstEntry()
    ensures var es := [Entry(Int(5), Str("x")), Entry(Int(0), Str("y"))];
      DictStep(ToIndex, FdKeyDict().children[0], es[0], es, []) == Ok(([Entry(Int(0), Str("x"))], [Int(5)]))
  {
    var es := [Entry(Int(5), Str("x")), Entry(Int(0), Str("y"))];
    assert Signature(Node('s')) == "s" && Signature(Node('h')) == "h";
    assert es[1..] == [Entry(Int(0), Str("y"))] && es[1..][1..] == [];
    assert Remove(es, Int(5)) == [Entry(Int(0), Str("y"))];
    var empty: Table := [];
    assert empty + [Int(5)] == [Int(5)];
    assert Leaf(ToIndex, Int(5), []) == Ok((Int(0), [Int(5)]));
    assert FieldsUpTo(ToIndex, [Str("x")], [Node('s')], 1, [Int(5)]) == Ok(([Str("x")], [Int(5)]));
    assert DictValue(ToIndex, Node('s'), Str("x"), [Int(5)]) == Ok((Str("x"), [Int(5)]));
    assert Store([Entry(Int(0), Str("y"))], Int(0), Str("x")) == [Entry(Int(0), Str("x"))];
  }

  /** The second iteration: the snapshot's pair 0 -> "y" pops the entry
      that now holds "x", and key 0 becomes index 1. */
  lemma FdKeysSecondEntry()
    ensures DictStep(ToIndex, FdKeyDict().children[0], Entry(Int(0), Str("y")), [Entry(Int(0), Str("x"))], [Int(5)]) ==
      Ok(([Entry(Int(1), Str("y"))], [Int(5), Int(0)]))
  {
    var table := [Int(5), Int(0)];
    assert Signature(Node('s')) == "s" && Signature(Node('h')) == "h";
    assert Remove([Entry(Int(0), Str("x"))], Int(0)) == [];
    assert [Int(5)][1..] == [];
    assert IndexOf([Int(5)], Int(0)) == -1;
    assert [Int(5)] + [Int(0)] == table;
    assert Leaf(ToIndex, Int(0), [Int(5)]) == Ok((Int(1), table));
    assert FieldsUpTo(ToIndex, [Str("y")], [Node('s')], 1, table) == Ok(([Str("y")], table));
    assert DictValue(ToIndex, Node('s'), Str("y"), table) == Ok((Str("y"), table));
    var emptyDict: seq<Entry> := [];
    assert emptyDict + [Entry(Int(1), Str("y"))] == [Entry(Int(1), Str("y"))];
    assert Store([], Int(1), Str("y")) == [Entry(Int(1), Str("y"))];
  }

  /** Encoding `a{hs}` holding 5 -> "x" and 0 -> "y" leaves one entry. */
  lemma FdKeysEncoding()
    ensures ToIndexed([FdKeyDict()], [Dict([Entry(Int(5), Str("x")), Entry(Int(0), Str("y"))])]) ==
      Ok(([Dict([Entry(Int(1), Str("y"))])], [Int(5), Int(0)]))
  {
    var ahs := FdKeyDict();
    var e := ahs.children[0];
    var es := [Entry(Int(5), Str("x")), Entry(Int(0), Str("y"))];
    var body := [Dict(es)];
    var table := [Int(5), Int(0)];
    assert TreeHas([ahs][0].children[0].children[0], 'h');
    assert Signature(ahs)[0] == 'a';
    FdKeysFirstEntry();
    assert DictUpTo(ToIndex, e, es, 1, []) == Ok(([Entry(Int(0), Str("x"))], [Int(5)]));
    FdKeysSecondEntry();
    assert DictUpTo(ToIndex, e, es, 2, []) == Ok(([Entry(Int(1), Str("y"))], table));
    var enc := [Entry(Int(1), Str("y"))];
    assert Field(ToIndex, ahs, Dict(es), []) == Ok((Dict(enc), table));
    assert body[0 := Dict(enc)] == [Dict(enc)];
  }

  /** Decoding that result turns index 1 back into 0; the entry 5 -> "x"
      does not come back. */
  lemma FdKeysDecoding()
    ensures FromIndexed([FdKeyDict()], [Dict([Entry(Int(1), Str("y"))])], [Int(5), Int(0)]) ==
      Ok([Dict([Entry(Int(0), Str("y"))])])
  {
    var ahs := FdKeyDict();
    var e := ahs.children[0];
    var enc := [Entry(Int(1), Str("y"))];
    var table := [Int(5), Int(0)];
    assert TreeHas([ahs][0].children[0].children[0], 'h');
    assert Signature(Node('s')) == "s" && Signature(Node('h')) == "h";
    assert Signature(ahs)[0] == 'a';
    assert enc[1..] == [];
    assert Remove(enc, Int(1)) == [];
    assert Leaf(FromIndex, Int(1), table) == Ok((Int(0), table));
    assert FieldsUpTo(FromIndex, [Str("y")], [Node('s')], 1, table) == Ok(([Str("y")], table));
    assert DictValue(FromIndex, Node('s'), Str("y"), table) == Ok((Str("y"), table));
    var emptyDict: seq<Entry> := [];
    assert emptyDict + [Entry(Int(0), Str("y"))] == [Entry(Int(0), Str("y"))];
    assert Store([], Int(0), Str("y")) == [Entry(Int(0), Str("y"))];
    assert DictUpTo(FromIndex, e, enc, 1, table) == Ok(([Entry(Int(0), Str("y"))], table));
    assert Field(FromIndex, ahs, Dict(enc), table) == Ok((Dict([Entry(Int(0), Str("y"))]), table));
    assert [Dict(enc)][0 := Dict([Entry(Int(0), Str("y"))])] == [Dict([Entry(Int(0), Str("y"))])];
  }

  /** So with descriptor-typed dict keys the round trip fails: the body
      `[{5: "x", 0: "y"}]` of type `a{hs}` does not come back. */
  lemma FdKeysBreakRoundTrip()
    ensures var body := [Dict([Entry(Int(5), Str("x")), Entry(Int(0), Str("y"))])];
      ToIndexed([FdKeyDict()], body).Ok? &&
      FromIndexed([FdKeyDict()], ToIndexed([FdKeyDict()], body).value.0, ToIndexed([FdKeyDict()], body).value.1) != Ok(body)
  {
    FdKeysEncoding();
    FdKeysDecoding();
    var es := [Entry(Int(5), Str("x")), Entry(Int(0), Str("y"))];
    assert [Dict([Entry(Int(0), Str("y"))])] != [Dict(es)] by {
      assert |es| != 1;
    }
  }
}
