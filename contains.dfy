/** `signature_contains_type` of asyncdbus/_private/util.py: does a body,
    read against its signature, hold a field of the given type token?

    The answer is decided in two phases. A scan of the signature trees
    settles it when some node carries the token; when none does, the body
    only matters if some node is a variant, and then every Variant the body
    reaches through list elements and dict values (never dict keys) is asked
    the same question against its own signature and `[value]`. */
module Containment {
  import opened DBusSignature
  import opened DBusValue

  /** What `signature_contains_type(types, body, token)` answers. */
  predicate Contains(types: seq<SigType>, body: seq<Value>, token: char)
    decreases SeqSize(body), 2
  {
    AnyHas(types, token) || (AnyHas(types, 'v') && AnyMemberContains(body, token))
  }

  /** Some member of `vs` answers yes in the variant phase. */
  predicate AnyMemberContains(vs: seq<Value>, token: char)
    decreases SeqSize(vs), 1
  {
    vs != [] && (MemberContains(vs[0], token) || AnyMemberContains(vs[1..], token))
  }

  /** The variant phase's verdict on one queued member: a Variant is judged by
      its own signature, a list by its elements, a dict by its values, and
      anything else holds nothing. */
  predicate MemberContains(v: Value, token: char)
    decreases Size(v), 0
  {
    match v
    case Variant(t, x) => SeqSizeSingleton(x); Contains([t], [x], token)
    case List(xs) => AnyMemberContains(xs, token)
    case Dict(es) => ValuesSize(es); AnyMemberContains(Values(es), token)
    case _ => false
  }

  lemma {:induction false} AnyMemberContainsAppend(a: seq<Value>, b: seq<Value>, token: char)
    ensures AnyMemberContains(a + b, token) <==> AnyMemberContains(a, token) || AnyMemberContains(b, token)
  {
    if a == [] {
      assert a + b == b;
    } else {
      assert (a + b)[0] == a[0];
      assert (a + b)[1..] == a[1..] + b;
      AnyMemberContainsAppend(a[1..], b, token);
    }
  }

  lemma AnyMemberContainsSingleton(v: Value, token: char)
    ensures AnyMemberContains([v], token) <==> MemberContains(v, token)
  {
  }

  /** Members that answer alike, position by position, answer alike together. */
  lemma {:induction false} AnyMemberContainsPointwise(a: seq<Value>, b: seq<Value>, token: char)
    requires |a| == |b|
    requires forall j | 0 <= j < |a| :: MemberContains(a[j], token) == MemberContains(b[j], token)
    ensures AnyMemberContains(a, token) == AnyMemberContains(b, token)
  {
    if a != [] {
      AnyMemberContainsPointwise(a[1..], b[1..], token);
    }
  }

  /** The worklist algorithm of util.py:5-47. The queue is popped from its
      end and extended with children (first phase) or with list elements
      and dict values (second phase); the order of the visit does not
      change the answer, which is `Contains`. */
  method SignatureContainsType(types: seq<SigType>, body: seq<Value>, token: char) returns (found: bool)
    ensures found == Contains(types, body, token)
    ensures AnyHas(types, token) ==> found
    ensures !AnyHas(types, token) && !AnyHas(types, 'v') ==> !found
    decreases SeqSize(body)
  {
    var queue: seq<SigType> := [];
    var containsVariants := false;
    for k := 0 to |types|
      invariant queue == types[..k]
    {
      queue := queue + [types[k]];
    }
    assert types[..|types|] == types;

    while queue != []
      invariant AnyHas(types, token) == AnyHas(queue, token)
      invariant AnyHas(types, 'v') == (containsVariants || AnyHas(queue, 'v'))
      decreases NodeCount(queue)
    {
      var st := queue[|queue| - 1];
      var rest := queue[..|queue| - 1];
      assert queue == rest + [st];
      AnyHasAppend(rest, [st], token);
      AnyHasAppend(rest, [st], 'v');
      assert AnyHas([st], token) == TreeHas(st, token) && AnyHas([st], 'v') == TreeHas(st, 'v') by {
        assert [st][0] == st;
      }
      NodeCountAppend(rest, [st]);
      NodeCountAppend(rest, st.children);
      if st.token == token {
        return true;
      } else if st.token == 'v' {
        containsVariants := true;
      }
      AnyHasAppend(rest, st.children, token);
      AnyHasAppend(rest, st.children, 'v');
      queue := rest + st.children;
    }

    if !containsVariants {
      return false;
    }

    var pending := body;
    while pending != []
      invariant AnyMemberContains(body, token) == AnyMemberContains(pending, token)
      invariant SeqSize(pending) <= SeqSize(body)
      decreases SeqSize(pending)
    {
      var member := pending[|pending| - 1];
      var rest := pending[..|pending| - 1];
      assert pending == rest + [member];
      AnyMemberContainsAppend(rest, [member], token);
      AnyMemberContainsSingleton(member, token);
      SeqSizeAppend(rest, [member]);
      SeqSizeSingleton(member);
      pending := rest;
      if member.Variant? {
        SeqSizeSingleton(member.value);
        var inner := SignatureContainsType([member.vtype], [member.value], token);
        if inner {
          return true;
        }
      } else if member.List? {
        AnyMemberContainsAppend(rest, member.items, token);
        SeqSizeAppend(rest, member.items);
        pending := rest + member.items;
      } else if member.Dict? {
        ValuesSize(member.entries);
        AnyMemberContainsAppend(rest, Values(member.entries), token);
        SeqSizeAppend(rest, Values(member.entries));
        pending := rest + Values(member.entries);
      }
    }
    return false;
  }
}
