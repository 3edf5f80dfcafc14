/** D-Bus type signatures as parsed trees.

    A parsed signature is a sequence of complete types; each node has a type
    token (a basic-type character, or one of the container markers `a`, `(`,
    `{`, `v`) and its ordered children. The signature string a node covers is
    computed from the tree, the way the parser assembles it. */
module DBusSignature {

  datatype SigType = SigType(token: char, children: seq<SigType>)

  /** The basic (non-container) type codes of the D-Bus type system. */
  const BasicTokens: string := "ybnqiuxtdsogh"

  predicate IsBasic(c: char) {
    c in BasicTokens
  }

  /** The substring of the signature that node `t` covers. */
  function Signature(t: SigType): (s: string)
    ensures |s| >= 1 && s[0] == t.token
  {
    if t.token == 'a' then "a" + Concat(t.children)
    else if t.token == '(' then "(" + Concat(t.children) + ")"
    else if t.token == '{' then "{" + Concat(t.children) + "}"
    else [t.token]
  }

  function Concat(ts: seq<SigType>): string {
    if ts == [] then "" else Signature(ts[0]) + Concat(ts[1..])
  }

  /** A complete single type: a basic type, a variant, an array (of a single
      complete type or of a dict entry) or a non-empty struct. */
  predicate WellFormed(t: SigType) {
    if IsBasic(t.token) || t.token == 'v' then t.children == []
    else if t.token == 'a' then
      |t.children| == 1 && (WellFormed(t.children[0]) || WellFormedEntry(t.children[0]))
    else if t.token == '(' then
      |t.children| >= 1 && forall i | 0 <= i < |t.children| :: WellFormed(t.children[i])
    else false
  }

  /** A dict entry: exactly two children, the key a basic type. It only ever
      occurs as the element type of an array. */
  predicate WellFormedEntry(e: SigType) {
    e.token == '{' && |e.children| == 2 &&
    IsBasic(e.children[0].token) && e.children[0].children == [] &&
    WellFormed(e.children[1])
  }

  predicate AllWellFormed(ts: seq<SigType>) {
    forall i | 0 <= i < |ts| :: WellFormed(ts[i])
  }

  /** Some node of the tree rooted at `t` has token `c`. */
  predicate TreeHas(t: SigType, c: char) {
    t.token == c || AnyHas(t.children, c)
  }

  /** Some node of one of the trees `ts` has token `c`. */
  predicate AnyHas(ts: seq<SigType>, c: char) {
    exists i | 0 <= i < |ts| :: TreeHas(ts[i], c)
  }

  lemma AnyHasAppend(a: seq<SigType>, b: seq<SigType>, c: char)
    ensures AnyHas(a + b, c) <==> AnyHas(a, c) || AnyHas(b, c)
  {
    if AnyHas(a + b, c) {
      var i :| 0 <= i < |a + b| && TreeHas((a + b)[i], c);
      if i >= |a| {
        assert b[i - |a|] == (a + b)[i];
      }
    }
    if AnyHas(a, c) {
      var i :| 0 <= i < |a| && TreeHas(a[i], c);
      assert (a + b)[i] == a[i];
    }
    if AnyHas(b, c) {
      var i :| 0 <= i < |b| && TreeHas(b[i], c);
      assert (a + b)[|a| + i] == b[i];
    }
  }

  /** Number of nodes in the trees `ts`; the worklist scan removes one per step. */
  function NodeCount(ts: seq<SigType>): nat {
    if ts == [] then 0 else 1 + NodeCount(ts[0].children) + NodeCount(ts[1..])
  }

  lemma NodeCountAppend(a: seq<SigType>, b: seq<SigType>)
    ensures NodeCount(a + b) == NodeCount(a) + NodeCount(b)
  {
    if a != [] {
      assert (a + b)[0] == a[0];
      assert (a + b)[1..] == a[1..] + b;
      NodeCountAppend(a[1..], b);
    } else {
      assert a + b == b;
    }
  }

  /** A basic-type code or `v` occurs in a node's signature string exactly
      when some node below it carries that token; this is what lets the
      walk in util.py test `'h' in st.signature` instead of descending. */
  lemma {:induction false} TokenInSignature(t: SigType, c: char)
    requires WellFormed(t) || WellFormedEntry(t)
    requires IsBasic(c) || c == 'v'
    ensures c in Signature(t) <==> TreeHas(t, c)
  {
    if t.token == 'a' {
      TokenInConcat(t.children, c);
      assert c in "a" + Concat(t.children) <==> c in Concat(t.children);
    } else if t.token == '(' {
      TokenInConcat(t.children, c);
      assert c in "(" + Concat(t.children) + ")" <==> c in Concat(t.children);
    } else if t.token == '{' {
      TokenInConcat(t.children, c);
      assert c in "{" + Concat(t.children) + "}" <==> c in Concat(t.children);
    } else {
      assert t.children == [];
      assert !AnyHas(t.children, c);
    }
  }

  lemma {:induction false} TokenInConcat(ts: seq<SigType>, c: char)
    requires forall i | 0 <= i < |ts| :: WellFormed(ts[i]) || WellFormedEntry(ts[i])
    requires IsBasic(c) || c == 'v'
    ensures c in Concat(ts) <==> AnyHas(ts, c)
  {
    if ts != [] {
      TokenInSignature(ts[0], c);
      TokenInConcat(ts[1..], c);
      assert ts == [ts[0]] + ts[1..];
      AnyHasAppend([ts[0]], ts[1..], c);
      assert AnyHas([ts[0]], c) <==> TreeHas(ts[0], c) by {
        assert [ts[0]][0] == ts[0];
      }
    }
  }
}
