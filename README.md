# Descriptor indirection of asyncdbus, in Dafny

asyncdbus is an asyncio D-Bus client. In D-Bus the body of a message stores
a `UNIX_FD` field (type code `h`) as an index into an out-of-band array of
file descriptors sent alongside the message. asyncdbus lets application code
put the descriptor itself in such a field, and `asyncdbus/_private/util.py`
converts between the two forms:

- `signature_contains_type` decides whether a signature, read against a
  body, holds a field of a given type. It scans the signature tree and, if
  it met a variant, scans the body's variants as well.
- `replace_fds_with_idx` builds a de-duplicated descriptor table and puts
  each descriptor's index in its field.
- `replace_idx_with_fds` puts back the descriptor each index names, or
  `None` for an index outside the table.
- `_replace_fds` is the shared walk. It follows the signature tree through
  arrays, structs, dict entries and variants, and applies a replace
  function at each descriptor slot.

The project has eight files:

- `signature.dfy` (module `DBusSignature`) holds parsed signature trees.
  Each node is a type token with its children. A node's signature string is
  computed from the tree.
- `value.dfy` (module `DBusValue`) holds body values:
  - integers and strings;
  - Python lists, which serve as both arrays and structs;
  - insertion-ordered dicts, kept as association lists;
  - `Variant`s;
  - `Null` for Python's `None`.

  It also defines the typing relation between a tree and a value.
- `contains.dfy` (module `Containment`) holds `signature_contains_type`.
  It is written as the source's two worklist loops. It is proved equal to
  a recursive reference definition, `Contains`.
- `fds.dfy` (module `FdIndirection`) holds the walk and both directions:
  - The pure functions `FieldsUpTo`, `Field`, `ArrayUpTo`, `DictUpTo`,
    `DictStep` and `DictValue` specify the walk. Each loop of the source is
    specified by a function that gives the loop's state after its first
    `k` iterations.
  - The methods `ReplaceFds`, `ReplaceField`, `ReplaceInArray`,
    `ReplaceInDict` and `ReplaceDictEntry` run the same loops with state
    variables. Each is proved to compute its function.
  - The descriptor table is threaded through the walk as state. A Python
    exception becomes an `Err`.
- `fds_proofs.dfy` (module `FdIndirectionProofs`) proves:
  - neither direction fails on well-typed bodies;
  - the encoding table is exactly "each descriptor appended the first time
    the walk meets it";
  - the dict loop keeps keys and their order when keys are not descriptors.
- `roundtrip.dfy` (module `FdRoundTrip`) proves that decoding the encoded
  body with the returned table restores the body, when no dict key is a
  descriptor. It also proves that every encoded descriptor slot holds that
  descriptor's index in the table.
- `decode.dfy` (module `FdDecode`) proves what decoding makes of any body,
  not only of one that encoding produced. Each descriptor slot is resolved
  against the table on its own, and the table is left unchanged.
- `scenarios.dfy` (module `FdScenarios`) gives worked inputs. One of them
  shows a dict with descriptor keys losing an entry.

## Model

| member | source | states |
|---|---|---|
| DBusSignature.TokenInSignature | asyncdbus/_private/util.py:108 | For a basic type code or `v`, the code occurs in a node's signature string exactly when some node of its subtree carries it. This justifies the walk's `'h' in st.signature` test. |
| DBusValue.KeyIndex | asyncdbus/_private/util.py:125-132 | The position of a key in an insertion-ordered dict, as `pop` and `d[key] = value` look it up. It is -1 exactly when no entry has the key. Otherwise it is the first entry with the key. |
| DBusValue.RemovePops | asyncdbus/_private/util.py:125 | `d.pop(key)`: the result holds exactly the entries under other keys. A dict without the key is left as it is. In a dict with distinct keys only the key's entry goes, and the others keep their order. Distinct keys stay distinct. |
| DBusValue.StoreAssigns | asyncdbus/_private/util.py:132 | `d[key] = value`: afterwards the key is present with the new value. Every entry under another key keeps its position. The dict grows by one exactly when the key was absent. Distinct keys stay distinct. |
| DBusValue.RemoveFirst | asyncdbus/_private/util.py:124-125 | Popping the first key of a dict whose other keys differ from it leaves the rest in order. |
| Containment.Contains | asyncdbus/_private/util.py:5-47 | Reference definition of `signature_contains_type`: true when some signature node has the token, or when some node is `v` and the variant phase finds the token in the body. It has no contract of its own; `SignatureContainsType` is proved to compute it. |
| Containment.AnyMemberContains | asyncdbus/_private/util.py:37-47 | Reference definition of the variant phase over a queue: some member answers yes. `AnyMemberContainsAppend` states its properties. |
| Containment.MemberContains | asyncdbus/_private/util.py:40-47 | Reference definition of the verdict on one popped member. A Variant is judged by its own signature against `[value]`. A list is judged by its elements and a dict by its values, never its keys. Anything else holds nothing. |
| Containment.SignatureContainsType | asyncdbus/_private/util.py:5-47 | The two worklist loops answer `Contains`. The answer is true whenever some signature node has the token. It is false, without looking at the body, when no node has the token or `v`. Otherwise it is decided by the Variants reached through list elements and dict values, never dict keys, each judged against its own signature and `[value]`. |
| Containment.AnyMemberContainsAppend | asyncdbus/_private/util.py:37-47 | The variant phase's verdict on a queue is the disjunction over its parts, so the order the queue is popped in does not matter. |
| FdIndirection.IndexOf | asyncdbus/_private/util.py:68 | `list.index`: this is the first position holding the descriptor, or -1 (ValueError) exactly when the descriptor is absent. |
| FdIndirection.Leaf | asyncdbus/_private/util.py:66-95 | The replace function of each direction. Encode (lines 66-71): an absent descriptor is appended and gets index `len - 1`; a present one keeps its first index and the table is unchanged; in both cases `table[i]` is the descriptor. Decode (lines 91-95): an in-range index gives `table[idx]`, a negative index down to `-len` counts from the end, and any other index gives `Null`, with no error; the result is `Ok` exactly when the slot holds an integer, and the table is not changed. |
| FdIndirection.FieldsUpTo | asyncdbus/_private/util.py:107-111 | The field loop keeps the list's length. It leaves unchanged every field whose signature contains neither `h` nor `v`, and every field not yet visited. |
| FdIndirection.ArrayUpTo | asyncdbus/_private/util.py:116-120 | The element loop keeps the array's length and leaves the elements not yet visited unchanged. |
| FdIndirection.Field | asyncdbus/_private/util.py:110-141 | Reference definition of one field that is not skipped. The branches are tried in the source's order. An `h` slot is replaced. An array of dict entries goes through the dict loop, any other array through the element loop, and a struct through the field loop. A variant is walked by its own signature. Another container is walked by its children, and anything else is left alone. A body of the wrong shape gives an `Err`. It has no contract of its own: `FieldOk`, `FieldTable`, `FieldRoundTrip` and `FieldDecoded` state its properties. |
| FdIndirection.DictUpTo | asyncdbus/_private/util.py:124-132 | Reference definition of the dict loop after `k` entries of the snapshot `list(d.items())`. The first failing iteration's error is the loop's error. `DictOk`, `DictTable`, `DictKeysVisited`, `DictRoundTrip` and `DictDecoded` state its properties. |
| FdIndirection.DictStep | asyncdbus/_private/util.py:125-132 | Reference definition of one dict iteration. The entry is popped, and its key is replaced when the key type is `h`. The value is replaced or walked, and the pair is stored back. |
| FdIndirection.DictValue | asyncdbus/_private/util.py:128-131 | Reference definition of the value half of a dict iteration. An `h` value is replaced; any other value is walked as the one field of `[value]`. |
| FdIndirection.ToIndexed | asyncdbus/_private/util.py:50-75 | `replace_fds_with_idx`: the encoded body keeps the body's length. When the `h` check fails, the body comes back with an empty table. `EncodeOk`, `EncodeTable`, `EncodedSlots` and `RoundTrip` state the rest. |
| FdIndirection.FromIndexed | asyncdbus/_private/util.py:78-99 | `replace_idx_with_fds`: the decoded body keeps the body's length. When the `h` check fails, the body comes back as it is. `DecodeOk`, `DecodedSlots` and `RoundTrip` state the rest. |
| FdIndirection.ReplaceFds | asyncdbus/_private/util.py:102-141 | The imperative field loop computes `FieldsUpTo` over all fields, including its errors. |
| FdIndirection.ReplaceField | asyncdbus/_private/util.py:108-141 | The branches for one field are tried in the source's order and compute `Field`. |
| FdIndirection.ReplaceInArray | asyncdbus/_private/util.py:116-120 | The imperative element loop computes `Field` on the array. |
| FdIndirection.ReplaceInDict | asyncdbus/_private/util.py:113-114 | The dict case of an array node, run imperatively over the snapshot `list(d.items())`, computes `Field` on the dict. |
| FdIndirection.ReplaceDictEntry | asyncdbus/_private/util.py:125-132 | One pop / replace key / replace value / re-insert iteration computes `DictStep`. |
| FdIndirection.ReplaceFdsWithIdx | asyncdbus/_private/util.py:50-75 | It computes `ToIndexed`. When the `h` check fails, the body comes back unchanged with an empty table. |
| FdIndirection.ReplaceIdxWithFds | asyncdbus/_private/util.py:78-99 | It computes `FromIndexed`. When the `h` check fails, the body comes back unchanged. |
| FdIndirectionProofs.ArrayOfFds | asyncdbus/_private/util.py:117 | An array node's signature is `ah` exactly when its element type is `h`. |
| FdIndirectionProofs.EncodeOk | asyncdbus/_private/util.py:50-75 | Encoding never fails on a body that matches its signature. |
| FdIndirectionProofs.DecodeOk | asyncdbus/_private/util.py:91-97 | Decoding never fails on a body that matches its signature, whatever the table, because an out-of-range index becomes `Null`. |
| FdIndirectionProofs.FieldOk | asyncdbus/_private/util.py:108-141 | The branches for one well-typed field never fail, in either direction. |
| FdIndirectionProofs.AddNewGrows | asyncdbus/_private/util.py:66-71 | Meeting descriptors one by one only appends to the table. It never creates a duplicate, and the table ends up holding exactly the old entries and the descriptors met. |
| FdIndirectionProofs.AddNewAppend | asyncdbus/_private/util.py:66-71 | Meeting `a` and then `b` gives the same table as meeting `a + b`. |
| FdIndirectionProofs.FieldTable | asyncdbus/_private/util.py:108-141 | The table after encoding one field is the table met in order with the field's descriptor slots. |
| FdIndirectionProofs.FieldsTable | asyncdbus/_private/util.py:107-111 | The same holds for the field loop. |
| FdIndirectionProofs.ArrayTable | asyncdbus/_private/util.py:116-120 | The same holds for the element loop. |
| FdIndirectionProofs.DictTable | asyncdbus/_private/util.py:124-132 | The same holds for the dict loop, where a descriptor key comes before its value. |
| FdIndirectionProofs.EncodeTable | asyncdbus/_private/util.py:64-73 | The returned table has no duplicates. When the `h` check passes, the table lists the body's descriptors in first-seen order, each once. |
| FdIndirectionProofs.DictKeysVisited | asyncdbus/_private/util.py:124-132 | With keys that are not descriptors, after `k` iterations of the dict loop (either direction) the unvisited entries come first and unchanged, followed by the visited ones in snapshot order under their own keys. |
| FdIndirectionProofs.DictKeepsKeys | asyncdbus/_private/util.py:124-132 | With keys that are not descriptors, both directions keep the dict's length, its keys and their order. Only values change. |
| FdRoundTrip.FieldRoundTrip | asyncdbus/_private/util.py:108-141 | One encoded field decodes back with any table that extends the one encoding ended with. The variant phase judges the encoded field and the original field alike. Each descriptor slot of the encoded field holds the index of the original descriptor in that table. |
| FdRoundTrip.FieldsRoundTrip | asyncdbus/_private/util.py:107-111 | The same holds for the field loop. |
| FdRoundTrip.ArrayRoundTrip | asyncdbus/_private/util.py:116-120 | The same holds for the element loop. |
| FdRoundTrip.DictRoundTrip | asyncdbus/_private/util.py:124-132 | Encoding keeps the keys and their order. It gives values that decode back and that hold the descriptors' indices in their slots. |
| FdRoundTrip.DictDecode | asyncdbus/_private/util.py:124-132 | Decoding a dict whose values decode to the original values gives back the original dict. |
| FdRoundTrip.RoundTrip | asyncdbus/_private/util.py:50-99 | For a body that matches its signature and has no descriptor-typed dict key, encoding succeeds. Decoding its result with its table gives the body back. |
| FdRoundTrip.EncodedSlots | asyncdbus/_private/util.py:64-75 | Take a body that matches its signature, has no descriptor-typed dict key, and passes the `h` check. Each descriptor slot of the encoded body holds an index `i` below the table's length, and the table holds the original descriptor at `i`. Two slots holding the same descriptor get the same index. |
| FdDecode.FieldDecoded | asyncdbus/_private/util.py:110-141 | Decoding one field of any well-typed value succeeds and leaves the table unchanged. Each of its descriptor slots becomes what `_replace` makes of the index the slot held. |
| FdDecode.FieldsDecoded | asyncdbus/_private/util.py:107-111 | The same holds for the field loop after `k` fields. |
| FdDecode.ArrayDecoded | asyncdbus/_private/util.py:116-120 | The same holds for the element loop after `k` elements. |
| FdDecode.DictDecoded | asyncdbus/_private/util.py:124-132 | With keys that are not descriptors, the dict loop after `k` entries keeps the unvisited entries first and unchanged. The visited ones follow in snapshot order, under their own keys, with decoded values. |
| FdDecode.DecodedSlots | asyncdbus/_private/util.py:78-99 | Take any body that matches its signature, has no descriptor-typed dict key, and passes the `h` check. Decoding succeeds, and the decoded body has one slot for each descriptor slot of the body. A slot that held `i` now holds `table[i]` when `0 <= i < len(table)`, and `table[len(table) + i]` for a negative `i` down to `-len(table)`. Any other index gives `None`. |
| FdScenarios.ArrayOfFdsEncoding | asyncdbus/_private/util.py:116-118 | `ah` holding 7, 9, 7 encodes to 0, 1, 0 with table [7, 9]. |
| FdScenarios.RepeatedFdEncoding | asyncdbus/_private/util.py:66-71 | Two `h` fields holding 5 both get index 0, and the table is [5]. |
| FdScenarios.VariantFdEncoding | asyncdbus/_private/util.py:134-136 | A variant of signature `h` is found by the variant phase, and its value is replaced. |
| FdScenarios.NoFdFastPath | asyncdbus/_private/util.py:61-62 | A body without descriptors comes back as it is, with an empty table, in both directions. |
| FdScenarios.DecodeIndexBounds | asyncdbus/_private/util.py:91-95 | Index 3 in a one-entry table decodes to `None`. Index -1 decodes to the last entry. |
| FdScenarios.FdKeysEncoding | asyncdbus/_private/util.py:124-132 | In `a{hs}`, the dict {5: "x", 0: "y"} encodes to {1: "y"} with table [5, 0]. The new key 0 overwrites the entry still waiting under key 0. |
| FdScenarios.FdKeysDecoding | asyncdbus/_private/util.py:124-132 | {1: "y"} decodes to {0: "y"} with that table. |
| FdScenarios.FdKeysBreakRoundTrip | asyncdbus/_private/util.py:124-132 | So the round trip does not hold once dict keys are descriptors. |

## Left out

- The signature tree is taken as already parsed.
  - `SignatureTree`, `SignatureType` and `Variant` come from `asyncdbus/signature.py`, which is not part of this model. That includes the parser, its `_get` cache, and signature validation.
  - The coercion of a signature given as a string or as an object with a `tree` (util.py:9-14, 56-59) is left out.
  - A variant carries its parsed type, and its signature string is computed from it.
- Values are a closed datatype. Python's duck typing is out of scope:
  - a body that has the wrong shape for its signature gives an `Err` in the model, even where Python would happen to accept it (such as a dict with integer keys in a struct slot);
  - floating-point, boolean and byte-string values are not modelled.
- In-place mutation and aliasing are modelled on values. The walk returns the new value instead of updating the objects it reaches. Two consequences:
  - The behaviour is the same because each wrapper list `[child]`, `[value]` or `[variant.value]` that the source builds holds an object the walk mutates in place, never a slot it replaces. Slots are replaced only at `h` nodes, and those are caught before a wrapper is built (util.py:117-118, 128-129, 135-136).
  - A body in which the same list or `Variant` object occurs twice, so that one replacement is seen through both occurrences, is not modelled.
- Exceptions are collapsed into three `Err` kinds:
  - a shape mismatch (IndexError, AttributeError or TypeError on the body);
  - a malformed tree (IndexError on `children[0]`);
  - a non-integer index on decode (TypeError).

  Which Python exception is raised is not distinguished.
- DecodedSlots, like EncodedSlots, is stated only for bodies that pass the `h` check and whose dict keys are not descriptors. On the other path the body comes back unchanged (util.py:88-89), and the model does not prove that such a body has no descriptor slots.
- EncodedSlots is stated only for bodies that pass the `h` check. On the other path the source returns the body unchanged with an empty table (util.py:61-62), and the model does not prove that such a body has no descriptor slots.
- EncodedSlots, like RoundTrip, is stated only for bodies whose dict keys are not descriptors, for the reason given in the next item.
- RoundTrip is stated only for bodies whose dict keys are not descriptors. With descriptor keys the pop/re-insert loop (util.py:124-132) can overwrite an entry that has not been visited yet. `FdScenarios.FdKeysBreakRoundTrip` shows a body where this loses an entry.
- The connection lifecycle, the call-correlation machinery and the end-to-end tests are not modelled. They are I/O and concurrency over live bus connections.
