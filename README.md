# struct32: compile-time packing of byte structs into 32-bit integers

This project models the core of the `struct32` Babel transform in Dafny, and
proves properties of that model.

The transform handles three things in a program:

- A declaration `S = struct32({a: int8, b: int8})` is checked and then
  removed.
- Every instance `x = S({a: 3, b: 5})` becomes `x = 1283`. The instance's
  values are OR-ed into one 32-bit integer, the value at position `i`
  shifted left by `8 * i`.
- Every field read `x.b` becomes `(x >> 8) & 255`.

The model has six modules:

- `Results` (results.dfy) holds `Option` and `Result`. It also holds
  `Traverse`, the fail-fast left-to-right loop that every phase uses: the
  first error ends the loop.
- `JsObject` (js_object.dfy) models the plain objects the code uses as
  dictionaries. An object is a list of entries:
  - `Object.keys` lists keys in the order they were first written;
  - writing an existing key keeps its position and takes the new value.
- `Int32` (int32.dfy) models JavaScript's `|`, `&`, `<<` and `>>` on
  integers:
  - operands go through ToInt32, and the result is a signed 32-bit value;
  - the shift count is taken modulo 32;
  - bitwise operations are defined one bit at a time.
- `Syntax` (syntax.dfy) holds the few tree shapes the transform looks at,
  opaque tree locations, uses seen through their parent and grandparent,
  and the errors. It also gives an evaluator for the expressions the
  transform emits.
- `Struct32` (struct32.dfy) models the four functions of `src/struct32.ts`:
  - the declaration parser and the instance parser, each filling an object
    in a loop;
  - the packer;
  - the member-offset calculator.

  Each is a method, proved equal to a specification function. The
  properties are lemmas about those functions.
- `Transform` (transform.dfy) models the `VariableDeclarator` visitor of
  `src/transform.ts`. It is a method with nested loops that returns the tree
  edits the visitor makes, in order, or the first error.
  - The scope's binding table is a parameter: a map from each bound name to
    its uses.
  - Each edit is a `Remove` or `Replace` at a tree location.

The headline property is `RoundTrip`, which `RewrittenReadYieldsField`
carries to the emitted code. Suppose an instance lists the declaration's
members in the declaration's order, there are at most four of them, and
each value is a byte. Then the rewritten read, evaluated on the packed
literal, gives back the value written for that field. The packer follows
the instance's key order, while the offsets follow the declaration's.
`InstanceOrderIsUsed` shows the two disagreeing, and `ExtraFieldAccepted`
shows that the declaration's member set is never consulted. The packer
neither follows the declaration's order nor checks ranges, and the model
follows the code (`InstanceOrderIsUsed`, `PackSpills`, `PackNegative`).

## Model

| member | source | states |
|---|---|---|
| Struct32.TypeNamed | src/struct32.ts:4-10 | only the name `int8` denotes an intrinsic type, and its width is 8 bits |
| Struct32.DeclMember | src/struct32.ts:45-61 | a declaration property is accepted exactly when it is `identifier: identifier` naming `int8`; the accepted pair is the key with an 8-bit type; any other shape fails with the statically-known-list message, and another type name with `Unknown type: <name>` |
| Struct32.InstanceValue | src/struct32.ts:116-128 | an instance property is accepted exactly when it is `identifier: numeric literal`, giving the key and the literal; a non-identifier key or a non-property fails with the statically-known-list message, and another value with `<node type> is not assignable to number` |
| Struct32.ParseDecl | src/struct32.ts:19-71 | the loop that fills `members` returns exactly the declaration, null or error that the specification function gives: the first failing property's error, or the object built by writing each key in turn |
| Struct32.ParseDeclErrors | src/struct32.ts:26-70 | null is returned exactly when the binding is not `identifier = struct32(...)`; a recognised declaration fails exactly when some property fails, and then with the first failing property's error at the declarator |
| Struct32.ParseDeclRejects | src/struct32.ts:32-40 | a recognised call without exactly one argument, or whose argument is not an object literal, fails with its message; every failure is raised at the declarator |
| Struct32.ParseDeclObject | src/struct32.ts:42-67 | a parsed declaration is named after the binding; its member keys are the property keys in order of first appearance, without repetition, and every member is 8 bits wide |
| Struct32.DeclMembersKeys | src/struct32.ts:42-62 | the members object built from checked properties is keyed by the property keys in first-appearance order, each once |
| Struct32.ParseInstance | src/struct32.ts:90-135 | the loop that fills `values` returns exactly the instance or error that the specification function gives |
| Struct32.ParseInstanceRejects | src/struct32.ts:94-110 | the four shape checks, in order, with their messages: the first two errors are raised at the declarator, the last two at the call; every error is raised at one of the two |
| Struct32.ParseInstanceErrors | src/struct32.ts:115-129 | a well-shaped instance fails exactly when some property is not `identifier: numeric literal`, and then with the first failing property's error at the call |
| Struct32.ParseInstanceObject | src/struct32.ts:113-134 | a parsed instance is named after the declarator; its keys are the property keys in first-appearance order, without repetition; each key holds the last literal written to it |
| Struct32.InstanceValuesKeys | src/struct32.ts:113-129 | the values object built from checked properties has the first-appearance keys, each once, each holding its last written value |
| Struct32.ValuesToNumeric | src/struct32.ts:75-83 | the `forEach` over `Object.keys` computes the OR of each value shifted left by `8 * i` in key order; the result is a signed 32-bit integer |
| Struct32.PackIsWeighted | src/struct32.ts:78-79 | with at most four byte values, the packed integer is the base-256 number whose digits, lowest first, are the values in the instance's key order, seen as signed 32 bits |
| Struct32.PackExample | src/struct32.ts:75-83 | `{a: 3, b: 5}` packs to 1283, and the empty object to 0 |
| Struct32.PackNegative | src/struct32.ts:79 | a fourth byte of 128 or more makes the packed value negative |
| Struct32.PackSpills | src/struct32.ts:79 | there is no range check: a first value `v` of 256 or more shows up in the second field, which reads back as bits 8-15 of `v` and is not 0 when `256 <= v < 65536` |
| Struct32.ReadPackedField | src/struct32.ts:79 | `(packed >> 8k) & 255` with JavaScript semantics recovers the value at position `k`, for up to four byte values |
| Struct32.ParseMemberOffset | src/struct32.ts:142-172 | the loop that sums the widths before the accessed member, stopping there, returns exactly the offset or error of the specification function |
| Struct32.MemberOffsetIsPosition | src/struct32.ts:146-171 | an access has an offset exactly when its property is an identifier naming a member; the mask is then 255 and the shift is 8 times the member's position in declaration order; a non-identifier property fails with "Invalid struct member access", and an unknown name with a message naming both the member and the struct |
| Struct32.WidthsOfBytes | src/struct32.ts:157-166 | the widths of `n` 8-bit members sum to `8 * n` |
| Struct32.RoundTrip | src/struct32.ts:157-169 | when the instance lists the declaration's members in its order, at most four, each a byte, `(packed >> shift) & mask` for any member equals the value written for it |
| Struct32.InstanceOrderIsUsed | src/struct32.ts:78-79 | packing follows the instance's key order: with declaration `{a, b}` and instance `{b: 5, a: 3}`, reading `x.a` yields 5 |
| Int32.OrNatBit | src/struct32.ts:79 | each bit of `x \| y` is set exactly when it is set in either operand |
| Int32.AndNatBit | src/transform.ts:52-59 | each bit of `x & y` is set exactly when it is set in both operands |
| Int32.ShiftLeftBit | src/struct32.ts:79 | bit by bit on 32-bit patterns, `x << n` moves bit `i - count` of `x` to bit `i` and clears the low `count` bits, the count being `n` modulo 32 |
| Int32.ShiftRightBit | src/transform.ts:55-58 | bit by bit on 32-bit patterns, `x >> n` moves bit `i + count` of `x` to bit `i`, and fills the top `count` bits with copies of the sign bit 31 |
| Int32.LowByte | src/transform.ts:52-59 | `q & 255` is `q` modulo 256, whatever the sign of `q` |
| JsObject.Put | src/struct32.ts:61 | `d[k] = v`: `k` then holds `v`, no other key changes, and the key list grows only when `k` is new |
| JsObject.FromPairsSpec | src/struct32.ts:113-129 | an object written pair by pair has the written keys in first-appearance order, without repetition, each holding the last value written to it |
| Transform.VisitDeclarator | src/transform.ts:13-66 | the visitor's edits, or its first error, are exactly those the specification function gives: nothing for an ordinary binding, else the removal of the declaration followed by each reference's edits |
| Transform.VisitReferences | src/transform.ts:22-66 | the outer loop fails with the first failing reference's error, else performs every reference's edits in order |
| Transform.VisitReference | src/transform.ts:23-65 | one reference: parse the instance, replace its declarator by the packed literal, then rewrite its uses, stopping at the first error |
| Transform.RewriteUses | src/transform.ts:33-65 | the inner loop rewrites the uses in order, stopping at the first that cannot be rewritten |
| Transform.OrdinaryBindingUnchanged | src/transform.ts:14-16 | the visit makes no edit exactly when the binding is not a struct declaration; a struct declaration is either rejected or removed |
| Transform.TransformShape | src/transform.ts:18-22 | a successful visit first removes the declaration, then performs each reference's edits in reference order, each reference's edits together |
| Transform.InstanceEditsShape | src/transform.ts:22-31 | a reference's edits begin with its declarator replaced by `name = <packed values>`, whatever the declaration's members, followed by one edit per use of the instance, in order |
| Transform.ExtraFieldAccepted | src/transform.ts:23-31 | the declaration is not consulted when packing: `x = S({a: 3, z: 5})` becomes `x = 1283` whatever `S` declares |
| Transform.UseEditSucceeds | src/transform.ts:39-64 | a use is rewritten exactly when its parent is a member access naming a member; otherwise the error is raised at the parent, as "Unknown struct reference" for a non-member parent, and with the offset error's own message otherwise |
| Transform.EvalAccess | src/transform.ts:51-61 | the emitted `(x >> shift) & mask` evaluates to the JavaScript shift and mask of `x`'s value |
| Transform.RewrittenReadYieldsField | src/transform.ts:45-61 | end to end: the rewritten read, evaluated with the instance bound to its packed literal, yields the value written for the field |
| Transform.TransformStopsAtFirstError | src/transform.ts:22-23 | when reference `i` is the first to fail, the visit fails with its error, whatever follows |
| Transform.InstanceStopsAtFirstError | src/transform.ts:36-43 | when use `j` is the first that cannot be rewritten, the reference fails with that use's error |

## Left out

- Babel itself is not modelled: `NodePath`, scopes, `referencePaths`, `remove`/`replaceWith` and code-frame source positions. A tree place is an opaque `Loc`, mutations are an ordered edit list, and a thrown error is a `Failure` value.
- Every step of the visit reads the tree as it was before the visit: uses, parents and grandparents come from one snapshot, and the edits are only recorded. The source changes the tree in place (src/transform.ts:26 and 51), so a later step sees nodes that an earlier one rewrote. The model therefore differs on such inputs. In `const p = S({a: 1}); const q = S({a: p.a});` the source has already rewritten `p.a` when it parses `q`, and reports "BinaryExpression is not assignable to number"; the model reports "MemberExpression is not assignable to number". When two instances share one binding (`var x = S({a: 1}); var x = S({a: 2}); x.a`), the source's second pass finds the use already rewritten and fails with "Unknown struct reference"; the model rewrites the same place twice and succeeds.
- The edits already made when an error is thrown are not returned: a failure is the error alone.
- A name with no entry in `scope.bindings` makes the source throw a `TypeError`; the model returns `MissingBinding(name)`.
- One reference index stands for the per-scope binding tables: the instance's scope and the declaration's scope are assumed to agree. A name also stands for a single binding: two instances named `x` in different functions share the use list `index["x"]`, where the source looks each up in its own scope (src/transform.ts:33-34).
- Numbers are integers: non-integer literals and IEEE-754 arithmetic are not modelled. Negative literals cannot occur, because `-3` is a unary expression and fails the `NumericLiteral` check.
- Keys of `Object.prototype`, such as `toString` or `__proto__`, are not modelled. They would be found by `struct.members[...]` lookups.
- The traversal that calls the visitor on every declarator, the plugin object around it, and the test runner's file I/O are not part of this model.
- Struct32.ParseMemberOffset: requires the declaration's keys to be distinct. Every declaration the parser builds has that property (`ParsedDeclDistinct`), because an object cannot hold a key twice.
- Struct32.ValuesToNumeric: requires distinct keys, which every parsed instance has (`ParsedInstanceDistinct`).
- Transform.RewriteUses: requires distinct declaration keys, for the same reason as ParseMemberOffset. So do Transform.VisitReference and Transform.VisitReferences.
- Struct32.PackSpills: the spill into the next field is proved for the first field of a two-field instance only, not for every position.
- Struct32.RoundTrip: proved for up to four fields. From the fifth field on, the shift count wraps modulo 32, so the fifth value is ORed into the first field's bits; `Pack` models this, but no lemma describes it.
