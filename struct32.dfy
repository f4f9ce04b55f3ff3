/** The struct32 analyses of src/struct32.ts: recognising and validating a
    declaration `S = struct32({a: int8, b: int8})`, reading an instance
    `x = S({a: 3, b: 5})`, packing an instance's values into one 32-bit
    integer, and computing the (mask, shift) with which a field read `x.b`
    is rewritten to `(x >> shift) & mask`. */
module Struct32 {
  import opened Results
  import opened JsObject
  import opened Int32
  import opened Syntax

  /** The name of the declaration marker. */
  const STRUCT_32_DECL: string := "struct32"

  /** The intrinsic field types; today only `int8`. */
  datatype IntrinsicType = Int8

  /** `TYPE_SIZE`: the width in bits of each intrinsic type. */
  function TypeSize(t: IntrinsicType): nat
  {
    match t
    case Int8 => 8
  }

  /** The intrinsic type a type name denotes, if any. */
  function TypeNamed(name: string): (r: Option<IntrinsicType>)
    ensures r.Some? <==> name == "int8"
    ensures r.Some? ==> TypeSize(r.value) == 8
  {
    if name == "int8" then Some(Int8) else None
  }

  /** A struct declaration: its name and its members in key order. */
  datatype Decl = Decl(name: string, members: Entries<IntrinsicType>)

  /** An instance: the variable it is bound to and the values written. */
  datatype Instance = Instance(name: string, values: Entries<int>)

  /** Where a member lives in the packed integer. */
  datatype Offset = Offset(mask: int, shift: int)

  /** The key name of an `identifier: …` property ("" for any other shape). */
  function PropertyKey(p: Property): string
  {
    if p.ObjectProperty? && p.key.Identifier? then p.key.name else ""
  }

  function PropertyKeys(props: seq<Property>): seq<string>
  {
    seq(|props|, i requires 0 <= i < |props| => PropertyKey(props[i]))
  }

  // ---------------------------------------------------------------------
  // struct32_parse_decl

  /** The binding is `identifier = struct32(…)`. */
  predicate IsStructDeclaration(d: Node)
    requires d.VariableDeclarator?
  {
    && d.id.Identifier?
    && d.init.Some?
    && d.init.value.CallExpression?
    && d.init.value.callee.Identifier?
    && d.init.value.callee.name == STRUCT_32_DECL
  }

  /** One property of a declaration, `key: type`, checked: it must be an
      identifier naming an identifier, and the type must be `int8`. */
  function DeclMember(p: Property): (r: Result<(string, IntrinsicType), string>)
    ensures r.Success? <==>
              p.ObjectProperty? && p.key.Identifier? && p.value.Identifier? && p.value.name == "int8"
    ensures r.Success? ==> r.value.0 == p.key.name && TypeSize(r.value.1) == 8
    ensures !(p.ObjectProperty? && p.key.Identifier? && p.value.Identifier?) ==>
              r == Failure("struct32 can only be declared with a statically known list of properties")
    ensures p.ObjectProperty? && p.key.Identifier? && p.value.Identifier? && p.value.name != "int8" ==>
              r == Failure("Unknown type: " + p.value.name)
  {
    if !p.ObjectProperty? || !p.key.Identifier? || !p.value.Identifier? then
      Failure("struct32 can only be declared with a statically known list of properties")
    else
      match TypeNamed(p.value.name)
      case None => Failure("Unknown type: " + p.value.name)
      case Some(t) => Success((p.key.name, t))
  }

  /** What `struct32_parse_decl` returns for the declarator at `path`:
      `None` for an ordinary binding, the declaration, or the error it throws. */
  function ParseDeclSpec(path: Path): Result<Option<Decl>, Error>
    requires path.node.VariableDeclarator?
  {
    var d := path.node;
    if !IsStructDeclaration(d) then Success(None)
    else
      var args := d.init.value.arguments;
      if |args| != 1 then Failure(CodeFrameError(path.loc, "struct32 expects 1 argument"))
      else if !args[0].ObjectExpression? then Failure(CodeFrameError(path.loc, "struct32 expects an object"))
      else
        match Traverse(DeclMember, args[0].properties)
        case Failure(msg) => Failure(CodeFrameError(path.loc, msg))
        case Success(pairs) => Success(Some(Decl(d.id.name, FromPairs(pairs))))
  }

  /** `struct32_parse_decl`: fills the members object one property at a time. */
  method ParseDecl(path: Path) returns (r: Result<Option<Decl>, Error>)
    requires path.node.VariableDeclarator?
    ensures r == ParseDeclSpec(path)
  {
    var id, init := path.node.id, path.node.init;
    if !(id.Identifier? && init.Some? && init.value.CallExpression?
         && init.value.callee.Identifier? && init.value.callee.name == STRUCT_32_DECL) {
      return Success(None);
    }
    if |init.value.arguments| != 1 {
      return Failure(CodeFrameError(path.loc, "struct32 expects 1 argument"));
    }
    var argument := init.value.arguments[0];
    if !argument.ObjectExpression? {
      return Failure(CodeFrameError(path.loc, "struct32 expects an object"));
    }
    var props := argument.properties;
    var members: Entries<IntrinsicType> := [];
    ghost var pairs: seq<(string, IntrinsicType)> := [];
    var i := 0;
    while i < |props|
      invariant i <= |props|
      invariant Traverse(DeclMember, props[..i]) == Success(pairs)
      invariant members == FromPairs(pairs)
    {
      var prop := props[i];
      if !prop.ObjectProperty? || !prop.key.Identifier? || !prop.value.Identifier? {
        TraverseStopsAt(DeclMember, props, i);
        return Failure(CodeFrameError(path.loc,
          "struct32 can only be declared with a statically known list of properties"));
      }
      var key, value := prop.key.name, prop.value.name;
      if value != "int8" {
        TraverseStopsAt(DeclMember, props, i);
        return Failure(CodeFrameError(path.loc, "Unknown type: " + value));
      }
      members := Put(members, key, Int8);
      assert DeclMember(prop) == Success((key, Int8));
      TraverseSnoc(DeclMember, props, i);
      pairs := pairs + [(key, Int8)];
      i := i + 1;
    }
    assert props[..i] == props;
    return Success(Some(Decl(id.name, members)));
  }

  /** The members object built from checked properties is keyed by the
      property keys in order of first appearance, each once. */
  lemma DeclMembersKeys(props: seq<Property>)
    requires Traverse(DeclMember, props).Success?
    ensures var members := FromPairs(Traverse(DeclMember, props).value);
      Keys(members) == FirstAppearance(PropertyKeys(props)) && DistinctKeys(members)
  {
    DeclPairsKeys(props);
    FromPairsSpec(Traverse(DeclMember, props).value);
  }

  /** Each checked declaration property contributes its own key. */
  lemma DeclPairsKeys(props: seq<Property>)
    requires Traverse(DeclMember, props).Success?
    ensures Keys(Traverse(DeclMember, props).value) == PropertyKeys(props)
  {
    var pairs := Traverse(DeclMember, props).value;
    TraverseSucceeds(DeclMember, props);
    forall i | 0 <= i < |props| ensures Keys(pairs)[i] == PropertyKeys(props)[i] {
      assert DeclMember(props[i]) == Success(pairs[i]);
    }
  }

  /** `struct32_parse_decl` returns null exactly for an ordinary binding. A
      recognised declaration with one object argument fails exactly when
      some property fails, and then with the first failing property's
      error. */
  lemma {:induction false} ParseDeclErrors(path: Path)
    requires path.node.VariableDeclarator?
    ensures ParseDeclSpec(path) == Success(None) <==> !IsStructDeclaration(path.node)
    ensures IsStructDeclaration(path.node) && |path.node.init.value.arguments| == 1 &&
            path.node.init.value.arguments[0].ObjectExpression? ==>
      var props := path.node.init.value.arguments[0].properties;
      && (ParseDeclSpec(path).Failure? <==> exists i :: 0 <= i < |props| && DeclMember(props[i]).Failure?)
      && (forall i :: 0 <= i < |props| && DeclMember(props[i]).Failure? &&
                      (forall j :: 0 <= j < i ==> DeclMember(props[j]).Success?) ==>
            ParseDeclSpec(path) == Failure(CodeFrameError(path.loc, DeclMember(props[i]).error)))
  {
    if IsStructDeclaration(path.node) && |path.node.init.value.arguments| == 1 &&
       path.node.init.value.arguments[0].ObjectExpression? {
      var props := path.node.init.value.arguments[0].properties;
      TraverseSucceeds(DeclMember, props);
      forall i | 0 <= i < |props| && DeclMember(props[i]).Failure? &&
                 (forall j :: 0 <= j < i ==> DeclMember(props[j]).Success?)
        ensures ParseDeclSpec(path) == Failure(CodeFrameError(path.loc, DeclMember(props[i]).error))
      {
        TraverseFirstFailure(DeclMember, props, i);
      }
    }
  }

  /** A recognised declaration is rejected, always at the declarator, when
      it does not have exactly one argument or the argument is not an object
      literal. */
  lemma ParseDeclRejects(path: Path)
    requires path.node.VariableDeclarator?
    ensures ParseDeclSpec(path).Failure? ==>
              ParseDeclSpec(path).error.CodeFrameError? && ParseDeclSpec(path).error.at == path.loc
    ensures IsStructDeclaration(path.node) && |path.node.init.value.arguments| != 1 ==>
              ParseDeclSpec(path) == Failure(CodeFrameError(path.loc, "struct32 expects 1 argument"))
    ensures IsStructDeclaration(path.node) && |path.node.init.value.arguments| == 1 &&
            !path.node.init.value.arguments[0].ObjectExpression? ==>
              ParseDeclSpec(path) == Failure(CodeFrameError(path.loc, "struct32 expects an object"))
  {
  }

  /** A declaration that parses is named after its binding; its member keys
      are the property keys in order of first appearance, each once, and
      every member is 8 bits wide. */
  lemma ParseDeclObject(path: Path)
    requires path.node.VariableDeclarator? && IsStructDeclaration(path.node)
    requires ParseDeclSpec(path).Success?
    ensures ParseDeclSpec(path).value.Some?
    ensures var props := path.node.init.value.arguments[0].properties;
      var decl := ParseDeclSpec(path).value.value;
      && decl.name == path.node.id.name
      && Keys(decl.members) == FirstAppearance(PropertyKeys(props))
      && DistinctKeys(decl.members)
      && forall i :: 0 <= i < |decl.members| ==> TypeSize(decl.members[i].1) == 8
  {
    DeclMembersKeys(path.node.init.value.arguments[0].properties);
  }

  /** A parsed declaration's members are keyed without repetition. */
  lemma ParsedDeclDistinct(path: Path)
    requires path.node.VariableDeclarator?
    requires ParseDeclSpec(path).Success? && ParseDeclSpec(path).value.Some?
    ensures DistinctKeys(ParseDeclSpec(path).value.value.members)
  {
    DeclMembersKeys(path.node.init.value.arguments[0].properties);
  }

  // ---------------------------------------------------------------------
  // struct32_parse_instance

  /** One property of an instance, `key: number`, checked. */
  function InstanceValue(p: Property): (r: Result<(string, int), string>)
    ensures r.Success? <==> p.ObjectProperty? && p.key.Identifier? && p.value.NumericLiteral?
    ensures r.Success? ==> r.value == (p.key.name, p.value.value)
    ensures !(p.ObjectProperty? && p.key.Identifier?) ==>
              r == Failure("struct32 can only be declared with a statically known list of properties")
    ensures p.ObjectProperty? && p.key.Identifier? && !p.value.NumericLiteral? ==>
              r == Failure(TypeName(p.value) + " is not assignable to number")
  {
    if !p.ObjectProperty? || !p.key.Identifier? then
      Failure("struct32 can only be declared with a statically known list of properties")
    else if !p.value.NumericLiteral? then
      Failure(TypeName(p.value) + " is not assignable to number")
    else
      Success((p.key.name, p.value.value))
  }

  /** What `struct32_parse_instance` returns for a use of the struct name:
      its parent must be the call and its grandparent the declarator. */
  function ParseInstanceSpec(reference: Use): Result<Instance, Error>
  {
    var call, variable := reference.parent, reference.grandparent;
    if !variable.node.VariableDeclarator? then
      Failure(CodeFrameError(variable.loc, "A struct can only be used for variable declaration"))
    else if !variable.node.id.Identifier? then
      Failure(CodeFrameError(variable.loc, "Unsupported variable identifier"))
    else if !call.node.CallExpression? then
      Failure(CodeFrameError(call.loc, "struct32 can only be called"))
    else if |call.node.arguments| != 1 || !call.node.arguments[0].ObjectExpression? then
      Failure(CodeFrameError(call.loc, "struct32 expects an object expression"))
    else
      match Traverse(InstanceValue, call.node.arguments[0].properties)
      case Failure(msg) => Failure(CodeFrameError(call.loc, msg))
      case Success(pairs) => Success(Instance(variable.node.id.name, FromPairs(pairs)))
  }

  /** `struct32_parse_instance`: fills the values object one property at a time. */
  method ParseInstance(reference: Use) returns (r: Result<Instance, Error>)
    ensures r == ParseInstanceSpec(reference)
  {
    var call, variable := reference.parent, reference.grandparent;
    if !variable.node.VariableDeclarator? {
      return Failure(CodeFrameError(variable.loc, "A struct can only be used for variable declaration"));
    }
    if !variable.node.id.Identifier? {
      return Failure(CodeFrameError(variable.loc, "Unsupported variable identifier"));
    }
    if !call.node.CallExpression? {
      return Failure(CodeFrameError(call.loc, "struct32 can only be called"));
    }
    if |call.node.arguments| != 1 || !call.node.arguments[0].ObjectExpression? {
      return Failure(CodeFrameError(call.loc, "struct32 expects an object expression"));
    }
    var props := call.node.arguments[0].properties;
    var values: Entries<int> := [];
    ghost var pairs: seq<(string, int)> := [];
    var i := 0;
    while i < |props|
      invariant i <= |props|
      invariant Traverse(InstanceValue, props[..i]) == Success(pairs)
      invariant values == FromPairs(pairs)
    {
      var prop := props[i];
      if !prop.ObjectProperty? || !prop.key.Identifier? {
        TraverseStopsAt(InstanceValue, props, i);
        return Failure(CodeFrameError(call.loc,
          "struct32 can only be declared with a statically known list of properties"));
      }
      if !prop.value.NumericLiteral? {
        TraverseStopsAt(InstanceValue, props, i);
        return Failure(CodeFrameError(call.loc, TypeName(prop.value) + " is not assignable to number"));
      }
      values := Put(values, prop.key.name, prop.value.value);
      assert InstanceValue(prop) == Success((prop.key.name, prop.value.value));
      TraverseSnoc(InstanceValue, props, i);
      pairs := pairs + [(prop.key.name, prop.value.value)];
      i := i + 1;
    }
    assert props[..i] == props;
    return Success(Instance(variable.node.id.name, values));
  }

  /** The values object built from checked properties is keyed by the
      property keys in order of first appearance, each once, and holds the
      last literal written to each. */
  lemma InstanceValuesKeys(props: seq<Property>)
    requires Traverse(InstanceValue, props).Success?
    ensures var pairs := Traverse(InstanceValue, props).value;
      && Keys(FromPairs(pairs)) == FirstAppearance(PropertyKeys(props))
      && DistinctKeys(FromPairs(pairs))
      && forall k :: Get(FromPairs(pairs), k) == LastWrite(pairs, k)
  {
    InstancePairsKeys(props);
    FromPairsSpec(Traverse(InstanceValue, props).value);
  }

  /** Each checked instance property contributes its own key. */
  lemma InstancePairsKeys(props: seq<Property>)
    requires Traverse(InstanceValue, props).Success?
    ensures Keys(Traverse(InstanceValue, props).value) == PropertyKeys(props)
  {
    var pairs := Traverse(InstanceValue, props).value;
    TraverseSucceeds(InstanceValue, props);
    forall i | 0 <= i < |props| ensures Keys(pairs)[i] == PropertyKeys(props)[i] {
      assert InstanceValue(props[i]) == Success(pairs[i]);
    }
  }

  /** An instance whose declarator and call are well shaped fails exactly
      when some property fails, and then with the first failing property's
      error. */
  lemma {:induction false} ParseInstanceErrors(reference: Use)
    requires reference.grandparent.node.VariableDeclarator?
    requires reference.grandparent.node.id.Identifier?
    requires reference.parent.node.CallExpression?
    requires |reference.parent.node.arguments| == 1
    requires reference.parent.node.arguments[0].ObjectExpression?
    ensures var props := reference.parent.node.arguments[0].properties;
      && (ParseInstanceSpec(reference).Failure? <==> exists i :: 0 <= i < |props| && InstanceValue(props[i]).Failure?)
      && (forall i :: 0 <= i < |props| && InstanceValue(props[i]).Failure? &&
                      (forall j :: 0 <= j < i ==> InstanceValue(props[j]).Success?) ==>
            ParseInstanceSpec(reference) == Failure(CodeFrameError(reference.parent.loc, InstanceValue(props[i]).error)))
  {
    var props := reference.parent.node.arguments[0].properties;
    TraverseSucceeds(InstanceValue, props);
    forall i | 0 <= i < |props| && InstanceValue(props[i]).Failure? &&
               (forall j :: 0 <= j < i ==> InstanceValue(props[j]).Success?)
      ensures ParseInstanceSpec(reference) == Failure(CodeFrameError(reference.parent.loc, InstanceValue(props[i]).error))
    {
      TraverseFirstFailure(InstanceValue, props, i);
    }
  }

  /** The shape checks of an instance, in order: the grandparent must be a
      declarator of an identifier (else the error is raised there), and the
      parent a call with one object-literal argument (else the error is
      raised at the call). Every error is raised at one of the two. */
  lemma ParseInstanceRejects(reference: Use)
    ensures var variable := reference.grandparent.node;
      !variable.VariableDeclarator? ==>
        ParseInstanceSpec(reference) ==
          Failure(CodeFrameError(reference.grandparent.loc, "A struct can only be used for variable declaration"))
    ensures var variable := reference.grandparent.node;
      variable.VariableDeclarator? && !variable.id.Identifier? ==>
        ParseInstanceSpec(reference) ==
          Failure(CodeFrameError(reference.grandparent.loc, "Unsupported variable identifier"))
    ensures var variable, call := reference.grandparent.node, reference.parent.node;
      variable.VariableDeclarator? && variable.id.Identifier? && !call.CallExpression? ==>
        ParseInstanceSpec(reference) == Failure(CodeFrameError(reference.parent.loc, "struct32 can only be called"))
    ensures var variable, call := reference.grandparent.node, reference.parent.node;
      variable.VariableDeclarator? && variable.id.Identifier? && call.CallExpression? &&
      (|call.arguments| != 1 || !call.arguments[0].ObjectExpression?) ==>
        ParseInstanceSpec(reference) ==
          Failure(CodeFrameError(reference.parent.loc, "struct32 expects an object expression"))
    ensures ParseInstanceSpec(reference).Failure? ==>
              var e := ParseInstanceSpec(reference).error;
              e.CodeFrameError? && (e.at == reference.grandparent.loc || e.at == reference.parent.loc)
  {
  }

  /** An instance that parses is bound to the declarator's name; its keys
      are the property keys in order of first appearance, each once, and
      each key holds the last literal written to it. */
  lemma ParseInstanceObject(reference: Use)
    requires ParseInstanceSpec(reference).Success?
    ensures var props := reference.parent.node.arguments[0].properties;
      var pairs := Traverse(InstanceValue, props).value;
      var inst := ParseInstanceSpec(reference).value;
      && inst.name == reference.grandparent.node.id.name
      && Keys(inst.values) == FirstAppearance(PropertyKeys(props))
      && DistinctKeys(inst.values)
      && forall k :: Get(inst.values, k) == LastWrite(pairs, k)
  {
    InstanceValuesKeys(reference.parent.node.arguments[0].properties);
  }

  /** A parsed instance's values are keyed without repetition. */
  lemma ParsedInstanceDistinct(reference: Use)
    requires ParseInstanceSpec(reference).Success?
    ensures DistinctKeys(ParseInstanceSpec(reference).value.values)
  {
    InstanceValuesKeys(reference.parent.node.arguments[0].properties);
  }

  // ---------------------------------------------------------------------
  // struct32_values_to_numeric

  /** The packed integer: the values ORed together in key order, the value
      at position `i` shifted left by `8 * i` (taken modulo 32), with
      JavaScript's 32-bit `|` and `<<`. Neither the declaration nor any range
      is consulted. */
  function Pack(values: Entries<int>): int
  {
    if values == [] then 0
    else
      var last := |values| - 1;
      BitOr(Pack(values[..last]), ShiftLeft(values[last].1, 8 * last))
  }

  /** `struct32_values_to_numeric`. */
  method ValuesToNumeric(values: Entries<int>) returns (result: int)
    requires DistinctKeys(values)
    ensures result == Pack(values)
    ensures -TWO31 <= result < TWO31
  {
    result := 0;
    var keys := Keys(values);
    var i := 0;
    while i < |keys|
      invariant i <= |keys|
      invariant result == Pack(values[..i])
    {
      var key := keys[i];
      GetDistinct(values, i);
      result := BitOr(result, ShiftLeft(Get(values, key).value, 8 * i));
      assert values[..i + 1][..i] == values[..i];
      i := i + 1;
    }
    assert values[..i] == values;
    assert -TWO31 <= result < TWO31 by {
      if values != [] {
        var last := |values| - 1;
        assert result == ToInt32(OrNat(ToUint32(Pack(values[..last])),
                                       ToUint32(ShiftLeft(values[last].1, 8 * last))));
      }
    }
  }

  /** The value at position `i`, or 0 past the end. */
  function FieldValue(values: Entries<int>, i: nat): int
  {
    if i < |values| then values[i].1 else 0
  }

  /** Every value lies in [0, 256). */
  predicate Bytes(values: Entries<int>)
  {
    forall i :: 0 <= i < |values| ==> 0 <= values[i].1 < 256
  }

  /** The arithmetic meaning of the packing of at most four bytes: the
      base-256 number whose digits, lowest first, are the values. */
  function Weighted(values: Entries<int>): int
  {
    FieldValue(values, 0) + 256 * FieldValue(values, 1)
    + 65536 * FieldValue(values, 2) + 16777216 * FieldValue(values, 3)
  }

  lemma Pow2Bytes()
    ensures Pow2(0) == 1 && Pow2(8) == 256 && Pow2(16) == 65536
    ensures Pow2(24) == 16777216 && Pow2(32) == TWO32
  {
  }

  /** Appending a value adds it as the next digit. */
  lemma WeightedSnoc(values: Entries<int>)
    requires 1 <= |values| <= 4
    ensures var last := |values| - 1;
      Weighted(values) == Weighted(values[..last]) + values[last].1 * Pow2(8 * last)
  {
    var last := |values| - 1;
    var init := values[..last];
    assert forall i :: 0 <= i < last ==> FieldValue(init, i) == FieldValue(values, i);
    Pow2Bytes();
    if last == 0 {
      assert Pow2(8 * last) == 1;
    } else if last == 1 {
      assert Pow2(8 * last) == 256;
    } else if last == 2 {
      assert Pow2(8 * last) == 65536;
    } else {
      assert Pow2(8 * last) == 16777216;
    }
  }

  /** `n` bytes make a number below 2^(8n). */
  lemma WeightedBound(values: Entries<int>)
    requires |values| <= 4 && Bytes(values)
    ensures 0 <= Weighted(values) < Pow2(8 * |values|)
  {
    Pow2Bytes();
    var n := |values|;
    if n == 0 {
      assert Pow2(8 * n) == 1;
    } else if n == 1 {
      assert Pow2(8 * n) == 256;
    } else if n == 2 {
      assert Pow2(8 * n) == 65536;
    } else if n == 3 {
      assert Pow2(8 * n) == 16777216;
    } else {
      assert Pow2(8 * n) == TWO32;
    }
  }

  /** One step of packing: OR-ing byte `v` shifted to position `j` into a
      number below 2^(8j) adds it as digit `j`. */
  lemma OrNextByte(w: int, v: int, j: nat, sum: int)
    requires j < 4 && 0 <= w < Pow2(8 * j) && 0 <= v < 256
    requires sum == w + v * Pow2(8 * j)
    ensures BitOr(ToInt32(w), ShiftLeft(v, 8 * j)) == ToInt32(sum)
    ensures sum < Pow2(8 * (j + 1))
  {
    var p := Pow2(8 * j);
    Pow2Bytes();
    if j == 0 {
      assert p == 1 && Pow2(8 * (j + 1)) == 256;
    } else if j == 1 {
      assert p == 256 && Pow2(8 * (j + 1)) == 65536;
    } else if j == 2 {
      assert p == 65536 && Pow2(8 * (j + 1)) == 16777216;
    } else {
      assert p == 16777216 && Pow2(8 * (j + 1)) == TWO32;
    }
    assert Pow2(8 * (j + 1)) == 256 * p <= TWO32;
    MulBelow(v, 256, p);
    OrShifted(w, v, 8 * j, sum);
  }

  /** With at most four values, each a byte, the packed integer is the
      base-256 number whose digits are the values (lowest first), as a
      signed 32-bit value. */
  lemma {:induction false} PackIsWeighted(values: Entries<int>)
    requires |values| <= 4 && Bytes(values)
    ensures Pack(values) == ToInt32(Weighted(values))
  {
    if values != [] {
      var last := |values| - 1;
      var init := values[..last];
      assert Bytes(init) by {
        forall i | 0 <= i < |init| ensures 0 <= init[i].1 < 256 {
          assert init[i] == values[i];
        }
      }
      PackIsWeighted(init);
      WeightedBound(init);
      WeightedSnoc(values);
      OrNextByte(Weighted(init), values[last].1, last, Weighted(values));
    } else {
      assert Weighted(values) == 0;
    }
  }

  /** Digit `k` of a base-256 number `x` offset by a multiple of 2^32. */
  lemma ByteOfWrapped(x: int, a: int, b: int, c: int, d: int, hi: int, k: nat)
    requires 0 <= a < 256 && 0 <= b < 256 && 0 <= c < 256 && 0 <= d < 256 && k < 4
    requires x == a + 256 * b + 65536 * c + 16777216 * d - hi * TWO32
    ensures k == 0 ==> x % 256 == a
    ensures k == 1 ==> (x / 256) % 256 == b
    ensures k == 2 ==> (x / 65536) % 256 == c
    ensures k == 3 ==> (x / 16777216) % 256 == d
  {
    if k == 0 {
      DivModUnique(x, 256, b + 256 * c + 65536 * d - 16777216 * hi, a);
    } else if k == 1 {
      DivModUnique(x, 256, b + 256 * c + 65536 * d - 16777216 * hi, a);
      DivModUnique(x / 256, 256, c + 256 * d - 65536 * hi, b);
    } else if k == 2 {
      DivModUnique(x, 65536, c + 256 * d - 65536 * hi, a + 256 * b);
      DivModUnique(x / 65536, 256, d - 256 * hi, c);
    } else {
      DivModUnique(x, 16777216, d - 256 * hi, a + 256 * b + 65536 * c);
      DivModUnique(x / 16777216, 256, -hi, d);
    }
  }

  /** Reading the base-256 digit `k` of a packed 32-bit value. */
  lemma ByteOfPacked(a: int, b: int, c: int, d: int, k: nat)
    requires 0 <= a < 256 && 0 <= b < 256 && 0 <= c < 256 && 0 <= d < 256 && k < 4
    ensures var w := a + 256 * b + 65536 * c + 16777216 * d;
      (ToInt32(w) / Pow2(8 * k)) % 256 == [a, b, c, d][k]
  {
    var w := a + 256 * b + 65536 * c + 16777216 * d;
    var hi := if w < TWO31 then 0 else 1;
    assert ToInt32(w) == w - hi * TWO32;
    ByteOfWrapped(ToInt32(w), a, b, c, d, hi, k);
    Pow2Bytes();
    if k == 0 {
      assert Pow2(8 * k) == 1;
    } else if k == 1 {
      assert Pow2(8 * k) == 256;
    } else if k == 2 {
      assert Pow2(8 * k) == 65536;
    } else {
      assert Pow2(8 * k) == 16777216;
    }
  }

  /** `(packed >> 8k) & 255`, JavaScript semantics, is digit `k`. */
  lemma {:induction false} ReadPackedField(values: Entries<int>, k: nat)
    requires |values| <= 4 && Bytes(values) && k < |values|
    ensures BitAnd(ShiftRight(Pack(values), 8 * k), 255) == values[k].1
  {
    PackIsWeighted(values);
    var x := Pack(values);
    ShiftRightIsDivision(x, 8 * k);
    LowByte(x / Pow2(8 * k));
    ByteOfPacked(FieldValue(values, 0), FieldValue(values, 1), FieldValue(values, 2), FieldValue(values, 3), k);
  }

  /** `{a: 3, b: 5}` packs to `3 | (5 << 8)`, that is 1283, whatever the
      two keys are called; the empty object packs to 0. */
  lemma PackExample(a: string, b: string)
    ensures Pack([(a, 3), (b, 5)]) == 1283
    ensures Pack([]) == 0
  {
    var values := [(a, 3), (b, 5)];
    PackIsWeighted(values);
    assert Weighted(values) == 1283;
    SmallInt32(Pack(values), Weighted(values));
  }

  /** A signed view of a number below 2^31 is the number itself. */
  lemma SmallInt32(x: int, w: int)
    requires x == ToInt32(w) && 0 <= w < TWO31
    ensures x == w
  {
  }

  /** A signed view of a number in [2^31, 2^32) is negative. */
  lemma LargeInt32(x: int, w: int)
    requires x == ToInt32(w) && TWO31 <= w < TWO32
    ensures x < 0
  {
  }

  /** With a byte in the fourth position of 128 or more, the packed value is
      negative: bit 31 is the sign bit. */
  lemma PackNegative(values: Entries<int>)
    requires |values| == 4 && Bytes(values) && values[3].1 >= 128
    ensures Pack(values) < 0
  {
    PackIsWeighted(values);
    assert TWO31 <= Weighted(values) < TWO32;
    LargeInt32(Pack(values), Weighted(values));
  }

  /** No range check: a first value of 256 or more spills into the second
      field. Reading the second field of `{a: v, b: 0}` yields bits 8-15 of
      `v`, which is not 0 when 256 <= v < 65536. */
  lemma {:induction false} PackSpills(ka: string, kb: string, v: int)
    requires 0 <= v < TWO31
    ensures BitAnd(ShiftRight(Pack([(ka, v), (kb, 0)]), 8), 255) == (v / 256) % 256
    ensures 256 <= v < 65536 ==> BitAnd(ShiftRight(Pack([(ka, v), (kb, 0)]), 8), 255) != 0
  {
    var values := [(ka, v), (kb, 0)];
    assert values[..1] == [(ka, v)] && [(ka, v)][..0] == [];
    ShiftLeftIsProduct(v, 0);
    ShiftLeftIsProduct(0, 8);
    OrZero(v);
    assert Pack([(ka, v)]) == v;
    assert Pack(values) == v;
    ShiftRightIsDivision(v, 8);
    Pow2Bytes();
    LowByte(v / 256);
    if 256 <= v < 65536 {
      DivModUnique(v / 256, 256, 0, v / 256);
    }
  }

  // ---------------------------------------------------------------------
  // struct32_parse_member_offset

  /** Sum of the widths of the given members. */
  function Widths(members: Entries<IntrinsicType>): nat
  {
    if members == [] then 0
    else Widths(members[..|members| - 1]) + TypeSize(members[|members| - 1].1)
  }

  /** What `struct32_parse_member_offset` returns for the access `node`
      (a member expression) against `decl`, or the message it throws. */
  function MemberOffsetSpec(decl: Decl, node: Node): Result<Offset, string>
    requires node.MemberExpression?
  {
    if !node.property.Identifier? then Failure("Invalid struct member access")
    else
      var name := node.property.name;
      match Get(decl.members, name)
      case None => Failure("\"" + name + "\" does not exist on type \"" + decl.name + "\"")
      case Some(t) =>
        Success(Offset(Pow2(TypeSize(t)) - 1, Widths(decl.members[..IndexOf(Keys(decl.members), name)])))
  }

  /** `struct32_parse_member_offset`: sums the widths of the members before
      the accessed one, stopping when it is reached. */
  method ParseMemberOffset(decl: Decl, node: Node) returns (r: Result<Offset, string>)
    requires node.MemberExpression?
    requires DistinctKeys(decl.members)
    ensures r == MemberOffsetSpec(decl, node)
  {
    if !node.property.Identifier? {
      return Failure("Invalid struct member access");
    }
    var memberName := node.property.name;
    var memberType := Get(decl.members, memberName);
    if memberType.None? {
      return Failure("\"" + memberName + "\" does not exist on type \"" + decl.name + "\"");
    }
    var memberSize := TypeSize(memberType.value);
    var shift := 0;
    var keys := Keys(decl.members);
    var i := 0;
    while i < |keys|
      invariant i <= |keys|
      invariant memberName !in keys[..i]
      invariant shift == Widths(decl.members[..i])
    {
      var key := keys[i];
      GetDistinct(decl.members, i);
      var size := TypeSize(Get(decl.members, key).value);
      if memberName == key {
        break;
      }
      shift := shift + size;
      assert decl.members[..i + 1][..i] == decl.members[..i];
      i := i + 1;
    }
    assert i == IndexOf(keys, memberName);
    return Success(Offset(Pow2(memberSize) - 1, shift));
  }

  /** All members are 8 bits wide, so the members before position `n` take
      `8 * n` bits. */
  lemma {:induction false} WidthsOfBytes(members: Entries<IntrinsicType>)
    ensures Widths(members) == 8 * |members|
  {
    if members != [] {
      WidthsOfBytes(members[..|members| - 1]);
    }
  }

  /** An access has an offset exactly when its property is an identifier
      naming a member; the mask is then 255 and the shift is 8 times the
      member's position in declaration order. Otherwise the message says
      whether the access is not by name, or names a member the struct does
      not have. */
  lemma MemberOffsetIsPosition(decl: Decl, node: Node)
    requires node.MemberExpression?
    ensures MemberOffsetSpec(decl, node).Success? <==>
              node.property.Identifier? && node.property.name in Keys(decl.members)
    ensures MemberOffsetSpec(decl, node).Success? ==>
              MemberOffsetSpec(decl, node).value ==
                Offset(255, 8 * IndexOf(Keys(decl.members), node.property.name))
    ensures !node.property.Identifier? ==>
              MemberOffsetSpec(decl, node) == Failure("Invalid struct member access")
    ensures node.property.Identifier? && node.property.name !in Keys(decl.members) ==>
              MemberOffsetSpec(decl, node) ==
                Failure("\"" + node.property.name + "\" does not exist on type \"" + decl.name + "\"")
  {
    if node.property.Identifier? && node.property.name in Keys(decl.members) {
      WidthsOfBytes(decl.members[..IndexOf(Keys(decl.members), node.property.name)]);
      Pow2Bytes();
    }
  }

  // ---------------------------------------------------------------------
  // The packed integer read back through the layout

  /** Round trip: when an instance lists the declaration's members in the
      declaration's order, at most four of them, each value a byte, reading a
      member with its (shift, mask), `(packed >> shift) & mask`, yields the
      value written for it. */
  lemma RoundTrip(decl: Decl, values: Entries<int>, node: Node)
    requires node.MemberExpression? && node.property.Identifier?
    requires node.property.name in Keys(decl.members)
    requires Keys(values) == Keys(decl.members)
    requires |values| <= 4 && Bytes(values)
    ensures MemberOffsetSpec(decl, node).Success?
    ensures var offset := MemberOffsetSpec(decl, node).value;
      Some(BitAnd(ShiftRight(Pack(values), offset.shift), offset.mask)) == Get(values, node.property.name)
  {
    MemberOffsetIsPosition(decl, node);
    var k := IndexOf(Keys(decl.members), node.property.name);
    ReadPackedField(values, k);
  }

  /** The packing follows the instance's key order, not the declaration's:
      for `S = struct32({a: int8, b: int8})` and `x = S({b: 5, a: 3})`,
      reading `x.a` yields 5. */
  lemma InstanceOrderIsUsed()
    ensures var decl := Decl("S", [("a", Int8), ("b", Int8)]);
      var read := MemberExpression(Identifier("x"), Identifier("a"), false);
      && MemberOffsetSpec(decl, read) == Success(Offset(255, 0))
      && BitAnd(ShiftRight(Pack([("b", 5), ("a", 3)]), 0), 255) == 5
  {
    var decl := Decl("S", [("a", Int8), ("b", Int8)]);
    var read := MemberExpression(Identifier("x"), Identifier("a"), false);
    MemberOffsetIsPosition(decl, read);
    assert Keys(decl.members) == ["a", "b"];
    ReadPackedField([("b", 5), ("a", 3)], 0);
  }
}
