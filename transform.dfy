/** The `VariableDeclarator` visitor of src/transform.ts: for one declarator
    that declares a struct, remove the declaration, replace every instance
    `x = S({…})` by `x = <packed integer>` and every field read `x.f` by
    `(x >> shift) & mask`. The tree mutations are recorded, in the order the
    visitor performs them, as a list of edits; the first error ends the
    visit. */
module Transform {
  import opened Results
  import opened JsObject
  import opened Int32
  import opened Syntax
  import opened Struct32

  /** A tree mutation: `path.remove()` or `path.replaceWith(node)`. */
  datatype Edit =
    | Remove(at: Loc)
    | Replace(at: Loc, with: Node)

  /** The expression a field read is rewritten to:
      `(instance >> offset.shift) & offset.mask`. */
  function AccessExpr(instance: string, offset: Offset): Node
  {
    BinaryExpression("&",
      BinaryExpression(">>", Identifier(instance), NumericLiteral(offset.shift)),
      NumericLiteral(offset.mask))
  }

  /** The declarator an instance is rewritten to: `name = <packed>`. */
  function InstanceDeclarator(inst: Instance): Node
  {
    VariableDeclarator(Identifier(inst.name), Some(NumericLiteral(Pack(inst.values))))
  }

  /** The edit for one use of an instance: its parent must be a member
      expression, whose offset is computed against the declaration; an offset
      error is raised again, with the same message, at the access. */
  function UseEdit(decl: Decl, instance: string, use: Use): Result<Edit, Error>
  {
    var access := use.parent;
    if !access.node.MemberExpression? then
      Failure(CodeFrameError(access.loc, "Unknown struct reference"))
    else
      match MemberOffsetSpec(decl, access.node)
      case Failure(msg) => Failure(CodeFrameError(access.loc, msg))
      case Success(offset) => Success(Replace(access.loc, AccessExpr(instance, offset)))
  }

  function UseEditOf(decl: Decl, instance: string): Use -> Result<Edit, Error>
  {
    use => UseEdit(decl, instance, use)
  }

  /** The edits for one reference to the struct name: the instance's
      declarator replaced by its packed value, then one edit per use of the
      instance. */
  function InstanceEdits(decl: Decl, index: ReferenceIndex, reference: Use): Result<seq<Edit>, Error>
  {
    match ParseInstanceSpec(reference)
    case Failure(e) => Failure(e)
    case Success(inst) =>
      if inst.name !in index then Failure(MissingBinding(inst.name))
      else
        match Traverse(UseEditOf(decl, inst.name), index[inst.name])
        case Failure(e) => Failure(e)
        case Success(uses) => Success([Replace(reference.grandparent.loc, InstanceDeclarator(inst))] + uses)
  }

  function InstanceEditsOf(decl: Decl, index: ReferenceIndex): Use -> Result<seq<Edit>, Error>
  {
    reference => InstanceEdits(decl, index, reference)
  }

  /** What the visitor does to the declarator at `path`, given the uses of
      every bound name: nothing for an ordinary binding; otherwise the removal
      of the declaration followed by the edits of each reference in turn. */
  function TransformSpec(path: Path, index: ReferenceIndex): Result<seq<Edit>, Error>
    requires path.node.VariableDeclarator?
  {
    match ParseDeclSpec(path)
    case Failure(e) => Failure(e)
    case Success(None) => Success([])
    case Success(Some(decl)) =>
      if decl.name !in index then Failure(MissingBinding(decl.name))
      else
        match Traverse(InstanceEditsOf(decl, index), index[decl.name])
        case Failure(e) => Failure(e)
        case Success(groups) => Success([Remove(path.loc)] + Flatten(groups))
  }

  /** The inner loop of the visitor: rewrites the uses of one instance in
      order, stopping at the first that cannot be rewritten. */
  method RewriteUses(decl: Decl, instance: string, uses: seq<Use>) returns (r: Result<seq<Edit>, Error>)
    requires DistinctKeys(decl.members)
    ensures r == Traverse(UseEditOf(decl, instance), uses)
  {
    var edits: seq<Edit> := [];
    var j := 0;
    while j < |uses|
      invariant j <= |uses|
      invariant Traverse(UseEditOf(decl, instance), uses[..j]) == Success(edits)
    {
      var access := uses[j].parent;
      if !access.node.MemberExpression? {
        TraverseStopsAt(UseEditOf(decl, instance), uses, j);
        return Failure(CodeFrameError(access.loc, "Unknown struct reference"));
      }
      var offset := ParseMemberOffset(decl, access.node);
      if offset.Failure? {
        TraverseStopsAt(UseEditOf(decl, instance), uses, j);
        return Failure(CodeFrameError(access.loc, offset.error));
      }
      edits := edits + [Replace(access.loc, AccessExpr(instance, offset.value))];
      assert UseEditOf(decl, instance)(uses[j]) == Success(Replace(access.loc, AccessExpr(instance, offset.value)));
      TraverseSnoc(UseEditOf(decl, instance), uses, j);
      j := j + 1;
    }
    assert uses[..j] == uses;
    return Success(edits);
  }

  /** One iteration of the outer loop: parses the instance behind a
      reference to the struct, replaces its declarator by the packed value,
      and rewrites the instance's uses. */
  method VisitReference(decl: Decl, index: ReferenceIndex, reference: Use) returns (r: Result<seq<Edit>, Error>)
    requires DistinctKeys(decl.members)
    ensures r == InstanceEdits(decl, index, reference)
  {
    var instance := ParseInstance(reference);
    if instance.Failure? {
      return Failure(instance.error);
    }
    var inst := instance.value;
    ParsedInstanceDistinct(reference);
    var numeric := ValuesToNumeric(inst.values);
    var literal := Replace(reference.grandparent.loc,
                           VariableDeclarator(Identifier(inst.name), Some(NumericLiteral(numeric))));
    if inst.name !in index {
      return Failure(MissingBinding(inst.name));
    }
    var uses := RewriteUses(decl, inst.name, index[inst.name]);
    if uses.Failure? {
      return Failure(uses.error);
    }
    return Success([literal] + uses.value);
  }

  /** The outer loop of the visitor: handles the references to the struct
      in order, appending the edits of each, until the first error. */
  method VisitReferences(decl: Decl, index: ReferenceIndex, references: seq<Use>) returns (r: Result<seq<Edit>, Error>)
    requires DistinctKeys(decl.members)
    ensures Traverse(InstanceEditsOf(decl, index), references).Failure? ==>
              r == Failure(Traverse(InstanceEditsOf(decl, index), references).error)
    ensures Traverse(InstanceEditsOf(decl, index), references).Success? ==>
              r == Success(Flatten(Traverse(InstanceEditsOf(decl, index), references).value))
  {
    var edits: seq<Edit> := [];
    ghost var groups: seq<seq<Edit>> := [];
    var i := 0;
    while i < |references|
      invariant i <= |references|
      invariant Traverse(InstanceEditsOf(decl, index), references[..i]) == Success(groups)
      invariant edits == Flatten(groups)
    {
      var group := VisitReference(decl, index, references[i]);
      if group.Failure? {
        TraverseStopsAt(InstanceEditsOf(decl, index), references, i);
        return Failure(group.error);
      }
      edits := edits + group.value;
      assert InstanceEditsOf(decl, index)(references[i]) == group;
      TraverseSnoc(InstanceEditsOf(decl, index), references, i);
      assert (groups + [group.value])[..|groups|] == groups;
      groups := groups + [group.value];
      i := i + 1;
    }
    assert references[..i] == references;
    return Success(edits);
  }

  /** The visitor: recognises the declaration, removes it, then handles the
      references to the struct. */
  method VisitDeclarator(path: Path, index: ReferenceIndex) returns (r: Result<seq<Edit>, Error>)
    requires path.node.VariableDeclarator?
    ensures r == TransformSpec(path, index)
  {
    var parsed := ParseDecl(path);
    if parsed.Failure? {
      return Failure(parsed.error);
    }
    if parsed.value.None? {
      return Success([]);
    }
    var decl := parsed.value.value;
    ParsedDeclDistinct(path);
    var edits := [Remove(path.loc)];
    if decl.name !in index {
      return Failure(MissingBinding(decl.name));
    }
    var rest := VisitReferences(decl, index, index[decl.name]);
    if rest.Failure? {
      return Failure(rest.error);
    }
    return Success(edits + rest.value);
  }

  /** Each use's own edit, when all of them succeed. */
  lemma UseEditsEach(decl: Decl, instance: string, uses: seq<Use>)
    requires Traverse(UseEditOf(decl, instance), uses).Success?
    ensures var edits := Traverse(UseEditOf(decl, instance), uses).value;
      && |edits| == |uses|
      && forall j :: 0 <= j < |uses| ==> UseEdit(decl, instance, uses[j]) == Success(edits[j])
  {
    TraverseSucceeds(UseEditOf(decl, instance), uses);
    var edits := Traverse(UseEditOf(decl, instance), uses).value;
    forall j | 0 <= j < |uses| ensures UseEdit(decl, instance, uses[j]) == Success(edits[j]) {
      assert UseEditOf(decl, instance)(uses[j]) == UseEdit(decl, instance, uses[j]);
    }
  }

  /** The rewritten read, evaluated with the instance bound to `v`. */
  lemma EvalAccess(instance: string, offset: Offset, v: int)
    ensures Eval(AccessExpr(instance, offset), map[instance := v]) ==
              Some(BitAnd(ShiftRight(v, offset.shift), offset.mask))
  {
    var env := map[instance := v];
    var shifted := BinaryExpression(">>", Identifier(instance), NumericLiteral(offset.shift));
    assert Eval(Identifier(instance), env) == Some(v);
    assert Eval(NumericLiteral(offset.shift), env) == Some(offset.shift);
    assert Eval(shifted, env) == Some(ShiftRight(v, offset.shift));
    assert Eval(NumericLiteral(offset.mask), env) == Some(offset.mask);
  }

  // ---------------------------------------------------------------------
  // Properties of the visit

  /** An ordinary binding is left alone, and only an ordinary binding: a
      struct declaration is either rejected or removed. */
  lemma OrdinaryBindingUnchanged(path: Path, index: ReferenceIndex)
    requires path.node.VariableDeclarator?
    ensures TransformSpec(path, index) == Success([]) <==> !IsStructDeclaration(path.node)
  {
    if IsStructDeclaration(path.node) && TransformSpec(path, index).Success? {
      assert TransformSpec(path, index).value[0] == Remove(path.loc);
    }
  }

  /** A successful visit of a struct declaration removes the declaration
      first, and then performs the edits of each reference to the struct, in
      the order of the references, each reference's edits together. */
  lemma {:induction false} TransformShape(path: Path, index: ReferenceIndex)
    requires path.node.VariableDeclarator? && IsStructDeclaration(path.node)
    requires TransformSpec(path, index).Success?
    ensures ParseDeclSpec(path).Success? && ParseDeclSpec(path).value.Some?
    ensures var decl := ParseDeclSpec(path).value.value;
      && decl.name in index
      && Traverse(InstanceEditsOf(decl, index), index[decl.name]).Success?
      && var groups := Traverse(InstanceEditsOf(decl, index), index[decl.name]).value;
         && |groups| == |index[decl.name]|
         && TransformSpec(path, index).value == [Remove(path.loc)] + Flatten(groups)
         && forall i :: 0 <= i < |groups| ==> InstanceEdits(decl, index, index[decl.name][i]) == Success(groups[i])
  {
    var decl := ParseDeclSpec(path).value.value;
    TraverseSucceeds(InstanceEditsOf(decl, index), index[decl.name]);
  }

  /** The edits for one reference: the instance's declarator becomes
      `name = <packed values>`, whatever the declaration's members are, and
      then each use of the instance, in order, is replaced at its parent. */
  lemma {:induction false} InstanceEditsShape(decl: Decl, index: ReferenceIndex, reference: Use)
    requires InstanceEdits(decl, index, reference).Success?
    ensures ParseInstanceSpec(reference).Success?
    ensures ParseInstanceSpec(reference).value.name in index
    ensures var inst := ParseInstanceSpec(reference).value;
      var edits := InstanceEdits(decl, index, reference).value;
      && |edits| == 1 + |index[inst.name]|
      && edits[0] == Replace(reference.grandparent.loc,
                             VariableDeclarator(Identifier(inst.name), Some(NumericLiteral(Pack(inst.values)))))
    ensures var inst := ParseInstanceSpec(reference).value;
      var edits := InstanceEdits(decl, index, reference).value;
      forall j :: 0 <= j < |index[inst.name]| ==>
        1 + j < |edits| && UseEdit(decl, inst.name, index[inst.name][j]) == Success(edits[1 + j])
  {
    var inst := ParseInstanceSpec(reference).value;
    var uses := index[inst.name];
    assert Traverse(UseEditOf(decl, inst.name), uses).Success?;
    var literal := Replace(reference.grandparent.loc, InstanceDeclarator(inst));
    assert InstanceEdits(decl, index, reference).value ==
             [literal] + Traverse(UseEditOf(decl, inst.name), uses).value;
    GroupShape(decl, inst.name, uses, literal, InstanceEdits(decl, index, reference).value);
  }

  /** A group of edits made of one edit followed by the edits of the uses. */
  lemma GroupShape(decl: Decl, instance: string, uses: seq<Use>, first: Edit, edits: seq<Edit>)
    requires Traverse(UseEditOf(decl, instance), uses).Success?
    requires edits == [first] + Traverse(UseEditOf(decl, instance), uses).value
    ensures |edits| == 1 + |uses| && edits[0] == first
    ensures forall j :: 0 <= j < |uses| ==> UseEdit(decl, instance, uses[j]) == Success(edits[1 + j])
  {
    var tail := Traverse(UseEditOf(decl, instance), uses).value;
    UseEditsEach(decl, instance, uses);
    ConsShape(uses, first, tail, edits, (u: Use) => UseEdit(decl, instance, u));
  }

  /** A use can be rewritten exactly when its parent is a member expression
      whose property is an identifier naming a member of the declaration;
      otherwise the error is raised at the parent, with "Unknown struct
      reference" when the parent is not a member expression at all. */
  lemma UseEditSucceeds(decl: Decl, instance: string, use: Use)
    ensures UseEdit(decl, instance, use).Success? <==>
              && use.parent.node.MemberExpression?
              && use.parent.node.property.Identifier?
              && use.parent.node.property.name in Keys(decl.members)
    ensures UseEdit(decl, instance, use).Success? ==> UseEdit(decl, instance, use).value.at == use.parent.loc
    ensures UseEdit(decl, instance, use).Failure? ==>
              UseEdit(decl, instance, use).error.CodeFrameError? &&
              UseEdit(decl, instance, use).error.at == use.parent.loc
    ensures !use.parent.node.MemberExpression? ==>
              UseEdit(decl, instance, use).error.message == "Unknown struct reference"
    ensures use.parent.node.MemberExpression? && MemberOffsetSpec(decl, use.parent.node).Failure? ==>
              UseEdit(decl, instance, use).error.message == MemberOffsetSpec(decl, use.parent.node).error
  {
    if use.parent.node.MemberExpression? {
      MemberOffsetIsPosition(decl, use.parent.node);
    }
  }

  /** End to end: when an instance lists the declaration's members in the
      declaration's order, at most four, each a byte, the expression a read
      `x.f` is rewritten to evaluates, with `x` bound to the packed literal
      the instance's declarator is rewritten to, to the value written for
      `f`. */
  lemma RewrittenReadYieldsField(decl: Decl, inst: Instance, use: Use)
    requires UseEdit(decl, inst.name, use).Success?
    requires Keys(inst.values) == Keys(decl.members)
    requires |inst.values| <= 4 && Bytes(inst.values)
    ensures use.parent.node.MemberExpression? && use.parent.node.property.Identifier?
    ensures Eval(UseEdit(decl, inst.name, use).value.with, map[inst.name := Pack(inst.values)]) ==
              Get(inst.values, use.parent.node.property.name)
    ensures Get(inst.values, use.parent.node.property.name).Some?
  {
    UseEditSucceeds(decl, inst.name, use);
    var node := use.parent.node;
    var offset := MemberOffsetSpec(decl, node).value;
    assert UseEdit(decl, inst.name, use).value.with == AccessExpr(inst.name, offset);
    EvalAccess(inst.name, offset, Pack(inst.values));
    RoundTrip(decl, inst.values, node);
  }

  /** Fail-fast over references: when reference `i` is the first whose
      edits fail, the visit fails with that error, whatever follows. */
  lemma TransformStopsAtFirstError(path: Path, index: ReferenceIndex, decl: Decl, i: nat)
    requires path.node.VariableDeclarator?
    requires ParseDeclSpec(path) == Success(Some(decl)) && decl.name in index
    requires i < |index[decl.name]|
    requires forall k :: 0 <= k < i ==> InstanceEdits(decl, index, index[decl.name][k]).Success?
    requires InstanceEdits(decl, index, index[decl.name][i]).Failure?
    ensures TransformSpec(path, index) == Failure(InstanceEdits(decl, index, index[decl.name][i]).error)
  {
    TraverseFirstFailure(InstanceEditsOf(decl, index), index[decl.name], i);
  }

  /** Fail-fast over uses: when use `j` of an instance is the first that
      cannot be rewritten, the reference's edits fail with that use's error. */
  lemma InstanceStopsAtFirstError(decl: Decl, index: ReferenceIndex, reference: Use, j: nat)
    requires ParseInstanceSpec(reference).Success?
    requires var name := ParseInstanceSpec(reference).value.name;
      && name in index && j < |index[name]|
      && (forall k :: 0 <= k < j ==> UseEdit(decl, name, index[name][k]).Success?)
      && UseEdit(decl, name, index[name][j]).Failure?
    ensures var name := ParseInstanceSpec(reference).value.name;
      InstanceEdits(decl, index, reference) == Failure(UseEdit(decl, name, index[name][j]).error)
  {
    var name := ParseInstanceSpec(reference).value.name;
    TraverseFirstFailure(UseEditOf(decl, name), index[name], j);
  }

  /** The declaration's members are not consulted when an instance is
      packed: whatever the declaration, `x = S({a: 3, z: 5})` with no uses of
      `x` is rewritten to `x = 1283`, field `z` included even when the
      declaration has no such member. */
  lemma ExtraFieldAccepted(decl: Decl, a: string, z: string, x: string, call: Loc, binding: Loc)
    requires a != z
    ensures var props := [ObjectProperty(Identifier(a), NumericLiteral(3)),
                          ObjectProperty(Identifier(z), NumericLiteral(5))];
      var init := CallExpression(Identifier(decl.name), [ObjectExpression(props)]);
      var reference := Use(Path(call, init), Path(binding, VariableDeclarator(Identifier(x), Some(init))));
      InstanceEdits(decl, map[x := []], reference) ==
        Success([Replace(binding, VariableDeclarator(Identifier(x), Some(NumericLiteral(1283))))])
  {
    var props := [ObjectProperty(Identifier(a), NumericLiteral(3)),
                  ObjectProperty(Identifier(z), NumericLiteral(5))];
    var init := CallExpression(Identifier(decl.name), [ObjectExpression(props)]);
    var reference := Use(Path(call, init), Path(binding, VariableDeclarator(Identifier(x), Some(init))));
    var values: Entries<int> := [(a, 3), (z, 5)];
    TwoProperties(a, z, props, values);
    TwoPairs(a, z, values);
    var inst := Instance(x, values);
    assert ParseInstanceSpec(reference) == Success(inst);
    PackExample(a, z);
    InstanceWithoutUses(decl, map[x := []], reference, inst);
  }

  /** An instance with no uses is rewritten by its declarator alone. */
  lemma InstanceWithoutUses(decl: Decl, index: ReferenceIndex, reference: Use, inst: Instance)
    requires ParseInstanceSpec(reference) == Success(inst)
    requires inst.name in index && index[inst.name] == []
    ensures InstanceEdits(decl, index, reference) ==
              Success([Replace(reference.grandparent.loc, InstanceDeclarator(inst))])
  {
    assert Traverse(UseEditOf(decl, inst.name), index[inst.name]) == Success([]);
    assert [Replace(reference.grandparent.loc, InstanceDeclarator(inst))] + [] ==
           [Replace(reference.grandparent.loc, InstanceDeclarator(inst))];
  }

  /** The properties `{a: 3, z: 5}` are read as the pairs `(a, 3), (z, 5)`. */
  lemma TwoProperties(a: string, z: string, props: seq<Property>, values: Entries<int>)
    requires props == [ObjectProperty(Identifier(a), NumericLiteral(3)),
                       ObjectProperty(Identifier(z), NumericLiteral(5))]
    requires values == [(a, 3), (z, 5)]
    ensures Traverse(InstanceValue, props) == Success(values)
  {
    assert InstanceValue(props[0]) == Success(values[0]);
    assert InstanceValue(props[1]) == Success(values[1]);
    assert Traverse(InstanceValue, props[..0]) == Success([]);
    TraverseSnoc(InstanceValue, props, 0);
    TraverseSnoc(InstanceValue, props, 1);
    assert props[..2] == props && [] + [values[0]] + [values[1]] == values;
  }

  /** Two pairs with distinct keys make an object with those two entries. */
  lemma TwoPairs(a: string, z: string, values: Entries<int>)
    requires a != z && values == [(a, 3), (z, 5)]
    ensures FromPairs(values) == values
  {
    assert values[..1] == [(a, 3)] && values[..1][..0] == [];
    assert FromPairs(values[..1]) == [(a, 3)];
    assert z !in Keys([(a, 3)]);
  }
}
