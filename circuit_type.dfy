/** The `circuit_type` attribute macro (circuit-macros/src/circuit_type.rs):
    parsing and validating its arguments, the identifier and generics
    helpers, and the field order of the generated `to_scalars` and
    `from_scalars` methods. Identifiers are strings; a syntax tree is kept
    only as far as these helpers look into it. A `panic!` or failed
    `assert!` in the macro becomes a `Failure` carrying its message. */
module CircuitTypeMacro {
  import opened Wrappers
  import opened Scalars

  // ---------------------------------------------------------------------
  // Macro arguments
  // ---------------------------------------------------------------------

  const ArgSingleprover := "singleprover_circuit"
  const ArgMpc := "mpc"
  const ArgMultiprover := "multiprover_circuit"
  const ArgLinkable := "linkable"
  const ArgMultiproverLinkable := "multiprover_linkable"
  const ArgSecretShare := "secret_share"
  const ArgSerde := "serde"

  /** `MacroArgs`; its derived default has every flag off. */
  datatype MacroArgs = MacroArgs(
    singleprover: bool,
    linkable: bool,
    mpc: bool,
    multiprover: bool,
    multiproverLinkable: bool,
    secretShare: bool,
    serde: bool)

  const DefaultArgs := MacroArgs(false, false, false, false, false, false, false)

  datatype MacroError = UnexpectedArgument(name: string) | InvalidArguments(message: string)

  const ErrMultiprover := "multiprover circuit type requires singleprover and mpc circuit types"
  const ErrLinkable := "linkable types require a circuit base type to implement"
  const ErrMultiproverLinkable := "multiprover linkable types require both circuit base type and base linkable types"
  const ErrSecretShare := "secret share types require single-prover circuit types"

  /** The combinations of types the macro can build. */
  predicate ValidCombination(a: MacroArgs)
  {
    && (a.multiprover ==> a.singleprover && a.mpc)
    && (a.linkable ==> a.singleprover)
    && (a.multiproverLinkable ==> a.singleprover && a.linkable)
    && (a.secretShare ==> a.singleprover)
  }

  /** `MacroArgs::validate`: the message of the first failed check, if any. */
  function Validate(a: MacroArgs): (r: Option<string>)
    ensures r.None? <==> ValidCombination(a)
    ensures r.Some? ==> r.value in {ErrMultiprover, ErrLinkable, ErrMultiproverLinkable, ErrSecretShare}
  {
    if a.multiprover && !(a.singleprover && a.mpc) then Some(ErrMultiprover)
    else if a.linkable && !a.singleprover then Some(ErrLinkable)
    else if a.multiproverLinkable && !(a.singleprover && a.linkable) then Some(ErrMultiproverLinkable)
    else if a.secretShare && !a.singleprover then Some(ErrSecretShare)
    else None
  }

  predicate KnownArg(name: string)
  {
    name in {ArgSingleprover, ArgLinkable, ArgMpc, ArgMultiprover, ArgMultiproverLinkable, ArgSecretShare, ArgSerde}
  }

  /** One arm of the argument `match`: sets the named flag. */
  function SetFlag(a: MacroArgs, name: string): (r: Option<MacroArgs>)
    ensures r.Some? <==> KnownArg(name)
  {
    if name == ArgSingleprover then Some(a.(singleprover := true))
    else if name == ArgLinkable then Some(a.(linkable := true))
    else if name == ArgMpc then Some(a.(mpc := true))
    else if name == ArgMultiprover then Some(a.(multiprover := true))
    else if name == ArgMultiproverLinkable then Some(a.(multiproverLinkable := true))
    else if name == ArgSecretShare then Some(a.(secretShare := true))
    else if name == ArgSerde then Some(a.(serde := true))
    else None
  }

  /** The flags after reading `names` in order, or the first unknown name. */
  function ParseFlags(names: seq<string>): Result<MacroArgs, MacroError>
  {
    if names == [] then Success(DefaultArgs)
    else
      var last := names[|names| - 1];
      match ParseFlags(names[..|names| - 1])
      case Failure(e) => Failure(e)
      case Success(a) =>
        match SetFlag(a, last)
        case None => Failure(UnexpectedArgument(last))
        case Some(b) => Success(b)
  }

  /** The flags a list of known names turns on: exactly those named. */
  function FlagsNamed(names: seq<string>): MacroArgs
  {
    MacroArgs(ArgSingleprover in names, ArgLinkable in names, ArgMpc in names, ArgMultiprover in names,
              ArgMultiproverLinkable in names, ArgSecretShare in names, ArgSerde in names)
  }

  /** `parse_macro_args` after tokenising: the flags, then validation. */
  function ParseMacroArgsSpec(names: seq<string>): Result<MacroArgs, MacroError>
  {
    match ParseFlags(names)
    case Failure(e) => Failure(e)
    case Success(a) =>
      match Validate(a)
      case Some(message) => Failure(InvalidArguments(message))
      case None => Success(a)
  }

  /** `parse_macro_args`: sets a flag per argument, failing on the first
      unknown one, then validates. (Splitting the token stream into
      identifiers is not part of this model.) */
  method ParseMacroArgs(names: seq<string>) returns (r: Result<MacroArgs, MacroError>)
    ensures r == ParseMacroArgsSpec(names)
  {
    var macroArgs := DefaultArgs;
    var i := 0;
    while i < |names|
      invariant 0 <= i <= |names|
      invariant ParseFlags(names[..i]) == Success(macroArgs)
    {
      assert names[..i + 1][..i] == names[..i];
      var arg := names[i];
      if arg == ArgSingleprover {
        macroArgs := macroArgs.(singleprover := true);
      } else if arg == ArgLinkable {
        macroArgs := macroArgs.(linkable := true);
      } else if arg == ArgMpc {
        macroArgs := macroArgs.(mpc := true);
      } else if arg == ArgMultiprover {
        macroArgs := macroArgs.(multiprover := true);
      } else if arg == ArgMultiproverLinkable {
        macroArgs := macroArgs.(multiproverLinkable := true);
      } else if arg == ArgSecretShare {
        macroArgs := macroArgs.(secretShare := true);
      } else if arg == ArgSerde {
        macroArgs := macroArgs.(serde := true);
      } else {
        ParseFlagsStops(names, i);
        return Failure(UnexpectedArgument(arg));
      }
      i := i + 1;
    }
    assert names[..i] == names;
    var check := Validate(macroArgs);
    if check.Some? {
      return Failure(InvalidArguments(check.value));
    }
    return Success(macroArgs);
  }

  /** An unknown name after a clean prefix fails the whole parse with it. */
  lemma {:induction false} ParseFlagsStops(names: seq<string>, i: nat)
    requires i < |names| && !KnownArg(names[i])
    requires ParseFlags(names[..i]).Success?
    ensures ParseFlags(names) == Failure(UnexpectedArgument(names[i]))
    decreases |names|
  {
    assert names[..i + 1][..i] == names[..i];
    if i + 1 < |names| {
      var init := names[..|names| - 1];
      assert init[..i] == names[..i];
      ParseFlagsStops(init, i);
    } else {
      assert names[..|names| - 1] == names[..i];
    }
  }

  /** Parsing known names sets exactly the flags named, and any unknown
      name makes the parse fail. */
  lemma {:induction false} ParseFlagsExact(names: seq<string>)
    ensures ParseFlags(names).Success? <==> forall i | 0 <= i < |names| :: KnownArg(names[i])
    ensures ParseFlags(names).Success? ==> ParseFlags(names).value == FlagsNamed(names)
  {
    if names != [] {
      var init := names[..|names| - 1];
      var last := names[|names| - 1];
      ParseFlagsExact(init);
      assert names == init + [last];
      if ParseFlags(init).Success? && KnownArg(last) {
        SetFlagNamed(init, last);
      }
    }
  }

  /** Setting the flag of one more known name. */
  lemma SetFlagNamed(init: seq<string>, last: string)
    requires KnownArg(last)
    ensures SetFlag(FlagsNamed(init), last) == Some(FlagsNamed(init + [last]))
  {
    var names := init + [last];
    assert forall x :: x in names <==> x in init || x == last;
  }

  /** Accepted arguments always form a valid combination and name exactly
      the flags that are set. */
  lemma ParseMacroArgsSound(names: seq<string>)
    ensures ParseMacroArgsSpec(names).Success? ==>
      ValidCombination(ParseMacroArgsSpec(names).value) && ParseMacroArgsSpec(names).value == FlagsNamed(names)
    ensures ParseMacroArgsSpec(names).Success? <==>
      (forall i | 0 <= i < |names| :: KnownArg(names[i])) && ValidCombination(FlagsNamed(names))
  {
    ParseFlagsExact(names);
  }

  // ---------------------------------------------------------------------
  // Identifier helpers
  // ---------------------------------------------------------------------

  /** `ident_with_prefix`. */
  function WithPrefix(original: string, prefix: string): (r: string)
    ensures |r| == |prefix| + |original| && r[..|prefix|] == prefix && r[|prefix|..] == original
  {
    prefix + original
  }

  /** `ident_with_suffix`. */
  function WithSuffix(original: string, suffix: string): (r: string)
    ensures |r| == |original| + |suffix| && r[..|original|] == original && r[|original|..] == suffix
  {
    original + suffix
  }

  /** `ident_strip_prefix`: `strip_prefix(..).unwrap_or(original)`. */
  function StripPrefix(original: string, prefix: string): (r: string)
    ensures prefix <= original ==> prefix + r == original
    ensures !(prefix <= original) ==> r == original
  {
    if prefix <= original then original[|prefix|..] else original
  }

  predicate IsSuffix(suffix: string, s: string)
  {
    |suffix| <= |s| && s[|s| - |suffix|..] == suffix
  }

  /** `ident_strip_suffix`: `strip_suffix(..).unwrap_or(original)`. */
  function StripSuffix(original: string, suffix: string): (r: string)
    ensures IsSuffix(suffix, original) ==> r + suffix == original
    ensures !IsSuffix(suffix, original) ==> r == original
  {
    if IsSuffix(suffix, original) then original[..|original| - |suffix|] else original
  }

  /** Stripping a prefix that was added gives the identifier back. */
  lemma StripPrefixInverse(s: string, prefix: string)
    ensures StripPrefix(WithPrefix(s, prefix), prefix) == s
  {
    assert prefix <= prefix + s;
  }

  /** Stripping a suffix that was added gives the identifier back. */
  lemma StripSuffixInverse(s: string, suffix: string)
    ensures StripSuffix(WithSuffix(s, suffix), suffix) == s
  {
    assert (s + suffix)[|s|..] == suffix;
  }

  // ---------------------------------------------------------------------
  // Generics
  // ---------------------------------------------------------------------

  datatype GenericParam = TypeParam(ident: string) | ConstParam(ident: string) | LifetimeParam(lifetime: string)

  /** `Generics`: the parameters and the where-clause predicates, if any. */
  datatype Generics = Generics(params: seq<GenericParam>, whereClause: Option<seq<string>>)

  const ErrLifetime := "implement lifetime generic support"

  /** The names `params_from_generics` collects, or its panic on a lifetime. */
  function ParamNames(params: seq<GenericParam>): (r: Result<seq<string>, string>)
    ensures r.Success? <==> forall i | 0 <= i < |params| :: !params[i].LifetimeParam?
    ensures r.Failure? ==> r.error == ErrLifetime
    ensures r.Success? ==> |r.value| == |params| && forall i | 0 <= i < |params| :: r.value[i] == params[i].ident
  {
    if params == [] then Success([])
    else
      var last := params[|params| - 1];
      var init := ParamNames(params[..|params| - 1]);
      if init.Failure? then init
      else if last.LifetimeParam? then Failure(ErrLifetime)
      else Success(init.value + [last.ident])
  }

  /** `params_from_generics`. */
  method ParamsFromGenerics(g: Generics) returns (r: Result<seq<string>, string>)
    ensures r == ParamNames(g.params)
  {
    var res: seq<string> := [];
    var i := 0;
    while i < |g.params|
      invariant 0 <= i <= |g.params|
      invariant ParamNames(g.params[..i]) == Success(res)
    {
      assert g.params[..i + 1][..i] == g.params[..i];
      match g.params[i] {
        case TypeParam(ident) => res := res + [ident];
        case ConstParam(ident) => res := res + [ident];
        case LifetimeParam(_) =>
          ParamNamesStops(g.params, i);
          return Failure(ErrLifetime);
      }
      i := i + 1;
    }
    assert g.params[..i] == g.params;
    return Success(res);
  }

  lemma ParamNamesStops(params: seq<GenericParam>, i: nat)
    requires i < |params| && params[i].LifetimeParam?
    ensures ParamNames(params) == Failure(ErrLifetime)
  {
  }

  /** Whether a parameter passes a filter on `names`: lifetimes always,
      type and const parameters whose name is not in `names`. */
  predicate Survives(p: GenericParam, names: seq<string>)
  {
    p.LifetimeParam? || p.ident !in names
  }

  /** The parameters of `ps` that survive a name filter, in order. */
  function Unnamed(ps: seq<GenericParam>, names: seq<string>): (r: seq<GenericParam>)
    ensures |r| <= |ps|
  {
    if ps == [] then []
    else (if Survives(ps[0], names) then [ps[0]] else []) + Unnamed(ps[1..], names)
  }

  lemma {:induction false} UnnamedMembers(ps: seq<GenericParam>, names: seq<string>)
    ensures forall p :: p in Unnamed(ps, names) <==> p in ps && Survives(p, names)
  {
    if ps != [] {
      UnnamedMembers(ps[1..], names);
      assert ps == [ps[0]] + ps[1..];
    }
  }

  /** The filter distributes over concatenation: together with its
      one-element case this fixes the order and the multiplicity of what
      survives, as `Iterator::filter` keeps them. */
  lemma {:induction false} UnnamedAppend(ps: seq<GenericParam>, qs: seq<GenericParam>, names: seq<string>)
    ensures Unnamed(ps + qs, names) == Unnamed(ps, names) + Unnamed(qs, names)
  {
    if ps == [] {
      assert ps + qs == qs;
    } else {
      var all, head := ps + qs, if Survives(ps[0], names) then [ps[0]] else [];
      assert all[0] == ps[0] && all[1..] == ps[1..] + qs;
      assert Unnamed(all, names) == head + Unnamed(ps[1..] + qs, names);
      UnnamedAppend(ps[1..], qs, names);
      assert Unnamed(ps, names) == head + Unnamed(ps[1..], names);
    }
  }

  /** The names read from a lifetime-free parameter list are exactly the
      identifiers occurring in it. */
  lemma ParamNamesIdents(params: seq<GenericParam>, p: GenericParam)
    requires ParamNames(params).Success? && !p.LifetimeParam?
    ensures p.ident in ParamNames(params).value <==> exists q | q in params :: p.ident == q.ident
  {
    var names := ParamNames(params).value;
    if p.ident in names {
      var i :| 0 <= i < |names| && names[i] == p.ident;
      assert params[i] in params;
    }
  }

  function Predicates(g: Generics): seq<string>
  {
    match g.whereClause
    case None => []
    case Some(ps) => ps
  }

  /** `merge_generics`: the first set's parameters, then the second's not
      already named in the first; the where clauses concatenated. Reading
      the first set's names panics on a lifetime there. */
  function MergeGenerics(g1: Generics, g2: Generics): (r: Result<Generics, string>)
    ensures r.Success? <==> forall i | 0 <= i < |g1.params| :: !g1.params[i].LifetimeParam?
    ensures r.Success? ==> r.value.whereClause == Some(Predicates(g1) + Predicates(g2))
  {
    var names1 :- ParamNames(g1.params);
    Success(Generics(g1.params + Unnamed(g2.params, names1), Some(Predicates(g1) + Predicates(g2))))
  }

  /** The merged parameters are the first set's followed by the second set
      filtered by the first, so the second set's survivors keep their order
      and multiplicity (`FilterGenericsOrder`); a parameter of the second
      set is added exactly when it is a lifetime or its name is not taken. */
  lemma MergeGenericsParams(g1: Generics, g2: Generics)
    requires MergeGenerics(g1, g2).Success?
    ensures FilterGenerics(g2, g1).Success? &&
      MergeGenerics(g1, g2).value.params == g1.params + FilterGenerics(g2, g1).value.params
    ensures var ps := MergeGenerics(g1, g2).value.params;
      ps[..|g1.params|] == g1.params &&
      forall p :: p in ps[|g1.params|..] <==>
        p in g2.params && (p.LifetimeParam? || forall q | q in g1.params :: p.ident != q.ident)
  {
    var names1 := ParamNames(g1.params).value;
    var ps := MergeGenerics(g1, g2).value.params;
    assert ps[|g1.params|..] == Unnamed(g2.params, names1);
    UnnamedMembers(g2.params, names1);
    forall p | p in g2.params && !p.LifetimeParam?
      ensures p.ident in names1 <==> exists q | q in g1.params :: p.ident == q.ident
    {
      ParamNamesIdents(g1.params, p);
    }
  }

  /** `filter_generics`: the base parameters whose names are not in the
      filter (lifetimes kept), in order; reading the filter's names panics
      on a lifetime there. */
  function FilterGenerics(base: Generics, filter: Generics): (r: Result<Generics, string>)
    ensures r.Success? <==> forall i | 0 <= i < |filter.params| :: !filter.params[i].LifetimeParam?
    ensures r.Success? ==> r.value.whereClause == base.whereClause
  {
    var names :- ParamNames(filter.params);
    Success(base.(params := Unnamed(base.params, names)))
  }

  /** Filtering removes exactly the parameters the filter names. */
  lemma FilterGenericsParams(base: Generics, filter: Generics)
    requires FilterGenerics(base, filter).Success?
    ensures forall p :: p in FilterGenerics(base, filter).value.params <==>
      p in base.params && (p.LifetimeParam? || forall q | q in filter.params :: p.ident != q.ident)
  {
    var names := ParamNames(filter.params).value;
    UnnamedMembers(base.params, names);
    forall p | p in base.params && !p.LifetimeParam?
      ensures p.ident in names <==> exists q | q in filter.params :: p.ident == q.ident
    {
      ParamNamesIdents(filter.params, p);
    }
  }

  /** Filtering keeps the base's order and multiplicity: the filter of a
      concatenation is the concatenation of the filters, and a single
      parameter is kept alone exactly when it is a lifetime or the filter
      does not name it. */
  lemma FilterGenericsOrder(base: Generics, filter: Generics, a: seq<GenericParam>, b: seq<GenericParam>, p: GenericParam)
    requires FilterGenerics(base, filter).Success?
    ensures FilterGenerics(base.(params := a + b), filter).value.params ==
      FilterGenerics(base.(params := a), filter).value.params + FilterGenerics(base.(params := b), filter).value.params
    ensures FilterGenerics(base.(params := [p]), filter).value.params ==
      if p.LifetimeParam? || forall q | q in filter.params :: p.ident != q.ident then [p] else []
  {
    var names := ParamNames(filter.params).value;
    UnnamedAppend(a, b, names);
    assert Unnamed([p], names) == (if Survives(p, names) then [p] else []) + Unnamed([], names);
    if !p.LifetimeParam? {
      ParamNamesIdents(filter.params, p);
    }
  }

  // ---------------------------------------------------------------------
  // Generated (de)serialisation
  // ---------------------------------------------------------------------

  /** A struct field: its name (absent for a tuple field) and its type. */
  datatype Field = Field(ident: Option<string>, ty: string)

  /** `res.extend(self.<field>.<method>());` */
  datatype Stmt = ExtendWith(field: Option<string>, methodName: string)

  /** `<field>: <<ty> as <trait>>::<method>(i)` in the struct literal. */
  datatype FieldInit = FieldInit(member: string, ty: string, methodName: string)

  const ErrUnnamedField := "only named fields supported"

  /** The statements `build_serialize_method` emits, one per field. */
  function SerializeStmts(methodName: string, fields: seq<Field>): (r: seq<Stmt>)
    ensures |r| == |fields|
    ensures forall i | 0 <= i < |fields| :: r[i] == ExtendWith(fields[i].ident, methodName)
  {
    if fields == [] then [] else [ExtendWith(fields[0].ident, methodName)] + SerializeStmts(methodName, fields[1..])
  }

  /** `build_serialize_method`: one `extend` per field, in declaration order. */
  method BuildSerializeMethod(methodName: string, fields: seq<Field>) returns (stmts: seq<Stmt>)
    ensures stmts == SerializeStmts(methodName, fields)
  {
    stmts := [];
    var i := 0;
    while i < |fields|
      invariant 0 <= i <= |fields|
      invariant |stmts| == i && forall j | 0 <= j < i :: stmts[j] == ExtendWith(fields[j].ident, methodName)
    {
      stmts := stmts + [ExtendWith(fields[i].ident, methodName)];
      i := i + 1;
    }
  }

  /** The field initialisers `build_deserialize_method` emits, or its panic
      on an unnamed field. */
  function DeserializeInits(methodName: string, fields: seq<Field>): (r: Result<seq<FieldInit>, string>)
    ensures r.Success? <==> forall i | 0 <= i < |fields| :: fields[i].ident.Some?
    ensures r.Failure? ==> r.error == ErrUnnamedField
    ensures r.Success? ==> |r.value| == |fields| && forall i | 0 <= i < |fields| ::
      r.value[i] == FieldInit(fields[i].ident.value, fields[i].ty, methodName)
  {
    if fields == [] then Success([])
    else if fields[0].ident.None? then Failure(ErrUnnamedField)
    else
      var rest := DeserializeInits(methodName, fields[1..]);
      if rest.Failure? then rest
      else Success([FieldInit(fields[0].ident.value, fields[0].ty, methodName)] + rest.value)
  }

  /** `build_deserialize_method`: one initialiser per field, in declaration
      order. */
  method BuildDeserializeMethod(methodName: string, fields: seq<Field>) returns (r: Result<seq<FieldInit>, string>)
    ensures r == DeserializeInits(methodName, fields)
  {
    var inits: seq<FieldInit> := [];
    var i := 0;
    while i < |fields|
      invariant 0 <= i <= |fields|
      invariant forall j | 0 <= j < i :: fields[j].ident.Some?
      invariant |inits| == i && forall j | 0 <= j < i :: inits[j] == FieldInit(fields[j].ident.value, fields[j].ty, methodName)
    {
      if fields[i].ident.None? {
        return Failure(ErrUnnamedField);
      }
      inits := inits + [FieldInit(fields[i].ident.value, fields[i].ty, methodName)];
      i := i + 1;
    }
    r := Success(inits);
    assert r.value == DeserializeInits(methodName, fields).value;
  }

  /** Running a generated `to_scalars` on a value whose fields serialise to
      `value(name)`: the fields' scalars concatenated in statement order. */
  function RunSerialize(stmts: seq<Stmt>, value: string -> seq<Scalar>): seq<Scalar>
    requires forall i | 0 <= i < |stmts| :: stmts[i].field.Some?
  {
    if stmts == [] then [] else value(stmts[0].field.value) + RunSerialize(stmts[1..], value)
  }

  /** Running a generated `from_scalars` over an iterator: each field takes
      as many scalars as its type (`width`) from the front; running out
      panics at `unwrap`. */
  function RunDeserialize(inits: seq<FieldInit>, width: string -> nat, input: seq<Scalar>): Option<seq<(string, seq<Scalar>)>>
  {
    if inits == [] then Some([])
    else
      var w := width(inits[0].ty);
      if |input| < w then None
      else
        match RunDeserialize(inits[1..], width, input[w..])
        case None => None
        case Some(rest) => Some([(inits[0].member, input[..w])] + rest)
  }

  /** The struct literal a value of `fields` deserialises to. */
  function FieldValues(fields: seq<Field>, value: string -> seq<Scalar>): seq<(string, seq<Scalar>)>
    requires forall i | 0 <= i < |fields| :: fields[i].ident.Some?
  {
    if fields == [] then [] else [(fields[0].ident.value, value(fields[0].ident.value))] + FieldValues(fields[1..], value)
  }

  /** `from_scalars(to_scalars(x)) == x`: the generated methods visit the
      fields in the same order, so each field reads back exactly its own
      scalars, whatever follows in the iterator. */
  lemma {:induction false} SerdeFieldOrder(methodTo: string, methodFrom: string, fields: seq<Field>,
                                           value: string -> seq<Scalar>, width: string -> nat, rest: seq<Scalar>)
    requires forall i | 0 <= i < |fields| :: fields[i].ident.Some?
    requires forall i | 0 <= i < |fields| :: |value(fields[i].ident.value)| == width(fields[i].ty)
    ensures RunDeserialize(DeserializeInits(methodFrom, fields).value, width,
                           RunSerialize(SerializeStmts(methodTo, fields), value) + rest)
         == Some(FieldValues(fields, value))
  {
    if fields != [] {
      var f := fields[0];
      var tail := fields[1..];
      var head := value(f.ident.value);
      var stream := RunSerialize(SerializeStmts(methodTo, tail), value) + rest;
      SerdeFieldOrder(methodTo, methodFrom, tail, value, width, rest);
      assert SerializeStmts(methodTo, fields)[1..] == SerializeStmts(methodTo, tail);
      assert RunSerialize(SerializeStmts(methodTo, fields), value) + rest == head + stream;
      var inits := DeserializeInits(methodFrom, fields).value;
      assert inits[1..] == DeserializeInits(methodFrom, tail).value;
      assert (head + stream)[..|head|] == head && (head + stream)[|head|..] == stream;
    }
  }
}
