/**
  Type classification: which C++ types the serializer treats as POD
  (copied byte for byte), fixed-size, or variable-size.

  A C++ type is represented by a `TypeTag`. The set of types that have been
  passed to the POD declaration macro is a `Registry`; the header itself
  declares the six glm types. `std::is_standard_layout` and
  `std::is_trivially_copyable` are attributes of a tag, not derived.
 */
module Traits {

  /** The eleven primitive types the header specialises as POD. */
  datatype Primitive =
    | Int8 | UInt8 | Int16 | UInt16 | Int32 | UInt32 | Int64 | UInt64
    | Float | Double | Bool

  /** The third-party math types the header declares as POD; opaque here. */
  datatype GlmType = Vec2 | Vec3 | Vec4 | Quat | Mat3 | Mat4

  datatype TypeTag =
    | Prim(prim: Primitive)
    /** A glm type: standard-layout and trivially copyable. */
    | Glm(glm: GlmType)
    /** A user-defined struct with its two layout attributes. */
    | Aggregate(name: string, standardLayout: bool, triviallyCopyable: bool)
    /** `std::vector<element>`. */
    | Vector(element: TypeTag)
    /** `std::string`. */
    | StdString
    /** The type with a top-level `const` and/or `volatile`. */
    | CvQualified(base: TypeTag)

  /** The types passed to `RIFT_SERIALIZER_DECLARE_RIFT_POD`. */
  type Registry = set<TypeTag>

  /** The six declarations the header makes itself. */
  const GlmDeclarations: Registry :=
    {Glm(Vec2), Glm(Vec3), Glm(Vec4), Glm(Quat), Glm(Mat3), Glm(Mat4)}

  /** `std::remove_cv_t`: drops the top-level qualifiers. */
  function RemoveCv(t: TypeTag): (r: TypeTag)
    ensures !r.CvQualified?
  {
    if t.CvQualified? then RemoveCv(t.base) else t
  }

  /**
    `std::is_standard_layout`. Whether the standard containers are
    standard-layout is implementation-defined; the model picks false for them
    (some standard libraries answer true).
   */
  function IsStandardLayout(t: TypeTag): bool {
    match t
    case Prim(_) => true
    case Glm(_) => true
    case Aggregate(_, sl, _) => sl
    case Vector(_) => false
    case StdString => false
    case CvQualified(b) => IsStandardLayout(b)
  }

  /** `std::is_trivially_copyable`: the standard containers own heap memory, so are not. */
  function IsTriviallyCopyable(t: TypeTag): bool {
    match t
    case Prim(_) => true
    case Glm(_) => true
    case Aggregate(_, _, tc) => tc
    case Vector(_) => false
    case StdString => false
    case CvQualified(b) => IsTriviallyCopyable(b)
  }

  /** `detail::is_rift_pod_impl<T>`: the primitive specialisations plus the declared types. */
  predicate IsRiftPodImpl(registry: Registry, t: TypeTag) {
    t.Prim? || t in registry
  }

  /** `is_rift_pod<T>`. */
  predicate IsRiftPod(registry: Registry, t: TypeTag) {
    IsRiftPodImpl(registry, RemoveCv(t))
  }

  /** `is_rift_fixed_size<T>`. */
  predicate IsRiftFixedSize(registry: Registry, t: TypeTag) {
    IsRiftPod(registry, RemoveCv(t))
  }

  /** `detail::is_rift_variable_size_impl<T>`: every `std::vector` and `std::string`. */
  predicate IsRiftVariableSizeImpl(t: TypeTag) {
    t.Vector? || t.StdString?
  }

  /** `is_rift_variable_size<T>`. */
  predicate IsRiftVariableSize(t: TypeTag) {
    IsRiftVariableSizeImpl(RemoveCv(t))
  }

  /**
    The compile-time diagnostics the library can raise. `Redeclared` is the
    redefinition of an explicit specialisation of `is_rift_pod_impl` that the
    header or an earlier declaration already made.
   */
  datatype SchemaError = NotStandardLayout | NotTriviallyCopyable | Redeclared | BothFixedAndVariable

  /** The outcome of a compile-time check. */
  datatype Compile<T> = Compiled(value: T) | CompileError(errors: set<SchemaError>)

  /** Whether `is_rift_pod_impl<t>` is already explicitly specialised: a primitive or a declared type. */
  predicate AlreadySpecialised(registry: Registry, t: TypeTag) {
    t.Prim? || t in registry
  }

  /**
    `RIFT_SERIALIZER_DECLARE_RIFT_POD(t)`: specialises `is_rift_pod_impl<t>`
    and checks two static assertions. It adds t to the registry when nothing
    fails; otherwise every failure is reported: a second specialisation of an
    already specialised type, and each static assertion that fails.
   */
  function DeclareRiftPod(registry: Registry, t: TypeTag): (r: Compile<Registry>)
    ensures r.Compiled? <==> !AlreadySpecialised(registry, t) && IsStandardLayout(t) && IsTriviallyCopyable(t)
    ensures r.Compiled? ==> r.value == registry + {t}
    ensures r.CompileError? ==>
      (Redeclared in r.errors <==> AlreadySpecialised(registry, t)) &&
      (NotStandardLayout in r.errors <==> !IsStandardLayout(t)) &&
      (NotTriviallyCopyable in r.errors <==> !IsTriviallyCopyable(t)) &&
      BothFixedAndVariable !in r.errors
  {
    var errors := (if AlreadySpecialised(registry, t) then {Redeclared} else {})
                + (if IsStandardLayout(t) then {} else {NotStandardLayout})
                + (if IsTriviallyCopyable(t) then {} else {NotTriviallyCopyable});
    if errors == {} then Compiled(registry + {t}) else CompileError(errors)
  }

  /** A registry built only from declarations the macro accepted. */
  predicate Accepted(registry: Registry) {
    forall t :: t in registry ==> IsStandardLayout(t) && IsTriviallyCopyable(t)
  }

  /** `check_type_concepts<T>()`: true, or a build failure when t is both fixed- and variable-size. */
  function CheckTypeConcepts(registry: Registry, t: TypeTag): (r: Compile<bool>)
    ensures r == Compiled(true) || r == CompileError({BothFixedAndVariable})
  {
    if IsRiftFixedSize(registry, t) && IsRiftVariableSize(t)
    then CompileError({BothFixedAndVariable})
    else Compiled(true)
  }

  lemma {:induction false} RemoveCvIdempotent(t: TypeTag)
    ensures RemoveCv(RemoveCv(t)) == RemoveCv(t)
  {
    if t.CvQualified? {
      RemoveCvIdempotent(t.base);
    }
  }

  /** Qualifiers do not change the layout attributes. */
  lemma {:induction false} AttributesIgnoreCv(t: TypeTag)
    ensures IsStandardLayout(RemoveCv(t)) == IsStandardLayout(t)
    ensures IsTriviallyCopyable(RemoveCv(t)) == IsTriviallyCopyable(t)
  {
    if t.CvQualified? {
      AttributesIgnoreCv(t.base);
    }
  }

  /** With no declarations, exactly the eleven primitives (however qualified) are POD. */
  lemma NotPodUnlessDeclared(t: TypeTag)
    ensures IsRiftPod({}, t) <==> RemoveCv(t).Prim?
  {
  }

  /** Every primitive is POD and fixed-size, under any registry and any qualification. */
  lemma PrimitivesArePod(registry: Registry, p: Primitive)
    ensures IsRiftPod(registry, Prim(p)) && IsRiftPod(registry, CvQualified(Prim(p)))
    ensures IsRiftFixedSize(registry, Prim(p)) && IsRiftFixedSize(registry, CvQualified(Prim(p)))
  {
  }

  /**
    Fixed-size is exactly POD. So the non-POD branch of the array view's
    element read can never be taken.
   */
  lemma FixedSizeIsPod(registry: Registry, t: TypeTag)
    ensures IsRiftFixedSize(registry, t) == IsRiftPod(registry, t)
  {
    RemoveCvIdempotent(t);
  }

  /** Variable-size is exactly `std::vector` of anything and `std::string`, however qualified. */
  lemma VariableSizeExactly(t: TypeTag)
    ensures IsRiftVariableSize(t) <==> RemoveCv(t).Vector? || RemoveCv(t) == StdString
    ensures IsRiftVariableSize(Vector(t)) && IsRiftVariableSize(StdString)
  {
  }

  /** Qualifying a type changes none of its classifications. */
  lemma ClassificationIgnoresCv(registry: Registry, t: TypeTag)
    ensures IsRiftPod(registry, CvQualified(t)) == IsRiftPod(registry, t)
    ensures IsRiftFixedSize(registry, CvQualified(t)) == IsRiftFixedSize(registry, t)
    ensures IsRiftVariableSize(CvQualified(t)) == IsRiftVariableSize(t)
  {
    RemoveCvIdempotent(t);
  }

  /** A declaration the macro accepts keeps the registry made only of accepted declarations. */
  lemma DeclarationsKeepRegistryAccepted(registry: Registry, t: TypeTag)
    requires Accepted(registry)
    ensures DeclareRiftPod(registry, t).Compiled? ==> Accepted(DeclareRiftPod(registry, t).value)
  {
  }

  /** Declaring the same type twice does not compile: the second is a redefinition. */
  lemma RedeclarationFails(registry: Registry, t: TypeTag)
    requires DeclareRiftPod(registry, t).Compiled?
    ensures DeclareRiftPod(DeclareRiftPod(registry, t).value, t) == CompileError({Redeclared})
  {
  }

  /** A run of declarations made one after another; the first that fails stops the build. */
  function DeclareAll(registry: Registry, ts: seq<TypeTag>): Compile<Registry>
    decreases |ts|
  {
    if ts == [] then Compiled(registry)
    else
      match DeclareRiftPod(registry, ts[0])
      case CompileError(errors) => CompileError(errors)
      case Compiled(next) => DeclareAll(next, ts[1..])
  }

  /**
    Declaring, one after another, distinct new types that all pass the layout
    checks compiles, and registers exactly those types.
   */
  lemma {:induction false} DeclareDistinctTypes(registry: Registry, ts: seq<TypeTag>)
    requires forall i :: 0 <= i < |ts| ==>
               !AlreadySpecialised(registry, ts[i]) && IsStandardLayout(ts[i]) && IsTriviallyCopyable(ts[i])
    requires forall i, j :: 0 <= i < j < |ts| ==> ts[i] != ts[j]
    ensures DeclareAll(registry, ts).Compiled?
    ensures forall t :: t in DeclareAll(registry, ts).value <==> t in registry || t in ts
    decreases |ts|
  {
    if ts != [] {
      var next := registry + {ts[0]};
      assert DeclareRiftPod(registry, ts[0]) == Compiled(next);
      var rest := ts[1..];
      forall i | 0 <= i < |rest|
        ensures !AlreadySpecialised(next, rest[i]) && IsStandardLayout(rest[i]) && IsTriviallyCopyable(rest[i])
      {
        assert rest[i] == ts[i + 1];
      }
      forall i, j | 0 <= i < j < |rest|
        ensures rest[i] != rest[j]
      {
        assert rest[i] == ts[i + 1] && rest[j] == ts[j + 1];
      }
      DeclareDistinctTypes(next, rest);
      assert forall t :: t in ts <==> t == ts[0] || t in rest;
    }
  }

  /** The header's own glm declarations are accepted, and made in order from none they compile to the six types. */
  lemma GlmDeclarationsAccepted()
    ensures Accepted(GlmDeclarations)
    ensures DeclareAll({}, [Glm(Vec2), Glm(Vec3), Glm(Vec4), Glm(Quat), Glm(Mat3), Glm(Mat4)]) == Compiled(GlmDeclarations)
  {
    var ts := [Glm(Vec2), Glm(Vec3), Glm(Vec4), Glm(Quat), Glm(Mat3), Glm(Mat4)];
    DeclareDistinctTypes({}, ts);
    assert DeclareAll({}, ts).value == GlmDeclarations;
  }

  /**
    With any registry the macro accepted, no type is both fixed- and
    variable-size: a fixed-size type is a primitive or a declared type, a declared
    type is trivially copyable, and the standard containers are not.
   */
  lemma {:induction false} NoTypeIsBoth(registry: Registry, t: TypeTag)
    requires Accepted(registry)
    ensures CheckTypeConcepts(registry, t) == Compiled(true)
  {
    RemoveCvIdempotent(t);
    var u := RemoveCv(t);
    assert IsRiftVariableSize(t) ==> !IsTriviallyCopyable(u) && !u.Prim?;
  }

  /**
    For every registry `check_type_concepts` fails exactly for the types that are both POD
    and variable-size, with the one diagnostic, and qualifying the type does
    not change its outcome.
   */
  lemma CheckRejectsExactlyAmbiguous(registry: Registry, t: TypeTag)
    ensures CheckTypeConcepts(registry, t).CompileError? <==> IsRiftPod(registry, t) && IsRiftVariableSize(t)
    ensures CheckTypeConcepts(registry, t).CompileError? ==>
              CheckTypeConcepts(registry, t).errors == {BothFixedAndVariable}
    ensures CheckTypeConcepts(registry, CvQualified(t)) == CheckTypeConcepts(registry, t)
  {
    FixedSizeIsPod(registry, t);
    ClassificationIgnoresCv(registry, t);
  }

  /**
    The check is not vacuous: a registry that bypassed the macro's checks
    and named `std::string` makes `check_type_concepts<std::string>` fail.
   */
  lemma CheckRejectsAmbiguousType()
    ensures CheckTypeConcepts({StdString}, StdString) == CompileError({BothFixedAndVariable})
    ensures CheckTypeConcepts({StdString}, CvQualified(StdString)).CompileError?
  {
  }
}
