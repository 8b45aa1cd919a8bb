/** The abstract object model that the generated routines run over: names as UTF-16
    code units, field and type descriptors as reflection reports them, values and
    heap objects, the error kinds, and the inner codec that writes one value. */
module Model {

  /** One UTF-16 code unit; a .NET string is a sequence of these. */
  newtype CodeUnit = x: int | 0 <= x < 0x1_0000

  type Name = seq<CodeUnit>

  /** A heap address. */
  type Addr = nat

  /** What a field or a variable holds: null, a primitive (unboxed) value, or a reference. */
  datatype Value = Null | Prim(bits: int) | Ref(addr: Addr)

  /** A field as reflection describes it. `shallowCopyable` is the verdict of the
      runtime's shallow-copyability rule on the field's declared type, which is given. */
  datatype FieldDescriptor = FieldDescriptor(
    declaringType: Name,
    name: Name,
    fieldType: Name,
    fieldTypeIsValueType: bool,
    isNotSerialized: bool,
    isStatic: bool,
    isPointer: bool,
    shallowCopyable: bool)

  /** Fields are identified by declaring type and name: a derived type may declare a
      field with the same name as one of its base type's. */
  datatype FieldKey = FieldKey(declaringType: Name, name: Name)

  function Key(f: FieldDescriptor): FieldKey {
    FieldKey(f.declaringType, f.name)
  }

  /** A type as reflection describes it: all fields of the type and its ancestors, the
      shape flags, the field values the public parameterless constructor leaves (when there
      is one), whether the builder's and the older generator's IL emission succeed for it
      (the emitter's own checks are given, one verdict per generator, since the two emit
      different instructions), and whether creating an instance of it succeeds at run time
      (false for an abstract type, or a parameterless constructor that throws). */
  datatype TypeDesc = TypeDesc(
    name: Name,
    fields: seq<FieldDescriptor>,
    isValueType: bool,
    hasDefaultCtor: bool,
    ctorInit: map<FieldKey, Value>,
    isGenericDefinition: bool,
    emittable: bool,
    olderEmittable: bool,
    constructs: bool)

  /** A heap object: its runtime type and its field values. */
  datatype Obj = Obj(ty: TypeDesc, fields: map<FieldKey, Value>)

  /** The zero value of a field's declared type. */
  function Default(f: FieldDescriptor): Value {
    if f.fieldTypeIsValueType then Prim(0) else Null
  }

  /** What reading field `f` of `o` yields; a field the object has no entry for holds its zero value. */
  function FieldValue(o: Obj, f: FieldDescriptor): Value {
    if Key(f) in o.fields then o.fields[Key(f)] else Default(f)
  }

  ghost predicate UniqueKeys(fs: seq<FieldDescriptor>) {
    forall i, j :: 0 <= i < j < |fs| ==> Key(fs[i]) != Key(fs[j])
  }

  datatype Error =
    | EmitFailure(ty: Name)                       // the emitter rejected the routine for this type
    | GenerationFailure(ty: Name, inner: Error)   // the builder's wrapper around any generation failure
    | NullReference                               // a generated routine was handed null
    | TypeMismatch                                // cast or unbox to the routine's type failed
    | StreamExhausted                             // a read past the end of the token source
    | NullRoutine                                 // invoking a routine the triple does not have
    | RecursesForever(ty: Name)                   // the generic triple would dispatch to itself without end
    | Unsupported                                 // a boxed primitive handed to the generic routines
    | ConstructionFailure(ty: Name)               // creating the blank instance of this type failed

  datatype Option<+T> = None | Some(value: T)

  datatype Result<+T> = Success(value: T) | Failure(error: Error)

  /** One unit of the wire: the null marker or one value written by the inner codec. */
  datatype Token = NullToken | Datum(bits: int)

  /** The runtime's inner write and read of one value, under a declared-type hint. */
  datatype Codec = Codec(enc: (Value, Name) -> Token, dec: (Name, Token) -> Value)

  /** Reading back what was written, under the same hint, yields the value written. */
  ghost predicate Inverse(c: Codec) {
    forall v, n :: c.dec(n, c.enc(v, n)) == v
  }
}
