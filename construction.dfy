/** CreateInstance: how a generated copier or deserializer obtains its blank result. */
module Construction {
  import opened Model

  datatype Strategy =
    | ZeroInit       // a value type: initobj on the local, every field zero
    | DefaultCtor    // a class with a public parameterless constructor: newobj
    | Uninitialized  // any other class: an uninitialized object, no constructor runs

  /** The strategy CreateInstance emits: value type first, then a parameterless
      constructor, and the uninitialized object otherwise. */
  function ChooseStrategy(t: TypeDesc): (s: Strategy)
    ensures s == ZeroInit <==> t.isValueType
    ensures s == DefaultCtor <==> !t.isValueType && t.hasDefaultCtor
    ensures s == Uninitialized <==> !t.isValueType && !t.hasDefaultCtor
  {
    if t.isValueType then ZeroInit
    else if t.hasDefaultCtor then DefaultCtor
    else Uninitialized
  }

  /** The value field `f` has in the blank instance: only a constructor run leaves
      anything but the zero value. */
  function InitialValue(t: TypeDesc, f: FieldDescriptor): Value {
    if ChooseStrategy(t) == DefaultCtor && Key(f) in t.ctorInit then t.ctorInit[Key(f)] else Default(f)
  }

  function InitFields(t: TypeDesc, fs: seq<FieldDescriptor>): (r: map<FieldKey, Value>)
    ensures r.Keys == set f | f in fs :: Key(f)
    ensures UniqueKeys(fs) ==> forall j :: 0 <= j < |fs| ==> r[Key(fs[j])] == InitialValue(t, fs[j])
    decreases |fs|
  {
    if fs == [] then map[]
    else
      var init := fs[..|fs| - 1];
      var last := fs[|fs| - 1];
      assert fs == init + [last];
      assert UniqueKeys(fs) ==> UniqueKeys(init);
      InitFields(t, init)[Key(last) := InitialValue(t, last)]
  }

  /** The blank instance of type `t`, before it is recorded or any field is stored. */
  function CreateInstance(t: TypeDesc): Obj {
    Obj(t, InitFields(t, t.fields))
  }

  /** The blank instance has type `t`, an entry for each field of `t`, and (when the
      fields' keys are distinct) each field's initial value. */
  lemma CreateInstanceSpec(t: TypeDesc)
    ensures var o := CreateInstance(t);
      && o.ty == t
      && o.fields.Keys == (set f | f in t.fields :: Key(f))
      && (UniqueKeys(t.fields) ==> forall f :: f in t.fields ==> FieldValue(o, f) == InitialValue(t, f))
  {
    assert forall f :: f in t.fields ==> exists j :: 0 <= j < |t.fields| && t.fields[j] == f;
  }

  /** Without a constructor run every field of the blank instance holds its zero value. */
  lemma BlankIsZero(t: TypeDesc, f: FieldDescriptor)
    requires UniqueKeys(t.fields) && f in t.fields
    requires ChooseStrategy(t) != DefaultCtor || Key(f) !in t.ctorInit
    ensures FieldValue(CreateInstance(t), f) == Default(f)
  {
    CreateInstanceSpec(t);
  }
}
