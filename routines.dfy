/** The routine triples the two generators produce, and what the emitted routines do to
    one object, stated as functions of their inputs: the tokens the serializer writes,
    the fields the deserializer stores, and the fields the copier stores. */
module Routines {
  import opened Model
  import opened FieldInspector
  import opened Construction

  /** What a delegate of a triple runs: a routine emitted for one type over one field
      list, or the shared dispatch that resolves the concrete type at call time. */
  datatype Routine = Emitted(ty: TypeDesc, fields: seq<FieldDescriptor>) | GenericDispatch

  /** SerializationManager.SerializerMethods; None stands for a null delegate. */
  datatype SerializerMethods = SerializerMethods(
    deepCopy: Option<Routine>,
    serialize: Option<Routine>,
    deserialize: Option<Routine>)

  /** The one triple that serves every open generic type definition. */
  const GenericSerializer := SerializerMethods(Some(GenericDispatch), Some(GenericDispatch), Some(GenericDispatch))

  /** IlBasedSerializerBuilder.GenerateSerializer: one field list feeds all three routines;
      any emission failure comes back wrapped, carrying the type. */
  function GenerateSerializer(t: TypeDesc): (r: Result<SerializerMethods>)
    ensures r.Failure? <==> !t.emittable
    ensures r.Failure? ==> r.error == GenerationFailure(t.name, EmitFailure(t.name))
    ensures r.Success? ==>
      && r.value.deepCopy == r.value.serialize == r.value.deserialize
      && r.value.deepCopy == Some(Emitted(t, GetFields(t)))
  {
    if !t.emittable then Failure(GenerationFailure(t.name, EmitFailure(t.name)))
    else
      var routine := Some(Emitted(t, GetFields(t)));
      Success(SerializerMethods(routine, routine, routine))
  }

  /** IlBasedSerializer.GenerateSerializer: a copier over the older field list and no
      serializer or deserializer; an emission failure, judged by the older generator's own
      verdict, is not wrapped. */
  function OlderGenerateSerializer(t: TypeDesc): (r: Result<SerializerMethods>)
    ensures r.Failure? <==> !t.olderEmittable
    ensures r.Failure? ==> r.error == EmitFailure(t.name)
    ensures r.Success? ==>
      && r.value.deepCopy == Some(Emitted(t, OlderGetFields(t)))
      && r.value.serialize == None && r.value.deserialize == None
  {
    if !t.olderEmittable then Failure(EmitFailure(t.name))
    else Success(SerializerMethods(Some(Emitted(t, OlderGetFields(t))), None, None))
  }

  ghost function KeysOf(fs: seq<FieldDescriptor>): set<FieldKey> {
    set f | f in fs :: Key(f)
  }

  /** The tokens the emitted serializer writes for `o`: one inner write per listed field,
      in list order, under the field's declared type. */
  function FieldTokens(c: Codec, o: Obj, fields: seq<FieldDescriptor>): (r: seq<Token>)
    ensures |r| == |fields|
    ensures forall j :: 0 <= j < |fields| ==> r[j] == c.enc(FieldValue(o, fields[j]), fields[j].fieldType)
    decreases |fields|
  {
    if fields == [] then []
    else
      var n := |fields| - 1;
      FieldTokens(c, o, fields[..n]) + [c.enc(FieldValue(o, fields[n]), fields[n].fieldType)]
  }

  /** The fields of the emitted deserializer's result: `into` (the blank instance's fields)
      with field j overwritten by the value read from token j. */
  function ReadFields(c: Codec, into: map<FieldKey, Value>, fields: seq<FieldDescriptor>, tokens: seq<Token>)
    : map<FieldKey, Value>
    requires |tokens| == |fields|
    decreases |fields|
  {
    if fields == [] then into
    else
      var n := |fields| - 1;
      ReadFields(c, into, fields[..n], tokens[..n])[Key(fields[n]) := c.dec(fields[n].fieldType, tokens[n])]
  }

  /** The object the emitted deserializer for `t` over `fields` builds from `tokens`: the
      blank instance with each listed field read back in turn. */
  function Deserialized(c: Codec, t: TypeDesc, fields: seq<FieldDescriptor>, tokens: seq<Token>): Obj
    requires |tokens| == |fields|
  {
    Obj(t, ReadFields(c, CreateInstance(t).fields, fields, tokens))
  }

  /** The deserializer's result has an entry for every field of the blank instance and every
      listed field, and a field it does not list keeps the blank instance's value. */
  lemma {:induction false} ReadFieldsKeys(
    c: Codec, into: map<FieldKey, Value>, fields: seq<FieldDescriptor>, tokens: seq<Token>)
    requires |tokens| == |fields|
    ensures var r := ReadFields(c, into, fields, tokens);
      && r.Keys == into.Keys + KeysOf(fields)
      && forall k :: k in into && k !in KeysOf(fields) ==> r[k] == into[k]
    decreases |fields|
  {
    if fields != [] {
      var n := |fields| - 1;
      assert KeysOf(fields) == KeysOf(fields[..n]) + {Key(fields[n])};
      ReadFieldsKeys(c, into, fields[..n], tokens[..n]);
    }
  }

  /** The first i + 1 fields are the first i and then field i. */
  lemma PrefixSnoc(fs: seq<FieldDescriptor>, i: nat)
    requires i < |fs|
    ensures fs[..i + 1] == fs[..i] + [fs[i]]
  {
  }

  /** Reading one more field stores what its token decodes to on top of what came before. */
  lemma ReadFieldsSnoc(
    c: Codec, into: map<FieldKey, Value>, fields: seq<FieldDescriptor>, tokens: seq<Token>, f: FieldDescriptor, t: Token)
    requires |tokens| == |fields|
    ensures ReadFields(c, into, fields + [f], tokens + [t]) == ReadFields(c, into, fields, tokens)[Key(f) := c.dec(f.fieldType, t)]
  {
    assert (fields + [f])[..|fields|] == fields;
    assert (tokens + [t])[..|tokens|] == tokens;
  }

  /** With distinct keys, field j of the deserializer's result holds what token j decodes to. */
  lemma {:induction false} ReadFieldsAt(
    c: Codec, into: map<FieldKey, Value>, fields: seq<FieldDescriptor>, tokens: seq<Token>, j: nat)
    requires |tokens| == |fields| && UniqueKeys(fields) && j < |fields|
    ensures var r := ReadFields(c, into, fields, tokens);
      Key(fields[j]) in r && r[Key(fields[j])] == c.dec(fields[j].fieldType, tokens[j])
    decreases |fields|
  {
    var n := |fields| - 1;
    if j < n {
      assert UniqueKeys(fields[..n]);
      assert Key(fields[j]) != Key(fields[n]);
      ReadFieldsAt(c, into, fields[..n], tokens[..n], j);
    }
  }

  /** What DeepCopyInner yields for `v` once `copies` records the copies made so far:
      null and primitives are returned as they are, a reference resolves to its copy. */
  function MapValue(copies: map<Addr, Addr>, v: Value): Value {
    if v.Ref? && v.addr in copies then Ref(copies[v.addr]) else v
  }

  /** What the emitted copier stores in field `f`: the source value itself when the
      declared type is shallow-copyable, its deep copy otherwise. */
  function CopiedFieldValue(copies: map<Addr, Addr>, o: Obj, f: FieldDescriptor): Value {
    if f.shallowCopyable then FieldValue(o, f) else MapValue(copies, FieldValue(o, f))
  }

  /** Every deep-copied reference among `fields` of `o` has been copied. */
  ghost predicate DeepRefsRecorded(copies: map<Addr, Addr>, o: Obj, fields: seq<FieldDescriptor>) {
    forall j :: 0 <= j < |fields| && !fields[j].shallowCopyable && FieldValue(o, fields[j]).Ref? ==>
      FieldValue(o, fields[j]).addr in copies
  }

  /** The fields of the emitted copier's result: `into` (the blank instance's fields) with
      every listed field overwritten by its copied value. */
  function CopyFields(copies: map<Addr, Addr>, into: map<FieldKey, Value>, o: Obj, fields: seq<FieldDescriptor>)
    : map<FieldKey, Value>
    decreases |fields|
  {
    if fields == [] then into
    else
      var n := |fields| - 1;
      CopyFields(copies, into, o, fields[..n])[Key(fields[n]) := CopiedFieldValue(copies, o, fields[n])]
  }

  /** The copier's result has an entry for every field of the blank instance and every listed
      field, and a field it does not list keeps the blank instance's value. */
  lemma {:induction false} CopyFieldsKeys(
    copies: map<Addr, Addr>, into: map<FieldKey, Value>, o: Obj, fields: seq<FieldDescriptor>)
    ensures var r := CopyFields(copies, into, o, fields);
      && r.Keys == into.Keys + KeysOf(fields)
      && forall k :: k in into && k !in KeysOf(fields) ==> r[k] == into[k]
    decreases |fields|
  {
    if fields != [] {
      var n := |fields| - 1;
      assert KeysOf(fields) == KeysOf(fields[..n]) + {Key(fields[n])};
      CopyFieldsKeys(copies, into, o, fields[..n]);
    }
  }

  /** With distinct keys, field j of the copier's result holds the copied value of field j. */
  lemma {:induction false} CopyFieldsAt(
    copies: map<Addr, Addr>, into: map<FieldKey, Value>, o: Obj, fields: seq<FieldDescriptor>, j: nat)
    requires UniqueKeys(fields) && j < |fields|
    ensures var r := CopyFields(copies, into, o, fields);
      Key(fields[j]) in r && r[Key(fields[j])] == CopiedFieldValue(copies, o, fields[j])
    decreases |fields|
  {
    var n := |fields| - 1;
    if j < n {
      assert UniqueKeys(fields[..n]);
      assert Key(fields[j]) != Key(fields[n]);
      CopyFieldsAt(copies, into, o, fields[..n], j);
    }
  }

  /** Copies recorded later do not change what was stored for references already copied. */
  lemma {:induction false} CopyFieldsStable(
    copies: map<Addr, Addr>, later: map<Addr, Addr>, into: map<FieldKey, Value>, o: Obj, fields: seq<FieldDescriptor>)
    requires forall a :: a in copies ==> a in later && later[a] == copies[a]
    requires DeepRefsRecorded(copies, o, fields)
    ensures CopyFields(later, into, o, fields) == CopyFields(copies, into, o, fields)
    decreases |fields|
  {
    if fields != [] {
      var n := |fields| - 1;
      assert DeepRefsRecorded(copies, o, fields[..n]);
      CopyFieldsStable(copies, later, into, o, fields[..n]);
      assert CopiedFieldValue(later, o, fields[n]) == CopiedFieldValue(copies, o, fields[n]);
    }
  }

  /** A key of a type's field list belongs to one descriptor only. */
  lemma KeyDeterminesField(fs: seq<FieldDescriptor>, f: FieldDescriptor, g: FieldDescriptor)
    requires UniqueKeys(fs) && f in fs && g in fs
    ensures Key(f) == Key(g) ==> f == g
  {
    var i :| 0 <= i < |fs| && fs[i] == f;
    var j :| 0 <= j < |fs| && fs[j] == g;
    assert Key(f) == Key(g) ==> i == j;
  }

  /** The round trip through the emitted serializer and deserializer of type `t`: with an
      inverse inner codec, every listed field of `o` comes back as it was, and every field
      left off the list holds what the blank instance held. */
  lemma RoundTrip(c: Codec, t: TypeDesc, o: Obj)
    requires Inverse(c) && UniqueKeys(t.fields)
    ensures var fields := GetFields(t);
      var back := Deserialized(c, t, fields, FieldTokens(c, o, fields));
      && (forall f :: f in fields ==> FieldValue(back, f) == FieldValue(o, f))
      && (forall f :: f in t.fields && !Selected(f) ==> FieldValue(back, f) == InitialValue(t, f))
  {
    forall f | f in GetFields(t) {
      RoundTripListed(c, t, o, f);
    }
    forall f | f in t.fields && !Selected(f) {
      RoundTripUnlisted(c, t, o, f);
    }
  }

  lemma RoundTripListed(c: Codec, t: TypeDesc, o: Obj, f: FieldDescriptor)
    requires Inverse(c) && UniqueKeys(t.fields) && f in GetFields(t)
    ensures var fields := GetFields(t);
      FieldValue(Deserialized(c, t, fields, FieldTokens(c, o, fields)), f) == FieldValue(o, f)
  {
    GetFieldsSpec(t);
    var fields := GetFields(t);
    var tokens := FieldTokens(c, o, fields);
    var j :| 0 <= j < |fields| && fields[j] == f;
    ReadFieldsAt(c, CreateInstance(t).fields, fields, tokens, j);
    assert tokens[j] == c.enc(FieldValue(o, f), f.fieldType);
  }

  lemma RoundTripUnlisted(c: Codec, t: TypeDesc, o: Obj, f: FieldDescriptor)
    requires UniqueKeys(t.fields) && f in t.fields && !Selected(f)
    ensures var fields := GetFields(t);
      FieldValue(Deserialized(c, t, fields, FieldTokens(c, o, fields)), f) == InitialValue(t, f)
  {
    GetFieldsSpec(t);
    CreateInstanceSpec(t);
    var fields := GetFields(t);
    var blank := CreateInstance(t).fields;
    ReadFieldsKeys(c, blank, fields, FieldTokens(c, o, fields));
    assert Key(f) in blank;
    forall g | g in fields ensures Key(g) != Key(f) {
      KeyDeterminesField(t.fields, f, g);
    }
  }

  /** A [NonSerialized] field reads back as its zero value unless a constructor run set it. */
  lemma NonSerializedComesBackZero(c: Codec, t: TypeDesc, o: Obj, f: FieldDescriptor)
    requires Inverse(c) && UniqueKeys(t.fields)
    requires f in t.fields && f.isNotSerialized
    requires !t.hasDefaultCtor || t.isValueType || Key(f) !in t.ctorInit
    ensures var fields := GetFields(t);
      FieldValue(Deserialized(c, t, fields, FieldTokens(c, o, fields)), f) == Default(f)
  {
    RoundTrip(c, t, o);
  }
}
