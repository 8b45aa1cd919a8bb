# Orleans IL-based serializers, modelled in Dafny

This project models the per-type serializer engine of the Orleans runtime. The engine has four parts:

- `IlBasedSerializerBuilder` emits three routines for a type: a deep copier, a serializer and a deserializer.
- `IlBasedSerializers` caches those triples by type and serves one shared triple for open generic type definitions.
- The older `IlBasedSerializer` emits only a copier, with a weaker field filter.
- The field inspector picks the fields all these routines walk: it filters the type's fields and sorts them by ordinal name.

The model describes what the emitted routines do when they run, not the IL that builds them. Each routine is an interpreter over an abstract object model:

- a heap of objects, each a runtime type plus field values;
- a copy context mapping originals to copies, and a deserialization context listing constructed objects;
- token sinks and sources;
- the runtime's global type-to-triple table.

The inner `SerializeInner`/`DeserializeInner` calls are an abstract codec, one token per value. The round-trip lemmas assume that codec is an inverse pair. `DeepCopyInner` is modelled as a recursive call back into the registry. Termination of the deep copy is proved: every copier records a new original in the context before it copies any field. The copy is also proved to succeed when every object of the source graph has a copyable type. A copyable type is not an open generic definition, is accepted by the builder's emitter, and has a blank instance that can be created.

Files and modules:

- `model.dfy` (Model): values, field and type descriptors, errors, the codec.
- `ordinal.dfy` (Ordinal): ordinal comparison of UTF-16 names.
- `field_inspector.dfy` (FieldInspector): both `GetFields` variants, the comparer, and the sort and its properties.
- `construction.dfy` (Construction): the `CreateInstance` strategy and the blank instance.
- `routines.dfy` (Routines): both `GenerateSerializer` variants, the specification functions of the three routines, and the round trip.
- `runtime.dfy` (Runtime): the heap, the two contexts, the token writer and reader, and the global table, as classes updated in place.
- `emitted.dfy` (Emitted): the emitted serializer and deserializer, as methods with loops.
- `copy_graph.dfy` (CopyGraph): the invariant of a deep copy in progress and the shape of a finished copy.
- `registry.dfy` (Registry): class `IlBasedSerializers`, the generic dispatch, `DeepCopyInner` and the emitted copiers, which recurse through the registry.

## Model

| member | source | states |
|---|---|---|
| Ordinal.OrdinalCompare | src/Orleans/Serialization/IlBasedSerializerBuilder.cs:248 | The ordinal comparison's sign is -1, 0 or 1, and it is 0 exactly when the two names are equal. |
| Ordinal.CompareIsOrdinalLess | src/Orleans/Serialization/IlBasedSerializerBuilder.cs:248 | The comparison is negative exactly when, at the first position where the names differ, the first has the smaller code unit, or the first is a proper prefix of the second. This is an independent reference definition of ordinal order. |
| Ordinal.CompareAntisymmetric | src/Orleans/Serialization/IlBasedSerializerBuilder.cs:248 | Swapping the arguments negates the result. |
| Ordinal.CompareTransitive | src/Orleans/Serialization/IlBasedSerializerBuilder.cs:248 | "Not after" is transitive, so the comparer is a valid sort order. |
| Ordinal.CompareTotal | src/Orleans/Serialization/IlBasedSerializerBuilder.cs:248 | Any two names are ordered one way or the other. |
| FieldInspector.Compare | src/Orleans/Serialization/IlBasedSerializerBuilder.cs:246-249 | FieldInfoComparer.Compare is 0 exactly for equal names and is antisymmetric. |
| FieldInspector.Selected | src/Orleans/Serialization/IlBasedSerializerBuilder.cs:231 | The builder's filter predicate: a field takes part unless it is [NonSerialized], static or of a pointer type. What the filtered list holds is stated by KeepSpec and GetFieldsSpec. |
| FieldInspector.OlderSelected | src/Orleans/Serialization/IlBasedSerializer.cs:144 | The older filter predicate: only [NonSerialized] fields are dropped. What the filtered list holds is stated by KeepSpec and OlderGetFieldsSpec. |
| FieldInspector.Keep | src/Orleans/Serialization/IlBasedSerializerBuilder.cs:231 | The `Where(...).ToList()` filter. KeepSpec states its contract: each admitted field is kept as often as the type lists it, and nothing else. KeepUnique states that distinct keys stay distinct. |
| FieldInspector.SortByName | src/Orleans/Serialization/IlBasedSerializerBuilder.cs:232 | `List.Sort` with FieldInfoComparer (lines 246-249). SortPermutes, SortSorted and SortUnique state its contract: a permutation, ordered by ordinal name, with keys kept distinct. SortedUniquely makes the result unique when names are distinct. |
| FieldInspector.KeepSpec | src/Orleans/Serialization/IlBasedSerializerBuilder.cs:231 | The filter keeps each admitted field as often as the type lists it, and drops every other field. |
| FieldInspector.InsertPermutes | src/Orleans/Serialization/IlBasedSerializerBuilder.cs:232 | Inserting a field adds exactly that field to the multiset. |
| FieldInspector.InsertElements | src/Orleans/Serialization/IlBasedSerializerBuilder.cs:232 | After an insertion, the list's members are the inserted field and the old members. |
| FieldInspector.SortPermutes | src/Orleans/Serialization/IlBasedSerializerBuilder.cs:232 | Sorting is a permutation of its input. |
| FieldInspector.InsertSorted | src/Orleans/Serialization/IlBasedSerializerBuilder.cs:232 | Inserting into a sorted list gives a sorted list. |
| FieldInspector.SortSorted | src/Orleans/Serialization/IlBasedSerializerBuilder.cs:232 | The sort's output is in ascending ordinal order of names. |
| FieldInspector.KeepUnique | src/Orleans/Serialization/IlBasedSerializerBuilder.cs:231 | Filtering keeps field keys distinct. |
| FieldInspector.InsertUnique | src/Orleans/Serialization/IlBasedSerializerBuilder.cs:232 | Inserting a field with a new key keeps keys distinct. |
| FieldInspector.SortUnique | src/Orleans/Serialization/IlBasedSerializerBuilder.cs:232 | Sorting keeps field keys distinct. |
| FieldInspector.SortedUniquely | src/Orleans/Serialization/IlBasedSerializerBuilder.cs:232 | Two sorted lists with the same elements and distinct names are equal. |
| FieldInspector.HeadsAgree | src/Orleans/Serialization/IlBasedSerializerBuilder.cs:232 | Two such lists start with the same field. |
| FieldInspector.SortKept | src/Orleans/Serialization/IlBasedSerializerBuilder.cs:231-232 | Filter then sort, for either filter: the admitted fields with their multiplicities, sorted, with distinct keys when the type's keys are distinct. |
| FieldInspector.GetFields | src/Orleans/Serialization/IlBasedSerializerBuilder.cs:229-234 | The builder's field list: the selected fields, sorted by name. GetFieldsSpec states its contract, and OrderIndependentOfReflection states that reflection's order does not matter when names are distinct. |
| FieldInspector.OlderGetFields | src/Orleans/Serialization/IlBasedSerializer.cs:140-148 | The older field list: all but the [NonSerialized] fields, sorted by name. OlderGetFieldsSpec states its contract, and OlderKeepsMore relates it to the builder's list. |
| FieldInspector.GetFieldsSpec | src/Orleans/Serialization/IlBasedSerializerBuilder.cs:229-234 | The builder's list holds exactly the fields that are not [NonSerialized], not static and not pointer-typed, each as often as the type lists it. It is sorted by ordinal name, and its keys are distinct when the type's are. |
| FieldInspector.OlderGetFieldsSpec | src/Orleans/Serialization/IlBasedSerializer.cs:140-148 | The same for the older list, whose filter drops only [NonSerialized] fields. |
| FieldInspector.OrderIndependentOfReflection | src/Orleans/Serialization/IlBasedSerializerBuilder.cs:229-234 | Two types whose fields reflection reports in different orders get the same list, provided the selected names are distinct. So generations made at different times agree on field order. |
| FieldInspector.OlderKeepsMore | src/Orleans/Serialization/IlBasedSerializer.cs:142-145 | Every field that is not [NonSerialized] is in the older list. The builder's list has it exactly when it is neither static nor pointer-typed. |
| Construction.ChooseStrategy | src/Orleans/Serialization/IlBasedSerializerBuilder.cs:200-222 | A value type is zero-initialised; otherwise a public parameterless constructor is used; otherwise the object is allocated uninitialised. Each case holds exactly under its condition. |
| Construction.InitFields | src/Orleans/Serialization/IlBasedSerializerBuilder.cs:200-222 | The blank field map has an entry for each field of the type, holding that field's initial value. |
| Construction.InitialValue | src/Orleans/Serialization/IlBasedSerializerBuilder.cs:200-222 | The value a field has in the blank instance: the default constructor's value when that constructor runs and sets the field, and the zero value otherwise. BlankIsZero states the zero case. |
| Construction.CreateInstance | src/Orleans/Serialization/IlBasedSerializerBuilder.cs:200-222 | The blank instance the chosen strategy builds. CreateInstanceSpec states its contract: the type, an entry for every field, and each field's initial value. |
| Construction.CreateInstanceSpec | src/Orleans/Serialization/IlBasedSerializerBuilder.cs:200-222 | The blank instance has the type, an entry for every field, and for each field the constructor's value or the zero value. |
| Construction.BlankIsZero | src/Orleans/Serialization/IlBasedSerializerBuilder.cs:214-221 | Without a constructor run, every field of the blank instance holds its zero value. |
| Routines.GenerateSerializer | src/Orleans/Serialization/IlBasedSerializerBuilder.cs:75-89 | All three routines are built from the one GetFields list. Generation fails exactly when emission fails, and the failure is wrapped and carries the type. |
| Routines.OlderGenerateSerializer | src/Orleans/Serialization/IlBasedSerializer.cs:42-50 | A copier over the older field list, with the serializer and deserializer null. It fails exactly when the older generator's emission fails, a verdict separate from the builder's, and the failure is not wrapped. |
| Routines.FieldTokens | src/Orleans/Serialization/IlBasedSerializerBuilder.cs:151-160 | There is one token per listed field; token j is the inner write of field j's value under its declared type. |
| Routines.ReadFieldsKeys | src/Orleans/Serialization/IlBasedSerializerBuilder.cs:183-192 | The deserializer's result keeps every blank entry and adds every listed field. A field it does not list keeps its blank value. |
| Routines.ReadFieldsSnoc | src/Orleans/Serialization/IlBasedSerializerBuilder.cs:185-191 | Proof helper: one more read extends ReadFields by exactly that field, holding the decoded token, on top of the earlier reads. |
| Routines.ReadFieldsAt | src/Orleans/Serialization/IlBasedSerializerBuilder.cs:183-192 | With distinct keys, field j holds what token j decodes to. |
| Routines.CopyFieldsKeys | src/Orleans/Serialization/IlBasedSerializerBuilder.cs:115-130 | The copier's result keeps every blank entry and adds every listed field. An unlisted field keeps its blank value. |
| Routines.CopyFieldsAt | src/Orleans/Serialization/IlBasedSerializerBuilder.cs:122-129 | With distinct keys, listed field j holds the original's value when its type is shallow-copyable, and the value's copy otherwise. |
| Routines.CopyFieldsStable | src/Orleans/Serialization/IlBasedSerializerBuilder.cs:115-130 | Copies recorded later do not change what was stored for references already copied. |
| Routines.RoundTrip | src/Orleans/Serialization/IlBasedSerializerBuilder.cs:79-82 | With an inverse codec, the deserializer over the serializer's tokens gives back every listed field as it was. Every unlisted field holds the blank instance's value. |
| Routines.RoundTripListed | src/Orleans/Serialization/IlBasedSerializerBuilder.cs:183-192 | The listed-field half of the round trip. |
| Routines.RoundTripUnlisted | src/Orleans/Serialization/IlBasedSerializerBuilder.cs:231 | The unlisted-field half of the round trip; it holds for any codec. |
| Routines.NonSerializedComesBackZero | test/TesterInternal/Serialization/SerializerGenerationTests.cs:66 | A [NonSerialized] field comes back as its zero value unless a parameterless constructor set it. |
| Runtime.Heap.Store | src/Orleans/Serialization/IlBasedSerializerBuilder.cs:129 | A store changes exactly one field of one object. |
| Runtime.Heap.Alloc | src/Orleans/Serialization/IlBasedSerializerBuilder.cs:200-222 | The object that `newobj`, `initobj` or `GetUninitializedObject` produces is placed at an address that was not in use, and no other object changes. |
| Runtime.CopyContext.RecordObject | src/Orleans/Serialization/IlBasedSerializerBuilder.cs:108-112 | Recording adds exactly the entry original -> result. |
| Runtime.DeserializationContext.RecordObject | src/Orleans/Serialization/IlBasedSerializerBuilder.cs:177-180 | Recording appends exactly the constructed object. |
| Runtime.TokenWriter.WriteNull | src/Orleans/Serialization/IlBasedSerializers.cs:34 | Appends exactly one null marker. |
| Runtime.TokenWriter.Write | src/Orleans/Serialization/IlBasedSerializerBuilder.cs:156-159 | The inner write of one field value appends exactly its token to the stream. |
| Runtime.TokenReader.Read | src/Orleans/Serialization/IlBasedSerializerBuilder.cs:189 | Returns the next token and advances by one. At the end of the stream it fails and does not move. |
| Runtime.SerializerTable.Register | src/Orleans/Serialization/IlBasedSerializers.cs:49 | An existing entry is replaced exactly when the registration is forced. |
| Emitted.CastTo | src/Orleans/Serialization/IlBasedSerializerBuilder.cs:287-291 | The cast succeeds exactly on a reference to an object of the routine's type, and then yields that object. |
| Emitted.SerializeEmitted | src/Orleans/Serialization/IlBasedSerializerBuilder.cs:138-164 | On a successful cast, it appends exactly FieldTokens of the object and nothing else. A failed cast writes nothing. Null fails at the first field load, or at the unbox for a value type, so a class without listed fields serializes null as nothing. |
| Emitted.DeserializeEmitted | src/Orleans/Serialization/IlBasedSerializerBuilder.cs:166-198 | When the blank instance cannot be created it fails with ConstructionFailure, before anything is recorded or read. Otherwise it succeeds exactly when one token is left per listed field. On success it returns a fresh object, recorded once, that is the blank instance with fields read in list order, and it has consumed one token per field. Otherwise it fails with StreamExhausted at the end of the stream, and the fresh object is recorded all the same, holding the fields read before the stream ran out. Old objects are untouched. |
| Emitted.DeserializeInto | src/Orleans/Serialization/IlBasedSerializerBuilder.cs:175-195 | Past the creation of the blank instance: it allocates and records the object before any read, then reads its fields, with the outcome above on both paths. |
| Emitted.ReadFieldsInto | src/Orleans/Serialization/IlBasedSerializerBuilder.cs:182-191 | One inner read per listed field, in list order, each stored in its field. It succeeds exactly when the stream holds a token per field. When the stream runs out, the fields read so far stay stored and the rest keep their blank values. |
| CopyGraph.CopierStart | src/Orleans/Serialization/IlBasedSerializerBuilder.cs:105-112 | Allocating the blank result and recording original -> result, before any field is copied, starts the copier's invariant. |
| CopyGraph.ProgressAfterCall | src/Orleans/Serialization/IlBasedSerializerBuilder.cs:125 | A nested DeepCopyInner that only adds finished copies keeps the copier's progress. |
| CopyGraph.ProgressAfterStore | src/Orleans/Serialization/IlBasedSerializerBuilder.cs:129 | Storing one field's copied value moves the copier one field on. |
| CopyGraph.FieldStored | src/Orleans/Serialization/IlBasedSerializerBuilder.cs:117-129 | One whole loop step, nested copy and then store, moves the copier one field on. |
| CopyGraph.CopierFinish | src/Orleans/Serialization/IlBasedSerializerBuilder.cs:132-135 | After the last field, the copy of the original is finished, and every copy made meanwhile is finished too. |
| CopyGraph.FrameOut | src/Orleans/Serialization/IlBasedSerializerBuilder.cs:115-130 | A copier that stops early has still only grown the heap and the context. |
| CopyGraph.InnerCopyDone | src/Orleans/Serialization/IlBasedSerializerBuilder.cs:125 | After a successful inner copy of a new original, the whole earlier context is kept and every new entry is finished. |
| CopyGraph.MeasureDrops | src/Orleans/Serialization/IlBasedSerializerBuilder.cs:108-112 | Recording the original shrinks the set of uncopied source objects. This is the termination measure of the deep copy. |
| CopyGraph.CopyFieldWise | src/Orleans/Serialization/IlBasedSerializerBuilder.cs:115-130 | In a finished copy: a listed shallow-copyable field holds the original's value; any other listed field holds the copy of the original's value; an unlisted field holds its CreateInstance value. |
| CopyGraph.SelfReferenceResolves | src/Orleans/Serialization/IlBasedSerializerBuilder.cs:108-112 | A deep-copied field that refers to its own object refers, in the copy, to the copy itself. |
| CopyGraph.RecordKeepsInjective | src/Orleans/Serialization/IlBasedSerializerBuilder.cs:108-112 | Recording an original against a freshly allocated result keeps distinct originals mapped to distinct copies. |
| CopyGraph.DeepFieldCopied | src/Orleans/Serialization/IlBasedSerializerBuilder.cs:122-129 | In a finished copy, a deep-copied reference field refers to the recorded copy of the original's child. |
| CopyGraph.SharingPreserved | src/Orleans/Serialization/IlBasedSerializerBuilder.cs:108-112 | With an injective context, two deep-copied reference fields of finished copies refer to one copy exactly when the originals refer to one child. Shared children stay shared; distinct children keep distinct copies. |
| CopyGraph.CopyIsClosed | src/Orleans/Serialization/IlBasedSerializerBuilder.cs:115-130 | When every context entry is finished, each deep-copied reference of a copy leads to a finished copy. |
| Registry.Served | src/Orleans/Serialization/IlBasedSerializers.cs:53-57 | An open generic definition gets the shared triple; any other type gets the builder's triple or its failure. |
| Registry.IlBasedSerializers.constructor | src/Orleans/Serialization/IlBasedSerializers.cs:17-20 | It starts with an empty cache and nothing generated. |
| Registry.IlBasedSerializers.Get | src/Orleans/Serialization/IlBasedSerializers.cs:53-57 | Returns what Served says. An open generic definition or a cache hit leaves the cache and the generation log untouched. A miss calls the builder exactly once and caches a success. The invariant keeps each emittable type generated at most once. |
| Registry.IlBasedSerializers.GetAndRegister | src/Orleans/Serialization/IlBasedSerializers.cs:46-51 | Returns what Get returns and force-registers exactly that triple in the global table. The cache and the generation log change exactly as in Get. |
| Registry.IlBasedSerializers.GenericCopy | src/Orleans/Serialization/IlBasedSerializers.cs:24-28 | Null gives null, with no lookup and no change to the cache, the log or the table. Otherwise it uses the copier of the triple served for the runtime type, which is registered, and on success the result is that type's finished copy. Generation failures and self-dispatch come back as errors. When every source object has a copyable type, any reference is copied successfully. |
| Registry.IlBasedSerializers.RunCopier | src/Orleans/Serialization/IlBasedSerializers.cs:27 | Invoking a triple's copier delegate: null gives NullRoutine, the shared triple gives RecursesForever, and an emitted copier succeeds only with a finished copy. An emitted copier for the input's own type succeeds whenever every source object has a copyable type. |
| Registry.IlBasedSerializers.DeepCopyInner | src/Orleans/Serialization/IlBasedSerializerBuilder.cs:125 | Null and primitives come back as they are, and a recorded original comes back as its copy. In those cases nothing changes: not the heap, the context, the cache, the log or the table. Any other reference is copied by its served triple, and on success it is recorded and every new copy is finished. When every source object has a copyable type, the copy succeeds. The context stays injective, the cache only grows and the log only extends, so each emittable type is still generated at most once. |
| Registry.IlBasedSerializers.CopyEmitted | src/Orleans/Serialization/IlBasedSerializerBuilder.cs:91-136 | The emitted copier: null fails, a failed cast fails, and a blank instance that cannot be created fails with ConstructionFailure, with nothing recorded. Success yields a finished copy of the input over the given field list. Past a successful cast, it succeeds whenever every source object has a copyable type, as the source returns its result unless something throws. |
| Registry.IlBasedSerializers.CopyObject | src/Orleans/Serialization/IlBasedSerializerBuilder.cs:104-135 | Past the cast, it allocates, records, stores every listed field, and returns the recorded copy. The copy is an object that was not on the heap before, and the context stays injective. It succeeds whenever every source object has a copyable type. |
| Registry.IlBasedSerializers.CopyListedFields | src/Orleans/Serialization/IlBasedSerializerBuilder.cs:115-130 | The stores from field i on leave the copier's progress over the whole list. They all succeed whenever every source object has a copyable type. |
| Registry.IlBasedSerializers.CopyField | src/Orleans/Serialization/IlBasedSerializerBuilder.cs:117-129 | One store: the copier's progress advances by exactly field i. It succeeds whenever every source object has a copyable type. |
| Registry.IlBasedSerializers.CopyFieldValue | src/Orleans/Serialization/IlBasedSerializerBuilder.cs:118-127 | A shallow-copyable field gives its value unchanged; any other gives its deep copy, whose original is then recorded. The deep copy succeeds whenever every source object has a copyable type. |
| Registry.IlBasedSerializers.OlderCopy | src/Orleans/Serialization/IlBasedSerializer.cs:52-119 | The older copier: when the older emission fails, it fails with that EmitFailure. On success it gives a finished copy over the older field list. When the older emission succeeds on the input's own type and every source object has a copyable type, it succeeds. |
| Registry.IlBasedSerializers.GenericSerialize | src/Orleans/Serialization/IlBasedSerializers.cs:30-39 | Null writes exactly one null marker, with no lookup. A reference is written by the serializer served for its runtime type, exactly FieldTokens of the object, and that triple is registered. Failures write nothing. |
| Registry.IlBasedSerializers.GenericDeserialize | src/Orleans/Serialization/IlBasedSerializers.cs:41 | It dispatches on the expected type alone, before reading. For an emittable type the outcome is exactly that type's emitted deserializer and the triple is registered. A type that cannot be emitted fails with nothing read or built. An open generic definition, which in the source dispatches to itself without end, is reported as RecursesForever. |
| Registry.IlBasedSerializers.RunDeserializer | src/Orleans/Serialization/IlBasedSerializers.cs:41 | Invoking a triple's deserializer delegate: a null delegate fails without reading, the shared triple's self-dispatch is reported as RecursesForever, and an emitted deserializer behaves as DeserializeEmitted. |

## Left out

- Sigil IL emission, `DynamicMethod` and the method lookups are not modelled. Whether emission succeeds for a type is a given flag: `TypeDesc.emittable` for the builder and `TypeDesc.olderEmittable` for the older generator.
- Reflection (`GetAllFields`, `GetConstructor`, `IsValueType`, `IsGenericTypeDefinition`) is not modelled. Its answers are given fields of the type descriptor.
- The rule inside `IsOrleansShallowCopyable` is not part of this model. Its verdict on each field's declared type is a given flag of the field descriptor.
- The inner codec never reads the deserialization context. So the model does not resolve a back-reference in the stream to an object already constructed, such as the object under construction. For the same reason, the deserializer is not proved to rebuild a cycle, the counterpart of the copier's SelfReferenceResolves.
- The byte encoding of `BinaryTokenStreamWriter`/`Reader` is not modelled. A stream is a sequence of tokens, and the inner `SerializeInner`/`DeserializeInner` are an abstract codec writing one token per value.
- `SerializationManager`'s internals are not part of this model: `Register` is a map update, and `DeepCopyInner` is the registry recursion described above.
- `ConcurrentDictionary` thread safety and racing `GetOrAdd` calls are not modelled. There is no concurrency, and `Get` runs sequentially.
- Boxing identity is not modelled. A value-type instance handed to a routine is a heap object with an address, the same as a boxed value. A struct value stored in a field is modelled as a `Ref` to such an object, which the model may share, where the source boxes the field's value afresh on every read and copy. The zero value of a struct-typed field, `default(S)`, is not such an object: it is `Prim(0)`, the same zero a primitive field holds (`Model.Default`).
- Construction.BlankIsZero: a struct-typed field of the blank instance holds `Prim(0)`, where the source holds a zeroed struct whose own fields are zero. The model gives the zeroed struct no fields.
- Routines.NonSerializedComesBackZero: a struct-typed [NonSerialized] field comes back as `Prim(0)`, standing for the zeroed struct `default(S)` as above.
- Registry.IlBasedSerializers.CopyObject: for a value type the source records one box of the blank local (line 111) and returns a second box of the filled local (line 133), so the recorded copy is not the returned one. The model records and returns one object.
- Emitted.DeserializeEmitted: for a value type the source records a box of the blank local (line 179) and returns a different box of the filled local (line 195). The model records and returns one object, the filled one.
- CopyGraph.SelfReferenceResolves: holds for the model's copies. For a value type in the source, the recorded copy is the box of the blank local, not the returned box, and a struct cannot hold a reference to itself anyway.
- CopyGraph.SharingPreserved: holds for the model's copies, where a struct-typed field's value is a shared `Ref`. In the source every struct-typed field value is a fresh box, so it is sharing between class-typed fields that carries over.
- Construction.CreateInstance: a constructor's side effects other than the field values it assigns (`TypeDesc.ctorInit`) are not modelled. Whether creating the instance succeeds at run time, which fails for an abstract type under `GetUninitializedObject` or for a constructor that throws, is the given flag `TypeDesc.constructs`. A failure is the error ConstructionFailure, not an exception.
- Registry.IlBasedSerializers.OlderCopy: the success guarantee asks for the same copyable source set, which includes the builder's `emittable` verdict for the top-level type, although the older copier never uses the builder for its own input. It is a sufficient condition, not an exact one.
- Registry.IlBasedSerializers.DeepCopyInner: the success guarantee asks every object of the source set for a copyable type, not only the objects reachable through deep-copied fields. It is a sufficient condition, not an exact one.
- Registry.IlBasedSerializers.DeepCopyInner: does not model `SerializationManager.DeepCopyInner`'s own check of the runtime type for shallow copyability, or any copier other than the registry's. Those lie outside this model.
- Emitted.CastTo: needs the exact runtime type and does not model subtyping. A boxed primitive fails the cast.
- Registry.IlBasedSerializers.GenericCopy: a primitive handed to the generic routines fails as Unsupported. The model gives primitives no runtime type to dispatch on.
- Registry.IlBasedSerializers.GenericCopy: a runtime type that is an open generic definition has the same unbounded self-dispatch in the source. The model reports RecursesForever.
- Registry.IlBasedSerializers.RunCopier: the shared triple reached from its own dispatch recurses without end in the source (a stack overflow). The model returns RecursesForever instead.
- Registry.IlBasedSerializers.RunDeserializer: the shared triple's deserializer, handed an open generic definition, calls `Get` on that definition and runs the same delegate again (`IlBasedSerializers.cs` lines 41 and 55), which overflows the stack. The model returns RecursesForever without reading.
- Registry.IlBasedSerializers.GenericSerialize: the shared triple's serializer reached for an open generic runtime type is the same unbounded recursion. Such a type has no instances, so the model reports RecursesForever.
- Registry.IlBasedSerializers.GenericDeserialize: an open generic `expected` type recurses without end in the source, as above. The model reports RecursesForever. A null `expected` type cannot be stated, because the model's types are names. In the source it throws on `expected.GetTypeInfo()`.
- Registry.IlBasedSerializers.CopyEmitted: a null input fails with NullReference for every type. In the source the emitted copier's cast passes null for a class, and what follows depends on `RecordObject(null, …)` in `SerializationManager`, which is not part of this model. The builder's serializer, by contrast, writes nothing for a type with no fields, whatever the input.
- The `CastOrUnbox` applied to the result of the inner deep copy and of the inner read (`IlBasedSerializerBuilder.cs` lines 126 and 190) is not modelled. The inner calls return values of the field's type.
- FieldInspector.SortByName: is a stable insertion sort, whereas `List.Sort` is unstable. The order of two selected fields with the same name, such as a base and a derived field, is therefore one fixed choice. OrderIndependentOfReflection requires the names to be distinct.
- Routines.OlderGenerateSerializer: the older generator's IL-level differences from the builder are not modelled: `CastClass` where the builder unboxes, no boxing of value types, and loading the type token without `GetTypeFromHandle`. Whether that IL is accepted is the given flag `olderEmittable`, not something derived from the IL, and its runtime steps are modelled as the builder's.
- Static fields are modelled as per-object field entries. The older copier keeps static fields, and the model does not capture that storing one copies a shared value.
- Pointer-typed fields are carried only as a flag: the builder drops them, and the older list keeps them like any other field.
- Invoking a null delegate of the older triple is modelled as the error NullRoutine. In .NET it is a NullReferenceException.
- The exception type's serialization constructor, `[Serializable]` and the `#if NETSTANDARD` variants are platform plumbing and are not modelled.
- The copier's stores for the listed fields are modelled as recursion over the field index, one call per store in list order. The emitted IL is straight-line code unrolled from a `foreach` at generation time.
