/** IlBasedSerializers: the per-type cache of generated triples, the one shared triple for
    open generic type definitions, the dispatch that triple performs, and the deep copy
    that the generated copiers run, whose inner copy of each field comes back through this
    registry. */
module Registry {
  import opened Model
  import opened FieldInspector
  import opened Construction
  import opened Routines
  import opened Runtime
  import opened Emitted
  import opened CopyGraph

  /** What Get returns for `t`: the shared triple for an open generic type definition, the
      generated triple (or the generation failure) for any other type. */
  function Served(t: TypeDesc): (r: Result<SerializerMethods>)
    ensures t.isGenericDefinition ==> r == Success(GenericSerializer)
    ensures !t.isGenericDefinition ==> r == GenerateSerializer(t)
  {
    if t.isGenericDefinition then Success(GenericSerializer) else GenerateSerializer(t)
  }

  /** The global table `e1` keeps every type of `e0`, and every entry that changed holds
      what Get returns for its type. */
  ghost predicate TableWrites(e0: map<TypeDesc, SerializerMethods>, e1: map<TypeDesc, SerializerMethods>) {
    && (forall t :: t in e0 ==> t in e1)
    && (forall t :: t in e1 ==> (t in e0 && e1[t] == e0[t]) || Served(t) == Success(e1[t]))
  }

  lemma TableWritesTrans(
    e0: map<TypeDesc, SerializerMethods>, e1: map<TypeDesc, SerializerMethods>, e2: map<TypeDesc, SerializerMethods>)
    requires TableWrites(e0, e1) && TableWrites(e1, e2)
    ensures TableWrites(e0, e2)
  {
  }

  /** The cache `s1` keeps every type cached in `s0`, and the log of generated types `g1`
      continues `g0`. */
  ghost predicate CacheGrows(
    s0: map<TypeDesc, SerializerMethods>, g0: seq<TypeDesc>, s1: map<TypeDesc, SerializerMethods>, g1: seq<TypeDesc>)
  {
    s0.Keys <= s1.Keys && g0 <= g1
  }

  lemma CacheGrowsTrans(
    s0: map<TypeDesc, SerializerMethods>, g0: seq<TypeDesc>, s1: map<TypeDesc, SerializerMethods>, g1: seq<TypeDesc>,
    s2: map<TypeDesc, SerializerMethods>, g2: seq<TypeDesc>)
    requires CacheGrows(s0, g0, s1, g1) && CacheGrows(s1, g1, s2, g2)
    ensures CacheGrows(s0, g0, s2, g2)
  {
    assert g2[..|g1|][..|g0|] == g2[..|g0|];
  }

  class IlBasedSerializers {
    /** The cache of generated triples, by type. */
    var serializers: map<TypeDesc, SerializerMethods>
    /** Every type handed to the builder so far, in order. */
    ghost var generated: seq<TypeDesc>
    /** SerializationManager's global table, which GetAndRegister writes. */
    const table: SerializerTable

    /** Every cached triple is the one the builder generates for its type; a type the builder
        can emit has been handed to it exactly once if it is cached and never otherwise. */
    ghost predicate Valid()
      reads this
    {
      && (forall t :: t in serializers ==> !t.isGenericDefinition && GenerateSerializer(t) == Success(serializers[t]))
      && (forall t: TypeDesc :: t.emittable ==> multiset(generated)[t] == if t in serializers then 1 else 0)
    }

    constructor (table: SerializerTable)
      ensures Valid() && serializers == map[] && generated == [] && this.table == table
    {
      serializers := map[];
      generated := [];
      this.table := table;
    }

    /** Get: the shared triple for an open generic definition, the cached triple on a hit,
        and otherwise one call of the builder, cached when it succeeds. */
    method Get(t: TypeDesc) returns (r: Result<SerializerMethods>)
      requires Valid()
      modifies this
      ensures Valid()
      ensures r == Served(t)
      ensures CacheGrows(old(serializers), old(generated), serializers, generated)
      ensures t.isGenericDefinition || t in old(serializers) ==>
        serializers == old(serializers) && generated == old(generated)
      ensures !t.isGenericDefinition && t !in old(serializers) ==>
        && generated == old(generated) + [t]
        && serializers == if r.Success? then old(serializers)[t := r.value] else old(serializers)
    {
      if t.isGenericDefinition {
        return Success(GenericSerializer);
      }
      if t in serializers {
        return Success(serializers[t]);
      }
      r := GenerateSerializer(t);
      generated := generated + [t];
      if r.Success? {
        serializers := serializers[t := r.value];
      }
    }

    /** GetAndRegister: Get, then a forced registration of the very triple returned. */
    method GetAndRegister(t: TypeDesc) returns (r: Result<SerializerMethods>)
      requires Valid()
      modifies this, table
      ensures Valid()
      ensures r == Served(t)
      ensures CacheGrows(old(serializers), old(generated), serializers, generated)
      ensures t.isGenericDefinition || t in old(serializers) ==>
        serializers == old(serializers) && generated == old(generated)
      ensures !t.isGenericDefinition && t !in old(serializers) ==>
        && generated == old(generated) + [t]
        && serializers == if r.Success? then old(serializers)[t := r.value] else old(serializers)
      ensures r.Success? ==> table.entries == old(table.entries)[t := r.value]
      ensures r.Failure? ==> table.entries == old(table.entries)
    {
      r := Get(t);
      if r.Success? {
        table.Register(t, r.value, true);
      }
    }

    /** The common frame of every step of a deep copy: the registry's invariant, the source
        graph closed, every copy on the heap, and distinct originals with distinct copies. */
    ghost predicate CopyReady(heap: Heap, ctx: CopyContext, src: set<Addr>)
      reads this, heap, ctx
    {
      && Valid() && heap.Valid() && Closed(heap.objects, src) && ContextOK(heap.objects, ctx.copies, src)
      && Injective(ctx.copies)
    }

    /** DeepCopyInner, as it reaches the generated copiers: null and primitives come back as
        they are, an original already in the context comes back as its recorded copy, and
        any other reference is copied by the triple the registry serves for its runtime type. */
    method DeepCopyInner(v: Value, heap: Heap, ctx: CopyContext, ghost src: set<Addr>) returns (r: Result<Value>)
      requires CopyReady(heap, ctx, src)
      requires v.Ref? ==> v.addr in src
      modifies this, table, heap, ctx
      ensures CopyReady(heap, ctx, src)
      ensures HeapExtends(old(heap.objects), heap.objects)
      ensures CopiesExtend(old(ctx.copies), ctx.copies)
      ensures FreshTargets(old(heap.objects), old(ctx.copies), ctx.copies)
      ensures TableWrites(old(table.entries), table.entries)
      ensures CacheGrows(old(serializers), old(generated), serializers, generated)
      ensures !(v.Ref? && v.addr !in old(ctx.copies)) ==>
        && r == Success(MapValue(old(ctx.copies), v)) && heap.objects == old(heap.objects) && ctx.copies == old(ctx.copies)
        && serializers == old(serializers) && generated == old(generated) && table.entries == old(table.entries)
      ensures Copyable(old(heap.objects), src) ==> r.Success?
      ensures r.Success? ==>
        && (v.Ref? ==> v.addr in ctx.copies)
        && r.value == MapValue(ctx.copies, v)
        && NewCopiesOK(heap.objects, old(ctx.copies).Keys, ctx.copies)
      decreases |src - ctx.copies.Keys|, 3
    {
      match v
      case Null => return Success(Null);
      case Prim(_) => return Success(v);
      case Ref(x) =>
        if x in ctx.copies {
          return Success(Ref(ctx.copies[x]));
        }
        var ty := heap.objects[x].ty;
        var m := GetAndRegister(ty);
        if m.Failure? {
          return Failure(m.error);
        }
        ghost var s1, g1 := serializers, generated;
        r := RunCopier(m.value.deepCopy, ty, v, heap, ctx, src);
        CacheGrowsTrans(old(serializers), old(generated), s1, g1, serializers, generated);
        if r.Success? {
          assert m.value.deepCopy == Some(Emitted(ty, GetFields(ty)));
          assert CopiedOK(heap.objects, ctx.copies, x);
          InnerCopyDone(heap.objects, old(ctx.copies), ctx.copies, x);
        } else {
          InnerCopyFrame(old(ctx.copies), ctx.copies, x);
        }
    }

    /** Invoking the copier delegate of a triple. The shared triple's copier, reached from
        here, would look up the same triple again without end. */
    method RunCopier(
      routine: Option<Routine>, ty: TypeDesc, raw: Value, heap: Heap, ctx: CopyContext, ghost src: set<Addr>)
      returns (r: Result<Value>)
      requires CopyReady(heap, ctx, src)
      requires raw.Ref? ==> raw.addr in src
      modifies this, table, heap, ctx
      ensures CopyReady(heap, ctx, src)
      ensures HeapExtends(old(heap.objects), heap.objects)
      ensures CopiesExtend(Without(old(ctx.copies), raw), ctx.copies)
      ensures FreshTargets(old(heap.objects), old(ctx.copies), ctx.copies)
      ensures TableWrites(old(table.entries), table.entries)
      ensures CacheGrows(old(serializers), old(generated), serializers, generated)
      ensures routine == None ==> r == Failure(NullRoutine)
      ensures routine == Some(GenericDispatch) ==> r == Failure(RecursesForever(ty.name))
      ensures Copyable(old(heap.objects), src) && routine.Some? && routine.value.Emitted? && raw.Ref? ==>
        (old(heap.objects)[raw.addr].ty == routine.value.ty ==> r.Success?)
      ensures r.Success? ==>
        && routine.Some? && routine.value.Emitted? && raw.Ref?
        && raw.addr in old(heap.objects) && old(heap.objects)[raw.addr].ty == routine.value.ty
        && CopiedAs(heap.objects, ctx.copies, raw.addr, routine.value.fields)
        && r.value == Ref(ctx.copies[raw.addr])
        && NewCopiesOK(heap.objects, old(ctx.copies).Keys + {raw.addr}, ctx.copies)
      decreases |src - Without(ctx.copies, raw).Keys|, 2
    {
      match routine
      case None => return Failure(NullRoutine);
      case Some(GenericDispatch) => return Failure(RecursesForever(ty.name));
      case Some(Emitted(t, fields)) => r := CopyEmitted(t, fields, raw, heap, ctx, src);
    }

    /** The copier emitted for `t` over `fields`: cast the input, build the blank result (a
        failure to create it ends the copier before it records anything), record original ->
        result in the context, then store each listed field, as it is when its declared type
        is shallow-copyable and through DeepCopyInner otherwise. */
    method CopyEmitted(
      t: TypeDesc, fields: seq<FieldDescriptor>, raw: Value, heap: Heap, ctx: CopyContext, ghost src: set<Addr>)
      returns (r: Result<Value>)
      requires CopyReady(heap, ctx, src)
      requires raw.Ref? ==> raw.addr in src
      modifies this, table, heap, ctx
      ensures CopyReady(heap, ctx, src)
      ensures HeapExtends(old(heap.objects), heap.objects)
      ensures CopiesExtend(Without(old(ctx.copies), raw), ctx.copies)
      ensures FreshTargets(old(heap.objects), old(ctx.copies), ctx.copies)
      ensures TableWrites(old(table.entries), table.entries)
      ensures CacheGrows(old(serializers), old(generated), serializers, generated)
      ensures raw.Null? ==>
        r == Failure(NullReference) && heap.objects == old(heap.objects) && ctx.copies == old(ctx.copies)
      ensures !raw.Null? && CastTo(t, old(heap.objects), raw).Failure? ==>
        r == Failure(TypeMismatch) && heap.objects == old(heap.objects) && ctx.copies == old(ctx.copies)
      ensures CastTo(t, old(heap.objects), raw).Success? && !t.constructs ==>
        r == Failure(ConstructionFailure(t.name)) && heap.objects == old(heap.objects) && ctx.copies == old(ctx.copies)
      ensures Copyable(old(heap.objects), src) && CastTo(t, old(heap.objects), raw).Success? ==> r.Success?
      ensures r.Success? ==>
        && CastTo(t, old(heap.objects), raw).Success? && t.constructs
        && CopiedAs(heap.objects, ctx.copies, raw.addr, fields)
        && r.value == Ref(ctx.copies[raw.addr])
        && NewCopiesOK(heap.objects, old(ctx.copies).Keys + {raw.addr}, ctx.copies)
      decreases |src - Without(ctx.copies, raw).Keys|, 1
    {
      if raw.Null? {
        return Failure(NullReference);
      }
      var cast := CastTo(t, heap.objects, raw);
      if cast.Failure? {
        return Failure(TypeMismatch);
      }
      if !t.constructs {
        return Failure(ConstructionFailure(t.name));
      }
      r := CopyObject(t, fields, raw, cast.value, heap, ctx, src);
    }

    /** The copier past its cast, for a type whose blank instance can be created: `o`, the
        object at `raw`, has type `t`. */
    method CopyObject(
      t: TypeDesc, fields: seq<FieldDescriptor>, raw: Value, o: Obj, heap: Heap, ctx: CopyContext, ghost src: set<Addr>)
      returns (r: Result<Value>)
      requires CopyReady(heap, ctx, src)
      requires raw.Ref? && raw.addr in src && raw.addr in heap.objects && heap.objects[raw.addr] == o && o.ty == t
      requires t.constructs
      modifies this, table, heap, ctx
      ensures CopyReady(heap, ctx, src)
      ensures HeapExtends(old(heap.objects), heap.objects)
      ensures CopiesExtend(Without(old(ctx.copies), raw), ctx.copies)
      ensures FreshTargets(old(heap.objects), old(ctx.copies), ctx.copies)
      ensures TableWrites(old(table.entries), table.entries)
      ensures CacheGrows(old(serializers), old(generated), serializers, generated)
      ensures Copyable(old(heap.objects), src) ==> r.Success?
      ensures r.Success? ==>
        && CopiedAs(heap.objects, ctx.copies, raw.addr, fields)
        && r.value == Ref(ctx.copies[raw.addr]) && r.value.addr !in old(heap.objects)
        && NewCopiesOK(heap.objects, old(ctx.copies).Keys + {raw.addr}, ctx.copies)
      decreases |src - Without(ctx.copies, raw).Keys|, 0
    {
      var orig := raw.addr;
      ghost var h0, c0 := heap.objects, ctx.copies;
      ghost var done := Without(c0, raw).Keys;
      var blank := CreateInstance(t);
      var a := heap.Alloc(blank);
      ctx.RecordObject(orig, a);
      ghost var h1, c1 := heap.objects, ctx.copies;
      assert table.entries == old(table.entries);
      CopierStart(h0, c0, src, raw, o, a, blank);
      RecordKeepsInjective(h0, c0, src, orig, a);
      MeasureDrops(src, done, c1.Keys, orig);
      var stored := CopyListedFields(fields, 0, o, orig, a, t, heap, ctx, src, h0, h1, c1, blank.fields);
      if stored.Failure? {
        FrameOut(h0, h1, c0, c1, heap.objects, ctx.copies, raw);
        return Failure(stored.error);
      }
      CopierFinish(h0, h1, c0, c1, heap.objects, ctx.copies, raw, o, a, t, fields);
      return Success(Ref(a));
    }

    /** The copier's stores from field `i` on: each listed field of the original `o`, in
        order, copied into the result `a`, which is already allocated and recorded as the copy
        of `orig`. The emitted code is one store per listed field, in list order. */
    method CopyListedFields(
      fields: seq<FieldDescriptor>, i: nat, o: Obj, orig: Addr, a: Addr, t: TypeDesc, heap: Heap, ctx: CopyContext,
      ghost src: set<Addr>, ghost h0: map<Addr, Obj>, ghost h1: map<Addr, Obj>, ghost c1: map<Addr, Addr>,
      ghost into: map<FieldKey, Value>)
      returns (r: Result<()>)
      requires i <= |fields|
      requires CopyReady(heap, ctx, src)
      requires CopierProgress(h0, h1, c1, heap.objects, ctx.copies, orig, o, a, t, into, fields[..i])
      requires a !in h0 && a in h1 && a !in src && orig in src
      modifies this, table, heap, ctx
      ensures CopyReady(heap, ctx, src)
      ensures TableWrites(old(table.entries), table.entries)
      ensures CacheGrows(old(serializers), old(generated), serializers, generated)
      ensures Copyable(h0, src) ==> r.Success?
      ensures r.Success? ==> CopierProgress(h0, h1, c1, heap.objects, ctx.copies, orig, o, a, t, into, fields)
      ensures r.Failure? ==> CopierFrame(h0, h1, c1, heap.objects, ctx.copies)
      decreases |src - c1.Keys|, 6, |fields| - i
    {
      if i == |fields| {
        assert fields[..i] == fields;
        return Success(());
      }
      MeasureKeeps(src, c1.Keys, ctx.copies.Keys);
      var step := CopyField(fields, i, o, orig, a, t, heap, ctx, src, h0, h1, c1, into);
      if step.Failure? {
        return Failure(step.error);
      }
      ghost var e1, s1, g1 := table.entries, serializers, generated;
      r := CopyListedFields(fields, i + 1, o, orig, a, t, heap, ctx, src, h0, h1, c1, into);
      TableWritesTrans(old(table.entries), e1, table.entries);
      CacheGrowsTrans(old(serializers), old(generated), s1, g1, serializers, generated);
    }

    /** One of the copier's stores: the copied value of field `i` of the original `o`,
        stored in the result `a`. */
    method CopyField(
      fields: seq<FieldDescriptor>, i: nat, o: Obj, orig: Addr, a: Addr, t: TypeDesc, heap: Heap, ctx: CopyContext,
      ghost src: set<Addr>, ghost h0: map<Addr, Obj>, ghost h1: map<Addr, Obj>, ghost c1: map<Addr, Addr>,
      ghost into: map<FieldKey, Value>)
      returns (r: Result<()>)
      requires i < |fields|
      requires CopyReady(heap, ctx, src)
      requires CopierProgress(h0, h1, c1, heap.objects, ctx.copies, orig, o, a, t, into, fields[..i])
      requires a !in h0 && a in h1 && a !in src && orig in src
      modifies this, table, heap, ctx
      ensures CopyReady(heap, ctx, src)
      ensures TableWrites(old(table.entries), table.entries)
      ensures CacheGrows(old(serializers), old(generated), serializers, generated)
      ensures Copyable(h0, src) ==> r.Success?
      ensures r.Success? ==> CopierProgress(h0, h1, c1, heap.objects, ctx.copies, orig, o, a, t, into, fields[..i + 1])
      ensures r.Failure? ==> CopierFrame(h0, h1, c1, heap.objects, ctx.copies)
      decreases |src - ctx.copies.Keys|, 5
    {
      var f := fields[i];
      ghost var fs := fields[..i];
      PrefixSnoc(fields, i);
      ghost var hb, cb := heap.objects, ctx.copies;
      CopyableStable(h0, hb, src);
      var stored := CopyFieldValue(o, f, heap, ctx, src, orig);
      if stored.Failure? {
        FrameAfterCall(h0, h1, c1, hb, cb, heap.objects, ctx.copies);
        return Failure(stored.error);
      }
      FieldStored(h0, h1, c1, hb, cb, heap.objects, ctx.copies, orig, o, a, t, into, fs, f, src);
      heap.Store(a, Key(f), stored.value);
      return Success(());
    }

    /** The value the copier stores for field `f` of `o`, a source object: the value itself
        when the field's declared type is shallow-copyable, its deep copy otherwise. */
    method CopyFieldValue(o: Obj, f: FieldDescriptor, heap: Heap, ctx: CopyContext, ghost src: set<Addr>, ghost orig: Addr)
      returns (r: Result<Value>)
      requires CopyReady(heap, ctx, src)
      requires orig in src && heap.objects[orig] == o
      modifies this, table, heap, ctx
      ensures CopyReady(heap, ctx, src)
      ensures HeapExtends(old(heap.objects), heap.objects)
      ensures CopiesExtend(old(ctx.copies), ctx.copies)
      ensures FreshTargets(old(heap.objects), old(ctx.copies), ctx.copies)
      ensures TableWrites(old(table.entries), table.entries)
      ensures CacheGrows(old(serializers), old(generated), serializers, generated)
      ensures f.shallowCopyable ==> r == Success(FieldValue(o, f))
      ensures Copyable(old(heap.objects), src) ==> r.Success?
      ensures r.Success? ==>
        && NewCopiesOK(heap.objects, old(ctx.copies).Keys, ctx.copies)
        && r.value == CopiedFieldValue(ctx.copies, o, f)
        && (!f.shallowCopyable && FieldValue(o, f).Ref? ==> FieldValue(o, f).addr in ctx.copies)
      decreases |src - ctx.copies.Keys|, 4
    {
      if f.shallowCopyable {
        return Success(FieldValue(o, f));
      }
      FieldInSrc(heap.objects, src, orig, f);
      r := DeepCopyInner(FieldValue(o, f), heap, ctx, src);
    }

    /** The shared triple's copier: null comes back as null with no lookup; any other input
        is copied by the triple GetAndRegister serves for its runtime type. */
    method GenericCopy(raw: Value, heap: Heap, ctx: CopyContext, ghost src: set<Addr>) returns (r: Result<Value>)
      requires CopyReady(heap, ctx, src)
      requires raw.Ref? ==> raw.addr in src
      modifies this, table, heap, ctx
      ensures CopyReady(heap, ctx, src)
      ensures HeapExtends(old(heap.objects), heap.objects)
      ensures CopiesExtend(Without(old(ctx.copies), raw), ctx.copies)
      ensures FreshTargets(old(heap.objects), old(ctx.copies), ctx.copies)
      ensures TableWrites(old(table.entries), table.entries)
      ensures CacheGrows(old(serializers), old(generated), serializers, generated)
      ensures !raw.Ref? ==>
        && r == (if raw.Null? then Success(Null) else Failure(Unsupported))
        && heap.objects == old(heap.objects) && ctx.copies == old(ctx.copies)
        && serializers == old(serializers) && generated == old(generated) && table.entries == old(table.entries)
      ensures Copyable(old(heap.objects), src) && !raw.Prim? ==> r.Success?
      ensures raw.Ref? ==> var ty := old(heap.objects)[raw.addr].ty;
        && (ty.isGenericDefinition ==> r == Failure(RecursesForever(ty.name)))
        && (!ty.isGenericDefinition && !ty.emittable ==> r == Failure(GenerationFailure(ty.name, EmitFailure(ty.name))))
        && (r.Success? ==>
          && CopiedOK(heap.objects, ctx.copies, raw.addr)
          && r.value == Ref(ctx.copies[raw.addr])
          && NewCopiesOK(heap.objects, old(ctx.copies).Keys + {raw.addr}, ctx.copies)
          && ty in table.entries && table.entries[ty] == GenerateSerializer(ty).value)
    {
      match raw
      case Null => return Success(Null);
      case Prim(_) => return Failure(Unsupported);
      case Ref(x) =>
        var ty := heap.objects[x].ty;
        var m := GetAndRegister(ty);
        if m.Failure? {
          return Failure(m.error);
        }
        ghost var e1, s1, g1 := table.entries, serializers, generated;
        r := RunCopier(m.value.deepCopy, ty, raw, heap, ctx, src);
        CacheGrowsTrans(old(serializers), old(generated), s1, g1, serializers, generated);
        assert ty in e1;
    }

    /** The older serializer's copier for `t`, generated on demand: the same stores over
        the older field list, with each inner copy coming back through this registry. */
    method OlderCopy(t: TypeDesc, raw: Value, heap: Heap, ctx: CopyContext, ghost src: set<Addr>)
      returns (r: Result<Value>)
      requires CopyReady(heap, ctx, src)
      requires raw.Ref? ==> raw.addr in src
      modifies this, table, heap, ctx
      ensures CopyReady(heap, ctx, src)
      ensures HeapExtends(old(heap.objects), heap.objects)
      ensures CopiesExtend(Without(old(ctx.copies), raw), ctx.copies)
      ensures FreshTargets(old(heap.objects), old(ctx.copies), ctx.copies)
      ensures TableWrites(old(table.entries), table.entries)
      ensures CacheGrows(old(serializers), old(generated), serializers, generated)
      ensures !t.olderEmittable ==> r == Failure(EmitFailure(t.name))
      ensures Copyable(old(heap.objects), src) && t.olderEmittable && raw.Ref? && old(heap.objects)[raw.addr].ty == t ==>
        r.Success?
      ensures r.Success? ==>
        && raw.Ref? && old(heap.objects)[raw.addr].ty == t
        && CopiedAs(heap.objects, ctx.copies, raw.addr, OlderGetFields(t))
        && r.value == Ref(ctx.copies[raw.addr])
        && NewCopiesOK(heap.objects, old(ctx.copies).Keys + {raw.addr}, ctx.copies)
    {
      var m := OlderGenerateSerializer(t);
      if m.Failure? {
        return Failure(m.error);
      }
      r := RunCopier(m.value.deepCopy, t, raw, heap, ctx, src);
    }

    /** The shared triple's serializer: null is written as the null marker with no lookup;
        any other input is written by the serializer GetAndRegister serves for its runtime
        type, handed the same stream and expected type. */
    method GenericSerialize(c: Codec, heap: Heap, raw: Value, w: TokenWriter, expected: Option<TypeDesc>)
      returns (r: Result<()>)
      requires Valid()
      requires raw.Ref? ==> raw.addr in heap.objects
      modifies this, table, w
      ensures Valid()
      ensures TableWrites(old(table.entries), table.entries)
      ensures CacheGrows(old(serializers), old(generated), serializers, generated)
      ensures !raw.Ref? ==>
        && r == (if raw.Null? then Success(()) else Failure(Unsupported))
        && w.tokens == old(w.tokens) + (if raw.Null? then [NullToken] else [])
        && serializers == old(serializers) && generated == old(generated) && table.entries == old(table.entries)
      ensures raw.Ref? ==> var ty := heap.objects[raw.addr].ty;
        && (ty.isGenericDefinition ==>
             r == Failure(RecursesForever(ty.name)) && table.entries == old(table.entries)[ty := GenericSerializer])
        && (!ty.isGenericDefinition && !ty.emittable ==>
             r == Failure(GenerationFailure(ty.name, EmitFailure(ty.name))) && table.entries == old(table.entries))
        && (!ty.isGenericDefinition && ty.emittable ==>
             && r == Success(())
             && table.entries == old(table.entries)[ty := GenerateSerializer(ty).value]
             && w.tokens == old(w.tokens) + FieldTokens(c, heap.objects[raw.addr], GetFields(ty)))
        && (r.Failure? ==> w.tokens == old(w.tokens))
    {
      match raw
      case Null =>
        w.WriteNull();
        return Success(());
      case Prim(_) => return Failure(Unsupported);
      case Ref(x) =>
        var ty := heap.objects[x].ty;
        var m := GetAndRegister(ty);
        if m.Failure? {
          return Failure(m.error);
        }
        match m.value.serialize
        case None => return Failure(NullRoutine);
        case Some(GenericDispatch) => return Failure(RecursesForever(ty.name));
        case Some(Emitted(t, fields)) => r := SerializeEmitted(t, fields, c, heap, raw, w, expected);
    }

    /** The shared triple's deserializer: it dispatches on `expected` alone, before reading
        anything, to the deserializer GetAndRegister serves for that type. */
    method GenericDeserialize(
      c: Codec, heap: Heap, ctx: DeserializationContext, expected: TypeDesc, reader: TokenReader)
      returns (r: Result<Value>)
      requires Valid() && heap.Valid() && reader.Valid()
      modifies this, table, heap, ctx, reader
      ensures Valid() && heap.Valid() && reader.Valid()
      ensures TableWrites(old(table.entries), table.entries)
      ensures CacheGrows(old(serializers), old(generated), serializers, generated)
      ensures expected.isGenericDefinition ==>
        && r == Failure(RecursesForever(expected.name))
        && table.entries == old(table.entries)[expected := GenericSerializer]
        && reader.pos == old(reader.pos) && heap.objects == old(heap.objects) && ctx.objects == old(ctx.objects)
      ensures !expected.isGenericDefinition && !expected.emittable ==>
        && r == Failure(GenerationFailure(expected.name, EmitFailure(expected.name)))
        && table.entries == old(table.entries)
        && reader.pos == old(reader.pos) && heap.objects == old(heap.objects) && ctx.objects == old(ctx.objects)
      ensures !expected.isGenericDefinition && expected.emittable ==>
        && table.entries == old(table.entries)[expected := GenerateSerializer(expected).value]
        && Deserializes(c, expected, GetFields(expected), reader.tokens, old(reader.pos), old(heap.objects),
             old(ctx.objects), r, reader.pos, heap.objects, ctx.objects)
    {
      var m := GetAndRegister(expected);
      if m.Failure? {
        return Failure(m.error);
      }
      r := RunDeserializer(m.value.deserialize, c, heap, ctx, expected, reader);
    }

    /** Invoking the deserializer delegate of a triple with the declared type `expected`. */
    method RunDeserializer(
      routine: Option<Routine>, c: Codec, heap: Heap, ctx: DeserializationContext, expected: TypeDesc,
      reader: TokenReader)
      returns (r: Result<Value>)
      requires heap.Valid() && reader.Valid()
      modifies heap, ctx, reader
      ensures heap.Valid() && reader.Valid()
      ensures routine == None ==> r == Failure(NullRoutine)
      ensures routine == Some(GenericDispatch) ==> r == Failure(RecursesForever(expected.name))
      ensures !(routine.Some? && routine.value.Emitted?) ==>
        reader.pos == old(reader.pos) && heap.objects == old(heap.objects) && ctx.objects == old(ctx.objects)
      ensures routine.Some? && routine.value.Emitted? ==>
        Deserializes(c, routine.value.ty, routine.value.fields, reader.tokens, old(reader.pos), old(heap.objects),
          old(ctx.objects), r, reader.pos, heap.objects, ctx.objects)
    {
      match routine
      case None => return Failure(NullRoutine);
      case Some(GenericDispatch) => return Failure(RecursesForever(expected.name));
      case Some(Emitted(t, fields)) => r := DeserializeEmitted(t, fields, c, heap, ctx, expected, reader);
    }
  }
}
