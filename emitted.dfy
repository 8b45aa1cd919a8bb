/** What the serializer and deserializer that IlBasedSerializerBuilder emits for one type
    do when they run. Both walk the same field list in order; the inner write and read of
    each field value are the runtime's codec. */
module Emitted {
  import opened Model
  import opened Construction
  import opened Routines
  import opened Runtime

  /** The cast or unbox of the routine's input to type `t`. */
  function CastTo(t: TypeDesc, heap: map<Addr, Obj>, v: Value): (r: Result<Obj>)
    ensures r.Success? <==> v.Ref? && v.addr in heap && heap[v.addr].ty == t
    ensures r.Success? ==> r.value == heap[v.addr]
  {
    match v
    case Ref(a) => if a in heap && heap[a].ty == t then Success(heap[a]) else Failure(TypeMismatch)
    case Prim(_) => Failure(TypeMismatch)
    case Null => Failure(NullReference)
  }

  lemma UpdateTwice(h: map<Addr, Obj>, a: Addr, x: Obj, y: Obj)
    ensures h[a := x][a := y] == h[a := y]
  {
  }

  /** The emitted serializer for `t` over `fields`. `expected`, the declared-type argument,
      is never loaded by the emitted code. Null passes the class cast and fails at the first
      field load; a class without listed fields therefore serializes null as nothing. */
  method SerializeEmitted(
    t: TypeDesc, fields: seq<FieldDescriptor>, c: Codec, heap: Heap, raw: Value, w: TokenWriter,
    expected: Option<TypeDesc>)
    returns (r: Result<()>)
    modifies w
    ensures raw.Null? && !t.isValueType && fields == [] ==> r == Success(()) && w.tokens == old(w.tokens)
    ensures raw.Null? && (t.isValueType || fields != []) ==> r == Failure(NullReference) && w.tokens == old(w.tokens)
    ensures !raw.Null? && CastTo(t, heap.objects, raw).Failure? ==>
      r == Failure(TypeMismatch) && w.tokens == old(w.tokens)
    ensures CastTo(t, heap.objects, raw).Success? ==>
      r == Success(()) && w.tokens == old(w.tokens) + FieldTokens(c, heap.objects[raw.addr], fields)
  {
    if raw.Null? {
      if !t.isValueType && fields == [] {
        return Success(());
      }
      return Failure(NullReference);
    }
    var cast := CastTo(t, heap.objects, raw);
    if cast.Failure? {
      return Failure(TypeMismatch);
    }
    var o := cast.value;
    var i := 0;
    while i < |fields|
      invariant 0 <= i <= |fields|
      invariant w.tokens == old(w.tokens) + FieldTokens(c, o, fields[..i])
    {
      w.Write(c.enc(FieldValue(o, fields[i]), fields[i].fieldType));
      assert fields[..i + 1][..i] == fields[..i];
      i := i + 1;
    }
    assert fields[..i] == fields;
    return Success(());
  }

  /** What one run of the emitted deserializer for `t` over `fields` does, from read position
      `p0`, heap `h0` and constructed objects `d0` to `p1`, `h1` and `d1`: when the blank
      instance cannot be created it fails before anything is recorded or read; otherwise it
      succeeds exactly when a token is left for every listed field, fails only for want of a
      token, and on success has read one token per field into a fresh object, recorded as
      constructed. */
  ghost predicate Deserializes(
    c: Codec, t: TypeDesc, fields: seq<FieldDescriptor>, tokens: seq<Token>,
    p0: nat, h0: map<Addr, Obj>, d0: seq<Addr>, r: Result<Value>, p1: nat, h1: map<Addr, Obj>, d1: seq<Addr>)
  {
    if !t.constructs then r == Failure(ConstructionFailure(t.name)) && p1 == p0 && h1 == h0 && d1 == d0
    else
      && ReadsBack(c, t, fields, tokens, p0, h0, d0, r, p1, h1, d1)
      && (r.Failure? ==> r.error == StreamExhausted && p1 == |tokens|)
  }

  /** The reads of the emitted deserializer once its blank instance exists: they succeed
      exactly when a token is left for every listed field, and on success have read one token
      per field into a fresh object, recorded as constructed. On failure the fresh object is
      recorded all the same, holding the fields read before the stream ran out. */
  ghost predicate ReadsBack(
    c: Codec, t: TypeDesc, fields: seq<FieldDescriptor>, tokens: seq<Token>,
    p0: nat, h0: map<Addr, Obj>, d0: seq<Addr>, r: Result<Value>, p1: nat, h1: map<Addr, Obj>, d1: seq<Addr>)
  {
    && (r.Success? <==> p0 + |fields| <= |tokens|)
    && (r.Success? ==>
      && r.value.Ref? && r.value.addr !in h0
      && d1 == d0 + [r.value.addr]
      && p1 == p0 + |fields|
      && h1 == h0[r.value.addr := Deserialized(c, t, fields, tokens[p0..p0 + |fields|])])
    && (r.Failure? ==>
      && p0 <= |tokens| && |d1| == |d0| + 1 && d1[..|d0|] == d0 && d1[|d0|] !in h0
      && h1 == h0[d1[|d0|] := Deserialized(c, t, fields[..|tokens| - p0], tokens[p0..])])
  }

  /** The emitted deserializer for `t` over `fields`: a blank instance, recorded before any
      read, then one inner read per field, stored in that field. It constructs `t` whatever
      `expected` says; a failure to create the instance ends it before anything else. */
  method DeserializeEmitted(
    t: TypeDesc, fields: seq<FieldDescriptor>, c: Codec, heap: Heap, ctx: DeserializationContext,
    expected: TypeDesc, reader: TokenReader)
    returns (r: Result<Value>)
    requires heap.Valid() && reader.Valid()
    modifies heap, ctx, reader
    ensures heap.Valid() && reader.Valid()
    ensures forall a :: a in old(heap.objects) ==> a in heap.objects && heap.objects[a] == old(heap.objects)[a]
    ensures Deserializes(c, t, fields, reader.tokens, old(reader.pos), old(heap.objects), old(ctx.objects),
      r, reader.pos, heap.objects, ctx.objects)
  {
    if !t.constructs {
      return Failure(ConstructionFailure(t.name));
    }
    r := DeserializeInto(t, fields, c, heap, ctx, reader);
  }

  /** The emitted deserializer past the creation of its blank instance: record it, then
      read its fields. */
  method DeserializeInto(
    t: TypeDesc, fields: seq<FieldDescriptor>, c: Codec, heap: Heap, ctx: DeserializationContext, reader: TokenReader)
    returns (r: Result<Value>)
    requires heap.Valid() && reader.Valid()
    modifies heap, ctx, reader
    ensures heap.Valid() && reader.Valid()
    ensures forall a :: a in old(heap.objects) ==> a in heap.objects && heap.objects[a] == old(heap.objects)[a]
    ensures r.Failure? ==> r.error == StreamExhausted && reader.pos == |reader.tokens|
    ensures ReadsBack(c, t, fields, reader.tokens, old(reader.pos), old(heap.objects), old(ctx.objects),
      r, reader.pos, heap.objects, ctx.objects)
  {
    var a := heap.Alloc(CreateInstance(t));
    ctx.RecordObject(a);
    assert ctx.objects[..|old(ctx.objects)|] == old(ctx.objects);
    var read := ReadFieldsInto(t, fields, c, heap, reader, a, old(heap.objects));
    if read.Failure? {
      return Failure(read.error);
    }
    return Success(Ref(a));
  }

  /** The emitted deserializer's reads: one inner read per listed field, in list order, each
      stored in its field of `a`, the blank instance allocated on `h0`. When the stream runs
      out, the fields read so far stay stored. */
  method ReadFieldsInto(
    t: TypeDesc, fields: seq<FieldDescriptor>, c: Codec, heap: Heap, reader: TokenReader, a: Addr,
    ghost h0: map<Addr, Obj>)
    returns (r: Result<()>)
    requires heap.Valid() && reader.Valid()
    requires a !in h0 && heap.objects == h0[a := CreateInstance(t)]
    modifies heap, reader
    ensures heap.Valid() && reader.Valid()
    ensures r.Success? <==> old(reader.pos) + |fields| <= |reader.tokens|
    ensures r.Success? ==>
      && reader.pos == old(reader.pos) + |fields|
      && heap.objects == h0[a := Deserialized(c, t, fields, reader.tokens[old(reader.pos)..old(reader.pos) + |fields|])]
    ensures r.Failure? ==>
      && r.error == StreamExhausted && reader.pos == |reader.tokens|
      && heap.objects == h0[a := Deserialized(c, t, fields[..|reader.tokens| - old(reader.pos)], reader.tokens[old(reader.pos)..])]
  {
    var blank := CreateInstance(t);
    ghost var p0 := reader.pos;
    ghost var m := blank.fields;
    ghost var read: seq<Token> := [];
    var i := 0;
    while i < |fields|
      invariant 0 <= i <= |fields|
      invariant heap.Valid() && reader.Valid()
      invariant reader.pos == p0 + i
      invariant read == reader.tokens[p0..p0 + i]
      invariant m == ReadFields(c, blank.fields, fields[..i], read)
      invariant heap.objects == h0[a := Obj(t, m)]
    {
      var tok := reader.Read();
      if tok.Failure? {
        assert read == reader.tokens[p0..];
        return Failure(tok.error);
      }
      var v := c.dec(fields[i].fieldType, tok.value);
      heap.Store(a, Key(fields[i]), v);
      UpdateTwice(h0, a, Obj(t, m), Obj(t, m[Key(fields[i]) := v]));
      ReadFieldsSnoc(c, blank.fields, fields[..i], read, fields[i], tok.value);
      PrefixSnoc(fields, i);
      m := m[Key(fields[i]) := v];
      read := read + [tok.value];
      i := i + 1;
    }
    assert fields[..i] == fields;
    return Success(());
  }
}
