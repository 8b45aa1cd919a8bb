/** The runtime state the generated routines work against: the heap, the two
    reference-tracking contexts, the token sink and source, and the runtime's global
    type-to-triple table. Each is an object whose methods update it in place. */
module Runtime {
  import opened Model
  import opened Routines

  /** The managed heap; allocation hands out an address never used before. */
  class Heap {
    var objects: map<Addr, Obj>
    var next: Addr

    ghost predicate Valid()
      reads this
    {
      forall a :: a in objects ==> a < next
    }

    constructor (objects: map<Addr, Obj>, next: Addr)
      requires forall a :: a in objects ==> a < next
      ensures Valid() && this.objects == objects && this.next == next
    {
      this.objects := objects;
      this.next := next;
    }

    method Alloc(o: Obj) returns (a: Addr)
      requires Valid()
      modifies this
      ensures Valid()
      ensures a !in old(objects) && objects == old(objects)[a := o]
    {
      a := next;
      objects := objects[a := o];
      next := next + 1;
    }

    /** stfld: store `v` in field `k` of the object at `a`. */
    method Store(a: Addr, k: FieldKey, v: Value)
      requires Valid() && a in objects
      modifies this
      ensures Valid()
      ensures objects == old(objects)[a := Obj(old(objects)[a].ty, old(objects)[a].fields[k := v])]
    {
      objects := objects[a := Obj(objects[a].ty, objects[a].fields[k := v])];
    }
  }

  /** SerializationContext while copying: original object -> its copy. */
  class CopyContext {
    var copies: map<Addr, Addr>

    constructor ()
      ensures copies == map[]
    {
      copies := map[];
    }

    method RecordObject(original: Addr, copy: Addr)
      modifies this
      ensures copies == old(copies)[original := copy]
    {
      copies := copies[original := copy];
    }
  }

  /** DeserializationContext: the objects constructed so far, in construction order. */
  class DeserializationContext {
    var objects: seq<Addr>

    constructor ()
      ensures objects == []
    {
      objects := [];
    }

    method RecordObject(a: Addr)
      modifies this
      ensures objects == old(objects) + [a]
    {
      objects := objects + [a];
    }
  }

  /** BinaryTokenStreamWriter, as the sequence of tokens written to it. */
  class TokenWriter {
    var tokens: seq<Token>

    constructor ()
      ensures tokens == []
    {
      tokens := [];
    }

    method Write(t: Token)
      modifies this
      ensures tokens == old(tokens) + [t]
    {
      tokens := tokens + [t];
    }

    method WriteNull()
      modifies this
      ensures tokens == old(tokens) + [NullToken]
    {
      tokens := tokens + [NullToken];
    }
  }

  /** BinaryTokenStreamReader: the tokens and the read position. */
  class TokenReader {
    const tokens: seq<Token>
    var pos: nat

    ghost predicate Valid()
      reads this
    {
      pos <= |tokens|
    }

    constructor (tokens: seq<Token>)
      ensures Valid() && this.tokens == tokens && pos == 0
    {
      this.tokens := tokens;
      pos := 0;
    }

    method Read() returns (r: Result<Token>)
      requires Valid()
      modifies this
      ensures Valid()
      ensures old(pos) < |tokens| ==> r == Success(tokens[old(pos)]) && pos == old(pos) + 1
      ensures old(pos) == |tokens| ==> r == Failure(StreamExhausted) && pos == old(pos)
    {
      if pos < |tokens| {
        r := Success(tokens[pos]);
        pos := pos + 1;
      } else {
        r := Failure(StreamExhausted);
      }
    }
  }

  /** SerializationManager's global table of triples by type. */
  class SerializerTable {
    var entries: map<TypeDesc, SerializerMethods>

    constructor ()
      ensures entries == map[]
    {
      entries := map[];
    }

    /** SerializationManager.Register: an existing entry is replaced only when forced. */
    method Register(t: TypeDesc, m: SerializerMethods, forceOverride: bool)
      modifies this
      ensures entries == if forceOverride || t !in old(entries) then old(entries)[t := m] else old(entries)
    {
      if forceOverride || t !in entries {
        entries := entries[t := m];
      }
    }
  }
}
