/** What a deep copy made through the generated copiers looks like, stated over the heap
    and the copy context (original -> copy): which copies are finished and correct, and how
    that survives the allocations and stores that later copies make. */
module CopyGraph {
  import opened Model
  import opened FieldInspector
  import opened Construction
  import opened Routines

  /** `h1` keeps every object of `h0` as it was. */
  ghost predicate HeapExtends(h0: map<Addr, Obj>, h1: map<Addr, Obj>) {
    forall a :: a in h0 ==> a in h1 && h1[a] == h0[a]
  }

  /** `c1` keeps every entry of `c0` as it was. */
  ghost predicate CopiesExtend(c0: map<Addr, Addr>, c1: map<Addr, Addr>) {
    forall a :: a in c0 ==> a in c1 && c1[a] == c0[a]
  }

  /** `src` is a set of objects of `h` whose fields refer only to objects of `src`. */
  ghost predicate Closed(h: map<Addr, Obj>, src: set<Addr>) {
    && src <= h.Keys
    && forall a, k :: a in src && k in h[a].fields && h[a].fields[k].Ref? ==> h[a].fields[k].addr in src
  }

  /** Every original in the context is a source object; every copy is on the heap. */
  ghost predicate ContextOK(h: map<Addr, Obj>, c: map<Addr, Addr>, src: set<Addr>) {
    forall k :: k in c ==> k in src && c[k] in h
  }

  /** Distinct originals have distinct copies: the context never lets two objects of the
      source graph share one copy. */
  ghost predicate Injective(c: map<Addr, Addr>) {
    forall k1, k2 :: k1 in c && k2 in c && c[k1] == c[k2] ==> k1 == k2
  }

  /** Recording an original against a freshly allocated result keeps the context injective,
      whether or not the original was recorded before. */
  lemma RecordKeepsInjective(h0: map<Addr, Obj>, c0: map<Addr, Addr>, src: set<Addr>, orig: Addr, a: Addr)
    requires ContextOK(h0, c0, src) && Injective(c0) && a !in h0
    ensures Injective(c0[orig := a])
  {
    var c1 := c0[orig := a];
    forall k1, k2 | k1 in c1 && k2 in c1 && c1[k1] == c1[k2] ensures k1 == k2 {
      if k1 != orig && k2 != orig {
        assert c0[k1] == c0[k2];
      }
    }
  }

  /** A runtime type the registry copies without failing: not an open generic definition,
      accepted by the builder's emitter, and with a blank instance that can be created. */
  predicate CopyableType(t: TypeDesc) {
    !t.isGenericDefinition && t.emittable && t.constructs
  }

  /** Every source object is on the heap and has a copyable runtime type. */
  ghost predicate Copyable(h: map<Addr, Obj>, src: set<Addr>) {
    src <= h.Keys && forall a :: a in src ==> CopyableType(h[a].ty)
  }

  /** The source objects keep their types while the heap only grows. */
  lemma CopyableStable(h: map<Addr, Obj>, h': map<Addr, Obj>, src: set<Addr>)
    requires HeapExtends(h, h')
    ensures Copyable(h, src) ==> Copyable(h', src)
  {
  }

  /** The context without the entry for `raw`, the object a copier is about to record. */
  function Without(c: map<Addr, Addr>, raw: Value): (r: map<Addr, Addr>)
    ensures r.Keys == if raw.Ref? then c.Keys - {raw.addr} else c.Keys
    ensures CopiesExtend(r, c)
  {
    if raw.Ref? then c - {raw.addr} else c
  }

  /** The copy of `k` is finished: it is an object of `k`'s type whose fields are the blank
      instance's, with every field of `fs` overwritten by its copied value, and every
      deep-copied reference among them has a copy. */
  ghost predicate CopiedAs(h: map<Addr, Obj>, c: map<Addr, Addr>, k: Addr, fs: seq<FieldDescriptor>) {
    && k in h && k in c && c[k] in h
    && h[c[k]] == Obj(h[k].ty, CopyFields(c, CreateInstance(h[k].ty).fields, h[k], fs))
    && DeepRefsRecorded(c, h[k], fs)
  }

  /** The copy of `k` is finished over the builder's field list of its runtime type. */
  ghost predicate CopiedOK(h: map<Addr, Obj>, c: map<Addr, Addr>, k: Addr) {
    k in h && CopiedAs(h, c, k, GetFields(h[k].ty))
  }

  /** Every entry of `c` outside `done` is a finished copy. */
  ghost predicate NewCopiesOK(h: map<Addr, Obj>, done: set<Addr>, c: map<Addr, Addr>) {
    forall k :: k in c && k !in done ==> CopiedOK(h, c, k)
  }

  /** Every entry of `c1` that is not in `c0` as it was maps to an object allocated after `h0`. */
  ghost predicate FreshTargets(h0: map<Addr, Obj>, c0: map<Addr, Addr>, c1: map<Addr, Addr>) {
    forall k :: k in c1 && !(k in c0 && c1[k] == c0[k]) ==> c1[k] !in h0
  }

  lemma FreshTargetsTrans(
    h0: map<Addr, Obj>, h1: map<Addr, Obj>, c0: map<Addr, Addr>, c1: map<Addr, Addr>, c2: map<Addr, Addr>)
    requires FreshTargets(h0, c0, c1) && FreshTargets(h1, c1, c2) && h0.Keys <= h1.Keys
    ensures FreshTargets(h0, c0, c2)
  {
  }

  lemma HeapExtendsTrans(h0: map<Addr, Obj>, h1: map<Addr, Obj>, h2: map<Addr, Obj>)
    requires HeapExtends(h0, h1) && HeapExtends(h1, h2)
    ensures HeapExtends(h0, h2)
  {
  }

  lemma CopiesExtendTrans(c0: map<Addr, Addr>, c1: map<Addr, Addr>, c2: map<Addr, Addr>)
    requires CopiesExtend(c0, c1) && CopiesExtend(c1, c2)
    ensures CopiesExtend(c0, c2)
  {
  }

  /** A field of a source object refers, if at all, to a source object. */
  lemma FieldInSrc(h: map<Addr, Obj>, src: set<Addr>, a: Addr, f: FieldDescriptor)
    requires Closed(h, src) && a in src
    ensures FieldValue(h[a], f).Ref? ==> FieldValue(h[a], f).addr in src
  {
  }

  /** A source set stays closed while the heap only grows. */
  lemma ClosedStable(h: map<Addr, Obj>, h': map<Addr, Obj>, src: set<Addr>)
    requires Closed(h, src) && HeapExtends(h, h')
    ensures Closed(h', src)
  {
  }

  /** A store into an object allocated after `h0` and outside the source set keeps the
      heap an extension of `h0`, the source set closed, and the context on the heap. */
  lemma StoreKeepsFrame(
    h0: map<Addr, Obj>, h: map<Addr, Obj>, a: Addr, x: Obj, src: set<Addr>, c: map<Addr, Addr>)
    requires HeapExtends(h0, h) && a !in h0 && a in h && a !in src
    requires Closed(h, src) && ContextOK(h, c, src)
    ensures HeapExtends(h0, h[a := x]) && h[a := x].Keys == h.Keys
    ensures Closed(h[a := x], src) && ContextOK(h[a := x], c, src)
  {
    assert h[a := x].Keys == h.Keys;
  }

  /** A finished copy stays finished when the context grows and neither the original nor
      the copy is touched. */
  lemma CopiedAsStable(
    h: map<Addr, Obj>, h': map<Addr, Obj>, c: map<Addr, Addr>, c': map<Addr, Addr>, k: Addr, fs: seq<FieldDescriptor>)
    requires CopiedAs(h, c, k, fs) && CopiesExtend(c, c')
    requires k in h' && h'[k] == h[k] && c[k] in h' && h'[c[k]] == h[c[k]]
    ensures CopiedAs(h', c', k, fs)
  {
    CopyFieldsStable(c, c', CreateInstance(h[k].ty).fields, h[k], fs);
  }

  /** Copies finished before a nested copy stay finished after it. */
  lemma NewCopiesAfterCall(
    h: map<Addr, Obj>, h': map<Addr, Obj>, done: set<Addr>, c: map<Addr, Addr>, c': map<Addr, Addr>, src: set<Addr>)
    requires NewCopiesOK(h, done, c) && ContextOK(h, c, src)
    requires HeapExtends(h, h') && CopiesExtend(c, c') && NewCopiesOK(h', c.Keys, c')
    ensures NewCopiesOK(h', done, c')
  {
    forall k | k in c' && k !in done ensures CopiedOK(h', c', k) {
      if k in c {
        CopiedAsStable(h, h', c, c', k, GetFields(h[k].ty));
      }
    }
  }

  /** A store into an object that is neither a source object nor the copy of a finished
      entry leaves every finished copy finished. */
  lemma NewCopiesAfterStore(
    h: map<Addr, Obj>, h0: map<Addr, Obj>, a: Addr, x: Obj, c0: map<Addr, Addr>, c: map<Addr, Addr>, src: set<Addr>)
    requires NewCopiesOK(h, c0.Keys, c) && ContextOK(h, c, src)
    requires a in h0 && a !in src && FreshTargets(h0, c0, c)
    ensures NewCopiesOK(h[a := x], c0.Keys, c)
  {
    var h' := h[a := x];
    forall k | k in c && k !in c0.Keys ensures CopiedOK(h', c, k) {
      CopiedAsStable(h, h', c, c, k, GetFields(h[k].ty));
    }
  }

  /** One more listed field in the copier's loop. */
  lemma CopyFieldsSnoc(c: map<Addr, Addr>, into: map<FieldKey, Value>, o: Obj, fs: seq<FieldDescriptor>, f: FieldDescriptor)
    ensures CopyFields(c, into, o, fs + [f]) == CopyFields(c, into, o, fs)[Key(f) := CopiedFieldValue(c, o, f)]
  {
    assert (fs + [f])[..|fs|] == fs;
  }

  lemma DeepRefsSnoc(c: map<Addr, Addr>, o: Obj, fs: seq<FieldDescriptor>, f: FieldDescriptor)
    requires DeepRefsRecorded(c, o, fs)
    requires !f.shallowCopyable && FieldValue(o, f).Ref? ==> FieldValue(o, f).addr in c
    ensures DeepRefsRecorded(c, o, fs + [f])
  {
    assert forall j :: 0 <= j < |fs| ==> (fs + [f])[j] == fs[j];
  }

  lemma DeepRefsStable(c: map<Addr, Addr>, c': map<Addr, Addr>, o: Obj, fs: seq<FieldDescriptor>)
    requires DeepRefsRecorded(c, o, fs) && CopiesExtend(c, c')
    ensures DeepRefsRecorded(c', o, fs)
  {
  }

  /** Where the copier for original `orig` (the object `o`) stands after storing the fields
      `fs` in its result `a`, of type `t`, whose blank fields were `into`: `h0` is the heap
      before the copier ran, `h1` and `c1` the heap and the context right after it allocated
      `a` and recorded `orig` -> `a`. */
  ghost predicate CopierProgress(
    h0: map<Addr, Obj>, h1: map<Addr, Obj>, c1: map<Addr, Addr>, h: map<Addr, Obj>, c: map<Addr, Addr>,
    orig: Addr, o: Obj, a: Addr, t: TypeDesc, into: map<FieldKey, Value>, fs: seq<FieldDescriptor>)
  {
    && CopierFrame(h0, h1, c1, h, c)
    && orig in h && h[orig] == o
    && a in h && h[a] == Obj(t, CopyFields(c, into, o, fs))
    && DeepRefsRecorded(c, o, fs)
    && NewCopiesOK(h, c1.Keys, c)
  }

  /** Since the copier started, the heap and the context have only grown, and every entry
      added to the context points to an object allocated after the copier's own. */
  ghost predicate CopierFrame(h0: map<Addr, Obj>, h1: map<Addr, Obj>, c1: map<Addr, Addr>, h: map<Addr, Obj>, c: map<Addr, Addr>) {
    HeapExtends(h0, h) && h1.Keys <= h.Keys && CopiesExtend(c1, c) && FreshTargets(h1, c1, c)
  }

  /** Allocating the blank result `a` and recording `orig` -> `a` starts the copier's loop:
      no field stored yet, the source set still closed and the context still on the heap. */
  lemma CopierStart(
    h0: map<Addr, Obj>, c0: map<Addr, Addr>, src: set<Addr>, raw: Value, o: Obj, a: Addr, blank: Obj)
    requires raw.Ref? && raw.addr in src && raw.addr in h0 && h0[raw.addr] == o && a !in h0
    requires Closed(h0, src) && ContextOK(h0, c0, src)
    ensures var h1, c1 := h0[a := blank], c0[raw.addr := a];
      && a !in src && h0.Keys <= h1.Keys
      && c1.Keys == Without(c0, raw).Keys + {raw.addr}
      && Closed(h1, src) && ContextOK(h1, c1, src)
      && FreshTargets(h0, c0, c1) && CopiesExtend(Without(c0, raw), c1)
      && CopierProgress(h0, h1, c1, h1, c1, raw.addr, o, a, blank.ty, blank.fields, [])
  {
    var h1, c1 := h0[a := blank], c0[raw.addr := a];
    assert HeapExtends(h0, h1);
    assert NewCopiesOK(h1, c1.Keys, c1);
  }

  /** When the loop has stored every listed field, the copy of `orig` is finished, every
      other entry the copier added is finished too, and the heap and the context only grew. */
  lemma CopierFinish(
    h0: map<Addr, Obj>, h1: map<Addr, Obj>, c0: map<Addr, Addr>, c1: map<Addr, Addr>, h: map<Addr, Obj>,
    c: map<Addr, Addr>, raw: Value, o: Obj, a: Addr, t: TypeDesc, fs: seq<FieldDescriptor>)
    requires raw.Ref? && c1 == c0[raw.addr := a] && o.ty == t
    requires CopierProgress(h0, h1, c1, h, c, raw.addr, o, a, t, CreateInstance(t).fields, fs)
    requires h0.Keys <= h1.Keys && FreshTargets(h0, c0, c1) && CopiesExtend(Without(c0, raw), c1)
    ensures HeapExtends(h0, h) && CopiesExtend(Without(c0, raw), c) && FreshTargets(h0, c0, c)
    ensures CopiedAs(h, c, raw.addr, fs) && c[raw.addr] == a
    ensures NewCopiesOK(h, c0.Keys + {raw.addr}, c)
  {
    FrameOut(h0, h1, c0, c1, h, c, raw);
    assert c1.Keys <= c0.Keys + {raw.addr};
  }

  /** A nested copy that only adds objects and context entries, all of them finished and
      pointing to fresh objects, leaves the copier where it stood. */
  lemma ProgressAfterCall(
    h0: map<Addr, Obj>, h1: map<Addr, Obj>, c1: map<Addr, Addr>, hb: map<Addr, Obj>, cb: map<Addr, Addr>,
    h: map<Addr, Obj>, c: map<Addr, Addr>,
    orig: Addr, o: Obj, a: Addr, t: TypeDesc, into: map<FieldKey, Value>, fs: seq<FieldDescriptor>, src: set<Addr>)
    requires CopierProgress(h0, h1, c1, hb, cb, orig, o, a, t, into, fs) && ContextOK(hb, cb, src)
    requires HeapExtends(hb, h) && CopiesExtend(cb, c) && FreshTargets(hb, cb, c) && NewCopiesOK(h, cb.Keys, c)
    ensures CopierProgress(h0, h1, c1, h, c, orig, o, a, t, into, fs)
  {
    FrameAfterCall(h0, h1, c1, hb, cb, h, c);
    CopyFieldsStable(cb, c, into, o, fs);
    DeepRefsStable(cb, c, o, fs);
    NewCopiesAfterCall(hb, h, c1.Keys, cb, c, src);
  }

  /** Storing the copied value of one more field in `a` moves the copier one field on and
      keeps the source set closed and the context on the heap. */
  lemma ProgressAfterStore(
    h0: map<Addr, Obj>, h1: map<Addr, Obj>, c1: map<Addr, Addr>, h: map<Addr, Obj>, c: map<Addr, Addr>,
    orig: Addr, o: Obj, a: Addr, t: TypeDesc, into: map<FieldKey, Value>, fs: seq<FieldDescriptor>,
    f: FieldDescriptor, src: set<Addr>)
    requires CopierProgress(h0, h1, c1, h, c, orig, o, a, t, into, fs)
    requires Closed(h, src) && ContextOK(h, c, src)
    requires a !in h0 && a in h1 && a !in src && orig in src
    requires !f.shallowCopyable && FieldValue(o, f).Ref? ==> FieldValue(o, f).addr in c
    ensures var h' := h[a := Obj(t, h[a].fields[Key(f) := CopiedFieldValue(c, o, f)])];
      && CopierProgress(h0, h1, c1, h', c, orig, o, a, t, into, fs + [f])
      && Closed(h', src) && ContextOK(h', c, src)
  {
    var x := Obj(t, h[a].fields[Key(f) := CopiedFieldValue(c, o, f)]);
    StoreKeepsFrame(h0, h, a, x, src, c);
    CopyFieldsSnoc(c, into, o, fs, f);
    DeepRefsSnoc(c, o, fs, f);
    NewCopiesAfterStore(h, h1, a, x, c1, c, src);
  }

  /** One whole store of the copier: the nested copy of field `f` (from `hb`, `cb` to `h`, `c`)
      followed by the store of its result in `a` moves the copier one field on. */
  lemma FieldStored(
    h0: map<Addr, Obj>, h1: map<Addr, Obj>, c1: map<Addr, Addr>, hb: map<Addr, Obj>, cb: map<Addr, Addr>,
    h: map<Addr, Obj>, c: map<Addr, Addr>,
    orig: Addr, o: Obj, a: Addr, t: TypeDesc, into: map<FieldKey, Value>, fs: seq<FieldDescriptor>,
    f: FieldDescriptor, src: set<Addr>)
    requires CopierProgress(h0, h1, c1, hb, cb, orig, o, a, t, into, fs) && ContextOK(hb, cb, src)
    requires HeapExtends(hb, h) && CopiesExtend(cb, c) && FreshTargets(hb, cb, c) && NewCopiesOK(h, cb.Keys, c)
    requires Closed(h, src) && ContextOK(h, c, src)
    requires a !in h0 && a in h1 && a !in src && orig in src
    requires !f.shallowCopyable && FieldValue(o, f).Ref? ==> FieldValue(o, f).addr in c
    ensures a in h
    ensures var h' := h[a := Obj(h[a].ty, h[a].fields[Key(f) := CopiedFieldValue(c, o, f)])];
      && CopierProgress(h0, h1, c1, h', c, orig, o, a, t, into, fs + [f])
      && Closed(h', src) && ContextOK(h', c, src)
  {
    ProgressAfterCall(h0, h1, c1, hb, cb, h, c, orig, o, a, t, into, fs, src);
    ProgressAfterStore(h0, h1, c1, h, c, orig, o, a, t, into, fs, f, src);
  }

  /** A nested copy that fails still leaves the heap and the context only grown. */
  lemma FrameAfterCall(
    h0: map<Addr, Obj>, h1: map<Addr, Obj>, c1: map<Addr, Addr>, hb: map<Addr, Obj>, cb: map<Addr, Addr>,
    h: map<Addr, Obj>, c: map<Addr, Addr>)
    requires CopierFrame(h0, h1, c1, hb, cb)
    requires HeapExtends(hb, h) && CopiesExtend(cb, c) && FreshTargets(hb, cb, c)
    ensures CopierFrame(h0, h1, c1, h, c)
  {
    HeapExtendsTrans(h0, hb, h);
    CopiesExtendTrans(c1, cb, c);
    FreshTargetsTrans(h1, hb, c1, cb, c);
  }

  /** What the copier's caller sees, stated against the context before the copier ran. */
  lemma FrameOut(
    h0: map<Addr, Obj>, h1: map<Addr, Obj>, c0: map<Addr, Addr>, c1: map<Addr, Addr>, h: map<Addr, Obj>,
    c: map<Addr, Addr>, raw: Value)
    requires CopierFrame(h0, h1, c1, h, c)
    requires h0.Keys <= h1.Keys && FreshTargets(h0, c0, c1) && CopiesExtend(Without(c0, raw), c1)
    ensures HeapExtends(h0, h) && CopiesExtend(Without(c0, raw), c) && FreshTargets(h0, c0, c)
  {
    CopiesExtendTrans(Without(c0, raw), c1, c);
    FreshTargetsTrans(h0, h1, c0, c1, c);
  }

  /** What DeepCopyInner keeps when the copier it ran for `x`, an original not yet in the
      context `c0`, has finished: the whole of `c0`, and a finished copy of every new entry. */
  lemma InnerCopyDone(h: map<Addr, Obj>, c0: map<Addr, Addr>, c: map<Addr, Addr>, x: Addr)
    requires x !in c0
    requires CopiesExtend(Without(c0, Ref(x)), c)
    requires NewCopiesOK(h, c0.Keys + {x}, c) && CopiedOK(h, c, x)
    ensures CopiesExtend(c0, c)
    ensures NewCopiesOK(h, c0.Keys, c)
  {
  }

  /** A failed copier for an original not yet in `c0` still keeps the whole of `c0`. */
  lemma InnerCopyFrame(c0: map<Addr, Addr>, c: map<Addr, Addr>, x: Addr)
    requires x !in c0
    requires CopiesExtend(Without(c0, Ref(x)), c)
    ensures CopiesExtend(c0, c)
  {
  }

  /** The source objects not yet copied can only become fewer as the context grows. */
  lemma MeasureKeeps(src: set<Addr>, before: set<Addr>, now: set<Addr>)
    requires before <= now
    ensures |src - now| <= |src - before|
  {
    SubsetSize(src - now, src - before);
  }

  /** Recording `orig` adds a source object to the context, so fewer source objects remain
      uncopied than before the copier started, however the context grows afterwards. */
  lemma MeasureDrops(src: set<Addr>, before: set<Addr>, now: set<Addr>, orig: Addr)
    requires orig in src && orig !in before && before + {orig} <= now
    ensures |src - now| < |src - before|
  {
    assert src - now <= (src - before) - {orig};
    assert |(src - before) - {orig}| == |src - before| - 1;
    SubsetSize(src - now, (src - before) - {orig});
  }

  lemma SubsetSize(a: set<Addr>, b: set<Addr>)
    requires a <= b
    ensures |a| <= |b|
  {
    assert b == a + (b - a);
    assert a * (b - a) == {};
  }

  /** What the copy of a finished entry holds in each field of its type: a listed
      shallow-copyable field holds the original's value, any other listed field the copy
      of the original's value, and a field left off the list what the blank instance held. */
  lemma CopyFieldWise(h: map<Addr, Obj>, c: map<Addr, Addr>, k: Addr, f: FieldDescriptor)
    requires CopiedOK(h, c, k)
    requires UniqueKeys(h[k].ty.fields) && f in h[k].ty.fields
    ensures var o, fs := h[k], GetFields(h[k].ty);
      FieldValue(h[c[k]], f) ==
        if f !in fs then InitialValue(o.ty, f)
        else if f.shallowCopyable then FieldValue(o, f)
        else MapValue(c, FieldValue(o, f))
  {
    var o, fs := h[k], GetFields(h[k].ty);
    GetFieldsSpec(o.ty);
    CreateInstanceSpec(o.ty);
    var blank := CreateInstance(o.ty);
    CopyFieldsKeys(c, blank.fields, o, fs);
    if f in fs {
      var j :| 0 <= j < |fs| && fs[j] == f;
      CopyFieldsAt(c, blank.fields, o, fs, j);
    } else {
      forall g | g in fs ensures Key(g) != Key(f) {
        KeyDeterminesField(o.ty.fields, f, g);
      }
    }
  }

  /** A deep-copied field that refers back to its own object refers, in the copy, to the
      copy itself: the copier recorded the copy before it copied any field. */
  lemma SelfReferenceResolves(h: map<Addr, Obj>, c: map<Addr, Addr>, k: Addr, f: FieldDescriptor)
    requires CopiedOK(h, c, k) && UniqueKeys(h[k].ty.fields)
    requires f in GetFields(h[k].ty) && !f.shallowCopyable && FieldValue(h[k], f) == Ref(k)
    ensures FieldValue(h[c[k]], f) == Ref(c[k])
  {
    GetFieldsSpec(h[k].ty);
    CopyFieldWise(h, c, k, f);
  }

  /** The copy of a deep-copied reference field of a finished original refers to the copy of
      the original's child. */
  lemma DeepFieldCopied(h: map<Addr, Obj>, c: map<Addr, Addr>, k: Addr, f: FieldDescriptor)
    requires CopiedOK(h, c, k) && UniqueKeys(h[k].ty.fields)
    requires f in GetFields(h[k].ty) && !f.shallowCopyable && FieldValue(h[k], f).Ref?
    ensures FieldValue(h[k], f).addr in c
    ensures FieldValue(h[c[k]], f) == Ref(c[FieldValue(h[k], f).addr])
  {
    GetFieldsSpec(h[k].ty);
    CopyFieldWise(h, c, k, f);
    var fs := GetFields(h[k].ty);
    var j :| 0 <= j < |fs| && fs[j] == f;
  }

  /** Two deep-copied reference fields, of the same or of different finished originals, refer
      to one copy exactly when they refer to one original: shared children stay shared, and
      distinct children keep distinct copies. */
  lemma SharingPreserved(
    h: map<Addr, Obj>, c: map<Addr, Addr>, k1: Addr, f1: FieldDescriptor, k2: Addr, f2: FieldDescriptor)
    requires Injective(c)
    requires CopiedOK(h, c, k1) && UniqueKeys(h[k1].ty.fields)
    requires CopiedOK(h, c, k2) && UniqueKeys(h[k2].ty.fields)
    requires f1 in GetFields(h[k1].ty) && !f1.shallowCopyable && FieldValue(h[k1], f1).Ref?
    requires f2 in GetFields(h[k2].ty) && !f2.shallowCopyable && FieldValue(h[k2], f2).Ref?
    ensures FieldValue(h[c[k1]], f1) == FieldValue(h[c[k2]], f2) <==> FieldValue(h[k1], f1) == FieldValue(h[k2], f2)
  {
    DeepFieldCopied(h, c, k1, f1);
    DeepFieldCopied(h, c, k2, f2);
  }

  /** When every entry of the context is finished, each deep-copied reference of a copy
      leads to a finished copy of the original's child: the copy is a graph of its own
      with the shape of the original. */
  lemma CopyIsClosed(h: map<Addr, Obj>, c: map<Addr, Addr>, k: Addr, f: FieldDescriptor)
    requires NewCopiesOK(h, {}, c) && k in c
    requires f in GetFields(h[k].ty) && !f.shallowCopyable && FieldValue(h[k], f).Ref?
    ensures FieldValue(h[k], f).addr in c && CopiedOK(h, c, FieldValue(h[k], f).addr)
  {
    var fs := GetFields(h[k].ty);
    var j :| 0 <= j < |fs| && fs[j] == f;
    assert CopiedOK(h, c, k);
  }
}
