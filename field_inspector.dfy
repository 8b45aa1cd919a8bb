/** The field inspector: which fields of a type take part in copying and serialization,
    and in which order. Both the builder and the older copier-only serializer filter the
    type's fields and sort the survivors by name with the ordinal comparer; they differ
    only in the filter. */
module FieldInspector {
  import opened Model
  import opened Ordinal

  /** FieldInfoComparer.Compare: two fields compare as their names do, ordinally. */
  function Compare(x: FieldDescriptor, y: FieldDescriptor): (c: int)
    ensures c == 0 <==> x.name == y.name
    ensures c == -OrdinalCompare(y.name, x.name)
  {
    CompareAntisymmetric(x.name, y.name);
    OrdinalCompare(x.name, y.name)
  }

  /** The builder's filter: not [NonSerialized], not static, not of a pointer type. */
  function Selected(f: FieldDescriptor): bool {
    !f.isNotSerialized && !f.isStatic && !f.isPointer
  }

  /** The older serializer's filter: only [NonSerialized] fields are dropped. */
  function OlderSelected(f: FieldDescriptor): bool {
    !f.isNotSerialized
  }

  /** Which of the two field filters a list is built with. */
  datatype Filter = Builder | Older

  function Admits(flt: Filter, f: FieldDescriptor): bool {
    match flt
    case Builder => Selected(f)
    case Older => OlderSelected(f)
  }

  /** Enumerable.Where(...).ToList(): the fields the filter admits, in their original order. */
  function Keep(fs: seq<FieldDescriptor>, flt: Filter): seq<FieldDescriptor> {
    if fs == [] then []
    else if Admits(flt, fs[0]) then [fs[0]] + Keep(fs[1..], flt) else Keep(fs[1..], flt)
  }

  /** Keep holds each admitted field as often as the input does, and nothing else. */
  lemma {:induction false} KeepSpec(fs: seq<FieldDescriptor>, flt: Filter)
    ensures forall x :: multiset(Keep(fs, flt))[x] == if Admits(flt, x) then multiset(fs)[x] else 0
    ensures forall x :: x in Keep(fs, flt) <==> x in fs && Admits(flt, x)
  {
    if fs != [] {
      KeepSpec(fs[1..], flt);
      assert fs == [fs[0]] + fs[1..];
    }
  }

  /** Insertion of one field into a list, before the first field whose name is not smaller. */
  function Insert(x: FieldDescriptor, s: seq<FieldDescriptor>): seq<FieldDescriptor> {
    if s == [] || Compare(x, s[0]) <= 0 then [x] + s else [s[0]] + Insert(x, s[1..])
  }

  /** List.Sort(FieldInfoComparer.Instance), written as insertion sort. */
  function SortByName(s: seq<FieldDescriptor>): seq<FieldDescriptor> {
    if s == [] then [] else Insert(s[0], SortByName(s[1..]))
  }

  ghost predicate Sorted(s: seq<FieldDescriptor>) {
    forall i, j :: 0 <= i < j < |s| ==> Compare(s[i], s[j]) <= 0
  }

  ghost predicate UniqueNames(s: seq<FieldDescriptor>) {
    forall i, j :: 0 <= i < j < |s| ==> s[i].name != s[j].name
  }

  lemma {:induction false} InsertPermutes(x: FieldDescriptor, s: seq<FieldDescriptor>)
    ensures multiset(Insert(x, s)) == multiset{x} + multiset(s)
  {
    if s != [] && Compare(x, s[0]) > 0 {
      InsertPermutes(x, s[1..]);
      assert s == [s[0]] + s[1..];
    }
  }

  lemma {:induction false} SortPermutes(s: seq<FieldDescriptor>)
    ensures multiset(SortByName(s)) == multiset(s)
  {
    if s != [] {
      SortPermutes(s[1..]);
      InsertPermutes(s[0], SortByName(s[1..]));
      assert s == [s[0]] + s[1..];
    }
  }

  /** Insert adds `x` and nothing else. */
  lemma {:induction false} InsertElements(x: FieldDescriptor, s: seq<FieldDescriptor>)
    ensures forall y :: y in Insert(x, s) <==> y == x || y in s
  {
    if s != [] && Compare(x, s[0]) > 0 {
      InsertElements(x, s[1..]);
      assert s == [s[0]] + s[1..];
    }
  }

  /** A field no greater than every field of a sorted list may go in front of it. */
  lemma SortedCons(a: FieldDescriptor, rest: seq<FieldDescriptor>)
    requires Sorted(rest)
    requires forall y :: y in rest ==> Compare(a, y) <= 0
    ensures Sorted([a] + rest)
  {
    forall i, j | 0 <= i < j < |rest| + 1 ensures Compare(([a] + rest)[i], ([a] + rest)[j]) <= 0 {
      if i == 0 {
        assert rest[j - 1] in rest;
      }
    }
  }

  lemma {:induction false} InsertSorted(x: FieldDescriptor, s: seq<FieldDescriptor>)
    requires Sorted(s)
    ensures Sorted(Insert(x, s))
  {
    if s == [] {
    } else if Compare(x, s[0]) <= 0 {
      forall y | y in s ensures Compare(x, y) <= 0 {
        var k :| 0 <= k < |s| && s[k] == y;
        CompareTransitive(x.name, s[0].name, y.name);
      }
      SortedCons(x, s);
    } else {
      InsertSorted(x, s[1..]);
      InsertElements(x, s[1..]);
      CompareAntisymmetric(x.name, s[0].name);
      forall y | y in Insert(x, s[1..]) ensures Compare(s[0], y) <= 0 {
        if y != x {
          var k :| 0 <= k < |s[1..]| && s[1..][k] == y;
          assert s[k + 1] == y;
        }
      }
      SortedCons(s[0], Insert(x, s[1..]));
    }
  }

  lemma {:induction false} SortSorted(s: seq<FieldDescriptor>)
    ensures Sorted(SortByName(s))
  {
    if s != [] {
      SortSorted(s[1..]);
      InsertSorted(s[0], SortByName(s[1..]));
    }
  }

  lemma {:induction false} KeepUnique(fs: seq<FieldDescriptor>, flt: Filter)
    requires UniqueKeys(fs)
    ensures UniqueKeys(Keep(fs, flt))
  {
    if fs != [] {
      KeepUnique(fs[1..], flt);
      KeepSpec(fs[1..], flt);
      var rest := Keep(fs[1..], flt);
      forall y | y in rest ensures Key(y) != Key(fs[0]) {
        var k :| 0 <= k < |fs[1..]| && fs[1..][k] == y;
        assert fs[k + 1] == y;
      }
    }
  }

  /** A field whose key no field of a list has may go in front of it. */
  lemma UniqueCons(a: FieldDescriptor, rest: seq<FieldDescriptor>)
    requires UniqueKeys(rest)
    requires forall y :: y in rest ==> Key(y) != Key(a)
    ensures UniqueKeys([a] + rest)
  {
    forall i, j | 0 <= i < j < |rest| + 1 ensures Key(([a] + rest)[i]) != Key(([a] + rest)[j]) {
      if i == 0 {
        assert rest[j - 1] in rest;
      }
    }
  }

  lemma {:induction false} InsertUnique(x: FieldDescriptor, s: seq<FieldDescriptor>)
    requires UniqueKeys(s)
    requires forall y :: y in s ==> Key(y) != Key(x)
    ensures UniqueKeys(Insert(x, s))
  {
    if s == [] || Compare(x, s[0]) <= 0 {
      UniqueCons(x, s);
    } else {
      assert s == [s[0]] + s[1..];
      InsertUnique(x, s[1..]);
      InsertElements(x, s[1..]);
      forall y | y in Insert(x, s[1..]) ensures Key(y) != Key(s[0]) {
        if y != x {
          var k :| 0 <= k < |s[1..]| && s[1..][k] == y;
          assert s[k + 1] == y;
        }
      }
      UniqueCons(s[0], Insert(x, s[1..]));
    }
  }

  lemma {:induction false} SortUnique(s: seq<FieldDescriptor>)
    requires UniqueKeys(s)
    ensures UniqueKeys(SortByName(s))
  {
    if s != [] {
      SortUnique(s[1..]);
      SortPermutes(s[1..]);
      forall y | y in SortByName(s[1..]) ensures Key(y) != Key(s[0]) {
        assert y in multiset(SortByName(s[1..]));
        var k :| 0 <= k < |s[1..]| && s[1..][k] == y;
        assert s[k + 1] == y;
      }
      InsertUnique(s[0], SortByName(s[1..]));
    }
  }

  /** A list sorted by the comparer is determined by its elements once names are distinct. */
  lemma {:induction false} SortedUniquely(s: seq<FieldDescriptor>, p: seq<FieldDescriptor>)
    requires Sorted(s) && Sorted(p) && UniqueNames(s)
    requires multiset(s) == multiset(p)
    ensures s == p
  {
    if s == [] {
      assert |multiset(p)| == 0;
    } else {
      HeadsAgree(s, p);
      HeadTail(s);
      HeadTail(p);
      assert multiset(s[1..]) == multiset(p[1..]) by {
        assert multiset(s[1..]) == multiset(s) - multiset{s[0]};
        assert multiset(p[1..]) == multiset(p) - multiset{p[0]};
      }
      SortedUniquely(s[1..], p[1..]);
    }
  }

  /** Two sorted lists with the same elements and distinct names start with the same field. */
  lemma HeadsAgree(s: seq<FieldDescriptor>, p: seq<FieldDescriptor>)
    requires Sorted(s) && Sorted(p) && UniqueNames(s)
    requires multiset(s) == multiset(p) && s != []
    ensures p != [] && s[0] == p[0]
  {
    assert s[0] in multiset(p);
    assert p[0] in multiset(s);
    var i :| 0 <= i < |s| && s[i] == p[0];
    var j :| 0 <= j < |p| && p[j] == s[0];
    HeadLeast(p, j);
    HeadLeast(s, i);
    assert s[i].name == s[0].name;
  }

  /** The head of a sorted list sorts no later than any of its fields. */
  lemma HeadLeast(s: seq<FieldDescriptor>, k: nat)
    requires Sorted(s) && k < |s|
    ensures Compare(s[0], s[k]) <= 0
  {
    if k > 0 {
      assert Compare(s[0], s[k]) <= 0;
    }
  }

  lemma HeadTail(s: seq<FieldDescriptor>)
    requires s != []
    ensures s == [s[0]] + s[1..]
    ensures multiset(s) == multiset{s[0]} + multiset(s[1..])
    ensures Sorted(s) ==> Sorted(s[1..])
    ensures UniqueNames(s) ==> UniqueNames(s[1..])
  {
    assert s == [s[0]] + s[1..];
  }

  lemma SortKept(fs: seq<FieldDescriptor>, flt: Filter)
    ensures forall x :: multiset(SortByName(Keep(fs, flt)))[x] == if Admits(flt, x) then multiset(fs)[x] else 0
    ensures forall f :: f in SortByName(Keep(fs, flt)) <==> f in fs && Admits(flt, f)
    ensures Sorted(SortByName(Keep(fs, flt)))
    ensures UniqueKeys(fs) ==> UniqueKeys(SortByName(Keep(fs, flt)))
  {
    var kept := Keep(fs, flt);
    KeepSpec(fs, flt);
    SortPermutes(kept);
    SortSorted(kept);
    assert forall f :: f in SortByName(kept) <==> f in multiset(kept);
    if UniqueKeys(fs) {
      KeepUnique(fs, flt);
      SortUnique(kept);
    }
  }

  /** IlBasedSerializerBuilder.GetFields: the selected fields, sorted by name. */
  function GetFields(t: TypeDesc): seq<FieldDescriptor> {
    SortByName(Keep(t.fields, Builder))
  }

  /** IlBasedSerializer.GetFields: the fields the older filter keeps, sorted by name. */
  function OlderGetFields(t: TypeDesc): seq<FieldDescriptor> {
    SortByName(Keep(t.fields, Older))
  }

  /** The builder's list holds exactly the selected fields of the type, each as often as the
      type lists it, sorted by name, and distinct when the type's fields are. */
  lemma GetFieldsSpec(t: TypeDesc)
    ensures var r := GetFields(t);
      && (forall f :: f in r <==> f in t.fields && Selected(f))
      && (forall x :: multiset(r)[x] == if Selected(x) then multiset(t.fields)[x] else 0)
      && Sorted(r)
      && (UniqueKeys(t.fields) ==> UniqueKeys(r))
  {
    SortKept(t.fields, Builder);
  }

  /** The same for the older list, under the older filter. */
  lemma OlderGetFieldsSpec(t: TypeDesc)
    ensures var r := OlderGetFields(t);
      && (forall f :: f in r <==> f in t.fields && OlderSelected(f))
      && (forall x :: multiset(r)[x] == if OlderSelected(x) then multiset(t.fields)[x] else 0)
      && Sorted(r)
      && (UniqueKeys(t.fields) ==> UniqueKeys(r))
  {
    SortKept(t.fields, Older);
  }

  /** Reflection may list a type's fields in any order; the field list does not depend on it
      as long as the selected fields have distinct names. */
  lemma OrderIndependentOfReflection(t: TypeDesc, u: TypeDesc)
    requires multiset(t.fields) == multiset(u.fields)
    requires UniqueNames(GetFields(t))
    ensures GetFields(t) == GetFields(u)
  {
    GetFieldsSpec(t);
    GetFieldsSpec(u);
    var gt, gu := GetFields(t), GetFields(u);
    assert forall x :: multiset(gt)[x] == multiset(gu)[x];
    assert multiset(gt) == multiset(gu);
    SortedUniquely(gt, gu);
  }

  /** The older list keeps every field the builder keeps, and also the static and pointer
      fields the builder drops. */
  lemma OlderKeepsMore(t: TypeDesc, f: FieldDescriptor)
    requires f in t.fields && !f.isNotSerialized
    ensures f in OlderGetFields(t)
    ensures f in GetFields(t) <==> !f.isStatic && !f.isPointer
  {
    GetFieldsSpec(t);
    OlderGetFieldsSpec(t);
  }
}
