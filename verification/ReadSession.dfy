/** Reading a serialized IDS back, visiting fields and array elements in any order. */
module ReadSession {
  import opened DataTypes
  import opened Scalars
  import opened Wire
  import opened BuilderModel
  import opened RoundTrip
  import opened SerializerModel
  import opened WriteSession

  // -------------------------------------------------------- what is asked

  /** Reading one field, or opening an array and making some visits to its elements. */
  datatype Query = GetField(name: Name) | GetArray(name: Name, visits: seq<Visit>)

  datatype Visit = Visit(index: nat, queries: seq<Query>)

  datatype Answer = FieldAnswer(value: Option<FieldValue>) | ArrayAnswer(size: nat, visits: seq<seq<Answer>>)

  // ----------------------------------------------- what the tree answers

  /** The node stored under a name, if any. */
  function Lookup(s: Struct, n: nat, name: Name): Option<Node>
    requires n <= |s.fields|
  {
    if n == 0 then None
    else if s.fields[n - 1].name == name then Some(s.fields[n - 1].node)
    else Lookup(s, n - 1, name)
  }

  function Find(s: Struct, name: Name): Option<Node> {
    Lookup(s, |s.fields|, name)
  }

  /** The element a visit sees; past the end every element is empty. */
  function ElementAt(elems: seq<Struct>, i: nat): Struct {
    if i < |elems| then elems[i] else Struct([])
  }

  predicate DistinctNames(s: Struct)
    decreases s
  {
    && (forall i, j | 0 <= i < j < |s.fields| :: s.fields[i].name != s.fields[j].name)
    && (forall f | f in s.fields :: f.node.AoS? ==> forall e | e in f.node.elems :: DistinctNames(e))
  }

  /**
   * The query asks a data node for data and an array for elements; a missing name may be asked either way. An
   * array found to be empty is not visited.
   */
  predicate Proper(s: Struct, q: Query)
    decreases q, 0
  {
    match q
    case GetField(name) => Find(s, name).None? || Find(s, name).value.Data?
    case GetArray(name, visits) =>
      match Find(s, name)
      case None => visits == []
      case Some(Data(_)) => false
      case Some(AoS(elems)) =>
        && (elems == [] ==> visits == [])
        && forall v | v in visits :: ProperAll(ElementAt(elems, v.index), v)
  }

  predicate ProperAll(s: Struct, v: Visit)
    decreases v, 1
  {
    forall q | q in v.queries :: Proper(s, q)
  }

  /** The answer read off the tree. */
  function Expected(s: Struct, q: Query): Answer
    requires Proper(s, q)
    decreases q, 0, 0
  {
    match q
    case GetField(name) =>
      FieldAnswer(if Find(s, name).None? then None else Some(Find(s, name).value.value))
    case GetArray(name, visits) =>
      if Find(s, name).None? then ArrayAnswer(0, [])
      else
        var elems := Find(s, name).value.elems;
        ArrayAnswer(WrittenSize(elems), ExpectedVisits(elems, visits, |visits|))
  }

  function ExpectedVisits(elems: seq<Struct>, visits: seq<Visit>, n: nat): seq<seq<Answer>>
    requires n <= |visits| && forall v | v in visits :: ProperAll(ElementAt(elems, v.index), v)
    decreases visits, 2, n
  {
    if n == 0 then []
    else
      var v := visits[n - 1];
      ExpectedVisits(elems, visits, n - 1) + [ExpectedAll(ElementAt(elems, v.index), v, |v.queries|)]
  }

  function ExpectedAll(s: Struct, v: Visit, n: nat): seq<Answer>
    requires n <= |v.queries| && ProperAll(s, v)
    decreases v, 1, n
  {
    if n == 0 then [] else ExpectedAll(s, v, n - 1) + [Expected(s, v.queries[n - 1])]
  }

  // -------------------------------------------------------- the get calls

  ghost predicate RIn(st: RState, ctx: Context) {
    RValid(st) && st.vecs != [] && st.maps != []
      && (ctx.Arraystruct? ==> InArray(st) && 0 <= ctx.index && 0 <= Top(st.aosIndex))
  }

  /** The same contexts are open and every stack has its old height. */
  ghost predicate SameHeights(st: RState, r: RState) {
    && r.buf == st.buf && r.ctxids == st.ctxids
    && |r.aosIndex| == |st.aosIndex| && |r.maps| == |st.maps| && |r.vecs| == |st.vecs|
    && (st.aosIndex != [] ==> Pop(r.aosIndex) == Pop(st.aosIndex))
  }

  ghost function RunQuery(st: RState, ctx: Context, q: Query): (r: (RState, Answer))
    requires RIn(st, ctx)
    ensures RIn(r.0, ctx) && SameHeights(st, r.0)
    decreases q, 0, 0
  {
    match q
    case GetField(name) =>
      var (s1, value) := RReadData(st, ctx, name);
      (s1, FieldAnswer(value))
    case GetArray(name, visits) =>
      var c := Child(ctx, |st.ctxids|, name);
      var (s1, size) := RBeginArraystruct(st, c);
      BeginReads(st, ctx, c);
      var (s2, answers) := if size == 0 then (s1, []) else RunVisits(s1, c, visits, |visits|);
      EndReads(st, ctx, c, s1, s2);
      (REndAction(s2, c).st, ArrayAnswer(size, answers))
  }

  lemma {:induction false} BeginReads(st: RState, ctx: Context, c: Context)
    requires RIn(st, ctx) && c.Arraystruct? && c == Child(ctx, c.uid, c.path)
    ensures var (r, size) := RBeginArraystruct(st, c);
      && RValid(r) && r.buf == st.buf && r.ctxids == st.ctxids + [c.uid] && |r.aosIndex| == |st.aosIndex| + 1
      && (ctx.Arraystruct? ==> 0 <= Top(Pop(r.aosIndex)))
      && (if Top(r.aosIndex) < 0 then size == 0 && |r.maps| == |st.maps| && |r.vecs| == |st.vecs|
          else |r.maps| == |st.maps| + 1 && |r.vecs| == |st.vecs| + 2 && RIn(r, c))
  {
  }

  lemma {:induction false} EndReads(st: RState, ctx: Context, c: Context, s1: RState, s2: RState)
    requires RIn(st, ctx) && c.Arraystruct? && c == Child(ctx, c.uid, c.path) && s1 == RBeginArraystruct(st, c).0
    requires SameHeights(s1, s2) && RValid(s2) && (s2 == s1 || (RIn(s2, c) && RIn(s1, c)))
    requires ctx.Arraystruct? ==> Pop(s2.aosIndex) == Pop(s1.aosIndex)
    ensures s2.ctxids != [] && Top(s2.ctxids) == c.uid && s2.aosIndex != [] && (Top(s2.aosIndex) >= 0 ==> InArray(s2))
    ensures RIn(REndAction(s2, c).st, ctx) && SameHeights(st, REndAction(s2, c).st)
  {
    BeginReads(st, ctx, c);
  }

  ghost function RunVisits(st: RState, c: Context, visits: seq<Visit>, n: nat): (r: (RState, seq<seq<Answer>>))
    requires n <= |visits| && c.Arraystruct? && RIn(st, c)
    ensures RIn(r.0, c) && SameHeights(st, r.0)
    decreases visits, 2, n
  {
    if n == 0 then (st, [])
    else
      var (s1, before) := RunVisits(st, c, visits, n - 1);
      var v := visits[n - 1];
      var (s2, answers) := RunAll(s1, c.(index := v.index), v, |v.queries|);
      (s2, before + [answers])
  }

  ghost function RunAll(st: RState, ctx: Context, v: Visit, n: nat): (r: (RState, seq<Answer>))
    requires n <= |v.queries| && RIn(st, ctx)
    ensures RIn(r.0, ctx) && SameHeights(st, r.0)
    decreases v, 1, n
  {
    if n == 0 then (st, [])
    else
      var (s1, before) := RunAll(st, ctx, v, n - 1);
      var (s2, answer) := RunQuery(s1, ctx, v.queries[n - 1]);
      (s2, before + [answer])
  }

  // ------------------------------------------------- the element map

  /** Position of the last key of each name among the first n items. */
  function KeyIndex(items: seq<Item>, n: nat): map<Name, nat>
    requires n <= |items|
  {
    if n == 0 then map[]
    else if items[n - 1].Key? then KeyIndex(items, n - 1)[items[n - 1].s := n - 1]
    else KeyIndex(items, n - 1)
  }

  lemma {:induction false} ElementMapIs(buf: seq<byte>, v: Sized, items: seq<Item>, n: nat)
    requires VectorReads(buf, v, items) && n <= |items|
    ensures ElementMap(buf, v, n) == KeyIndex(items, n)
  {
    if n > 0 {
      ElementMapIs(buf, v, items, n - 1);
      assert ElementReads(buf, v, n - 1, items[n - 1]);
      ReadsAccessible(buf, Element(buf, v, n - 1), items[n - 1]);
      KeyReads(buf, Element(buf, v, n - 1), items[n - 1]);
    }
  }

  lemma {:induction false} KeyReads(buf: seq<byte>, e: Reference, x: Item)
    requires Reads(buf, e, x) && Accessible(buf, e)
    ensures e.typ == FBT_KEY <==> x.Key?
    ensures x.Key? ==> AsKey(buf, e) == x.s
  {
    if x.Key? {
      CStringOf(buf, Indirect(buf, e), x.s);
    }
  }

  lemma {:induction false} KeyIndexPrefix(x: seq<Item>, y: seq<Item>, n: nat)
    requires n <= |x|
    ensures KeyIndex(x + y, n) == KeyIndex(x, n)
  {
    if n > 0 {
      KeyIndexPrefix(x, y, n - 1);
    }
  }

  predicate NoKeys(items: seq<Item>) {
    forall x | x in items :: !x.Key?
  }

  lemma {:induction false} NoKeysNoIndex(items: seq<Item>, n: nat)
    requires NoKeys(items) && n <= |items|
    ensures KeyIndex(items, n) == map[]
  {
    if n > 0 {
      NoKeysNoIndex(items, n - 1);
    }
  }

  /** Where the encoding of node is found under its name; empty arrays leave nothing behind. */
  predicate Indexed(items: seq<Item>, m: map<Name, nat>, name: Name, node: Option<Node>) {
    if node.None? || node.value == AoS([]) then name !in m
    else
      var code := EncodeField(Field(name, node.value));
      name in m && m[name] + |code| <= |items| && items[m[name]..m[name] + |code|] == code
  }

  lemma {:induction false} EncodeFieldShape(f: Field)
    ensures f.node == AoS([]) <==> EncodeField(f) == []
    ensures EncodeField(f) != [] ==> EncodeField(f)[0] == Key(f.name) && NoKeys(EncodeField(f)[1..])
  {
  }

  lemma {:induction false} KeyIndexAppend(items: seq<Item>, f: Field)
    ensures var all := items + EncodeField(f);
      KeyIndex(all, |all|) == if EncodeField(f) == [] then KeyIndex(items, |items|)
        else KeyIndex(items, |items|)[f.name := |items|]
  {
    var code := EncodeField(f);
    EncodeFieldShape(f);
    KeyIndexPrefix(items, code, |items|);
    if code == [] {
      assert items + code == items;
    } else {
      KeyIndexTail(items, code, |code|);
    }
  }

  lemma {:induction false} KeyIndexTail(items: seq<Item>, code: seq<Item>, n: nat)
    requires code != [] && code[0].Key? && NoKeys(code[1..]) && 1 <= n <= |code|
    ensures KeyIndex(items + code, |items| + n) == KeyIndex(items, |items|)[code[0].s := |items|]
  {
    KeyIndexPrefix(items, code, |items|);
    if n > 1 {
      KeyIndexTail(items, code, n - 1);
      assert code[n - 1] == code[1..][n - 2];
    }
  }

  lemma {:induction false} LookupNone(s: Struct, n: nat, name: Name)
    requires n <= |s.fields| && forall i | 0 <= i < n :: s.fields[i].name != name
    ensures Lookup(s, n, name) == None
  {
    if n > 0 {
      LookupNone(s, n - 1, name);
    }
  }

  /** Every name of the structure, and no other, leads to the encoding of its field. */
  lemma {:induction false} FieldsIndexed(head: seq<Item>, s: Struct, n: nat, name: Name)
    requires NoKeys(head) && n <= |s.fields| && DistinctNames(s)
    ensures var items := head + EncodeFields(s, n);
      Indexed(items, KeyIndex(items, |items|), name, Lookup(s, n, name))
  {
    hide KeyIndex, EncodeField, Indexed, NoKeys;
    if n == 0 {
      assert head + EncodeFields(s, 0) == head;
      NoKeysNoIndex(head, |head|);
      IndexedNone(head, KeyIndex(head, |head|), name);
    } else {
      var f := s.fields[n - 1];
      var before := head + EncodeFields(s, n - 1);
      var items := before + EncodeField(f);
      assert head + EncodeFields(s, n) == items;
      FieldsIndexed(head, s, n - 1, name);
      KeyIndexAppend(before, f);
      EncodeFieldShape(f);
      if f.name == name {
        LookupNone(s, n - 1, name);
        IndexedLast(before, f, KeyIndex(before, |before|));
      } else {
        IndexedGrows(before, EncodeField(f), KeyIndex(before, |before|), KeyIndex(items, |items|), name,
          Lookup(s, n, name));
      }
    }
  }

  lemma {:induction false} IndexedNone(items: seq<Item>, m: map<Name, nat>, name: Name)
    requires name !in m
    ensures Indexed(items, m, name, None)
  {
  }

  lemma {:induction false} IndexedLast(before: seq<Item>, f: Field, m: map<Name, nat>)
    requires Indexed(before, m, f.name, None)
    ensures Indexed(before + EncodeField(f), if EncodeField(f) == [] then m
      else m[f.name := |before|], f.name, Some(f.node))
  {
    hide EncodeField;
    EncodeFieldShape(f);
    var items := before + EncodeField(f);
    assert items[|before|..|before| + |EncodeField(f)|] == EncodeField(f);
    assert Field(f.name, f.node) == f;
  }

  lemma {:induction false} IndexedGrows(x: seq<Item>, y: seq<Item>, m: map<Name, nat>, m2: map<Name, nat>, name: Name,
      node: Option<Node>)
    requires Indexed(x, m, name, node)
    requires name in m <==> name in m2
    requires name in m ==> m[name] == m2[name]
    ensures Indexed(x + y, m2, name, node)
  {
    if !(node.None? || node.value == AoS([])) {
      var code := EncodeField(Field(name, node.value));
      assert (x + y)[m[name]..m[name] + |code|] == x[m[name]..m[name] + |code|];
    }
  }

  // ------------------------------------------------ reading one structure

  /** The innermost vector is the encoding of s behind head, and the innermost map indexes it. */
  ghost predicate InStruct(st: RState, head: seq<Item>, s: Struct) {
    && RValid(st) && st.vecs != [] && st.maps != [] && NoKeys(head)
    && StorableStruct(s) && DistinctNames(s)
    && VectorReads(st.buf, Top(st.vecs), head + Encode(s))
    && Top(st.maps) == KeyIndex(head + Encode(s), |head + Encode(s)|)
  }

  lemma {:induction false} AsInt32Identity(x: int)
    requires FitsSigned(x, 4)
    ensures AsInt32(x) == x
  {
    Pow256Values();
    if x >= 0 {
      ModUnique(x, 0x1_0000_0000, 0, x);
    } else {
      ModUnique(x, 0x1_0000_0000, -1, x + 0x1_0000_0000);
    }
  }

  lemma {:induction false} DimsRead(buf: seq<byte>, e: Reference, w: BitWidth, xs: seq<int>, n: nat)
    requires Reads(buf, e, IntVec(w, xs)) && Accessible(buf, e) && e.typ == FBT_VECTOR_INT
    requires n <= |xs| && forall x | x in xs :: FitsSigned(x, 4)
    ensures AsTypedVector(buf, e).size == |xs|
    ensures SizesAt(buf, AsTypedVector(buf, e), n) == xs[..n]
  {
    var v := AsTypedVector(buf, e);
    assert ObjectAt(buf, Indirect(buf, e), e.width, e.typ, IntVec(w, xs));
    if n > 0 {
      DimsRead(buf, e, w, xs, n - 1);
      assert TypedElementReads(buf, v, n - 1, xs[n - 1]);
      AsInt32Identity(xs[n - 1]);
      assert xs[..n] == xs[..n - 1] + [xs[n - 1]];
    }
  }

  lemma {:induction false} LeafReads(buf: seq<byte>, e: Reference, x: Item)
    requires Reads(buf, e, x) && Accessible(buf, e)
    ensures x.Int? ==> e.typ == FBT_INT && AsInt64(buf, e) == x.i
    ensures x.Blob? ==> e.typ == FBT_BLOB && buf[AsBlob(buf, e).data..AsBlob(buf, e).data + AsBlob(buf, e).size] == x.b
    ensures x.IntVec? ==> e.typ == FBT_VECTOR_INT
    ensures x.Vec? ==> e.typ == FBT_VECTOR && VectorReads(buf, AsVector(buf, e), x.items)
  {
  }

  /** The three items behind a name give back the node they were made from. */
  lemma {:induction false} FieldRead(buf: seq<byte>, v: Sized, items: seq<Item>, p: nat, name: Name, value: FieldValue)
    requires VectorReads(buf, v, items) && Decodable(buf, v) && p + 4 <= |items|
    requires items[p..p + 4] == EncodeField(Field(name, Data(value))) && Storable(Field(name, Data(value)))
    ensures ReadField(buf, v, p) == value
  {
    hide Reads, FitsSigned;
    var code := EncodeField(Field(name, Data(value)));
    assert items[p + 1] == items[p..p + 4][1] == Int(value.datatype_);
    assert items[p + 2] == items[p..p + 4][2] == IntVec(2, value.dims);
    assert items[p + 3] == items[p..p + 4][3] == Blob(value.bytes);
    assert ElementReads(buf, v, p + 1, items[p + 1]);
    assert ElementReads(buf, v, p + 2, items[p + 2]);
    assert ElementReads(buf, v, p + 3, items[p + 3]);
    DecodableElement(buf, v, p + 1);
    DecodableElement(buf, v, p + 2);
    DecodableElement(buf, v, p + 3);
    LeafReads(buf, Element(buf, v, p + 1), items[p + 1]);
    LeafReads(buf, Element(buf, v, p + 2), items[p + 2]);
    LeafReads(buf, Element(buf, v, p + 3), items[p + 3]);
    DimsRead(buf, Element(buf, v, p + 2), 2, value.dims, |value.dims|);
    AsInt32Identity(value.datatype_);
    assert value.dims[..|value.dims|] == value.dims;
  }

  lemma {:induction false} LookupStorable(s: Struct, n: nat, name: Name)
    requires n <= |s.fields| && StorableStruct(s) && DistinctNames(s) && Lookup(s, n, name).Some?
    ensures Storable(Field(name, Lookup(s, n, name).value))
    ensures Lookup(s, n, name).value.AoS? ==> forall e | e in Lookup(s, n, name).value.elems :: DistinctNames(e)
  {
    if s.fields[n - 1].name == name {
      assert s.fields[n - 1] in s.fields;
    } else {
      LookupStorable(s, n - 1, name);
    }
  }

  lemma {:induction false} DataAnswered(st: RState, head: seq<Item>, s: Struct, name: Name)
    requires InStruct(st, head, s) && (Find(s, name).None? || Find(s, name).value.Data?)
    ensures name in Top(st.maps) <==> Find(s, name).Some?
    ensures Find(s, name).Some? ==> ReadField(st.buf, Top(st.vecs), Top(st.maps)[name]) == Find(s, name).value.value
  {
    hide ReadField, Decodable, VectorReads, Storable, EncodeFields, KeyIndex;
    FieldsIndexed(head, s, |s.fields|, name);
    if Find(s, name).Some? {
      LookupStorable(s, |s.fields|, name);
      FieldRead(st.buf, Top(st.vecs), head + Encode(s), Top(st.maps)[name], name, Find(s, name).value.value);
    }
  }

  lemma {:induction false} ArrayFound(st: RState, head: seq<Item>, s: Struct, name: Name)
    requires InStruct(st, head, s) && (Find(s, name).None? || Find(s, name).value.AoS?)
    ensures name in Top(st.maps) <==> Find(s, name).Some? && Find(s, name).value.elems != []
    ensures name in Top(st.maps) ==>
      var elems := Find(s, name).value.elems;
      VectorReads(st.buf, SubVector(st.buf, Top(st.vecs), Top(st.maps)[name] + 1),
        EncodeElements(elems, WrittenSize(elems)))
  {
    hide Decodable, Storable, EncodeFields, KeyIndex;
    FieldsIndexed(head, s, |s.fields|, name);
    if name in Top(st.maps) {
      var elems := Find(s, name).value.elems;
      var items := head + Encode(s);
      var p := Top(st.maps)[name];
      var code := EncodeField(Field(name, AoS(elems)));
      assert items[p + 1] == items[p..p + |code|][1] == Vec(EncodeElements(elems, WrittenSize(elems)));
      assert ElementReads(st.buf, Top(st.vecs), p + 1, items[p + 1]);
      DecodableElement(st.buf, Top(st.vecs), p + 1);
      LeafReads(st.buf, Element(st.buf, Top(st.vecs), p + 1), items[p + 1]);
    }
  }

  // -------------------------------------------------- reading one array

  /** An array of the tree is open: the innermost vector is its current element, the one below the array itself. */
  ghost predicate AtArray(st: RState, elems: seq<Struct>) {
    && RValid(st) && InArray(st)
    && (forall e | e in elems :: StorableStruct(e) && DistinctNames(e))
    && VectorReads(st.buf, Top(Pop(st.vecs)), EncodeElements(elems, WrittenSize(elems)))
    && 0 <= Top(st.aosIndex)
    && Top(st.vecs) == SubVector(st.buf, Top(Pop(st.vecs)), Top(st.aosIndex))
    && Top(st.maps) == ElementMap(st.buf, Top(st.vecs), Top(st.vecs).size)
  }

  /** At most the current element of the innermost array differs. */
  ghost predicate SameBelow(st: RState, r: RState)
    requires InArray(st)
  {
    && InArray(r) && r.buf == st.buf && r.ctxids == st.ctxids
    && Pop(r.aosIndex) == Pop(st.aosIndex) && Pop(r.maps) == Pop(st.maps) && Pop(r.vecs) == Pop(st.vecs)
  }

  lemma {:induction false} ElementInStruct(st: RState, elems: seq<Struct>)
    requires AtArray(st, elems)
    ensures InStruct(st, [], ElementAt(elems, Top(st.aosIndex)))
  {
    hide Storable, EncodeFields, KeyIndex, ElementMap, InStruct, Decodable;
    if Top(st.aosIndex) < WrittenSize(elems) {
      WrittenElement(st, elems);
    } else {
      UnwrittenElement(st, elems);
    }
  }

  lemma {:induction false} WrittenElement(st: RState, elems: seq<Struct>)
    requires AtArray(st, elems) && Top(st.aosIndex) < WrittenSize(elems)
    ensures InStruct(st, [], elems[Top(st.aosIndex)])
  {
    hide Storable, EncodeFields, KeyIndex, ElementMap;
    var i := Top(st.aosIndex);
    var v := Top(Pop(st.vecs));
    var items := EncodeElements(elems, WrittenSize(elems));
    EncodeElementsAt(elems, WrittenSize(elems), i);
    assert ElementReads(st.buf, v, i, items[i]);
    DecodableElement(st.buf, v, i);
    LeafReads(st.buf, Element(st.buf, v, i), items[i]);
    ElementMapIs(st.buf, Top(st.vecs), Encode(elems[i]), |Encode(elems[i])|);
    assert [] + Encode(elems[i]) == Encode(elems[i]);
    assert elems[i] in elems;
  }

  /** An element that was not written reads as a structure without fields, which it was. */
  lemma {:induction false} UnwrittenElement(st: RState, elems: seq<Struct>)
    requires AtArray(st, elems) && WrittenSize(elems) <= Top(st.aosIndex)
    ensures InStruct(st, [], ElementAt(elems, Top(st.aosIndex)))
  {
    hide Decodable, Storable;
    var i := Top(st.aosIndex);
    assert ElementAt(elems, i) == Struct([]);
    EmptyDecodable(st.buf);
    assert Encode(Struct([])) == [];
  }

  lemma {:induction false} MoveKeepsArray(st: RState, c: Context, elems: seq<Struct>)
    requires AtArray(st, elems) && c.Arraystruct? && 0 <= c.index
    ensures var r := RCheckAosIndex(st, c); AtArray(r, elems) && SameBelow(st, r) && Top(r.aosIndex) == c.index
  {
    hide VectorReads, Decodable, StorableStruct, DistinctNames, EncodeElements, WrittenSize, SubVector, ElementMap;
  }

  // ----------------------------------------------------- every query

  lemma {:induction false} QueryAnswered(st: RState, ctx: Context, head: seq<Item>, s: Struct, q: Query)
    requires RIn(st, ctx) && InStruct(RCheckAosIndex(st, ctx), head, s) && Proper(s, q)
    ensures RunQuery(st, ctx, q) == (RCheckAosIndex(st, ctx), Expected(s, q))
    decreases q, 1, 0
  {
    var at := RCheckAosIndex(st, ctx);
    match q
    case GetField(name) =>
      DataAnswered(at, head, s, name);
    case GetArray(name, visits) =>
      ArrayFound(at, head, s, name);
      if name in Top(at.maps) {
        ArrayAnswered(st, ctx, head, s, name, visits);
      } else {
        FirstVisit(visits);
        assert visits == [];
      }
  }

  lemma {:induction false} FirstVisit(visits: seq<Visit>)
    ensures visits != [] ==> visits[0] in visits
  {
  }

  lemma {:induction false} ArrayAnswered(st: RState, ctx: Context, head: seq<Item>, s: Struct, name: Name,
      visits: seq<Visit>)
    requires RIn(st, ctx) && InStruct(RCheckAosIndex(st, ctx), head, s) && Proper(s, GetArray(name, visits))
    requires name in Top(RCheckAosIndex(st, ctx).maps)
    ensures RunQuery(st, ctx, GetArray(name, visits)) == (RCheckAosIndex(st, ctx), Expected(s, GetArray(name, visits)))
    decreases GetArray(name, visits), 0, 0
  {
    hide AtArray, RCheckAosIndex, VectorReads, Decodable, RBeginArraystruct, SubVector;
    var at := RCheckAosIndex(st, ctx);
    var c := Child(ctx, |st.ctxids|, name);
    ArrayFound(at, head, s, name);
    var elems := Find(s, name).value.elems;
    LookupStorable(s, |s.fields|, name);
    ArrayBegun(st, ctx, at, c, elems);
    BeginReads(st, ctx, c);
    var s1 := RBeginArraystruct(st, c).0;
    VisitsAnswered(s1, c, elems, visits, |visits|);
    var s2 := RunVisits(s1, c, visits, |visits|).0;
    EndReads(st, ctx, c, s1, s2);
    assert REndAction(s2, c).st == at;
  }

  lemma {:induction false} ArrayBegun(st: RState, ctx: Context, at: RState, c: Context, elems: seq<Struct>)
    requires RIn(st, ctx) && at == RCheckAosIndex(st, ctx) && c.Arraystruct? && c == Child(ctx, c.uid, c.path)
    requires c.path in Top(at.maps) && elems != [] && forall e | e in elems :: StorableStruct(e) && DistinctNames(e)
    requires VectorReads(st.buf, SubVector(st.buf, Top(at.vecs), Top(at.maps)[c.path] + 1),
      EncodeElements(elems, WrittenSize(elems)))
    ensures var (r, size) := RBeginArraystruct(st, c);
      && size == WrittenSize(elems) && AtArray(r, elems)
      && r.buf == st.buf && Pop(Pop(r.vecs)) == at.vecs && Pop(r.maps) == at.maps && Pop(r.aosIndex) == at.aosIndex
      && r.ctxids == st.ctxids + [c.uid]
  {
    hide StorableStruct, DistinctNames, ElementReads, ElementMap, AsVector, Element;
    var s2 := at.(ctxids := st.ctxids + [c.uid]);
    var vector := SubVector(st.buf, Top(at.vecs), Top(at.maps)[c.path] + 1);
    var s3 := s2.(aosIndex := s2.aosIndex + [0], vecs := s2.vecs + [vector]);
    var r := PushElementMap(s3, SubVector(st.buf, vector, 0));
    assert Top(Pop(r.vecs)) == vector;
    assert AtArray(r, elems);
    assert RBeginArraystruct(st, c) == (r, vector.size);
  }

  lemma {:induction false} VisitsAnswered(st: RState, c: Context, elems: seq<Struct>, visits: seq<Visit>, n: nat)
    requires n <= |visits| && c.Arraystruct? && RIn(st, c) && AtArray(st, elems)
    requires forall v | v in visits :: ProperAll(ElementAt(elems, v.index), v)
    ensures var (r, answers) := RunVisits(st, c, visits, n);
      AtArray(r, elems) && SameBelow(st, r) && answers == ExpectedVisits(elems, visits, n)
    decreases visits, 3, n
  {
    hide AtArray, InStruct;
    if n > 0 {
      var (s1, before) := RunVisits(st, c, visits, n - 1);
      var v := visits[n - 1];
      VisitsAnswered(st, c, elems, visits, n - 1);
      MoveKeepsArray(s1, c.(index := v.index), elems);
      ElementInStruct(RCheckAosIndex(s1, c.(index := v.index)), elems);
      AllAnswered(s1, c.(index := v.index), [], ElementAt(elems, v.index), v, |v.queries|);
    }
  }

  lemma {:induction false} RCheckTwice(st: RState, ctx: Context)
    requires RIn(st, ctx)
    ensures RIn(RCheckAosIndex(st, ctx), ctx)
    ensures RCheckAosIndex(RCheckAosIndex(st, ctx), ctx) == RCheckAosIndex(st, ctx)
  {
  }

  lemma {:induction false} AllAnswered(st: RState, ctx: Context, head: seq<Item>, s: Struct, v: Visit, n: nat)
    requires RIn(st, ctx) && InStruct(RCheckAosIndex(st, ctx), head, s)
    requires n <= |v.queries| && ProperAll(s, v)
    ensures RunAll(st, ctx, v, n) == (if n == 0 then st else RCheckAosIndex(st, ctx), ExpectedAll(s, v, n))
    decreases v, 2, n
  {
    hide InStruct, RCheckAosIndex, RunQuery, Expected;
    RCheckTwice(st, ctx);
    if n > 0 {
      AllAnswered(st, ctx, head, s, v, n - 1);
      QueryAnswered(RunAll(st, ctx, v, n - 1).0, ctx, head, s, v.queries[n - 1]);
    }
  }

  // ------------------------------------------------------------- the round trip

  /** The first byte of a serialized buffer, in front of what the Builder wrote. */
  const FLEXBUFFERS_SERIALIZER_PROTOCOL: byte := 61

  /** What reading "<buffer>" from a backend in the state st returns. */
  function TransferBuffer(st: WState): seq<byte>
    requires |st.b.stack| == 1
  {
    [FLEXBUFFERS_SERIALIZER_PROTOCOL] + Finish(st.b)
  }

  /** A whole get: beginAction, the queries of v, endAction. */
  ghost function GetIds(st: RState, uid: nat, v: Visit): (r: (RState, seq<Answer>))
    requires RValid(st) && RootDecodable(st.buf)
    requires RBeginAction(st, Operation(uid, false)).Done?
  {
    var ctx := Operation(uid, false);
    var (s1, answers) := RunAll(RBeginAction(st, ctx).st, ctx, v, |v.queries|);
    (REndAction(s1, ctx).st, answers)
  }

  lemma {:induction false} RootRead(buf: seq<byte>, s: Struct)
    requires |buf| >= 2 && Reads(buf, GetRoot(buf), RootItem(s))
    ensures RootDecodable(buf) && VectorReads(buf, AsVector(buf, GetRoot(buf)), [Blob(ENDIAN_MARKER)] + Encode(s))
    ensures AsBlob(buf, Element0(buf)).size == 4
    ensures buf[AsBlob(buf, Element0(buf)).data..AsBlob(buf, Element0(buf)).data + 4] == ENDIAN_MARKER
  {
    hide ObjectAt, EncodeFields, Decodable;
    var items := [Blob(ENDIAN_MARKER)] + Encode(s);
    ReadsAccessible(buf, GetRoot(buf), RootItem(s));
    LeafReads(buf, GetRoot(buf), RootItem(s));
    var v := AsVector(buf, GetRoot(buf));
    assert ElementReads(buf, v, 0, items[0]);
    DecodableElement(buf, v, 0);
    LeafReads(buf, Element(buf, v, 0), items[0]);
  }

  /**
   * Put an IDS, hand the buffer over, and get it: every proper sequence of queries, at any nesting and in any
   * order of element indices, is answered from the tree, and the reader ends in the state it started in.
   */
  lemma {:induction false} PutThenGet(ws: WState, rs: RState, putId: nat, getId: nat, s: Struct, v: Visit)
    requires ws.starts == [] && StorableStruct(s) && DistinctNames(s) && ProperAll(s, v)
    requires |PutIds(ws, putId, s).b.stack| == 1 && |Finish(PutIds(ws, putId, s).b)| < TWO64
    requires RValid(rs) && rs.buf == TransferBuffer(PutIds(ws, putId, s))
    ensures RootDecodable(rs.buf) && RBeginAction(rs, Operation(getId, false)).Done?
    ensures GetIds(rs, getId, v) == (rs, ExpectedAll(s, v, |v.queries|))
  {
    PutIdsBuilds(ws, putId, s);
    SerializeRoundTrip(RootItem(s), [FLEXBUFFERS_SERIALIZER_PROTOCOL]);
    RootRead(rs.buf, s);
    IdsAnswered(rs, getId, s, v);
  }

  lemma {:induction false} IdsAnswered(rs: RState, uid: nat, s: Struct, v: Visit)
    requires RValid(rs) && |rs.buf| >= 2 && Reads(rs.buf, GetRoot(rs.buf), RootItem(s)) && RootDecodable(rs.buf)
    requires StorableStruct(s) && DistinctNames(s) && ProperAll(s, v)
    ensures RBeginAction(rs, Operation(uid, false)).Done?
    ensures GetIds(rs, uid, v) == (rs, ExpectedAll(s, v, |v.queries|))
  {
    hide Reads, ObjectAt, StorableStruct, DistinctNames, EncodeFields, Decodable, ElementReads;
    var ctx := Operation(uid, false);
    var head: seq<Item> := [Blob(ENDIAN_MARKER)];
    RootRead(rs.buf, s);
    var root := AsVector(rs.buf, GetRoot(rs.buf));
    ElementMapIs(rs.buf, root, head + Encode(s), |head + Encode(s)|);
    var begun := RBeginAction(rs, ctx).st;
    assert InStruct(begun, head, s);
    AllAnswered(begun, ctx, head, s, v, |v.queries|);
  }
}
