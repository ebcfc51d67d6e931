/** The serializer backend as an object: its methods move the stacks exactly as the model says. */
module Backend {
  import opened DataTypes
  import Shapes
  import opened Chunks
  import opened Scalars
  import opened Wire
  import B = BuilderModel
  import opened FlexBuilder
  import opened SerializerModel
  import opened ReadSession

  class FlexbuffersBackend {
    var serializing: bool
    var curCtxid: seq<nat>
    var curAosIndex: seq<int>
    var builder: Builder
    var vectorStarts: seq<nat>
    var buffer: seq<byte>
    var elementMap: seq<map<Name, nat>>
    var curVector: seq<Sized>

    ghost function W(): WState
      reads this, builder
    {
      WState(builder.State(), vectorStarts, curCtxid, curAosIndex)
    }

    ghost function R(): RState
      reads this
    {
      RState(buffer, curCtxid, curAosIndex, elementMap, curVector)
    }

    ghost predicate Valid()
      reads this, builder
    {
      if serializing then builder.Valid() && StartsOk(W()) else RValid(R())
    }

    /** Opening a pulse in any mode but OPEN_PULSE starts serializing with a new Builder. */
    constructor (uid: nat, openPulse: bool)
      ensures Valid() && serializing == !openPulse && fresh(builder)
      ensures W() == WState(B.BState([], []), [], [uid], []) && R() == RState([], [uid], [], [], [])
    {
      serializing := !openPulse;
      curCtxid, curAosIndex, vectorStarts := [uid], [], [];
      builder := new Builder();
      buffer, elementMap, curVector := [], [], [];
    }

    method ClosePulse()
      requires Valid() && vectorStarts == [] && curVector == []
      modifies this, builder
      ensures Valid() && serializing == old(serializing) && builder == old(builder)
      ensures W() == old(W()).(b := B.BState([], [])) && R() == old(R()).(buf := [])
    {
      builder.Clear();
      buffer := [];
    }

    // ------------------------------------------------------------ vectors

    method StartVector()
      requires serializing && Valid()
      modifies this`vectorStarts
      ensures Valid() && W() == OpenVector(old(W()))
    {
      vectorStarts := vectorStarts + [builder.StartVector()];
    }

    method EndVector()
      requires serializing && Valid() && vectorStarts != [] && |CloseVector(W()).b.buf| < TWO64
      modifies this`vectorStarts, builder
      ensures Valid() && W() == CloseVector(old(W()))
    {
      builder.EndVector(Top(vectorStarts));
      vectorStarts := Pop(vectorStarts);
    }

    /** Moves the innermost array to the index its context points at. */
    method CheckAosIndex(ctx: Context)
      requires Valid()
      requires serializing ==> (ctx.Arraystruct? ==> vectorStarts != [] && curAosIndex != [])
                               && |WCheckAosIndex(W(), ctx).b.buf| < TWO64
      requires !serializing && ctx.Arraystruct? ==> InArray(R()) && 0 <= ctx.index
      modifies this`vectorStarts, this`curAosIndex, this`elementMap, this`curVector, builder
      ensures Valid()
      ensures serializing ==> W() == WCheckAosIndex(old(W()), ctx) && R() == old(R()).(aosIndex := curAosIndex)
      ensures !serializing ==> R() == RCheckAosIndex(old(R()), ctx) && W() == old(W()).(aosIndex := curAosIndex)
    {
      if ctx.Arraystruct? {
        if serializing {
          SkipToElement(ctx.index);
        } else if Top(curAosIndex) != ctx.index {
          MoveToElement(ctx.index);
        }
      }
    }

    method SkipToElement(index: int)
      requires serializing && Valid() && vectorStarts != [] && curAosIndex != []
        && |AdvanceTo(W(), index).b.buf| < TWO64
      modifies this`vectorStarts, this`curAosIndex, builder
      ensures Valid() && W() == AdvanceTo(old(W()), index)
    {
      hide CloseVector, OpenVector;
      while Top(curAosIndex) < index
        invariant Valid() && curAosIndex != [] && vectorStarts != []
        invariant AdvanceTo(W(), index) == AdvanceTo(old(W()), index)
        decreases index - Top(curAosIndex)
      {
        AdvanceGrows(W(), index);
        NextElement();
      }
    }

    /** Closes the vector of the current element and starts the one of the next. */
    method NextElement()
      requires serializing && Valid() && vectorStarts != [] && curAosIndex != [] && |CloseVector(W()).b.buf| < TWO64
      modifies this`vectorStarts, this`curAosIndex, builder
      ensures Valid() && vectorStarts != [] && curAosIndex != [] && Top(curAosIndex) == Top(old(curAosIndex)) + 1
      ensures W() == OpenVector(CloseVector(old(W()))).(aosIndex := Pop(old(curAosIndex)) + [Top(old(curAosIndex)) + 1])
    {
      hide B.EndVector;
      EndVector();
      StartVector();
      curAosIndex := Pop(curAosIndex) + [Top(curAosIndex) + 1];
    }

    method MoveToElement(index: nat)
      requires !serializing && RValid(R()) && InArray(R()) && Top(curAosIndex) != index
      modifies this`curAosIndex, this`elementMap, this`curVector
      ensures RValid(R())
      ensures forall ctx: Context | ctx.Arraystruct? && ctx.index == index :: R() == RCheckAosIndex(old(R()), ctx)
    {
      hide Decodable;
      curAosIndex := Pop(curAosIndex) + [index];
      elementMap := Pop(elementMap);
      curVector := Pop(curVector);
      var element := ElementVector(Top(curVector), index);
      PushMap(element);
    }

    method ElementVector(v: Sized, i: nat) returns (r: Sized)
      requires Decodable(buffer, v)
      ensures Decodable(buffer, r) && r == SubVector(buffer, v, i)
    {
      DecodableElement(buffer, v, i);
      EmptyDecodable(buffer);
      r := AsVector(buffer, Element(buffer, v, i));
    }

    /** Enters a vector: every key in it is entered in a new map with its position. */
    method PushMap(v: Sized)
      requires RValid(R()) && Decodable(buffer, v)
      modifies this`elementMap, this`curVector
      ensures R() == PushElementMap(old(R()), v)
    {
      curVector := curVector + [v];
      var m: map<Name, nat> := map[];
      for i := 0 to v.size
        invariant m == ElementMap(buffer, v, i)
        invariant elementMap == old(elementMap) && curVector == old(curVector) + [v]
      {
        DecodableElement(buffer, v, i);
        var ele := Element(buffer, v, i);
        if ele.typ == FBT_KEY {
          m := m[AsKey(buffer, ele) := i];
        }
      }
      elementMap := elementMap + [m];
      assert R() == PushElementMap(old(R()), v);
    }

    // ------------------------------------------------------------ actions

    method BeginAction(ctx: Context) returns (error: Option<Error>)
      requires Valid() && ctx.Operation? && (serializing ==> vectorStarts == [])
        && (!serializing ==> RootDecodable(buffer))
      modifies this, builder
      ensures Valid() && serializing == old(serializing) && builder == old(builder)
      ensures serializing ==>
        W() == WBeginAction(old(W()), ctx).st && error == WBeginAction(old(W()), ctx).Refusal()
      ensures !serializing ==>
        R() == RBeginAction(old(R()), ctx).st && error == RBeginAction(old(R()), ctx).Refusal()
    {
      hide Decodable, PushElementMap, RootDecodable, ElementMap, B.AddBlob, GetRoot, AsBlob;
      if ctx.sliceMode {
        return Some(SliceUnsupported);
      }
      curCtxid := curCtxid + [ctx.uid];
      if serializing {
        builder.Clear();
        StartVector();
        builder.Blob(ENDIAN_MARKER);
      } else {
        var known := EnterRoot();
        if !known {
          curCtxid := Pop(curCtxid);
          return Some(EndianMismatch);
        }
      }
      return None;
    }

    /** Enters the root vector, whose first element tells the byte order. */
    method EnterRoot() returns (known: bool)
      requires !serializing && RValid(R()) && RootDecodable(buffer)
      modifies this`elementMap, this`curVector
      ensures R() == PushElementMap(old(R()), AsVector(buffer, GetRoot(buffer)))
      ensures var blob := AsBlob(buffer, Element0(buffer)); known == (buffer[blob.data..blob.data + 4] == ENDIAN_MARKER)
    {
      hide ElementMap;
      var root := GetRoot(buffer);
      PushMap(AsVector(buffer, root));
      DecodableElement(buffer, Top(curVector), 0);
      var blob := AsBlob(buffer, Element(buffer, Top(curVector), 0));
      known := buffer[blob.data..blob.data + 4] == ENDIAN_MARKER;
    }

    method BeginArraystructAction(ctx: Context, size: int) returns (outSize: int)
      requires Valid() && ctx.Arraystruct?
      requires serializing ==>
        (ctx.parent.Some? && ctx.parent.value.Arraystruct? ==> vectorStarts != [] && curAosIndex != [])
        && |WBeginArraystruct(W(), ctx, size).b.buf| < TWO64
      requires !serializing ==>
        curVector != [] && elementMap != []
        && (ctx.parent.Some? && ctx.parent.value.Arraystruct? ==> InArray(R()) && 0 <= ctx.parent.value.index)
      modifies this, builder
      ensures Valid() && serializing == old(serializing) && builder == old(builder)
      ensures serializing ==> W() == WBeginArraystruct(old(W()), ctx, size) && outSize == size
      ensures !serializing ==> (R(), outSize) == RBeginArraystruct(old(R()), ctx)
    {
      hide B.EndVector, Decodable, AdvanceTo, PushElementMap, RCheckAosIndex, WCheckAosIndex, SubVector, ElementMap;
      curCtxid := curCtxid + [ctx.uid];
      if ctx.parent.Some? {
        CheckAosIndex(ctx.parent.value);
      }
      outSize := size;
      if serializing {
        OpenArray(ctx.path, size);
      } else {
        outSize := EnterArray(ctx.path);
      }
    }

    method OpenArray(path: Name, size: int)
      requires serializing && Valid()
      modifies this`curAosIndex, this`vectorStarts, builder
      ensures Valid()
      ensures W() == var st := old(W());
        if size <= 0 then st.(aosIndex := st.aosIndex + [-1])
        else OpenVector(OpenVector(st.(aosIndex := st.aosIndex + [0], b := B.AddKey(st.b, path))))
    {
      curAosIndex := curAosIndex + [0];
      if size <= 0 {
        // signals that no vectors were started
        curAosIndex := Pop(curAosIndex) + [-1];
        return;
      }
      builder.Key(path);
      StartVector();
      StartVector();
    }

    method EnterArray(path: Name) returns (size: nat)
      requires !serializing && RValid(R()) && curVector != [] && elementMap != []
      modifies this`curAosIndex, this`elementMap, this`curVector
      ensures RValid(R())
      ensures (R(), size) == var st := old(R());
        if path !in Top(st.maps) then (st.(aosIndex := st.aosIndex + [-1]), 0)
        else
          var vector := SubVector(st.buf, Top(st.vecs), Top(st.maps)[path] + 1);
          (PushElementMap(st.(aosIndex := st.aosIndex + [0], vecs := st.vecs + [vector]),
            SubVector(st.buf, vector, 0)), vector.size)
    {
      hide Decodable, PushElementMap, SubVector, ElementMap;
      curAosIndex := curAosIndex + [0];
      if path !in Top(elementMap) {
        size := 0;
        // signals that no element map was pushed
        curAosIndex := Pop(curAosIndex) + [-1];
      } else {
        var vector := ElementVector(Top(curVector), Top(elementMap)[path] + 1);
        size := vector.size;
        curVector := curVector + [vector];
        var first := ElementVector(vector, 0);
        PushMap(first);
      }
    }

    method EndAction(ctx: Context) returns (error: Option<Error>)
      requires Valid() && curCtxid != []
      requires serializing ==>
        (ctx.Operation? ==> vectorStarts != [])
        && (ctx.Arraystruct? ==> curAosIndex != [] && (Top(curAosIndex) >= 0 ==> |vectorStarts| >= 2))
        && |WEndAction(W(), ctx).st.b.buf| < TWO64
      requires !serializing ==>
        (ctx.Operation? ==> elementMap != [] && curVector != [])
        && (ctx.Arraystruct? ==> curAosIndex != [] && (Top(curAosIndex) >= 0 ==> InArray(R())))
      modifies this, builder
      ensures Valid() && serializing == old(serializing) && builder == old(builder)
      ensures serializing ==>
        W() == WEndAction(old(W()), ctx).st && error == WEndAction(old(W()), ctx).Refusal()
      ensures !serializing ==>
        R() == REndAction(old(R()), ctx).st && error == REndAction(old(R()), ctx).Refusal()
    {
      hide B.EndVector, Decodable;
      if ctx.uid != Top(curCtxid) {
        return Some(UnexpectedNesting);
      }
      curCtxid := Pop(curCtxid);
      if ctx.Arraystruct? {
        if serializing {
          if Top(curAosIndex) >= 0 {
            CloseGrows(CloseVector(W()));
            EndVector();
            EndVector();
          }
        } else if Top(curAosIndex) >= 0 {
          elementMap := Pop(elementMap);
          curVector := Pop(curVector);
          curVector := Pop(curVector);
        }
        curAosIndex := Pop(curAosIndex);
      } else if serializing {
        EndVector();
      } else {
        elementMap := Pop(elementMap);
        curVector := Pop(curVector);
      }
      return None;
    }

    // --------------------------------------------------------------- data

    method WriteData(ctx: Context, name: Name, datatype_: int, dims: seq<int>, data: seq<byte>)
      returns (error: Option<Error>)
      requires Valid() && WellSized(datatype_, dims, data)
      requires serializing ==>
        (ctx.Arraystruct? ==> vectorStarts != [] && curAosIndex != [])
        && |WWriteData(W(), ctx, name, datatype_, dims, data).st.b.buf| < TWO64
      modifies this, builder
      ensures Valid() && serializing == old(serializing) && builder == old(builder)
      ensures serializing ==> W() == WWriteData(old(W()), ctx, name, datatype_, dims, data).st
      ensures serializing ==>
        error == if CHAR_DATA <= datatype_ <= COMPLEX_DATA then None else Some(UnsupportedDatatype)
      ensures !serializing ==> error == Some(NoBuilder) && W() == old(W()) && R() == old(R())
    {
      hide *;
      if !serializing {
        return Some(NoBuilder);
      }
      error := Serialize(ctx, name, datatype_, dims, data);
    }

    method Serialize(ctx: Context, name: Name, datatype_: int, dims: seq<int>, data: seq<byte>)
      returns (error: Option<Error>)
      requires serializing && Valid() && (ctx.Arraystruct? ==> vectorStarts != [] && curAosIndex != [])
      requires WellSized(datatype_, dims, data) && |WWriteData(W(), ctx, name, datatype_, dims, data).st.b.buf| < TWO64
      modifies this, builder
      ensures Valid() && serializing == old(serializing) && builder == old(builder)
      ensures W() == WWriteData(old(W()), ctx, name, datatype_, dims, data).st
      ensures error == if CHAR_DATA <= datatype_ <= COMPLEX_DATA then None else Some(UnsupportedDatatype)
    {
      hide B.EndVector, AdvanceTo, Shapes.Product, Flat, B.ScalarChunks, WidthI, WidthU, ToLE, Padding, RCheckAosIndex,
        Decodable;
      Int64FromInt32(datatype_);
      CheckAosIndex(ctx);
      builder.Key(name);
      builder.Int(datatype_);
      builder.ScalarVector(2, dims);
      if !(CHAR_DATA <= datatype_ <= COMPLEX_DATA) {
        return Some(UnsupportedDatatype);
      }
      builder.Blob(data);
      return None;
    }

    /** Writing "<buffer>" stores a serialized IDS, protocol byte included. */
    method WriteBuffer(data: seq<byte>) returns (error: Option<Error>)
      requires Valid() && (!serializing ==> curVector == []) && data != []
      modifies this`buffer
      ensures Valid() && W() == old(W())
      ensures error ==
        if vectorStarts != [] then Some(IncompleteVectors)
        else if data[0] != FLEXBUFFERS_SERIALIZER_PROTOCOL then Some(UnknownProtocol) else None
      ensures R() == if error.None? then old(R()).(buf := data) else old(R())
    {
      if vectorStarts != [] {
        return Some(IncompleteVectors);
      }
      if data[0] != FLEXBUFFERS_SERIALIZER_PROTOCOL {
        return Some(UnknownProtocol);
      }
      buffer := data;
      return None;
    }

    method ReadData(ctx: Context, name: Name) returns (found: Option<FieldValue>, error: Option<Error>)
      requires Valid()
      requires !serializing ==>
        curVector != [] && elementMap != [] && (ctx.Arraystruct? ==> InArray(R()) && 0 <= ctx.index)
      modifies this, builder
      ensures Valid() && serializing == old(serializing) && builder == old(builder)
      ensures !serializing ==> error.None? && (R(), found) == RReadData(old(R()), ctx, name)
      ensures serializing ==> found.None? && error == Some(IsSerializing) && W() == old(W()) && R() == old(R())
    {
      if serializing {
        return None, Some(IsSerializing);
      }
      CheckAosIndex(ctx);
      if name !in Top(elementMap) {
        return None, None;
      }
      var value := ReadItems(Top(curVector), Top(elementMap)[name]);
      return Some(value), None;
    }

    method ReadItems(v: Sized, i: nat) returns (value: FieldValue)
      requires Decodable(buffer, v)
      ensures value == ReadField(buffer, v, i)
    {
      hide Decodable, Element, AsInt64, AsInt32, SizesAt, TypedElementReadable;
      DecodableElement(buffer, v, i + 1);
      DecodableElement(buffer, v, i + 2);
      DecodableElement(buffer, v, i + 3);
      var dims := ReadSizes(AsTypedVector(buffer, Element(buffer, v, i + 2)));
      var blob := AsBlob(buffer, Element(buffer, v, i + 3));
      value := FieldValue(AsInt32(AsInt64(buffer, Element(buffer, v, i + 1))), dims,
                          buffer[blob.data..blob.data + blob.size]);
    }

    method ReadSizes(sizes: Sized) returns (dims: seq<int>)
      requires forall j: nat | j < sizes.size :: TypedElementReadable(buffer, sizes, j)
      ensures dims == SizesAt(buffer, sizes, sizes.size)
    {
      dims := [];
      for j := 0 to sizes.size
        invariant dims == SizesAt(buffer, sizes, j)
      {
        assert TypedElementReadable(buffer, sizes, j);
        dims := dims + [AsInt32(AsInt64(buffer, TypedElement(sizes, j)))];
      }
    }

    /** Reading "<buffer>" finishes the Builder and puts the protocol byte in front. */
    method ReadBuffer() returns (data: seq<byte>, error: Option<Error>)
      requires Valid() && (serializing ==> |builder.stack| == 1 && |B.Finish(builder.State())| < TWO64)
      modifies builder
      ensures serializing ==> error.None? && data == TransferBuffer(old(W()))
      ensures !serializing ==> error == Some(NoBuilder) && W() == old(W())
    {
      if !serializing {
        return [], Some(NoBuilder);
      }
      builder.Finish();
      return [FLEXBUFFERS_SERIALIZER_PROTOCOL] + builder.buf, None;
    }
  }

  lemma {:induction false} CloseGrows(st: WState)
    requires StartsOk(st) && st.starts != []
    ensures st.b.buf <= CloseVector(st).b.buf
  {
  }

  lemma {:induction false} AdvanceGrows(st: WState, index: int)
    requires StartsOk(st) && st.starts != [] && st.aosIndex != [] && Top(st.aosIndex) < index
    ensures CloseVector(st).b.buf <= AdvanceTo(st, index).b.buf
    decreases index - Top(st.aosIndex)
  {
    var next := OpenVector(CloseVector(st)).(aosIndex := Pop(st.aosIndex) + [Top(st.aosIndex) + 1]);
    if Top(next.aosIndex) < index {
      AdvanceGrows(next, index);
      CloseGrows(next);
    }
  }
}
