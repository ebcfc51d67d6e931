# Verification of the access layer's storage formats and algorithms

This project models, in Dafny, the parts of the IMAS access layer where data changes form:
the FlexBuffers wire format, the serializer backend built on it, time lookup and resampling, the slice
storage of the memory and HDF5 backends, and two smaller algorithms (strided tensor views and the
ordering of generated structures). It proves that these transformations keep the data: what is written is
what is read, fast forms agree with simple ones, and appended data never disturbs stored data. Where the
code does not meet such a property on every input, the exact condition is proved instead.

## How it is organised

Each part has a model on values, the properties proved of it, and, where the source is an object or a loop
that changes state, a class or method proved to do what the model says.

| part | model and properties | methods and classes |
|---|---|---|
| FlexBuffers | `Scalars`, `Wire` (reading), `BuilderModel` (writing), `RoundTrip`, `VerifierModel`, `VerifierAccepts`, `VerifierSound` | `FlexBuilder` in Builder.dfy, `FlexVerifier` in Verifier.dfy |
| Serializer backend | `SerializerModel`, `WriteSession`, `ReadSession`, `Discipline` | `Backend` |
| Time lookup, resampling | `TimeSearch`, `Resampling` | in the same modules |
| Memory backend | `MemoryData`, `SliceAgreement` | `MemoryData.ALData`, `MemoryStruct` |
| HDF5 backend | `Shapes`, `Hdf5Dataset`, `Hdf5Flush`, `Hdf5Append`, `ChunkSizing` | `Hdf5Handler`, `ChunkSizing` |
| Tensor views | `TensorView` | in the same module |
| Generated structures | `TopologicalSort` | in the same module |

- A FlexBuffers value is an `Item` (signed integer, key, blob, vector of integers, vector of items).
  `Wire.Reads` is an independent definition of what the accessors of `Reference` and `Vector` see in a buffer;
  `BuilderModel` says which bytes the Builder writes. Neither refers to the other.
- The serializer is a stack machine. `WriteSession` drives it over a whole IDS tree and shows which `Item` it
  builds; `ReadSession` answers any list of queries, with array indices visited in any order, from the bytes.
- `VerifierSound.Safe` says when a walk from a reference stays inside a buffer of any bytes; it does not mention the
  verifier, whose acceptance is proved to be the same up to a bound on the number of vectors.
- An HDF5 dataset is a function from index vectors to values together with its extents. Flat positions are
  row-major.
- Times and interpolated values are exact reals; the constants of the source (1e-9 in the step count, the
  machine epsilon in the choice of the previous slice) are kept.

## What the code does not do on every input

Each entry names the theorem with the exact condition, for all inputs, and a lemma or method with an input on which
the property fails.

- The verifier does not look for the terminator of a key. `VerifierSound.VerifyKeyExact`: a key is accepted exactly
  when some byte from its start on is not zero. `VerifierSound.ReachedKeyReadsInside`: a key in an accepted buffer is
  read inside it exactly when a zero byte follows its start. Input: `VerifierSound.UnterminatedKeyAccepted`.
- `TimeSearch.ClosestExact`: with a time vector that ends in invalid samples, CLOSEST returns an invalid one exactly for
  a time after the last valid sample when at least two trail. Input: `TimeSearch.ClosestExample`.
- `TimeSearch.PreviousExact`: with more than one sample, PREVIOUS finds the last valid one not after the time exactly
  when there are two valid ones, the time is not after them if invalid ones follow, and it is not just before a
  sample by less than the machine epsilon. With one valid sample followed by invalid ones it fails for
  every time that is not below the invalid value by the machine epsilon. Inputs: `TimeSearch.PreviousExample`, `TimeSearch.JustBeforeExample`.
- `TimeSearch.SelectionMonotone`: a later time selects an earlier slice exactly in the default mode with one valid sample
  followed by invalid ones, between times on the two sides of the middle of sample and invalid value. Input:
  `TimeSearch.SelectionExample`.
- `TimeSearch.PlainWindowExact`: without a step the range is negative exactly when the start is at most the last sample, the
  end at least the first, and a sample lies strictly between the end and the later start. Input: `TimeSearch.BackwardsExample`.
- `Resampling.WindowSuffices`: the reported window holds every slice that is read exactly when no requested time reaches
  a sample that the end of the range does not reach and, for LINEAR, there are two samples or nothing is requested. The
  1e-9 in the step count can add a point that goes too far; with one sample LINEAR reads a second slice. Inputs:
  `Resampling.OvershootLeavesWindow`, `Resampling.OneSampleExample`. `Resampling.OrderedRequestsEndInRange` names
  requests that never go too far.
- `SliceAgreement.PreviousAgrees`: memory backend and interpolation component pick different slices for PREVIOUS exactly
  for a time just before a sample. Input: `SliceAgreement.DisagreementExample`.
- `WriteSession.WrittenSizeExact`: an array is read back with its size exactly when it has at most one element or
  its last element has a field; untouched elements at the end are not written. Fields are read back either way.
  Input: `WriteSession.WrittenSizeExample`.
- `MemoryData.AppendKeepsConsistency`: appending a slice to a field that was stored without a time base leaves its
  shape and its buffers out of step unless its last dimension was 1. Input: `MemoryData.CorruptedExample`.
- `Hdf5Append.FirstSlabFits`: the first slab of a put_slice is inside the new extents exactly when the announced
  extension covers it. A dataset created (not opened) during a put_slice announces 0, so its first slab of an
  array with time as an axis is outside; a field below the dynamic structure array announces 1, so the first
  element written must be the first new one. Inputs: `Hdf5Append.CreatedInSliceExample`,
  `Hdf5Append.SecondSliceFirstExample`.
- `ChunkSizing.ChunkDims`: the division by the structure volume fails exactly when a structure extent is 0 and the lower
  target is at least one value; otherwise a chunk side is 0 exactly when an array extent is 0 and the structure axes alone
  exceed the lower target. Inputs: `ChunkSizing.EmptyStructureExample`, `ChunkSizing.ZeroSideExample`.

## Model

| member | source | states |
|---|---|---|
| Scalars.FromToLE | src/flatbuffers/flexbuffers.h:1437-1441 | the bytes Write puts down, read back, are the number modulo 256 to the width |
| Scalars.SignedRoundTrip | src/flatbuffers/flexbuffers.h:138-152 | a signed number that fits a width is recovered from its bytes by sign extension |
| Scalars.WidthU | src/flatbuffers/flexbuffers.h:188-198 | the width fits the number, and the next smaller width does not |
| Scalars.WidthI | src/flatbuffers/flexbuffers.h:200-203 | the width fits the signed number, and is the least that does |
| Wire.ReadsUnique | src/flatbuffers/flexbuffers.h:449-470 | a reference reads as at most one tree, so decoding is a function of the bytes |
| Wire.CStringOf | src/flatbuffers/flexbuffers.h:537-543 | reading a key up to its first zero byte gives the NUL-free string that was stored |
| Wire.ReadsFrame | src/flatbuffers/flexbuffers.h:180-182 | a value inside a buffer reads the same wherever the buffer lies in a larger one |
| Wire.RootIgnoresPrefix | src/flatbuffers/flexbuffers.h:925-937 | bytes put in front of a buffer do not change what its root decodes to |
| BuilderModel.ElemWidth | src/flatbuffers/flexbuffers.h:1520-1547 | for any stack offset the search finds a width the offset fits, 8 bytes included below 2 to the 64, and no smaller width fits |
| BuilderModel.OffsetFitsWider | src/flatbuffers/flexbuffers.h:1601-1646 | an offset that fits at one width still fits at every larger one although padding and positions grow |
| FlexBuilder.ElemWidth | src/flatbuffers/flexbuffers.h:1520-1547 | the search loop returns the model's width; its last statement is never reached |
| FlexBuilder.VectorElementFits | src/flatbuffers/flexbuffers.h:1453-1457 | at the width CreateVector settles on, no element's offset makes the assertion of WriteOffset fail |
| FlexBuilder.RootFits | src/flatbuffers/flexbuffers.h:1398-1407 | the offset of the root value fits the width Finish uses |
| FlexBuilder.Builder.Int | src/flatbuffers/flexbuffers.h:1008-1008 | pushes a signed integer with the least width that holds it |
| FlexBuilder.Builder.Key | src/flatbuffers/flexbuffers.h:1068-1084 | appends the characters and a zero byte and pushes a key at their start |
| FlexBuilder.Builder.Blob | src/flatbuffers/flexbuffers.h:1570-1578 | aligns, writes the length and the bytes, and pushes a blob at their start |
| FlexBuilder.Builder.ScalarVector | src/flatbuffers/flexbuffers.h:1580-1599 | writes a typed vector of integers of one width |
| FlexBuilder.Builder.MeasureWidth | src/flatbuffers/flexbuffers.h:1606-1620 | the loop computes the largest width any element or the length needs |
| FlexBuilder.Builder.WriteElements | src/flatbuffers/flexbuffers.h:1641-1645 | the loop appends every element at its own position and never overflows an offset |
| FlexBuilder.Builder.CreateVector | src/flatbuffers/flexbuffers.h:1601-1657 | the buffer and the value are those of the model: padding, length, elements, type bytes |
| FlexBuilder.Builder.EndVector | src/flatbuffers/flexbuffers.h:1161-1167 | replaces the values above start by one vector value |
| FlexBuilder.Builder.Finish | src/flatbuffers/flexbuffers.h:1398-1414 | with one value on the stack, the buffer becomes the finished buffer of the model |
| RoundTrip.VectorDenotes | src/flatbuffers/flexbuffers.h:1601-1657 | if the stack values denote some items, the vector made of them denotes the vector of those items |
| RoundTrip.PushDenotes | src/flatbuffers/flexbuffers.h:1161-1167 | building any tree bottom-up leaves a stack value that denotes the tree |
| RoundTrip.FinishReads | src/flatbuffers/flexbuffers.h:1398-1414 | finishing a stack value that denotes a tree gives a buffer whose root reads as the tree |
| RoundTrip.SerializeRoundTrip | src/flatbuffers/flexbuffers.h:925-933 | for every encodable tree, and any bytes in front, the finished buffer decodes to exactly that tree |
| RoundTrip.IntBytes | src/flatbuffers/flexbuffers.h:1398-1414 | the exact bytes of a finished integer |
| RoundTrip.KeyBytes | src/flatbuffers/flexbuffers.h:1068-1084 | the exact bytes of a finished key |
| RoundTrip.BlobBytes | src/flatbuffers/flexbuffers.h:1570-1578 | the exact bytes of a finished blob |
| RoundTrip.IntVecBytes | src/flatbuffers/flexbuffers.h:1580-1599 | the exact bytes of a finished typed vector, low byte first |
| RoundTrip.VectorBytes | src/flatbuffers/flexbuffers.h:1601-1657 | the exact bytes of a finished vector of an integer and a key |
| VerifierAccepts.RefVerified | src/flatbuffers/flexbuffers.h:1851-1901 | a reference to a well-formed tree is accepted iff its nesting fits what is left of the depth, counting its vectors |
| VerifierAccepts.FinishedBufferVerified | src/flatbuffers/flexbuffers.h:1904-1911 | every finished buffer is accepted iff vectors and blobs are nested at most maxDepth deep |
| VerifierSound.AcceptedIsSafe | src/flatbuffers/flexbuffers.h:1904-1911 | for arbitrary bytes: once accepted, every object and element reached from the root lies inside the buffer, aligned, at most maxDepth vectors deep |
| VerifierSound.RefSound | src/flatbuffers/flexbuffers.h:1851-1901 | an accepted reference of any type is safe down to the remaining depth |
| VerifierSound.VerifyBufferExact | src/flatbuffers/flexbuffers.h:1904-1911 | for arbitrary bytes: accepted iff the trailer can be read, the root is safe and it holds no more vectors than there are bytes |
| VerifierSound.RefComplete | src/flatbuffers/flexbuffers.h:1851-1901 | a safe reference of any type is accepted, with its vectors counted, iff there is room for them |
| VerifierSound.AccessorsStayInside | src/flatbuffers/flexbuffers.h:449-470 | what the accessors of a safe vector, map, blob or integer vector read lies inside the buffer, and its elements are safe again |
| VerifierSound.VerifyKeyExact | src/flatbuffers/flexbuffers.h:1837-1842 | a key is accepted iff some byte from its start on is not zero |
| VerifierSound.ReachedKeyReadsInside | src/flatbuffers/flexbuffers.h:537-543 | a key reached in an accepted buffer ends inside it iff a zero byte follows its start |
| VerifierSound.UnterminatedKeyAccepted | src/flatbuffers/flexbuffers.h:1837-1842 | four bytes that are accepted and hold a key without a terminator |
| FlexVerifier.Verifier.VerifyBuffer | src/flatbuffers/flexbuffers.h:1904-1911 | on any bytes the object accepts exactly what the model accepts, never reading outside the buffer, and an accepted buffer is safe to walk |
| FlexVerifier.Verifier.VerifyVector | src/flatbuffers/flexbuffers.h:1785-1821 | depth and vector counters move as in the model; element access stays inside the buffer |
| FlexVerifier.Verifier.VerifyRef | src/flatbuffers/flexbuffers.h:1851-1901 | the dispatch over types agrees with the model on arbitrary bytes |
| WriteSession.WrittenSizeExact | src/flexbuffers_backend.cpp:422-430 | the number of elements written is the size given iff the last element has a field or there is at most one element |
| WriteSession.WrittenSizeExample | src/flexbuffers_backend.cpp:422-430 | an array of two that is written as one |
| SerializerModel.DocumentedSizes | src/flexbuffers_backend.cpp:78-125 | the sizes in the example of the format: 3 doubles are 24 bytes, 29 characters 29, an integer 4 |
| WriteSession.FieldsWritten | src/flexbuffers_backend.cpp:270-330 | writing the fields of a structure adds exactly their encoding to the innermost open vector |
| WriteSession.ArrayWritten | src/flexbuffers_backend.cpp:184-206 | a nested begin, write, end sequence leaves the array's name and one vector of encoded elements |
| WriteSession.PutIdsBuilds | src/flexbuffers_backend.cpp:154-164 | a whole put leaves one value on the stack that encodes the tree, no open vector and no open context |
| ReadSession.FieldsIndexed | src/flexbuffers_backend.cpp:410-420 | in the map of a structure every stored name, and no other, leads to the encoding of its field |
| ReadSession.DataAnswered | src/flexbuffers_backend.cpp:360-384 | reading a name returns the stored type, sizes and bytes, or nothing if it was not stored |
| ReadSession.QueryAnswered | src/flexbuffers_backend.cpp:207-220 | any query on a structure, nested ones included, is answered from the tree and leaves the stacks as they were |
| ReadSession.PutThenGet | src/flexbuffers_backend.cpp:332-385 | put of any storable tree, transfer of the buffer, get: every proper query, visits to any index in any order, returns what the tree holds and the size written |
| Discipline.WApplyInStep | src/flexbuffers_backend.cpp:401-408 | every legal call while serializing keeps 1 + 2k open vectors for k open non-empty arrays |
| Discipline.OperationLeavesOneValue | src/flexbuffers_backend.cpp:258-262 | after any legal calls, once the arrays are ended, ending the operation leaves exactly one value for Finish |
| Discipline.RApplyInStep | src/flexbuffers_backend.cpp:422-442 | every legal call while reading keeps 1 + k maps and 1 + 2k vectors |
| Backend.FlexbuffersBackend.BeginAction | src/flexbuffers_backend.cpp:154-182 | moves the stacks as the model, and refuses slice mode and a foreign byte order, each with its own error |
| Backend.FlexbuffersBackend.BeginArraystructAction | src/flexbuffers_backend.cpp:184-221 | opens an array in both directions as the model; an absent or empty one is marked by index -1 |
| Backend.FlexbuffersBackend.EndAction | src/flexbuffers_backend.cpp:223-268 | closes what the matching begin opened, and refuses the wrong context without a change |
| Backend.FlexbuffersBackend.WriteData | src/flexbuffers_backend.cpp:295-330 | adds name, type, sizes and bytes; an unknown type, and any write while reading, is refused |
| Backend.FlexbuffersBackend.ReadData | src/flexbuffers_backend.cpp:357-385 | returns what the model reads at the field's position; refused while serializing |
| Backend.FlexbuffersBackend.CheckAosIndex | src/flexbuffers_backend.cpp:422-442 | moves the innermost array to the context's index, writing skipped elements as empty ones |
| Backend.FlexbuffersBackend.WriteBuffer | src/flexbuffers_backend.cpp:279-293 | stores a transferred buffer in either mode iff no vector is open and its first byte is the protocol number |
| Backend.FlexbuffersBackend.ReadBuffer | src/flexbuffers_backend.cpp:341-356 | returns the protocol byte followed by the finished buffer; refused while reading |
| TimeSearch.IncreasingPrefixSize | src/data_interpolation.cpp:21-27 | drops exactly the trailing samples that are not valid times |
| TimeSearch.LowerBound | src/data_interpolation.cpp:142-146 | binary search returns the first valid sample not below the time |
| TimeSearch.UpperBound | src/data_interpolation.cpp:59-64 | binary search returns the first valid sample above the time |
| TimeSearch.GetSlicesTimesIndices | src/data_interpolation.cpp:115-208 | returns the selected slice and its neighbours, and the two errors |
| TimeSearch.ClosestExact | src/data_interpolation.cpp:144-190 | CLOSEST minimises the distance over the valid samples, except exactly after them with two or more trailing invalid ones |
| TimeSearch.ClosestExample | src/data_interpolation.cpp:144-190 | a time vector on which CLOSEST returns an invalid sample |
| TimeSearch.PreviousExact | src/data_interpolation.cpp:144-199 | for every time PREVIOUS is the last valid sample not after it iff there is one sample in all, or two valid ones, the time not after them if invalid ones follow, and not just before a sample; one valid sample among invalid ones adds only times below the invalid value |
| TimeSearch.PreviousExample | src/data_interpolation.cpp:144-199 | PREVIOUS at the only valid sample returns the invalid one behind it |
| TimeSearch.JustBeforeExample | src/data_interpolation.cpp:144-199 | PREVIOUS just before a sample returns that sample |
| TimeSearch.LinearBrackets | src/data_interpolation.cpp:144-205 | LINEAR selects two adjacent samples that bracket any time in range |
| TimeSearch.SelectionMonotone | src/data_interpolation.cpp:115-208 | for every time vector and mode a later time never selects an earlier slice, with one exact exception in the default mode |
| TimeSearch.SelectionExample | src/data_interpolation.cpp:115-208 | two times in order that select slices out of order |
| TimeSearch.SelectedReaches | src/data_interpolation.cpp:115-208 | a slice or a later one is selected iff the time reaches it, a condition on the samples alone |
| TimeSearch.GetTimeRangeIndices | src/data_interpolation.cpp:35-113 | returns the window and the number of points of the model, and the errors; for a step the points are exactly those not after the end but for a billionth of a step |
| TimeSearch.StepCountExact | src/data_interpolation.cpp:94-104 | the number of points is the one n for which the last point is not after the end, but for a billionth of a step, and the next one is |
| TimeSearch.PlainWindowExact | src/data_interpolation.cpp:39-72 | without a step the window holds exactly the valid samples in the range; the range is negative iff both ends are among the samples and one lies strictly between the end and a later start |
| TimeSearch.BackwardsExample | src/data_interpolation.cpp:39-72 | a range of -1 |
| Resampling.WindowSuffices | src/data_interpolation.cpp:73-112 | every slice the loop reads lies in the reported window iff no requested time reaches a sample that the end of the range does not, and LINEAR has two samples or nothing to do |
| Resampling.NoFurtherSelected | src/data_interpolation.cpp:115-208 | one time selects a later slice than another iff it reaches a sample the other does not |
| Resampling.OrderedRequestsEndInRange | src/data_interpolation.cpp:73-112 | a non-decreasing time list, or a step whose last point is not after the end, meets that condition |
| Resampling.OvershootLeavesWindow | src/data_interpolation.cpp:73-112 | an input for which the window misses a slice that is read |
| Resampling.OneSampleExample | src/data_interpolation.cpp:515-544 | LINEAR on one sample reads a slice the window does not hold |
| Resampling.Interpolate | src/data_interpolation.cpp:210-343 | the slice buffer is overwritten in place by the interpolated row; between two samples every number is on the line through them, for integers the nearest integer |
| Resampling.LinearOnLine | src/data_interpolation.cpp:258-315 | for any time in range every number of the row is on the line between its two samples, for integers the nearest integer to it, ties away from zero |
| Resampling.RoundNearest | src/data_interpolation.cpp:290-290 | rounding gives the nearest integer, of two the one further from zero |
| Resampling.RoundingExample | src/data_interpolation.cpp:290-290 | integers 0 and 3 at nine tenths of the way give 3 |
| Resampling.InterpolateWithResampling | src/data_interpolation.cpp:405-713 | from the window alone, row i is the interpolation of all stored data at the i-th requested time, for exactly the points the step makes; errors as the code |
| Resampling.RowCountExact | src/data_interpolation.cpp:94-104 | for a step the rows are as many as the points, none if that number is negative |
| Resampling.LinearAtSample | src/data_interpolation.cpp:258-315 | LINEAR at a sample returns the stored row, for real and for integer data |
| Resampling.LinearClamps | src/data_interpolation.cpp:258-315 | outside the range LINEAR returns the first or the last row, for real and for integer data |
| Resampling.LinearBetween | src/data_interpolation.cpp:258-315 | in range every number lies between its two neighbours, after rounding too |
| Resampling.ResampleTimebasis | src/data_interpolation.cpp:345-393 | fills the requested times, exactly as many as the step makes, or the one time a structure index asks for |
| Resampling.TimebasisMatchesRows | src/data_interpolation.cpp:345-393 | the time basis has as many entries as the resampled data has rows |
| MemoryData.WriteThenRead | src/memory_backend.cpp:1217-1270 | storing keeps one buffer per last index and reading gives back type, shape and bytes, with the one exception of no slices |
| MemoryData.AppendIsWrite | src/memory_backend.cpp:1299-1322 | appending a slice to a stored field is storing the longer field |
| MemoryData.AppendsAreOneWrite | src/memory_backend.cpp:1299-1322 | any run of appends is one write of the concatenation along the last axis |
| MemoryData.FreshAppends | src/memory_backend.cpp:1299-1322 | slices appended to a field nothing was stored in are held in order, but a read does not return them |
| MemoryData.AppendKeepsConsistency | src/memory_backend.cpp:1299-1322 | an append keeps buffers and shape in step iff the field is timed or its last dimension is 1 |
| MemoryData.CorruptedExample | src/memory_backend.cpp:1299-1322 | an untimed field of two values that one append corrupts |
| MemoryData.ALData.WriteData | src/memory_backend.cpp:1217-1270 | cuts the bytes into slices along the last dimension when there is a time base |
| MemoryData.ALData.AddSlice | src/memory_backend.cpp:1299-1322 | grows the last dimension by one and adds one buffer; the first slice sets type and shape |
| MemoryData.ALData.AddSlices | src/memory_backend.cpp:119-143 | data of n slices in slice mode is n appends of its consecutive pieces |
| MemoryData.ALData.ReadData | src/memory_backend.cpp:1355-1385 | joins the buffers in order; nothing for a field that is not mapped |
| MemoryData.ALData.ReadSlice | src/memory_backend.cpp:1386-1411 | copies one slice out of its buffer as the model: see SliceAfterWrite and SliceAfterAppends for which bytes these are |
| MemoryData.SliceAfterWrite | src/memory_backend.cpp:1386-1411 | after a write slice i is the i-th stretch of the bytes, past the end the last one, and an empty field has none |
| MemoryData.SliceAfterAppends | src/memory_backend.cpp:1386-1411 | after any run of appends the written slices keep their places and the appended ones follow in order |
| MemoryData.SliceOfUntimed | src/memory_backend.cpp:1386-1411 | a field stored without a time base answers every index with its first slice |
| SliceAgreement.FindSlices | src/memory_backend.cpp:983-1007 | the linear search returns the slices around the time, equal at and beyond the ends |
| SliceAgreement.ClosestAgrees | src/memory_backend.cpp:1412-1496 | memory backend and interpolation component pick the same slice for CLOSEST at every time |
| SliceAgreement.PreviousAgrees | src/memory_backend.cpp:1412-1496 | for PREVIOUS they agree iff the time is not just before a sample by less than the machine epsilon |
| SliceAgreement.DisagreementExample | src/memory_backend.cpp:1412-1496 | a time for which they differ |
| SliceAgreement.LinearAgrees | src/memory_backend.cpp:1412-1496 | for LINEAR on doubles they return the same row at every time, clamping included |
| MemoryStruct.ALAoS.AddSlice | src/memory_backend.cpp:8-24 | appends deep copies to an array with a time base, or to an empty one; stored elements are the same objects with the same values |
| MemoryStruct.ALAoS.Clone | src/memory_backend.cpp:1498-1505 | a copy of equal value that shares no object with the original |
| MemoryStruct.ALStruct.Clone | src/memory_backend.cpp:1540-1552 | a copy of equal value that shares no object with the original |
| MemoryStruct.SampleSelected | src/memory_backend.cpp:983-1007 | the time of a sample selects that sample, in PREVIOUS and CLOSEST mode |
| MemoryStruct.SampleRead | src/memory_backend.cpp:1412-1446 | after any run of appends to a field, reading it at the time of a sample returns the slice stored for that sample |
| MemoryStruct.TimesAppend | src/memory_backend.cpp:922-928 | appending elements appends the times they hold in their time field |
| MemoryStruct.TimeWritten | src/memory_backend.cpp:1192-1200 | the time of an element is the scalar stored in its time field |
| MemoryStruct.TimebaseVect | src/memory_backend.cpp:922-928 | the loop collects the time of every element; a time that is not a double is refused |
| MemoryStruct.PrepareSlice | src/memory_backend.cpp:679-723 | the prepared array holds one fresh copy of the element selected by the times the elements hold; empty for an empty array |
| MemoryStruct.AppendAll | src/memory_backend.cpp:519-546 | over any run of appends stored elements keep identity and value, and the new ones follow in order |
| MemoryStruct.AppendThenGet | src/memory_backend.cpp:679-723 | after any run of appends, asking for the time the k-th element holds returns a copy of the k-th element |
| Shapes.IndicesToFlatIndex | src/hdf5/hdf5_utils.cpp:767-773 | the loop computes the row-major position |
| Shapes.FlatInRange | src/hdf5/hdf5_utils.cpp:767-773 | positions of index vectors inside the extents are below the volume |
| Shapes.UnflatOfFlat | src/hdf5/hdf5_utils.cpp:767-773 | a position determines its index vector |
| Shapes.FlatOfUnflat | src/hdf5/hdf5_utils.cpp:767-773 | every position below the volume is the position of an index vector inside the extents |
| Hdf5Dataset.ReadAfterWrite | src/hdf5/hdf5_dataset_handler.cpp:1001-1011 | reading a hyperslab gives back what was last written to it |
| Hdf5Dataset.ReadElsewhere | src/hdf5/hdf5_dataset_handler.cpp:1001-1011 | a write to a disjoint hyperslab does not change what is read |
| Hdf5Flush.StretchIsSlab | src/hdf5/hdf5_dataset_handler.cpp:824-847 | the consecutive cells the flush fills at the final extents are the hyperslab of the request at its own extents |
| Hdf5Flush.FlushIsOneByOne | src/hdf5/hdf5_dataset_handler.cpp:756-912 | merging queued scalar and vector writes leaves the dataset that writing them one by one leaves, however it grew in between |
| Hdf5Flush.MaxIsLeast | src/hdf5/hdf5_dataset_handler.cpp:617-631 | raising extents to a request gives the least extents that cover both |
| Hdf5Flush.GrowthIsLeast | src/hdf5/hdf5_dataset_handler.cpp:610-643 | any run of writes leaves the least extents that hold what was stored and what was asked for |
| Hdf5Flush.CacheIsSlab | src/hdf5/hdf5_dataset_handler.cpp:1062-1121 | reading an element from the whole-dataset cache is reading its hyperslab |
| Hdf5Append.GlobalSlab | src/hdf5/hdf5_hs_selection_writer.cpp:32-65 | outside slice mode the writer's selection is one element of every structure array and the array from 0 |
| Hdf5Append.FirstSlabFits | src/hdf5/hdf5_dataset_handler.cpp:529-588 | the first slab of a put_slice is inside the new extents iff the announced extension covers it; where it lies on the time axis and how long it is |
| Hdf5Append.CreatedInSliceExample | src/hdf5/hdf5_dataset_handler.cpp:529-588 | a dataset created by the put_slice whose first slab is outside |
| Hdf5Append.SecondSliceFirstExample | src/hdf5/hdf5_dataset_handler.cpp:529-588 | a first write to the second of one announced slices, which is outside |
| Hdf5Append.FirstAppends | src/hdf5/hdf5_dataset_handler.cpp:571-588 | the first write grows the time axis by the extension and selects right after the stored slices |
| Hdf5Append.NextAppends | src/hdf5/hdf5_dataset_handler.cpp:549-559 | every further write stays inside the extents and after the stored slices |
| Hdf5Append.SlabExact | src/hdf5/hdf5_hs_selection_writer.cpp:32-65 | every write of a put_slice goes to its own element, after the stored slices on the time axis, its array from 0, with the shape of its values |
| Hdf5Append.AppendGrowthIsLeast | src/hdf5/hdf5_dataset_handler.cpp:529-643 | a put_slice leaves the least extents that hold what was stored and what its writes ask for, on every axis |
| Hdf5Append.EarlierCellsKept | src/hdf5/hdf5_dataset_handler.cpp:610-643 | no write of a put_slice touches a cell stored before it |
| Hdf5Append.WritesDisjoint | src/hdf5/hdf5_hs_selection_writer.cpp:32-65 | writes to different elements or different new slices share no cell |
| Hdf5Append.AppendedReadsBack | src/hdf5/hdf5_hs_selection_writer.cpp:32-115 | each appended slab holds its values until its element is written again |
| Hdf5Append.StoredStays | src/hdf5/hdf5_dataset_handler.cpp:523-588 | over any run of put_slices every cell stored at some point keeps its value to the end |
| Hdf5Handler.DataSetHandler.SetCurrentShapes | src/hdf5/hdf5_dataset_handler.cpp:610-643 | takes over the requested shapes axis by axis except the time axis, and raises the largest extents no further than needed |
| Hdf5Handler.DataSetHandler.ExtendDataSpaceForTimeSlices | src/hdf5/hdf5_dataset_handler.cpp:571-588 | makes room on the time axis and grows the dataset, keeping stored cells |
| Hdf5Handler.DataSetHandler.SetTimeAxisOffset | src/hdf5/hdf5_dataset_handler.cpp:529-547 | moves the tracked extents to the new slices as the model |
| Hdf5Handler.DataSetHandler.SetHyperSlabs | src/hdf5/hdf5_hs_selection_writer.cpp:32-65 | the loops fill offset and count of the model's hyperslab |
| Hdf5Handler.DataSetHandler.WriteData | src/hdf5/hdf5_writer.cpp:471-477 | outside slice mode, for arrays of any rank, grows the dataset to the least extents that cover the request and queues or writes it |
| Hdf5Handler.DataSetHandler.WriteFirstSlice | src/hdf5/hdf5_writer.cpp:497-501 | the first write of a put_slice reaches the model's state and writes the model's hyperslab |
| Hdf5Handler.DataSetHandler.WriteNextSlice | src/hdf5/hdf5_writer.cpp:503-509 | every further write reaches the model's state and writes the model's hyperslab |
| Hdf5Handler.DataSetHandler.PutSlices | src/hdf5/hdf5_writer.cpp:479-510 | a whole put_slice on an open dataset leaves the file of which the append theorems speak |
| Hdf5Handler.DataSetHandler.FillFullBuffers | src/hdf5/hdf5_dataset_handler.cpp:794-912 | reads the whole dataset and copies every queued request to its place, in queue order |
| Hdf5Handler.DataSetHandler.WriteBuffers | src/hdf5/hdf5_dataset_handler.cpp:756-792 | after the flush the file holds what one-by-one writing of everything since opening would have left |
| ChunkSizing.Root | src/hdf5/hdf5_dataset_handler.cpp:411-415 | the side chosen on growing back is the largest whose power does not exceed the share |
| ChunkSizing.ShrinkAxes | src/hdf5/hdf5_dataset_handler.cpp:368-380 | a pass divides every side by 2 to the number of axes, keeps it at least 1, and strictly lowers a volume above 1 |
| ChunkSizing.ShrinkStructureAxes | src/hdf5/hdf5_dataset_handler.cpp:366-382 | the first loop stops at the first pass that fits, with a volume of at most vmax and no side longer than before |
| ChunkSizing.ShrinkDataAxes | src/hdf5/hdf5_dataset_handler.cpp:383-405 | the second loop stops at the first pass that fits, with structure sides 1 and a volume of at most vmax |
| ChunkSizing.ChunkDims | src/hdf5/hdf5_dataset_handler.cpp:342-417 | divides by zero iff a structure extent is 0 and the lower target holds a value; otherwise the chunk is fully determined: shrunk until it first fits, grown back to the largest sides that stay within the lower target; volume bound, zero sides and kept extents are exact |
| ChunkSizing.ChosenUnique | src/hdf5/hdf5_dataset_handler.cpp:342-417 | the promise of ChunkDims leaves one chunk for every extents |
| ChunkSizing.SmallGrown | src/hdf5/hdf5_dataset_handler.cpp:409-415 | extents below the lower target keep their structure sides and get the largest equal array sides within it |
| ChunkSizing.ShrunkExact | src/hdf5/hdf5_dataset_handler.cpp:372-376 | a shrunk side is the side divided by the power of two, rounded down, but at least 1 |
| ChunkSizing.GrownExample | src/hdf5/hdf5_dataset_handler.cpp:409-415 | 3 by 3 numbers of 8 bytes get a chunk of 35 by 35 |
| ChunkSizing.EmptyStructureExample | src/hdf5/hdf5_dataset_handler.cpp:407-415 | an empty structure array, on which the division fails |
| ChunkSizing.ZeroSideExample | src/hdf5/hdf5_dataset_handler.cpp:407-415 | extents whose chunk has a side of 0 |
| TensorView.MakeView | include/direct_access_api.h:79-95 | the strides are those of a contiguous row-major block; an unknown type is refused |
| TensorView.ContiguousAddress | include/direct_access_api.h:79-95 | with these strides addresses follow row-major order |
| TensorView.Slice | include/direct_access_api.h:139-183 | the loop builds the model's view or the model's error |
| TensorView.SliceSucceeds | include/direct_access_api.h:139-183 | slicing succeeds iff there are not too many selectors, every index is below its axis and every range is not empty and ends within it |
| TensorView.SliceFails | include/direct_access_api.h:139-183 | too many selectors, or the first selector outside its axis, decides the error |
| TensorView.SelectedExact | include/direct_access_api.h:139-183 | an index fixes its coordinate and drops the axis, a range adds its start and has its length, everything else keeps coordinate and length |
| TensorView.SliceAddress | include/direct_access_api.h:139-183 | an element of a slice is the element of the sliced tensor at the composed index, which exists |
| TensorView.ChainAddress | include/direct_access_api.h:139-183 | the same for any chain of slices |
| TensorView.ViewInBlock | include/direct_access_api.h:79-95 | however a block was sliced, every element of the view lies inside the block |
| TensorView.ElementsDisjoint | include/direct_access_api.h:139-183 | different indices of a view address bytes that do not overlap |
| TopologicalSort.BuildGraph | resources/extract_metadata/generate_structures.py:101-117 | the graph lists the dependents of every structure and the in-degrees count its dependencies, repetitions included |
| TopologicalSort.Process | resources/extract_metadata/generate_structures.py:123-131 | a step lowers the in-degree of the dependents and queues exactly those that wait for nothing more |
| TopologicalSort.StuckIsCircular | resources/extract_metadata/generate_structures.py:133-136 | where every structure of a set waits for another of the set there is a cycle |
| TopologicalSort.OrderedIsAcyclic | resources/extract_metadata/generate_structures.py:133-136 | an order that respects all dependencies rules out cycles |
| TopologicalSort.Sort | resources/extract_metadata/generate_structures.py:99-139 | terminates; warns iff the dependencies are circular; otherwise lists every structure once, after all it depends on |

## Left out

- FlexBuffers: writing of maps, strings, floats, unsigned and indirect scalars, fixed typed vectors, pooling flags,
  in-place mutation, `ToString`, and big-endian hosts; the serializer backend uses none of them. The verifier is
  modelled for all types it reads.
- FlexVerifier.Verifier.VerifyBuffer: the reuse tracker and switching the alignment check off are not modelled, nor
  the assertion on the buffer size in the constructor.
- RoundTrip.SerializeRoundTrip: buffers are taken to be shorter than 2 to the 64 bytes.
- ReadSession.PutThenGet: names are NUL-free and distinct within a structure, a query uses a name for the kind of node it
  is, and an array found to be empty is not visited.
- Serializer backend: `getVersion`, `deleteData`, `get_occurrences`, and the reserved field name other than as
  `WriteBuffer` and `ReadBuffer`.
- Resampling.InterpolateWithResampling: requests that leave the window, and LINEAR on a single sample (`WindowSuffices` is
  the exact condition), are excluded; the source reads past the data it was given. Floating-point rounding is not modelled (exact reals); complex data is a pair
  of reals; character data is not modelled.
- SliceAgreement.LinearAgrees: stated for floating-point data; for integers the memory backend truncates where the
  interpolation component rounds.
- Memory backend: fields merged element by element when the top array has no time base, `prependData` and
  the legacy mapping state it serves, the `addSlice(ALData&)` overload, time bases outside the
  element (absolute or relative paths), linear interpolation of structures, mutexes, reference counts and freeing.
- MemoryStruct.ALAoS.AddSlice: an array with elements and no time base, which is merged element by element, is excluded.
- MemoryStruct.ALStruct.Clone: copied fields of the source share their byte buffers, which are never changed in place;
  values do not show it.
- MemoryStruct.TimebaseVect: an element whose time field holds no value is excluded; the source dereferences it.
- MemoryStruct.PrepareSlice: LINEAR mode, in which the source interpolates two elements, is not modelled.
- MemoryStruct.AppendThenGet: the times the elements hold are strictly increasing doubles; what eight bytes mean as a
  double is a parameter.
- MemoryData.ALData.AddSlice: a field stored without any dimension is excluded; the source writes outside its vector of
  dimensions.
- MemoryData.ALData.ReadSlice: a buffer shorter than one slice (an untimed field with last dimension 0) is excluded; the
  source copies past its end.
- MemoryData.ALData.AddSlices: slices have the shape of the stored ones and at least the time dimension.
- Backend.FlexbuffersBackend.BeginAction: a transferred buffer that does not decode is excluded; the source reads it
  unchecked.
- Backend.FlexbuffersBackend.WriteBuffer: while reading, no vector of the old buffer may still be entered; the source
  would keep references into freed memory. An empty array is excluded, because the source reads its first byte.
- HDF5 library calls, files, groups, links and compression: only the array meaning of datasets and hyperslabs is kept.
  String datasets, companion shape datasets, and the reader's hyperslab selection are not modelled.
- Shapes.IndicesToFlatIndex: the 32-bit `int` that holds the position is taken not to overflow.
- ChunkSizing.ChunkDims: `float` and `pow` are exact (division by a power of two, integer root), and sizes do not
  overflow.
- TensorView: `as<T>()` on a sliced view ignores the offset; only addressing through offset and strides is modelled.
- URI parsing, plugins, the ASCII and UDA backends and version decisions: irregular or one-branch behaviour.
