/** The gRPC client's tensor payloads: typed contents, raw contents and the choice between them. */
module GrpcContents {
  import opened Wrappers
  import opened Powers
  import opened LittleEndian
  import opened Json
  import opened TensorCodec
  import opened BinaryExtension

  /** InferTensorContents without its byte strings. */
  datatype Contents = Contents(bools: seq<bool>, ints: seq<int>, int64s: seq<int>, uints: seq<int>,
                               uint64s: seq<int>, fp32s: seq<F32>, fp64s: seq<F64>)

  const EMPTY: Contents := Contents([], [], [], [], [], [], [])

  /** The datatypes with a typed field: those of the JSON codec without FP16. */
  function GrpcKind(datatype_: string): Option<Kind> {
    if datatype_ == "FP16" then None else KindOf(datatype_)
  }

  // ---- raw bytes to element values and back ----

  /** The element values of the integer kinds. */
  function IntElements(k: Kind, bytes: seq<Byte>): (vs: seq<int>)
    requires KnownKind(k) && |bytes| % ElementSize(k) == 0
    ensures vs == [] <==> bytes == []
    decreases |bytes|
  {
    if bytes == [] then []
    else
      var w := ElementSize(k);
      FirstElement(|bytes|, w);
      var n := FromLE(bytes[..w]);
      [if k.SignedInt? then ToSigned(n, w) else n] + IntElements(k, bytes[w..])
  }

  function Patterns32(bytes: seq<Byte>): (vs: seq<F32>)
    requires |bytes| % 4 == 0
    ensures vs == [] <==> bytes == []
    decreases |bytes|
  {
    if bytes == [] then []
    else
      FirstElement(|bytes|, 4);
      PatternFits(bytes[..4]);
      [FromLE(bytes[..4])] + Patterns32(bytes[4..])
  }

  function Patterns64(bytes: seq<Byte>): (vs: seq<F64>)
    requires |bytes| % 8 == 0
    ensures vs == [] <==> bytes == []
    decreases |bytes|
  {
    if bytes == [] then []
    else
      FirstElement(|bytes|, 8);
      PatternFits(bytes[..8]);
      [FromLE(bytes[..8])] + Patterns64(bytes[8..])
  }

  /** appendBytes: each value cast to w bytes. */
  function PackInts(vs: seq<int>, w: nat): (bs: seq<Byte>) {
    if vs == [] then [] else ToLE(Wrap(vs[0], w), w) + PackInts(vs[1..], w)
  }

  // ---- encodeInput ----

  function Add(c: Contents, k: Kind, bytes: seq<Byte>): Contents
    requires KnownKind(k) && k != HalfFloat && |bytes| % ElementSize(k) == 0
  {
    match k
    case Float => c.(fp32s := c.fp32s + Patterns32(bytes))
    case Double => c.(fp64s := c.fp64s + Patterns64(bytes))
    case SignedInt(w) =>
      if w == 8 then c.(int64s := c.int64s + IntElements(k, bytes)) else c.(ints := c.ints + IntElements(k, bytes))
    case UnsignedInt(w) =>
      if w == 8 then c.(uint64s := c.uint64s + IntElements(k, bytes)) else c.(uints := c.uints + IntElements(k, bytes))
  }

  function Encode(c: Contents, bytes: seq<Byte>, datatype_: string): Result<Contents> {
    match GrpcKind(datatype_)
    case None => Err("unsupported KServe gRPC input datatype (use HTTP transport): " + datatype_)
    case Some(k) =>
      if |bytes| % ElementSize(k) != 0 then Err("KServe gRPC input byte count is not a multiple of the datatype width")
      else Ok(Add(c, k, bytes))
  }

  /** The message a request tensor is filled in. */
  class TensorContents {
    var value: Contents

    constructor ()
      ensures value == EMPTY
    {
      value := EMPTY;
    }

    /** fillContents for the integer fields. */
    method FillInts(k: Kind, bytes: seq<Byte>)
      requires KnownKind(k) && (k.SignedInt? || k.UnsignedInt?) && |bytes| % ElementSize(k) == 0
      modifies this
      ensures value == Add(old(value), k, bytes)
    {
      hide IntElements, FromLE, ToSigned;
      var w := ElementSize(k);
      var count := |bytes| / w;
      var at := 0;
      assert bytes[0..] == bytes;
      ghost var before := value;
      ghost var seen: seq<int> := [];
      for i := 0 to count
        invariant at == i * w && at <= |bytes| && (|bytes| - at) % w == 0
        invariant IntElements(k, bytes) == seen + IntElements(k, bytes[at..])
        invariant value == Extend(before, k, seen)
      {
        MoreLeft(i, count, w, |bytes|);
        IntStep(k, bytes[at..]);
        assert bytes[at..][..w] == bytes[at..at + w];
        assert bytes[at..][w..] == bytes[at + w..];
        var n := FromLE(bytes[at..at + w]);
        var v := if k.SignedInt? then ToSigned(n, w) else n;
        value := Extend(value, k, [v]);
        ExtendTwice(before, k, seen, v);
        seen := seen + [v];
        at := at + w;
      }
      AllRead(count, w, |bytes|);
      assert bytes[at..] == [];
      NoInts(k);
      assert seen + [] == seen;
    }

    method EncodeInput(bytes: seq<Byte>, datatype_: string) returns (r: Result<()>)
      modifies this
      ensures match Encode(old(value), bytes, datatype_)
              case Ok(c) => r.Ok? && value == c
              case Err(e) => r == Err(e) && value == old(value)
    {
      var k := GrpcKind(datatype_);
      if k.None? {
        return Err("unsupported KServe gRPC input datatype (use HTTP transport): " + datatype_);
      }
      KnownGrpcKind(datatype_);
      if |bytes| % ElementSize(k.value) != 0 {
        return Err("KServe gRPC input byte count is not a multiple of the datatype width");
      }
      if k.value.Float? {
        value := value.(fp32s := value.fp32s + Patterns32(bytes));
      } else if k.value.Double? {
        value := value.(fp64s := value.fp64s + Patterns64(bytes));
      } else {
        FillInts(k.value, bytes);
      }
      r := Ok(());
    }
  }

  /** Adds values to the field of an integer kind. */
  function Extend(c: Contents, k: Kind, vs: seq<int>): Contents
    requires k.SignedInt? || k.UnsignedInt?
  {
    match k
    case SignedInt(w) => if w == 8 then c.(int64s := c.int64s + vs) else c.(ints := c.ints + vs)
    case UnsignedInt(w) => if w == 8 then c.(uint64s := c.uint64s + vs) else c.(uints := c.uints + vs)
  }

  lemma {:induction false} ExtendTwice(c: Contents, k: Kind, vs: seq<int>, v: int)
    requires k.SignedInt? || k.UnsignedInt?
    ensures Extend(Extend(c, k, vs), k, [v]) == Extend(c, k, vs + [v])
    ensures Extend(c, k, []) == c
  {
    assert c.ints + vs + [v] == c.ints + (vs + [v]);
    assert c.int64s + vs + [v] == c.int64s + (vs + [v]);
    assert c.uints + vs + [v] == c.uints + (vs + [v]);
    assert c.uint64s + vs + [v] == c.uint64s + (vs + [v]);
    assert c.ints + [] == c.ints && c.int64s + [] == c.int64s && c.uints + [] == c.uints && c.uint64s + [] == c.uint64s;
  }

  lemma {:induction false} KnownGrpcKind(datatype_: string)
    ensures GrpcKind(datatype_).Some? ==> KnownKind(GrpcKind(datatype_).value) && GrpcKind(datatype_).value != HalfFloat
    ensures GrpcKind(datatype_).Some? ==> ElementSize(GrpcKind(datatype_).value) in {1, 2, 4, 8}
  {
  }

  lemma {:induction false} NoInts(k: Kind)
    requires KnownKind(k)
    ensures IntElements(k, []) == []
  {
  }

  lemma {:induction false} IntStep(k: Kind, bytes: seq<Byte>)
    requires KnownKind(k) && |bytes| % ElementSize(k) == 0 && bytes != []
    ensures |bytes| >= ElementSize(k) && (|bytes| - ElementSize(k)) % ElementSize(k) == 0
    ensures IntElements(k, bytes) ==
            [if k.SignedInt? then ToSigned(FromLE(bytes[..ElementSize(k)]), ElementSize(k)) else FromLE(bytes[..ElementSize(k)])] +
            IntElements(k, bytes[ElementSize(k)..])
  {
    hide FromLE, ToSigned;
    FirstElement(|bytes|, ElementSize(k));
  }

  // ---- contentsToBytes ----

  function PackFloats(fs: seq<F32>): (bs: seq<Byte>) {
    if fs == [] then [] else ToLE(fs[0], 4) + PackFloats(fs[1..])
  }

  function PackDoubles(ds: seq<F64>): (bs: seq<Byte>) {
    if ds == [] then [] else ToLE(ds[0], 8) + PackDoubles(ds[1..])
  }

  function NarrowAll(c: Casts, ds: seq<F64>): seq<F32> {
    seq<F32>(|ds|, i requires 0 <= i < |ds| => c.narrow(ds[i]))
  }

  function TruncateAll(c: Casts, ds: seq<F64>): seq<int> {
    seq(|ds|, i requires 0 <= i < |ds| => c.toInt(ds[i]))
  }

  function BoolBytes(bs: seq<bool>): seq<Byte> {
    seq(|bs|, i requires 0 <= i < |bs| => if bs[i] then 1 else 0)
  }

  /** appendBytesOrFp64Fallback: the typed field, or what an old server put in fp64 instead. */
  function IntsOrFallback(c: Casts, field: seq<int>, fp64s: seq<F64>, w: nat): seq<Byte> {
    if |field| > 0 then PackInts(field, w) else PackInts(TruncateAll(c, fp64s), w)
  }

  function ContentsToBytes(c: Casts, t: Contents, datatype_: string): Result<seq<Byte>> {
    if datatype_ == "BOOL" then Ok(BoolBytes(t.bools))
    else
      match GrpcKind(datatype_)
      case None => Err("unsupported KServe gRPC output datatype: " + datatype_)
      case Some(Float) => Ok(if |t.fp32s| > 0 then PackFloats(t.fp32s) else PackFloats(NarrowAll(c, t.fp64s)))
      case Some(Double) => Ok(PackDoubles(t.fp64s))
      case Some(SignedInt(w)) => Ok(IntsOrFallback(c, if w == 8 then t.int64s else t.ints, t.fp64s, w))
      case Some(UnsignedInt(w)) => Ok(IntsOrFallback(c, if w == 8 then t.uint64s else t.uints, t.fp64s, w))
      case Some(HalfFloat) => Err("unsupported KServe gRPC output datatype: " + datatype_)
  }

  /** appendBytes as the loop it is. */
  method AppendBytes(out: seq<Byte>, values: seq<int>, w: nat) returns (grown: seq<Byte>)
    ensures grown == out + PackInts(values, w)
  {
    hide ToLE;
    grown := out;
    assert values[0..] == values;
    for i := 0 to |values|
      invariant out + PackInts(values, w) == grown + PackInts(values[i..], w)
    {
      assert values[i..][1..] == values[i + 1..];
      grown := grown + ToLE(Wrap(values[i], w), w);
    }
  }

  method ReadContents(c: Casts, t: Contents, datatype_: string) returns (r: Result<seq<Byte>>)
    ensures r == ContentsToBytes(c, t, datatype_)
  {
    hide PackInts, PackFloats, PackDoubles, KindOf;
    if datatype_ == "BOOL" {
      return Ok(BoolBytes(t.bools));
    }
    var k := GrpcKind(datatype_);
    if k.None? || k.value.HalfFloat? {
      return Err("unsupported KServe gRPC output datatype: " + datatype_);
    }
    match k.value {
      case Float => r := Ok(if |t.fp32s| > 0 then PackFloats(t.fp32s) else PackFloats(NarrowAll(c, t.fp64s)));
      case Double => r := Ok(PackDoubles(t.fp64s));
      case SignedInt(w) =>
        var field := if w == 8 then t.int64s else t.ints;
        var values := if |field| > 0 then field else TruncateAll(c, t.fp64s);
        var out := AppendBytes([], values, w);
        assert [] + PackInts(values, w) == PackInts(values, w);
        r := Ok(out);
      case UnsignedInt(w) =>
        var field := if w == 8 then t.uint64s else t.uints;
        var values := if |field| > 0 then field else TruncateAll(c, t.fp64s);
        var out := AppendBytes([], values, w);
        assert [] + PackInts(values, w) == PackInts(values, w);
        r := Ok(out);
    }
  }

  /** Each value takes its own w bytes. */
  lemma {:induction false} PackedAt(vs: seq<int>, w: nat, n: nat)
    requires n < |vs|
    ensures |PackInts(vs, w)| == |vs| * w && (n + 1) * w <= |PackInts(vs, w)|
    ensures Group(PackInts(vs, w), w, n) == ToLE(Wrap(vs[n], w), w)
    decreases vs
  {
    hide ToLE, Wrap, Group, PackInts;
    PackedLength(vs, w);
    MulLe(n + 1, |vs|, w);
    PackStep(vs, w);
    var rest := PackInts(vs[1..], w);
    if n == 0 {
      FirstGroup(PackInts(vs, w), w);
    } else {
      PackedAt(vs[1..], w, n - 1);
      NextGroup(PackInts(vs, w), w, n);
    }
  }

  lemma {:induction false} PackStep(vs: seq<int>, w: nat)
    requires vs != []
    ensures |PackInts(vs, w)| >= w
    ensures PackInts(vs, w)[..w] == ToLE(Wrap(vs[0], w), w) && PackInts(vs, w)[w..] == PackInts(vs[1..], w)
  {
    hide ToLE, Wrap;
  }

  lemma {:induction false} PackedLength(vs: seq<int>, w: nat)
    ensures |PackInts(vs, w)| == |vs| * w
  {
    hide ToLE, Wrap;
    if vs != [] {
      PackedLength(vs[1..], w);
      OneMore(|vs| - 1, w);
    }
  }

  /** The integer field of a kind. */
  function FieldOf(t: Contents, k: Kind): seq<int>
    requires k.SignedInt? || k.UnsignedInt?
  {
    match k
    case SignedInt(w) => if w == 8 then t.int64s else t.ints
    case UnsignedInt(w) => if w == 8 then t.uint64s else t.uints
  }

  /** An integer output: the n-th element is the n-th value of its own field cast to the width, whatever
      the fp64 field holds, and the n-th truncated fp64 value only when its own field is empty. */
  lemma {:induction false} ReadsField(c: Casts, t: Contents, datatype_: string, n: nat)
    requires IsInteger(datatype_) && datatype_ != "BOOL"
    ensures GrpcKind(datatype_).Some? && (GrpcKind(datatype_).value.SignedInt? || GrpcKind(datatype_).value.UnsignedInt?)
    ensures ContentsToBytes(c, t, datatype_).Ok?
    ensures var field := FieldOf(t, GrpcKind(datatype_).value);
            var w := DatatypeByteWidth(datatype_);
            var out := ContentsToBytes(c, t, datatype_).value;
            var count := if field != [] then |field| else |t.fp64s|;
            && |out| == count * w
            && (n < count ==>
                  (n + 1) * w <= |out| &&
                  Group(out, w, n) == ToLE(Wrap(if field != [] then field[n] else c.toInt(t.fp64s[n]), w), w))
  {
    IntegerKind(datatype_);
    hide Group, PackInts, ToLE, Wrap, KindOf, DatatypeByteWidth, IsInteger;
    var k := GrpcKind(datatype_).value;
    var w := DatatypeByteWidth(datatype_);
    var values := if FieldOf(t, k) != [] then FieldOf(t, k) else TruncateAll(c, t.fp64s);
    assert ContentsToBytes(c, t, datatype_) == Ok(PackInts(values, w));
    PackedLength(values, w);
    if n < |values| {
      PackedAt(values, w, n);
    }
  }

  /** A BOOL output: one byte a value, 1 for true. */
  lemma {:induction false} ReadsBools(c: Casts, t: Contents, n: nat)
    ensures ContentsToBytes(c, t, "BOOL").Ok? && |ContentsToBytes(c, t, "BOOL").value| == |t.bools|
    ensures n < |t.bools| ==> ContentsToBytes(c, t, "BOOL").value[n] == if t.bools[n] then 1 else 0
  {
  }

  lemma {:induction false} PackedFloatAt(fs: seq<F32>, n: nat)
    requires n < |fs|
    ensures |PackFloats(fs)| == |fs| * 4 && FromLE(Group(PackFloats(fs), 4, n)) == fs[n]
    decreases fs
  {
    hide ToLE, FromLE, Group;
    FloatsLength(fs);
    var first, rest := ToLE(fs[0], 4), PackFloats(fs[1..]);
    assert PackFloats(fs) == first + rest;
    FloatsLength(fs[1..]);
    hide PackFloats;
    assert (first + rest)[..4] == first && (first + rest)[4..] == rest;
    if n == 0 {
      Widths();
      FromToLE(fs[0], 4);
      FirstGroup(first + rest, 4);
    } else {
      PackedFloatAt(fs[1..], n - 1);
      NextGroup(first + rest, 4, n);
    }
  }

  lemma {:induction false} FloatsLength(fs: seq<F32>)
    ensures |PackFloats(fs)| == |fs| * 4
  {
    hide ToLE;
    if fs != [] {
      FloatsLength(fs[1..]);
    }
  }

  lemma {:induction false} PackedDoubleAt(ds: seq<F64>, n: nat)
    requires n < |ds|
    ensures |PackDoubles(ds)| == |ds| * 8 && FromLE(Group(PackDoubles(ds), 8, n)) == ds[n]
    decreases ds
  {
    hide ToLE, FromLE, Group;
    DoublesLength(ds);
    var first, rest := ToLE(ds[0], 8), PackDoubles(ds[1..]);
    assert PackDoubles(ds) == first + rest;
    DoublesLength(ds[1..]);
    hide PackDoubles;
    assert (first + rest)[..8] == first && (first + rest)[8..] == rest;
    if n == 0 {
      Widths();
      FromToLE(ds[0], 8);
      FirstGroup(first + rest, 8);
    } else {
      PackedDoubleAt(ds[1..], n - 1);
      NextGroup(first + rest, 8, n);
    }
  }

  lemma {:induction false} DoublesLength(ds: seq<F64>)
    ensures |PackDoubles(ds)| == |ds| * 8
  {
    hide ToLE;
    if ds != [] {
      DoublesLength(ds[1..]);
    }
  }

  /** An FP32 output: the n-th pattern of its own field, and the n-th fp64 value narrowed only when that field
      is empty; an FP64 output: the n-th fp64 pattern. */
  lemma {:induction false} ReadsFloats(c: Casts, t: Contents, n: nat)
    ensures ContentsToBytes(c, t, "FP32").Ok? && ContentsToBytes(c, t, "FP64").Ok?
    ensures var single, double := ContentsToBytes(c, t, "FP32").value, ContentsToBytes(c, t, "FP64").value;
            var count := if t.fp32s != [] then |t.fp32s| else |t.fp64s|;
            && |single| == count * 4 && |double| == |t.fp64s| * 8
            && (n < count ==>
                  FromLE(Group(single, 4, n)) == if t.fp32s != [] then t.fp32s[n] else c.narrow(t.fp64s[n]))
            && (n < |t.fp64s| ==> FromLE(Group(double, 8, n)) == t.fp64s[n])
  {
    hide Group, PackFloats, PackDoubles, FromLE;
    var fs: seq<F32> := if t.fp32s != [] then t.fp32s else NarrowAll(c, t.fp64s);
    assert ContentsToBytes(c, t, "FP32") == Ok(PackFloats(fs));
    assert ContentsToBytes(c, t, "FP64") == Ok(PackDoubles(t.fp64s));
    FloatsLength(fs);
    DoublesLength(t.fp64s);
    if n < |fs| {
      PackedFloatAt(fs, n);
    }
    if n < |t.fp64s| {
      PackedDoubleAt(t.fp64s, n);
    }
  }

  lemma {:induction false} IntegerKind(datatype_: string)
    requires IsInteger(datatype_)
    ensures var w := DatatypeByteWidth(datatype_);
            GrpcKind(datatype_) == Some(SignedInt(w)) || GrpcKind(datatype_) == Some(UnsignedInt(w))
  {
  }

  // ---- round trip ----

  lemma {:induction false} IntsComeBack(k: Kind, bytes: seq<Byte>)
    requires KnownKind(k) && (k.SignedInt? || k.UnsignedInt?) && |bytes| % ElementSize(k) == 0
    ensures PackInts(IntElements(k, bytes), ElementSize(k)) == bytes
    decreases |bytes|
  {
    hide FromLE, ToLE, ToSigned, Wrap;
    if bytes == [] {
      NoInts(k);
    } else {
      var w := ElementSize(k);
      IntStep(k, bytes);
      var e, vs := bytes[..w], IntElements(k, bytes);
      ToFromLE(e);
      WrapSigned(FromLE(e), w);
      WrapSmall(FromLE(e), w);
      IntsComeBack(k, bytes[w..]);
      assert vs[1..] == IntElements(k, bytes[w..]);
      assert bytes == e + bytes[w..];
    }
  }

  lemma {:induction false} FloatsComeBack(bytes: seq<Byte>)
    requires |bytes| % 4 == 0
    ensures PackFloats(Patterns32(bytes)) == bytes
    decreases |bytes|
  {
    hide FromLE, ToLE;
    if bytes != [] {
      FirstElement(|bytes|, 4);
      PatternFits(bytes[..4]);
      ToFromLE(bytes[..4]);
      FloatsComeBack(bytes[4..]);
      assert Patterns32(bytes)[1..] == Patterns32(bytes[4..]);
      assert bytes == bytes[..4] + bytes[4..];
    }
  }

  lemma {:induction false} DoublesComeBack(bytes: seq<Byte>)
    requires |bytes| % 8 == 0
    ensures PackDoubles(Patterns64(bytes)) == bytes
    decreases |bytes|
  {
    hide FromLE, ToLE;
    if bytes != [] {
      FirstElement(|bytes|, 8);
      PatternFits(bytes[..8]);
      ToFromLE(bytes[..8]);
      DoublesComeBack(bytes[8..]);
      assert Patterns64(bytes)[1..] == Patterns64(bytes[8..]);
      assert bytes == bytes[..8] + bytes[8..];
    }
  }

  /** The gRPC client takes exactly these datatypes, and whole elements of them. */
  lemma {:induction false} EncodeTakes(t: Contents, bytes: seq<Byte>, datatype_: string)
    ensures Encode(t, bytes, datatype_).Ok? <==>
            (IsInteger(datatype_) || datatype_ == "FP32" || datatype_ == "FP64") &&
            |bytes| % DatatypeByteWidth(datatype_) == 0
  {
    hide Add;
    if GrpcKind(datatype_).Some? {
      SizesAgree(datatype_);
    }
  }

  lemma {:induction false} IntElementAt(k: Kind, bytes: seq<Byte>, n: nat)
    requires KnownKind(k) && |bytes| % ElementSize(k) == 0 && n < |IntElements(k, bytes)|
    ensures (n + 1) * ElementSize(k) <= |bytes|
    ensures IntElements(k, bytes)[n] ==
            var e := Group(bytes, ElementSize(k), n);
            if k.SignedInt? then ToSigned(FromLE(e), ElementSize(k)) else FromLE(e)
    decreases n
  {
    hide FromLE, ToSigned, Group, KnownKind;
    var w := ElementSize(k);
    IntElementsCount(k, bytes);
    MulLe(n + 1, |IntElements(k, bytes)|, w);
    IntStep(k, bytes);
    hide IntElements, ElementSize;
    if n == 0 {
      FirstGroup(bytes, w);
    } else {
      IntElementAt(k, bytes[w..], n - 1);
      NextGroup(bytes, w, n);
    }
  }

  lemma {:induction false} IntElementsCount(k: Kind, bytes: seq<Byte>)
    requires KnownKind(k) && |bytes| % ElementSize(k) == 0
    ensures |IntElements(k, bytes)| * ElementSize(k) == |bytes|
    decreases |bytes|
  {
    hide FromLE, ToSigned, KnownKind;
    if bytes == [] {
      NoInts(k);
    } else {
      IntStep(k, bytes);
      IntElementsCount(k, bytes[ElementSize(k)..]);
      var n := |IntElements(k, bytes)|;
      hide IntElements;
      OneMore(n - 1, ElementSize(k));
    }
  }

  /** Which field of the message an integer tensor fills, and with what: one value an element, negative exactly
      for a signed datatype with the top bit set; the other fields stay empty. */
  lemma {:induction false} FillsField(bytes: seq<Byte>, datatype_: string, n: nat)
    requires IsInteger(datatype_) && Encode(EMPTY, bytes, datatype_).Ok?
    ensures var t := Encode(EMPTY, bytes, datatype_).value;
            var w := DatatypeByteWidth(datatype_);
            var field := if datatype_ in ["INT8", "INT16", "INT32"] then t.ints
                         else if datatype_ == "INT64" then t.int64s
                         else if datatype_ == "UINT64" then t.uint64s else t.uints;
            && t == (if datatype_ in ["INT8", "INT16", "INT32"] then EMPTY.(ints := field)
                     else if datatype_ == "INT64" then EMPTY.(int64s := field)
                     else if datatype_ == "UINT64" then EMPTY.(uint64s := field) else EMPTY.(uints := field))
            && |field| * w == |bytes|
            && (n < |field| ==>
                  (n + 1) * w <= |bytes| &&
                  var e := Group(bytes, w, n);
                  |e| == w > 0 &&
                  field[n] == if datatype_ in ["INT8", "INT16", "INT32", "INT64"] && e[w - 1] >= 128
                              then FromLE(e) - Pow256(w) else FromLE(e))
  {
    IntegerNames(datatype_);
    SizesAgree(datatype_);
    KnownGrpcKind(datatype_);
    var k := GrpcKind(datatype_).value;
    var w := ElementSize(k);
    hide IntElements, FromLE, Group, Pow256, ToSigned, KindOf, DatatypeByteWidth, IsInteger;
    var vs := IntElements(k, bytes);
    assert [] + vs == vs;
    IntElementsCount(k, bytes);
    if n < |vs| {
      IntElementAt(k, bytes, n);
      GroupLength(bytes, w, n);
      SignBit(Group(bytes, w, n));
    }
  }

  lemma {:induction false} IntegerNames(datatype_: string)
    requires IsInteger(datatype_)
    ensures GrpcKind(datatype_) == KindOf(datatype_) && KindOf(datatype_).Some?
    ensures var k := KindOf(datatype_).value;
            && (k.SignedInt? <==> datatype_ in ["INT8", "INT16", "INT32", "INT64"])
            && (k.UnsignedInt? <==> datatype_ in ["BOOL", "UINT8", "UINT16", "UINT32", "UINT64"])
            && (ElementSize(k) == 8 <==> datatype_ in ["INT64", "UINT64"])
  {
  }

  /** Typed contents written and read again give the same bytes, the empty tensor and its fp64 fallback
      included, for every supported datatype but BOOL: that is written to one field and read from
      another, and comes back empty. */
  lemma {:induction false} TypedRoundTrip(c: Casts, bytes: seq<Byte>, datatype_: string)
    requires GrpcKind(datatype_).Some?
    ensures Encode(EMPTY, bytes, datatype_).Ok? <==> |bytes| % DatatypeByteWidth(datatype_) == 0
    ensures Encode(EMPTY, bytes, datatype_).Ok? ==>
              (ContentsToBytes(c, Encode(EMPTY, bytes, datatype_).value, datatype_) == Ok(bytes) <==>
               datatype_ != "BOOL" || bytes == [])
    ensures datatype_ == "BOOL" && Encode(EMPTY, bytes, datatype_).Ok? ==>
              ContentsToBytes(c, Encode(EMPTY, bytes, datatype_).value, datatype_) == Ok([])
  {
    hide KindOf, DatatypeByteWidth, IntElements, Patterns32, Patterns64;
    SizesAgree(datatype_);
    KnownGrpcKind(datatype_);
    BoolKind();
    assert BoolBytes([]) == [];
    var k := GrpcKind(datatype_).value;
    if |bytes| % ElementSize(k) == 0 {
      FieldRoundTrip(c, bytes, k);
    }
  }

  lemma {:induction false} BoolKind()
    ensures KindOf("BOOL") == Some(UnsignedInt(1)) && GrpcKind("BOOL") == Some(UnsignedInt(1))
  {
  }

  lemma {:induction false} FieldRoundTrip(c: Casts, bytes: seq<Byte>, k: Kind)
    requires KnownKind(k) && k != HalfFloat && |bytes| % ElementSize(k) == 0
    ensures var t := Add(EMPTY, k, bytes);
            t.bools == [] &&
            match k
            case Float => (if |t.fp32s| > 0 then PackFloats(t.fp32s) else PackFloats(NarrowAll(c, t.fp64s))) == bytes
            case Double => PackDoubles(t.fp64s) == bytes
            case SignedInt(w) => IntsOrFallback(c, if w == 8 then t.int64s else t.ints, t.fp64s, w) == bytes
            case UnsignedInt(w) => IntsOrFallback(c, if w == 8 then t.uint64s else t.uints, t.fp64s, w) == bytes
  {
    hide IntElements, Patterns32, Patterns64;
    assert NarrowAll(c, []) == [] && TruncateAll(c, []) == [];
    match k {
      case Float =>
        FloatsComeBack(bytes);
        assert [] + Patterns32(bytes) == Patterns32(bytes);
      case Double =>
        DoublesComeBack(bytes);
        assert [] + Patterns64(bytes) == Patterns64(bytes);
      case SignedInt(w) =>
        IntsComeBack(k, bytes);
        assert [] + IntElements(k, bytes) == IntElements(k, bytes);
      case UnsignedInt(w) =>
        IntsComeBack(k, bytes);
        assert [] + IntElements(k, bytes) == IntElements(k, bytes);
    }
  }

  /** On every datatype both transports support the two codecs accept the same byte arrays, and they give
      the same bytes back exactly when the tensor is neither a non-empty BOOL one nor an FP32 one with a
      signalling NaN. */
  lemma {:induction false} AgreesWithHttp(c: Casts, bytes: seq<Byte>, datatype_: string)
    requires GrpcKind(datatype_).Some? && c.Exact()
    ensures Encode(EMPTY, bytes, datatype_).Ok? <==> EncodeTensorData(c, bytes, datatype_).Ok?
    ensures Encode(EMPTY, bytes, datatype_).Ok? ==>
              (ContentsToBytes(c, Encode(EMPTY, bytes, datatype_).value, datatype_) ==
               DecodeTensorData(c, Arr(EncodeTensorData(c, bytes, datatype_).value), datatype_) <==>
               (datatype_ == "BOOL" ==> bytes == []) &&
               (datatype_ == "FP32" && |bytes| % 4 == 0 ==> NoSignalling32(bytes)))
  {
    TypedRoundTrip(c, bytes, datatype_);
    hide Encode, ContentsToBytes, ReadAll, WriteAll, NoSignalling32, Casts.Exact;
    SizesAgree(datatype_);
    if |bytes| % DatatypeByteWidth(datatype_) == 0 {
      if datatype_ == "FP32" {
        FloatTensorRoundTrip(c, bytes);
      } else {
        IntegerTensorRoundTrip(c, bytes, datatype_);
      }
    }
  }

  // ---- the infer loops ----

  datatype GrpcTensor = GrpcTensor(name: string, datatype_: string, shape: seq<int>, contents: Contents)

  function RequestTensor(raw: bool, t: Tensor): Result<GrpcTensor> {
    if raw then Ok(GrpcTensor(t.name, t.datatype_, t.shape, EMPTY))
    else
      var filled :- Encode(EMPTY, t.data, t.datatype_);
      Ok(GrpcTensor(t.name, t.datatype_, t.shape, filled))
  }

  function RequestTensors(raw: bool, ts: seq<Tensor>): Result<seq<GrpcTensor>> {
    if ts == [] then Ok([])
    else
      var first :- RequestTensor(raw, ts[0]);
      var rest :- RequestTensors(raw, ts[1..]);
      Ok([first] + rest)
  }

  function Payloads(ts: seq<Tensor>): (ps: seq<seq<Byte>>)
    ensures |ps| == |ts| && forall i :: 0 <= i < |ts| ==> ps[i] == ts[i].data
  {
    seq(|ts|, i requires 0 <= i < |ts| => ts[i].data)
  }

  /** The response loop: a raw entry where there is one, typed contents otherwise. */
  function ReadOutputs(c: Casts, outputs: seq<GrpcTensor>, raws: seq<seq<Byte>>): Result<seq<Tensor>> {
    if outputs == [] then Ok([])
    else
      var o := outputs[0];
      var datatype_ := if o.datatype_ == "" then "FP32" else o.datatype_;
      var data :- if raws != [] then Ok(raws[0]) else ContentsToBytes(c, o.contents, datatype_);
      var rest :- ReadOutputs(c, outputs[1..], if raws == [] then [] else raws[1..]);
      Ok([Tensor(o.name, datatype_, o.shape, data)] + rest)
  }

  method ReadResponse(c: Casts, outputs: seq<GrpcTensor>, raws: seq<seq<Byte>>) returns (r: Result<seq<Tensor>>)
    ensures r == ReadOutputs(c, outputs, raws)
  {
    hide ContentsToBytes;
    var hasRaw := |raws| > 0;
    var tensors: seq<Tensor> := [];
    assert outputs[0..] == outputs && raws[0..] == raws;
    AppendTensors([], [], ReadOutputs(c, outputs, raws));
    for i := 0 to |outputs|
      invariant match ReadOutputs(c, outputs[i..], if i < |raws| then raws[i..] else [])
                case Ok(rest) => ReadOutputs(c, outputs, raws) == Ok(tensors + rest)
                case Err(e) => ReadOutputs(c, outputs, raws) == Err(e)
    {
      ghost var left := if i < |raws| then raws[i..] else [];
      assert outputs[i..][1..] == outputs[i + 1..];
      assert i < |raws| ==> left[1..] == if i + 1 < |raws| then raws[i + 1..] else [];
      var o := outputs[i];
      var datatype_ := if o.datatype_ == "" then "FP32" else o.datatype_;
      var data: seq<Byte>;
      if hasRaw && i < |raws| {
        data := raws[i];
      } else {
        var typed := ReadContents(c, o.contents, datatype_);
        if typed.Err? {
          return Err(typed.error);
        }
        data := typed.value;
      }
      AppendTensors(tensors, [Tensor(o.name, datatype_, o.shape, data)],
                    ReadOutputs(c, outputs[i + 1..], if i + 1 < |raws| then raws[i + 1..] else []));
      tensors := tensors + [Tensor(o.name, datatype_, o.shape, data)];
    }
    assert outputs[|outputs|..] == [];
    assert tensors + [] == tensors;
    r := Ok(tensors);
  }

  /** Each request tensor carries the name, datatype and shape of its input; its contents are empty when the
      payload goes raw, and the typed contents otherwise. */
  lemma {:induction false} EachRequestTensor(raw: bool, ts: seq<Tensor>, i: nat)
    requires RequestTensors(raw, ts).Ok? && i < |ts|
    ensures |RequestTensors(raw, ts).value| == |ts|
    ensures var g := RequestTensors(raw, ts).value[i];
            && g.name == ts[i].name && g.datatype_ == ts[i].datatype_ && g.shape == ts[i].shape
            && if raw then g.contents == EMPTY else Encode(EMPTY, ts[i].data, ts[i].datatype_) == Ok(g.contents)
    decreases i
  {
    hide Encode;
    RequestCount(raw, ts);
    if i > 0 {
      EachRequestTensor(raw, ts[1..], i - 1);
    }
  }

  lemma {:induction false} RequestCount(raw: bool, ts: seq<Tensor>)
    requires RequestTensors(raw, ts).Ok?
    ensures |RequestTensors(raw, ts).value| == |ts|
  {
    hide Encode;
    if ts != [] {
      RequestCount(raw, ts[1..]);
    }
  }

  /** Each output of a response: its own raw entry where there is one, however many there are, and what its
      typed contents say otherwise. */
  lemma {:induction false} EachOutput(c: Casts, outputs: seq<GrpcTensor>, raws: seq<seq<Byte>>, i: nat)
    requires ReadOutputs(c, outputs, raws).Ok? && i < |outputs|
    ensures |ReadOutputs(c, outputs, raws).value| == |outputs|
    ensures var out := ReadOutputs(c, outputs, raws).value[i];
            && out.name == outputs[i].name && out.shape == outputs[i].shape
            && out.datatype_ == (if outputs[i].datatype_ == "" then "FP32" else outputs[i].datatype_)
            && (if i < |raws| then out.data == raws[i]
                else ContentsToBytes(c, outputs[i].contents, out.datatype_) == Ok(out.data))
    decreases i
  {
    hide ContentsToBytes;
    OutputCount(c, outputs, raws);
    if i > 0 {
      EachOutput(c, outputs[1..], if raws == [] then [] else raws[1..], i - 1);
    }
  }

  lemma {:induction false} OutputCount(c: Casts, outputs: seq<GrpcTensor>, raws: seq<seq<Byte>>)
    requires ReadOutputs(c, outputs, raws).Ok?
    ensures |ReadOutputs(c, outputs, raws).value| == |outputs|
    decreases outputs
  {
    hide ContentsToBytes;
    if outputs != [] {
      OutputCount(c, outputs[1..], if raws == [] then [] else raws[1..]);
    }
  }

  /** An empty datatype is read as FP32. */
  function Named(ts: seq<Tensor>): (rs: seq<Tensor>)
    ensures |rs| == |ts|
    ensures forall i :: 0 <= i < |ts| ==> rs[i] == if ts[i].datatype_ == "" then ts[i].(datatype_ := "FP32") else ts[i]
  {
    seq(|ts|, i requires 0 <= i < |ts| => if ts[i].datatype_ == "" then ts[i].(datatype_ := "FP32") else ts[i])
  }

  /** The request tensors of `ts`, echoed with their raw payloads, read as `ts`, whatever the datatypes,
      but for an empty datatype, which comes back as FP32. */
  lemma {:induction false} RawEcho(c: Casts, ts: seq<Tensor>)
    ensures RequestTensors(true, ts).Ok?
    ensures ReadOutputs(c, RequestTensors(true, ts).value, Payloads(ts)) == Ok(Named(ts))
  {
    hide ContentsToBytes;
    if ts != [] {
      RawEcho(c, ts[1..]);
      assert Payloads(ts)[1..] == Payloads(ts[1..]);
      assert [Named(ts)[0]] + Named(ts[1..]) == Named(ts);
    }
  }

  predicate TypedEchoes(t: Tensor) {
    GrpcKind(t.datatype_).Some? && |t.data| % DatatypeByteWidth(t.datatype_) == 0 && (t.datatype_ == "BOOL" ==> t.data == [])
  }

  /** Without raw payloads, the same for every typed tensor that is not a non-empty BOOL one. */
  lemma {:induction false} TypedEcho(c: Casts, ts: seq<Tensor>)
    requires forall i :: 0 <= i < |ts| ==> TypedEchoes(ts[i])
    ensures RequestTensors(false, ts).Ok?
    ensures ReadOutputs(c, RequestTensors(false, ts).value, []) == Ok(ts)
  {
    hide ContentsToBytes, Encode;
    if ts != [] {
      var t := ts[0];
      NamedKind(t.datatype_);
      TypedRoundTrip(c, t.data, t.datatype_);
      TypedEcho(c, ts[1..]);
      assert [t] + ts[1..] == ts;
    }
  }

  lemma {:induction false} NamedKind(datatype_: string)
    requires GrpcKind(datatype_).Some?
    ensures datatype_ != "" && DatatypeByteWidth(datatype_) > 0
  {
  }
}
