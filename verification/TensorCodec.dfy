/** encodeTensorData and decodeTensorData: raw tensor bytes to a JSON number array and back. */
module TensorCodec {
  import opened Wrappers
  import opened Powers
  import opened LittleEndian
  import opened Half
  import opened Json

  /** The conversions between numeric kinds that round; everything else about them is left open. */
  datatype Casts = Casts(widen: F32 -> F64, narrow: F64 -> F32, intToFloat: int -> F32,
                         intToDouble: int -> F64, toInt: F64 -> int) {
    /** A binary32 pattern survives being stored as a binary64 one, but that a signalling NaN turns quiet;
        what is finite stays finite, and nothing else becomes so. */
    ghost predicate Exact() {
      && (forall f: F32 :: narrow(widen(f)) == Quiet32(f))
      && (forall f: F32 :: Finite64(widen(f)) <==> Exp32(f) != 0xFF)
    }
  }

  /** What Exact asks can be had. */
  lemma {:induction false} ExactCastsExist()
    ensures exists c: Casts :: c.Exact()
  {
    var widen := (f: F32) => (if Exp32(f) == 0xFF then 0x7FF0_0000_0000_0000 + Quiet32(f) else f) as F64;
    var narrow := (d: F64) => (d % 0x1_0000_0000) as F32;
    var c := Casts(widen, narrow, _ => 0, _ => 0, _ => 0);
    forall f: F32
      ensures narrow(widen(f)) == Quiet32(f) && (Finite64(widen(f)) <==> Exp32(f) != 0xFF)
    {
      hide Exp32, Quiet32;
      QuietUnlessNaN(f);
    }
    assert c.Exact();
  }

  lemma {:induction false} QuietUnlessNaN(f: F32)
    ensures Exp32(f) != 0xFF ==> Quiet32(f) == f
  {
  }

  function DatatypeByteWidth(datatype_: string): nat {
    if datatype_ in ["BOOL", "INT8", "UINT8"] then 1
    else if datatype_ in ["FP16", "BF16", "INT16", "UINT16"] then 2
    else if datatype_ in ["FP32", "INT32", "UINT32"] then 4
    else if datatype_ in ["FP64", "INT64", "UINT64"] then 8
    else 0
  }

  /** What the codec does with the elements of one datatype. */
  datatype Kind = Float | Double | HalfFloat | SignedInt(bytes: nat) | UnsignedInt(bytes: nat)

  function KindOf(datatype_: string): Option<Kind> {
    if datatype_ == "FP32" then Some(Float)
    else if datatype_ == "FP64" then Some(Double)
    else if datatype_ == "FP16" then Some(HalfFloat)
    else if datatype_ == "INT8" then Some(SignedInt(1))
    else if datatype_ == "INT16" then Some(SignedInt(2))
    else if datatype_ == "INT32" then Some(SignedInt(4))
    else if datatype_ == "INT64" then Some(SignedInt(8))
    else if datatype_ == "UINT8" || datatype_ == "BOOL" then Some(UnsignedInt(1))
    else if datatype_ == "UINT16" then Some(UnsignedInt(2))
    else if datatype_ == "UINT32" then Some(UnsignedInt(4))
    else if datatype_ == "UINT64" then Some(UnsignedInt(8))
    else None
  }

  /** sizeof the C++ element type. */
  function ElementSize(k: Kind): nat {
    match k
    case Float => 4
    case Double => 8
    case HalfFloat => 2
    case SignedInt(bytes) => bytes
    case UnsignedInt(bytes) => bytes
  }

  lemma {:induction false} SizesAgree(datatype_: string)
    requires KindOf(datatype_).Some?
    ensures ElementSize(KindOf(datatype_).value) == DatatypeByteWidth(datatype_)
    ensures ElementSize(KindOf(datatype_).value) in {1, 2, 4, 8}
  {
  }

  predicate KnownKind(k: Kind) {
    match k
    case SignedInt(bytes) => bytes in {1, 2, 4, 8}
    case UnsignedInt(bytes) => bytes in {1, 2, 4, 8}
    case _ => true
  }

  lemma {:induction false} Widths()
    ensures Pow256(1) == 0x100 && Pow256(2) == 0x1_0000 && Pow256(4) == 0x1_0000_0000
    ensures Pow256(8) == 0x1_0000_0000_0000_0000
  {
    assert Pow256(1) == 0x100;
    assert Pow256(2) == 0x1_0000;
    assert Pow256(3) == 0x100_0000;
    assert Pow256(4) == 0x1_0000_0000;
    assert Pow256(5) == 0x100_0000_0000;
    assert Pow256(6) == 0x1_0000_0000_0000;
    assert Pow256(7) == 0x100_0000_0000_0000;
  }

  lemma {:induction false} PatternFits(e: seq<Byte>)
    ensures |e| == 2 ==> FromLE(e) < 0x1_0000
    ensures |e| == 4 ==> FromLE(e) < 0x1_0000_0000
    ensures |e| == 8 ==> FromLE(e) < 0x1_0000_0000_0000_0000
  {
    ToFromLE(e);
    Widths();
  }

  // ---- one element ----

  function ToJson(c: Casts, k: Kind, e: seq<Byte>): Json
    requires |e| == ElementSize(k)
  {
    PatternFits(e);
    match k
    case Float => Num(c.widen(FromLE(e)))
    case Double => Num(FromLE(e))
    case HalfFloat => Num(c.widen(HalfToFloat(FromLE(e))))
    case SignedInt(bytes) => Int(ToSigned(FromLE(e), bytes))
    case UnsignedInt(_) => Int(FromLE(e))
  }

  /** get of an integer type of the JSON library's own (native) or another width. */
  function GetInt(c: Casts, native: bool, j: Json): Result<int> {
    match j
    case Int(i) => Ok(i)
    case Num(d) => Ok(c.toInt(d))
    case Bool(b) => if native then Err("type must be number") else Ok(if b then 1 else 0)
    case _ => Err("type must be number")
  }

  function GetFloat(c: Casts, j: Json): Result<F32> {
    match j
    case Int(i) => Ok(c.intToFloat(i))
    case Num(d) => Ok(c.narrow(d))
    case Bool(b) => Ok(c.intToFloat(if b then 1 else 0))
    case _ => Err("type must be number")
  }

  function GetDouble(c: Casts, j: Json): Result<F64> {
    match j
    case Int(i) => Ok(c.intToDouble(i))
    case Num(d) => Ok(d)
    case _ => Err("type must be number")
  }

  /** get<int> followed by the cast to the narrow type: the value goes through 32 bits. */
  function ViaInt(v: int, bytes: nat): nat {
    if bytes < 4 then Wrap(ToSigned(Wrap(v, 4), 4), bytes) else Wrap(v, bytes)
  }

  function ViaUnsigned(v: int, bytes: nat): nat {
    if bytes < 4 then Wrap(Wrap(v, 4), bytes) else Wrap(v, bytes)
  }

  function FromJson(c: Casts, k: Kind, j: Json): (r: Result<seq<Byte>>)
    ensures r.Ok? ==> |r.value| == ElementSize(k)
  {
    match k
    case Float => var f :- GetFloat(c, j); Ok(ToLE(f, 4))
    case Double => var d :- GetDouble(c, j); Ok(ToLE(d, 8))
    case HalfFloat => var f :- GetFloat(c, j); Ok(ToLE(FloatToHalf(f), 2))
    case SignedInt(bytes) => var v :- GetInt(c, bytes == 8, j); Ok(ToLE(ViaInt(v, bytes), bytes))
    case UnsignedInt(bytes) => var v :- GetInt(c, bytes == 8, j); Ok(ToLE(ViaUnsigned(v, bytes), bytes))
  }

  // ---- arrays ----

  function ReadAll(c: Casts, k: Kind, bytes: seq<Byte>): (data: seq<Json>)
    requires KnownKind(k) && |bytes| % ElementSize(k) == 0
    ensures |data| * ElementSize(k) == |bytes|
    decreases |bytes|
  {
    if bytes == [] then []
    else
      var w := ElementSize(k);
      FirstElement(|bytes|, w);
      [ToJson(c, k, bytes[..w])] + ReadAll(c, k, bytes[w..])
  }

  lemma {:induction false} FirstElement(n: nat, w: nat)
    requires w in {1, 2, 4, 8} && n % w == 0 && n > 0
    ensures w <= n && (n - w) % w == 0
  {
    Divides(n, 1);
    Divides(n, 2);
    Divides(n, 4);
    Divides(n, 8);
    if w == 1 {
      assert n >= 1 && (n - 1) % 1 == 0;
    } else if w == 2 {
      assert n % 2 == 0;
    } else if w == 4 {
      assert n % 4 == 0;
    } else {
      assert n % 8 == 0;
    }
  }

  lemma {:induction false} Divides(n: nat, w: nat)
    requires w == 1 || w == 2 || w == 4 || w == 8
    ensures n % w == 0 && n > 0 ==> w <= n && (n - w) % w == 0
  {
    if w == 1 {
    } else if w == 2 {
      assert n % 2 == 0 && n > 0 ==> (n - 2) % 2 == 0;
    } else if w == 4 {
      assert n % 4 == 0 && n > 0 ==> (n - 4) % 4 == 0;
    } else {
      assert n % 8 == 0 && n > 0 ==> (n - 8) % 8 == 0;
    }
  }

  function WriteAll(c: Casts, k: Kind, data: seq<Json>): Result<seq<Byte>> {
    if data == [] then Ok([])
    else
      var first :- FromJson(c, k, data[0]);
      var rest :- WriteAll(c, k, data[1..]);
      Ok(first + rest)
  }

  const MISALIGNED: string := "KServe input byte count is not a multiple of the datatype width"

  function EncodeTensorData(c: Casts, bytes: seq<Byte>, datatype_: string): Result<seq<Json>> {
    match KindOf(datatype_)
    case None => Err("unsupported KServe input datatype: " + datatype_)
    case Some(k) =>
      SizesAgree(datatype_);
      if |bytes| % ElementSize(k) != 0 then Err(MISALIGNED) else Ok(ReadAll(c, k, bytes))
  }

  function DecodeTensorData(c: Casts, data: Json, datatype_: string): Result<seq<Byte>> {
    if !data.Arr? then Err("KServe output data is not a JSON array")
    else
      match KindOf(datatype_)
      case None => Err("unsupported KServe output datatype: " + datatype_)
      case Some(k) => WriteAll(c, k, data.items)
  }

  /** Encoding refuses exactly the unsupported datatypes and the lengths that are no multiple of the
      datatype's width; otherwise there is one number per element. */
  lemma {:induction false} EncodeSucceedsIff(c: Casts, bytes: seq<Byte>, datatype_: string)
    ensures KindOf(datatype_).Some? <==> DatatypeByteWidth(datatype_) > 0 && datatype_ != "BF16"
    ensures EncodeTensorData(c, bytes, datatype_).Ok? <==>
            DatatypeByteWidth(datatype_) > 0 && datatype_ != "BF16" && |bytes| % DatatypeByteWidth(datatype_) == 0
    ensures EncodeTensorData(c, bytes, datatype_).Ok? ==>
              |EncodeTensorData(c, bytes, datatype_).value| * DatatypeByteWidth(datatype_) == |bytes|
  {
    hide ReadAll;
    if KindOf(datatype_).Some? {
      SizesAgree(datatype_);
    }
  }

  /** The array elements the decoder takes: numbers, and booleans except where the JSON library's own
      64-bit and double types are asked for. */
  predicate Takes(k: Kind, j: Json) {
    j.Int? || j.Num? || (j.Bool? && k != Double && !(k.SignedInt? && k.bytes == 8) && !(k.UnsignedInt? && k.bytes == 8))
  }

  lemma {:induction false} TakesIff(c: Casts, k: Kind, j: Json)
    ensures FromJson(c, k, j).Ok? <==> Takes(k, j)
  {
    hide ToLE, FloatToHalf, ViaInt, ViaUnsigned;
  }

  /** Decoding succeeds exactly on an array of such elements of a supported datatype, and gives one
      element's width of bytes for each. */
  lemma {:induction false} DecodeSucceedsIff(c: Casts, data: Json, datatype_: string)
    ensures DecodeTensorData(c, data, datatype_).Ok? <==>
            data.Arr? && KindOf(datatype_).Some? &&
            forall i :: 0 <= i < |data.items| ==> Takes(KindOf(datatype_).value, data.items[i])
    ensures DecodeTensorData(c, data, datatype_).Ok? ==>
              |DecodeTensorData(c, data, datatype_).value| == |data.items| * DatatypeByteWidth(datatype_)
  {
    hide WriteAll, KindOf, Takes, DatatypeByteWidth;
    if data.Arr? && KindOf(datatype_).Some? {
      WriteSucceedsIff(c, KindOf(datatype_).value, data.items);
      SizesAgree(datatype_);
    }
  }

  lemma {:induction false} WriteSucceedsIff(c: Casts, k: Kind, items: seq<Json>)
    ensures WriteAll(c, k, items).Ok? <==> forall i :: 0 <= i < |items| ==> Takes(k, items[i])
    ensures WriteAll(c, k, items).Ok? ==> |WriteAll(c, k, items).value| == |items| * ElementSize(k)
  {
    hide FromJson, Takes, ElementSize;
    if items != [] {
      TakesIff(c, k, items[0]);
      WriteSucceedsIff(c, k, items[1..]);
      OneMore(|items| - 1, ElementSize(k));
      assert items == [items[0]] + items[1..];
    }
  }

  /** The n-th group of `w` bytes. */
  function Group(bytes: seq<Byte>, w: nat, n: nat): seq<Byte>
    requires (n + 1) * w <= |bytes|
  {
    OneMore(n, w);
    bytes[n * w..n * w + w]
  }

  /** The n-th number of the array is the n-th group of bytes. */
  lemma {:induction false} ReadAllAt(c: Casts, k: Kind, bytes: seq<Byte>, n: nat)
    requires KnownKind(k) && |bytes| % ElementSize(k) == 0
    requires n < |ReadAll(c, k, bytes)|
    ensures (n + 1) * ElementSize(k) <= |bytes|
    ensures ReadAll(c, k, bytes)[n] == ToJson(c, k, Group(bytes, ElementSize(k), n))
    decreases n
  {
    hide ToJson, ElementSize, ReadAll, Group, KnownKind;
    var w := ElementSize(k);
    MulLe(n + 1, |ReadAll(c, k, bytes)|, w);
    SomethingRead(c, k, bytes);
    ReadAllStep(c, k, bytes);
    if n > 0 {
      ReadAllAt(c, k, bytes[w..], n - 1);
      NextGroup(bytes, w, n);
    } else {
      FirstGroup(bytes, w);
    }
  }

  lemma {:induction false} SomethingRead(c: Casts, k: Kind, bytes: seq<Byte>)
    requires KnownKind(k) && |bytes| % ElementSize(k) == 0 && ReadAll(c, k, bytes) != []
    ensures bytes != []
  {
    hide ToJson;
  }

  lemma {:induction false} FirstGroup(bytes: seq<Byte>, w: nat)
    requires w <= |bytes|
    ensures Group(bytes, w, 0) == bytes[..w]
  {
  }

  lemma {:induction false} NextGroup(bytes: seq<Byte>, w: nat, n: nat)
    requires 0 < n && (n + 1) * w <= |bytes| && w <= |bytes|
    requires n * w <= |bytes[w..]|
    ensures Group(bytes, w, n) == Group(bytes[w..], w, n - 1)
  {
    OneMore(n - 1, w);
    OneMore(n, w);
    SliceAfter(bytes, w, (n - 1) * w, (n - 1) * w + w);
  }

  lemma {:induction false} SliceAfter(bytes: seq<Byte>, w: nat, i: nat, j: nat)
    requires i <= j && w + j <= |bytes|
    ensures bytes[w..][i..j] == bytes[w + i..w + j]
  {
  }

  /** An integer element is the number its bytes spell, low byte first, negative exactly when the type
      is signed and the top bit of the last byte is set. */
  lemma {:induction false} IntegerValue(c: Casts, k: Kind, e: seq<Byte>)
    requires KnownKind(k) && (k.SignedInt? || k.UnsignedInt?) && |e| == ElementSize(k)
    ensures ToJson(c, k, e) ==
            Int(if k.SignedInt? && e[|e| - 1] >= 128 then FromLE(e) - Pow256(|e|) else FromLE(e))
  {
    hide FromLE, ToSigned;
    SignBit(e);
  }

  /** What element `e` of a tensor looks like in the JSON array, datatype by datatype: a number, negative
      exactly when the datatype is a signed one and the top bit of the last byte is set. */
  ghost predicate Shows(c: Casts, datatype_: string, e: seq<Byte>, j: Json) {
    PatternFits(e);
    if datatype_ == "FP32" then |e| == 4 && j == Num(c.widen(FromLE(e)))
    else if datatype_ == "FP64" then |e| == 8 && j == Num(FromLE(e))
    else if datatype_ == "FP16" then |e| == 2 && j == Num(c.widen(HalfToFloat(FromLE(e))))
    else
      && |e| == (if datatype_ in ["BOOL", "INT8", "UINT8"] then 1
                 else if datatype_ in ["INT16", "UINT16"] then 2
                 else if datatype_ in ["INT32", "UINT32"] then 4 else 8)
      && j == Int(if datatype_ in ["INT8", "INT16", "INT32", "INT64"] && e[|e| - 1] >= 128 then FromLE(e) - Pow256(|e|)
                  else FromLE(e))
  }

  /** The n-th number of an encoded tensor shows its n-th group of bytes. */
  lemma {:induction false} EncodedAt(c: Casts, bytes: seq<Byte>, datatype_: string, n: nat)
    requires EncodeTensorData(c, bytes, datatype_).Ok? && n < |EncodeTensorData(c, bytes, datatype_).value|
    ensures (n + 1) * DatatypeByteWidth(datatype_) <= |bytes|
    ensures Shows(c, datatype_, Group(bytes, DatatypeByteWidth(datatype_), n), EncodeTensorData(c, bytes, datatype_).value[n])
  {
    hide ReadAll, Group, Shows, ToJson;
    SizesAgree(datatype_);
    KindIsKnown(datatype_);
    var k := KindOf(datatype_).value;
    hide KindOf, DatatypeByteWidth;
    ReadAllAt(c, k, bytes, n);
    GroupLength(bytes, ElementSize(k), n);
    ShowsElement(c, datatype_, Group(bytes, ElementSize(k), n));
  }

  lemma {:induction false} GroupLength(bytes: seq<Byte>, w: nat, n: nat)
    requires (n + 1) * w <= |bytes|
    ensures |Group(bytes, w, n)| == w
  {
    OneMore(n, w);
  }

  lemma {:induction false} ShowsElement(c: Casts, datatype_: string, e: seq<Byte>)
    requires KindOf(datatype_).Some? && |e| == ElementSize(KindOf(datatype_).value)
    ensures Shows(c, datatype_, e, ToJson(c, KindOf(datatype_).value, e))
  {
    hide FromLE, ToSigned, Pow256, HalfToFloat;
    if e != [] {
      SignBit(e);
    }
  }

  /** What an array element stands for, datatype by datatype: integers and booleans modulo the width of the
      type, numbers with a fraction as the casts have it, and for the floating-point types the pattern. */
  ghost predicate StandsFor(c: Casts, datatype_: string, j: Json, v: int) {
    if datatype_ == "FP32" then FloatOf(c, j) == Some(v)
    else if datatype_ == "FP16" then FloatOf(c, j).Some? && v == FloatToHalf(FloatOf(c, j).value)
    else if datatype_ == "FP64" then
      match j case Int(i) => v == c.intToDouble(i) case Num(d) => v == d case _ => false
    else
      match j
      case Int(i) => v == i % Pow256(DatatypeByteWidth(datatype_))
      case Num(d) => v == c.toInt(d) % Pow256(DatatypeByteWidth(datatype_))
      case Bool(b) => v == if b then 1 else 0
      case _ => false
  }

  function FloatOf(c: Casts, j: Json): Option<F32> {
    match j
    case Int(i) => Some(c.intToFloat(i))
    case Num(d) => Some(c.narrow(d))
    case Bool(b) => Some(c.intToFloat(if b then 1 else 0))
    case _ => None
  }

  /** The n-th group of decoded bytes spells what the n-th element stands for. */
  lemma {:induction false} DecodedAt(c: Casts, items: seq<Json>, datatype_: string, n: nat)
    requires DecodeTensorData(c, Arr(items), datatype_).Ok? && n < |items|
    ensures (n + 1) * DatatypeByteWidth(datatype_) <= |DecodeTensorData(c, Arr(items), datatype_).value|
    ensures StandsFor(c, datatype_, items[n],
                      FromLE(Group(DecodeTensorData(c, Arr(items), datatype_).value, DatatypeByteWidth(datatype_), n)))
  {
    hide WriteAll, Group, FromJson, StandsFor, FromLE;
    SizesAgree(datatype_);
    KindIsKnown(datatype_);
    var k := KindOf(datatype_).value;
    hide KindOf, DatatypeByteWidth;
    WriteAllAt(c, k, items, n);
    StandsForValue(c, datatype_, items[n]);
  }

  lemma {:induction false} WriteAllAt(c: Casts, k: Kind, items: seq<Json>, n: nat)
    requires WriteAll(c, k, items).Ok? && n < |items|
    ensures FromJson(c, k, items[n]).Ok? && (n + 1) * ElementSize(k) <= |WriteAll(c, k, items).value|
    ensures Group(WriteAll(c, k, items).value, ElementSize(k), n) == FromJson(c, k, items[n]).value
    decreases n
  {
    hide FromJson, Group, ElementSize;
    var w := ElementSize(k);
    WriteSucceedsIff(c, k, items);
    MulLe(n + 1, |items|, w);
    var first, rest := FromJson(c, k, items[0]).value, WriteAll(c, k, items[1..]).value;
    var out := WriteAll(c, k, items).value;
    assert out == first + rest;
    hide WriteAll;
    assert out[..w] == first && out[w..] == rest;
    if n == 0 {
      FirstGroup(out, w);
    } else {
      WriteAllAt(c, k, items[1..], n - 1);
      NextGroup(out, w, n);
    }
  }

  lemma {:induction false} StandsForValue(c: Casts, datatype_: string, j: Json)
    requires KindOf(datatype_).Some? && FromJson(c, KindOf(datatype_).value, j).Ok?
    ensures StandsFor(c, datatype_, j, FromLE(FromJson(c, KindOf(datatype_).value, j).value))
  {
    hide FromLE, ToLE, Wrap, ToSigned, FloatToHalf, Pow256, ViaInt, ViaUnsigned, KindOf, DatatypeByteWidth;
    KindIsKnown(datatype_);
    SizesAgree(datatype_);
    NamesOfKind(datatype_);
    var k := KindOf(datatype_).value;
    Widths();
    match k {
      case Float =>
        FromToLE(GetFloat(c, j).value, 4);
      case Double =>
        FromToLE(GetDouble(c, j).value, 8);
      case HalfFloat =>
        FromToLE(FloatToHalf(GetFloat(c, j).value), 2);
      case SignedInt(w) =>
        var v := GetInt(c, w == 8, j).value;
        CastOf(v, w);
        FromToLE(ViaInt(v, w), w);
        TruthSmall(w);
      case UnsignedInt(w) =>
        var v := GetInt(c, w == 8, j).value;
        CastOf(v, w);
        FromToLE(ViaUnsigned(v, w), w);
        TruthSmall(w);
    }
  }

  lemma {:induction false} NamesOfKind(datatype_: string)
    requires KindOf(datatype_).Some?
    ensures KindOf(datatype_).value.Float? <==> datatype_ == "FP32"
    ensures KindOf(datatype_).value.Double? <==> datatype_ == "FP64"
    ensures KindOf(datatype_).value.HalfFloat? <==> datatype_ == "FP16"
  {
  }

  /** The detour of the narrow types through 32 bits changes nothing. */
  lemma {:induction false} CastOf(v: int, w: nat)
    requires w in {1, 2, 4, 8}
    ensures ViaInt(v, w) == ViaUnsigned(v, w) == v % Pow256(w) < Pow256(w)
  {
    if w < 4 {
      WrapThroughInt(v, w);
      WrapTwice(v, w, 4);
    }
  }

  lemma {:induction false} TruthSmall(w: nat)
    requires w in {1, 2, 4, 8}
    ensures 1 % Pow256(w) == 1 && 0 % Pow256(w) == 0
  {
    Widths();
    ModShift(1, Pow256(w));
    ModShift(0, Pow256(w));
  }

  /** A BOOL array: the n-th byte is 1 exactly for true, and for the numbers that are 1 modulo 256. */
  lemma {:induction false} BoolsDecoded(c: Casts, items: seq<Json>, n: nat)
    requires DecodeTensorData(c, Arr(items), "BOOL").Ok? && n < |items|
    ensures var out := DecodeTensorData(c, Arr(items), "BOOL").value;
            && |out| == |items|
            && (items[n].Bool? ==> out[n] == if items[n].b then 1 else 0)
            && (items[n].Int? ==> out[n] == items[n].i % 256)
            && (items[n].Num? ==> out[n] == c.toInt(items[n].bits) % 256)
  {
    hide WriteAll, Group, FromJson, FromLE, DecodeTensorData;
    assert DatatypeByteWidth("BOOL") == 1 && Pow256(1) == 256;
    DecodeSucceedsIff(c, Arr(items), "BOOL");
    DecodedAt(c, items, "BOOL", n);
    OneByte(DecodeTensorData(c, Arr(items), "BOOL").value, n);
  }

  lemma {:induction false} OneByte(bytes: seq<Byte>, n: nat)
    requires n < |bytes|
    ensures FromLE(Group(bytes, 1, n)) == bytes[n]
  {
    var e := Group(bytes, 1, n);
    assert e == [bytes[n]];
    assert e[1..] == [];
  }

  /** An integer in the range of the datatype comes out as itself. */
  lemma {:induction false} IntegersDecoded(c: Casts, items: seq<Json>, datatype_: string, n: nat)
    requires IsInteger(datatype_) && DecodeTensorData(c, Arr(items), datatype_).Ok? && n < |items| && items[n].Int?
    ensures (n + 1) * DatatypeByteWidth(datatype_) <= |DecodeTensorData(c, Arr(items), datatype_).value|
    ensures var w := DatatypeByteWidth(datatype_);
            var e := Group(DecodeTensorData(c, Arr(items), datatype_).value, w, n);
            && (0 <= items[n].i < Pow256(w) ==> FromLE(e) == items[n].i)
            && (-Pow256(w) <= 2 * items[n].i < Pow256(w) ==> ToSigned(FromLE(e), w) == items[n].i)
  {
    hide DecodeTensorData, Group, FromLE, ToSigned, Pow256, FloatToHalf;
    DecodedAt(c, items, datatype_, n);
    var i, w := items[n].i, DatatypeByteWidth(datatype_);
    if 0 <= i < Pow256(w) {
      ModShift(i, Pow256(w));
    }
    if -Pow256(w) <= 2 * i < Pow256(w) {
      SignedComesBack(i, w);
    }
  }

  /** The loop of readArray. */
  method ReadArray(c: Casts, k: Kind, bytes: seq<Byte>) returns (r: Result<seq<Json>>)
    requires KnownKind(k)
    ensures r == if |bytes| % ElementSize(k) != 0 then Err(MISALIGNED) else Ok(ReadAll(c, k, bytes))
  {
    hide *;
    var w := ElementSize(k);
    WidthPositive(k);
    if |bytes| % w != 0 {
      return Err(MISALIGNED);
    }
    var data: seq<Json> := [];
    var count := |bytes| / w;
    var at: nat := 0;
    assert bytes[0..] == bytes;
    UpToNone(w, |bytes|);
    for i := 0 to count
      invariant UpTo(i, w, at, |bytes|) && at <= |bytes| && (|bytes| - at) % w == 0
      invariant ReadAll(c, k, bytes) == data + ReadAll(c, k, bytes[at..])
    {
      UpToMore(i, w, at, |bytes|);
      ReadTurn(c, k, bytes, at);
      var value := ToJson(c, k, bytes[at..at + w]);
      assert data + ([value] + ReadAll(c, k, bytes[at + w..])) == data + [value] + ReadAll(c, k, bytes[at + w..]);
      data := data + [value];
      at := at + w;
    }
    UpToAll(w, at, |bytes|);
    ReadAllNothing(c, k);
    assert bytes[at..] == [];
    assert data + [] == data;
    r := Ok(data);
  }

  /** i elements of width w have been read out of n bytes. */
  predicate UpTo(i: nat, w: nat, at: nat, n: nat) {
    at == i * w && at <= n
  }

  lemma {:induction false} UpToNone(w: nat, n: nat)
    ensures UpTo(0, w, 0, n)
  {
  }

  lemma {:induction false} UpToMore(i: nat, w: nat, at: nat, n: nat)
    requires w > 0 && i < n / w && UpTo(i, w, at, n) && n % w == 0
    ensures at < n && UpTo(i + 1, w, at + w, n)
  {
    MoreLeft(i, n / w, w, n);
    QuotientBounds(n, w);
    MulLe(i + 1, n / w, w);
  }

  lemma {:induction false} UpToAll(w: nat, at: nat, n: nat)
    requires w > 0 && UpTo(n / w, w, at, n) && n % w == 0
    ensures at == n
  {
    AllRead(n / w, w, n);
  }

  lemma {:induction false} ReadTurn(c: Casts, k: Kind, bytes: seq<Byte>, at: nat)
    requires KnownKind(k) && at < |bytes| && (|bytes| - at) % ElementSize(k) == 0
    ensures at + ElementSize(k) <= |bytes| && (|bytes| - (at + ElementSize(k))) % ElementSize(k) == 0
    ensures ReadAll(c, k, bytes[at..]) ==
            [ToJson(c, k, bytes[at..at + ElementSize(k)])] + ReadAll(c, k, bytes[at + ElementSize(k)..])
  {
    hide ToJson, ReadAll, KnownKind;
    var w := ElementSize(k);
    ReadAllStep(c, k, bytes[at..]);
    hide ElementSize;
    assert bytes[at..][..w] == bytes[at..at + w];
    assert bytes[at..][w..] == bytes[at + w..];
  }

  lemma {:induction false} WidthPositive(k: Kind)
    requires KnownKind(k)
    ensures ElementSize(k) > 0
  {
  }

  lemma {:induction false} ReadAllNothing(c: Casts, k: Kind)
    requires KnownKind(k)
    ensures ReadAll(c, k, []) == []
  {
  }

  lemma {:induction false} MoreLeft(i: nat, count: nat, w: nat, n: nat)
    requires w > 0 && i < count && count == n / w
    ensures i * w < n && (i + 1) * w == i * w + w
  {
    QuotientBounds(n, w);
    MulLe(i + 1, count, w);
    OneMore(i, w);
  }

  lemma {:induction false} OneMore(i: nat, w: nat)
    ensures (i + 1) * w == i * w + w
  {
  }

  lemma {:induction false} AllRead(count: nat, w: nat, n: nat)
    requires w > 0 && count == n / w && n % w == 0
    ensures count * w == n
  {
    assert n == w * (n / w) + n % w;
  }

  lemma {:induction false} ReadAllStep(c: Casts, k: Kind, bytes: seq<Byte>)
    requires KnownKind(k) && |bytes| % ElementSize(k) == 0 && bytes != []
    ensures |bytes| >= ElementSize(k) && (|bytes| - ElementSize(k)) % ElementSize(k) == 0
    ensures ReadAll(c, k, bytes) == [ToJson(c, k, bytes[..ElementSize(k)])] + ReadAll(c, k, bytes[ElementSize(k)..])
  {
    hide ToJson;
    FirstElement(|bytes|, ElementSize(k));
  }

  /** The loop of writeArray. */
  method WriteArray(c: Casts, k: Kind, data: seq<Json>) returns (r: Result<seq<Byte>>)
    ensures r == WriteAll(c, k, data)
  {
    hide FromJson;
    var bytes: seq<Byte> := [];
    assert data[0..] == data;
    AppendMore([], [], WriteAll(c, k, data));
    for i := 0 to |data|
      invariant match WriteAll(c, k, data[i..])
                case Ok(rest) => WriteAll(c, k, data) == Ok(bytes + rest)
                case Err(e) => WriteAll(c, k, data) == Err(e)
    {
      assert data[i..][1..] == data[i + 1..];
      var value := FromJson(c, k, data[i]);
      if value.Err? {
        return Err(value.error);
      }
      AppendMore(bytes, value.value, WriteAll(c, k, data[i + 1..]));
      bytes := bytes + value.value;
    }
    assert bytes + [] == bytes;
    r := Ok(bytes);
  }

  lemma {:induction false} AppendMore(a: seq<Byte>, b: seq<Byte>, r: Result<seq<Byte>>)
    ensures r.Ok? ==> a + (b + r.value) == a + b + r.value
    ensures r.Ok? ==> [] + r.value == r.value
  {
  }

  method EncodeTensor(c: Casts, bytes: seq<Byte>, datatype_: string) returns (r: Result<seq<Json>>)
    ensures r == EncodeTensorData(c, bytes, datatype_)
  {
    hide ReadAll, KindOf;
    var k := KindOf(datatype_);
    if k.None? {
      return Err("unsupported KServe input datatype: " + datatype_);
    }
    SizesAgree(datatype_);
    KindIsKnown(datatype_);
    r := ReadArray(c, k.value, bytes);
  }

  lemma {:induction false} KindIsKnown(datatype_: string)
    requires KindOf(datatype_).Some?
    ensures KnownKind(KindOf(datatype_).value)
  {
  }

  method DecodeTensor(c: Casts, data: Json, datatype_: string) returns (r: Result<seq<Byte>>)
    ensures r == DecodeTensorData(c, data, datatype_)
  {
    hide WriteAll, KindOf;
    if !data.Arr? {
      return Err("KServe output data is not a JSON array");
    }
    var k := KindOf(datatype_);
    if k.None? {
      return Err("unsupported KServe output datatype: " + datatype_);
    }
    r := WriteArray(c, k.value, data.items);
  }

  // ---- round trips ----

  /** An element that decodes to what it was encoded from. */
  ghost predicate Survives(c: Casts, k: Kind, e: seq<Byte>)
    requires |e| == ElementSize(k)
  {
    FromJson(c, k, ToJson(c, k, e)) == Ok(e)
  }

  ghost predicate AllSurvive(c: Casts, k: Kind, bytes: seq<Byte>)
    requires KnownKind(k) && |bytes| % ElementSize(k) == 0
    decreases |bytes|
  {
    bytes == [] || (
      var w := ElementSize(k);
      FirstElement(|bytes|, w);
      Survives(c, k, bytes[..w]) && AllSurvive(c, k, bytes[w..]))
  }

  lemma {:induction false} AllSurviveStep(c: Casts, k: Kind, bytes: seq<Byte>)
    requires KnownKind(k) && |bytes| % ElementSize(k) == 0 && bytes != []
    ensures |bytes| >= ElementSize(k) && (|bytes| - ElementSize(k)) % ElementSize(k) == 0
    ensures AllSurvive(c, k, bytes) <==>
            Survives(c, k, bytes[..ElementSize(k)]) && AllSurvive(c, k, bytes[ElementSize(k)..])
  {
    hide Survives;
    FirstElement(|bytes|, ElementSize(k));
  }

  /** A tensor comes back unchanged exactly when each of its elements does. */
  lemma {:induction false} ArrayRoundTrip(c: Casts, k: Kind, bytes: seq<Byte>)
    requires KnownKind(k) && |bytes| % ElementSize(k) == 0
    ensures WriteAll(c, k, ReadAll(c, k, bytes)) == Ok(bytes) <==> AllSurvive(c, k, bytes)
    decreases |bytes|
  {
    hide ToJson, FromJson;
    if bytes != [] {
      hide AllSurvive, ReadAll;
      var w := ElementSize(k);
      AllSurviveStep(c, k, bytes);
      ReadAllStep(c, k, bytes);
      var first, rest := bytes[..w], bytes[w..];
      assert bytes == first + rest;
      ArrayRoundTrip(c, k, rest);
      var data := ReadAll(c, k, bytes);
      assert data[1..] == ReadAll(c, k, rest);
      var a, b := FromJson(c, k, data[0]), WriteAll(c, k, data[1..]);
      if a.Ok? && b.Ok? {
        SameParts(a.value, b.value, first, rest);
      }
    }
  }

  lemma {:induction false} SameParts(a: seq<Byte>, b: seq<Byte>, x: seq<Byte>, y: seq<Byte>)
    requires |a| == |x|
    ensures a + b == x + y <==> a == x && b == y
  {
    if a + b == x + y {
      assert a == (a + b)[..|a|] == x;
      assert b == (a + b)[|a|..] == y;
    }
  }

  lemma {:induction false} IntegerSurvives(c: Casts, k: Kind, e: seq<Byte>)
    requires KnownKind(k) && (k.SignedInt? || k.UnsignedInt?) && |e| == ElementSize(k)
    ensures Survives(c, k, e)
  {
    hide Wrap, ToSigned;
    var n, w := FromLE(e), k.bytes;
    ToFromLE(e);
    WrapSigned(n, w);
    WrapSmall(n, w);
    if w < 4 {
      WrapTwice(n, w, 4);
      WrapTwice(ToSigned(n, w), w, 4);
      WrapThroughInt(ToSigned(n, w), w);
    }
  }

  lemma {:induction false} WrapThroughInt(v: int, w: nat)
    requires w <= 4
    ensures Wrap(ToSigned(Wrap(v, 4), 4), w) == Wrap(v, w)
  {
    hide Wrap;
    WrapTwice(v, w, 4);
    WrapTwice(ToSigned(Wrap(v, 4), 4), w, 4);
    WrapSigned(Wrap(v, 4), 4);
  }

  lemma {:induction false} FloatSurvives(c: Casts, e: seq<Byte>)
    requires c.Exact() && |e| == 4
    ensures FromLE(e) < 0x1_0000_0000 && (Survives(c, Float, e) <==> !IsSignalling32(FromLE(e)))
  {
    hide FromLE, ToLE, IsSignalling32;
    PatternFits(e);
    var f: F32 := FromLE(e);
    assert c.narrow(c.widen(f)) == Quiet32(f);
    SameFloat(Quiet32(f), e);
  }

  lemma {:induction false} SameFloat(f: nat, e: seq<Byte>)
    requires |e| == 4 && f < 0x1_0000_0000
    ensures ToLE(f, 4) == e <==> f == FromLE(e)
  {
    Widths();
    FromToLE(f, 4);
    ToFromLE(e);
  }

  lemma {:induction false} DoubleSurvives(c: Casts, e: seq<Byte>)
    requires |e| == 8
    ensures Survives(c, Double, e)
  {
    ToFromLE(e);
    PatternFits(e);
  }

  /** The half patterns that come back: every one that is not a NaN, and the quiet NaN without payload. */
  predicate HalfComesBack(h: int) {
    0 <= h < 0x1_0000 && (!IsNaN16(h) || h % 0x8000 == 0x7E00)
  }

  lemma {:induction false} HalfSurvives(c: Casts, e: seq<Byte>)
    requires c.Exact() && |e| == 2
    ensures Survives(c, HalfFloat, e) <==> HalfComesBack(FromLE(e))
    ensures FromJson(c, HalfFloat, ToJson(c, HalfFloat, e)).Ok?
  {
    hide FloatToHalf, HalfToFloat, IsNaN32, IsNaN16, Sign32, Sign16, FromLE, ToLE, Mant32, Finite64;
    ToFromLE(e);
    PatternFits(e);
    var h: U16 := FromLE(e);
    var f := HalfToFloat(h);
    var g := c.narrow(c.widen(f));
    if IsNaN16(h) {
      WidenNaN(h);
      QuietNaNIsNaN(f);
      NarrowNaN(g);
      SignOfHalf(h);
      HalfBytesDiffer(FloatToHalf(g), e);
    } else {
      WidenNotNaN(h);
      NarrowWiden(h);
    }
  }

  lemma {:induction false} HalfBytesDiffer(h: nat, e: seq<Byte>)
    requires |e| == 2 && h < 0x1_0000
    ensures ToLE(h, 2) == e <==> h == FromLE(e)
  {
    Widths();
    FromToLE(h, 2);
    ToFromLE(e);
  }

  lemma {:induction false} SignOfHalf(h: U16)
    ensures h == Sign16(h) * 0x8000 + h % 0x8000
    ensures 0 <= Sign16(h) < 2
  {
  }

  lemma {:induction false} WidenNotNaN(h: U16)
    requires !IsNaN16(h)
    ensures !IsNaN32(HalfToFloat(h))
  {
    WidenedFields(h);
    Split16(h);
  }

  function LE16(low: int, high: int): int {
    low + 256 * high
  }

  /** All the elements of a tensor of halves. */
  ghost predicate HalvesComeBack(bytes: seq<Byte>)
    requires |bytes| % 2 == 0
  {
    forall n :: 0 <= n < |bytes| / 2 ==> HalfComesBack(LE16(bytes[2 * n], bytes[2 * n + 1]))
  }

  lemma {:induction false} TwoBytes(e: seq<Byte>)
    requires |e| == 2
    ensures FromLE(e) == LE16(e[0], e[1])
  {
    assert FromLE(e[1..]) == e[1] + 256 * FromLE(e[1..][1..]);
    assert e[1..][1..] == [];
  }

  lemma {:induction false} HalvesTail(bytes: seq<Byte>)
    requires |bytes| % 2 == 0 && bytes != []
    ensures HalvesComeBack(bytes) <==> HalfComesBack(FromLE(bytes[..2])) && HalvesComeBack(bytes[2..])
  {
    hide HalfComesBack;
    TwoBytes(bytes[..2]);
    var t := bytes[2..];
    if HalfComesBack(LE16(bytes[0], bytes[1])) && HalvesComeBack(t) {
      forall n | 0 <= n < |bytes| / 2
        ensures HalfComesBack(LE16(bytes[2 * n], bytes[2 * n + 1]))
      {
        if n > 0 {
          assert HalfComesBack(LE16(t[2 * (n - 1)], t[2 * (n - 1) + 1]));
        }
      }
    }
    if HalvesComeBack(bytes) {
      assert HalfComesBack(LE16(bytes[2 * 0], bytes[2 * 0 + 1]));
      forall n | 0 <= n < |t| / 2
        ensures HalfComesBack(LE16(t[2 * n], t[2 * n + 1]))
      {
        assert HalfComesBack(LE16(bytes[2 * (n + 1)], bytes[2 * (n + 1) + 1]));
      }
    }
  }

  lemma {:induction false} NoHalves()
    ensures HalvesComeBack([])
  {
  }

  lemma {:induction false} HalvesSurvive(c: Casts, bytes: seq<Byte>)
    requires c.Exact() && |bytes| % 2 == 0
    ensures AllSurvive(c, HalfFloat, bytes) <==> HalvesComeBack(bytes)
    decreases |bytes|
  {
    hide Survives, HalfComesBack, HalvesComeBack, FromLE, FromJson;
    if bytes == [] {
      NoHalves();
    } else {
      hide AllSurvive;
      AllSurviveStep(c, HalfFloat, bytes);
      HalfSurvives(c, bytes[..2]);
      HalvesTail(bytes);
      HalvesSurvive(c, bytes[2..]);
    }
  }

  /** FP16 tensors: the bytes come back exactly when no element is a NaN other than the quiet one
      without payload. */
  lemma {:induction false} HalfTensorRoundTrip(c: Casts, bytes: seq<Byte>)
    requires c.Exact() && |bytes| % 2 == 0
    ensures EncodeTensorData(c, bytes, "FP16").Ok?
    ensures DecodeTensorData(c, Arr(EncodeTensorData(c, bytes, "FP16").value), "FP16") == Ok(bytes) <==> HalvesComeBack(bytes)
  {
    hide ReadAll, WriteAll;
    ArrayRoundTrip(c, HalfFloat, bytes);
    HalvesSurvive(c, bytes);
  }

  function QuietNaN(sign: int): nat
    requires 0 <= sign < 2
  {
    sign * 0x8000 + 0x7E00
  }

  /** A NaN element stays a NaN: the quiet one without payload of its sign. */
  lemma {:induction false} NaNHalfStaysNaN(c: Casts, h: U16, sign: int)
    requires c.Exact() && IsNaN16(h) && sign == Sign16(h) && 0 <= sign < 2
    ensures FromJson(c, HalfFloat, ToJson(c, HalfFloat, ToLE(h, 2))) == Ok(ToLE(QuietNaN(sign), 2))
  {
    Widths();
    FromToLE(h, 2);
    var e := ToLE(h, 2);
    hide FloatToHalf, HalfToFloat, IsNaN32, Sign32, FromLE, ToLE, Quiet32, Finite64;
    PatternFits(e);
    WidenNaN(h);
    QuietNaNIsNaN(HalfToFloat(h));
    NarrowNaN(c.narrow(c.widen(HalfToFloat(h))));
  }

  /** binary32 numbers as the JSON array a server sends. */
  function FloatArray(c: Casts, fs: seq<F32>): (data: seq<Json>)
    ensures |data| == |fs| && forall n :: 0 <= n < |fs| ==> data[n] == Num(c.widen(fs[n]))
  {
    seq(|fs|, n requires 0 <= n < |fs| => Num(c.widen(fs[n])))
  }

  /** Decoding FP16: one narrowed half per number, in order, each keeping its sign and truncating its
      magnitude when that is below 2^16. */
  lemma {:induction false} DecodeNarrows(c: Casts, fs: seq<F32>)
    requires c.Exact() && forall n :: 0 <= n < |fs| ==> Exp32(fs[n]) < 143
    ensures WriteAll(c, HalfFloat, FloatArray(c, fs)).Ok?
    ensures AllNarrowed(fs, WriteAll(c, HalfFloat, FloatArray(c, fs)).value)
  {
    hide NarrowedTo, FromJson, LE16, AllNarrowed;
    if fs == [] {
      NoneNarrowed();
    } else {
      var data := FloatArray(c, fs);
      assert data[1..] == FloatArray(c, fs[1..]);
      DecodeNarrows(c, fs[1..]);
      NarrowsOne(c, fs[0]);
      NarrowedMore(fs, FromJson(c, HalfFloat, data[0]).value, WriteAll(c, HalfFloat, data[1..]).value);
    }
  }

  ghost predicate AllNarrowed(fs: seq<F32>, bytes: seq<Byte>) {
    |bytes| == 2 * |fs| &&
    forall n :: 0 <= n < |fs| ==> NarrowedTo(fs[n], LE16(bytes[2 * n], bytes[2 * n + 1]))
  }

  lemma {:induction false} NoneNarrowed()
    ensures AllNarrowed([], [])
  {
  }

  lemma {:induction false} NarrowedMore(fs: seq<F32>, e: seq<Byte>, rest: seq<Byte>)
    requires fs != [] && |e| == 2 && NarrowedTo(fs[0], LE16(e[0], e[1])) && AllNarrowed(fs[1..], rest)
    ensures AllNarrowed(fs, e + rest)
  {
    hide NarrowedTo, LE16;
    var bytes := e + rest;
    forall n | 0 <= n < |fs|
      ensures NarrowedTo(fs[n], LE16(bytes[2 * n], bytes[2 * n + 1]))
    {
      if n > 0 {
        assert NarrowedTo(fs[1..][n - 1], LE16(rest[2 * (n - 1)], rest[2 * (n - 1) + 1]));
      }
    }
  }

  ghost predicate NarrowedTo(f: F32, h: int) {
    0 <= h < 0x1_0000 && Sign16(h) == Sign32(f) && Brackets(h % 0x8000, FloatMag(f))
  }

  lemma {:induction false} NarrowsOne(c: Casts, f: F32)
    requires c.Exact() && Exp32(f) < 143
    ensures FromJson(c, HalfFloat, Num(c.widen(f))).Ok?
    ensures var e := FromJson(c, HalfFloat, Num(c.widen(f))).value; |e| == 2 && NarrowedTo(f, LE16(e[0], e[1]))
  {
    hide FloatToHalf, ToLE, FromLE, Brackets, Finite64;
    Widths();
    FromToLE(FloatToHalf(f), 2);
    TwoBytes(ToLE(FloatToHalf(f), 2));
    NarrowingTruncates(f);
  }

  predicate IsInteger(datatype_: string) {
    datatype_ in ["BOOL", "INT8", "INT16", "INT32", "INT64", "UINT8", "UINT16", "UINT32", "UINT64"]
  }

  lemma {:induction false} IntegersSurvive(c: Casts, k: Kind, bytes: seq<Byte>)
    requires KnownKind(k) && (k.SignedInt? || k.UnsignedInt? || k.Double?) && |bytes| % ElementSize(k) == 0
    ensures AllSurvive(c, k, bytes)
    decreases |bytes|
  {
    hide Survives;
    if bytes != [] {
      var w := ElementSize(k);
      FirstElement(|bytes|, w);
      if k.Double? {
        DoubleSurvives(c, bytes[..w]);
      } else {
        IntegerSurvives(c, k, bytes[..w]);
      }
      IntegersSurvive(c, k, bytes[w..]);
    }
  }

  /** Integer (and binary64) tensors: any whole number of elements comes back byte for byte, through
      two's complement and the 32-bit detour of the narrow types; other lengths are refused. */
  lemma {:induction false} IntegerTensorRoundTrip(c: Casts, bytes: seq<Byte>, datatype_: string)
    requires IsInteger(datatype_) || datatype_ == "FP64"
    ensures var w := DatatypeByteWidth(datatype_);
            w > 0 &&
            match EncodeTensorData(c, bytes, datatype_)
            case Err(_) => |bytes| % w != 0
            case Ok(data) => |data| * w == |bytes| && DecodeTensorData(c, Arr(data), datatype_) == Ok(bytes)
  {
    hide ReadAll, WriteAll;
    SizesAgree(datatype_);
    var k := KindOf(datatype_).value;
    if |bytes| % ElementSize(k) == 0 {
      ArrayRoundTrip(c, k, bytes);
      IntegersSurvive(c, k, bytes);
    }
  }

  /** The four-byte elements of a tensor, none of them a signalling NaN. */
  ghost predicate NoSignalling32(bytes: seq<Byte>)
    requires |bytes| % 4 == 0
    decreases |bytes|
  {
    bytes == [] || (
      FirstElement(|bytes|, 4);
      PatternFits(bytes[..4]);
      !IsSignalling32(FromLE(bytes[..4])) && NoSignalling32(bytes[4..]))
  }

  lemma {:induction false} NoSignallingStep(bytes: seq<Byte>)
    requires |bytes| % 4 == 0 && bytes != []
    ensures |bytes| >= 4 && |bytes[4..]| % 4 == 0 && FromLE(bytes[..4]) < 0x1_0000_0000
    ensures NoSignalling32(bytes) <==> !IsSignalling32(FromLE(bytes[..4])) && NoSignalling32(bytes[4..])
  {
    hide FromLE, IsSignalling32;
    FirstElement(|bytes|, 4);
    PatternFits(bytes[..4]);
  }

  lemma {:induction false} FloatsSurvive(c: Casts, bytes: seq<Byte>)
    requires c.Exact() && |bytes| % 4 == 0
    ensures AllSurvive(c, Float, bytes) <==> NoSignalling32(bytes)
    decreases |bytes|
  {
    hide Survives, Casts.Exact, FromLE, IsSignalling32;
    if bytes != [] {
      hide AllSurvive, NoSignalling32;
      NoSignallingStep(bytes);
      AllSurviveStep(c, Float, bytes);
      FloatSurvives(c, bytes[..4]);
      FloatsSurvive(c, bytes[4..]);
    }
  }

  /** FP32 tensors: the bytes come back exactly when no element is a signalling NaN. */
  lemma {:induction false} FloatTensorRoundTrip(c: Casts, bytes: seq<Byte>)
    requires c.Exact() && |bytes| % 4 == 0
    ensures EncodeTensorData(c, bytes, "FP32").Ok?
    ensures DecodeTensorData(c, Arr(EncodeTensorData(c, bytes, "FP32").value), "FP32") == Ok(bytes) <==> NoSignalling32(bytes)
  {
    hide ReadAll, WriteAll, NoSignalling32, Casts.Exact;
    ArrayRoundTrip(c, Float, bytes);
    FloatsSurvive(c, bytes);
  }

  // ---- through the text of the document ----

  /** Neither an infinity nor a NaN; every integer is finite. */
  predicate FiniteElement(k: Kind, e: seq<Byte>)
    requires |e| == ElementSize(k)
  {
    PatternFits(e);
    match k
    case Float => Exp32(FromLE(e)) != 0xFF
    case Double => Finite64(FromLE(e))
    case HalfFloat => Exp16(FromLE(e)) != 0x1F
    case _ => true
  }

  predicate FiniteElements(k: Kind, bytes: seq<Byte>)
    requires KnownKind(k) && |bytes| % ElementSize(k) == 0
    decreases |bytes|
  {
    bytes == [] || (
      var w := ElementSize(k);
      FirstElement(|bytes|, w);
      FiniteElement(k, bytes[..w]) && FiniteElements(k, bytes[w..]))
  }

  lemma {:induction false} FiniteStep(k: Kind, bytes: seq<Byte>)
    requires KnownKind(k) && |bytes| % ElementSize(k) == 0 && bytes != []
    ensures |bytes| >= ElementSize(k) && (|bytes| - ElementSize(k)) % ElementSize(k) == 0
    ensures FiniteElements(k, bytes) <==>
            FiniteElement(k, bytes[..ElementSize(k)]) && FiniteElements(k, bytes[ElementSize(k)..])
  {
    hide FiniteElement;
    FirstElement(|bytes|, ElementSize(k));
  }

  /** Written out and read again, a finite element is itself; another one is null, which no getter takes. */
  lemma {:induction false} PrintedElement(c: Casts, k: Kind, e: seq<Byte>)
    requires c.Exact() && KnownKind(k) && |e| == ElementSize(k)
    ensures if FiniteElement(k, e) then FromJson(c, k, Printed(ToJson(c, k, e))) == Ok(e)
            else FromJson(c, k, Printed(ToJson(c, k, e))).Err?
  {
    hide FromLE, ToLE, HalfToFloat, FloatToHalf, Exp16, Exp32, Finite64;
    PatternFits(e);
    match k {
      case Float =>
        FloatSurvives(c, e);
        FiniteNotNaN(FromLE(e));
      case Double =>
        DoubleSurvives(c, e);
      case HalfFloat =>
        HalfSurvives(c, e);
        WidenFinite(FromLE(e));
        FiniteComesBack(FromLE(e));
      case SignedInt(_) =>
        IntegerSurvives(c, k, e);
      case UnsignedInt(_) =>
        IntegerSurvives(c, k, e);
    }
  }

  lemma {:induction false} FiniteNotNaN(f: F32)
    ensures IsSignalling32(f) ==> Exp32(f) == 0xFF
  {
  }

  lemma {:induction false} FiniteComesBack(h: U16)
    ensures Exp16(h) != 0x1F ==> HalfComesBack(h)
  {
  }

  /** An array that went through its text decodes to the bytes it was made of exactly when all the
      elements are finite, and is refused otherwise. */
  lemma {:induction false} PrintedRoundTrip(c: Casts, k: Kind, bytes: seq<Byte>)
    requires c.Exact() && KnownKind(k) && |bytes| % ElementSize(k) == 0
    ensures if FiniteElements(k, bytes) then WriteAll(c, k, PrintedAll(ReadAll(c, k, bytes))) == Ok(bytes)
            else WriteAll(c, k, PrintedAll(ReadAll(c, k, bytes))).Err?
    decreases |bytes|
  {
    hide ToJson, FromJson, Printed, FiniteElement, Casts.Exact, KnownKind;
    if bytes == [] {
      ReadAllNothing(c, k);
    } else {
      hide FiniteElements, ReadAll;
      var w := ElementSize(k);
      FiniteStep(k, bytes);
      ReadAllStep(c, k, bytes);
      var first, rest := bytes[..w], bytes[w..];
      assert bytes == first + rest;
      PrintedElement(c, k, first);
      PrintedRoundTrip(c, k, rest);
      var data := PrintedAll(ReadAll(c, k, bytes));
      assert data[0] == Printed(ToJson(c, k, first));
      assert data[1..] == PrintedAll(ReadAll(c, k, rest));
    }
  }

  /** What the encoder builds, the library can write. */
  lemma {:induction false} ReadWritable(c: Casts, k: Kind, bytes: seq<Byte>, isText: string -> bool)
    requires KnownKind(k) && |bytes| % ElementSize(k) == 0
    ensures AllWritable(isText, ReadAll(c, k, bytes))
    decreases |bytes|
  {
    hide ToJson, Writable, KnownKind;
    if bytes == [] {
      ReadAllNothing(c, k);
    } else {
      hide ReadAll;
      var w := ElementSize(k);
      ReadAllStep(c, k, bytes);
      ReadWritable(c, k, bytes[w..], isText);
      ElementWritable(c, k, bytes[..w], isText);
    }
  }

  lemma {:induction false} ElementWritable(c: Casts, k: Kind, e: seq<Byte>, isText: string -> bool)
    requires KnownKind(k) && |e| == ElementSize(k)
    ensures Writable(isText, ToJson(c, k, e))
  {
    hide FromLE, HalfToFloat, Pow256;
    ToFromLE(e);
    Widths();
  }
}
