/** The binary tensor data extension: tensor nodes beside one concatenated blob, and the slicing of a
    response blob. */
module BinaryExtension {
  import opened Wrappers
  import opened LittleEndian
  import opened Json
  import opened TensorCodec

  datatype Tensor = Tensor(name: string, datatype_: string, shape: seq<int>, data: seq<Byte>)

  lemma {:induction false} AppendTensors(a: seq<Tensor>, b: seq<Tensor>, r: Result<seq<Tensor>>)
    ensures r.Ok? ==> a + (b + r.value) == a + b + r.value
    ensures r.Ok? ==> [] + r.value == r.value
  {
  }

  // ---- bytes in a std::string ----

  function ToText(bs: seq<Byte>): (s: string)
    ensures |s| == |bs|
  {
    seq(|bs|, i requires 0 <= i < |bs| => bs[i] as char)
  }

  function ToBytes(s: string): (bs: seq<Byte>)
    ensures |bs| == |s|
  {
    seq(|s|, i requires 0 <= i < |s| => s[i] as int % 256)
  }

  lemma {:induction false} TextCarriesBytes(bs: seq<Byte>)
    ensures ToBytes(ToText(bs)) == bs
  {
  }

  // ---- request side ----

  function IntArray(xs: seq<int>): (items: seq<Json>)
    ensures |items| == |xs| && forall i :: 0 <= i < |xs| ==> items[i] == Int(xs[i])
  {
    seq(|xs|, i requires 0 <= i < |xs| => Int(xs[i]))
  }

  /** The node of one binary tensor: no inline data, the byte count in its parameters. */
  function BinaryNode(name: string, datatype_: string, shape: seq<int>, size: nat): Json {
    Obj(map["name" := Str(name), "datatype" := Str(datatype_), "shape" := Arr(IntArray(shape)),
            "parameters" := Obj(map["binary_data_size" := Int(size)])])
  }

  method AppendBinaryInput(name: string, datatype_: string, shape: seq<int>, bytes: seq<Byte>, blob: seq<Byte>)
    returns (node: Json, grown: seq<Byte>)
    ensures node == BinaryNode(name, datatype_, shape, |bytes|)
    ensures grown == blob + bytes
  {
    node := BinaryNode(name, datatype_, shape, |bytes|);
    grown := blob + bytes;
  }

  function RequestBinaryOutput(name: string): Json {
    Obj(map["name" := Str(name), "parameters" := Obj(map["binary_data" := Bool(true)])])
  }

  // ---- reading a node ----

  /** json.value(key, fallback) for strings. */
  function StringValue(node: Json, key: string, fallback: string): Result<string> {
    if !node.Obj? then Err("cannot use value()")
    else if key !in node.members then Ok(fallback)
    else if node.members[key].Str? then Ok(node.members[key].s)
    else Err("type must be string")
  }

  /** get<int64_t>. */
  function GetLong(c: Casts, j: Json): Result<int> {
    var v :- GetInt(c, true, j);
    Ok(ToSigned(Wrap(v, 8), 8))
  }

  function GetLongs(c: Casts, items: seq<Json>): Result<seq<int>> {
    if items == [] then Ok([])
    else
      var first :- GetLong(c, items[0]);
      var rest :- GetLongs(c, items[1..]);
      Ok([first] + rest)
  }

  function ReadShape(c: Casts, node: Json): Result<seq<int>> {
    if !Has(node, "shape") then Ok([])
    else
      match node.members["shape"]
      case Arr(items) => GetLongs(c, items)
      case Null => Ok([])
      case other => GetLongs(c, [other])
  }

  /** parameters.binary_data_size, or -1 for a tensor with inline data. */
  function BinaryDataSize(c: Casts, node: Json): Result<int> {
    if !Has(node, "parameters") then Ok(-1)
    else
      var params := node.members["parameters"];
      if !Has(params, "binary_data_size") then Ok(-1) else GetLong(c, params.members["binary_data_size"])
  }

  // ---- response side ----

  function SplitBinaryBody(codec: TextCodec, body: string, headerLen: nat): Result<(Json, seq<Byte>)> {
    if headerLen > |body| then Err("invalid binary response: header length exceeds body")
    else
      match codec.parse(body[..headerLen])
      case None => Err("parse error")
      case Some(header) => Ok((header, ToBytes(body[headerLen..])))
  }

  function SliceBlob(blob: seq<Byte>, offset: nat, size: nat): Result<seq<Byte>> {
    if offset > |blob| || size > |blob| - offset then
      Err("invalid binary response: tensor slice runs past the blob")
    else Ok(blob[offset..offset + size])
  }

  /** What the node says of a tensor, apart from the bytes in the blob. */
  datatype Described = Described(name: string, datatype_: string, shape: seq<int>, size: int, inline: seq<Byte>)

  function InlineData(c: Casts, node: Json, datatype_: string): Result<seq<Byte>> {
    if Has(node, "data") && node.members["data"].Arr? then DecodeTensorData(c, node.members["data"], datatype_) else Ok([])
  }

  function Describe(c: Casts, node: Json): Result<Described> {
    var name :- StringValue(node, "name", "");
    var datatype_ :- StringValue(node, "datatype", "FP32");
    var shape :- ReadShape(c, node);
    var size :- BinaryDataSize(c, node);
    if size >= 0 then Ok(Described(name, datatype_, shape, size, []))
    else
      var inline :- InlineData(c, node, datatype_);
      Ok(Described(name, datatype_, shape, size, inline))
  }

  /** One turn of the response loop: the tensor and the new offset. */
  function TakeOutput(c: Casts, node: Json, blob: seq<Byte>, offset: nat): Result<(Tensor, nat)> {
    var d :- Describe(c, node);
    if d.size >= 0 then
      var data :- SliceBlob(blob, offset, d.size);
      Ok((Tensor(d.name, d.datatype_, d.shape, data), offset + d.size))
    else Ok((Tensor(d.name, d.datatype_, d.shape, d.inline), offset))
  }

  function TakeOutputs(c: Casts, nodes: seq<Json>, blob: seq<Byte>, offset: nat): Result<(seq<Tensor>, nat)> {
    if nodes == [] then Ok(([], offset))
    else
      var first :- TakeOutput(c, nodes[0], blob, offset);
      var rest :- TakeOutputs(c, nodes[1..], blob, first.1);
      Ok(([first.0] + rest.0, rest.1))
  }

  /** The offset loop over the outputs of a binary response. */
  method SliceOutputs(c: Casts, nodes: seq<Json>, blob: seq<Byte>) returns (r: Result<seq<Tensor>>)
    ensures r == match TakeOutputs(c, nodes, blob, 0) case Ok(p) => Ok(p.0) case Err(e) => Err(e)
  {
    hide TakeOutput;
    var outputs: seq<Tensor>, offset: nat := [], 0;
    assert nodes[0..] == nodes;
    for i := 0 to |nodes|
      invariant match TakeOutputs(c, nodes[i..], blob, offset)
                case Ok(p) =>
                  TakeOutputs(c, nodes, blob, 0).Ok? && TakeOutputs(c, nodes, blob, 0).value.0 == outputs + p.0
                case Err(e) => TakeOutputs(c, nodes, blob, 0) == Err(e)
    {
      assert nodes[i..][1..] == nodes[i + 1..];
      var out := TakeOutput(c, nodes[i], blob, offset);
      if out.Err? {
        return Err(out.error);
      }
      outputs := outputs + [out.value.0];
      offset := out.value.1;
    }
    assert nodes[|nodes|..] == [];
    assert outputs + [] == outputs;
    r := Ok(outputs);
  }

  // ---- what an output node says ----

  /** The name is the string member "name", and empty without one; the datatype likewise, FP32 without one. */
  ghost predicate Names(node: Json, name: string, datatype_: string) {
    && node.Obj?
    && (if "name" in node.members then node.members["name"] == Str(name) else name == "")
    && (if "datatype" in node.members then node.members["datatype"] == Str(datatype_) else datatype_ == "FP32")
  }

  /** get<int64_t> of an integer the library holds: beyond the range it wraps. */
  function AsLong(i: int): int {
    if i > LONG_MAX then i - 0x1_0000_0000_0000_0000 else i
  }

  predicate Held(i: int) {
    -LONG_MAX - 1 <= i < 0x1_0000_0000_0000_0000
  }

  /** The shape lists the dimensions of the member "shape", in order, or is its one value; nothing without one. */
  ghost predicate Shaped(node: Json, shape: seq<int>) {
    && node.Obj?
    && ("shape" !in node.members || node.members["shape"].Null? ==> shape == [])
    && ("shape" in node.members && node.members["shape"].Int? && Held(node.members["shape"].i) ==>
          shape == [AsLong(node.members["shape"].i)])
    && ("shape" in node.members && node.members["shape"].Arr? ==>
          var items := node.members["shape"].items;
          |shape| == |items| &&
          forall k :: 0 <= k < |items| && items[k].Int? && Held(items[k].i) ==> shape[k] == AsLong(items[k].i))
  }

  /** Inline data is what the array member "data" decodes to, and nothing without one. */
  ghost predicate HoldsInline(c: Casts, node: Json, datatype_: string, data: seq<Byte>) {
    && node.Obj?
    && if "data" in node.members && node.members["data"].Arr?
       then DecodeTensorData(c, node.members["data"], datatype_) == Ok(data)
       else data == []
  }

  /** The announced size, where the node has one. */
  ghost predicate Announces(node: Json, size: int) {
    && node.Obj?
    && (if "parameters" in node.members && node.members["parameters"].Obj? &&
           "binary_data_size" in node.members["parameters"].members
        then
          var j := node.members["parameters"].members["binary_data_size"];
          j.Int? && Held(j.i) ==> size == AsLong(j.i)
        else size == -1)
  }

  /** The node built for a binary tensor says these things of it. */
  lemma {:induction false} BinaryNodeSays(name: string, datatype_: string, shape: seq<int>, size: nat)
    ensures var node := BinaryNode(name, datatype_, shape, size);
            Names(node, name, datatype_) && "data" !in node.members && (IsLong(size) ==> Announces(node, size)) &&
            ((forall k :: 0 <= k < |shape| ==> IsLong(shape[k])) ==> Shaped(node, shape))
  {
  }

  lemma {:induction false} LongOf(c: Casts, i: int)
    requires Held(i)
    ensures GetLong(c, Int(i)) == Ok(AsLong(i))
  {
    hide ToSigned, Wrap, Pow256;
    Widths();
    if i > LONG_MAX {
      WrapSmall(i, 8);
      UpperHalf(i);
    } else {
      SignedComesBack(i, 8);
    }
  }

  lemma {:induction false} UpperHalf(i: int)
    requires LONG_MAX < i < 0x1_0000_0000_0000_0000
    ensures ToSigned(i, 8) == AsLong(i)
  {
    Widths();
  }

  lemma {:induction false} LongsInOrder(c: Casts, items: seq<Json>)
    requires GetLongs(c, items).Ok?
    ensures |GetLongs(c, items).value| == |items|
    ensures forall k :: 0 <= k < |items| && items[k].Int? && Held(items[k].i) ==> GetLongs(c, items).value[k] == AsLong(items[k].i)
  {
    hide GetLong, Held, AsLong;
    if items != [] {
      LongsInOrder(c, items[1..]);
      var longs := GetLongs(c, items).value;
      forall k | 0 <= k < |items| && items[k].Int? && Held(items[k].i)
        ensures longs[k] == AsLong(items[k].i)
      {
        if k == 0 {
          LongOf(c, items[0].i);
          assert items[0] == Int(items[0].i);
        } else {
          assert items[1..][k - 1] == items[k] && longs[k] == GetLongs(c, items[1..]).value[k - 1];
        }
      }
    }
  }

  lemma {:induction false} ShapeIsRead(c: Casts, node: Json)
    requires node.Obj? && ReadShape(c, node).Ok?
    ensures Shaped(node, ReadShape(c, node).value)
  {
    hide GetLong, Held, AsLong;
    if Has(node, "shape") {
      var j := node.members["shape"];
      if j.Arr? {
        LongsInOrder(c, j.items);
      } else if j.Int? && Held(j.i) {
        LongOf(c, j.i);
        assert j == Int(j.i);
        assert GetLongs(c, [j][1..]) == Ok([]);
      }
    }
  }

  /** A number, as get<int64_t> wants it. */
  predicate IsNumber(j: Json) {
    j.Int? || j.Num?
  }

  /** What a node must be like to be read: strings for names, numbers for dimensions and sizes, and, where its
      data is inline, an array the datatype's decoder takes. */
  predicate StringOrNone(node: Json, key: string) {
    node.Obj? && (key in node.members ==> node.members[key].Str?)
  }

  predicate ShapeReadable(node: Json) {
    node.Obj? &&
    ("shape" in node.members ==>
       match node.members["shape"]
       case Null => true
       case Arr(items) => forall k :: 0 <= k < |items| ==> IsNumber(items[k])
       case other => IsNumber(other))
  }

  predicate SizeReadable(node: Json) {
    node.Obj? &&
    ("parameters" in node.members && node.members["parameters"].Obj? &&
     "binary_data_size" in node.members["parameters"].members ==>
       IsNumber(node.members["parameters"].members["binary_data_size"]))
  }

  lemma {:induction false} LongsReadableIff(c: Casts, items: seq<Json>)
    ensures GetLongs(c, items).Ok? <==> forall k :: 0 <= k < |items| ==> IsNumber(items[k])
  {
    hide IsNumber;
    if items != [] {
      assert GetLong(c, items[0]).Ok? <==> IsNumber(items[0]) by {
        NumbersAreLongs(c, items[0]);
      }
      hide GetLong;
      LongsReadableIff(c, items[1..]);
      assert items == [items[0]] + items[1..];
    }
  }

  lemma {:induction false} NumbersAreLongs(c: Casts, j: Json)
    ensures GetLong(c, j).Ok? <==> IsNumber(j)
  {
  }

  lemma {:induction false} ShapeReadableIff(c: Casts, node: Json)
    requires node.Obj?
    ensures ReadShape(c, node).Ok? <==> ShapeReadable(node)
  {
    hide GetLong, IsNumber;
    if Has(node, "shape") {
      var j := node.members["shape"];
      LongsReadableIff(c, if j.Arr? then j.items else [j]);
      assert [j][0] == j;
    }
  }

  lemma {:induction false} SizeReadableIff(c: Casts, node: Json)
    requires node.Obj?
    ensures BinaryDataSize(c, node).Ok? <==> SizeReadable(node)
  {
    hide GetLong, IsNumber;
    if Has(node, "parameters") && Has(node.members["parameters"], "binary_data_size") {
      NumbersAreLongs(c, node.members["parameters"].members["binary_data_size"]);
    }
  }

  /** A node can be read exactly when it is like that. */
  lemma {:induction false} ReadableIff(c: Casts, node: Json)
    ensures Describe(c, node).Ok? <==>
            && StringOrNone(node, "name") && StringOrNone(node, "datatype") && ShapeReadable(node) && SizeReadable(node)
            && (BinaryDataSize(c, node).value < 0 && "data" in node.members && node.members["data"].Arr? ==>
                  DecodeTensorData(c, node.members["data"], DatatypeOf(node)).Ok?)
  {
    hide ReadShape, BinaryDataSize, DecodeTensorData, ShapeReadable, SizeReadable;
    if node.Obj? {
      ShapeReadableIff(c, node);
      SizeReadableIff(c, node);
    } else {
      NotANode(node);
    }
  }

  lemma {:induction false} NotANode(node: Json)
    requires !node.Obj?
    ensures !ShapeReadable(node) && !SizeReadable(node)
  {
  }

  function DatatypeOf(node: Json): string {
    if node.Obj? && "datatype" in node.members && node.members["datatype"].Str? then node.members["datatype"].s else "FP32"
  }

  lemma {:induction false} SizeIsRead(c: Casts, node: Json)
    requires node.Obj? && BinaryDataSize(c, node).Ok?
    ensures Announces(node, BinaryDataSize(c, node).value)
  {
    hide GetLong, Held, AsLong;
    if Has(node, "parameters") && Has(node.members["parameters"], "binary_data_size") {
      var j := node.members["parameters"].members["binary_data_size"];
      if j.Int? && Held(j.i) {
        LongOf(c, j.i);
        assert j == Int(j.i);
      }
    }
  }

  /** One output of a binary response in plain words: its name, datatype and shape are those of the node; with an
      announced size its bytes are the slice at the offset, which moves behind it, and without one they are
      its inline data, and the offset stays. */
  lemma {:induction false} OutputIsNode(c: Casts, node: Json, blob: seq<Byte>, offset: nat)
    requires TakeOutput(c, node, blob, offset).Ok?
    ensures var (out, next) := TakeOutput(c, node, blob, offset).value;
            && Names(node, out.name, out.datatype_) && Shaped(node, out.shape)
            && exists size :: Announces(node, size) &&
                 if size >= 0 then next == offset + size <= |blob| && out.data == blob[offset..next]
                 else next == offset && HoldsInline(c, node, out.datatype_, out.data)
  {
    hide GetLongs, GetLong, IsLong, DecodeTensorData, Shaped, Announces, ReadShape, BinaryDataSize;
    ShapeIsRead(c, node);
    SizeIsRead(c, node);
    assert Announces(node, BinaryDataSize(c, node).value);
  }

  // ---- conservation ----

  /** Every output can be read, its bytes in the blob aside. */
  ghost predicate Readable(c: Casts, nodes: seq<Json>) {
    forall i :: 0 <= i < |nodes| ==> Describe(c, nodes[i]).Ok?
  }

  function BlobShare(c: Casts, node: Json): nat {
    match Describe(c, node)
    case Ok(d) => if d.size >= 0 then d.size else 0
    case Err(_) => 0
  }

  function BlobTotal(c: Casts, nodes: seq<Json>): nat {
    if nodes == [] then 0 else BlobShare(c, nodes[0]) + BlobTotal(c, nodes[1..])
  }

  /** The bytes of the outputs that came out of the blob, in order. */
  function FromBlob(c: Casts, nodes: seq<Json>, outs: seq<Tensor>): seq<Byte>
    requires |outs| == |nodes|
  {
    if nodes == [] then []
    else (if BinaryDataSize(c, nodes[0]).Ok? && BinaryDataSize(c, nodes[0]).value >= 0 then outs[0].data else []) +
         FromBlob(c, nodes[1..], outs[1..])
  }

  /** A response either has an output that cannot be read, or announces more bytes than the blob has,
      or is taken apart; the first two are the only ways to fail. */
  lemma {:induction false} SlicingSucceedsIff(c: Casts, nodes: seq<Json>, blob: seq<Byte>, offset: nat)
    requires offset <= |blob|
    ensures TakeOutputs(c, nodes, blob, offset).Ok? <==>
            Readable(c, nodes) && offset + BlobTotal(c, nodes) <= |blob|
    decreases nodes
  {
    hide Describe;
    if nodes != [] {
      ReadableStep(c, nodes);
      var first := TakeOutput(c, nodes[0], blob, offset);
      if first.Ok? {
        SlicingSucceedsIff(c, nodes[1..], blob, first.value.1);
      }
    }
  }

  lemma {:induction false} ReadableStep(c: Casts, nodes: seq<Json>)
    requires nodes != []
    ensures Readable(c, nodes) <==> Describe(c, nodes[0]).Ok? && Readable(c, nodes[1..])
  {
    hide Describe;
    assert nodes == [nodes[0]] + nodes[1..];
  }

  /** Conservation: binary outputs take consecutive slices that together are exactly the announced part
      of the blob, inline outputs take nothing. */
  lemma {:induction false} SlicesPartitionBlob(c: Casts, nodes: seq<Json>, blob: seq<Byte>, offset: nat)
    requires offset <= |blob| && TakeOutputs(c, nodes, blob, offset).Ok?
    ensures TakeOutputs(c, nodes, blob, offset).value.1 == offset + BlobTotal(c, nodes) <= |blob|
    ensures |TakeOutputs(c, nodes, blob, offset).value.0| == |nodes|
    ensures FromBlob(c, nodes, TakeOutputs(c, nodes, blob, offset).value.0) ==
            blob[offset..offset + BlobTotal(c, nodes)]
    decreases nodes
  {
    hide Describe, BinaryDataSize, TakeOutput, BlobShare;
    if nodes != [] {
      var first := TakeOutput(c, nodes[0], blob, offset).value;
      OneShare(c, nodes[0], blob, offset);
      SlicesPartitionBlob(c, nodes[1..], blob, first.1);
      var rest := TakeOutputs(c, nodes[1..], blob, first.1).value.0;
      assert TakeOutputs(c, nodes, blob, offset).value.0 == [first.0] + rest;
      assert BlobTotal(c, nodes) == BlobShare(c, nodes[0]) + BlobTotal(c, nodes[1..]);
      hide TakeOutputs, BlobTotal;
      FromBlobStep(c, nodes, first.0, rest);
      hide FromBlob;
      JoinSlices(blob, offset, first.1, offset + BlobTotal(c, nodes));
    }
  }

  lemma {:induction false} FromBlobStep(c: Casts, nodes: seq<Json>, first: Tensor, rest: seq<Tensor>)
    requires nodes != [] && |rest| == |nodes| - 1
    ensures FromBlob(c, nodes, [first] + rest) ==
            (if BinaryDataSize(c, nodes[0]).Ok? && BinaryDataSize(c, nodes[0]).value >= 0 then first.data else []) +
            FromBlob(c, nodes[1..], rest)
  {
    hide BinaryDataSize;
    assert ([first] + rest)[1..] == rest;
  }

  lemma {:induction false} JoinSlices(blob: seq<Byte>, i: nat, j: nat, k: nat)
    requires i <= j <= k <= |blob|
    ensures blob[i..k] == blob[i..j] + blob[j..k]
  {
  }

  lemma {:induction false} DescribedSize(c: Casts, node: Json)
    ensures Describe(c, node).Ok? ==> BinaryDataSize(c, node) == Ok(Describe(c, node).value.size)
  {
  }

  lemma {:induction false} OneShare(c: Casts, node: Json, blob: seq<Byte>, offset: nat)
    requires offset <= |blob| && TakeOutput(c, node, blob, offset).Ok?
    ensures BinaryDataSize(c, node).Ok?
    ensures TakeOutput(c, node, blob, offset).value.1 == offset + BlobShare(c, node) <= |blob|
    ensures if BinaryDataSize(c, node).value >= 0
            then TakeOutput(c, node, blob, offset).value.0.data == blob[offset..offset + BlobShare(c, node)]
            else BlobShare(c, node) == 0
  {
    DescribedSize(c, node);
    hide Describe, BinaryDataSize;
  }

  /** Each single output: a binary one is the slice that starts where the shares before it end, an
      inline one is what its own node holds. */
  lemma {:induction false} EachSlice(c: Casts, nodes: seq<Json>, blob: seq<Byte>, offset: nat, k: nat)
    requires offset <= |blob| && TakeOutputs(c, nodes, blob, offset).Ok? && k < |nodes|
    ensures |TakeOutputs(c, nodes, blob, offset).value.0| == |nodes| && Describe(c, nodes[k]).Ok?
    ensures var d := Describe(c, nodes[k]).value;
            var out := TakeOutputs(c, nodes, blob, offset).value.0[k];
            var at := offset + BlobTotal(c, nodes[..k]);
            out.name == d.name && out.datatype_ == d.datatype_ && out.shape == d.shape &&
            if d.size >= 0 then at + d.size <= |blob| && out.data == blob[at..at + d.size] else out.data == d.inline
    decreases nodes
  {
    hide Describe, FromBlob;
    SlicesPartitionBlob(c, nodes, blob, offset);
    var first := TakeOutput(c, nodes[0], blob, offset).value;
    if k == 0 {
      assert nodes[..0] == [];
    } else {
      EachSlice(c, nodes[1..], blob, first.1, k - 1);
      assert nodes[..k][1..] == nodes[1..][..k - 1];
    }
  }

  // ---- round trip ----

  const LONG_MAX: int := 0x7FFF_FFFF_FFFF_FFFF

  ghost predicate Encodable(ts: seq<Tensor>) {
    forall i :: 0 <= i < |ts| ==> |ts[i].data| <= LONG_MAX && forall k :: 0 <= k < |ts[i].shape| ==> IsLong(ts[i].shape[k])
  }

  predicate IsLong(v: int) {
    -LONG_MAX - 1 <= v <= LONG_MAX
  }

  function Nodes(ts: seq<Tensor>): (nodes: seq<Json>)
    ensures |nodes| == |ts|
  {
    if ts == [] then []
    else [BinaryNode(ts[0].name, ts[0].datatype_, ts[0].shape, |ts[0].data|)] + Nodes(ts[1..])
  }

  function Blob(ts: seq<Tensor>): seq<Byte> {
    if ts == [] then [] else ts[0].data + Blob(ts[1..])
  }

  lemma {:induction false} LongComesBack(c: Casts, v: int)
    requires IsLong(v)
    ensures GetLong(c, Int(v)) == Ok(v)
  {
    hide ToSigned, Wrap;
    Widths();
    SignedComesBack(v, 8);
  }

  lemma {:induction false} LongsComeBack(c: Casts, xs: seq<int>)
    requires forall k :: 0 <= k < |xs| ==> IsLong(xs[k])
    ensures GetLongs(c, IntArray(xs)) == Ok(xs)
  {
    hide GetLong;
    if xs != [] {
      LongComesBack(c, xs[0]);
      assert IntArray(xs)[1..] == IntArray(xs[1..]);
      LongsComeBack(c, xs[1..]);
      assert [xs[0]] + xs[1..] == xs;
    }
  }

  lemma {:induction false} NodeDescribes(c: Casts, t: Tensor)
    requires |t.data| <= LONG_MAX && forall k :: 0 <= k < |t.shape| ==> IsLong(t.shape[k])
    ensures Describe(c, BinaryNode(t.name, t.datatype_, t.shape, |t.data|)) ==
            Ok(Described(t.name, t.datatype_, t.shape, |t.data|, []))
  {
    hide GetLong, GetLongs;
    LongsComeBack(c, t.shape);
    LongComesBack(c, |t.data|);
  }

  lemma {:induction false} BlobParts(before: seq<Byte>, own: seq<Byte>, rest: seq<Byte>, after: seq<Byte>)
    ensures before + (own + rest) + after == (before + own) + rest + after
    ensures ((before + own) + rest + after)[|before|..|before| + |own|] == own
  {
  }

  /** Any tensors of any sizes come back from their nodes and the blob, in order, whatever stands
      before and after them in it. */
  lemma {:induction false} BinaryRoundTrip(c: Casts, ts: seq<Tensor>, before: seq<Byte>, after: seq<Byte>)
    requires Encodable(ts)
    ensures TakeOutputs(c, Nodes(ts), before + Blob(ts) + after, |before|) == Ok((ts, |before| + |Blob(ts)|))
    decreases ts
  {
    hide Describe, BinaryNode;
    if ts != [] {
      var t := ts[0];
      NodeDescribes(c, t);
      BlobParts(before, t.data, Blob(ts[1..]), after);
      BinaryRoundTrip(c, ts[1..], before + t.data, after);
      assert [t] + ts[1..] == ts;
    }
  }

  /** Framing after the JSON header and splitting it off again: the document as its text says it, and the blob. */
  lemma {:induction false} SplitFramed(codec: TextCodec, header: Json, blob: seq<Byte>)
    requires codec.Inverts() && codec.Accepts(header)
    ensures SplitBinaryBody(codec, codec.dump(header) + ToText(blob), |codec.dump(header)|) == Ok((Printed(header), blob))
  {
    hide Printed, Writable;
    var text := codec.dump(header);
    var body := text + ToText(blob);
    assert body[..|text|] == text;
    assert body[|text|..] == ToText(blob);
    TextCarriesBytes(blob);
    assert codec.parse(codec.dump(header)) == Some(Printed(header));
  }

  /** Names and datatypes the JSON library takes as text. */
  ghost predicate AllText(codec: TextCodec, ts: seq<Tensor>) {
    forall i :: 0 <= i < |ts| ==> codec.isText(ts[i].name) && codec.isText(ts[i].datatype_)
  }

  lemma {:induction false} IntsPrinted(xs: seq<int>)
    ensures Printed(Arr(IntArray(xs))) == Arr(IntArray(xs))
  {
    PrintedArr(IntArray(xs));
    PrintedSame(IntArray(xs));
  }

  /** A binary node holds no number but integers: its text says exactly what it is. */
  lemma {:induction false} BinaryNodePrinted(name: string, datatype_: string, shape: seq<int>, size: nat)
    ensures Printed(BinaryNode(name, datatype_, shape, size)) == BinaryNode(name, datatype_, shape, size)
  {
    IntsPrinted(shape);
    var node := BinaryNode(name, datatype_, shape, size);
    var parameters := map["binary_data_size" := Int(size)];
    assert Printed(Obj(parameters)).members == parameters;
    assert Printed(node).members == node.members;
  }

  lemma {:induction false} IntsWritable(isText: string -> bool, xs: seq<int>)
    requires forall k :: 0 <= k < |xs| ==> IsLong(xs[k])
    ensures Writable(isText, Arr(IntArray(xs)))
  {
  }

  lemma {:induction false} BinaryNodeWritable(codec: TextCodec, t: Tensor)
    requires codec.Inverts() && codec.isText(t.name) && codec.isText(t.datatype_)
    requires |t.data| <= LONG_MAX && forall k :: 0 <= k < |t.shape| ==> IsLong(t.shape[k])
    ensures codec.Accepts(BinaryNode(t.name, t.datatype_, t.shape, |t.data|))
  {
    hide Printed, IsLong, Writable;
    IntsWritable(codec.isText, t.shape);
    NodeKeys(codec);
    hide TextCodec.Inverts;
    LeafWritable(codec.isText, t.name, |t.data|);
    LeafWritable(codec.isText, t.datatype_, 0);
    ObjWritable(codec.isText, map["binary_data_size" := Int(|t.data|)]);
    ObjWritable(codec.isText, BinaryNode(t.name, t.datatype_, t.shape, |t.data|).members);
  }

  lemma {:induction false} NodeKeys(codec: TextCodec)
    requires codec.Inverts()
    ensures codec.isText("name") && codec.isText("datatype") && codec.isText("shape") && codec.isText("parameters")
    ensures codec.isText("binary_data_size") && codec.isText("data") && codec.isText("outputs")
  {
    hide Printed, Writable;
    assert Ascii("name") && Ascii("datatype") && Ascii("shape") && Ascii("parameters");
    assert Ascii("binary_data_size") && Ascii("data") && Ascii("outputs");
  }

  lemma {:induction false} NodesAsText(codec: TextCodec, ts: seq<Tensor>)
    requires codec.Inverts() && Encodable(ts) && AllText(codec, ts)
    ensures AllWritable(codec.isText, Nodes(ts)) && PrintedAll(Nodes(ts)) == Nodes(ts)
  {
    hide TextCodec.Inverts, Printed, Writable, BinaryNode, IsLong;
    if ts != [] {
      var t := ts[0];
      BinaryNodeWritable(codec, t);
      BinaryNodePrinted(t.name, t.datatype_, t.shape, |t.data|);
      NodesAsText(codec, ts[1..]);
      forall k | 0 <= k < |ts|
        ensures Writable(codec.isText, Nodes(ts)[k]) && Printed(Nodes(ts)[k]) == Nodes(ts)[k]
      {
        if k > 0 {
          assert Nodes(ts)[k] == Nodes(ts[1..])[k - 1];
          assert PrintedAll(Nodes(ts[1..]))[k - 1] == Printed(Nodes(ts[1..])[k - 1]);
        }
      }
    }
  }

  /** The sizes the nodes announce add up to the blob. */
  lemma {:induction false} NodesAnnounceBlob(c: Casts, ts: seq<Tensor>)
    requires Encodable(ts)
    ensures BlobTotal(c, Nodes(ts)) == |Blob(ts)|
  {
    hide Describe, BinaryNode, IsLong;
    if ts != [] {
      NodeDescribes(c, ts[0]);
      NodesAnnounceBlob(c, ts[1..]);
    }
  }
}
