/** JSON documents as the client builds and reads them. Their text is not modelled: dump and parse
    are any pair of functions in which parse gives back what dump wrote. */
module Json {
  import opened Wrappers

  /** A pattern of 64 bits holding a binary64 number, and of 32 bits holding a binary32 one. */
  type F64 = x: int | 0 <= x < 0x1_0000_0000_0000_0000
  type F32 = x: int | 0 <= x < 0x1_0000_0000

  datatype Json =
    | Null
    | Bool(b: bool)
    | Int(i: int)
    | Num(bits: F64)
    | Str(s: string)
    | Arr(items: seq<Json>)
    | Obj(members: map<string, Json>)

  /** json.contains(key): false on anything but an object. */
  predicate Has(j: Json, key: string) {
    j.Obj? && key in j.members
  }

  /** Neither an infinity nor a NaN. */
  predicate Finite64(d: F64) {
    d / 0x10_0000_0000_0000 % 0x800 != 0x7FF
  }

  /** What the library holds and can write: integers of 64 bits, and strings that are text to it. */
  predicate Writable(isText: string -> bool, j: Json) {
    match j
    case Int(i) => -0x8000_0000_0000_0000 <= i < 0x1_0000_0000_0000_0000
    case Str(s) => isText(s)
    case Arr(items) => forall k :: 0 <= k < |items| ==> Writable(isText, items[k])
    case Obj(members) => forall key :: key in members ==> isText(key) && Writable(isText, members[key])
    case _ => true
  }

  /** The document as its text says it: infinities and NaNs are written as null. */
  function Printed(j: Json): Json {
    match j
    case Num(d) => if Finite64(d) then j else Null
    case Arr(items) => Arr(seq(|items|, k requires 0 <= k < |items| => Printed(items[k])))
    case Obj(members) => Obj(map key | key in members :: Printed(members[key]))
    case _ => j
  }

  function PrintedAll(items: seq<Json>): (printed: seq<Json>)
    ensures |printed| == |items| && forall k :: 0 <= k < |items| ==> printed[k] == Printed(items[k])
  {
    seq(|items|, k requires 0 <= k < |items| => Printed(items[k]))
  }

  predicate AllWritable(isText: string -> bool, items: seq<Json>) {
    forall k :: 0 <= k < |items| ==> Writable(isText, items[k])
  }

  predicate Ascii(s: string) {
    forall i :: 0 <= i < |s| ==> s[i] < 128 as char
  }

  /** The text codec, with the one law that is assumed of it. isText says which strings it takes, every
      ASCII one among them (for the library: those in UTF-8); dump throws on a document with another. */
  datatype TextCodec = TextCodec(dump: Json -> string, parse: string -> Option<Json>, isText: string -> bool) {
    ghost predicate Inverts() {
      && (forall j :: Writable(isText, j) ==> parse(dump(j)) == Some(Printed(j)))
      && (forall s :: Ascii(s) ==> isText(s))
    }

    predicate Accepts(j: Json) {
      Writable(isText, j)
    }
  }

  lemma {:induction false} PrintedArr(items: seq<Json>)
    ensures Printed(Arr(items)) == Arr(PrintedAll(items))
  {
    assert Printed(Arr(items)).items == PrintedAll(items);
  }

  lemma {:induction false} ArrWritable(isText: string -> bool, items: seq<Json>)
    ensures Writable(isText, Arr(items)) <==> AllWritable(isText, items)
  {
  }

  lemma {:induction false} ObjWritable(isText: string -> bool, members: map<string, Json>)
    ensures Writable(isText, Obj(members)) <==>
            forall key :: key in members ==> isText(key) && Writable(isText, members[key])
  {
  }

  lemma {:induction false} LeafWritable(isText: string -> bool, s: string, i: int)
    ensures Writable(isText, Str(s)) <==> isText(s)
    ensures -0x8000_0000_0000_0000 <= i < 0x1_0000_0000_0000_0000 ==> Writable(isText, Int(i))
  {
  }

  /** A document without an infinity or a NaN is written as it is. */
  lemma {:induction false} PrintedSame(items: seq<Json>)
    requires forall k :: 0 <= k < |items| ==> Printed(items[k]) == items[k]
    ensures PrintedAll(items) == items
  {
  }
}
