/** The std::string operations the wire code is written with: substring search,
    ASCII lower-casing, and blocks of CRLF-separated lines. */
module Text {
  import opened Wrappers

  const CRLF: string := "\r\n"
  const BLANK: string := "\r\n\r\n"

  /** Pattern `p` stands in `s` at offset `i`. */
  predicate At(s: string, p: string, i: nat) {
    i + |p| <= |s| && s[i..i + |p|] == p
  }

  /** std::string::find: the first occurrence at or after `from`. */
  function Find(s: string, p: string, from: nat): (r: Option<nat>)
    ensures r.Some? ==> from <= r.value && r.value + |p| <= |s| && At(s, p, r.value) && forall i :: from <= i < r.value ==> !At(s, p, i)
    ensures r.None? ==> forall i :: from <= i ==> !At(s, p, i)
    decreases if from <= |s| then |s| - from + 1 else 0
  {
    if from + |p| > |s| then None
    else if At(s, p, from) then Some(from)
    else Find(s, p, from + 1)
  }

  predicate Contains(s: string, p: string) {
    Find(s, p, 0).Some?
  }

  lemma {:induction false} AtChar(s: string, p: string, i: nat, k: nat)
    requires At(s, p, i) && k < |p|
    ensures s[i + k] == p[k]
  {
    assert s[i..i + |p|][k] == p[k];
  }

  lemma {:induction false} NotAt(s: string, p: string, i: nat, k: nat)
    requires k < |p| && i + k < |s| && s[i + k] != p[k]
    ensures !At(s, p, i)
  {
    hide At;
    if At(s, p, i) {
      AtChar(s, p, i, k);
    }
  }

  /** Only the bytes under the pattern matter. */
  lemma {:induction false} AtLeft(a: string, b: string, p: string, i: nat)
    requires i + |p| <= |a|
    ensures At(a + b, p, i) <==> At(a, p, i)
  {
    assert (a + b)[i..i + |p|] == a[i..i + |p|];
  }

  lemma {:induction false} AtRight(a: string, b: string, p: string, i: nat)
    ensures At(a + b, p, |a| + i) <==> At(b, p, i)
  {
    if i + |p| <= |b| {
      assert (a + b)[|a| + i..|a| + i + |p|] == b[i..i + |p|];
    }
  }

  /** A search that succeeded is not disturbed by appending bytes. */
  lemma {:induction false} FindExtend(a: string, b: string, p: string, from: nat)
    requires Find(a, p, from).Some?
    ensures Find(a + b, p, from) == Find(a, p, from)
  {
    var i := Find(a, p, from).value;
    AtLeft(a, b, p, i);
    forall j | from <= j < i
      ensures !At(a + b, p, j)
    {
      AtLeft(a, b, p, j);
    }
  }

  lemma {:induction false} FindShift(pre: string, s: string, p: string, i: nat)
    requires Find(s, p, 0) == Some(i)
    ensures Find(pre + s, p, |pre|) == Some(|pre| + i)
  {
    hide *;
    AtRight(pre, s, p, i);
    forall j | |pre| <= j < |pre| + i
      ensures !At(pre + s, p, j)
    {
      AtRight(pre, s, p, j - |pre|);
    }
  }

  lemma {:induction false} FindShiftNone(pre: string, s: string, p: string)
    requires Find(s, p, 0).None?
    ensures Find(pre + s, p, |pre|).None?
  {
    hide *;
    if Find(pre + s, p, |pre|).Some? {
      AtRight(pre, s, p, Find(pre + s, p, |pre|).value - |pre|);
    }
  }

  function LowerChar(c: char): (r: char) {
    if 'A' <= c <= 'Z' then c - 'A' + 'a' else c
  }

  function ToLower(s: string): (r: string)
    ensures |r| == |s|
    ensures forall i :: 0 <= i < |s| ==> r[i] == LowerChar(s[i])
  {
    seq(|s|, i requires 0 <= i < |s| => LowerChar(s[i]))
  }

  lemma {:induction false} LowerConcat(a: string, b: string)
    ensures ToLower(a + b) == ToLower(a) + ToLower(b)
  {
  }

  /** Text that can stand inside one header line. */
  predicate Inline(s: string) {
    forall i :: 0 <= i < |s| ==> s[i] != '\r' && s[i] != '\n'
  }

  predicate IsLine(s: string) {
    s != "" && Inline(s)
  }

  predicate AllLines(ls: seq<string>) {
    forall i :: 0 <= i < |ls| ==> IsLine(ls[i])
  }

  /** The lines of a header block, separated (not ended) by CRLF. */
  function Join(ls: seq<string>): string {
    if ls == [] then "" else if |ls| == 1 then ls[0] else ls[0] + CRLF + Join(ls[1..])
  }

  function Concat(pieces: seq<string>): string {
    if pieces == [] then "" else pieces[0] + Concat(pieces[1..])
  }

  lemma {:induction false} ConcatMore(pieces: seq<string>, last: string)
    ensures Concat(pieces + [last]) == Concat(pieces) + last
  {
    if pieces == [] {
      assert [last][1..] == [];
      assert pieces + [last] == [last];
    } else {
      assert (pieces + [last])[1..] == pieces[1..] + [last];
      ConcatMore(pieces[1..], last);
    }
  }

  /** No blank line in a header block that is cut short. */
  lemma {:induction false} NoBlankInCut(ls: seq<string>, m: nat)
    requires ls != [] && AllLines(ls) && m < |Join(ls)| + 4
    ensures Find((Join(ls) + BLANK)[..m], BLANK, 0).None?
  {
    hide Join, At;
    var whole := Join(ls) + BLANK;
    assert whole + "" == whole;
    FirstBlankLine(ls, "");
    assert whole == whole[..m] + whole[m..];
    if Find(whole[..m], BLANK, 0).Some? {
      FindExtend(whole[..m], whole[m..], BLANK, 0);
    }
  }

  /** The blank line that ends a header block is the first blank line in the message. */
  lemma {:induction false} FirstBlankLine(ls: seq<string>, rest: string)
    requires ls != [] && AllLines(ls)
    ensures Find(Join(ls) + BLANK + rest, BLANK, 0) == Some(|Join(ls)|)
  {
    var head := Join(ls);
    var s := head + BLANK + rest;
    assert At(s, BLANK, |head|);
    forall i | 0 <= i < |head|
      ensures !At(s, BLANK, i)
    {
      if At(s, BLANK, i) {
        AtChar(s, BLANK, i, 0);
        AtChar(s, BLANK, i, 1);
        AtChar(s, BLANK, i, 2);
        NoBlankInside(ls, i, BLANK + rest);
      }
    }
  }

  /** Inside a block of non-empty lines a CRLF is followed by the text of a line. */
  lemma {:induction false} NoBlankInside(ls: seq<string>, i: nat, rest: string)
    requires ls != [] && AllLines(ls) && i < |Join(ls)|
    requires rest != "" && rest[0] == '\r'
    requires i + 2 < |Join(ls) + rest|
    ensures (Join(ls) + rest)[i] == '\r' ==> (Join(ls) + rest)[i + 2] != '\r'
  {
    if |ls| > 1 {
      var tail := Join(ls[1..]);
      assert ls[1] == ls[1..][0];
      JoinHead(ls[1..]);
      assert Join(ls) + rest == ls[0] + CRLF + (tail + rest);
      if i >= |ls[0]| + 2 {
        NoBlankInside(ls[1..], i - |ls[0]| - 2, rest);
      }
    }
  }

  lemma {:induction false} JoinHead(ls: seq<string>)
    requires ls != [] && AllLines(ls)
    ensures Join(ls) != "" && Join(ls)[0] == ls[0][0]
  {
  }
}
