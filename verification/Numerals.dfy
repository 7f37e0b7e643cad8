/** Decimal and hexadecimal numerals: printing, and the C++ std::stoi / std::stol /
    std::stoul readers on a platform with 32-bit int and 64-bit long. */
module Numerals {
  import opened Wrappers

  const NOT_A_DIGIT: nat := 99

  function DigitOf(c: char): nat {
    if '0' <= c <= '9' then (c - '0') as int
    else if 'a' <= c <= 'f' then (c - 'a') as int + 10
    else if 'A' <= c <= 'F' then (c - 'A') as int + 10
    else NOT_A_DIGIT
  }

  predicate IsDigit(c: char, base: nat) {
    DigitOf(c) < base
  }

  predicate IsBase(base: nat) {
    base == 10 || base == 16
  }

  predicate IsToken(ds: string, base: nat) {
    ds != "" && forall i :: 0 <= i < |ds| ==> IsDigit(ds[i], base)
  }

  function ValueOf(ds: string, base: nat): nat {
    if ds == "" then 0 else ValueOf(ds[..|ds| - 1], base) * base + DigitOf(ds[|ds| - 1])
  }

  function DigitChar(d: nat): (c: char)
    requires d < 16
    ensures DigitOf(c) == d
  {
    if d < 10 then '0' + d as char else 'a' + (d - 10) as char
  }

  function Print(n: nat, base: nat): (s: string)
    requires IsBase(base)
    ensures IsToken(s, base) && ValueOf(s, base) == n
  {
    if n < base then
      var s := [DigitChar(n)];
      assert s[..0] == "";
      s
    else
      assert n / base < n;
      var q := Print(n / base, base);
      var s := q + [DigitChar(n % base)];
      assert s[..|s| - 1] == q;
      s
  }

  function Decimal(n: nat): string {
    Print(n, 10)
  }

  function Hex(n: nat): string {
    Print(n, 16)
  }

  predicate IsSpace(c: char) {
    c == ' ' || ('\t' <= c <= '\r')
  }

  predicate AllSpace(s: string) {
    forall i :: 0 <= i < |s| ==> IsSpace(s[i])
  }

  function SkipSpace(s: string): string {
    if s != "" && IsSpace(s[0]) then SkipSpace(s[1..]) else s
  }

  /** The longest prefix made of digits. */
  function DigitRun(s: string, base: nat): (r: string) {
    if s != "" && IsDigit(s[0], base) then [s[0]] + DigitRun(s[1..], base) else ""
  }

  /** What strtol / strtoul read: white space, a sign, "0x" in base 16, digits.
      The pair is (negative, magnitude); None when there is no digit. */
  function Scan(s: string, base: nat): Option<(bool, nat)> {
    var t := SkipSpace(s);
    var neg := t != "" && t[0] == '-';
    var u := if neg || (t != "" && t[0] == '+') then t[1..] else t;
    var v := if base == 16 && |u| >= 3 && u[0] == '0' && (u[1] == 'x' || u[1] == 'X') && IsDigit(u[2], 16)
             then u[2..] else u;
    var ds := DigitRun(v, base);
    if ds == "" then None else Some((neg, ValueOf(ds, base)))
  }

  const INT_LIMIT: int := 0x8000_0000
  const LONG_LIMIT: int := 0x8000_0000_0000_0000
  const ULONG_LIMIT: int := 0x1_0000_0000_0000_0000

  function Signed(s: string, limit: int): Option<int> {
    var r :- Scan(s, 10);
    var m: int := r.1;
    var v := if r.0 then -m else m;
    if -limit <= v < limit then Some(v) else None
  }

  function Stoi(s: string): Option<int> {
    Signed(s, INT_LIMIT)
  }

  function Stol(s: string): Option<int> {
    Signed(s, LONG_LIMIT)
  }

  /** std::stoul in base 16; a minus sign negates modulo 2^64. */
  function StoulHex(s: string): Option<nat> {
    var r :- Scan(s, 16);
    if r.1 >= ULONG_LIMIT then None
    else if r.0 && r.1 != 0 then Some(ULONG_LIMIT - r.1)
    else Some(r.1)
  }

  lemma {:induction false} SkipSpacePrefix(ws: string, rest: string)
    requires AllSpace(ws)
    requires rest == "" || !IsSpace(rest[0])
    ensures SkipSpace(ws + rest) == rest
  {
    if ws != "" {
      assert (ws + rest)[1..] == ws[1..] + rest;
      SkipSpacePrefix(ws[1..], rest);
    } else {
      assert ws + rest == rest;
    }
  }

  lemma {:induction false} DigitRunPrefix(ds: string, rest: string, base: nat)
    requires forall i :: 0 <= i < |ds| ==> IsDigit(ds[i], base)
    requires rest == "" || !IsDigit(rest[0], base)
    ensures DigitRun(ds + rest, base) == ds
  {
    if ds != "" {
      assert (ds + rest)[1..] == ds[1..] + rest;
      DigitRunPrefix(ds[1..], rest, base);
    } else {
      assert ds + rest == rest;
    }
  }

  /** What follows the numeral is not read as part of it: no digit and, after a hexadecimal "0", no
      "x" with a digit behind it. */
  predicate Ends(ds: string, rest: string, base: nat) {
    && (rest == "" || !IsDigit(rest[0], base))
    && !(base == 16 && ds == "0" && |rest| >= 2 && (rest[0] == 'x' || rest[0] == 'X') && IsDigit(rest[1], 16))
  }

  lemma {:induction false} NoHexMark(ds: string, rest: string, base: nat)
    requires IsToken(ds, base) && Ends(ds, rest, base)
    ensures var u := ds + rest;
            !(base == 16 && |u| >= 3 && u[0] == '0' && (u[1] == 'x' || u[1] == 'X') && IsDigit(u[2], 16))
  {
    if |ds| > 1 {
      assert IsDigit(ds[1], base);
    } else {
      assert ds == [ds[0]];
    }
  }

  /** Reading back any numeral, whatever white space precedes it and whatever follows its end. */
  lemma {:induction false} ScanToken(ws: string, ds: string, rest: string, base: nat)
    requires IsBase(base) && AllSpace(ws) && IsToken(ds, base) && Ends(ds, rest, base)
    ensures Scan(ws + ds + rest, base) == Some((false, ValueOf(ds, base)))
  {
    hide ValueOf;
    assert ws + ds + rest == ws + (ds + rest);
    assert IsDigit(ds[0], base);
    SkipSpacePrefix(ws, ds + rest);
    NoHexMark(ds, rest, base);
    DigitRunPrefix(ds, rest, base);
  }

  /** A sign before the numeral. */
  lemma {:induction false} ScanSigned(ws: string, sign: char, ds: string, rest: string)
    requires AllSpace(ws) && (sign == '-' || sign == '+') && IsToken(ds, 10) && Ends(ds, rest, 10)
    ensures Scan(ws + ([sign] + (ds + rest)), 10) == Some((sign == '-', ValueOf(ds, 10)))
  {
    hide ValueOf;
    SkipSpacePrefix(ws, [sign] + (ds + rest));
    assert ([sign] + (ds + rest))[1..] == ds + rest;
    DigitRunPrefix(ds, rest, 10);
  }

  /** stoi and stol: the signed value when it is in range, and an exception when it is not. */
  lemma {:induction false} ReadsSigned(ws: string, sign: string, ds: string, rest: string, limit: int)
    requires AllSpace(ws) && sign in ["", "+", "-"] && IsToken(ds, 10) && Ends(ds, rest, 10)
    ensures var m: int := ValueOf(ds, 10);
            var v := if sign == "-" then -m else m;
            Signed(ws + (sign + (ds + rest)), limit) == if -limit <= v < limit then Some(v) else None
  {
    hide ValueOf, Scan;
    if sign == "" {
      ScanToken(ws, ds, rest, 10);
      assert ws + (sign + (ds + rest)) == ws + ds + rest;
    } else {
      assert sign == [sign[0]];
      ScanSigned(ws, sign[0], ds, rest);
    }
  }

  /** stoul: no value beyond 64 bits, and a minus sign taken modulo 2^64. */
  lemma {:induction false} ReadsHex(ds: string, rest: string)
    requires IsToken(ds, 16) && Ends(ds, rest, 16)
    ensures StoulHex(ds + rest) == if ValueOf(ds, 16) < ULONG_LIMIT then Some(ValueOf(ds, 16)) else None
    ensures 0 < ValueOf(ds, 16) < ULONG_LIMIT ==> StoulHex("-" + (ds + rest)) == Some(ULONG_LIMIT - ValueOf(ds, 16))
  {
    hide ValueOf, DigitRun, IsToken;
    ScanToken("", ds, rest, 16);
    assert "" + ds + rest == ds + rest;
    ScanMinus(ds, rest);
  }

  lemma {:induction false} ScanMinus(ds: string, rest: string)
    requires IsToken(ds, 16) && Ends(ds, rest, 16)
    ensures Scan("-" + (ds + rest), 16) == Some((true, ValueOf(ds, 16)))
  {
    hide ValueOf;
    SkipSpacePrefix("", "-" + (ds + rest));
    assert "" + ("-" + (ds + rest)) == "-" + (ds + rest);
    assert ("-" + (ds + rest))[1..] == ds + rest;
    NoHexMark(ds, rest, 16);
    DigitRunPrefix(ds, rest, 16);
  }

  /** Text in which no number stands where one is looked for. */
  predicate NoNumber(s: string, base: nat) {
    s == "" || (!IsSpace(s[0]) && s[0] != '-' && s[0] != '+' && !IsDigit(s[0], base))
  }

  /** There the readers throw. */
  lemma {:induction false} ScansNothing(ws: string, s: string, base: nat)
    requires AllSpace(ws) && NoNumber(s, base) && base >= 1
    ensures Scan(ws + s, base) == None
  {
    SkipSpacePrefix(ws, s);
  }

  /** The hexadecimal mark is skipped. */
  lemma {:induction false} ScanMarked(ws: string, x: char, ds: string, rest: string)
    requires AllSpace(ws) && (x == 'x' || x == 'X') && IsToken(ds, 16) && (rest == "" || !IsDigit(rest[0], 16))
    ensures Scan(ws + (['0', x] + (ds + rest)), 16) == Some((false, ValueOf(ds, 16)))
  {
    hide ValueOf;
    var u := ['0', x] + (ds + rest);
    SkipSpacePrefix(ws, u);
    assert u[2] == ds[0] && IsDigit(ds[0], 16);
    assert u[2..] == ds + rest;
    DigitRunPrefix(ds, rest, 16);
  }

  /** Digits of both cases, and the characters that count as white space. */
  lemma {:induction false} Characters()
    ensures IsToken("0123456789abcdefABCDEF", 16) && ValueOf("fA", 16) == 250
    ensures AllSpace(" \t\r\n")
  {
    assert "fA"[..1] == "f" && "f"[..0] == "";
    assert ValueOf("f", 16) == 15;
  }

  lemma {:induction false} StoiDecimal(n: nat, rest: string)
    requires n < INT_LIMIT
    requires rest == "" || !IsDigit(rest[0], 10)
    ensures Stoi(Decimal(n) + rest) == Some(n)
  {
    ScanToken("", Decimal(n), rest, 10);
    assert "" + Decimal(n) + rest == Decimal(n) + rest;
  }
}
