/**
  IPv4 text. `Print` is what net.IP.String gives for four bytes, `Parse` the scan that
  net.ParseIP applies to text whose first separator is a dot.
 */
module DottedQuad {
  import opened Wrappers
  import opened Words

  // ----- Printing -----

  function Digit(d: int): char
    requires 0 <= d < 10
  {
    '0' + d as char
  }

  predicate IsDigit(c: char) { '0' <= c <= '9' }

  function Value(c: char): int
    requires IsDigit(c)
  {
    (c - '0') as int
  }

  function Dec(b: Byte): (s: string)
    ensures 1 <= |s| <= 3 && forall i :: 0 <= i < |s| ==> IsDigit(s[i])
  {
    if b < 10 then [Digit(b)]
    else if b < 100 then [Digit(b / 10), Digit(b % 10)]
    else [Digit(b / 100), Digit(b / 10 % 10), Digit(b % 10)]
  }

  /** Some fields, each followed by a dot. */
  function Dotted(fields: seq<Byte>): string {
    if fields == [] then "" else Dotted(fields[..|fields| - 1]) + Dec(fields[|fields| - 1]) + "."
  }

  function PrintBytes(b: Bytes4): string { Dotted(b[..3]) + Dec(b[3]) }

  function Print(a: U32): string { PrintBytes(StoreBE32(a)) }

  // ----- Parsing -----

  /** The scan's state at position i: completed fields, value and length of the open one. */
  function ScanFrom(s: string, i: nat, fields: seq<Byte>, val: Byte, digLen: nat): Option<Bytes4>
    requires i <= |s| && |fields| <= 3
    decreases |s| - i
  {
    if i == |s| then
      if |fields| < 3 then None else Some(fields + [val])
    else if IsDigit(s[i]) then
      if digLen == 1 && val == 0 then None
      else
        var v := val as int * 10 + Value(s[i]);
        if v > 255 then None else ScanFrom(s, i + 1, fields, v, digLen + 1)
    else if s[i] == '.' then
      if i == 0 || i == |s| - 1 || s[i - 1] == '.' then None
      else if |fields| == 3 then None
      else ScanFrom(s, i + 1, fields + [val], 0, 0)
    else None
  }

  function Parse(s: string): Option<Bytes4> { if s == "" then None else ScanFrom(s, 0, [], 0, 0) }

  // ----- Only canonical text is accepted -----

  /** What has been read so far, rebuilt from the scan's state. */
  predicate Read(s: string, i: nat, fields: seq<Byte>, val: Byte, digLen: nat)
    requires i <= |s|
  {
    && (digLen == 0 ==> val == 0)
    && s[..i] == Dotted(fields) + (if digLen == 0 then "" else Dec(val))
    && (digLen > 0 ==> digLen == |Dec(val)|)
    && (0 < i ==> (digLen == 0 <==> s[i - 1] == '.'))
    && (0 < i == |s| ==> s[i - 1] != '.')
  }

  lemma DecAppend(val: Byte, c: char)
    requires IsDigit(c) && val as int * 10 + Value(c) <= 255
    ensures val != 0 ==> Dec(val as int * 10 + Value(c)) == Dec(val) + [c]
    ensures Dec(Value(c)) == [c]
    ensures Dec(0) == "0"
  {
  }

  lemma ReadDigit(s: string, i: nat, fields: seq<Byte>, val: Byte, digLen: nat)
    requires i < |s| && Read(s, i, fields, val, digLen) && IsDigit(s[i])
    requires !(digLen == 1 && val == 0) && val as int * 10 + Value(s[i]) <= 255
    ensures Read(s, i + 1, fields, val as int * 10 + Value(s[i]), digLen + 1)
  {
    DecAppend(val, s[i]);
    hide Dec, Dotted;
    assert s[..i + 1] == s[..i] + [s[i]];
  }

  lemma ReadDot(s: string, i: nat, fields: seq<Byte>, val: Byte, digLen: nat)
    requires i + 1 < |s| && Read(s, i, fields, val, digLen) && s[i] == '.'
    requires 0 < i && s[i - 1] != '.'
    ensures Read(s, i + 1, fields + [val], 0, 0)
  {
    assert s[..i + 1] == s[..i] + ".";
    assert (fields + [val])[..|fields|] == fields;
    hide Dec;
  }

  lemma {:induction false} AcceptedIsPrinted(s: string, i: nat, fields: seq<Byte>, val: Byte, digLen: nat)
    requires i <= |s| && |fields| <= 3 && s != ""
    requires Read(s, i, fields, val, digLen)
    requires ScanFrom(s, i, fields, val, digLen).Some?
    ensures s == PrintBytes(ScanFrom(s, i, fields, val, digLen).value)
    decreases |s| - i
  {
    hide Dec, Dotted;
    if i == |s| {
      assert s[..i] == s;
      assert (fields + [val])[..3] == fields;
    } else if IsDigit(s[i]) {
      ReadDigit(s, i, fields, val, digLen);
      AcceptedIsPrinted(s, i + 1, fields, val as int * 10 + Value(s[i]), digLen + 1);
    } else {
      ReadDot(s, i, fields, val, digLen);
      AcceptedIsPrinted(s, i + 1, fields + [val], 0, 0);
    }
  }

  // ----- Printed text is accepted -----

  /** Scanning the text of one field from a fresh field state. */
  lemma ScanField(s: string, i: nat, fields: seq<Byte>, b: Byte)
    requires |fields| <= 3 && i + |Dec(b)| <= |s| && s[i..i + |Dec(b)|] == Dec(b)
    ensures ScanFrom(s, i, fields, 0, 0) == ScanFrom(s, i + |Dec(b)|, fields, b, |Dec(b)|)
  {
    var t := Dec(b);
    forall k | 0 <= k < |t| ensures s[i + k] == t[k] {
      assert s[i..i + |t|][k] == t[k];
    }
    var v0 := Value(t[0]);
    assert ScanFrom(s, i, fields, 0, 0) == ScanFrom(s, i + 1, fields, v0, 1);
    if |t| > 1 {
      var v1 := v0 * 10 + Value(t[1]);
      assert v1 <= 255;
      assert ScanFrom(s, i + 1, fields, v0, 1) == ScanFrom(s, i + 2, fields, v1, 2);
      if |t| > 2 {
        assert b == v1 * 10 + Value(t[2]);
        assert ScanFrom(s, i + 2, fields, v1, 2) == ScanFrom(s, i + 3, fields, b, 3);
      }
    }
  }

  lemma ScanDottedField(s: string, i: nat, fields: seq<Byte>, b: Byte)
    requires |fields| <= 2 && i + |Dec(b)| + 1 < |s| && s[i..i + |Dec(b)| + 1] == Dec(b) + "."
    ensures ScanFrom(s, i, fields, 0, 0) == ScanFrom(s, i + |Dec(b)| + 1, fields + [b], 0, 0)
  {
    var n := |Dec(b)|;
    assert s[i..i + n] == s[i..i + n + 1][..n] == Dec(b);
    assert s[i + n] == s[i..i + n + 1][n] == '.';
    assert s[i + n - 1] == s[i..i + n][n - 1];
    ScanField(s, i, fields, b);
  }

  lemma PrintedIsAccepted(b: Bytes4)
    ensures Parse(PrintBytes(b)) == Some(b)
  {
    DottedThree(b[0], b[1], b[2]);
    assert b[..3] == [b[0], b[1], b[2]];
    ScanFour(PrintBytes(b), b[0], b[1], b[2], b[3]);
    assert b == [b[0], b[1], b[2], b[3]];
  }

  lemma ScanFour(s: string, b0: Byte, b1: Byte, b2: Byte, b3: Byte)
    requires s == (Dec(b0) + ".") + (Dec(b1) + ".") + (Dec(b2) + ".") + Dec(b3)
    ensures Parse(s) == Some([b0, b1, b2, b3])
  {
    var p0, p1, p2, p3 := Dec(b0) + ".", Dec(b1) + ".", Dec(b2) + ".", Dec(b3);
    hide Dec, ScanFrom;
    var i1 := |p0|;
    var i2 := i1 + |p1|;
    var i3 := i2 + |p2|;
    assert s[0..i1] == p0;
    assert s[i1..i2] == p1;
    assert s[i2..i3] == p2;
    assert s[i3..|s|] == p3;
    ScanDottedField(s, 0, [], b0);
    ScanDottedField(s, i1, [b0], b1);
    ScanDottedField(s, i2, [b0, b1], b2);
    ScanField(s, i3, [b0, b1, b2], b3);
    assert [] + [b0] == [b0] && [b0] + [b1] == [b0, b1] && [b0, b1] + [b2] == [b0, b1, b2];
    ScanEnd(s, [b0, b1, b2], b3, |p3|);
    assert [b0, b1, b2] + [b3] == [b0, b1, b2, b3];
  }

  lemma ScanEnd(s: string, fields: seq<Byte>, b: Byte, digLen: nat)
    requires |fields| == 3
    ensures ScanFrom(s, |s|, fields, b, digLen) == Some(fields + [b])
  {
  }

  lemma DottedThree(x: Byte, y: Byte, z: Byte)
    ensures Dotted([x, y, z]) == (Dec(x) + ".") + (Dec(y) + ".") + (Dec(z) + ".")
  {
    assert [x, y, z][..2] == [x, y] && [x, y][..1] == [x] && [x][..0] == [];
    assert Dotted([x]) == Dec(x) + ".";
    assert Dotted([x, y]) == Dotted([x]) + Dec(y) + ".";
    assert Dotted([x, y, z]) == Dotted([x, y]) + Dec(z) + ".";
  }

  // ----- The two directions together -----

  /** Text denotes an IPv4 address exactly when it is that address printed. */
  lemma ParseIffPrinted(s: string, a: U32)
    ensures Parse(s) == Some(StoreBE32(a)) <==> s == Print(a)
  {
    PrintedIsAccepted(StoreBE32(a));
    if Parse(s) == Some(StoreBE32(a)) {
      AcceptedIsPrinted(s, 0, [], 0, 0);
    }
  }

  /** Two texts that are read as the same bytes are the same text. */
  lemma ParseInjective(s: string, t: string)
    requires Parse(s).Some? && Parse(s) == Parse(t)
    ensures s == t
  {
    AcceptedIsPrinted(s, 0, [], 0, 0);
    AcceptedIsPrinted(t, 0, [], 0, 0);
  }

  /** Equality of IPv4 text is equality of addresses. */
  lemma PrintInjective(a: U32, b: U32)
    requires Print(a) == Print(b)
    ensures a == b
  {
    ParseIffPrinted(Print(a), a);
    ParseIffPrinted(Print(a), b);
    LoadStore32(a, [0, 0, 0, 0]);
    LoadStore32(b, [0, 0, 0, 0]);
  }
}
