/**
  net.ParseIP: text whose first separator is a dot is an IPv4 address or nothing; text whose
  first separator is a colon is IPv6 syntax, which stays an unspecified function.
 */
module NetIP {
  import opened Wrappers
  import opened Words
  import opened DottedQuad

  /** The outcome of parsing text that looks like IPv6, and of To4 on it. */
  datatype IP6 = NotAnIP | Only6 | Mapped4(bytes: Bytes4)

  /**
    The parts of the outside world that the model does not look into: the outcome for text with a
    colon, the first 32 bits of an IPv6 address, and the decoding of public keys.
   */
  datatype Env = Env(parseIP6: string -> IP6, high6: string -> Bytes4, decodeKey: string -> Option<seq<Byte>>)

  datatype IP = Invalid | IP4(bytes: Bytes4) | IP6

  /** The character that decides which parser reads the text. */
  function Separator(s: string): char {
    if s == "" then '%' else if s[0] in ".:%" then s[0] else Separator(s[1..])
  }

  function ParseIP(env: Env, s: string): IP {
    match Separator(s)
    case '.' => (match Parse(s) case Some(b) => IP4(b) case None => Invalid)
    case ':' => (match env.parseIP6(s)
                 case NotAnIP => Invalid
                 case Only6 => IP6
                 case Mapped4(b) => IP4(b))
    case _ => Invalid
  }

  /** What `net.ParseCIDR(s + "/32")` gives: one IPv4 address, or all IPv6 addresses with some high bits. */
  datatype Network = Net4(address: Bytes4) | Net6(high: Bytes4)

  function ParseSlash32(env: Env, s: string): Option<Network> {
    match ParseIP(env, s)
    case Invalid => None
    case IP4(b) => Some(if Separator(s) == '.' then Net4(b) else Net6(env.high6(s)))
    case IP6 => Some(Net6(env.high6(s)))
  }

  lemma {:induction false} SeparatorAfterDigits(d: string, rest: string)
    requires forall i :: 0 <= i < |d| ==> IsDigit(d[i])
    ensures Separator(d + rest) == Separator(rest)
  {
    if d == "" {
      assert d + rest == rest;
    } else {
      assert (d + rest)[1..] == d[1..] + rest;
      SeparatorAfterDigits(d[1..], rest);
    }
  }

  /** A printed IPv4 address is read by the IPv4 scan and gives its own bytes back. */
  lemma ParseIPOfPrint(env: Env, a: U32)
    ensures ParseIP(env, Print(a)) == IP4(StoreBE32(a))
    ensures Print(a) != "" && Separator(Print(a)) == '.'
  {
    var b := StoreBE32(a);
    ParseIffPrinted(Print(a), a);
    DottedThree(b[0], b[1], b[2]);
    assert b[..3] == [b[0], b[1], b[2]];
    var rest := "." + (Dec(b[1]) + ".") + (Dec(b[2]) + ".") + Dec(b[3]);
    assert Print(a) == Dec(b[0]) + rest;
    SeparatorAfterDigits(Dec(b[0]), rest);
  }

  // ----- Which text is an address -----

  /** Position i holds the first dot, colon or percent sign. */
  predicate FirstMark(s: string, i: nat) {
    i < |s| && s[i] in ".:%" && forall j :: 0 <= j < i ==> s[j] !in ".:%"
  }

  ghost predicate MarkedBy(s: string, mark: char) { exists i: nat :: FirstMark(s, i) && s[i] == mark }

  lemma MarkedFirst(s: string)
    requires s != "" && s[0] in ".:%"
    ensures forall mark :: MarkedBy(s, mark) <==> mark == s[0]
  {
    assert FirstMark(s, 0);
    assert forall i: nat :: FirstMark(s, i) ==> i == 0;
  }

  lemma MarkedLater(s: string, mark: char)
    requires s != "" && s[0] !in ".:%"
    ensures MarkedBy(s, mark) <==> MarkedBy(s[1..], mark)
  {
    var rest := s[1..];
    if i: nat :| FirstMark(s, i) && s[i] == mark {
      assert forall j :: 0 <= j < i - 1 ==> rest[j] == s[j + 1];
      assert FirstMark(rest, i - 1) && rest[i - 1] == mark;
    }
    if i: nat :| FirstMark(rest, i) && rest[i] == mark {
      assert forall j :: 0 < j < i + 1 ==> s[j] == rest[j - 1];
      assert FirstMark(s, i + 1) && s[i + 1] == mark;
    }
  }

  lemma {:induction false} SeparatorIsFirstMark(s: string)
    ensures MarkedBy(s, '.') <==> Separator(s) == '.'
    ensures MarkedBy(s, ':') <==> Separator(s) == ':'
  {
    if s == "" {
    } else if s[0] in ".:%" {
      MarkedFirst(s);
    } else {
      SeparatorIsFirstMark(s[1..]);
      MarkedLater(s, '.');
      MarkedLater(s, ':');
    }
  }

  /** Text that is no address: a dot comes first and it is not a printed one, a colon and it is not IPv6, or neither. */
  ghost predicate NotAnAddress(env: Env, s: string) {
    || (MarkedBy(s, '.') && forall a: U32 :: s != Print(a))
    || (MarkedBy(s, ':') && env.parseIP6(s) == NotAnIP)
    || (!MarkedBy(s, '.') && !MarkedBy(s, ':'))
  }

  /** The IPv4 scan on text that a dot comes first in, and on any other text. */
  lemma ScanMeans(env: Env, s: string, a: U32)
    ensures Separator(s) == '.' && Parse(s) == Some(StoreBE32(a)) <==> s == Print(a)
  {
    hide Print, Parse, Separator, StoreBE32;
    ParseIffPrinted(s, a);
    ParseIPOfPrint(env, a);
  }

  lemma ScannedIsPrinted(s: string)
    requires Parse(s).Some?
    ensures exists a: U32 :: s == Print(a)
  {
    hide Print, Parse, StoreBE32, LoadBE32, LoadLE32, StoreLE32;
    var b := Parse(s).value;
    LoadStore32(0, b);
    ParseIffPrinted(s, LoadBE32(b));
  }

  /** net.ParseIP on any text. */
  lemma ParseIPMeans(env: Env, s: string)
    ensures ParseIP(env, s).Invalid? <==> NotAnAddress(env, s)
    ensures ParseIP(env, s).IP6? <==> MarkedBy(s, ':') && env.parseIP6(s) == Only6
    ensures forall a: U32 :: ParseIP(env, s) == IP4(StoreBE32(a))
              <==> s == Print(a) || (MarkedBy(s, ':') && env.parseIP6(s) == Mapped4(StoreBE32(a)))
  {
    hide MarkedBy, Parse, Print, StoreBE32, Separator;
    SeparatorIsFirstMark(s);
    forall a: U32 ensures Separator(s) == '.' && Parse(s) == Some(StoreBE32(a)) <==> s == Print(a) {
      ScanMeans(env, s, a);
    }
    if Parse(s).Some? {
      ScannedIsPrinted(s);
    }
  }
}
