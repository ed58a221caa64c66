/**
  The text `write_hex` prints: every byte as two lowercase hexadecimal
  digits followed by a space, with a line break in front of the bytes at
  which an instruction ended. A reader of that text is the partner of the
  printer: parsing a dump gives back the bytes, whatever the line breaks.
*/
module HexText {
  import opened Bits

  const Digits: string := "0123456789abcdef"

  /** The digit `std::hex` prints for d, in lower case. */
  function HexDigit(d: nat): char
    requires d < 16
  {
    Digits[d]
  }

  /** `setfill('0') << setw(2) << (int) b`: two digits, leading zero kept. */
  function HexPair(b: byte): string
  {
    [HexDigit(b / 16), HexDigit(b % 16)]
  }

  /** The dump of `bs`, with "\n" in front of byte i exactly when i is in
      `breaks`. */
  function HexDump(bs: seq<byte>, breaks: set<nat>): string
  {
    if bs == [] then ""
    else
      var i := |bs| - 1;
      HexDump(bs[..i], breaks) + (if i in breaks then "\n" else "") + HexPair(bs[i]) + " "
  }

  predicate IsHexDigit(c: char)
  {
    '0' <= c <= '9' || 'a' <= c <= 'f'
  }

  function DigitValue(c: char): (d: nat)
    requires IsHexDigit(c)
    ensures d < 16
  {
    if c <= '9' then c as int - '0' as int else c as int - 'a' as int + 10
  }

  /** Reads a dump back: line breaks are skipped, every other token must be
      two hexadecimal digits and a space. */
  function ParseHex(t: string): Option<seq<byte>>
    decreases |t|
  {
    if t == [] then Some([])
    else if t[0] == '\n' then ParseHex(t[1..])
    else if |t| >= 3 && IsHexDigit(t[0]) && IsHexDigit(t[1]) && t[2] == ' ' then
      match ParseHex(t[3..])
      case None => None
      case Some(rest) => Some([16 * DigitValue(t[0]) + DigitValue(t[1])] + rest)
    else None
  }

  lemma DigitRoundTrip(d: nat)
    requires d < 16
    ensures IsHexDigit(HexDigit(d)) && DigitValue(HexDigit(d)) == d
  {
  }

  /** Parsing is compositional over whole tokens. */
  lemma {:induction false} ParseHexAppend(a: string, b: string)
    requires ParseHex(a).Some? && ParseHex(b).Some?
    ensures ParseHex(a + b) == Some(ParseHex(a).value + ParseHex(b).value)
    decreases |a|, 1
  {
    if a == [] {
      assert a + b == b;
      assert ParseHex(a).value + ParseHex(b).value == ParseHex(b).value;
    } else if a[0] == '\n' {
      AppendAfterNewline(a, b);
    } else {
      AppendAfterByte(a, b);
    }
  }

  lemma {:induction false} AppendAfterNewline(a: string, b: string)
    requires ParseHex(a).Some? && ParseHex(b).Some?
    requires a != [] && a[0] == '\n'
    ensures ParseHex(a + b) == Some(ParseHex(a).value + ParseHex(b).value)
    decreases |a|, 0
  {
    assert (a + b)[0] == '\n';
    assert (a + b)[1..] == a[1..] + b;
    ParseHexAppend(a[1..], b);
    ParseNewline(a);
    ParseNewline(a + b);
  }

  lemma {:induction false} AppendAfterByte(a: string, b: string)
    requires ParseHex(a).Some? && ParseHex(b).Some?
    requires a != [] && a[0] != '\n'
    ensures ParseHex(a + b) == Some(ParseHex(a).value + ParseHex(b).value)
    decreases |a|, 0
  {
    ParseByte(a);
    var t := a + b;
    var v := 16 * DigitValue(a[0]) + DigitValue(a[1]);
    var x, y := ParseHex(a[3..]).value, ParseHex(b).value;
    assert t[0] == a[0] && t[1] == a[1] && t[2] == a[2];
    assert t[3..] == a[3..] + b;
    ParseHexAppend(a[3..], b);
    assert ParseHex(t[3..]) == Some(x + y);
    ParseByteStep(t);
    assert ParseHex(t) == Some([v] + (x + y));
    assert [v] + (x + y) == ([v] + x) + y;
  }

  lemma ParseNewline(t: string)
    requires t != [] && t[0] == '\n'
    ensures ParseHex(t) == ParseHex(t[1..])
  {
  }

  /** A byte token followed by a parsable rest. */
  lemma ParseByteStep(t: string)
    requires |t| >= 3 && IsHexDigit(t[0]) && IsHexDigit(t[1]) && t[2] == ' '
    requires ParseHex(t[3..]).Some?
    ensures ParseHex(t) == Some([16 * DigitValue(t[0]) + DigitValue(t[1])] + ParseHex(t[3..]).value)
  {
  }

  /** A successful parse that does not start with a line break starts with
      a byte token. */
  lemma ParseByte(t: string)
    requires ParseHex(t).Some? && t != [] && t[0] != '\n'
    ensures |t| >= 3 && IsHexDigit(t[0]) && IsHexDigit(t[1]) && t[2] == ' '
    ensures ParseHex(t[3..]).Some?
    ensures ParseHex(t).value == [16 * DigitValue(t[0]) + DigitValue(t[1])] + ParseHex(t[3..]).value
  {
  }

  /** The token of one byte reads back as that byte. */
  lemma ParsePair(b: byte)
    ensures ParseHex(HexPair(b) + " ") == Some([b])
  {
    var tok := HexPair(b) + " ";
    DigitRoundTrip(b / 16);
    DigitRoundTrip(b % 16);
    assert tok[0] == HexDigit(b / 16) && tok[1] == HexDigit(b % 16) && tok[2] == ' ';
    assert tok[3..] == [];
    assert ParseHex(tok[3..]) == Some([]);
    assert 16 * DigitValue(tok[0]) + DigitValue(tok[1]) == b;
    assert [b] + [] == [b];
  }

  /** With or without a line break in front. */
  lemma ParseToken(b: byte, brk: bool)
    ensures ParseHex((if brk then "\n" else "") + HexPair(b) + " ") == Some([b])
  {
    var tok := HexPair(b) + " ";
    ParsePair(b);
    if brk {
      assert ("\n" + HexPair(b) + " ")[0] == '\n';
      assert ("\n" + HexPair(b) + " ")[1..] == tok;
    } else {
      assert "" + HexPair(b) + " " == tok;
    }
  }

  /** The dump of `bs` is the dump of all but its last byte followed by the
      last byte's token. */
  lemma DumpLast(bs: seq<byte>, breaks: set<nat>)
    requires bs != []
    ensures var i := |bs| - 1;
      HexDump(bs, breaks) == HexDump(bs[..i], breaks) + ((if i in breaks then "\n" else "") + HexPair(bs[i]) + " ")
  {
  }

  /** Reading a dump gives back the dumped bytes, wherever the breaks are. */
  lemma {:induction false} DumpRoundTrip(bs: seq<byte>, breaks: set<nat>)
    ensures ParseHex(HexDump(bs, breaks)) == Some(bs)
    decreases |bs|
  {
    if bs != [] {
      var i := |bs| - 1;
      var tok := (if i in breaks then "\n" else "") + HexPair(bs[i]) + " ";
      DumpRoundTrip(bs[..i], breaks);
      ParseToken(bs[i], i in breaks);
      DumpLast(bs, breaks);
      ParseHexAppend(HexDump(bs[..i], breaks), tok);
      assert bs[..i] + [bs[i]] == bs;
    }
  }

  /** A break at or past the end of the bytes prints nothing: no line break
      ever trails the dump. */
  lemma {:induction false} BreaksPastEndIgnored(bs: seq<byte>, breaks: set<nat>, k: nat)
    requires k >= |bs|
    ensures HexDump(bs, breaks) == HexDump(bs, breaks - {k})
    decreases |bs|
  {
    if bs != [] {
      BreaksPastEndIgnored(bs[..|bs| - 1], breaks, k);
    }
  }

  /** The number of breaks that fall in front of one of the first n bytes. */
  function BreaksBelow(breaks: set<nat>, n: nat): nat
  {
    if n == 0 then 0 else BreaksBelow(breaks, n - 1) + (if n - 1 in breaks then 1 else 0)
  }

  /** Each byte takes three characters and each printed break one more. */
  lemma {:induction false} DumpLength(bs: seq<byte>, breaks: set<nat>)
    ensures |HexDump(bs, breaks)| == 3 * |bs| + BreaksBelow(breaks, |bs|)
    ensures (forall j :: j in breaks ==> j >= |bs|) ==> |HexDump(bs, breaks)| == 3 * |bs|
    decreases |bs|
  {
    if bs != [] {
      DumpLength(bs[..|bs| - 1], breaks);
    }
  }

  /** Only digits, spaces and line breaks appear in a dump. */
  lemma {:induction false} DumpAlphabet(bs: seq<byte>, breaks: set<nat>)
    ensures forall c :: c in HexDump(bs, breaks) ==> IsHexDigit(c) || c == ' ' || c == '\n'
    decreases |bs|
  {
    if bs != [] {
      var i := |bs| - 1;
      DumpAlphabet(bs[..i], breaks);
      DigitRoundTrip(bs[i] / 16);
      DigitRoundTrip(bs[i] % 16);
    }
  }

  /** Two bytes, with an instruction boundary between them. */
  lemma DumpExample()
    ensures HexDump([0x90, 0x0f], {1}) == "90 \n0f "
  {
    var bs: seq<byte> := [0x90, 0x0f];
    assert bs[..1] == [0x90] && [0x90][..0] == [];
    assert HexPair(0x90) == "90" && HexPair(0x0f) == "0f";
    assert HexDump([0x90], {1}) == "90 ";
  }
}
