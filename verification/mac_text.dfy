/** The text forms of a MAC address: the registry keys, and the two parsers that read them back. */
module MacText {
  import opened Bytes

  function HexDigit(d: int): (c: char)
    requires 0 <= d < 16
  {
    if d < 10 then '0' + d as char else 'a' + (d - 10) as char
  }

  function HexByte(b: byte): (s: string)
    ensures |s| == 2
  {
    [HexDigit(b / 16), HexDigit(b % 16)]
  }

  function HexEncode(bs: Bytes): (s: string)
    ensures |s| == 2 * |bs|
  {
    if bs == [] then [] else HexByte(bs[0]) + HexEncode(bs[1..])
  }

  /** Two hex digits a byte, a colon between bytes. */
  function ColonJoin(bs: Bytes): (s: string)
    ensures |s| == if bs == [] then 0 else 3 * |bs| - 1
    ensures |bs| > 1 ==> s[2] == ':'
  {
    if bs == [] then [] else if |bs| == 1 then HexByte(bs[0]) else HexByte(bs[0]) + ":" + ColonJoin(bs[1..])
  }

  /** The registry key: colon-separated for six bytes, bare hex for every other length. */
  function MacToString(mac: Bytes): (s: string)
    ensures |s| == if |mac| == 6 then 17 else 2 * |mac|
  {
    if |mac| != 6 then HexEncode(mac) else ColonJoin(mac)
  }

  /** The value of a hex digit of either case. */
  function HexValue(c: char): (v: Option<int>)
    ensures v.Some? ==> 0 <= v.value < 16
    ensures c == ':' ==> v.None?
  {
    if '0' <= c <= '9' then Some(c as int - '0' as int)
    else if 'a' <= c <= 'f' then Some(c as int - 'a' as int + 10)
    else if 'A' <= c <= 'F' then Some(c as int - 'A' as int + 10)
    else None
  }

  /** hex.DecodeString: an even number of hex digits and nothing else. */
  function HexDecode(s: string): (r: Option<Bytes>)
  {
    if s == [] then Some([])
    else if |s| == 1 then None
    else
      match (HexValue(s[0]), HexValue(s[1]), HexDecode(s[2..]))
      case (Some(hi), Some(lo), Some(rest)) => Some([16 * hi + lo] + rest)
      case _ => None
  }

  /** The white space fmt.Sscanf skips before a number; a newline stops it instead. */
  predicate IsSpace(c: char) {
    var u := c as int;
    u == 9 || 11 <= u <= 13 || u == 0x20 || u == 0x85 || u == 0xA0 || u == 0x1680 || 0x2000 <= u <= 0x200A
    || u == 0x2028 || u == 0x2029 || u == 0x202F || u == 0x205F || u == 0x3000
  }

  /** One "%02x" of fmt.Sscanf: skip spaces, then one or two hex digits. */
  function ScanByte(s: string): (r: Option<(byte, string)>)
    ensures r.Some? ==> |r.value.1| < |s|
  {
    if s == [] then None
    else if IsSpace(s[0]) then ScanByte(s[1..])
    else
      match HexValue(s[0])
      case None => None
      case Some(hi) =>
        if |s| == 1 then Some((hi, []))
        else
          match HexValue(s[1])
          case None => Some((hi, s[1..]))
          case Some(lo) => Some((16 * hi + lo, s[2..]))
  }

  /** `n` bytes separated by colons; whatever follows the last one is ignored, as Sscanf does. */
  function ScanBytes(s: string, n: nat): (r: Option<Bytes>)
    ensures r.Some? ==> |r.value| == n
    decreases n
  {
    if n == 0 then Some([])
    else
      match ScanByte(s)
      case None => None
      case Some((b, rest)) =>
        if n == 1 then Some([b])
        else if rest == [] || rest[0] != ':' then None
        else
          match ScanBytes(rest[1..], n - 1)
          case None => None
          case Some(bs) => Some([b] + bs)
  }

  /** mesh.StringToMAC: bare hex first, then the colon form. */
  function StringToMac(s: string): (r: Option<Bytes>)
    ensures r.Some? ==> |r.value| == 6
  {
    match HexDecode(s)
    case Some(m) => if |m| == 6 then Some(m) else ScanBytes(s, 6)
    case None => ScanBytes(s, 6)
  }

  /** nodeauth.ParseMAC: the colon form first, then bare hex. */
  function ParseMac(s: string): (r: Option<Bytes>)
    ensures r.Some? ==> |r.value| == 6
  {
    match ScanBytes(s, 6)
    case Some(m) => Some(m)
    case None =>
      match HexDecode(s)
      case Some(m) => if |m| == 6 then Some(m) else None
      case None => None
  }

  // ----- The parsers invert the printers -----

  lemma HexByteScans(b: byte, rest: string)
    ensures HexValue(HexByte(b)[0]) == Some(b / 16) && HexValue(HexByte(b)[1]) == Some(b % 16)
    ensures ScanByte(HexByte(b) + rest) == Some((b, rest))
    ensures ':' !in HexByte(b)
  {
    HexDigitValue(b / 16);
    HexDigitValue(b % 16);
    var s := HexByte(b) + rest;
    assert s[0] == HexByte(b)[0] && s[1] == HexByte(b)[1] && s[2..] == rest;
  }

  lemma HexDigitValue(d: int)
    requires 0 <= d < 16
    ensures HexValue(HexDigit(d)) == Some(d) && !IsSpace(HexDigit(d)) && HexDigit(d) != ':'
  {
  }

  lemma {:induction false} HexRoundTrip(bs: Bytes)
    ensures HexDecode(HexEncode(bs)) == Some(bs)
    ensures ':' !in HexEncode(bs)
  {
    if bs != [] {
      HexByteScans(bs[0], []);
      HexRoundTrip(bs[1..]);
      var s := HexEncode(bs);
      assert s[0] == HexByte(bs[0])[0] && s[1] == HexByte(bs[0])[1] && s[2..] == HexEncode(bs[1..]);
      assert [bs[0]] + bs[1..] == bs;
    }
  }

  lemma ScanStep(b: byte, rest: string, n: nat)
    requires n > 0
    ensures ScanBytes(HexByte(b) + ":" + rest, n + 1)
         == match ScanBytes(rest, n) { case None => None case Some(bs) => Some([b] + bs) }
  {
    HexByteScans(b, ":" + rest);
    assert HexByte(b) + ":" + rest == HexByte(b) + (":" + rest);
    assert (":" + rest)[1..] == rest;
  }

  lemma {:induction false} ColonJoinScans(bs: Bytes)
    ensures ScanBytes(ColonJoin(bs), |bs|) == Some(bs)
  {
    if |bs| == 1 {
      HexByteScans(bs[0], []);
      assert HexByte(bs[0]) + [] == HexByte(bs[0]) && bs == [bs[0]];
    } else if |bs| > 1 {
      ColonJoinScans(bs[1..]);
      ScanStep(bs[0], ColonJoin(bs[1..]), |bs| - 1);
      assert [bs[0]] + bs[1..] == bs;
    }
  }

  lemma ColonRoundTrip(mac: Mac)
    ensures ScanBytes(MacToString(mac), 6) == Some(mac)
  {
    ColonJoinScans(mac);
  }

  /** Without a colon there is no colon form to scan. */
  lemma NoColonNoScan(s: string, n: nat)
    requires ':' !in s && n > 1
    ensures ScanBytes(s, n) == None
  {
    if ScanByte(s).Some? {
      ScanByteIsSuffix(s);
    }
  }

  lemma {:induction false} ScanByteIsSuffix(s: string)
    requires ScanByte(s).Some?
    ensures var rest := ScanByte(s).value.1; rest == s[|s| - |rest|..]
  {
    if IsSpace(s[0]) {
      ScanByteIsSuffix(s[1..]);
    }
  }

  lemma {:induction false} HexDecodeHasNoColon(s: string)
    requires HexDecode(s).Some?
    ensures ':' !in s
  {
    if s != [] {
      HexDecodeHasNoColon(s[2..]);
      assert s == [s[0], s[1]] + s[2..];
    }
  }

  /** The two parsers try their formats in opposite orders, and still agree on every string. */
  lemma ParsersAgree(s: string)
    ensures ParseMac(s) == StringToMac(s)
  {
    if HexDecode(s).Some? {
      HexDecodeHasNoColon(s);
      NoColonNoScan(s, 6);
    }
  }

  /** A registry key parses back to the bytes it came from exactly when these are six bytes;
      for every other length it does not parse at all. */
  lemma KeyRoundTrip(mac: Bytes)
    ensures StringToMac(MacToString(mac)) == if |mac| == 6 then Some(mac) else None
    ensures ParseMac(MacToString(mac)) == StringToMac(MacToString(mac))
  {
    ParsersAgree(MacToString(mac));
    if |mac| == 6 {
      ColonRoundTrip(mac);
      assert MacToString(mac)[2] == ':';
      if HexDecode(MacToString(mac)).Some? {
        HexDecodeHasNoColon(MacToString(mac));
        assert false;
      }
    } else {
      HexRoundTrip(mac);
      NoColonNoScan(MacToString(mac), 6);
    }
  }

  /** The bare-hex form, as the enrollment path prints it, parses back too. */
  lemma BareHexRoundTrip(mac: Mac)
    ensures StringToMac(HexEncode(mac)) == Some(mac) && ParseMac(HexEncode(mac)) == Some(mac)
  {
    HexRoundTrip(mac);
    ParsersAgree(HexEncode(mac));
  }

  /** How a six-byte key reads: two lower-case hex digits a byte, the high one first, with a colon between bytes. */
  lemma KeyReads(mac: Mac, i: nat)
    requires i < 6
    ensures var s := MacToString(mac);
      |s| == 17 && s[3 * i] == "0123456789abcdef"[mac[i] / 16] && s[3 * i + 1] == "0123456789abcdef"[mac[i] % 16]
      && (i < 5 ==> s[3 * i + 2] == ':')
  {
    ColonJoinReads(mac, i);
    DigitReads(mac[i] / 16);
    DigitReads(mac[i] % 16);
  }

  lemma DigitReads(d: int)
    requires 0 <= d < 16
    ensures HexDigit(d) == "0123456789abcdef"[d]
  {
  }

  lemma {:induction false} ColonJoinReads(bs: Bytes, i: nat)
    requires i < |bs|
    ensures var s := ColonJoin(bs);
      3 * i + 1 < |s| && s[3 * i] == HexDigit(bs[i] / 16) && s[3 * i + 1] == HexDigit(bs[i] % 16)
      && (i < |bs| - 1 ==> s[3 * i + 2] == ':')
  {
    if i > 0 {
      ColonJoinReads(bs[1..], i - 1);
      assert ColonJoin(bs)[3..] == ColonJoin(bs[1..]);
    }
  }

  // ----- What the parsers read -----

  function LowerDigit(c: char): char {
    if 'A' <= c <= 'F' then c - 'A' + 'a' else c
  }

  /** The text with the hex digits above nine in lower case. */
  function Lower(s: string): (r: string)
    ensures |r| == |s| && forall i :: 0 <= i < |s| ==> r[i] == LowerDigit(s[i])
  {
    seq(|s|, i requires 0 <= i < |s| => LowerDigit(s[i]))
  }

  lemma ByteIsPair(b: byte, c: char, d: char)
    ensures HexByte(b) == [LowerDigit(c), LowerDigit(d)] <==> HexValue(c) == Some(b / 16) && HexValue(d) == Some(b % 16)
  {
  }

  lemma DecodeSplits(s: string, bs: Bytes)
    requires |s| > 1 && bs != []
    ensures HexDecode(s) == Some(bs)
       <==> HexValue(s[0]) == Some(bs[0] / 16) && HexValue(s[1]) == Some(bs[0] % 16) && HexDecode(s[2..]) == Some(bs[1..])
  {
    assert bs == [bs[0]] + bs[1..];
  }

  lemma EncodeSplits(s: string, bs: Bytes)
    requires |s| > 1 && bs != []
    ensures HexEncode(bs) == Lower(s)
       <==> HexByte(bs[0]) == [LowerDigit(s[0]), LowerDigit(s[1])] && HexEncode(bs[1..]) == Lower(s[2..])
  {
    var front := [LowerDigit(s[0]), LowerDigit(s[1])];
    assert Lower(s) == front + Lower(s[2..]);
    assert (front + Lower(s[2..]))[..2] == front && (front + Lower(s[2..]))[2..] == Lower(s[2..]);
    assert HexEncode(bs)[..2] == HexByte(bs[0]) && HexEncode(bs)[2..] == HexEncode(bs[1..]);
  }

  /** Bare hex decodes to these bytes exactly when it is how they print, in either case of the letters. */
  lemma {:induction false} DecodeInvertsEncode(s: string, bs: Bytes)
    ensures HexDecode(s) == Some(bs) <==> HexEncode(bs) == Lower(s)
  {
    if |s| > 1 && bs != [] {
      DecodeInvertsEncode(s[2..], bs[1..]);
      DecodeSplits(s, bs);
      EncodeSplits(s, bs);
      ByteIsPair(bs[0], s[0], s[1]);
    } else if s == [] {
      assert Lower(s) == [];
    } else {
      assert |HexEncode(bs)| != |Lower(s)|;
    }
  }

  /** Two byte strings, of whatever lengths, share a registry key only if they are equal:
      keying a registry by text is keying it by bytes. */
  lemma MacToStringInjective(a: Bytes, b: Bytes)
    requires MacToString(a) == MacToString(b)
    ensures a == b
  {
    assert |a| == |b|;
    if |a| == 6 {
      ColonRoundTrip(a);
      ColonRoundTrip(b);
    } else {
      HexRoundTrip(a);
      HexRoundTrip(b);
    }
  }
}
