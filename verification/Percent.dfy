/**
 Percent escapes (RFC 3986 section 2.1) as the server reads them: url_decode and
 estimate_decoded_length of src/utils.cpp, decode_status_param and the buffer sizing of
 system_status in src/handlers/admin.cpp. Characters stand for bytes; a C string ends where
 the sequence does, in a NUL that is not part of it.
 */
module Percent {
  import opened Options
  import opened Text

  /** hex_val: the value of a hex digit, -1 for anything else. */
  function HexVal(c: char): int {
    if '0' <= c <= '9' then c as int - '0' as int
    else if 'a' <= c <= 'f' then c as int - 'a' as int + 10
    else if 'A' <= c <= 'F' then c as int - 'A' as int + 10
    else -1
  }

  predicate IsHex(c: char) {
    HexVal(c) >= 0
  }

  /** A well-formed escape starts at position i. */
  predicate EscapeAt(s: string, i: nat) {
    i + 2 < |s| && s[i] == '%' && IsHex(s[i + 1]) && IsHex(s[i + 2])
  }

  function Escaped(hi: char, lo: char): char
    requires IsHex(hi) && IsHex(lo)
  {
    (HexVal(hi) * 16 + HexVal(lo)) as char
  }

  // ---- url_decode

  /**
   Reading a hexadecimal int from a stream of two characters: leading white space is skipped,
   a sign is taken, reading stops at the first non-digit, and no digit at all stores 0. With
   nothing but white space the variable is never written.
   */
  function HexStream(a: char, b: char): Option<int> {
    if IsSpace(a) then
      if IsSpace(b) then None else Some(if IsHex(b) then HexVal(b) else 0)
    else if a == '+' || a == '-' then
      Some(if !IsHex(b) then 0 else if a == '-' then -HexVal(b) else HexVal(b))
    else if !IsHex(a) then Some(0)
    else Some(if IsHex(b) then HexVal(a) * 16 + HexVal(b) else HexVal(a))
  }

  /** No escape the decoder reads is two white-space characters, which would decode to an unwritten variable. */
  predicate Readable(s: string) {
    if s == "" then true
    else if s[0] == '%' && 2 < |s| then HexStream(s[1], s[2]).Some? && Readable(s[3..])
    else Readable(s[1..])
  }

  function UrlDecode(s: string): string
    requires Readable(s)
  {
    if s == "" then ""
    else if s[0] == '%' && 2 < |s| then [(HexStream(s[1], s[2]).value % 256) as char] + UrlDecode(s[3..])
    else if s[0] == '+' then " " + UrlDecode(s[1..])
    else [s[0]] + UrlDecode(s[1..])
  }

  /** What url_decode makes of a readable text. */
  function Decoded(s: string): string {
    if Readable(s) then UrlDecode(s) else ""
  }

  /** One turn of the loop, seen from position i. */
  lemma UrlDecodeStep(s: string, i: nat)
    requires i < |s| && Readable(s[i..])
    ensures s[i] == '%' && i + 2 < |s| ==>
              && HexStream(s[i + 1], s[i + 2]).Some? && Readable(s[i + 3..])
              && UrlDecode(s[i..]) == [(HexStream(s[i + 1], s[i + 2]).value % 256) as char] + UrlDecode(s[i + 3..])
    ensures !(s[i] == '%' && i + 2 < |s|) ==>
              && Readable(s[i + 1..])
              && UrlDecode(s[i..]) == [if s[i] == '+' then ' ' else s[i]] + UrlDecode(s[i + 1..])
  {
    hide HexStream;
    assert s[i..][1..] == s[i + 1..];
    if i + 3 <= |s| {
      assert s[i..][3..] == s[i + 3..];
    }
  }

  method UrlDecodeLoop(s: string) returns (decoded: string)
    requires Readable(s)
    ensures decoded == UrlDecode(s)
  {
    hide HexStream, Readable, UrlDecode;
    decoded := "";
    var i := 0;
    assert s[0..] == s;
    while i < |s|
      invariant i <= |s| && Readable(s[i..])
      invariant decoded + UrlDecode(s[i..]) == UrlDecode(s)
    {
      UrlDecodeStep(s, i);
      if s[i] == '%' && i + 2 < |s| {
        var value := HexStream(s[i + 1], s[i + 2]).value;
        decoded := decoded + [(value % 256) as char];
        i := i + 3;
      } else if s[i] == '+' {
        decoded := decoded + " ";
        i := i + 1;
      } else {
        decoded := decoded + [s[i]];
        i := i + 1;
      }
    }
    UrlDecodeEmpty();
    assert s[i..] == "";
  }

  // ---- The stream's reading of a number, and the whole decoder, from their rules

  function DropBlanks(t: string): string {
    if t != "" && IsSpace(t[0]) then DropBlanks(t[1..]) else t
  }

  /** The number of the longest run of hex digits in front of a text, read after sofar. */
  function HexNumber(t: string, sofar: nat): nat {
    if t == "" || !IsHex(t[0]) then sofar else HexNumber(t[1..], sofar * 16 + HexVal(t[0]))
  }

  /** A formatted hexadecimal read: blanks, then a sign, then digits; of blanks alone, nothing is read. */
  function ReadHex(text: string): Option<int> {
    var t := DropBlanks(text);
    if t == "" then None
    else if t[0] == '-' then (var n: int := HexNumber(t[1..], 0); Some(-n))
    else if t[0] == '+' then Some(HexNumber(t[1..], 0))
    else Some(HexNumber(t, 0))
  }

  lemma HexValIff(c: char)
    ensures HexVal(c) >= 0 <==> c in "0123456789abcdefABCDEF"
    ensures HexVal(c) >= 0 ==> HexVal(c) < 16 && (HexDigit(HexVal(c), Lower) == c || HexDigit(HexVal(c), Upper) == c)
  {
  }

  /** What an escape stores is the formatted read of its two characters. */
  lemma StreamReads(a: char, b: char)
    ensures HexStream(a, b) == ReadHex([a, b])
  {
    assert [a, b][1..] == [b] && [b][1..] == "";
    assert DropBlanks("") == "" && HexNumber("", 0) == 0;
    assert DropBlanks([b]) == if IsSpace(b) then "" else [b];
    assert DropBlanks([a, b]) == if IsSpace(a) then DropBlanks([b]) else [a, b];
    DigitsOfTwo(a, b);
  }

  lemma DigitsOfTwo(a: char, b: char)
    ensures HexNumber([b], 0) == if IsHex(b) then HexVal(b) else 0
    ensures HexNumber([a, b], 0) ==
            if !IsHex(a) then 0 else if !IsHex(b) then HexVal(a) else HexVal(a) * 16 + HexVal(b)
  {
    hide HexVal;
    var t := [a, b];
    assert t[1..] == [b] && [b][1..] == "";
    assert IsHex(a) ==> HexNumber(t, 0) == HexNumber([b], HexVal(a));
  }

  /** A text with every '+' read as a space. */
  function Spaced(t: string): string {
    seq(|t|, i requires 0 <= i < |t| => if t[i] == '+' then ' ' else t[i])
  }

  lemma UrlDecodeOne(c: char, rest: string)
    requires Readable(rest) && (c == '%' ==> |rest| < 2)
    ensures Readable([c] + rest)
    ensures UrlDecode([c] + rest) == [if c == '+' then ' ' else c] + UrlDecode(rest)
  {
    hide HexStream;
    assert ([c] + rest)[1..] == rest;
  }

  /** Up to its first percent sign with two characters behind it, a text is copied, '+' as a space. */
  lemma {:induction false} UrlDecodeCopies(a: string, rest: string)
    requires forall i :: 0 <= i < |a| && a[i] == '%' ==> i + 2 >= |a + rest|
    requires Readable(rest)
    ensures Readable(a + rest) && UrlDecode(a + rest) == Spaced(a) + UrlDecode(rest)
  {
    hide Readable, UrlDecode;
    if a == "" {
      assert a + rest == rest;
    } else {
      UrlDecodeCopies(a[1..], rest);
      UrlDecodeOne(a[0], a[1..] + rest);
      assert a + rest == [a[0]] + (a[1..] + rest);
      assert Spaced(a) == [if a[0] == '+' then ' ' else a[0]] + Spaced(a[1..]);
    }
  }

  /** There, its two characters are read as a number, and one byte is stored. */
  lemma UrlDecodeReads(x: char, y: char, rest: string)
    requires ReadHex([x, y]).Some? && Readable(rest)
    ensures Readable(['%', x, y] + rest)
    ensures UrlDecode(['%', x, y] + rest) == [(ReadHex([x, y]).value % 256) as char] + UrlDecode(rest)
  {
    StreamReads(x, y);
    hide HexStream, ReadHex;
    assert (['%', x, y] + rest)[3..] == rest;
  }

  lemma UrlDecodeEmpty()
    ensures Readable("") && UrlDecode("") == ""
  {
  }

  // ---- The encoder url_decode undoes

  /** How one byte is written: as it is, as an escape in either case, or a space as '+'. */
  datatype Form = Raw | Upper | Lower | Plus

  function HexDigit(v: nat, form: Form): char
    requires v < 16
  {
    if v < 10 then '0' + v as char
    else if form == Lower then 'a' + (v - 10) as char
    else 'A' + (v - 10) as char
  }

  function EncodeByte(c: char, form: Form): string
    requires c as int < 256
  {
    if form == Plus && c == ' ' then "+"
    else if form == Raw && c != '%' && c != '+' then [c]
    else ['%', HexDigit(c as int / 16, form), HexDigit(c as int % 16, form)]
  }

  ghost predicate Bytes(s: string) {
    forall i :: 0 <= i < |s| ==> s[i] as int < 256
  }

  /** Any byte may be escaped; '%' and '+' always are. */
  function PercentEncode(s: string, forms: seq<Form>): string
    requires Bytes(s) && |forms| == |s|
  {
    if s == "" then "" else EncodeByte(s[0], forms[0]) + PercentEncode(s[1..], forms[1..])
  }

  lemma HexDigitInverse(v: nat, form: Form)
    requires v < 16
    ensures HexVal(HexDigit(v, form)) == v
    ensures !IsSpace(HexDigit(v, form)) && HexDigit(v, form) !in "%+-"
  {
  }

  /** An escape of two hex digits in front of a readable text. */
  lemma UrlDecodeEscape(hi: char, lo: char, rest: string)
    requires Readable(rest) && IsHex(hi) && IsHex(lo)
    ensures var s := ['%', hi, lo] + rest;
            Readable(s) && UrlDecode(s) == [Escaped(hi, lo)] + UrlDecode(rest)
  {
    assert HexStream(hi, lo) == Some(HexVal(hi) * 16 + HexVal(lo));
    hide HexStream, HexVal;
    assert (['%', hi, lo] + rest)[3..] == rest;
  }

  lemma UrlDecodeByte(c: char, form: Form, rest: string)
    requires c as int < 256 && Readable(rest)
    ensures Readable(EncodeByte(c, form) + rest)
    ensures UrlDecode(EncodeByte(c, form) + rest) == [c] + UrlDecode(rest)
  {
    HexDigitInverse(c as int / 16, form);
    HexDigitInverse(c as int % 16, form);
    hide HexDigit, HexVal, HexStream, Readable, UrlDecode;
    if form == Plus && c == ' ' {
      UrlDecodeOne('+', rest);
    } else if form == Raw && c != '%' && c != '+' {
      UrlDecodeOne(c, rest);
    } else {
      UrlDecodeEscape(HexDigit(c as int / 16, form), HexDigit(c as int % 16, form), rest);
    }
  }

  /** Decoding inverts encoding, whatever bytes are escaped and in whatever case. */
  lemma {:induction false} UrlDecodeInvertsEncode(s: string, forms: seq<Form>)
    requires Bytes(s) && |forms| == |s|
    ensures Readable(PercentEncode(s, forms)) && UrlDecode(PercentEncode(s, forms)) == s
  {
    if s == "" {
    } else {
      UrlDecodeInvertsEncode(s[1..], forms[1..]);
      UrlDecodeByte(s[0], forms[0], PercentEncode(s[1..], forms[1..]));
    }
  }

  // ---- decode_status_param

  predicate Terminator(c: char) {
    c == '\0' || c == '\n' || c == '\r'
  }

  /** The parameter text: what stands before the first NUL, CR or LF. */
  function StatusText(src: string): (r: string)
    ensures r <= src && (r == src || src[|r|] in "\0\n\r")
    ensures forall i :: 0 <= i < |r| ==> r[i] !in "\0\n\r"
  {
    if src == "" || Terminator(src[0]) then "" else [src[0]] + StatusText(src[1..])
  }

  /** Well-formed escapes collapse to one byte, all else is copied. */
  function StatusDecode(t: string): string {
    if t == "" then ""
    else if EscapeAt(t, 0) then [Escaped(t[1], t[2])] + StatusDecode(t[3..])
    else [t[0]] + StatusDecode(t[1..])
  }

  function CharAt(src: string, i: nat): char {
    if i < |src| then src[i] else '\0'
  }

  lemma TextAt(src: string, i: nat)
    requires i <= |StatusText(src)|
    ensures i < |StatusText(src)| ==> CharAt(src, i) == StatusText(src)[i]
    ensures i == |StatusText(src)| ==> Terminator(CharAt(src, i))
  {
  }

  /** One turn of the loop, seen from position i: a terminator is no hex digit, so no escape crosses the text's end. */
  lemma StatusStep(src: string, i: nat)
    requires i < |StatusText(src)|
    ensures var t := StatusText(src);
            && CharAt(src, i) == t[i] && !Terminator(t[i])
            && (EscapeAt(t, i) <==> t[i] == '%' && IsHex(CharAt(src, i + 1)) && IsHex(CharAt(src, i + 2)))
            && (EscapeAt(t, i) ==>
                  StatusDecode(t[i..]) == [Escaped(CharAt(src, i + 1), CharAt(src, i + 2))] + StatusDecode(t[i + 3..]))
            && (!EscapeAt(t, i) ==> StatusDecode(t[i..]) == [t[i]] + StatusDecode(t[i + 1..]))
  {
    var t := StatusText(src);
    TextAt(src, i);
    TextAt(src, i + 1);
    if i + 1 < |t| {
      TextAt(src, i + 2);
    }
    var rest := t[i..];
    assert EscapeAt(rest, 0) <==> EscapeAt(t, i);
    assert rest[1..] == t[i + 1..];
    if EscapeAt(rest, 0) {
      assert rest[3..] == t[i + 3..];
    }
  }

  /** The loop body: the next decoded byte, and where the text goes on. */
  method ReadStatusByte(src: string, i: nat) returns (c: char, next: nat)
    requires i < |StatusText(src)|
    ensures i < next <= |StatusText(src)|
    ensures StatusDecode(StatusText(src)[i..]) == [c] + StatusDecode(StatusText(src)[next..])
  {
    hide StatusText, StatusDecode, HexVal, EscapeAt;
    ghost var t := StatusText(src);
    StatusStep(src, i);
    if CharAt(src, i) == '%' {
      var hi := HexVal(CharAt(src, i + 1));
      var lo := if hi >= 0 then HexVal(CharAt(src, i + 2)) else -1;
      if hi >= 0 && lo >= 0 {
        HexRange(CharAt(src, i + 1));
        HexRange(CharAt(src, i + 2));
        EscapeInside(t, i);
        return (hi * 16 + lo) as char, i + 3;
      }
    }
    c, next := CharAt(src, i), i + 1;
  }

  /** The decoder writes the decoded text and its terminator, and needs room for both. */
  method DecodeStatusParam(src: string, dst: array<char>)
    requires |StatusDecode(StatusText(src))| < dst.Length
    modifies dst
    ensures var n := |StatusDecode(StatusText(src))|;
            dst[..] == StatusDecode(StatusText(src)) + "\0" + old(dst[n + 1..])
  {
    hide StatusText, StatusDecode, CharAt, AtEnd;
    ghost var t := StatusText(src);
    ghost var all := StatusDecode(t);
    var i, o := 0, 0;
    assert t[0..] == t;
    EndOfText(src, i);
    while !AtEnd(src, i)
      invariant i <= |t| && o <= |all| && (AtEnd(src, i) <==> i == |t|)
      invariant dst[..o] + StatusDecode(t[i..]) == all
      invariant forall k :: o <= k < dst.Length ==> dst[k] == old(dst[k])
      decreases |t| - i
    {
      ghost var before := dst[..o];
      var c, next := ReadStatusByte(src, i);
      dst[o] := c;
      o, i := o + 1, next;
      assert dst[..o] == before + [c];
      EndOfText(src, i);
    }
    StatusDecodeEmpty();
    assert t[i..] == "";
    dst[o] := '\0';
    assert dst[..] == dst[..o] + "\0" + dst[o + 1..];
  }

  predicate AtEnd(src: string, i: nat) {
    Terminator(CharAt(src, i))
  }

  lemma EndOfText(src: string, i: nat)
    requires i <= |StatusText(src)|
    ensures AtEnd(src, i) <==> i == |StatusText(src)|
  {
    TextAt(src, i);
  }

  lemma EscapeInside(t: string, i: nat)
    requires EscapeAt(t, i)
    ensures i + 3 <= |t|
  {
  }

  lemma HexRange(c: char)
    ensures HexVal(c) < 16
  {
  }

  lemma StatusDecodeEmpty()
    ensures StatusDecode("") == ""
  {
  }

  /** Without a well-formed escape a text is copied. */
  lemma {:induction false} StatusCopies(a: string, rest: string)
    requires forall i :: 0 <= i < |a| ==> !EscapeAt(a + rest, i)
    ensures StatusDecode(a + rest) == a + StatusDecode(rest)
  {
    if a == "" {
      assert a + rest == rest;
    } else {
      var t := a + rest;
      assert t[1..] == a[1..] + rest && !EscapeAt(t, 0);
      forall i | 0 <= i < |a[1..]| ensures !EscapeAt(a[1..] + rest, i) {
        assert !EscapeAt(t, i + 1);
      }
      hide EscapeAt;
      StatusCopies(a[1..], rest);
    }
  }

  /** A well-formed escape decodes to its byte. */
  lemma StatusReads(hi: char, lo: char, rest: string)
    requires IsHex(hi) && IsHex(lo)
    ensures StatusDecode(['%', hi, lo] + rest) == [(HexVal(hi) * 16 + HexVal(lo)) as char] + StatusDecode(rest)
  {
    assert (['%', hi, lo] + rest)[3..] == rest;
  }

  // ---- estimate_decoded_length

  /**
   The estimate. A buffer is zero from its terminating NUL on, so a scan that steps over the NUL
   stops at the next byte it reads.
   */
  function Estimate(src: string): nat {
    if src == "" || Terminator(src[0]) then 0
    else 1 + if src[0] != '%' then Estimate(src[1..]) else if |src| < 3 then 0 else Estimate(src[3..])
  }

  /** The estimator's loop; the last byte it reads is at most the second one after the NUL. */
  method EstimateDecodedLength(src: string) returns (n: nat, ghost last: nat)
    ensures n == Estimate(src)
    ensures last <= |src| + 2 && Terminator(CharAt(src, last))
  {
    n := 0;
    var i := 0;
    while !Terminator(CharAt(src, i))
      invariant i <= |src| + 2
      invariant n + (if i <= |src| then Estimate(src[i..]) else 0) == Estimate(src)
      decreases |src| + 2 - i
    {
      ghost var rest := src[i..];
      assert rest[1..] == src[i + 1..];
      if src[i] == '%' {
        assert i + 3 <= |src| ==> rest[3..] == src[i + 3..];
        i := i + 2;
        n := n + 1;
      } else {
        n := n + 1;
      }
      i := i + 1;
    }
    last := i;
  }

  /**
   What the scan counts past the end of the parameter text: nothing when it stops there, and
   everything from the text's end on when its last token straddles the terminator.
   */
  function Over(src: string): nat {
    var t := StatusText(src);
    if t == "" then 0
    else if t[0] != '%' then Over(src[1..])
    else if |t| >= 3 then Over(src[3..])
    else 3 - |t| + if |src| < 3 then 0 else Estimate(src[3..])
  }

  /** What follows the text adds to the estimate just what is counted there, and nothing when no token straddles. */
  lemma {:induction false} EstimateOfText(src: string)
    ensures StatusText(StatusText(src)) == StatusText(src)
    ensures Over(StatusText(src)) <= Over(src) && (Over(src) == 0 <==> Over(StatusText(src)) == 0)
    ensures Estimate(src) == Estimate(StatusText(src)) + (Over(src) - Over(StatusText(src)))
    decreases |src|
  {
    TextOfText(src);
    var t := StatusText(src);
    if t == "" {
    } else {
      var k := if t[0] == '%' then 3 else 1;
      if k <= |t| {
        StatusTextTail(src, k);
        EstimateOfText(src[k..]);
      }
    }
  }

  lemma {:induction false} TextOfText(src: string)
    ensures StatusText(StatusText(src)) == StatusText(src)
  {
    if StatusText(src) == "" {
    } else {
      TextOfText(src[1..]);
    }
  }

  lemma {:induction false} StatusTextTail(src: string, k: nat)
    requires k <= |StatusText(src)|
    ensures StatusText(src[k..]) == StatusText(src)[k..]
  {
    if k == 0 {
    } else {
      StatusTextTail(src[1..], k - 1);
      assert src[1..][k - 1..] == src[k..];
    }
  }

  /** No '%' in the last two positions of the text keeps the scan inside it. */
  lemma {:induction false} NoLatePercent(src: string)
    requires var t := StatusText(src); forall i :: 0 <= i < |t| && t[i] == '%' ==> i + 2 < |t|
    ensures Over(src) == 0
    decreases |src|
  {
    var t := StatusText(src);
    if t == "" {
    } else {
      var k := if t[0] == '%' then 3 else 1;
      StatusTextTail(src, k);
      NoLatePercent(src[k..]);
    }
  }

  // ---- Estimate against decoded length

  ghost predicate IsText(t: string) {
    forall i :: 0 <= i < |t| ==> !Terminator(t[i])
  }

  /** How many escapes are well formed, wherever they start. */
  function Escapes(t: string): nat {
    if t == "" then 0 else (if EscapeAt(t, 0) then 1 else 0) + Escapes(t[1..])
  }

  /** How many '%' the estimator stops at. */
  function Tokens(t: string): nat {
    if t == "" then 0
    else if t[0] != '%' then Tokens(t[1..])
    else 1 + if |t| < 3 then 0 else Tokens(t[3..])
  }

  /** The decoder saves two bytes on every well-formed escape: escapes never overlap. */
  lemma {:induction false} DecodedLength(t: string)
    ensures |StatusDecode(t)| == |t| - 2 * Escapes(t)
  {
    if t == "" {
    } else {
      if EscapeAt(t, 0) {
        DecodedLength(t[3..]);
        EscapesSplit(t);
      } else {
        DecodedLength(t[1..]);
      }
    }
  }

  /** The estimator saves two bytes on every token, and adds what it counts past the text. */
  lemma {:induction false} EstimatedLength(src: string)
    ensures Estimate(src) == |StatusText(src)| - 2 * Tokens(StatusText(src)) + Over(src)
  {
    var t := StatusText(src);
    if t == "" {
    } else {
      var k := if t[0] == '%' then 3 else 1;
      if k <= |t| {
        StatusTextTail(src, k);
        EstimatedLength(src[k..]);
      }
    }
  }

  lemma EscapesSplit(t: string)
    requires |t| >= 3
    ensures Escapes(t) == (if EscapeAt(t, 0) then 1 else 0) + (if EscapeAt(t, 1) then 1 else 0)
                        + (if EscapeAt(t, 2) then 1 else 0) + Escapes(t[3..])
  {
    assert t[1..][1..] == t[2..] && t[2..][1..] == t[3..];
    assert Escapes(t[1..]) == (if EscapeAt(t, 1) then 1 else 0) + Escapes(t[2..]);
    assert Escapes(t[2..]) == (if EscapeAt(t, 2) then 1 else 0) + Escapes(t[3..]);
  }

  /** The estimator stops at the '%' in position k. */
  predicate TokenAt(t: string, k: nat) {
    if t == "" then false
    else if t[0] != '%' then k > 0 && TokenAt(t[1..], k - 1)
    else k == 0 || (k >= 3 && |t| >= 3 && TokenAt(t[3..], k - 3))
  }

  /** Every well-formed escape starts inside a token. */
  function Owner(t: string, i: nat): (k: nat)
    requires EscapeAt(t, i)
    ensures TokenAt(t, k) && k <= i < k + 3
  {
    if t[0] != '%' then Owner(t[1..], i - 1) + 1
    else if i < 3 then 0
    else Owner(t[3..], i - 3) + 3
  }

  /** Different escapes start inside different tokens. */
  lemma OwnersDiffer(t: string, i: nat, j: nat)
    requires EscapeAt(t, i) && EscapeAt(t, j) && i < j
    ensures Owner(t, i) < Owner(t, j)
  {
    hide Owner;
    assert j >= i + 3;
  }

  lemma NoEscapeInShort(t: string)
    requires |t| < 3
    ensures Escapes(t) == 0
  {
    if t == "" {
    } else {
      NoEscapeInShort(t[1..]);
    }
  }

  /** So there are at least as many tokens as well-formed escapes. */
  lemma {:induction false} EscapesFitTokens(t: string)
    ensures Escapes(t) <= Tokens(t)
  {
    if t == "" {
    } else if t[0] == '%' && |t| >= 3 {
      EscapesSplit(t);
      EscapesFitTokens(t[3..]);
    } else if t[0] == '%' {
      NoEscapeInShort(t);
    } else {
      EscapesFitTokens(t[1..]);
    }
  }

  /** A well-formed escape starts somewhere inside every token. */
  predicate TokensHoldEscapes(t: string) {
    if t == "" then true
    else if t[0] != '%' then TokensHoldEscapes(t[1..])
    else |t| >= 3 && (EscapeAt(t, 0) || EscapeAt(t, 1) || EscapeAt(t, 2)) && TokensHoldEscapes(t[3..])
  }

  lemma {:induction false} EscapesFillTokens(t: string)
    ensures Escapes(t) == Tokens(t) <==> TokensHoldEscapes(t)
  {
    if t == "" {
    } else if t[0] == '%' && |t| >= 3 {
      EscapesSplit(t);
      EscapesFitTokens(t[3..]);
      EscapesFillTokens(t[3..]);
    } else if t[0] == '%' {
      NoEscapeInShort(t);
    } else {
      EscapesFillTokens(t[1..]);
    }
  }

  /** Past what it counts beyond the text, the estimate is never too large, and at most three times too small. */
  lemma EstimateBounds(src: string)
    ensures Estimate(src) - Over(src) <= |StatusDecode(StatusText(src))| <= 3 * Estimate(src)
  {
    DecodedLength(StatusText(src));
    EstimatedLength(src);
    EscapesFitTokens(StatusText(src));
    TokensCover(src);
  }

  lemma {:induction false} TokensCover(src: string)
    ensures |StatusText(src)| <= 3 * Estimate(src)
  {
    var t := StatusText(src);
    if t == "" {
    } else {
      var k := if t[0] == '%' then 3 else 1;
      if k <= |t| {
        StatusTextTail(src, k);
        TokensCover(src[k..]);
      }
    }
  }

  /** Two bytes are missing for every token that is no escape; what is counted past the text makes up for them. */
  predicate SlackCovers(src: string) {
    2 * (Tokens(StatusText(src)) - Escapes(StatusText(src))) <= Over(src)
  }

  /**
   The decoded text fits the estimate exactly when the slack covers the malformed tokens; when
   the scan stops at the text's end, exactly when every token holds a well-formed escape, and
   then the estimate is the decoded length.
   */
  lemma FitsIff(src: string)
    ensures |StatusDecode(StatusText(src))| <= Estimate(src) <==> SlackCovers(src)
    ensures Over(src) == 0 ==> (SlackCovers(src) <==> TokensHoldEscapes(StatusText(src)))
    ensures Over(src) == 0 ==>
              (|StatusDecode(StatusText(src))| == Estimate(src) <==> TokensHoldEscapes(StatusText(src)))
  {
    DecodedLength(StatusText(src));
    EstimatedLength(src);
    EscapesFitTokens(StatusText(src));
    EscapesFillTokens(StatusText(src));
  }

  /** Every '%' begins two hex digits. */
  ghost predicate WellFormed(t: string) {
    forall i :: 0 <= i < |t| && t[i] == '%' ==> EscapeAt(t, i)
  }

  lemma {:induction false} WellFormedFills(t: string)
    requires WellFormed(t)
    ensures TokensHoldEscapes(t)
  {
    if t == "" {
    } else {
      var k := if t[0] == '%' then 3 else 1;
      WellFormedTail(t, k);
      WellFormedFills(t[k..]);
    }
  }

  lemma WellFormedTail(t: string, k: nat)
    requires WellFormed(t) && k <= |t|
    ensures WellFormed(t[k..])
  {
    forall i | 0 <= i < |t[k..]| && t[k..][i] == '%' ensures EscapeAt(t[k..], i) {
      assert EscapeAt(t, k + i);
    }
  }

  /** Exact sizing: on well-formed text the estimate is the decoded length, whatever follows the text. */
  lemma ExactSizing(src: string)
    requires WellFormed(StatusText(src))
    ensures Estimate(src) == |StatusDecode(StatusText(src))|
  {
    hide Estimate, Over, StatusDecode, Tokens, Escapes, TokensHoldEscapes;
    NoLatePercent(src);
    WellFormedFills(StatusText(src));
    FitsIff(src);
  }

  /** The two decoders agree on well-formed text without '+'. */
  lemma {:induction false} DecodersAgree(t: string)
    requires IsText(t) && WellFormed(t) && '+' !in t
    ensures Readable(t) && UrlDecode(t) == StatusDecode(t)
    decreases |t|
  {
    hide HexStream, HexVal, Readable, UrlDecode;
    if t == "" {
      UrlDecodeEmpty();
    } else if t[0] == '%' {
      assert EscapeAt(t, 0);
      WellFormedTail(t, 3);
      DecodersAgree(t[3..]);
      assert t == ['%', t[1], t[2]] + t[3..];
      UrlDecodeEscape(t[1], t[2], t[3..]);
    } else {
      WellFormedTail(t, 1);
      DecodersAgree(t[1..]);
      assert t == [t[0]] + t[1..];
      assert t[0] in t;
      UrlDecodeOne(t[0], t[1..]);
    }
  }

  /** A malformed escape decodes past the estimate. */
  lemma MalformedOverflows()
    ensures Estimate("%GZ") == 1 && |StatusDecode("%GZ")| == 3
  {
    var t := "%GZ";
    assert t[3..] == "" && t[1..] == "GZ" && t[1..][1..] == "Z" && t[1..][1..][1..] == "";
  }

  /** A token that straddles the terminator can leave room for its malformed text. */
  lemma StraddlingFits()
    ensures var src := "%\r\n";
            StatusText(src) == "%" && !TokensHoldEscapes("%") && Estimate(src) == 1 && |StatusDecode("%")| == 1
  {
    var src := "%\r\n";
    assert src[1..] == "\r\n" && src[3..] == "" && "%"[1..] == "";
  }

  /** At the end of a request the zeros behind it are such room: enough for "50%", not for "%G". */
  lemma RequestEnds()
    ensures Estimate("50%") == |StatusDecode(StatusText("50%"))| == 3
    ensures Estimate("%G") == 1 && |StatusDecode(StatusText("%G"))| == 2
  {
    assert "50%"[1..] == "0%" && "0%"[1..] == "%" && "%"[1..] == "";
    assert "%G"[1..] == "G" && "G"[1..] == "";
    assert StatusText("%") == "%" && StatusText("0%") == "0%" && StatusText("G") == "G";
  }

  /** The parameter system_status reads: what follows the first "status=". */
  function StatusParam(request: string): Option<string> {
    var at := Find(request, "status=", 0);
    if at.None? then None else Some(request[at.value + 7..])
  }

  /** The parameter read is all that follows the first "status=", if there is one. */
  lemma StatusParamReads(before: string, text: string)
    ensures FirstAt(before + "status=" + text, "status=", |before|) ==>
              StatusParam(before + "status=" + text) == Some(text)
    ensures !Contains(before, "status=") ==> StatusParam(before) == None
  {
    var request := before + "status=" + text;
    MatchesConcat(request, before, "status=", text);
    hide MatchesAt;
    if FirstAt(request, "status=", |before|) {
      FindUnique(request, "status=", 0, |before|);
      assert request[|before| + 7..] == text;
    }
  }

  /**
   system_status: size the buffer with the estimator, then decode into it. The precondition is
   the exact one under which the decoded text and its NUL fit; by FitsIff the buffer is filled
   to its last byte when the scan stops at the text's end.
   */
  method SystemStatus(request: string) returns (message: array?<char>)
    requires var src := StatusParam(request); src.Some? ==> SlackCovers(src.value)
    ensures message == null <==> StatusParam(request).None?
    ensures message != null ==>
              var src := StatusParam(request).value;
              var decoded := StatusDecode(StatusText(src));
              && fresh(message) && message.Length == Estimate(src) + 1
              && |decoded| < message.Length && message[..|decoded| + 1] == decoded + "\0"
  {
    hide SlackCovers, StatusDecode, StatusText, Over, Estimate;
    var param := StatusParam(request);
    if param.None? {
      return null;
    }
    FitsIff(param.value);
    var decodedLen, _ := EstimateDecodedLength(param.value);
    message := new char[decodedLen + 1](_ => 'x');
    DecodeStatusParam(param.value, message);
    ghost var decoded := StatusDecode(StatusText(param.value));
    assert message[..|decoded| + 1] == message[..][..|decoded| + 1];
  }
}
