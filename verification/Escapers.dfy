/**
 json_escape of src/handlers/status.cpp and html_escape of src/handlers/echo.cpp, with a
 reader for each: a JSON string body (RFC 8259 section 7) and the four HTML entities.
 */
module Escapers {
  import opened Options
  import opened Percent

  // ---- JSON

  function JsonChar(c: char): (r: string)
    ensures 1 <= |r|
  {
    if c == '"' || c == '\\' then ['\\', c]
    else if c as int < 0x20 then ['\\', 'u', '0', '0', HexDigit(c as int / 16, Lower), HexDigit(c as int % 16, Lower)]
    else [c]
  }

  function JsonEscape(s: string): string {
    if s == "" then "" else JsonChar(s[0]) + JsonEscape(s[1..])
  }

  lemma JsonEscapeStep(s: string, p: nat)
    requires p < |s|
    ensures JsonEscape(s[p..]) == JsonChar(s[p]) + JsonEscape(s[p + 1..])
  {
    assert s[p..][1..] == s[p + 1..];
  }

  method JsonEscapeLoop(s: string) returns (out: string)
    ensures out == JsonEscape(s)
  {
    hide JsonEscape, HexDigit;
    out := "";
    var p := 0;
    assert s[0..] == s;
    while p < |s|
      invariant p <= |s| && out + JsonEscape(s[p..]) == JsonEscape(s)
    {
      JsonEscapeStep(s, p);
      var c := s[p];
      var piece: string;
      if c == '"' || c == '\\' {
        piece := ['\\', c];
      } else if c as int < 0x20 {
        piece := ['\\', 'u', '0', '0', HexDigit(c as int / 16, Lower), HexDigit(c as int % 16, Lower)];
      } else {
        piece := [c];
      }
      assert piece == JsonChar(c);
      out := out + piece;
      p := p + 1;
    }
    assert s[p..] == "";
    JsonEscapeEmpty();
  }

  lemma JsonEscapeEmpty()
    ensures JsonEscape("") == ""
  {
  }

  /** The value of four hex digits, when they are that and no surrogate. */
  function UnicodeEscape(s: string): Option<char>
    requires |s| == 4
  {
    if !IsHex(s[0]) || !IsHex(s[1]) || !IsHex(s[2]) || !IsHex(s[3]) then None else
    var code := ((HexVal(s[0]) * 16 + HexVal(s[1])) * 16 + HexVal(s[2])) * 16 + HexVal(s[3]);
    if code < 0xD800 || code >= 0xE000 then Some(code as char) else None
  }

  function ShortEscape(c: char): Option<char> {
    if c == '"' || c == '\\' || c == '/' then Some(c)
    else if c == 'b' then Some(8 as char)
    else if c == 'f' then Some(12 as char)
    else if c == 'n' then Some('\n')
    else if c == 'r' then Some('\r')
    else if c == 't' then Some('\t')
    else None
  }

  /** The text a JSON string body stands for; None at a bare quote, a control character or a bad escape. */
  function JsonRead(s: string): Option<string> {
    if s == "" then Some("")
    else if s[0] == '"' || s[0] as int < 0x20 then None
    else
      var (c, n) :=
        if s[0] != '\\' then (Some(s[0]), 1)
        else if |s| >= 6 && s[1] == 'u' then (UnicodeEscape(s[2..6]), 6)
        else if |s| >= 2 then (ShortEscape(s[1]), 2)
        else (None, 1);
      if c.None? then None else
      var rest := JsonRead(s[n..]);
      if rest.None? then None else Some([c.value] + rest.value)
  }

  lemma JsonReadChar(c: char, rest: string)
    requires JsonRead(rest).Some?
    ensures JsonRead(JsonChar(c) + rest) == Some([c] + JsonRead(rest).value)
  {
    var e := JsonChar(c);
    var s := e + rest;
    assert s[|e|..] == rest;
    if c as int < 0x20 {
      HexDigitInverse(c as int / 16, Lower);
      HexDigitInverse(c as int % 16, Lower);
      hide HexDigit;
      assert HexVal('0') == 0;
      assert s[2..6] == e[2..];
      assert UnicodeEscape(s[2..6]) == Some(c);
    }
  }

  /** Reading inverts escaping, so the escaped text never holds a bare quote or a control character. */
  lemma {:induction false} JsonReadsBack(s: string)
    ensures JsonRead(JsonEscape(s)) == Some(s)
  {
    if s == "" {
    } else {
      JsonReadsBack(s[1..]);
      assert s == [s[0]] + s[1..];
      JsonReadChar(s[0], JsonEscape(s[1..]));
    }
  }

  predicate Plain(c: char) {
    c != '"' && c != '\\' && c as int >= 0x20
  }

  lemma PlainChar(c: char)
    requires Plain(c)
    ensures JsonChar(c) == [c]
  {
  }

  lemma PlainTail(a: string)
    requires a != "" && forall c :: c in a ==> Plain(c)
    ensures Plain(a[0]) && forall c :: c in a[1..] ==> Plain(c)
  {
    hide Plain;
    assert a[0] in a && forall c :: c in a[1..] ==> c in a;
  }

  /** Characters that need no escape are copied. */
  lemma {:induction false} JsonCopies(a: string, rest: string)
    requires forall c :: c in a ==> Plain(c)
    ensures JsonEscape(a + rest) == a + JsonEscape(rest)
  {
    hide *;
    if a == "" {
      assert a + rest == rest && a + JsonEscape(rest) == JsonEscape(rest);
    } else {
      PlainTail(a);
      PlainChar(a[0]);
      JsonCopies(a[1..], rest);
      JsonCons(a[0], a[1..] + rest);
      Front(a, rest);
      Front(a, JsonEscape(rest));
    }
  }

  lemma JsonCons(c: char, rest: string)
    ensures JsonEscape([c] + rest) == JsonChar(c) + JsonEscape(rest)
  {
    hide JsonChar;
    assert ([c] + rest)[1..] == rest;
  }

  lemma Front(a: string, t: string)
    requires a != ""
    ensures [a[0]] + (a[1..] + t) == a + t
  {
  }

  /** A quote or backslash gets a backslash; a control character, four lower-case hex digits. */
  lemma JsonEscapes(c: char, rest: string)
    requires !Plain(c)
    ensures c == '"' || c == '\\' ==> JsonEscape([c] + rest) == ['\\', c] + JsonEscape(rest)
    ensures c as int < 0x20 ==>
              JsonEscape([c] + rest) ==
              "\\u00" + [if c as int < 16 then '0' else '1', "0123456789abcdef"[c as int % 16]] + JsonEscape(rest)
  {
    JsonCons(c, rest);
    if c as int < 0x20 {
      assert c as int / 16 == if c as int < 16 then 0 else 1;
      LowerDigit(c as int % 16);
      hide HexDigit, JsonEscape;
      assert JsonChar(c) == "\\u00" + [if c as int < 16 then '0' else '1', "0123456789abcdef"[c as int % 16]] by {
        LowerDigit(c as int / 16);
      }
    }
  }

  lemma LowerDigit(v: nat)
    requires v < 16
    ensures HexDigit(v, Lower) == "0123456789abcdef"[v]
  {
  }

  lemma JsonInjective(s: string, t: string)
    requires JsonEscape(s) == JsonEscape(t)
    ensures s == t
  {
    JsonReadsBack(s);
    JsonReadsBack(t);
  }

  // ---- HTML

  function HtmlChar(c: char): (r: string)
    ensures r != ""
  {
    if c == '&' then "&amp;"
    else if c == '<' then "&lt;"
    else if c == '>' then "&gt;"
    else if c == '"' then "&quot;"
    else [c]
  }

  function HtmlEscape(s: string): string {
    if s == "" then "" else HtmlChar(s[0]) + HtmlEscape(s[1..])
  }

  method HtmlEscapeLoop(s: string) returns (out: string)
    ensures out == HtmlEscape(s)
  {
    hide HtmlEscape;
    out := "";
    HtmlEscapeEmpty();
    for i := 0 to |s|
      invariant out == HtmlEscape(s[..i])
    {
      var c := s[i];
      HtmlEscapeSnoc(s[..i], c);
      assert s[..i + 1] == s[..i] + [c];
      if c == '&' { out := out + "&amp;"; }
      else if c == '<' { out := out + "&lt;"; }
      else if c == '>' { out := out + "&gt;"; }
      else if c == '"' { out := out + "&quot;"; }
      else { out := out + [c]; }
    }
    assert s[..|s|] == s;
  }

  lemma HtmlEscapeEmpty()
    ensures HtmlEscape("") == ""
  {
  }

  lemma {:induction false} HtmlEscapeSnoc(s: string, c: char)
    ensures HtmlEscape(s + [c]) == HtmlEscape(s) + HtmlChar(c)
  {
    hide HtmlChar;
    if s == "" {
      assert HtmlEscape([c]) == HtmlChar(c) + HtmlEscape([c][1..]);
    } else {
      assert (s + [c])[1..] == s[1..] + [c];
      HtmlEscapeSnoc(s[1..], c);
    }
  }

  /** The entity at the front of a text: the character it names and its length. */
  function Entity(s: string): Option<(char, nat)> {
    if "&amp;" <= s then Some(('&', 5))
    else if "&lt;" <= s then Some(('<', 4))
    else if "&gt;" <= s then Some(('>', 4))
    else if "&quot;" <= s then Some(('"', 6))
    else None
  }

  /** The text markup stands for; None at a bare bracket or quote, or at an unknown entity. */
  function HtmlRead(s: string): Option<string> {
    if s == "" then Some("")
    else if s[0] in "<>\"" then None
    else
      var unit := if s[0] != '&' then Some((s[0], 1)) else Entity(s);
      if unit.None? || unit.value.1 == 0 || unit.value.1 > |s| then None else
      var rest := HtmlRead(s[unit.value.1..]);
      if rest.None? then None else Some([unit.value.0] + rest.value)
  }

  lemma EntityOf(c: char, rest: string)
    requires c in "&<>\""
    ensures Entity(HtmlChar(c) + rest) == Some((c, |HtmlChar(c)|)) && HtmlChar(c)[0] == '&'
  {
    var s := HtmlChar(c) + rest;
    assert HtmlChar(c) <= s && s[1] == HtmlChar(c)[1];
  }

  lemma HtmlReadChar(c: char, rest: string)
    requires HtmlRead(rest).Some?
    ensures HtmlRead(HtmlChar(c) + rest) == Some([c] + HtmlRead(rest).value)
  {
    var s := HtmlChar(c) + rest;
    assert s[|HtmlChar(c)|..] == rest;
    if c in "&<>\"" {
      EntityOf(c, rest);
      hide HtmlChar, Entity;
    }
  }

  /** Reading inverts escaping, so the escaped text never holds a bare bracket or quote. */
  lemma {:induction false} HtmlReadsBack(s: string)
    ensures HtmlRead(HtmlEscape(s)) == Some(s)
  {
    if s == "" {
    } else {
      HtmlReadsBack(s[1..]);
      assert s == [s[0]] + s[1..];
      HtmlReadChar(s[0], HtmlEscape(s[1..]));
    }
  }

  lemma HtmlInjective(s: string, t: string)
    requires HtmlEscape(s) == HtmlEscape(t)
    ensures s == t
  {
    HtmlReadsBack(s);
    HtmlReadsBack(t);
  }
}
