/**
 extract_username_password of src/utils.cpp: the credentials of RFC 7617 section 2, decoded
 into a buffer and cut at its first colon, and the check of src/authentication.cpp.
 */
module Credentials {
  import opened Options
  import opened Text
  import Base64

  type byte = Base64.byte

  datatype Extracted =
    | Threw                                     // substr out of range: an exception leaves the function
    | Rejected
    | Accepted(user: string, password: string)

  function Octets(s: string): (r: seq<byte>)
    requires forall i :: 0 <= i < |s| ==> s[i] as int < 256
    ensures |r| == |s| && forall i :: 0 <= i < |r| ==> r[i] == s[i] as int
  {
    seq(|s|, i requires 0 <= i < |s| => s[i] as int)
  }

  function Chars(o: seq<byte>): (r: string)
    ensures |r| == |o| && forall i :: 0 <= i < |r| ==> r[i] == o[i] as char
  {
    seq(|o|, i requires 0 <= i < |o| => o[i] as char)
  }

  /** A buffer of octets read as a C string. */
  function CText(o: seq<byte>): (r: string)
    ensures |r| <= |o| && forall i :: 0 <= i < |r| ==> r[i] == o[i] as char && o[i] != 0
    ensures |r| < |o| ==> o[|r|] == 0
  {
    Chars(UpTo(o, 0))
  }

  lemma CTextIs(o: seq<byte>, n: nat)
    requires n <= |o| && (forall i :: 0 <= i < n ==> o[i] != 0) && (n < |o| ==> o[n] == 0)
    ensures CText(o) == Chars(o[..n])
  {
    UpToIs(o, 0, o[..n]);
  }

  /** The text before the first colon and the text after it. */
  function CutAtColon(text: string): Extracted {
    var colon := FindChar(text, ':', 0);
    if colon.None? then Rejected else Accepted(text[..colon.value], text[colon.value + 1..])
  }

  /** Six characters are skipped unread; what they are is never checked. */
  const PREFIX: nat := 6

  /** An empty encoded part is never passed to the decoder. */
  function Extract(header: string): (r: Extracted)
    requires |header| != PREFIX
    ensures r.Accepted? ==> ':' !in r.user && NulFree(r.user) && NulFree(r.password)
  {
    if |header| < PREFIX then Threw
    else
      var decoded := Base64.Decode(header[PREFIX..]);
      if decoded.None? || decoded.value == [] then Rejected else CutAtColon(CText(decoded.value))
  }

  lemma CTextOfOctets(s: string)
    requires (forall i :: 0 <= i < |s| ==> s[i] as int < 256) && NulFree(s)
    ensures CText(Octets(s)) == s
  {
    var o := Octets(s);
    forall i | 0 <= i < |o| ensures o[i] != 0 {
      assert s[i] in s;
    }
    CTextIs(o, |o|);
    assert o[..|o|] == o;
  }

  lemma CutAtFirstColon(user: string, password: string)
    requires ':' !in user
    ensures CutAtColon(user + ":" + password) == Accepted(user, password)
  {
    var text := user + ":" + password;
    FindCharUnique(text, ':', 0, |user|);
    assert text[..|user|] == user && text[|user| + 1..] == password;
  }

  /** Any user without a colon and any password come back exactly, however many colons the password has. */
  lemma CredentialsRoundTrip(user: string, password: string)
    requires ':' !in user && NulFree(user) && NulFree(password)
    requires forall i :: 0 <= i < |user + ":" + password| ==> (user + ":" + password)[i] as int < 256
    ensures Extract("Basic " + Base64.Encode(Octets(user + ":" + password))) == Accepted(user, password)
  {
    var text := user + ":" + password;
    var encoded := Base64.Encode(Octets(text));
    assert ("Basic " + encoded)[PREFIX..] == encoded;
    Base64.DecodeEncode(Octets(text));
    CTextOfOctets(text);
    CutAtFirstColon(user, password);
  }

  /** On a canonical header whose decoded text has no NUL, exactly the printed pair is accepted. */
  lemma AcceptedIff(header: string, user: string, password: string)
    requires |header| > PREFIX && Base64.Canonical(header[PREFIX..])
    requires Base64.Decode(header[PREFIX..]).Some? && 0 !in Base64.Decode(header[PREFIX..]).value
    requires forall i :: 0 <= i < |user + ":" + password| ==> (user + ":" + password)[i] as int < 256
    requires NulFree(user) && NulFree(password)
    ensures Extract(header) == Accepted(user, password)
       <==> ':' !in user && header[PREFIX..] == Base64.Encode(Octets(user + ":" + password))
  {
    var encoded := header[PREFIX..];
    var d := Base64.Decode(encoded).value;
    Base64.EncodeDecode(encoded);
    if Extract(header) == Accepted(user, password) {
      AcceptedEncodes(d, user, password);
    } else if ':' !in user && encoded == Base64.Encode(Octets(user + ":" + password)) {
      Base64.DecodeEncode(Octets(user + ":" + password));
      CTextOfOctets(user + ":" + password);
      CutAtFirstColon(user, password);
    }
  }

  lemma AcceptedEncodes(d: seq<byte>, user: string, password: string)
    requires 0 !in d && CutAtColon(CText(d)) == Accepted(user, password)
    requires forall i :: 0 <= i < |user + ":" + password| ==> (user + ":" + password)[i] as int < 256
    ensures Octets(user + ":" + password) == d && ':' !in user
  {
    var text := CText(d);
    hide CText;
    assert |text| == |d|;
    assert text == user + ":" + password;
    assert Octets(text) == d;
  }

  lemma CutIff(text: string, user: string, password: string)
    ensures CutAtColon(text) == Accepted(user, password) <==> ':' !in user && text == user + ":" + password
    ensures CutAtColon(text) == Rejected <==> ':' !in text
    ensures CutAtColon(text) != Threw
  {
    if ':' !in user && text == user + ":" + password {
      CutAtFirstColon(user, password);
    }
    var colon := FindChar(text, ':', 0);
    hide FindChar;
    if colon.Some? {
      assert text == text[..colon.value] + ":" + text[colon.value + 1..];
    }
  }

  /**
   What any header comes to: too short to skip six characters, an exception; else what follows
   them is decoded, read as a C string, and accepted as the pair its first colon makes.
   */
  lemma ExtractIff(header: string, user: string, password: string)
    requires |header| != 6
    ensures Extract(header) == Threw <==> |header| < 6
    ensures Extract(header) == Accepted(user, password) <==>
              && |header| > 6 && Base64.Decode(header[6..]).Some?
              && ':' !in user && CText(Base64.Decode(header[6..]).value) == user + ":" + password
    ensures Extract(header) == Rejected <==>
              |header| > 6 && (Base64.Decode(header[6..]).None? || ':' !in CText(Base64.Decode(header[6..]).value))
  {
    hide Base64.Decode, CText, CutAtColon;
    if |header| > 6 {
      var decoded := Base64.Decode(header[6..]);
      if decoded.Some? {
        CutIff(CText(decoded.value), user, password);
        assert decoded.value == [] ==> CText(decoded.value) == "";
      }
    }
  }

  /** authenticate: the one account. */
  predicate Authenticate(user: string, password: string) {
    user == "admin" && password == "admin"
  }

  /** The position of the first colon of a C string in a buffer: strchr. */
  function ColonIn(o: seq<byte>): Option<nat> {
    FindChar(CText(o), ':', 0)
  }

  /** What stands from a NUL on does not matter. */
  lemma CTextPrefix(o: seq<byte>, n: nat)
    requires n < |o| && o[n] == 0
    ensures CText(o) == CText(o[..n])
  {
    var k := |CText(o[..n])|;
    CTextIs(o[..n], k);
    CTextIs(o, k);
    assert o[..n][..k] == o[..k];
  }

  lemma CTextDrop(o: seq<byte>, k: nat)
    requires k <= |CText(o)|
    ensures CText(o[k..]) == CText(o)[k..]
  {
    CTextIs(o[k..], |CText(o)| - k);
  }

  lemma CTextTake(o: seq<byte>, k: nat)
    requires k <= |CText(o)|
    ensures CText(o[..k]) == CText(o)[..k]
  {
    CTextIs(o[..k], k);
  }

  /** The credentials parser as it works on its buffer: terminate it, cut it at the colon, read both halves. */
  method ExtractUsernamePassword(codec: Base64.Codec, header: string) returns (r: Extracted)
    requires codec.Valid() && |header| != PREFIX
    requires forall i :: 0 <= i < |header| ==> header[i] as int < 256
    modifies codec
    ensures codec.Valid() && r == Extract(header)
  {
    hide Base64.Decode, CText, FindChar;
    if |header| < PREFIX {
      return Threw;
    }
    var encoded := header[PREFIX..];
    var buffer, length, written := codec.DecodeBuffer(encoded);
    if buffer == null || length == 0 {
      return Rejected;
    }
    ghost var d := Base64.Decode(encoded).value;
    buffer[length] := 0;
    CTextPrefix(buffer[..], length);
    assert buffer[..][..length] == d;
    var colon := ColonIn(buffer[..]);
    if colon.None? {
      return Rejected;
    }
    ghost var before := buffer[..];
    buffer[colon.value] := 0;
    var user := CText(buffer[..]);
    var password := CText(buffer[colon.value + 1..]);
    CTextPrefix(buffer[..], colon.value);
    assert buffer[..][..colon.value] == before[..colon.value];
    CTextTake(before, colon.value);
    assert buffer[colon.value + 1..] == before[colon.value + 1..];
    CTextDrop(before, colon.value + 1);
    r := Accepted(user, password);
  }
}
