/**
 src/base64.cpp: the Base64 codec of RFC 4648 section 4, over buffers. Symbols are characters
 below 256, data are octets. The decoder takes any text: a symbol outside the alphabet reads
 as -1 and its 32-bit arithmetic wraps.
 */
module Base64 {
  import opened Options

  type byte = b: int | 0 <= b < 256

  const ROW0 := "ABCDEFGHIJKLMNOP"
  const ROW1 := "QRSTUVWXYZabcdef"
  const ROW2 := "ghijklmnopqrstuv"
  const ROW3 := "wxyz0123456789+/"
  const ENCODING_TABLE := ROW0 + ROW1 + ROW2 + ROW3
  const WORD := 0x1_0000_0000  // uint32_t wraps here

  function TableSymbol(v: nat): char
    requires v < 64
  {
    assert |ENCODING_TABLE| == 64;
    ENCODING_TABLE[v]
  }

  /** The alphabet of RFC 4648, Table 1. */
  function Symbol(v: nat): char
    requires v < 64
  {
    if v < 26 then 'A' + v as char
    else if v < 52 then 'a' + (v - 26) as char
    else if v < 62 then '0' + (v - 52) as char
    else if v == 62 then '+'
    else '/'
  }

  /** The value of a symbol, -1 outside the alphabet. */
  function SymbolValue(c: char): int {
    if 'A' <= c <= 'Z' then c as int - 'A' as int
    else if 'a' <= c <= 'z' then c as int - 'a' as int + 26
    else if '0' <= c <= '9' then c as int - '0' as int + 52
    else if c == '+' then 62
    else if c == '/' then 63
    else -1
  }

  lemma SymbolInverse(v: nat)
    requires v < 64
    ensures SymbolValue(Symbol(v)) == v && Symbol(v) != '=' && (Symbol(v) as int) < 256
  {
  }

  lemma ValueInverse(c: char)
    requires SymbolValue(c) >= 0
    ensures SymbolValue(c) < 64 && Symbol(SymbolValue(c)) == c
  {
  }

  lemma TableIsAlphabet(v: nat)
    requires v < 64
    ensures TableSymbol(v) == Symbol(v)
  {
    if v < 16 {
      assert ROW0[v] == Symbol(v);
    } else if v < 32 {
      assert ROW1[v - 16] == Symbol(v);
    } else if v < 48 {
      assert ROW2[v - 32] == Symbol(v);
    } else {
      assert ROW3[v - 48] == Symbol(v);
    }
  }

  // ---- Encoding

  function EncodeGroup(a: byte, b: byte, c: byte): (r: string)
    ensures |r| == 4
  {
    [Symbol(a / 4), Symbol(a % 4 * 16 + b / 16), Symbol(b % 16 * 4 + c / 64), Symbol(c % 64)]
  }

  /** A last group of one octet: four zero bits are added. */
  function EncodeOne(a: byte): (r: string)
    ensures |r| == 4
  {
    [Symbol(a / 4), Symbol(a % 4 * 16), '=', '=']
  }

  /** A last group of two octets: two zero bits are added. */
  function EncodeTwo(a: byte, b: byte): (r: string)
    ensures |r| == 4
  {
    [Symbol(a / 4), Symbol(a % 4 * 16 + b / 16), Symbol(b % 16 * 4), '=']
  }

  /** RFC 4648 section 4: groups of three octets, and a padded last group of one or two. */
  function Encode(d: seq<byte>): (r: string)
    ensures |r| == 4 * ((|d| + 2) / 3)
  {
    if d == [] then ""
    else if |d| == 1 then EncodeOne(d[0])
    else if |d| == 2 then EncodeTwo(d[0], d[1])
    else EncodeGroup(d[0], d[1], d[2]) + Encode(d[3..])
  }

  // ---- Decoding

  /** What the decoder reads for one symbol: padding is 0, anything unknown is -1 as a 32-bit word. */
  function Sextet(c: char): (r: nat)
    ensures r < WORD
  {
    if c == '=' then 0 else SymbolValue(c) % WORD
  }

  /** (a << 18) + (b << 12) + (c << 6) + d on 32-bit words, cut into its three low octets. */
  function Unpack(x: nat, y: nat, z: nat, w: nat): (r: seq<byte>)
    ensures |r| == 3
  {
    var t := Pack(x, y, z, w) % WORD;
    [t / 65536 % 256, t / 256 % 256, t % 256]
  }

  function Pack(x: nat, y: nat, z: nat, w: nat): nat {
    x * 262144 + y * 4096 + z * 64 + w
  }

  function DecodeGroup(s: string): (r: seq<byte>)
    requires |s| == 4
    ensures |r| == 3
  {
    Unpack(Sextet(s[0]), Sextet(s[1]), Sextet(s[2]), Sextet(s[3]))
  }

  function DecodeGroups(s: string): (r: seq<byte>)
    requires |s| % 4 == 0
    ensures |r| == |s| / 4 * 3
  {
    if s == "" then [] else DecodeGroup(s[..4]) + DecodeGroups(s[4..])
  }

  /** The length the decoder announces. */
  function OutputLength(s: string): (r: nat)
    requires |s| % 4 == 0 && s != ""
    ensures r <= |s| / 4 * 3 <= r + 2
  {
    |s| / 4 * 3 - (if s[|s| - 1] == '=' then 1 else 0) - (if s[|s| - 2] == '=' then 1 else 0)
  }

  /** What base64_decode returns for a non-empty text: nothing, or as many octets as announced. */
  function Decode(s: string): Option<seq<byte>>
    requires s != ""
  {
    if |s| % 4 != 0 then None else Some(DecodeGroups(s)[..OutputLength(s)])
  }

  // ---- Round trips

  lemma DivMod(t: nat, k: nat, q: nat, r: nat)
    requires k in {4, 16, 64, 256, 4096, 65536, 262144} && t == k * q + r && r < k
    ensures t / k == q && t % k == r
  {
    if k == 4 {
    } else if k == 16 {
    } else if k == 64 {
    } else if k == 256 {
    } else if k == 4096 {
    } else if k == 65536 {
    } else {
      assert k == 262144;
    }
  }

  lemma PackOctets(x: nat, y: nat, z: nat, w: nat)
    requires x < 64 && y < 64 && z < 64 && w < 64
    ensures var t := Pack(x, y, z, w);
            var o0, o1, o2 := x * 4 + y / 16, y % 16 * 16 + z / 4, z % 4 * 64 + w;
            o0 < 256 && o1 < 256 && o2 < 256 && t == 65536 * o0 + (256 * o1 + o2)
  {
  }

  lemma CutOctets(t: nat, o0: byte, o1: byte, o2: byte)
    requires t == 65536 * o0 + (256 * o1 + o2)
    ensures t / 65536 % 256 == o0 && t / 256 % 256 == o1 && t % 256 == o2
  {
    DivMod(t, 65536, o0, 256 * o1 + o2);
    DivMod(t, 256, 256 * o0 + o1, o2);
    DivMod(256 * o0 + o1, 256, o0, o1);
  }

  lemma UnpackNumber(x: nat, y: nat, z: nat, w: nat, o0: byte, o1: byte, o2: byte)
    requires Pack(x, y, z, w) == 65536 * o0 + (256 * o1 + o2)
    ensures Unpack(x, y, z, w) == [o0, o1, o2]
  {
    hide Pack;
    SmallWord(Pack(x, y, z, w));
    CutOctets(Pack(x, y, z, w), o0, o1, o2);
  }

  lemma SmallWord(t: nat)
    requires t < 0x100_0000
    ensures t % WORD == t
  {
  }

  /** Four sextets are three octets: the 24 bits in order. */
  lemma UnpackOctets(x: nat, y: nat, z: nat, w: nat)
    requires x < 64 && y < 64 && z < 64 && w < 64
    ensures Unpack(x, y, z, w) == [x * 4 + y / 16, y % 16 * 16 + z / 4, z % 4 * 64 + w]
  {
    PackOctets(x, y, z, w);
    hide Pack, Unpack;
    UnpackNumber(x, y, z, w, x * 4 + y / 16, y % 16 * 16 + z / 4, z % 4 * 64 + w);
  }

  lemma UnpackSextets(a: byte, b: byte, c: byte)
    ensures Unpack(a / 4, a % 4 * 16 + b / 16, b % 16 * 4 + c / 64, c % 64) == [a, b, c]
  {
    hide Unpack;
    var y, z := a % 4 * 16 + b / 16, b % 16 * 4 + c / 64;
    UnpackOctets(a / 4, y, z, c % 64);
    DivMod(y, 16, a % 4, b / 16);
    DivMod(z, 4, b % 16, c / 64);
  }

  lemma SextetsUnpack(x: nat, y: nat, z: nat, w: nat)
    requires x < 64 && y < 64 && z < 64 && w < 64
    ensures var o := Unpack(x, y, z, w);
            EncodeGroup(o[0], o[1], o[2]) == [Symbol(x), Symbol(y), Symbol(z), Symbol(w)]
  {
    hide Unpack, Symbol;
    UnpackOctets(x, y, z, w);
    DivMod(x * 4 + y / 16, 4, x, y / 16);
    DivMod(y % 16 * 16 + z / 4, 16, y % 16, z / 4);
    DivMod(z % 4 * 64 + w, 64, z % 4, w);
  }

  /** A symbol of an encoded group, or a pad where its sextet is zero, reads as that sextet. */
  ghost predicate Reads(c: char, v: nat)
    requires v < 64
  {
    c == Symbol(v) || (c == '=' && v == 0)
  }

  lemma ReadsSextet(c: char, v: nat)
    requires v < 64 && Reads(c, v)
    ensures Sextet(c) == v
  {
    SymbolInverse(v);
  }

  lemma DecodeGroupOf(a: byte, b: byte, c: byte, s: string)
    requires |s| == 4
    requires Reads(s[0], a / 4) && Reads(s[1], a % 4 * 16 + b / 16)
    requires Reads(s[2], b % 16 * 4 + c / 64) && Reads(s[3], c % 64)
    ensures DecodeGroup(s) == [a, b, c]
  {
    hide Unpack, Sextet, Reads;
    ReadsSextet(s[0], a / 4);
    ReadsSextet(s[1], a % 4 * 16 + b / 16);
    ReadsSextet(s[2], b % 16 * 4 + c / 64);
    ReadsSextet(s[3], c % 64);
    UnpackSextets(a, b, c);
  }

  lemma DecodeCons(g: string, t: string)
    requires |g| == 4 && |t| % 4 == 0 && t != ""
    ensures Decode(t).Some? && Decode(g + t) == Some(DecodeGroup(g) + Decode(t).value)
  {
    hide DecodeGroup;
    var s := g + t;
    assert s[..4] == g && s[4..] == t;
    assert s[|s| - 1] == t[|t| - 1] && s[|s| - 2] == t[|t| - 2];
    assert OutputLength(s) == 3 + OutputLength(t);
    assert DecodeGroups(s) == DecodeGroup(g) + DecodeGroups(t);
    var n := OutputLength(t);
    assert (DecodeGroup(g) + DecodeGroups(t))[..3 + n] == DecodeGroup(g) + DecodeGroups(t)[..n];
  }

  lemma DecodeLast(g: string)
    requires |g| == 4
    ensures Decode(g) == Some(DecodeGroup(g)[..OutputLength(g)])
  {
    hide DecodeGroup;
    assert g[..4] == g && DecodeGroups(g[4..]) == [];
    assert DecodeGroups(g) == DecodeGroup(g);
  }

  lemma EncodeShort(d: seq<byte>)
    requires 1 <= |d| <= 3
    ensures |d| == 1 ==> Encode(d) == EncodeOne(d[0])
    ensures |d| == 2 ==> Encode(d) == EncodeTwo(d[0], d[1])
    ensures |d| == 3 ==> Encode(d) == EncodeGroup(d[0], d[1], d[2])
  {
    hide EncodeGroup, EncodeOne, EncodeTwo;
    if |d| == 3 {
      assert Encode(d[3..]) == "";
    }
  }

  lemma EncodeLong(d: seq<byte>)
    requires |d| > 3
    ensures Encode(d) == EncodeGroup(d[0], d[1], d[2]) + Encode(d[3..])
    ensures Encode(d[3..]) != ""
  {
    hide EncodeGroup, EncodeOne, EncodeTwo;
    assert |d[3..]| > 0;
  }

  lemma SplitThree(d: seq<byte>)
    requires |d| >= 3
    ensures d == [d[0], d[1], d[2]] + d[3..]
  {
  }

  lemma DecodeFull(a: byte, b: byte, c: byte)
    ensures DecodeGroup(EncodeGroup(a, b, c)) == [a, b, c]
  {
    hide Symbol, DecodeGroup;
    DecodeGroupOf(a, b, c, EncodeGroup(a, b, c));
  }

  /** Decoding undoes encoding, for every non-empty octet string. */
  lemma {:induction false} DecodeEncode(d: seq<byte>)
    requires d != []
    ensures Decode(Encode(d)) == Some(d)
  {
    hide DecodeGroup, Decode, Encode, EncodeGroup;
    if |d| > 3 {
      EncodeLong(d);
      SplitThree(d);
      DecodeFull(d[0], d[1], d[2]);
      DecodeEncode(d[3..]);
      DecodeCons(EncodeGroup(d[0], d[1], d[2]), Encode(d[3..]));
    } else {
      DecodeEncodeLast(d);
    }
  }

  lemma DecodeEncodeOne(a: byte)
    ensures Decode(EncodeOne(a)) == Some([a])
  {
    hide DecodeGroup, Symbol, Decode;
    var e := EncodeOne(a);
    DecodeLast(e);
    DecodeGroupOf(a, 0, 0, e);
    assert OutputLength(e) == 1 && [a, 0, 0][..1] == [a];
  }

  lemma DecodeEncodeTwo(a: byte, b: byte)
    ensures Decode(EncodeTwo(a, b)) == Some([a, b])
  {
    hide DecodeGroup, Symbol, Decode;
    var e := EncodeTwo(a, b);
    DecodeLast(e);
    SymbolInverse(b % 16 * 4);
    DecodeGroupOf(a, b, 0, e);
    assert OutputLength(e) == 2 && [a, b, 0][..2] == [a, b];
  }

  lemma DecodeEncodeThree(a: byte, b: byte, c: byte)
    ensures Decode(EncodeGroup(a, b, c)) == Some([a, b, c])
  {
    hide DecodeGroup, Symbol, Decode;
    var e := EncodeGroup(a, b, c);
    DecodeLast(e);
    SymbolInverse(b % 16 * 4 + c / 64);
    SymbolInverse(c % 64);
    DecodeGroupOf(a, b, c, e);
    assert OutputLength(e) == 3 && [a, b, c][..3] == [a, b, c];
  }

  lemma DecodeEncodeLast(d: seq<byte>)
    requires 1 <= |d| <= 3
    ensures Decode(Encode(d)) == Some(d)
  {
    hide Decode, Encode, EncodeOne, EncodeTwo, EncodeGroup;
    EncodeShort(d);
    if |d| == 1 {
      assert d == [d[0]];
      DecodeEncodeOne(d[0]);
    } else if |d| == 2 {
      assert d == [d[0], d[1]];
      DecodeEncodeTwo(d[0], d[1]);
    } else {
      assert d == [d[0], d[1], d[2]];
      DecodeEncodeThree(d[0], d[1], d[2]);
    }
  }

  predicate InAlphabet(c: char) {
    SymbolValue(c) >= 0
  }

  /** A last group: full, or padded with the unused bits zero (RFC 4648 section 3.5). */
  ghost predicate CanonicalLast(g: string) {
    && |g| == 4 && InAlphabet(g[0]) && InAlphabet(g[1])
    && (|| (InAlphabet(g[2]) && InAlphabet(g[3]))
        || (InAlphabet(g[2]) && g[3] == '=' && SymbolValue(g[2]) % 4 == 0)
        || (g[2] == '=' && g[3] == '=' && SymbolValue(g[1]) % 16 == 0))
  }

  ghost predicate FullGroup(g: string) {
    |g| == 4 && InAlphabet(g[0]) && InAlphabet(g[1]) && InAlphabet(g[2]) && InAlphabet(g[3])
  }

  /** A canonical encoding: full groups, then one that may be padded. */
  ghost predicate Canonical(s: string) {
    if |s| <= 4 then CanonicalLast(s)
    else FullGroup(s[..4]) && Canonical(s[4..])
  }

  lemma GroupInAlphabet(a: byte, b: byte, c: byte)
    ensures FullGroup(EncodeGroup(a, b, c)) && CanonicalLast(EncodeGroup(a, b, c))
  {
    SymbolInverse(a / 4);
    SymbolInverse(a % 4 * 16 + b / 16);
    SymbolInverse(b % 16 * 4 + c / 64);
    SymbolInverse(c % 64);
    hide Symbol, SymbolValue;
  }

  lemma ShortCanonical(a: byte, b: byte)
    ensures CanonicalLast(EncodeOne(a)) && CanonicalLast(EncodeTwo(a, b))
  {
    SymbolInverse(a / 4);
    SymbolInverse(a % 4 * 16);
    SymbolInverse(a % 4 * 16 + b / 16);
    SymbolInverse(b % 16 * 4);
    hide Symbol, SymbolValue;
  }

  lemma {:induction false} EncodeCanonical(d: seq<byte>)
    requires d != []
    ensures Canonical(Encode(d))
  {
    hide EncodeGroup, EncodeOne, EncodeTwo, CanonicalLast;
    if |d| <= 3 {
      hide Encode;
      EncodeShort(d);
      ShortCanonical(d[0], if |d| > 1 then d[1] else 0);
      GroupInAlphabet(d[0], if |d| > 1 then d[1] else 0, if |d| > 2 then d[2] else 0);
    } else {
      GroupInAlphabet(d[0], d[1], d[2]);
      EncodeCanonical(d[3..]);
      assert Encode(d)[..4] == EncodeGroup(d[0], d[1], d[2]) && Encode(d)[4..] == Encode(d[3..]);
    }
  }

  /** The octets of a decoded group encode back to its symbols, pads reading as the zero symbol. */
  lemma EncodeGroupOf(g: string)
    requires |g| == 4
    requires forall i :: 0 <= i < 4 ==> InAlphabet(g[i]) || g[i] == '='
    ensures forall i :: 0 <= i < 4 ==> Sextet(g[i]) < 64
    ensures var o := DecodeGroup(g);
            EncodeGroup(o[0], o[1], o[2]) ==
            [Symbol(Sextet(g[0])), Symbol(Sextet(g[1])), Symbol(Sextet(g[2])), Symbol(Sextet(g[3]))]
  {
    forall i | 0 <= i < 4 ensures Sextet(g[i]) < 64 {
      SextetInverse(g[i]);
    }
    hide Unpack, Sextet, Symbol, SymbolValue;
    SextetsUnpack(Sextet(g[0]), Sextet(g[1]), Sextet(g[2]), Sextet(g[3]));
  }

  lemma SextetInverse(c: char)
    requires InAlphabet(c) || c == '='
    ensures Sextet(c) < 64
    ensures InAlphabet(c) ==> Symbol(Sextet(c)) == c && Sextet(c) == SymbolValue(c)
  {
    if c != '=' {
      ValueInverse(c);
    }
  }

  lemma EncodeFull(g: string)
    requires FullGroup(g)
    ensures var o := DecodeGroup(g); EncodeGroup(o[0], o[1], o[2]) == g
  {
    hide DecodeGroup, EncodeGroup, Sextet, Symbol, SymbolValue;
    EncodeGroupOf(g);
    SextetInverse(g[0]);
    SextetInverse(g[1]);
    SextetInverse(g[2]);
    SextetInverse(g[3]);
  }

  /** Encoding undoes decoding, for every canonical text. */
  lemma {:induction false} EncodeDecode(s: string)
    requires Canonical(s)
    ensures s != "" && Decode(s).Some? && Decode(s).value != [] && Encode(Decode(s).value) == s
    decreases |s|
  {
    hide DecodeGroup, EncodeGroup, Decode, SymbolValue, CanonicalLast;
    if |s| > 4 {
      var g, t := s[..4], s[4..];
      EncodeDecode(t);
      assert s == g + t;
      CanonicalLength(t);
      DecodeCons(g, t);
      EncodeFull(g);
      var o, d := DecodeGroup(g), Decode(s).value;
      assert d[3..] == Decode(t).value && d[..3] == o;
      assert d[0] == o[0] && d[1] == o[1] && d[2] == o[2];
    } else {
      EncodeDecodeLast(s);
    }
  }

  lemma {:induction false} CanonicalLength(s: string)
    requires Canonical(s)
    ensures |s| % 4 == 0 && s != ""
    decreases |s|
  {
    if |s| <= 4 {
    } else {
      CanonicalLength(s[4..]);
    }
  }

  lemma EncodeDecodeLast(g: string)
    requires CanonicalLast(g)
    ensures Decode(g).Some? && Decode(g).value != [] && Encode(Decode(g).value) == g
  {
    hide DecodeGroup, Symbol, SymbolValue, Sextet, EncodeGroup, EncodeOne, EncodeTwo, Decode, Encode;
    var o := DecodeGroup(g);
    DecodeLast(g);
    UnpackPads(g);
    EncodeShort(Decode(g).value);
    if g[3] != '=' {
      NoPadTwo(g);
      EncodeFull(g);
    } else if g[2] != '=' {
      EncodeDecodeTwo(g);
    } else {
      EncodeDecodeOne(g);
    }
  }

  lemma NoPadTwo(g: string)
    requires CanonicalLast(g) && g[3] != '='
    ensures FullGroup(g) && g[2] != '='
  {
  }

  lemma EncodeDecodeOne(g: string)
    requires CanonicalLast(g) && g[2] == '='
    ensures EncodeOne(DecodeGroup(g)[0]) == g
  {
    EncodeGroupOf(g);
    UnpackPads(g);
    SextetInverse(g[0]);
    SextetInverse(g[1]);
    hide DecodeGroup, Symbol, SymbolValue, Sextet;
  }

  lemma EncodeDecodeTwo(g: string)
    requires CanonicalLast(g) && g[2] != '=' && g[3] == '='
    ensures EncodeTwo(DecodeGroup(g)[0], DecodeGroup(g)[1]) == g
  {
    EncodeGroupOf(g);
    UnpackPads(g);
    SextetInverse(g[0]);
    SextetInverse(g[1]);
    SextetInverse(g[2]);
    hide DecodeGroup, Symbol, SymbolValue, Sextet;
  }

  /** A pad stands for octets that are zero when the unused bits are. */
  lemma UnpackPads(g: string)
    requires CanonicalLast(g)
    ensures g[3] == '=' ==> DecodeGroup(g)[2] == 0
    ensures g[2] == '=' ==> g[3] == '=' && DecodeGroup(g)[1] == 0
  {
    SextetInverse(g[0]);
    SextetInverse(g[1]);
    SextetInverse(g[2]);
    SextetInverse(g[3]);
    hide Unpack, Symbol;
    UnpackOctets(Sextet(g[0]), Sextet(g[1]), Sextet(g[2]), Sextet(g[3]));
  }

  /** An encoding holds alphabet symbols and padding only. */
  lemma {:induction false} EncodeSymbols(d: seq<byte>)
    ensures forall c :: c in Encode(d) ==> InAlphabet(c) || c == '='
  {
    hide EncodeGroup, EncodeOne, EncodeTwo, CanonicalLast, FullGroup, Encode, InAlphabet;
    if d == [] {
      assert Encode(d) == "" by { EncodeEmpty(); }
    } else if |d| <= 3 {
      EncodeCanonical(d);
      EncodeShortLength(d);
      LastSymbols(Encode(d));
    } else {
      EncodeLong(d);
      GroupInAlphabet(d[0], d[1], d[2]);
      LastSymbols(EncodeGroup(d[0], d[1], d[2]));
      EncodeSymbols(d[3..]);
    }
  }

  lemma EncodeEmpty()
    ensures Encode([]) == ""
  {
  }

  lemma EncodeShortLength(d: seq<byte>)
    requires 1 <= |d| <= 3
    ensures |Encode(d)| == 4
  {
  }

  lemma LastSymbols(g: string)
    requires CanonicalLast(g)
    ensures forall c :: c in g ==> InAlphabet(c) || c == '='
  {
  }

  /** The canonical texts are exactly the encodings. */
  lemma CanonicalIff(s: string)
    ensures Canonical(s) <==> exists d :: d != [] && Encode(d) == s
  {
    if Canonical(s) {
      EncodeDecode(s);
      assert Decode(s).value != [];
    }
    forall d | d != [] && Encode(d) == s ensures Canonical(s) {
      EncodeCanonical(d);
    }
  }

  // ---- The encoding as 24-bit groups

  /** Octet i of the input, zero past its end. */
  function OctetAt(d: seq<byte>, i: nat): byte {
    if i < |d| then d[i] else 0
  }

  /** The 24-bit number of four symbols, six bits each. */
  function SextetNumber(s: string, i: nat): nat
    requires i + 4 <= |s|
  {
    Pack(Sextet(s[i]), Sextet(s[i + 1]), Sextet(s[i + 2]), Sextet(s[i + 3]))
  }

  /** The 24-bit number of three octets, eight bits each. */
  function OctetNumber(d: seq<byte>, i: nat): nat {
    OctetAt(d, i) * 65536 + OctetAt(d, i + 1) * 256 + OctetAt(d, i + 2)
  }

  lemma GroupNumber(a: byte, b: byte, c: byte, s: string)
    requires |s| == 4
    requires Reads(s[0], a / 4) && Reads(s[1], a % 4 * 16 + b / 16)
    requires Reads(s[2], b % 16 * 4 + c / 64) && Reads(s[3], c % 64)
    ensures SextetNumber(s, 0) == a * 65536 + b * 256 + c
  {
    hide Sextet, Reads;
    ReadsSextet(s[0], a / 4);
    ReadsSextet(s[1], a % 4 * 16 + b / 16);
    ReadsSextet(s[2], b % 16 * 4 + c / 64);
    ReadsSextet(s[3], c % 64);
  }

  lemma LastGroupNumber(d: seq<byte>)
    requires 1 <= |d| <= 3
    ensures SextetNumber(Encode(d), 0) == OctetNumber(d, 0)
  {
    hide Symbol, Sextet, Pack, Encode;
    EncodeShort(d);
    if |d| == 1 {
      GroupNumber(d[0], 0, 0, EncodeOne(d[0]));
    } else if |d| == 2 {
      GroupNumber(d[0], d[1], 0, EncodeTwo(d[0], d[1]));
    } else {
      GroupNumber(d[0], d[1], d[2], EncodeGroup(d[0], d[1], d[2]));
    }
  }

  lemma FirstGroupNumber(d: seq<byte>)
    requires |d| > 3
    ensures SextetNumber(Encode(d), 0) == OctetNumber(d, 0)
  {
    hide Symbol, Sextet, Pack, Encode;
    EncodeLong(d);
    var g := EncodeGroup(d[0], d[1], d[2]);
    assert Encode(d)[..4] == g;
    GroupNumber(d[0], d[1], d[2], g);
  }

  lemma LaterGroupNumber(d: seq<byte>, i: nat)
    requires 0 < i && 3 * i < |d|
    ensures 4 * (i - 1) + 4 <= |Encode(d[3..])| && 4 * i + 4 <= |Encode(d)|
    ensures SextetNumber(Encode(d), 4 * i) == SextetNumber(Encode(d[3..]), 4 * (i - 1))
  {
    hide EncodeGroup, Sextet, Pack, Encode, SextetNumber;
    EncodeLong(d);
    ShiftFour(EncodeGroup(d[0], d[1], d[2]), Encode(d[3..]), 4 * (i - 1));
  }

  lemma LaterOctets(d: seq<byte>, i: nat)
    requires 0 < i && 3 * i < |d|
    ensures OctetNumber(d, 3 * i) == OctetNumber(d[3..], 3 * (i - 1))
  {
  }

  lemma ShiftFour(g: string, rest: string, k: nat)
    requires |g| == 4 && k + 4 <= |rest|
    ensures SextetNumber(g + rest, k + 4) == SextetNumber(rest, k)
  {
    hide Sextet, Pack;
  }

  /** RFC 4648 section 4: output group i holds the same 24 bits as input group i, zero bits added at its end. */
  lemma {:induction false} EncodesGroups(d: seq<byte>, i: nat)
    requires 3 * i < |d|
    ensures 4 * i + 4 <= |Encode(d)|
    ensures SextetNumber(Encode(d), 4 * i) == OctetNumber(d, 3 * i)
    decreases i
  {
    hide Encode, SextetNumber, OctetNumber;
    if i > 0 {
      LaterGroupNumber(d, i);
      LaterOctets(d, i);
      EncodesGroups(d[3..], i - 1);
    } else if |d| <= 3 {
      LastGroupNumber(d);
    } else {
      FirstGroupNumber(d);
    }
  }

  // ---- Decoding any text

  /** What a character that is neither a symbol nor padding reads as: a word of all ones. */
  lemma UnknownReadsAsOnes(c: char)
    requires SymbolValue(c) < 0 && c != '='
    ensures Sextet(c) == 0xFFFF_FFFF
  {
  }

  /** Dropping multiples of 256 from a number keeps its last octet. */
  lemma LastOctet(t: nat, q: nat, r: nat)
    requires t == 256 * q + r
    ensures t % 256 == r % 256
  {
    DivMod(t, 256, q + r / 256, r % 256);
  }

  lemma WordOctets(q: nat, r: nat)
    requires r < WORD
    ensures (WORD * q + r) / 65536 % 256 == r / 65536 % 256
    ensures (WORD * q + r) / 256 % 256 == r / 256 % 256
    ensures (WORD * q + r) % 256 == r % 256
  {
    DivMod(WORD * q + r, 65536, 65536 * q + r / 65536, r % 65536);
    DivMod(WORD * q + r, 256, 16777216 * q + r / 256, r % 256);
    LastOctet(65536 * q + r / 65536, 256 * q, r / 65536);
    LastOctet(16777216 * q + r / 256, 65536 * q, r / 256);
  }

  /** The octet that stands at place 0, 1 or 2 of a 24-bit number. */
  function OctetOf(t: nat, place: nat): byte
    requires place < 3
  {
    if place == 0 then t / 65536 % 256 else if place == 1 then t / 256 % 256 else t % 256
  }

  lemma UnpackPlaces(x: nat, y: nat, z: nat, w: nat, place: nat)
    requires place < 3
    ensures Unpack(x, y, z, w)[place] == OctetOf(Pack(x, y, z, w), place)
  {
    hide Pack;
    var t := Pack(x, y, z, w);
    var q, r := t / WORD, t % WORD;
    assert t == WORD * q + r;
    hide OctetOf;
    OctetOfWord(q, r, place);
  }

  lemma OctetOfWord(q: nat, r: nat, place: nat)
    requires r < WORD && place < 3
    ensures OctetOf(WORD * q + r, place) == [r / 65536 % 256, r / 256 % 256, r % 256][place]
  {
    WordOctets(q, r);
  }

  lemma {:induction false} GroupsDecode(s: string, i: nat, place: nat)
    requires |s| % 4 == 0 && 4 * i + 4 <= |s| && place < 3
    ensures DecodeGroups(s)[3 * i + place] == OctetOf(SextetNumber(s, 4 * i), place)
    decreases i
  {
    hide Sextet, Pack, Unpack, OctetOf;
    if i == 0 {
      UnpackPlaces(Sextet(s[0]), Sextet(s[1]), Sextet(s[2]), Sextet(s[3]), place);
    } else {
      GroupsDecode(s[4..], i - 1, place);
      hide SextetNumber;
      ShiftFour(s[..4], s[4..], 4 * (i - 1));
      assert s == s[..4] + s[4..];
    }
  }

  /**
   What the decoder makes of any non-empty text, canonical or not: nothing exactly when its
   length is no multiple of four; else three octets a group less one for each '=' in the last
   two places, each cut from the number its group's four characters read as.
   */
  lemma DecodesAnyText(s: string, i: nat, place: nat)
    requires s != "" && place < 3
    ensures Decode(s).None? <==> |s| % 4 != 0
    ensures |s| % 4 == 0 ==>
              |Decode(s).value| ==
              |s| / 4 * 3 - (if s[|s| - 1] == '=' then 1 else 0) - (if s[|s| - 2] == '=' then 1 else 0)
    ensures |s| % 4 == 0 && 4 * i + 4 <= |s| && 3 * i + place < |Decode(s).value| ==>
              Decode(s).value[3 * i + place] == OctetOf(SextetNumber(s, 4 * i), place)
  {
    hide Sextet, Pack, DecodeGroups, SextetNumber, OctetOf;
    if |s| % 4 == 0 && 4 * i + 4 <= |s| {
      GroupsDecode(s, i, place);
    }
  }

  // ---- The buffers

  /** What the encoder's main loop has written after the octets d: groups without padding, zero-filled. */
  function Groups(d: seq<byte>): (r: string)
    ensures |r| == 4 * ((|d| + 2) / 3)
    decreases |d|
  {
    if d == [] then ""
    else EncodeGroup(d[0], OctetAt(d, 1), OctetAt(d, 2)) + Groups(if |d| <= 3 then [] else d[3..])
  }

  lemma {:induction false} GroupsAppend(d: seq<byte>, e: seq<byte>)
    requires |d| % 3 == 0 && 1 <= |e| <= 3
    ensures Groups(d + e) == Groups(d) + EncodeGroup(e[0], OctetAt(e, 1), OctetAt(e, 2))
  {
    hide EncodeGroup;
    if d == [] {
      assert d + e == e && Groups([]) == "";
    } else {
      assert (d + e)[3..] == d[3..] + e;
      GroupsAppend(d[3..], e);
      assert |d| == 3 ==> d[3..] == [];
    }
  }

  lemma GroupsExtend(d: seq<byte>, start: nat, end: nat)
    requires start % 3 == 0 && start < end <= |d| && (end == start + 3 || (end == |d| && end < start + 3))
    ensures Groups(d[..end]) == Groups(d[..start]) + EncodeGroup(d[start], OctetAt(d, start + 1), OctetAt(d, start + 2))
  {
    hide EncodeGroup, Groups;
    var e := d[start..end];
    assert d[..end] == d[..start] + e;
    GroupsAppend(d[..start], e);
  }

  /** There is room for the next group, and it is counted when the octets after it are reached. */
  lemma GroupRoom(i: nat, n: nat)
    requires i % 3 == 0 && i < n
    ensures 4 * ((i + 2) / 3) + 4 <= 4 * ((n + 2) / 3)
    ensures var next := if i + 3 < n then i + 3 else n;
            4 * ((next + 2) / 3) == 4 * ((i + 2) / 3) + 4 && (next % 3 == 0 || next == n)
  {
  }

  /** The padding of n octets, as many symbols as mod_table says. */
  function Padding(n: nat): (r: string)
    ensures |r| == [0, 2, 1][n % 3]
  {
    if n % 3 == 0 then "" else if n % 3 == 1 then "==" else "="
  }

  /** Groups with their end overwritten by padding. */
  function Padded(groups: string, padding: string): string
    requires |padding| <= |groups|
  {
    groups[..|groups| - |padding|] + padding
  }

  lemma PaddedCons(g: string, groups: string, padding: string)
    requires |padding| <= |groups|
    ensures Padded(g + groups, padding) == g + Padded(groups, padding)
  {
    assert (g + groups)[..|g + groups| - |padding|] == g + groups[..|groups| - |padding|];
  }

  lemma GroupsLast(d: seq<byte>)
    requires 1 <= |d| <= 3
    ensures Groups(d) == EncodeGroup(d[0], OctetAt(d, 1), OctetAt(d, 2))
  {
    hide EncodeGroup;
    assert Groups([]) == "";
  }

  lemma PaddedOne(a: byte)
    ensures EncodeOne(a) == Padded(EncodeGroup(a, 0, 0), Padding(1))
  {
    hide Symbol;
  }

  lemma PaddedTwo(a: byte, b: byte)
    ensures EncodeTwo(a, b) == Padded(EncodeGroup(a, b, 0), Padding(2))
  {
    hide Symbol;
  }

  lemma PaddedThree(g: string)
    ensures Padded(g, Padding(3)) == g
  {
  }

  lemma EncodePadsLast(d: seq<byte>)
    requires 1 <= |d| <= 3
    ensures Encode(d) == Padded(Groups(d), Padding(|d|))
  {
    hide Encode, Groups, EncodeOne, EncodeTwo, EncodeGroup, Padded, Padding;
    GroupsLast(d);
    EncodeShort(d);
    PaddedOne(d[0]);
    PaddedTwo(d[0], OctetAt(d, 1));
    PaddedThree(Groups(d));
  }

  lemma {:induction false} EncodePads(d: seq<byte>)
    requires d != []
    ensures Encode(d) == Padded(Groups(d), Padding(|d|))
    decreases |d|
  {
    hide EncodeGroup, Padded;
    if |d| > 3 {
      EncodePads(d[3..]);
      PaddedCons(EncodeGroup(d[0], d[1], d[2]), Groups(d[3..]), Padding(|d|));
      PaddingPeriod(|d|);
    } else {
      hide Encode, Groups, Padding;
      EncodePadsLast(d);
    }
  }

  lemma PaddingPeriod(n: nat)
    requires n >= 3
    ensures Padding(n) == Padding(n - 3)
  {
  }

  function CodeValue(code: nat): int
    requires code < 256
  {
    SymbolValue(code as char)
  }

  lemma CodeValueOf(code: nat, v: nat)
    requires code < 256 && v < 64
    ensures CodeValue(code) < 64
    ensures CodeValue(code) == v <==> code == TableSymbol(v) as int
  {
    TableIsAlphabet(v);
    SymbolInverse(v);
    if CodeValue(code) >= 0 {
      ValueInverse(code as char);
    }
  }

  lemma {:induction false} DecodeGroupsAppend(s: string, g: string)
    requires |s| % 4 == 0 && |g| == 4
    ensures DecodeGroups(s + g) == DecodeGroups(s) + DecodeGroup(g)
  {
    hide DecodeGroup;
    if s == "" {
      assert s + g == g && g[..4] == g && DecodeGroups(g[4..]) == [];
    } else {
      assert (s + g)[..4] == s[..4] && (s + g)[4..] == s[4..] + g;
      DecodeGroupsAppend(s[4..], g);
    }
  }

  lemma TakeExtended(sofar: seq<byte>, start: nat, octets: seq<byte>, n: nat)
    requires start <= |sofar| && n <= start + |octets| && (start == |sofar| || n == start)
    ensures (sofar[..start] + octets)[..n] == (sofar + octets)[..n]
  {
  }

  /** The codec with its lazily built global decoding table. */
  class Codec {
    var decodingTable: array?<int>

    ghost predicate Valid()
      reads this, decodingTable
    {
      decodingTable != null ==>
        decodingTable.Length == 256 && forall c :: 0 <= c < 256 ==> decodingTable[c] == CodeValue(c)
    }

    constructor ()
      ensures Valid() && decodingTable == null
    {
      decodingTable := null;
    }

    method BuildDecodingTable()
      modifies this
      ensures Valid() && decodingTable != null && fresh(decodingTable)
    {
      var table := new int[256](_ => -1);
      for i := 0 to 64
        invariant forall c :: 0 <= c < 256 ==> table[c] == if CodeValue(c) < i then CodeValue(c) else -1
      {
        TableIsAlphabet(i);
        SymbolInverse(i);
        forall c | 0 <= c < 256 ensures CodeValue(c) == i <==> c == TableSymbol(i) as int {
          CodeValueOf(c, i);
        }
        table[TableSymbol(i) as int] := i;
      }
      forall c | 0 <= c < 256 ensures CodeValue(c) < 64 {
        CodeValueOf(c, 0);
      }
      decodingTable := table;
    }

    /** One table look-up of the decoder, as a 32-bit word. */
    method ReadSymbol(c: char) returns (word: nat)
      requires Valid() && decodingTable != null && c as int < 256
      ensures word == Sextet(c)
    {
      word := if c == '=' then 0 else decodingTable[c as int] % WORD;
    }

    /** The four look-ups of the decoder's loop body and the octets they make. */
    method ReadGroup(data: string, i: nat) returns (octets: seq<byte>)
      requires Valid() && decodingTable != null && i + 4 <= |data|
      requires forall k :: 0 <= k < |data| ==> data[k] as int < 256
      ensures octets == DecodeGroup(data[i..i + 4])
    {
      hide Sextet;
      var a := ReadSymbol(data[i]);
      var b := ReadSymbol(data[i + 1]);
      var c := ReadSymbol(data[i + 2]);
      var d := ReadSymbol(data[i + 3]);
      var triple := (a * 262144 + b * 4096 + c * 64 + d) % WORD;
      octets := [triple / 65536 % 256, triple / 256 % 256, triple % 256];
    }

    /** The three guarded stores of the decoder's loop body. */
    static method PutOctets(buffer: array<byte>, j: nat, limit: nat, octets: seq<byte>) returns (next: nat)
      requires j <= limit <= buffer.Length && |octets| == 3
      modifies buffer
      ensures next == if j + 3 < limit then j + 3 else limit
      ensures buffer[..next] == (old(buffer[..j]) + octets)[..next]
    {
      next := j;
      if next < limit { buffer[next], next := octets[0], next + 1; }
      if next < limit { buffer[next], next := octets[1], next + 1; }
      if next < limit { buffer[next], next := octets[2], next + 1; }
    }

    /**
     base64_decode. The buffer has one octet more than the announced length, for the caller's
     terminator; the loop's write index ends at that length whatever the text holds.
     */
    method DecodeBuffer(data: string) returns (decoded: array?<byte>, outputLength: nat, ghost written: nat)
      requires Valid() && data != ""
      requires forall k :: 0 <= k < |data| ==> data[k] as int < 256
      modifies this
      ensures Valid()
      ensures decoded == null <==> Decode(data).None?
      ensures decoded != null ==>
                && fresh(decoded) && decoded.Length == outputLength + 1
                && decoded[..outputLength] == Decode(data).value
                && written == outputLength
    {
      hide DecodeGroups, DecodeGroup, CodeValue;
      if decodingTable == null {
        BuildDecodingTable();
      }
      outputLength, written := 0, 0;
      if |data| % 4 != 0 {
        return null, outputLength, written;
      }
      outputLength := |data| / 4 * 3;
      if data[|data| - 1] == '=' { outputLength := outputLength - 1; }
      if data[|data| - 2] == '=' { outputLength := outputLength - 1; }
      assert outputLength == OutputLength(data);
      var buffer := new byte[outputLength + 1](_ => 0);
      written := DecodeInto(data, buffer, outputLength);
      decoded := buffer;
    }

    /** The decoder's loop. */
    method DecodeInto(data: string, buffer: array<byte>, limit: nat) returns (j: nat)
      requires Valid() && decodingTable != null && |data| % 4 == 0
      requires forall k :: 0 <= k < |data| ==> data[k] as int < 256
      requires limit <= |data| / 4 * 3 && limit < buffer.Length
      modifies buffer
      ensures j == limit && buffer[..limit] == DecodeGroups(data)[..limit]
    {
      hide DecodeGroups, DecodeGroup, CodeValue;
      var i := 0;
      j := 0;
      ghost var groups := 0;
      while i < |data|
        invariant i == 4 * groups <= |data|
        invariant j == if 3 * groups < limit then 3 * groups else limit
        invariant buffer[..j] == DecodeGroups(data[..i])[..j]
      {
        ghost var sofar, start := DecodeGroups(data[..i]), j;
        assert |sofar| == 3 * groups && i + 4 <= |data|;
        var octets := ReadGroup(data, i);
        DecodeGroupsAppend(data[..i], data[i..i + 4]);
        assert data[..i + 4] == data[..i] + data[i..i + 4];
        j := PutOctets(buffer, j, limit, octets);
        TakeExtended(sofar, start, octets, j);
        i := i + 4;
        groups := groups + 1;
      }
      assert data[..i] == data;
    }

    /** The four stores of the encoder's loop body. */
    static method PutGroup(encoded: array<char>, j: nat, a: byte, b: byte, c: byte)
      requires j + 4 <= encoded.Length
      modifies encoded
      ensures encoded[..j + 4] == old(encoded[..j]) + EncodeGroup(a, b, c)
    {
      hide EncodeGroup, TableSymbol;
      var triple: nat := a as int * 65536 + b as int * 256 + c as int;
      var group := [TableSymbol(triple / 262144 % 64), TableSymbol(triple / 4096 % 64),
                    TableSymbol(triple / 64 % 64), TableSymbol(triple % 64)];
      TableGroup(a, b, c);
      ghost var before := encoded[..j];
      encoded[j] := group[0];
      encoded[j + 1] := group[1];
      encoded[j + 2] := group[2];
      encoded[j + 3] := group[3];
      assert encoded[..j + 4] == before + group;
    }

    /** The encoder's loop body: up to three octets in, four symbols out. */
    static method EncodeNext(data: array<byte>, i: nat, encoded: array<char>, j: nat) returns (next: nat)
      requires i < data.Length && j + 4 <= encoded.Length
      modifies encoded
      ensures next == if i + 3 < data.Length then i + 3 else data.Length
      ensures encoded[..j + 4] ==
              old(encoded[..j]) + EncodeGroup(data[i], OctetAt(data[..], i + 1), OctetAt(data[..], i + 2))
    {
      hide EncodeGroup;
      var n := data.Length;
      next := i + 1;
      var a: int := data[i];
      var b: int := if next < n then data[next] else 0;
      next := if next < n then next + 1 else next;
      var c: int := if next < n then data[next] else 0;
      next := if next < n then next + 1 else next;
      PutGroup(encoded, j, a, b, c);
    }

    /** base64_encode: fill groups of four symbols, then overwrite the end with padding. */
    static method EncodeBuffer(data: array<byte>) returns (encoded: array<char>)
      ensures fresh(encoded) && encoded[..] == Encode(data[..])
    {
      hide EncodeGroup, Groups, Encode, OctetAt;
      var n := data.Length;
      encoded := new char[4 * ((n + 2) / 3)](_ => 'A');
      var i, j := 0, 0;
      ghost var d := data[..];
      while i < n
        invariant i <= n && (i % 3 == 0 || i == n) && j == 4 * ((i + 2) / 3)
        invariant encoded[..j] == Groups(d[..i])
      {
        GroupRoom(i, n);
        var next := EncodeNext(data, i, encoded, j);
        GroupsExtend(d, i, next);
        i, j := next, j + 4;
      }
      assert d[..n] == d;
      if n > 0 {
        AddPadding(encoded, n, d);
      }
    }

    /** The encoder's second loop. */
    static method AddPadding(encoded: array<char>, n: nat, ghost d: seq<byte>)
      requires encoded[..] == Groups(d) && n == |d| > 0
      modifies encoded
      ensures encoded[..] == Encode(d)
    {
      hide Groups, Encode;
      EncodePads(d);
      ghost var groups := Groups(d);
      var modTable := [0, 2, 1];
      for k := 0 to modTable[n % 3]
        invariant encoded[..encoded.Length - k] == groups[..encoded.Length - k]
        invariant forall m :: encoded.Length - k <= m < encoded.Length ==> encoded[m] == '='
      {
        encoded[encoded.Length - 1 - k] := '=';
      }
    }
  }

  lemma TableGroup(a: byte, b: byte, c: byte)
    ensures var triple := a * 65536 + b * 256 + c;
            [TableSymbol(triple / 262144 % 64), TableSymbol(triple / 4096 % 64),
             TableSymbol(triple / 64 % 64), TableSymbol(triple % 64)] == EncodeGroup(a, b, c)
  {
    TripleSextets(a, b, c);
    TableIsAlphabet(a / 4);
    TableIsAlphabet(a % 4 * 16 + b / 16);
    TableIsAlphabet(b % 16 * 4 + c / 64);
    TableIsAlphabet(c % 64);
    hide TableSymbol, Symbol;
  }

  /** The shifts and masks of the encoder's loop select the four sextets. */
  lemma TripleSextets(a: byte, b: byte, c: byte)
    ensures var t := a * 65536 + b * 256 + c;
            && t / 262144 % 64 == a / 4
            && t / 4096 % 64 == a % 4 * 16 + b / 16
            && t / 64 % 64 == b % 16 * 4 + c / 64
            && t % 64 == c % 64
  {
    var x, y, z, w := a / 4, a % 4 * 16 + b / 16, b % 16 * 4 + c / 64, c % 64;
    var t := a * 65536 + b * 256 + c;
    CutSextets(x, y, z, w);
    assert t == Pack(x, y, z, w);
  }

  lemma CutSextets(x: nat, y: nat, z: nat, w: nat)
    requires x < 64 && y < 64 && z < 64 && w < 64
    ensures var t := Pack(x, y, z, w);
            t / 262144 % 64 == x && t / 4096 % 64 == y && t / 64 % 64 == z && t % 64 == w
  {
    var t := Pack(x, y, z, w);
    DivMod(t, 64, 64 * (64 * x + y) + z, w);
    DivMod(64 * (64 * x + y) + z, 64, 64 * x + y, z);
    DivMod(t, 4096, 64 * x + y, 64 * z + w);
    DivMod(64 * x + y, 64, x, y);
    DivMod(t, 262144, x, 4096 * y + 64 * z + w);
  }
}
