/**
 What handlers read from a raw request: extract_query_parameters and extract_header_value of
 src/utils.cpp, and get_session_id_from_cookie of src/session_manager.cpp.
 */
module RequestFields {
  import opened Options
  import opened Text
  import HttpRequest

  // ---- Query parameters

  type Params = map<string, string>

  function QueryOf(target: string): Option<string> {
    var qmark := FindChar(target, '?', 0);
    if qmark.None? then None else Some(target[qmark.value + 1..])
  }

  /** The text between the first two spaces, from its first '?' on. */
  function QueryString(request: string): Option<string> {
    var sp1 := FindChar(request, ' ', 0);
    if sp1.None? then None else
    var sp2 := FindChar(request, ' ', sp1.value + 1);
    if sp2.None? then None else
    QueryOf(request[sp1.value + 1..sp2.value])
  }

  /** A pair counts only when it has a '='; its first one splits it. */
  function WithPair(m: Params, pair: string): Params {
    var eq := FindChar(pair, '=', 0);
    if eq.None? then m else m[pair[..eq.value] := pair[eq.value + 1..]]
  }

  /** The pairs of a query, split at '&', stored in order. */
  function WithPairs(m: Params, query: string): Params
    decreases |query|
  {
    if query == "" then m else WithPairs(WithPair(m, FirstPair(query).0), FirstPair(query).1)
  }

  function QueryParams(request: string): Params {
    var query := QueryString(request);
    if query.None? then map[] else WithPairs(map[], query.value)
  }

  /** What getline leaves of a non-empty query, and the pair it delivers. */
  function FirstPair(query: string): (r: (string, string))
    requires query != ""
    ensures |r.1| < |query|
  {
    var amp := FindChar(query, '&', 0);
    if amp.None? then (query, "") else (query[..amp.value], query[amp.value + 1..])
  }

  method ExtractQueryParameters(request: string) returns (params: Params)
    ensures params == QueryParams(request)
  {
    hide FindChar, FirstPair, QueryString;
    params := map[];
    var query := QueryString(request);
    if query.None? {
      return;
    }
    var rest := query.value;
    while rest != ""
      invariant WithPairs(params, rest) == WithPairs(map[], query.value)
      decreases |rest|
    {
      var (pair, more) := FirstPair(rest);
      var eq := FindChar(pair, '=', 0);
      if eq.Some? {
        var key, value := pair[..eq.value], pair[eq.value + 1..];
        params := params[key := value];
      }
      rest := more;
    }
  }

  // ---- A printed query reads back as its map

  ghost predicate Printable(kvs: seq<(string, string)>) {
    forall i :: 0 <= i < |kvs| ==> '=' !in kvs[i].0 && '&' !in kvs[i].0 && '&' !in kvs[i].1
  }

  function PrintPair(kv: (string, string)): string {
    kv.0 + "=" + kv.1
  }

  function PrintQuery(kvs: seq<(string, string)>): string {
    if kvs == [] then ""
    else if |kvs| == 1 then PrintPair(kvs[0])
    else PrintPair(kvs[0]) + "&" + PrintQuery(kvs[1..])
  }

  /** The map of a list of pairs, later ones replacing earlier ones. */
  function Stored(m: Params, kvs: seq<(string, string)>): Params
    decreases |kvs|
  {
    if kvs == [] then m else Stored(m[kvs[0].0 := kvs[0].1], kvs[1..])
  }

  lemma PairReads(m: Params, kv: (string, string))
    requires '=' !in kv.0
    ensures WithPair(m, PrintPair(kv)) == m[kv.0 := kv.1]
  {
    hide FindChar;
    var pair := PrintPair(kv);
    assert "" + kv.0 == kv.0;
    FindCharAfter(pair, "", kv.0, '=', kv.1);
    assert pair[..|kv.0|] == kv.0 && pair[|kv.0| + 1..] == kv.1;
  }

  lemma NoAmpersand(kv: (string, string))
    requires '&' !in kv.0 && '&' !in kv.1
    ensures '&' !in PrintPair(kv)
  {
  }

  lemma {:induction false} PrintedReads(m: Params, kvs: seq<(string, string)>)
    requires Printable(kvs)
    ensures WithPairs(m, PrintQuery(kvs)) == Stored(m, kvs)
    decreases |kvs|
  {
    if kvs == [] {
    } else {
      PrintedReads(m[kvs[0].0 := kvs[0].1], kvs[1..]);
      PairReads(m, kvs[0]);
      FirstPrinted(kvs);
      hide FirstPair, PrintPair, WithPair, PrintQuery;
    }
  }

  lemma FirstPrinted(kvs: seq<(string, string)>)
    requires Printable(kvs) && kvs != []
    ensures PrintQuery(kvs) != "" && FirstPair(PrintQuery(kvs)) == (PrintPair(kvs[0]), PrintQuery(kvs[1..]))
  {
    hide FindChar, PrintPair;
    var pair, rest := PrintPair(kvs[0]), PrintQuery(kvs[1..]);
    NoAmpersand(kvs[0]);
    PairNonEmpty(kvs[0]);
    if |kvs| == 1 {
      NotFound(pair, '&');
    } else {
      var query := PrintQuery(kvs);
      assert query == pair + "&" + rest && "" + pair == pair;
      FindCharAfter(query, "", pair, '&', rest);
      assert query[..|pair|] == pair && query[|pair| + 1..] == rest;
    }
  }

  lemma PairNonEmpty(kv: (string, string))
    ensures PrintPair(kv) != ""
  {
  }

  lemma NotFound(s: string, c: char)
    requires c !in s
    ensures FindChar(s, c, 0) == None
  {
    assert forall i :: 0 <= i < |s| ==> s[i] in s;
  }

  /** A piece without '=' is ignored, and pieces are taken one by one, up to each '&'. */
  lemma PiecesRead(m: Params, piece: string, rest: string)
    requires '&' !in piece
    ensures '=' !in piece ==> WithPair(m, piece) == m
    ensures WithPairs(m, piece + "&" + rest) == WithPairs(WithPair(m, piece), rest)
    ensures piece != "" ==> WithPairs(m, piece) == WithPair(m, piece)
  {
    if '=' !in piece {
      NotFound(piece, '=');
    }
    FirstPieces(piece, rest);
    hide FirstPair, WithPair;
    assert WithPairs(WithPair(m, piece), "") == WithPair(m, piece);
  }

  lemma FirstPieces(piece: string, rest: string)
    requires '&' !in piece
    ensures FirstPair(piece + "&" + rest) == (piece, rest)
    ensures piece != "" ==> FirstPair(piece) == (piece, "")
  {
    hide FindChar;
    var query := piece + "&" + rest;
    assert query == "" + piece + "&" + rest;
    FindCharAfter(query, "", piece, '&', rest);
    NotFound(piece, '&');
    assert query[..|piece|] == piece && query[|piece| + 1..] == rest;
  }

  /** A key's stored value is that of its last pair. */
  lemma {:induction false} LastPairWins(m: Params, kvs: seq<(string, string)>, i: nat)
    requires i < |kvs| && forall j :: i < j < |kvs| ==> kvs[j].0 != kvs[i].0
    ensures kvs[i].0 in Stored(m, kvs) && Stored(m, kvs)[kvs[i].0] == kvs[i].1
    decreases |kvs|
  {
    if i > 0 {
      LastPairWins(m[kvs[0].0 := kvs[0].1], kvs[1..], i - 1);
    } else {
      OthersKeep(m[kvs[0].0 := kvs[0].1], kvs[1..], kvs[0].0);
    }
  }

  lemma {:induction false} OthersKeep(m: Params, kvs: seq<(string, string)>, key: string)
    requires forall j :: 0 <= j < |kvs| ==> kvs[j].0 != key
    ensures key in Stored(m, kvs) <==> key in m
    ensures key in m ==> Stored(m, kvs)[key] == m[key]
    decreases |kvs|
  {
    if kvs == [] {
    } else {
      OthersKeep(m[kvs[0].0 := kvs[0].1], kvs[1..], key);
    }
  }

  lemma PrintedChars(m: string, target: string, rest: string)
    ensures var raw := HttpRequest.Print(m, target, rest);
            && |raw| > |m| + 1 + |target|
            && (forall i :: 0 <= i < |m| ==> raw[i] == m[i])
            && raw[|m|] == raw[|m| + 1 + |target|] == ' '
            && raw[|m| + 1..|m| + 1 + |target|] == target
  {
    var raw := HttpRequest.Print(m, target, rest);
    assert raw[|m| + 1 + |target|] == " HTTP/"[0];
  }

  lemma PrintedSpaces(m: string, target: string, rest: string)
    requires ' ' !in m && ' ' !in target
    ensures var raw := HttpRequest.Print(m, target, rest);
            && FindChar(raw, ' ', 0) == Some(|m|)
            && FindChar(raw, ' ', |m| + 1) == Some(|m| + 1 + |target|)
  {
    hide FindChar, HttpRequest.Print;
    var raw := HttpRequest.Print(m, target, rest);
    PrintedChars(m, target, rest);
    forall i | |m| + 1 <= i < |m| + 1 + |target| ensures raw[i] != ' ' {
      assert raw[i] == target[i - |m| - 1];
    }
    FindCharUnique(raw, ' ', 0, |m|);
    FindCharUnique(raw, ' ', |m| + 1, |m| + 1 + |target|);
  }

  lemma PrintedTarget(m: string, target: string, rest: string)
    requires ' ' !in m && ' ' !in target
    ensures QueryString(HttpRequest.Print(m, target, rest)) == QueryOf(target)
  {
    hide FindChar, HttpRequest.Print, QueryOf;
    PrintedChars(m, target, rest);
    PrintedSpaces(m, target, rest);
  }

  lemma TargetQuery(name: string, query: Option<string>)
    requires '?' !in name
    ensures QueryOf(HttpRequest.Target(name, query)) == query
  {
    hide FindChar;
    var target := HttpRequest.Target(name, query);
    if query.Some? {
      assert target == "" + ("/" + name) + "?" + query.value;
      FindCharAfter(target, "", "/" + name, '?', query.value);
      assert target[|name| + 2..] == query.value;
    } else {
      NotFound(target, '?');
    }
  }

  /** What stands before the first question mark of a target without spaces, and what stands after it. */
  ghost predicate HasQuery(request: string, m: string, name: string, q: string, rest: string) {
    && ' ' !in m && ' ' !in name && '?' !in name && ' ' !in q
    && request == m + " " + (name + "?" + q) + " " + rest
  }

  lemma QueryRead(request: string, m: string, name: string, q: string, rest: string)
    requires HasQuery(request, m, name, q, rest)
    ensures QueryString(request) == Some(q)
  {
    hide FindChar;
    var target := name + "?" + q;
    assert request == "" + m + " " + (target + " " + rest);
    FindCharAfter(request, "", m, ' ', target + " " + rest);
    assert request == (m + " ") + target + " " + rest && ' ' !in target;
    FindCharAfter(request, m + " ", target, ' ', rest);
    assert request[|m| + 1..|m| + 1 + |target|] == target;
    assert target == "" + name + "?" + q;
    FindCharAfter(target, "", name, '?', q);
    assert target[|name| + 1..] == q;
  }

  lemma CutAt(s: string, k: nat, c: char)
    requires k < |s| && s[k] == c
    ensures s == s[..k] + [c] + s[k + 1..]
  {
  }

  lemma QueryPlaces(request: string, q: string) returns (sp1: nat, sp2: nat, mark: nat)
    requires QueryString(request) == Some(q)
    ensures sp1 < sp2 < |request| && request[sp1] == ' ' && request[sp2] == ' '
    ensures ' ' !in request[..sp1] && ' ' !in request[sp1 + 1..sp2]
    ensures sp1 + 1 + mark < sp2 && request[sp1 + 1..sp2][mark] == '?'
    ensures '?' !in request[sp1 + 1..sp2][..mark] && q == request[sp1 + 1..sp2][mark + 1..]
  {
    hide FindChar;
    sp1 := FindChar(request, ' ', 0).value;
    sp2 := FindChar(request, ' ', sp1 + 1).value;
    mark := FindChar(request[sp1 + 1..sp2], '?', 0).value;
  }

  lemma CutTwice(s: string, i: nat, j: nat, c: char)
    requires i < j < |s| && s[i] == c && s[j] == c
    ensures s == s[..i] + [c] + s[i + 1..j] + [c] + s[j + 1..]
  {
  }

  lemma QueryFound(request: string, q: string) returns (m: string, name: string, rest: string)
    requires QueryString(request) == Some(q)
    ensures HasQuery(request, m, name, q, rest)
  {
    var sp1, sp2, mark := QueryPlaces(request, q);
    hide QueryString;
    var target := request[sp1 + 1..sp2];
    m, name, rest := request[..sp1], target[..mark], request[sp2 + 1..];
    CutTwice(request, sp1, sp2, ' ');
    CutAt(target, mark, '?');
    forall c | c in q ensures c in target {
      assert target == name + "?" + q;
    }
    forall c | c in name ensures c in target {
      assert target == name + "?" + q;
    }
  }

  /** Any request has the query between its first two spaces, after the first question mark there; else none. */
  lemma QueryStringIff(request: string, q: string)
    ensures QueryString(request) == Some(q) <==> exists m, name, rest :: HasQuery(request, m, name, q, rest)
  {
    hide QueryString, HasQuery;
    if QueryString(request) == Some(q) {
      var m, name, rest := QueryFound(request, q);
    }
    forall m, name, rest | HasQuery(request, m, name, q, rest) ensures QueryString(request) == Some(q) {
      QueryRead(request, m, name, q, rest);
    }
  }

  /** Without a query there are no parameters. */
  lemma NoQueryNoParams(request: string)
    requires forall m, name, q, rest :: !HasQuery(request, m, name, q, rest)
    ensures QueryParams(request) == map[]
  {
    hide QueryString, HasQuery;
    if QueryString(request).Some? {
      var m, name, rest := QueryFound(request, QueryString(request).value);
    }
  }

  /** The query the parameter reader sees is the one the request line was printed with. */
  lemma PrintedQueryString(m: string, name: string, query: Option<string>, rest: string)
    requires HttpRequest.Known(m) && ' ' !in name && '?' !in name && (query.Some? ==> ' ' !in query.value)
    ensures QueryString(HttpRequest.Print(m, HttpRequest.Target(name, query), rest)) == query
  {
    hide QueryString, QueryOf, HttpRequest.Print;
    PrintedTarget(m, HttpRequest.Target(name, query), rest);
    TargetQuery(name, query);
  }

  /**
   Request line round trip: for a printed request whose copied path fits and whose method's
   marker comes first, the parser recovers method and query, and the path exactly when it is
   kept; the parameter reader recovers, from the same raw text, the printed map with the last
   duplicate winning.
   */
  lemma RequestLineRoundTrip(m: string, name: string, kvs: seq<(string, string)>, rest: string)
    requires HttpRequest.Known(m) && ' ' !in name && '?' !in name
    requires Printable(kvs) && ' ' !in PrintQuery(kvs)
    requires var target := HttpRequest.Target(name, Some(PrintQuery(kvs)));
             && |HttpRequest.Copied(m, target)| < HttpRequest.PATH_SIZE
             && HttpRequest.NoEarlierMarker(m, HttpRequest.Print(m, target, rest))
    ensures var target := HttpRequest.Target(name, Some(PrintQuery(kvs)));
            var raw := HttpRequest.Print(m, target, rest);
            HttpRequest.PathFits(raw) && HttpRequest.ParseRequest(raw).Parsed? && QueryParams(raw) == Stored(map[], kvs)
    ensures var target := HttpRequest.Target(name, Some(PrintQuery(kvs)));
            var r := HttpRequest.ParseRequest(HttpRequest.Print(m, target, rest)).request;
            && r.method_ == m && r.query == PrintQuery(kvs)
            && (r.cleanPath == "/" + name <==> HttpRequest.PathKept(m, name))
  {
    hide HttpRequest.PathFits, HttpRequest.ParseRequest, QueryString, PrintQuery, Printable;
    var query := Some(PrintQuery(kvs));
    var target := HttpRequest.Target(name, query);
    assert ' ' !in target && target[0] == '/';
    HttpRequest.PrintedFits(m, target, rest);
    HttpRequest.ParsePrinted(m, target, rest);
    HttpRequest.TargetRecovered(m, name, query);
    PrintedQueryString(m, name, query, rest);
    PrintedReads(map[], kvs);
  }

  // ---- Headers

  /** The first position at or after from that holds no white space. */
  function SkipSpace(s: string, from: nat): (r: nat)
    requires from <= |s|
    ensures from <= r <= |s| && (r < |s| ==> !IsSpace(s[r]))
    ensures forall i :: from <= i < r ==> IsSpace(s[i])
    decreases |s| - from
  {
    if from < |s| && IsSpace(s[from]) then SkipSpace(s, from + 1) else from
  }

  /** Where a value ends: the next CRLF, or the next LF when there is no CRLF at all, or the end. */
  function LineEnd(s: string, from: nat): (r: nat)
    requires from <= |s|
    ensures from <= r <= |s|
  {
    var crlf := Find(s, "\r\n", from);
    if crlf.Some? then crlf.value else
    var lf := FindChar(s, '\n', from);
    if lf.Some? then lf.value else |s|
  }

  /** The value after the first occurrence of name; white space skipped includes line ends. */
  function HeaderValue(request: string, name: string): string {
    var at := Find(request, name, 0);
    if at.None? then "" else
    var from := SkipSpace(request, at.value + |name|);
    request[from..LineEnd(request, from)]
  }

  /** The header reader's loop over white space. */
  method ExtractHeaderValue(request: string, name: string) returns (value: string)
    ensures value == HeaderValue(request, name)
  {
    hide Find, LineEnd, IsSpace;
    var at := Find(request, name, 0);
    if at.None? {
      return "";
    }
    var valuePos := at.value + |name|;
    while valuePos < |request| && IsSpace(request[valuePos])
      invariant valuePos <= |request|
      invariant SkipSpace(request, valuePos) == SkipSpace(request, at.value + |name|)
    {
      valuePos := valuePos + 1;
    }
    value := request[valuePos..LineEnd(request, valuePos)];
  }

  /** A header that is missing reads as the empty text. */
  lemma MissingHeader(request: string, name: string)
    requires !Contains(request, name)
    ensures HeaderValue(request, name) == ""
  {
  }

  /** A value ends at the next CRLF; when none follows at all, at the next LF, or at the end of the request. */
  lemma LineEndCases(s: string, from: nat, i: nat)
    requires from <= |s| && from <= i
    ensures MatchesAt(s, "\r\n", i) ==> LineEnd(s, from) <= i && MatchesAt(s, "\r\n", LineEnd(s, from))
    ensures MatchesAt(s, "\r\n", LineEnd(s, from)) || LineEnd(s, from) == |s| || s[LineEnd(s, from)] == '\n'
    ensures i < LineEnd(s, from) ==> !MatchesAt(s, "\r\n", i)
    ensures i < LineEnd(s, from) && !MatchesAt(s, "\r\n", LineEnd(s, from)) ==> s[i] != '\n'
  {
    hide Find, FindChar, MatchesAt;
  }

  /** After blanks, the value reader takes the text from the first non-blank up to the next CRLF. */
  lemma HeaderReads(request: string, name: string, at: nat, from: nat, end: nat)
    requires Find(request, name, 0) == Some(at) && at + |name| <= from < end <= |request|
    requires forall i :: at + |name| <= i < from ==> IsSpace(request[i])
    requires MatchesAt(request, "\r\n", end) && !IsSpace(request[from])
    requires forall i: nat :: from <= i < end ==> !MatchesAt(request, "\r\n", i)
    ensures HeaderValue(request, name) == request[from..end]
  {
    hide *;
    SkipTo(request, at + |name|, from);
    LineEndAt(request, from, end);
    HeaderValueAt(request, name, at);
  }

  lemma HeaderValueAt(request: string, name: string, at: nat)
    requires Find(request, name, 0) == Some(at)
    ensures at + |name| <= |request|
    ensures var from := SkipSpace(request, at + |name|);
            HeaderValue(request, name) == request[from..LineEnd(request, from)]
  {
    hide Find, SkipSpace, LineEnd;
  }

  lemma LineEndAt(request: string, from: nat, end: nat)
    requires from <= end && MatchesAt(request, "\r\n", end)
    requires forall i: nat :: from <= i < end ==> !MatchesAt(request, "\r\n", i)
    ensures from <= |request| && LineEnd(request, from) == end
  {
    MatchesChar(request, "\r\n", end, 0);
    hide Find, FindChar, MatchesAt;
    FindUnique(request, "\r\n", from, end);
  }

  /** A request with a header in it: what precedes it, its name, blanks, its value, a line break, the rest. */
  function WithHeader(before: string, name: string, blanks: string, value: string, rest: string): string {
    before + name + blanks + value + "\r\n" + rest
  }

  lemma MatchShifts(raw: string, from: nat, value: string, pattern: string, i: nat)
    requires from + |value| <= |raw| && raw[from..from + |value|] == value
    requires from <= i && i + |pattern| <= from + |value| && MatchesAt(raw, pattern, i)
    ensures MatchesAt(value, pattern, i - from)
  {
    var k := i - from;
    forall j | 0 <= j < |pattern| ensures value[k + j] == pattern[j] {
      assert value[k + j] == raw[from..from + |value|][k + j] == raw[i + j];
      MatchesChar(raw, pattern, i, j);
    }
    assert value[k..k + |pattern|] == pattern;
  }

  lemma NotContained(s: string, pattern: string, i: nat)
    requires !Contains(s, pattern)
    ensures !MatchesAt(s, pattern, i)
  {
    hide MatchesAt, Find;
  }

  /** No line break starts inside a value that holds none, nor across its end. */
  lemma LineBreakInside(raw: string, from: nat, value: string, i: nat)
    requires from + |value| < |raw| && raw[from..from + |value|] == value && raw[from + |value|] == '\r'
    requires !Contains(value, "\r\n") && from <= i < from + |value|
    ensures !MatchesAt(raw, "\r\n", i)
  {
    hide MatchesAt, Contains;
    NotContained(value, "\r\n", i - from);
    if i + 1 == from + |value| {
      NoFeedAfter(raw, i);
    } else if MatchesAt(raw, "\r\n", i) {
      MatchShifts(raw, from, value, "\r\n", i);
    }
  }

  lemma NoFeedAfter(raw: string, i: nat)
    requires i + 1 < |raw| && raw[i + 1] != '\n'
    ensures !MatchesAt(raw, "\r\n", i)
  {
    assert raw[i..i + 2][1] == raw[i + 1];
  }

  lemma NoLineBreak(value: string)
    requires '\r' !in value
    ensures !Contains(value, "\r\n")
  {
    if Contains(value, "\r\n") {
      MatchesChar(value, "\r\n", Find(value, "\r\n", 0).value, 0);
    }
  }

  lemma HeaderParts(before: string, name: string, blanks: string, value: string, rest: string)
    ensures var raw := WithHeader(before, name, blanks, value, rest);
            var from, end := |before| + |name| + |blanks|, |before| + |name| + |blanks| + |value|;
            && MatchesAt(raw, name, |before|) && MatchesAt(raw, "\r\n", end) && end + 2 <= |raw|
            && raw[|before| + |name|..from] == blanks && raw[from..end] == value && raw[end] == '\r'
  {
    var raw := WithHeader(before, name, blanks, value, rest);
    MatchesConcat(raw, before, name, blanks + value + "\r\n" + rest);
    MatchesConcat(raw, before + name + blanks + value, "\r\n", rest);
  }

  lemma BlanksAt(raw: string, from: nat, blanks: string)
    requires from + |blanks| <= |raw| && raw[from..from + |blanks|] == blanks && forall c :: c in blanks ==> IsSpace(c)
    ensures forall i :: from <= i < from + |blanks| ==> IsSpace(raw[i])
  {
    forall i | from <= i < from + |blanks| ensures IsSpace(raw[i]) {
      assert raw[i] == blanks[i - from];
    }
  }

  lemma HeaderReadBack(before: string, name: string, blanks: string, value: string, rest: string)
    requires FirstAt(WithHeader(before, name, blanks, value, rest), name, |before|)
    requires forall c :: c in blanks ==> IsSpace(c)
    requires value != "" && !IsSpace(value[0])
    requires !Contains(value, "\r\n")
    ensures HeaderValue(WithHeader(before, name, blanks, value, rest), name) == value
  {
    hide *;
    var raw := WithHeader(before, name, blanks, value, rest);
    var from := |before| + |name| + |blanks|;
    var end := from + |value|;
    HeaderParts(before, name, blanks, value, rest);
    HeaderFound(raw, name, |before|);
    BlanksAt(raw, |before| + |name|, blanks);
    forall i: nat | from <= i < end ensures !MatchesAt(raw, "\r\n", i) {
      LineBreakInside(raw, from, value, i);
    }
    assert raw[from] == raw[from..end][0];
    HeaderReads(raw, name, |before|, from, end);
  }

  lemma HeaderFound(raw: string, name: string, at: nat)
    requires FirstAt(raw, name, at) && MatchesAt(raw, name, at)
    ensures Find(raw, name, 0) == Some(at)
  {
    hide MatchesAt;
    FindUnique(raw, name, 0, at);
  }

  /** A printed header is read back: any value that starts with no blank and has no line break inside. */
  lemma PrintedHeaderReads(before: string, name: string, blanks: string, value: string, rest: string)
    requires FirstAt(WithHeader(before, name, blanks, value, rest), name, |before|)
    requires forall c :: c in blanks ==> c == ' ' || 9 <= c as int <= 13
    requires value != "" && value[0] != ' ' && !(9 <= value[0] as int <= 13)
    requires !Contains(value, "\r\n")
    ensures HeaderValue(WithHeader(before, name, blanks, value, rest), name) == value
  {
    hide WithHeader, HeaderValue, FirstAt, Contains;
    HeaderReadBack(before, name, blanks, value, rest);
  }

  lemma NoMatchAt(s: string, pattern: string, i: nat)
    requires i < |s| && pattern != "" && s[i] != pattern[0]
    ensures !MatchesAt(s, pattern, i)
  {
    if i + |pattern| <= |s| {
      assert s[i..i + |pattern|][0] == s[i];
    }
  }

  lemma CrlfFound(request: string, start: nat, end: nat)
    requires start <= end && MatchesAt(request, "\r\n", end)
    requires forall i :: start <= i < end ==> request[i] != '\r'
    ensures Find(request, "\r\n", start) == Some(end)
  {
    hide Find;
    forall i: nat | start <= i < end ensures !MatchesAt(request, "\r\n", i) {
      NoMatchAt(request, "\r\n", i);
    }
    FindUnique(request, "\r\n", start, end);
  }

  lemma {:induction false} SkipTo(s: string, from: nat, stop: nat)
    requires from <= stop < |s| && !IsSpace(s[stop]) && forall i :: from <= i < stop ==> IsSpace(s[i])
    ensures SkipSpace(s, from) == stop
    decreases stop - from
  {
    if from == stop {
    } else {
      SkipTo(s, from + 1, stop);
    }
  }

  // ---- The session cookie

  const COOKIE := "Cookie:"
  const SESSION := "session_id="

  /** What follows the first "session_id=" behind the first "Cookie:", to the next ';' anywhere, else the next CRLF. */
  function SessionId(request: string): string {
    var cookie := Find(request, COOKIE, 0);
    if cookie.None? then "" else
    var session := Find(request, SESSION, cookie.value);
    if session.None? then "" else
    var start := session.value + |SESSION|;
    var semicolon := FindChar(request, ';', start);
    if semicolon.Some? then request[start..semicolon.value] else
    var crlf := Find(request, "\r\n", start);
    if crlf.Some? then request[start..crlf.value] else ""
  }

  /** A request without a cookie header, without a session id behind it, or whose id has no end, has none. */
  lemma NoSessionId(request: string)
    ensures !Contains(request, "Cookie:") ==> SessionId(request) == ""
    ensures Contains(request, "Cookie:") ==>
              var session := Find(request, "session_id=", Find(request, "Cookie:", 0).value);
              && (session.None? ==> SessionId(request) == "")
              && (session.Some? ==>
                    var start := session.value + 11;
                    FindChar(request, ';', start).None? && Find(request, "\r\n", start).None? ==>
                      SessionId(request) == "")
  {
    hide Find, FindChar;
  }

  /** An id that ends at ';' is read exactly. */
  lemma SessionIdToSemicolon(request: string, start: nat, end: nat)
    requires Find(request, COOKIE, 0).Some?
    requires start >= |SESSION| && Find(request, SESSION, Find(request, COOKIE, 0).value) == Some(start - |SESSION|)
    requires start <= end < |request| && request[end] == ';' && forall i :: start <= i < end ==> request[i] != ';'
    ensures SessionId(request) == request[start..end]
  {
    hide FindChar, Find;
    FindCharUnique(request, ';', start, end);
  }

  /** An id that ends at CRLF is read exactly when no ';' follows anywhere in the request. */
  lemma SessionIdToLineEnd(request: string, start: nat, end: nat)
    requires Find(request, COOKIE, 0).Some?
    requires start >= |SESSION| && Find(request, SESSION, Find(request, COOKIE, 0).value) == Some(start - |SESSION|)
    requires start <= end && MatchesAt(request, "\r\n", end)
    requires forall i :: start <= i < end ==> request[i] != ';' && request[i] != '\r'
    ensures SessionId(request) == request[start..end] <==> forall i :: end <= i < |request| ==> request[i] != ';'
  {
    hide *;
    CrlfFound(request, start, end);
    MatchesChar(request, "\r\n", end, 0);
    SessionIdValue(request, start);
    var semicolon := FindChar(request, ';', start);
    if semicolon.Some? {
      assert request[semicolon.value] == ';' && semicolon.value > end;
      assert |request[start..semicolon.value]| > |request[start..end]|;
    }
  }

  lemma SessionIdValue(request: string, start: nat)
    requires Find(request, COOKIE, 0).Some?
    requires start >= |SESSION| && Find(request, SESSION, Find(request, COOKIE, 0).value) == Some(start - |SESSION|)
    ensures var semicolon, crlf := FindChar(request, ';', start), Find(request, "\r\n", start);
            SessionId(request) == if semicolon.Some? then request[start..semicolon.value]
                                  else if crlf.Some? then request[start..crlf.value] else ""
  {
    hide Find, FindChar, MatchesAt;
  }

  /** A request with a session cookie in it: what precedes it, the header, the id, what follows the id. */
  function WithCookie(before: string, id: string, after: string): string {
    before + COOKIE + " " + SESSION + id + after
  }

  lemma CookieParts(before: string, id: string, after: string)
    ensures var raw, start := WithCookie(before, id, after), |before| + |COOKIE| + 1 + |SESSION|;
            && MatchesAt(raw, COOKIE, |before|) && MatchesAt(raw, SESSION, start - |SESSION|)
            && |raw| >= start + |id| && raw[start..start + |id|] == id && raw[start + |id|..] == after
            && forall i :: |before| <= i < start - |SESSION| ==> raw[i] != SESSION[0]
  {
    var raw := WithCookie(before, id, after);
    MatchesConcat(raw, before, COOKIE, " " + SESSION + id + after);
    MatchesConcat(raw, before + COOKIE + " ", SESSION, id + after);
    forall i | |before| <= i < |before| + |COOKIE| + 1 ensures raw[i] != SESSION[0] {
      assert raw[i] == (COOKIE + " ")[i - |before|];
    }
  }

  lemma CookieFound(before: string, id: string, after: string)
    requires FirstAt(WithCookie(before, id, after), COOKIE, |before|)
    ensures var raw := WithCookie(before, id, after);
            && Find(raw, COOKIE, 0) == Some(|before|)
            && Find(raw, SESSION, |before|) == Some(|before| + |COOKIE| + 1)
  {
    var raw := WithCookie(before, id, after);
    CookieParts(before, id, after);
    hide WithCookie, MatchesAt;
    FindUnique(raw, COOKIE, 0, |before|);
    forall i: nat | |before| <= i < |before| + |COOKIE| + 1 ensures !MatchesAt(raw, SESSION, i) {
      NoMatchAt(raw, SESSION, i);
    }
    FindUnique(raw, SESSION, |before|, |before| + |COOKIE| + 1);
  }

  lemma CookieToSemicolon(before: string, id: string, after: string)
    requires FirstAt(WithCookie(before, id, after), COOKIE, |before|)
    requires ';' !in id && ";" <= after
    ensures SessionId(WithCookie(before, id, after)) == id
  {
    var raw, start := WithCookie(before, id, after), |before| + |COOKIE| + 1 + |SESSION|;
    CookieFound(before, id, after);
    CookieParts(before, id, after);
    hide *;
    IdChars(raw, start, id);
    assert raw[start + |id|] == raw[start + |id|..][0];
    SessionIdToSemicolon(raw, start, start + |id|);
  }

  lemma CookieToLineEnd(before: string, id: string, after: string)
    requires FirstAt(WithCookie(before, id, after), COOKIE, |before|)
    requires ';' !in id && '\r' !in id && "\r\n" <= after
    ensures SessionId(WithCookie(before, id, after)) == id <==> ';' !in after
  {
    var raw, start := WithCookie(before, id, after), |before| + |COOKIE| + 1 + |SESSION|;
    CookieFound(before, id, after);
    CookieParts(before, id, after);
    MatchesTail(raw, "\r\n", start + |id|);
    hide *;
    IdChars(raw, start, id);
    SessionIdToLineEnd(raw, start, start + |id|);
    TailHas(raw, start + |id|, ';');
  }

  lemma IdChars(raw: string, start: nat, id: string)
    requires start + |id| <= |raw| && raw[start..start + |id|] == id
    ensures forall i :: start <= i < start + |id| ==> raw[i] in id
  {
    forall i | start <= i < start + |id| ensures raw[i] in id {
      assert raw[i] == raw[start..start + |id|][i - start];
    }
  }

  lemma MatchesTail(raw: string, pattern: string, at: nat)
    requires at <= |raw| && pattern <= raw[at..]
    ensures MatchesAt(raw, pattern, at)
  {
    assert raw[at..at + |pattern|] == raw[at..][..|pattern|];
  }

  lemma TailHas(raw: string, at: nat, c: char)
    requires at <= |raw|
    ensures c in raw[at..] <==> exists i :: at <= i < |raw| && raw[i] == c
  {
    if c in raw[at..] {
      var k :| 0 <= k < |raw| - at && raw[at..][k] == c;
      assert raw[at + k] == c;
    }
    forall i | at <= i < |raw| && raw[i] == c ensures c in raw[at..] {
      assert raw[at..][i - at] == c;
    }
  }

  /**
   The session cookie round trip: an id without ';' or carriage return, sent back as the first
   cookie and ended by ';' or by a line break, is read exactly when it is ended by ';' or no ';'
   follows in the whole request.
   */
  lemma CookieRoundTrip(before: string, id: string, after: string)
    requires FirstAt(WithCookie(before, id, after), COOKIE, |before|)
    requires ';' !in id && '\r' !in id && (";" <= after || "\r\n" <= after)
    ensures SessionId(WithCookie(before, id, after)) == id <==> ";" <= after || ';' !in after
  {
    hide WithCookie, SessionId, FirstAt;
    if ";" <= after {
      CookieToSemicolon(before, id, after);
    } else {
      CookieToLineEnd(before, id, after);
    }
  }
}
