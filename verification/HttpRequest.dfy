/**
 The request line: extract_method_token and HttpRequest::parse of src/http/request.cpp, on a
 raw request that is a C string. The request object copies the path into a fixed buffer.
 */
module HttpRequest {
  import opened Options
  import opened Text

  datatype Request = Request(method_: string, cleanPath: string, query: string)

  datatype Parse = Parsed(request: Request) | Refused(token: string)

  const PATH_SIZE: nat := 200  // the fixed path buffer, terminator included

  // ---- The method token of a refused request

  /** The first line, as far as CRLF. */
  function RequestLine(raw: string): (line: string)
    ensures line <= raw && FirstAt(raw, "\r\n", |line|)
    ensures MatchesAt(raw, "\r\n", |line|) || (line == raw && !Contains(raw, "\r\n"))
  {
    var eol := Find(raw, "\r\n", 0);
    if eol.Some? then raw[..eol.value] else raw
  }

  function MethodToken(raw: string): string {
    var line := RequestLine(raw);
    var sp1 := FindChar(line, ' ', 0);
    if sp1.None? || sp1.value == 0 then "" else
    var sp2 := FindChar(line, ' ', sp1.value + 1);
    if sp2.None? || !MatchesAt(line, "HTTP/", sp2.value + 1) || |line| <= sp2.value + 6 then ""
    else line[..sp1.value]
  }

  /** The line is token SP target SP "HTTP/" and at least one character more. */
  ghost predicate IsRequestLine(line: string, token: string, target: string, version: string) {
    && token != "" && ' ' !in token && ' ' !in target && version != ""
    && line == token + " " + target + " " + "HTTP/" + version
  }

  lemma LineFirstSpace(line: string, token: string, target: string, version: string)
    requires IsRequestLine(line, token, target, version)
    ensures FindChar(line, ' ', 0) == Some(|token|) && line[..|token|] == token
  {
    hide FindChar;
    var tail := target + " " + "HTTP/" + version;
    assert line == token + " " + tail;
    assert "" + token == token;
    FindCharAfter(line, "", token, ' ', tail);
  }

  lemma LineSecondSpace(line: string, token: string, target: string, version: string)
    requires IsRequestLine(line, token, target, version)
    ensures FindChar(line, ' ', |token| + 1) == Some(|token| + 1 + |target|)
  {
    hide FindChar;
    var before, tail := token + " ", "HTTP/" + version;
    assert line == before + target + " " + tail;
    FindCharAfter(line, before, target, ' ', tail);
  }

  lemma LineVersion(line: string, token: string, target: string, version: string)
    requires IsRequestLine(line, token, target, version)
    ensures MatchesAt(line, "HTTP/", |token| + 1 + |target| + 1) && |line| > |token| + 1 + |target| + 6
  {
    hide MatchesAt;
    MatchesConcat(line, token + " " + target + " ", "HTTP/", version);
  }

  /** A refused request reports a method exactly when its first line is well formed, and then its first word. */
  lemma MethodTokenIff(raw: string, m: string)
    ensures MethodToken(raw) == m && m != ""
       <==> exists target, version :: IsRequestLine(RequestLine(raw), m, target, version)
  {
    var line := RequestLine(raw);
    if MethodToken(raw) == m && m != "" {
      LineOfToken(line, FindChar(line, ' ', 0).value, FindChar(line, ' ', FindChar(line, ' ', 0).value + 1).value);
    }
    forall target, version | IsRequestLine(line, m, target, version) ensures MethodToken(raw) == m {
      hide FindChar, MatchesAt;
      LineFirstSpace(line, m, target, version);
      LineSecondSpace(line, m, target, version);
      LineVersion(line, m, target, version);
    }
  }

  lemma LineOfToken(line: string, sp1: nat, sp2: nat)
    requires 0 < sp1 < sp2 && sp2 + 6 < |line| && line[sp1] == ' ' && line[sp2] == ' '
    requires ' ' !in line[..sp1] && ' ' !in line[sp1 + 1..sp2] && MatchesAt(line, "HTTP/", sp2 + 1)
    ensures IsRequestLine(line, line[..sp1], line[sp1 + 1..sp2], line[sp2 + 6..])
  {
    hide FindChar;
    assert line == line[..sp1] + " " + line[sp1 + 1..sp2] + " " + line[sp2 + 1..sp2 + 6] + line[sp2 + 6..];
  }

  // ---- Parsing

  /** The first method marker found, GET before POST before HEAD, wherever it stands, and the path's offset in it. */
  function Marker(raw: string): (r: Option<(string, nat, nat)>)
    ensures r.Some? ==> MatchesAt(raw, r.value.0 + " /", r.value.1)
    ensures r.Some? ==> (r.value.0, r.value.2) in {("GET", 5), ("POST", 6), ("HEAD", 5)}
  {
    var get := Find(raw, "GET /", 0);
    if get.Some? then Some(("GET", get.value, 5)) else
    var post := Find(raw, "POST /", 0);
    if post.Some? then Some(("POST", post.value, 6)) else
    var head := Find(raw, "HEAD /", 0);
    if head.Some? then Some(("HEAD", head.value, 5)) else None
  }

  lemma NoVersionAt(s: string, i: nat)
    requires i + 1 < |s| ==> s[i] != ' ' || s[i + 1] != 'H'
    ensures !MatchesAt(s, " HTTP/", i)
  {
    if i + 6 <= |s| {
      assert s[i..i + 6][0] == s[i] && s[i..i + 6][1] == s[i + 1];
    }
  }

  /** No " HTTP/" overlaps a marker, whose one space is followed by '/'. */
  lemma MarkerBeforeVersion(raw: string)
    requires Marker(raw).Some?
    ensures var (_, start, offset) := Marker(raw).value;
            forall end: nat :: start <= end < start + offset ==> !MatchesAt(raw, " HTTP/", end)
  {
    var (m, start, offset) := Marker(raw).value;
    forall end: nat | start <= end < start + offset ensures !MatchesAt(raw, " HTTP/", end) {
      MatchesChar(raw, m + " /", start, end - start);
      MatchesChar(raw, m + " /", start, |m| + 1);
      NoVersionAt(raw, end);
    }
  }

  /** What stands between the method marker and " HTTP/", copied to the path buffer. */
  function PathWithQuery(raw: string): Option<string> {
    var marker := Marker(raw);
    if marker.None? then None else
    var (_, start, offset) := marker.value;
    var end := Find(raw, " HTTP/", start);
    if end.None? then None
    else MarkerBeforeVersion(raw); Some(raw[start + offset..end.value])
  }

  /** The unbounded copy fits the path buffer: what parse demands of its caller. */
  ghost predicate PathFits(raw: string) {
    PathWithQuery(raw).Some? ==> |PathWithQuery(raw).value| < PATH_SIZE
  }

  /** A path that does not start with '/' gets one, and is cut to fit with it. */
  function Normalized(path: string): string {
    if path == "" || path[0] == '/' then path
    else "/" + if |path| > 198 then path[..198] else path
  }

  function SplitQuery(text: string): (string, string) {
    var qmark := FindChar(text, '?', 0);
    if qmark.Some? then (text[..qmark.value], text[qmark.value + 1..]) else (text, "")
  }

  function ParseRequest(raw: string): Parse
    requires PathFits(raw)
  {
    var text := PathWithQuery(raw);
    if text.None? then Refused(MethodToken(raw)) else
    var (path, query) := SplitQuery(text.value);
    Parsed(Request(Marker(raw).value.0, Normalized(path), query))
  }

  /** A refused request carries a method exactly when its first line is well formed, and then its token. */
  lemma RefusedToken(raw: string)
    requires PathFits(raw) && ParseRequest(raw).Refused?
    ensures var m := ParseRequest(raw).token;
            && (m != "" <==> exists token, target, version :: IsRequestLine(RequestLine(raw), token, target, version))
            && (forall token, target, version :: IsRequestLine(RequestLine(raw), token, target, version) ==> m == token)
  {
    var m := ParseRequest(raw).token;
    hide MethodToken, RequestLine, IsRequestLine;
    MethodTokenIff(raw, m);
    forall token, target, version | IsRequestLine(RequestLine(raw), token, target, version) ensures m == token {
      MethodTokenIff(raw, token);
    }
  }

  // ---- Printing a request, and reading it back

  predicate Known(m: string) {
    m in {"GET", "POST", "HEAD"}
  }

  /** A request: its method, a space-free target, and whatever follows the version marker. */
  function Print(m: string, target: string, rest: string): string {
    m + " " + target + " HTTP/" + rest
  }

  /** No marker that is tried before the method's own stands anywhere in the request. */
  predicate NoEarlierMarker(m: string, raw: string) {
    && (m != "GET" ==> !Contains(raw, "GET /"))
    && (m == "HEAD" ==> !Contains(raw, "POST /"))
  }

  lemma PrintedMarker(m: string, target: string, rest: string)
    requires Known(m) && target != "" && target[0] == '/'
    ensures var raw := Print(m, target, rest);
            MatchesAt(raw, m + " /", 0)
  {
    var raw := Print(m, target, rest);
    assert raw[..|m| + 2] == m + " /";
  }

  /** The method is recovered exactly when no earlier-tried marker stands anywhere in the request. */
  lemma MethodRecoveredIff(m: string, target: string, rest: string)
    requires Known(m) && target != "" && target[0] == '/'
    ensures var raw := Print(m, target, rest);
            Marker(raw).Some? && (Marker(raw).value.0 == m <==> NoEarlierMarker(m, raw))
    ensures var raw := Print(m, target, rest);
            NoEarlierMarker(m, raw) ==> Marker(raw).value.1 == 0
  {
    PrintedMarker(m, target, rest);
    var raw := Print(m, target, rest);
    hide MatchesAt, Print;
    FindUnique(raw, m + " /", 0, 0);
  }

  /** The marker chosen in a raw request: the first one of a method, no other tried before it standing anywhere. */
  ghost predicate Chosen(raw: string, m: string, at: nat) {
    Known(m) && MatchesAt(raw, m + " /", at) && FirstAt(raw, m + " /", at) && NoEarlierMarker(m, raw)
  }

  function PathOffset(m: string): nat {
    if m == "POST" then 6 else 5
  }

  lemma MarkerIff(raw: string, m: string, at: nat)
    ensures Marker(raw) == Some((m, at, PathOffset(m))) <==> Chosen(raw, m, at)
    ensures Marker(raw).None? <==> !Contains(raw, "GET /") && !Contains(raw, "POST /") && !Contains(raw, "HEAD /")
  {
    assert "GET" + " /" == "GET /" && "POST" + " /" == "POST /" && "HEAD" + " /" == "HEAD /";
    hide MatchesAt, Find;
    if Chosen(raw, m, at) {
      FindUnique(raw, m + " /", 0, at);
    }
  }

  /** The path and query of a raw request stand between its chosen marker and the next " HTTP/". */
  ghost predicate Delimits(raw: string, m: string, at: nat, end: nat) {
    && Chosen(raw, m, at) && at + PathOffset(m) <= end <= |raw| && MatchesAt(raw, " HTTP/", end)
    && forall i: nat :: at <= i < end ==> !MatchesAt(raw, " HTTP/", i)
  }

  lemma PathIff(raw: string, m: string, at: nat, end: nat)
    requires Marker(raw) == Some((m, at, PathOffset(m)))
    ensures Find(raw, " HTTP/", at) == Some(end) <==> Delimits(raw, m, at, end)
    ensures Delimits(raw, m, at, end) ==> PathWithQuery(raw) == Some(raw[at + PathOffset(m)..end])
  {
    MarkerIff(raw, m, at);
    MarkerBeforeVersion(raw);
    assert MatchesAt(raw, " HTTP/", end) ==> end <= |raw|;
    hide MatchesAt, Marker, Chosen, Find;
    if Delimits(raw, m, at, end) {
      FindUnique(raw, " HTTP/", at, end);
    }
  }

  /** A path with or without a query, as parse takes it apart. */
  function ReadAs(m: string, text: string): Request {
    var (path, query) := SplitQuery(text);
    Request(m, Normalized(path), query)
  }

  lemma DelimitedParses(raw: string, m: string, at: nat, end: nat)
    requires PathFits(raw) && Delimits(raw, m, at, end)
    ensures ParseRequest(raw) == Parsed(ReadAs(m, raw[at + PathOffset(m)..end]))
  {
    MarkerIff(raw, m, at);
    PathIff(raw, m, at, end);
    hide Marker, Find, Chosen, MatchesAt, SplitQuery, Normalized, MethodToken, PathWithQuery;
  }

  lemma ParsedDelimits(raw: string) returns (m: string, at: nat, end: nat)
    requires PathFits(raw) && ParseRequest(raw).Parsed?
    ensures Delimits(raw, m, at, end)
  {
    hide MatchesAt, SplitQuery, Normalized, MethodToken;
    m, at := Marker(raw).value.0, Marker(raw).value.1;
    end := Find(raw, " HTTP/", at).value;
    assert Marker(raw) == Some((m, at, PathOffset(m)));
    PathIff(raw, m, at, end);
  }

  /**
   What every raw request parses to: the method of its chosen marker and what stands between
   that marker and the next " HTTP/"; nothing when there is no marker or no version behind it.
   */
  lemma ParsedIff(raw: string, r: Request)
    requires PathFits(raw)
    ensures ParseRequest(raw) == Parsed(r) <==>
            exists m: string, at: nat, end: nat ::
              Delimits(raw, m, at, end) && r == ReadAs(m, raw[at + PathOffset(m)..end])
  {
    hide ParseRequest, ReadAs, PathFits, MatchesAt, Chosen;
    if ParseRequest(raw) == Parsed(r) {
      var m, at, end := ParsedDelimits(raw);
      DelimitedParses(raw, m, at, end);
    }
    forall m: string, at: nat, end: nat | Delimits(raw, m, at, end) && r == ReadAs(m, raw[at + PathOffset(m)..end])
      ensures ParseRequest(raw) == Parsed(r)
    {
      DelimitedParses(raw, m, at, end);
    }
  }

  /** The first version marker of a printed request follows its target. */
  lemma PrintedVersion(m: string, target: string, rest: string)
    requires Known(m) && ' ' !in target && target != "" && target[0] == '/'
    ensures Find(Print(m, target, rest), " HTTP/", 0) == Some(|m| + 1 + |target|)
  {
    var raw := Print(m, target, rest);
    var before := m + " " + target;
    MatchesConcat(raw, before, " HTTP/", rest);
    forall i: nat | i < |before| ensures !MatchesAt(raw, " HTTP/", i) {
      assert raw[i] == before[i];
      if i == |m| {
        assert raw[i + 1] == target[0];
      } else if i > |m| {
        assert before[i] == target[i - |m| - 1];
      }
      NoVersionAt(raw, i);
    }
    FindUnique(raw, " HTTP/", 0, |before|);
  }

  /** What is copied to the path buffer: HEAD's path offset keeps the target's slash, the others skip it. */
  function Copied(m: string, target: string): string
    requires target != ""
  {
    if m == "HEAD" then target else target[1..]
  }

  /** What the parser makes of a target: a skipped slash is added again, unless another one follows it. */
  function Recovered(m: string, target: string): Request
    requires Known(m) && target != "" && target[0] == '/'
  {
    ReadAs(m, Copied(m, target))
  }

  lemma PrintedPath(m: string, target: string, rest: string)
    requires Known(m) && ' ' !in target && target != "" && target[0] == '/'
    requires NoEarlierMarker(m, Print(m, target, rest))
    ensures PathWithQuery(Print(m, target, rest)) == Some(Copied(m, target))
  {
    var raw := Print(m, target, rest);
    MethodRecoveredIff(m, target, rest);
    PrintedVersion(m, target, rest);
    PrintedSlices(m, target, rest);
    hide Print, Find, MatchesAt;
  }

  lemma PrintedSlices(m: string, target: string, rest: string)
    requires target != ""
    ensures var raw, end := Print(m, target, rest), |m| + 1 + |target|;
            end <= |raw| && raw[|m| + 1..end] == target && raw[|m| + 2..end] == target[1..]
  {
    var raw, end := Print(m, target, rest), |m| + 1 + |target|;
    assert raw == (m + " ") + target + (" HTTP/" + rest);
    hide Print;
    MiddleSlice(m + " ", target, " HTTP/" + rest);
    DropFirst(raw, |m| + 1, end);
  }

  lemma MiddleSlice(a: string, b: string, c: string)
    ensures (a + b + c)[|a|..|a| + |b|] == b
  {
  }

  lemma DropFirst(s: string, a: nat, b: nat)
    requires a < b <= |s|
    ensures s[a + 1..b] == s[a..b][1..]
  {
  }

  /** A printed request fits the path buffer exactly when what is copied of its target does. */
  lemma PrintedFits(m: string, target: string, rest: string)
    requires Known(m) && ' ' !in target && target != "" && target[0] == '/'
    requires NoEarlierMarker(m, Print(m, target, rest))
    ensures PathFits(Print(m, target, rest)) <==> |Copied(m, target)| < 200
  {
    hide Print, Copied, PathWithQuery;
    PrintedPath(m, target, rest);
  }

  /**
   A printed request that fits parses to its method and what is recovered of its target, exactly
   when no marker tried before its method's own stands anywhere in it.
   */
  lemma ParsePrinted(m: string, target: string, rest: string)
    requires Known(m) && ' ' !in target && target != "" && target[0] == '/'
    requires PathFits(Print(m, target, rest))
    ensures ParseRequest(Print(m, target, rest)) == Parsed(Recovered(m, target))
       <==> NoEarlierMarker(m, Print(m, target, rest))
  {
    hide Print, Copied, PathWithQuery, Marker, NoEarlierMarker;
    MethodRecoveredIff(m, target, rest);
    if NoEarlierMarker(m, Print(m, target, rest)) {
      PrintedPath(m, target, rest);
    }
  }

  /** The printed form of a query: nothing, or a question mark and its text. */
  function Suffix(query: Option<string>): string {
    if query.Some? then "?" + query.value else ""
  }

  function QueryText(query: Option<string>): string {
    if query.Some? then query.value else ""
  }

  /** A target of a slash, a name and perhaps a query. */
  function Target(name: string, query: Option<string>): string {
    "/" + name + Suffix(query)
  }

  lemma SplitTarget(path: string, query: Option<string>)
    requires '?' !in path
    ensures SplitQuery(path + Suffix(query)) == (path, QueryText(query))
  {
    var text := path + Suffix(query);
    if query.Some? {
      assert text == "" + path + "?" + query.value;
      FindCharAfter(text, "", path, '?', query.value);
      hide FindChar;
      assert text[..|path|] == path && text[|path| + 1..] == query.value;
    } else {
      assert text == path;
    }
  }

  lemma RecoveredParts(m: string, name: string, query: Option<string>)
    requires Known(m) && '?' !in name
    ensures Recovered(m, Target(name, query))
         == Request(m, Normalized(if m == "HEAD" then "/" + name else name), QueryText(query))
  {
    hide SplitQuery, Suffix, Normalized, QueryText;
    var path := if m == "HEAD" then "/" + name else name;
    TargetText(name, query);
    SplitTarget(path, query);
  }

  lemma TargetText(name: string, query: Option<string>)
    ensures Target(name, query) == ("/" + name) + Suffix(query)
    ensures Target(name, query)[0] == '/' && Target(name, query)[1..] == name + Suffix(query)
  {
    hide Suffix;
  }

  /**
   The query is always recovered. The path is, exactly when the request is a HEAD, or the name
   after the target's slash is not empty, starts with no other slash and is at most 198 long;
   else it is the bare name, or its first 198 characters after a slash.
   */
  lemma TargetRecovered(m: string, name: string, query: Option<string>)
    requires Known(m) && '?' !in name
    ensures var r := Recovered(m, Target(name, query));
            && r.query == QueryText(query)
            && (r.cleanPath == "/" + name <==> PathKept(m, name))
            && r.cleanPath ==
               (if m == "HEAD" then "/" + name
                else if name == "" then ""
                else if name[0] == '/' then name
                else "/" + if |name| <= 198 then name else name[..198])
  {
    RecoveredParts(m, name, query);
    hide Recovered, SplitQuery;
    if |name| > 198 {
      assert |"/" + name[..198]| < |"/" + name|;
    }
  }

  predicate PathKept(m: string, name: string) {
    m == "HEAD" || (name != "" && name[0] != '/' && |name| <= 198)
  }

  /** A GET of the longest name that fits the buffer loses its last character to the added slash. */
  lemma LongestNameIsCut(rest: string)
    ensures var name := seq(199, _ => 'a');
            var raw := Print("GET", Target(name, None), rest);
            PathFits(raw) && ParseRequest(raw) == Parsed(Request("GET", "/" + name[..198], ""))
  {
    var name := seq(199, _ => 'a');
    var target := Target(name, None);
    TargetText(name, None);
    assert target == "/" + name && |target| == 200;
    assert forall c :: c in target ==> c in "/a";
    PrintedFits("GET", target, rest);
    ParsePrinted("GET", target, rest);
    RecoveredParts("GET", name, None);
  }

  // ---- The request object and its path buffer

  lemma NulFreePart(s: string, i: nat, j: nat)
    requires NulFree(s) && i <= j <= |s|
    ensures NulFree(s[i..j])
  {
    assert forall c :: c in s[i..j] ==> c in s;
  }

  class RequestObject {
    var method_: string
    const cleanPath: array<char>
    var query: string

    constructor ()
      ensures fresh(cleanPath) && cleanPath.Length == PATH_SIZE && method_ == "" && query == ""
    {
      method_, query := "", "";
      cleanPath := new char[PATH_SIZE](_ => '\0');
    }

    /** strcpy into the path buffer, which must have room for the text and its terminator. */
    method CopyPath(text: string)
      requires NulFree(text) && |text| < cleanPath.Length
      modifies cleanPath
      ensures CString(cleanPath[..]) == text
      ensures cleanPath[..|text|] == text && cleanPath[|text|] == '\0'
    {
      for i := 0 to |text|
        invariant cleanPath[..i] == text[..i]
      {
        cleanPath[i] := text[i];
      }
      cleanPath[|text|] := '\0';
      UpToIs(cleanPath[..], '\0', text);
    }

    /** Cut the copied path at its first question mark; what follows it becomes the query. */
    method CutQuery(text: string) returns (path: string)
      requires NulFree(text) && |text| < cleanPath.Length && query == ""
      requires cleanPath[..|text|] == text && cleanPath[|text|] == '\0'
      modifies this`query, cleanPath
      ensures (path, query) == SplitQuery(text) && NulFree(path) && |path| <= |text|
      ensures CString(cleanPath[..]) == path
    {
      hide FindChar;
      path := text;
      var qmark := FindChar(text, '?', 0);
      if qmark.Some? {
        query := text[qmark.value + 1..];
        cleanPath[qmark.value] := '\0';
        path := text[..qmark.value];
        NulFreePart(text, 0, qmark.value);
        assert cleanPath[..qmark.value] == path;
      }
      UpToIs(cleanPath[..], '\0', path);
    }

    /** A path that does not start with '/' is copied through a second buffer that adds one. */
    method NormalizePath(path: string)
      requires NulFree(path) && cleanPath.Length == PATH_SIZE && CString(cleanPath[..]) == path
      modifies cleanPath
      ensures CString(cleanPath[..]) == Normalized(path)
    {
      if path != "" && path[0] != '/' {
        var temp := "/" + if |path| > 198 then path[..198] else path;
        CopyPath(temp);
      }
    }

    /** HttpRequest::parse on a fresh object: copy the path, cut it at the query, normalize it in place. */
    method ParseInto(raw: string) returns (ok: bool)
      requires NulFree(raw) && PathFits(raw) && cleanPath.Length == PATH_SIZE && query == ""
      modifies this, cleanPath
      ensures ParseRequest(raw) ==
              if ok then Parsed(Request(method_, CString(cleanPath[..]), query)) else Refused(method_)
    {
      hide CString, Find, MethodToken, SplitQuery, Normalized;
      var marker := Marker(raw);
      if marker.None? {
        method_ := MethodToken(raw);
        return false;
      }
      var (m, start, offset) := marker.value;
      method_ := m;
      var end := Find(raw, " HTTP/", start);
      if end.None? {
        method_ := MethodToken(raw);
        return false;
      }
      MarkerBeforeVersion(raw);
      var text := raw[start + offset..end.value];
      NulFreePart(raw, start + offset, end.value);
      CopyPath(text);
      var path := CutQuery(text);
      NormalizePath(path);
      ok := true;
    }
  }
}
