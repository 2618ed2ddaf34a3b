/**
 The rule registry of src/handlers/admin.cpp and src/handlers/cgi.cpp: a vector of route
 objects, and a map from path to the type tag by which requests are dispatched.
 */
module Registry {
  import opened Options
  import opened Percent
  import RequestFields

  datatype RouteType = STATIC | CGI

  /** A route object of either class. */
  datatype Route = StaticRoute(path: string, directory: string) | CgiRoute(path: string, executable: string)

  datatype Rules = Rules(rules: seq<Route>, tags: map<string, RouteType>)

  /** An admin request that reached the registry, with its payload decoded. */
  datatype Op = Add(kind: string, path: string, payload: string) | Update(kind: string, path: string)

  function TypeNamed(kind: string): Option<RouteType> {
    if kind == "static" then Some(STATIC) else if kind == "cgi" then Some(CGI) else None
  }

  function TypeOf(r: Route): RouteType {
    if r.StaticRoute? then STATIC else CGI
  }

  function NewRoute(t: RouteType, path: string, payload: string): Route {
    if t == STATIC then StaticRoute(path, payload) else CgiRoute(path, payload)
  }

  /** An unknown type changes nothing; an update rewrites the tag of a registered path and leaves the object alone. */
  function Apply(reg: Rules, op: Op): Rules {
    var t := TypeNamed(op.kind);
    if t.None? then reg
    else match op
      case Add(_, path, payload) =>
        Rules(reg.rules + [NewRoute(t.value, path, payload)], reg.tags[path := t.value])
      case Update(_, path) =>
        if path in reg.tags then reg.(tags := reg.tags[path := t.value]) else reg
  }

  const EMPTY := Rules([], map[])

  function After(ops: seq<Op>): Rules {
    if ops == [] then EMPTY else Apply(After(ops[..|ops| - 1]), ops[|ops| - 1])
  }

  lemma AfterSnoc(ops: seq<Op>, op: Op)
    ensures After(ops + [op]) == Apply(After(ops), op)
  {
    hide Apply;
    assert (ops + [op])[..|ops|] == ops;
  }

  // ---- The look-up

  const CGI_PREFIX := "/cgi-bin/"

  /** The first-registered rule with a path. */
  function FirstRule(rules: seq<Route>, path: string): (r: Option<Route>)
    ensures r.Some? ==> r.value in rules && r.value.path == path
    ensures r.None? ==> forall i :: 0 <= i < |rules| ==> rules[i].path != path
  {
    if rules == [] then None
    else if rules[0].path == path then Some(rules[0])
    else FirstRule(rules[1..], path)
  }

  /** Dispatch by tag: the first rule with the path, when the path's tag is CGI. */
  function Lookup(reg: Rules, path: string): (r: Option<Route>)
    ensures r.Some? ==> r.value in reg.rules && r.value.path == path
  {
    if CGI_PREFIX <= path && path in reg.tags && reg.tags[path] == CGI then FirstRule(reg.rules, path) else None
  }

  /** The tags cover exactly the paths of the rules. */
  ghost predicate Covered(reg: Rules) {
    && (forall r :: r in reg.rules ==> r.path in reg.tags)
    && (forall p :: p in reg.tags ==> exists r :: r in reg.rules && r.path == p)
  }

  lemma ApplyCovered(reg: Rules, op: Op)
    requires Covered(reg)
    ensures Covered(Apply(reg, op))
  {
    var q := Apply(reg, op);
    if q.rules != reg.rules {
      var added := q.rules[|reg.rules|];
      assert added in q.rules;
      forall p | p in q.tags ensures exists r :: r in q.rules && r.path == p {
        if p != added.path {
          var r :| r in reg.rules && r.path == p;
          assert r in q.rules;
        }
      }
    }
  }

  /** In every reachable registry the tags cover exactly the registered paths. */
  lemma {:induction false} ReachableCovered(ops: seq<Op>)
    ensures Covered(After(ops))
    decreases |ops|
  {
    if ops == [] {
    } else {
      ReachableCovered(ops[..|ops| - 1]);
      ApplyCovered(After(ops[..|ops| - 1]), ops[|ops| - 1]);
    }
  }

  /** Every type a path was ever given, in order: by each add, and by each update once it was registered. */
  function Given(ops: seq<Op>, path: string): seq<RouteType> {
    if ops == [] then []
    else
      var before := Given(ops[..|ops| - 1], path);
      var op := ops[|ops| - 1];
      var t := TypeNamed(op.kind);
      if op.path == path && t.Some? && (op.Add? || before != []) then before + [t.value] else before
  }

  lemma {:induction false} FirstRuleAppend(rules: seq<Route>, r: Route, path: string)
    ensures FirstRule(rules + [r], path) ==
            if FirstRule(rules, path).Some? then FirstRule(rules, path)
            else if r.path == path then Some(r) else None
  {
    if rules == [] {
      assert rules + [r] == [r];
    } else {
      assert (rules + [r])[1..] == rules[1..] + [r];
      FirstRuleAppend(rules[1..], r, path);
    }
  }

  /** The tag is the type given last; the first object is of the class given first. */
  lemma {:induction false} TagsByHistory(ops: seq<Op>, path: string)
    ensures path in After(ops).tags <==> Given(ops, path) != []
    ensures Given(ops, path) == [] ==> FirstRule(After(ops).rules, path) == None
    ensures var g := Given(ops, path);
            g != [] ==>
              && After(ops).tags[path] == g[|g| - 1]
              && FirstRule(After(ops).rules, path).Some?
              && TypeOf(FirstRule(After(ops).rules, path).value) == g[0]
    decreases |ops|
  {
    if ops == [] {
    } else {
      var front, op := ops[..|ops| - 1], ops[|ops| - 1];
      TagsByHistory(front, path);
      var t := TypeNamed(op.kind);
      if op.Add? && t.Some? {
        FirstRuleAppend(After(front).rules, NewRoute(t.value, op.path, op.payload), path);
      }
    }
  }

  /** The object an add of a known type registers; of any other, none. */
  function Registers(op: Op): Option<Route> {
    match op
    case Add(kind, path, payload) =>
      if kind == "static" then Some(StaticRoute(path, payload))
      else if kind == "cgi" then Some(CgiRoute(path, payload))
      else None
    case Update(_, _) => None
  }

  /** The objects the adds of a run register, in order. */
  function Added(ops: seq<Op>): seq<Route> {
    if ops == [] then []
    else
      var last := Registers(ops[|ops| - 1]);
      Added(ops[..|ops| - 1]) + if last.Some? then [last.value] else []
  }

  /** The rule vector holds exactly the objects of the run's adds, payloads included, in order. */
  lemma {:induction false} RulesInOrder(ops: seq<Op>)
    ensures After(ops).rules == Added(ops)
    decreases |ops|
  {
    if ops == [] {
    } else {
      RulesInOrder(ops[..|ops| - 1]);
    }
  }

  /** The object of the first add of a path with a known type. */
  function FirstAdd(ops: seq<Op>, path: string): Option<Route> {
    if ops == [] then None
    else
      var before, last := FirstAdd(ops[..|ops| - 1], path), ops[|ops| - 1];
      if before.Some? then before else if last.path == path then Registers(last) else None
  }

  /** The first-registered rule of a path is the object of its first add. */
  lemma {:induction false} FirstRuleIs(ops: seq<Op>, path: string)
    ensures FirstRule(After(ops).rules, path) == FirstAdd(ops, path)
    decreases |ops|
  {
    if ops == [] {
    } else {
      var front, last := ops[..|ops| - 1], ops[|ops| - 1];
      FirstRuleIs(front, path);
      if Registers(last).Some? {
        FirstRuleAppend(After(front).rules, Registers(last).value, path);
      }
    }
  }

  /**
   The chosen rule is really a CGI route exactly when the path was given that type first: the
   tag that chose it is the type given last.
   */
  lemma ChosenIsCgiIff(ops: seq<Op>, path: string)
    ensures var g := Given(ops, path);
            Lookup(After(ops), path).Some? <==> CGI_PREFIX <= path && g != [] && g[|g| - 1] == CGI
    ensures Lookup(After(ops), path).Some? ==>
              (Lookup(After(ops), path).value.CgiRoute? <==> Given(ops, path)[0] == CGI)
  {
    TagsByHistory(ops, path);
  }

  /** A run that never gives a path two types only ever executes CGI routes. */
  lemma OneTypeIsSafe(ops: seq<Op>, path: string)
    requires forall i :: 0 <= i < |Given(ops, path)| ==> Given(ops, path)[i] == Given(ops, path)[0]
    ensures Lookup(After(ops), path).Some? ==> Lookup(After(ops), path).value.CgiRoute?
  {
    ChosenIsCgiIff(ops, path);
  }

  /** A path given two types can be dispatched to an object of the other class. */
  lemma TwoTypesConfuse()
    ensures var ops := [Add("static", "/cgi-bin/x", "d"), Update("cgi", "/cgi-bin/x")];
            Lookup(After(ops), "/cgi-bin/x") == Some(StaticRoute("/cgi-bin/x", "d"))
  {
    var p := "/cgi-bin/x";
    var ops := [Add("static", p, "d"), Update("cgi", p)];
    assert ops[..1] == [ops[0]] && ops[..1][..0] == [];
    assert After(ops[..1]) == Apply(EMPTY, ops[0]);
    assert After(ops) == Apply(After(ops[..1]), ops[1]);
    assert After(ops).rules == [StaticRoute(p, "d")];
  }

  /** A parameter's value, empty when it is missing. */
  function Param(params: RequestFields.Params, key: string): (value: string)
    ensures key in params ==> value == params[key]
    ensures key !in params ==> value == ""
  {
    if key in params then params[key] else ""
  }

  function PayloadKey(kind: string): string {
    if kind == "static" then "directory" else "executable"
  }

  /** What add_rule demands of its parameters: a known type's payload is one url_decode can read. */
  ghost predicate PayloadReadable(params: RequestFields.Params) {
    var kind := Param(params, "type");
    TypeNamed(kind).Some? ==> Readable(Param(params, PayloadKey(kind)))
  }

  /** Only the payload of a known type is decoded. */
  function Payload(params: RequestFields.Params): string {
    var kind := Param(params, "type");
    var text := Param(params, PayloadKey(kind));
    if TypeNamed(kind).Some? then Decoded(text) else ""
  }

  function AddOp(params: RequestFields.Params): Op {
    Add(Param(params, "type"), Param(params, "path"), Payload(params))
  }

  function UpdateOp(params: RequestFields.Params): Op {
    Update(Param(params, "type"), Param(params, "path"))
  }

  /** What operator[] leaves of a map it reads: a missing key is inserted with the zero tag. */
  function Touched(tags: map<string, RouteType>, path: string): map<string, RouteType> {
    if path in tags then tags else tags[path := STATIC]
  }

  /** The two globals, updated in place. */
  class RouteRegistry {
    var rules: seq<Route>
    var types: map<string, RouteType>

    ghost function State(): Rules
      reads this
    {
      Rules(rules, types)
    }

    constructor ()
      ensures State() == EMPTY && Covered(State())
    {
      rules, types := [], map[];
    }

    /** add_rule; the result is whether the type was known. */
    method AddRule(params: RequestFields.Params) returns (ok: bool)
      requires Covered(State()) && PayloadReadable(params)
      modifies this
      ensures State() == Apply(old(State()), AddOp(params)) && Covered(State())
      ensures ok <==> Param(params, "type") in {"static", "cgi"}
    {
      hide Covered;
      ApplyCovered(State(), AddOp(params));
      var kind, path := Param(params, "type"), Param(params, "path");
      if kind == "static" {
        var directory := UrlDecodeLoop(Param(params, "directory"));
        rules := rules + [StaticRoute(path, directory)];
        types := types[path := STATIC];
      } else if kind == "cgi" {
        var executable := UrlDecodeLoop(Param(params, "executable"));
        rules := rules + [CgiRoute(path, executable)];
        types := types[path := CGI];
      } else {
        return false;
      }
      ok := true;
    }

    /** update_rule; the result is whether the tag was rewritten. */
    method UpdateRule(params: RequestFields.Params) returns (ok: bool)
      requires Covered(State())
      modifies this`types
      ensures State() == Apply(old(State()), UpdateOp(params)) && Covered(State())
      ensures ok <==> Param(params, "path") in old(types) && Param(params, "type") in {"static", "cgi"}
    {
      hide Covered;
      ApplyCovered(State(), UpdateOp(params));
      var path, kind := Param(params, "path"), Param(params, "type");
      if path !in types {
        return false;
      }
      var newType;
      if kind == "static" {
        newType := STATIC;
      } else if kind == "cgi" {
        newType := CGI;
      } else {
        return false;
      }
      types := types[path := newType];
      ok := true;
    }

    /** cgi_dispatch: the loop's indexing could insert a tag; it refines the look-up and inserts none. */
    method CgiDispatch(cleanPath: string) returns (chosen: Option<Route>)
      requires Covered(State())
      modifies this`types
      ensures State() == old(State()) && chosen == Lookup(State(), cleanPath)
    {
      if !(CGI_PREFIX <= cleanPath) {
        return None;
      }
      for i := 0 to |rules|
        invariant State() == old(State())
        invariant FirstRule(rules, cleanPath) == FirstRule(rules[i..], cleanPath) || Lookup(State(), cleanPath) == None
      {
        assert rules[i..][1..] == rules[i + 1..];
        var rule := rules[i];
        if rule.path == cleanPath {
          assert rule in rules;
          types := Touched(types, rule.path);
          if types[rule.path] != CGI {
            continue;
          }
          return Some(rule);
        }
      }
      chosen := None;
    }
  }
}
