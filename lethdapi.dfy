/**
  * LethdApi: the script runner's @{name} placeholder substitution, the
  * wrapping of a single command into a command list, the feature registry and
  * the routing of an API request to a feature or a global command. JSON
  * parsing is a parameter; the feature and command handlers themselves and all
  * I/O are outside this model.
  */
module Lethd {
  import opened Wrappers

  /** A JSON value; numbers and booleans carry the text stringValue gives for them. */
  datatype Json =
    | JNull
    | JScalar(text: string)
    | JString(s: string)
    | JArray(items: seq<Json>)
    | JObject(fields: map<string, Json>)

  datatype ApiError =
    | UnterminatedPlaceholder(rest: string)
    | UnknownPlaceholder(name: string)
    | ParseError(message: string)
    | FeatureNotString
    | UnknownFeature(feature: string)
    | FeatureNotInitialized(feature: string)
    | MissingFeatureOrCmd
    | UnknownCommand(cmd: string)

  type SubstitutionMap = map<string, string>

  // ----- text search -----

  predicate OpenAt(s: string, j: int) {
    0 <= j && j + 1 < |s| && s[j] == '@' && s[j + 1] == '{'
  }

  predicate CloseAt(s: string, j: int) {
    0 <= j < |s| && s[j] == '}'
  }

  /** find("@{", from): the first placeholder start at or after from. */
  function FindOpen(s: string, from: nat): (r: Option<nat>)
    decreases |s| - from
    ensures r.Some? ==> from <= r.value && OpenAt(s, r.value)
  {
    if from + 1 >= |s| then None
    else if s[from] == '@' && s[from + 1] == '{' then Some(from)
    else FindOpen(s, from + 1)
  }

  /** find("}", from): the first closing brace at or after from. */
  function FindClose(s: string, from: nat): (r: Option<nat>)
    decreases |s| - from
    ensures r.Some? ==> from <= r.value && CloseAt(s, r.value)
  {
    if from >= |s| then None
    else if s[from] == '}' then Some(from)
    else FindClose(s, from + 1)
  }

  function Shift(r: Option<nat>, q: nat): Option<nat> {
    if r.Some? then Some(r.value + q) else None
  }

  // ----- placeholder substitution -----

  /** An error stays; a text result gets pre in front. */
  function Prefixed(pre: string, r: Result<string, ApiError>): Result<string, ApiError> {
    if r.Ok? then Ok(pre + r.value) else r
  }

  /**
    * Reference definition of the substitution: the text up to the first "@{"
    * is kept, the placeholder is replaced by its value, and the rest of the
    * text after the closing "}" is substituted on its own, so the inserted
    * value is never scanned again.
    */
  function Substitute(t: string, subst: SubstitutionMap): (r: Result<string, ApiError>)
    decreases |t|
  {
    match FindOpen(t, 0)
    case None => Ok(t)
    case Some(p) =>
      match FindClose(t, p + 2)
      case None => Err(UnterminatedPlaceholder(t[p..]))
      case Some(e) =>
        var name := t[p + 2..e];
        if name !in subst then Err(UnknownPlaceholder(name))
        else Prefixed(t[..p] + subst[name], Substitute(t[e + 1..], subst))
  }

  /**
    * The substitution loop of runJsonString: the text is edited in place and
    * scanning resumes right after each inserted value.
    */
  method SubstitutePlaceholders(s: string, subst: SubstitutionMap) returns (r: Result<string, ApiError>)
    ensures r == Substitute(s, subst)
  {
    var text := s;
    var q: nat := 0;
    var found := FindOpen(text, q);
    assert text[..q] == [] && text[q..] == s;
    PrefixedEmpty(Substitute(s, subst));
    while found.Some?
      invariant q <= |text|
      invariant found == FindOpen(text, q)
      invariant Substitute(s, subst) == Prefixed(text[..q], Substitute(text[q..], subst))
      decreases |text| - q
    {
      var p := found.value;
      var close := FindClose(text, p + 2);
      if close.None? {
        StepUnterminated(text, q, p, subst);
        return Err(UnterminatedPlaceholder(text[p..]));
      }
      var e := close.value;
      var name := text[p + 2..e];
      if name !in subst {
        StepUnknown(text, q, p, e, subst);
        return Err(UnknownPlaceholder(name));
      }
      var v := subst[name];
      StepReplaceKeeps(text, q, p, e, subst);
      text, q := text[..p] + v + text[e + 1..], p + |v|;
      found := FindOpen(text, q);
    }
    OpenShift(text, q, 0);
    assert text[..q] + text[q..] == text;
    r := Ok(text);
  }

  lemma SubSlice(text: string, q: nat, a: nat, b: nat)
    requires q + a <= q + b <= |text|
    ensures text[q..][a..b] == text[q + a..q + b]
  {
  }

  lemma SubPrefix(text: string, q: nat, a: nat)
    requires q + a <= |text|
    ensures text[q..][..a] == text[q..q + a]
  {
  }

  lemma SubSuffix(text: string, q: nat, a: nat)
    requires q + a <= |text|
    ensures text[q..][a..] == text[q + a..]
  {
  }

  /** The loop's first search from q finds, in the rest text[q..], the placeholder at p - q. */
  lemma StepFinds(text: string, q: nat, p: nat)
    requires q <= |text| && FindOpen(text, q) == Some(p)
    ensures q <= p && FindOpen(text[q..], 0) == Some(p - q)
    ensures FindClose(text, p + 2) == Shift(FindClose(text[q..], p - q + 2), q)
  {
    OpenShift(text, q, 0);
    CloseShift(text, q, p - q + 2);
  }

  lemma StepUnterminated(text: string, q: nat, p: nat, subst: SubstitutionMap)
    requires q <= |text| && FindOpen(text, q) == Some(p) && FindClose(text, p + 2).None?
    ensures Substitute(text[q..], subst) == Err(UnterminatedPlaceholder(text[p..]))
  {
    StepFinds(text, q, p);
    SubSuffix(text, q, p - q);
    UnterminatedAt(text[q..], p - q, subst);
  }

  lemma StepUnknown(text: string, q: nat, p: nat, e: nat, subst: SubstitutionMap)
    requires q <= |text| && FindOpen(text, q) == Some(p) && FindClose(text, p + 2) == Some(e)
    requires text[p + 2..e] !in subst
    ensures Substitute(text[q..], subst) == Err(UnknownPlaceholder(text[p + 2..e]))
  {
    StepFinds(text, q, p);
    SubSlice(text, q, p - q + 2, e - q);
    UnknownAt(text[q..], p - q, e - q, subst);
  }

  lemma StepReplace(text: string, q: nat, p: nat, e: nat, subst: SubstitutionMap)
    requires q <= |text| && FindOpen(text, q) == Some(p) && FindClose(text, p + 2) == Some(e)
    requires text[p + 2..e] in subst
    ensures q <= p < e < |text|
    ensures Substitute(text[q..], subst) ==
      Prefixed(text[q..p] + subst[text[p + 2..e]], Substitute(text[e + 1..], subst))
  {
    StepFinds(text, q, p);
    var t, name := text[q..], text[p + 2..e];
    SubSlice(text, q, p - q + 2, e - q);
    SubPrefix(text, q, p - q);
    SubSuffix(text, q, e - q + 1);
    assert t[p - q + 2..e - q] == name;
    ReplaceAt(t, p - q, e - q, subst);
    assert Substitute(t, subst) == Prefixed(t[..p - q] + subst[name], Substitute(t[e - q + 1..], subst));
  }

  // One unfolding of Substitute for each outcome of the two searches.

  lemma UnterminatedAt(t: string, p: nat, subst: SubstitutionMap)
    requires FindOpen(t, 0) == Some(p) && FindClose(t, p + 2).None?
    ensures Substitute(t, subst) == Err(UnterminatedPlaceholder(t[p..]))
  {
  }

  lemma UnknownAt(t: string, p: nat, e: nat, subst: SubstitutionMap)
    requires FindOpen(t, 0) == Some(p) && FindClose(t, p + 2) == Some(e)
    requires t[p + 2..e] !in subst
    ensures Substitute(t, subst) == Err(UnknownPlaceholder(t[p + 2..e]))
  {
  }

  lemma ReplaceAt(t: string, p: nat, e: nat, subst: SubstitutionMap)
    requires FindOpen(t, 0) == Some(p) && FindClose(t, p + 2) == Some(e)
    requires t[p + 2..e] in subst
    ensures Substitute(t, subst) == Prefixed(t[..p] + subst[t[p + 2..e]], Substitute(t[e + 1..], subst))
  {
  }

  /** A replacement keeps the loop invariant: the result still splits into the scanned part and the rest substituted. */
  lemma StepReplaceKeeps(text: string, q: nat, p: nat, e: nat, subst: SubstitutionMap)
    requires q <= |text| && FindOpen(text, q) == Some(p) && FindClose(text, p + 2) == Some(e)
    requires text[p + 2..e] in subst
    ensures var v := subst[text[p + 2..e]];
            var text' := text[..p] + v + text[e + 1..];
            && p + |v| <= |text'| && |text'| - (p + |v|) < |text| - q
            && Prefixed(text[..q], Substitute(text[q..], subst))
               == Prefixed(text'[..p + |v|], Substitute(text'[p + |v|..], subst))
  {
    var v := subst[text[p + 2..e]];
    StepReplace(text, q, p, e, subst);
    StepSlices(text, q, p, e, v);
    PrefixedPrefixed(text[..q], text[q..p] + v, Substitute(text[e + 1..], subst));
  }

  /** After a replacement the scanned part grows by the skipped text and the value; the rest follows the "}". */
  lemma StepSlices(text: string, q: nat, p: nat, e: nat, v: string)
    requires q <= p < e < |text|
    ensures var text' := text[..p] + v + text[e + 1..];
            && p + |v| <= |text'|
            && text'[..p + |v|] == text[..q] + (text[q..p] + v)
            && text'[p + |v|..] == text[e + 1..]
  {
    var text' := text[..p] + v + text[e + 1..];
    assert text'[..p + |v|] == text[..p] + v;
    assert text[..p] == text[..q] + text[q..p];
  }

  lemma PrefixedEmpty(r: Result<string, ApiError>)
    ensures Prefixed([], r) == r
  {
    if r.Ok? {
      assert [] + r.value == r.value;
    }
  }

  lemma PrefixedPrefixed(a: string, b: string, r: Result<string, ApiError>)
    ensures Prefixed(a, Prefixed(b, r)) == Prefixed(a + b, r)
  {
    if r.Ok? {
      assert a + (b + r.value) == (a + b) + r.value;
    }
  }

  /** Searching text from q + from is searching text[q..] from from, shifted by q. */
  lemma {:induction false} OpenShift(text: string, q: nat, from: nat)
    requires q <= |text|
    ensures FindOpen(text, q + from) == Shift(FindOpen(text[q..], from), q)
    decreases |text| - q - from
  {
    if q + from + 1 < |text| && !(text[q + from] == '@' && text[q + from + 1] == '{') {
      OpenShift(text, q, from + 1);
    }
  }

  lemma {:induction false} CloseShift(text: string, q: nat, from: nat)
    requires q <= |text|
    ensures FindClose(text, q + from) == Shift(FindClose(text[q..], from), q)
    decreases |text| - q - from
  {
    if q + from < |text| && text[q + from] != '}' {
      CloseShift(text, q, from + 1);
    }
  }

  // ----- running a script -----

  /** executeJson: a single command becomes a one-element command list. */
  function ExecuteJson(script: Json): (cmds: seq<Json>)
    ensures script.JArray? ==> cmds == script.items
    ensures !script.JArray? ==> cmds == [script]
  {
    if script.JArray? then script.items else [script]
  }

  /** The outcome of parsing: a parse error, no object (nothing runs), or the commands that run. */
  function AfterParse(parsed: Result<Option<Json>, string>): Result<Option<seq<Json>>, ApiError> {
    if parsed.Err? then Err(ParseError(parsed.error))
    else if parsed.value.None? then Ok(None)
    else Ok(Some(ExecuteJson(parsed.value.value)))
  }

  /**
    * runJsonString: placeholders are substituted only when a substitution map
    * is given; after a substitution error nothing is parsed or run.
    */
  method RunJsonString(s: string, subst: Option<SubstitutionMap>, parse: string -> Result<Option<Json>, string>)
    returns (r: Result<Option<seq<Json>>, ApiError>)
    ensures subst.None? ==> r == AfterParse(parse(s))
    ensures subst.Some? && Substitute(s, subst.value).Err? ==> r == Err(Substitute(s, subst.value).error)
    ensures subst.Some? && Substitute(s, subst.value).Ok? ==> r == AfterParse(parse(Substitute(s, subst.value).value))
  {
    var text := s;
    if subst.Some? {
      var substituted := SubstitutePlaceholders(s, subst.value);
      if substituted.Err? {
        return Err(substituted.error);
      }
      text := substituted.value;
    }
    r := AfterParse(parse(text));
  }

  // ----- features and request routing -----

  /** A feature as the API sees it: its name and whether it has finished initialising. */
  class Feature {
    const name: string
    var initialized: bool

    constructor (n: string)
      ensures name == n
    {
      name := n;
    }

    method SetInitialized()
      modifies this`initialized
      ensures initialized
    {
      initialized := true;
    }
  }

  /** Where processRequest sends a request. */
  datatype Route =
    | ToFeature(feature: string)
    | GlobalCommand(cmd: string)
    | NoOperation
    | Rejected(error: ApiError)

  const GlobalCommands: set<string> := {"call", "init", "reset", "now", "status", "ping"}

  /** get(key, o, true): present and not null, on an object. */
  function Get(req: Json, key: string): (r: Option<Json>)
    ensures r.Some? <==> req.JObject? && key in req.fields && req.fields[key] != JNull
    ensures r.Some? ==> r.value == req.fields[key]
  {
    if req.JObject? && key in req.fields && req.fields[key] != JNull then Some(req.fields[key]) else None
  }

  /** stringValue: a string's own text, a scalar's printed text; arrays and objects print bracketed. */
  function StringValue(j: Json): string {
    match j
    case JString(s) => s
    case JScalar(t) => t
    case JArray(_) => "[...]"
    case JObject(_) => "{...}"
    case JNull => ""
  }

  class LethdApi {
    var featureMap: map<string, Feature>

    constructor ()
      ensures featureMap == map[]
    {
      featureMap := map[];
    }

    /** addFeature: stored under its name, replacing an earlier feature of that name. */
    method AddFeature(f: Feature)
      modifies this`featureMap
      ensures featureMap == old(featureMap)[f.name := f]
      ensures GetFeature(f.name) == f
      ensures forall n :: n != f.name ==> GetFeature(n) == old(GetFeature(n))
    {
      featureMap := featureMap[f.name := f];
    }

    /** getFeature: the registered feature, or null. */
    function GetFeature(n: string): (f: Feature?)
      reads this
      ensures f != null <==> n in featureMap
      ensures f != null ==> f == featureMap[n]
    {
      if n in featureMap then featureMap[n] else null
    }

    /** processRequest's decision: a feature selector wins over a global command. */
    function RouteRequest(req: Json): (r: Route)
      reads this, featureMap.Values
      ensures r.ToFeature? ==> r.feature in featureMap && featureMap[r.feature].initialized
      ensures r.GlobalCommand? ==> r.cmd in GlobalCommands
      ensures r.NoOperation? || r.GlobalCommand? || r == Rejected(MissingFeatureOrCmd) ==> Get(req, "feature").None?
    {
      match Get(req, "feature")
      case Some(o) =>
        if !o.JString? then Rejected(FeatureNotString)
        else if o.s !in featureMap then Rejected(UnknownFeature(o.s))
        else if !featureMap[o.s].initialized then Rejected(FeatureNotInitialized(o.s))
        else ToFeature(o.s)
      case None =>
        match Get(req, "cmd")
        case None => Rejected(MissingFeatureOrCmd)
        case Some(o) =>
          var cmd := StringValue(o);
          if cmd == "nop" then NoOperation
          else if cmd in GlobalCommands then GlobalCommand(cmd)
          else Rejected(UnknownCommand(cmd))
    }
  }

  // ----- lemmas -----

  /** find("@{") returns the first placeholder start at or after from, and npos only when there is none. */
  lemma {:induction false} FindOpenFirst(s: string, from: nat)
    ensures FindOpen(s, from).Some? ==> forall j :: from <= j < FindOpen(s, from).value ==> !OpenAt(s, j)
    ensures FindOpen(s, from).None? ==> forall j :: from <= j ==> !OpenAt(s, j)
    decreases |s| - from
  {
    if from + 1 < |s| && !(s[from] == '@' && s[from + 1] == '{') {
      FindOpenFirst(s, from + 1);
    }
  }

  /** find("}") returns the first closing brace at or after from, and npos only when there is none. */
  lemma {:induction false} FindCloseFirst(s: string, from: nat)
    ensures FindClose(s, from).Some? ==> forall j :: from <= j < FindClose(s, from).value ==> !CloseAt(s, j)
    ensures FindClose(s, from).None? ==> forall j :: from <= j ==> !CloseAt(s, j)
    decreases |s| - from
  {
    if from < |s| && s[from] != '}' {
      FindCloseFirst(s, from + 1);
    }
  }

  /** If the first placeholder start at or after from is m, find("@{", from) returns m. */
  lemma {:induction false} OpenFoundAt(t: string, from: nat, m: nat)
    requires from <= m && OpenAt(t, m)
    requires forall j :: from <= j < m ==> !OpenAt(t, j)
    ensures FindOpen(t, from) == Some(m)
    decreases m - from
  {
    if from < m {
      OpenFoundAt(t, from + 1, m);
    }
  }

  /** If the first closing brace at or after from is m, find("}", from) returns m. */
  lemma {:induction false} CloseFoundAt(t: string, from: nat, m: nat)
    requires from <= m && CloseAt(t, m)
    requires forall j :: from <= j < m ==> !CloseAt(t, j)
    ensures FindClose(t, from) == Some(m)
    decreases m - from
  {
    if from < m {
      CloseFoundAt(t, from + 1, m);
    }
  }

  /** Every failure of the substitution is an unterminated placeholder or names one missing from the map. */
  lemma {:induction false} SubstituteErrors(t: string, subst: SubstitutionMap)
    decreases |t|
    ensures var r := Substitute(t, subst);
            r.Err? ==> r.error.UnterminatedPlaceholder? || (r.error.UnknownPlaceholder? && r.error.name !in subst)
  {
    var o := FindOpen(t, 0);
    if o.Some? {
      var c := FindClose(t, o.value + 2);
      if c.Some? && t[o.value + 2..c.value] in subst {
        SubstituteErrors(t[c.value + 1..], subst);
      }
    }
  }

  /** Text without "@{" comes through unchanged. */
  lemma NoPlaceholderUnchanged(t: string, subst: SubstitutionMap)
    requires forall j :: !OpenAt(t, j)
    ensures Substitute(t, subst) == Ok(t)
  {
  }

  /** One known placeholder in literal text is replaced by its value, even an empty one. */
  lemma SinglePlaceholder(pre: string, name: string, post: string, subst: SubstitutionMap)
    requires name in subst
    requires forall j :: !OpenAt(pre + "@", j)
    requires '}' !in name
    requires forall j :: !OpenAt(post, j)
    ensures Substitute(pre + "@{" + name + "}" + post, subst) == Ok(pre + subst[name] + post)
  {
    var t := pre + "@{" + name + "}" + post;
    var p := |pre|;
    assert t[p] == '@' && t[p + 1] == '{';
    forall j | 0 <= j < p
      ensures !OpenAt(t, j)
    {
      assert !OpenAt(pre + "@", j);
      assert t[j] == (pre + "@")[j] && t[j + 1] == (pre + "@")[j + 1];
    }
    OpenFoundAt(t, 0, p);
    var e := p + 2 + |name|;
    assert t[e] == '}';
    forall j | p + 2 <= j < e
      ensures !CloseAt(t, j)
    {
      assert t[j] == name[j - p - 2];
    }
    CloseFoundAt(t, p + 2, e);
    assert t[p + 2..e] == name;
    assert t[e + 1..] == post;
    assert t[..p] == pre;
    NoPlaceholderUnchanged(post, subst);
  }

  /** The inserted value is not scanned again: "@{a}" with a = "@{a}" gives "@{a}". */
  lemma NoReexpansion()
    ensures Substitute("@{a}", map["a" := "@{a}"]) == Ok("@{a}")
  {
    assert "@{a}" == "" + "@{" + "a" + "}" + "";
    SinglePlaceholder("", "a", "", map["a" := "@{a}"]);
    assert "" + "@{a}" + "" == "@{a}";
  }

  /** "@{" without a later "}" is an error naming the rest of the text. */
  lemma UnterminatedExample()
    ensures Substitute("x@{y", map["y" := "1"]) == Err(UnterminatedPlaceholder("@{y"))
  {
    var t := "x@{y";
    assert t[0] == 'x' && t[1] == '@' && t[2] == '{' && t[3] == 'y';
    OpenFoundAt(t, 0, 1);
    assert t[1..] == "@{y";
  }

  /** A name missing from the map is an error naming the placeholder. */
  lemma UnknownExample()
    ensures Substitute("@{b}", map["a" := "1"]) == Err(UnknownPlaceholder("b"))
  {
    var t := "@{b}";
    assert t[0] == '@' && t[1] == '{' && t[2] == 'b' && t[3] == '}';
    CloseFoundAt(t, 2, 3);
    assert t[2..3] == "b";
  }

  /** Wrapping is idempotent: a command list runs as it is. */
  lemma ExecuteJsonWrapOnce(script: Json)
    ensures ExecuteJson(JArray(ExecuteJson(script))) == ExecuteJson(script)
  {
  }

  /** A request reaches a feature exactly when it names a registered, initialised feature by a string. */
  lemma RouteToFeatureIff(api: LethdApi, req: Json, n: string)
    ensures api.RouteRequest(req) == ToFeature(n) <==>
      Get(req, "feature") == Some(JString(n)) && n in api.featureMap && api.featureMap[n].initialized
  {
  }

  /** A request with neither selector is rejected as such, and only then. */
  lemma RouteMissingIff(api: LethdApi, req: Json)
    ensures api.RouteRequest(req) == Rejected(MissingFeatureOrCmd) <==>
      Get(req, "feature").None? && Get(req, "cmd").None?
  {
  }

  /** Without a feature selector, "nop" is answered with ok. */
  lemma NopIsOk(api: LethdApi, req: Json)
    requires Get(req, "feature").None? && Get(req, "cmd") == Some(JString("nop"))
    ensures api.RouteRequest(req) == NoOperation
  {
  }

  /** A global command other than nop and the six known ones is rejected with its name. */
  lemma RouteUnknownCommandIff(api: LethdApi, req: Json, c: string)
    ensures api.RouteRequest(req) == Rejected(UnknownCommand(c)) <==>
      && Get(req, "feature").None? && Get(req, "cmd").Some?
      && StringValue(Get(req, "cmd").value) == c && c != "nop" && c !in GlobalCommands
  {
  }

  /** The feature selector takes precedence: with one present, a "cmd" is never looked at. */
  lemma FeatureSelectorWins(api: LethdApi, req: Json)
    requires Get(req, "feature").Some?
    ensures api.RouteRequest(req).ToFeature? || api.RouteRequest(req).Rejected?
    ensures api.RouteRequest(req).Rejected? ==>
      api.RouteRequest(req).error in {FeatureNotString, UnknownFeature(StringValue(Get(req, "feature").value)),
                                      FeatureNotInitialized(StringValue(Get(req, "feature").value))}
  {
  }
}
