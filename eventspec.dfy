/** Event specifications: the (event type, region name) declarations that an FSM's transitions
    carry, their parsing from declaration data, their binding to a concrete region, and the
    predicate that decides whether an actual event matches them (out/EventSpec.js). */
module Events {
  import opened Regions

  datatype Option<T> = None | Some(value: T)

  datatype Result<T> = Success(value: T) | Failure(error: string)

  /** The closed set of event types a specification can name. */
  datatype EvtType = Press | Release | ReleaseNone | Enter | Exit | MoveInside | Any | NeverMatch

  /** The accepted spellings of the event types, in the source's order. */
  const EvtTypeStrings: seq<string> :=
    ["press", "release", "release_none", "enter", "exit", "move_inside", "any", "nevermatch"]

  function Token(t: EvtType): string {
    match t
    case Press => "press"
    case Release => "release"
    case ReleaseNone => "release_none"
    case Enter => "enter"
    case Exit => "exit"
    case MoveInside => "move_inside"
    case Any => "any"
    case NeverMatch => "nevermatch"
  }

  /** Reads an event type back from its spelling; only the listed spellings are accepted. */
  function FromToken(s: string): (r: Option<EvtType>)
    ensures r.Some? <==> s in EvtTypeStrings
    ensures r.Some? ==> Token(r.value) == s
  {
    if s == "press" then Some(Press)
    else if s == "release" then Some(Release)
    else if s == "release_none" then Some(ReleaseNone)
    else if s == "enter" then Some(Enter)
    else if s == "exit" then Some(Exit)
    else if s == "move_inside" then Some(MoveInside)
    else if s == "any" then Some(Any)
    else if s == "nevermatch" then Some(NeverMatch)
    else None
  }

  /** Every event type has a listed spelling, and reading it back gives the same type. */
  lemma TokenRoundTrip(t: EvtType)
    ensures Token(t) in EvtTypeStrings
    ensures FromToken(Token(t)) == Some(t)
  {
  }

  //-------------------------------------------------------------------
  // Declaration data
  //-------------------------------------------------------------------

  /** A property of a parsed JSON object: a string, or any other JavaScript value
      (a number, an object, null, or undefined when the property is missing). */
  datatype JsonValue = JString(str: string) | JNonString

  /** The declaration shape from which an event specification is built. */
  datatype EventSpecJson = EventSpecJson(evtType: JsonValue, region: JsonValue)

  /** Stand-in for the validator's "one of these strings" check (Check.js is not part of this
      model): the value itself when it is one of the allowed strings, the default otherwise. */
  function LimitedString(v: JsonValue, allowed: seq<string>, default: string): string {
    if v.JString? && v.str in allowed then v.str else default
  }

  /** Stand-in for the validator's "is a string" check: its failure aborts construction. */
  function StringVal(v: JsonValue, context: string): Result<string> {
    if v.JString? then Success(v.str) else Failure(context)
  }

  /** The validation half of EventSpec.fromJson: the event type is coerced to the closed set
      (an unknown or missing one becomes nevermatch), the region name must be a string. */
  function ParseDecl(evt: EventSpecJson): (r: Result<(EvtType, string)>)
    ensures r.Success? <==> evt.region.JString?
    ensures r.Success? ==> r.value.1 == evt.region.str
    ensures r.Success? ==>
      Token(r.value.0) == if evt.evtType.JString? && evt.evtType.str in EvtTypeStrings then evt.evtType.str else "nevermatch"
    ensures r.Success? && !(evt.evtType.JString? && evt.evtType.str in EvtTypeStrings) ==> r.value.0 == NeverMatch
  {
    var typeName := LimitedString(evt.evtType, EvtTypeStrings, "nevermatch");
    var evtType := match FromToken(typeName) case Some(t) => t case None => NeverMatch;
    match StringVal(evt.region, "EvtType.fromJson{region:}")
    case Success(name) => Success((evtType, name))
    case Failure(e) => Failure(e)
  }

  //-------------------------------------------------------------------
  // Binding
  //-------------------------------------------------------------------

  /** The index of the first region called `name`, or |regions| when there is none. */
  function FirstNamed(regions: seq<Region>, name: string): (k: nat)
    ensures k <= |regions|
    ensures k < |regions| ==> regions[k].name == name
    ensures forall j :: 0 <= j < k ==> regions[j].name != name
  {
    if regions == [] then 0
    else if regions[0].name == name then 0
    else 1 + FirstNamed(regions[1..], name)
  }

  /** The forms for which finding no region is not an error: a spec that never matches, and a
      release_none or any spec that names no region. */
  predicate RegionOptional(evtType: EvtType, regionName: string) {
    evtType == NeverMatch || ((evtType == ReleaseNone || evtType == Any) && regionName == "")
  }

  /** The message reported when a named region is not found. */
  function UnboundMessage(regionName: string): string {
    "Region '" + regionName + "' in event specification does not match any region."
  }

  class EventSpec {
    const evtType: EvtType
    const regionName: string
    /** The bound region; null while unbound (undefined in the source). */
    var region: Region?

    /** Binding never stores a region for the wildcard, and a stored region has the spec's name. */
    ghost predicate Valid()
      reads this`region
    {
      region != null ==> regionName != "*" && region.name == regionName
    }

    constructor (evtType: EvtType, regionName: string)
      ensures this.evtType == evtType && this.regionName == regionName && region == null
      ensures Valid()
    {
      this.evtType := evtType;
      this.regionName := regionName;
      region := null;
    }

    /** Builds a specification from declaration data; fails when the region name is not a string. */
    static method FromJson(evt: EventSpecJson) returns (r: Result<EventSpec>)
      ensures r.Failure? <==> ParseDecl(evt).Failure?
      ensures r.Success? ==> fresh(r.value) && r.value.region == null && r.value.Valid()
      ensures r.Success? ==> (r.value.evtType, r.value.regionName) == ParseDecl(evt).value
    {
      match ParseDecl(evt)
      case Success(decl) =>
        var spec := new EventSpec(decl.0, decl.1);
        r := Success(spec);
      case Failure(e) =>
        r := Failure(e);
    }

    /** Binds the first region of `regionList` whose name is regionName; the wildcard and a
        failed lookup leave the spec unbound. Returns the message reported to the error sink,
        if any: a failed lookup is reported unless the spec's form does not need a region. */
    method BindRegion(regionList: seq<Region>) returns (emitted: Option<string>)
      modifies this`region
      ensures Valid()
      ensures regionName == "*" ==> region == null && emitted == None
      ensures regionName != "*" && FirstNamed(regionList, regionName) < |regionList| ==>
        region == regionList[FirstNamed(regionList, regionName)] && emitted == None
      ensures regionName != "*" && FirstNamed(regionList, regionName) == |regionList| ==>
        region == null &&
        emitted == (if RegionOptional(evtType, regionName) then None else Some(UnboundMessage(regionName)))
    {
      if regionName == "*" {
        region := null;
        return None;
      }
      for i := 0 to |regionList|
        invariant forall j :: 0 <= j < i ==> regionList[j].name != regionName
      {
        var reg := regionList[i];
        if regionName == reg.name {
          region := reg;
          return None;
        }
      }
      region := null;
      if evtType == NeverMatch {
        return None;
      }
      if (evtType == ReleaseNone || evtType == Any) && regionName == "" {
        return None;
      }
      emitted := Some(UnboundMessage(regionName));
    }

    /** Whether an actual event of type `t`, carrying region `regn` (null for none), matches this
        specification: first the type gate, then the region gate. */
    predicate Match(t: EvtType, regn: Region?)
      reads this`region
    {
      if evtType == t || evtType == Any then
        if region == null then true
        else regionName == "*" || (regn != null && regionName == regn.name)
      else false
    }

    /** A readable rendering: `indent` levels of two spaces, the event type, a space, the region
        name, and " unbound" when no region is bound. A negative indent means no indentation. */
    method DebugString(indent: int := 0) returns (result: string)
      ensures result == DebugText(indent, evtType, regionName, region == null)
    {
      result := "";
      var indentStr := "  ";
      var i := 0;
      while i < indent
        invariant 0 <= i && (i <= indent || i == 0)
        invariant result == Indent(i)
      {
        result := result + indentStr;
        i := i + 1;
      }
      assert result == Indent(indent);
      result := result + Token(evtType) + " " + regionName;
      ghost var named := result;
      if region == null {
        result := result + " unbound";
      } else {
        assert result == named + "";
      }
    }
  }

  /** `n` levels of indentation, two spaces each; none for n <= 0. */
  function Indent(n: int): (s: string)
    ensures |s| == if n <= 0 then 0 else 2 * n
    ensures forall i :: 0 <= i < |s| ==> s[i] == ' '
  {
    if n <= 0 then "" else Indent(n - 1) + "  "
  }

  /** The rendering DebugString produces: indentation, the event type, a space, the region name,
      and " unbound" for an unbound spec. */
  function DebugText(indent: int, t: EvtType, name: string, unbound: bool): string {
    Indent(indent) + Token(t) + " " + name + (if unbound then " unbound" else "")
  }

  predicate EndsWith(s: string, suffix: string) {
    |suffix| <= |s| && s[|s| - |suffix|..] == suffix
  }

  /** After a space, a name makes the whole string end in " unbound" exactly when the space
      and the name alone do. */
  lemma SpacedSuffix(head: string, name: string)
    requires |head| > 0 && head[|head| - 1] == ' '
    ensures EndsWith(head + name, " unbound") <==> EndsWith(" " + name, " unbound")
  {
    var s, u := head + name, " " + name;
    if |name| >= 7 {
      assert s[|s| - |u|..] == u;
      assert s[|s| - 8..] == u[|u| - 8..];
    } else if |s| >= 8 {
      var k := 7 - |name|;
      assert s[|s| - 8..][k] == s[|s| - |name| - 1] == ' ';
      assert " unbound"[k] != ' ';
    }
  }

  /** The rendering begins with the indentation, then the event type, a space and the region
      name. */
  lemma DebugTextPrefix(indent: int, t: EvtType, name: string, unbound: bool)
    ensures var s, p := DebugText(indent, t, name, unbound), |Indent(indent)|;
      s[..p] == Indent(indent) && s[p..p + |Token(t)| + 1 + |name|] == Token(t) + " " + name
  {
  }

  /** An unbound spec's rendering always ends in " unbound". */
  lemma DebugTextUnbound(indent: int, t: EvtType, name: string)
    ensures EndsWith(DebugText(indent, t, name, true), " unbound")
  {
    var s := DebugText(indent, t, name, true);
    assert s == (Indent(indent) + Token(t) + " " + name) + " unbound";
    assert s[|s| - 8..] == " unbound";
  }

  /** A bound spec's rendering ends in " unbound" exactly when a space followed by the region
      name does, that is when the name is "unbound" or ends in " unbound". */
  lemma DebugTextBound(indent: int, t: EvtType, name: string)
    ensures EndsWith(DebugText(indent, t, name, false), " unbound") <==> EndsWith(" " + name, " unbound")
  {
    var head := Indent(indent) + Token(t) + " ";
    assert DebugText(indent, t, name, false) == head + name;
    SpacedSuffix(head, name);
  }

  /** Hence the rendering ends in " unbound" exactly when the spec is unbound, for every region
      name other than "unbound" and those ending in " unbound". */
  lemma DebugTextSuffix(indent: int, t: EvtType, name: string, unbound: bool)
    requires !EndsWith(" " + name, " unbound")
    ensures EndsWith(DebugText(indent, t, name, unbound), " unbound") <==> unbound
  {
    if unbound {
      DebugTextUnbound(indent, t, name);
    } else {
      DebugTextBound(indent, t, name);
    }
  }

  //-------------------------------------------------------------------
  // Properties of matching
  //-------------------------------------------------------------------

  /** The type gate: an event of another type never matches, unless the spec is `any`. */
  lemma MatchNeedsType(s: EventSpec, t: EvtType, regn: Region?)
    requires t != s.evtType && s.evtType != Any
    ensures !s.Match(t, regn)
  {
  }

  /** A nevermatch spec matches no event of any other type. */
  lemma NeverMatchMatchesNothing(s: EventSpec, t: EvtType, regn: Region?)
    requires s.evtType == NeverMatch && t != NeverMatch
    ensures !s.Match(t, regn)
  {
  }

  /** An unbound spec (the wildcard included) matches any region, or none, once the type matches. */
  lemma UnboundMatchesAnyRegion(s: EventSpec, t: EvtType, regn: Region?)
    requires t == s.evtType || s.evtType == Any
    requires s.region == null
    ensures s.Match(t, regn)
  {
  }

  /** For a bound spec that passes the type gate, matching is the region-name test; since
      binding never stores a region for "*", the wildcard arm of the gate plays no part. */
  lemma BoundMatchIsNameTest(s: EventSpec, t: EvtType, regn: Region?)
    requires s.Valid()
    requires t == s.evtType || s.evtType == Any
    requires s.region != null
    ensures s.Match(t, regn) <==> regn != null && regn.name == s.region.name
  {
  }

  /** Matching compares names: a spec bound to one region matches another region of the same
      name, and rejects a region with another name or no region at all. */
  lemma BoundMatchByName(s: EventSpec, other: Region?)
    requires s.Valid() && s.region != null
    ensures other != null && other.name == s.region.name ==> s.Match(s.evtType, other)
    ensures (other == null || other.name != s.region.name) ==> !s.Match(s.evtType, other)
  {
  }

  /** After binding a wildcard spec, it matches every region once the type matches. */
  lemma WildcardMatchesAll(s: EventSpec, t: EvtType, regn: Region?)
    requires s.Valid() && s.regionName == "*"
    requires t == s.evtType || s.evtType == Any
    ensures s.region == null && s.Match(t, regn)
  {
  }
}
