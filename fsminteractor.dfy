/** The FSM-driven interactor's input side (out/FSMInteractor.js): picking the regions under a
    point, and translating each raw pointer event into the ordered batch of region-level
    events delivered to the FSM. The specification functions below say what a dispatch
    delivers; the class FSMInteractor does it step by step, as the source does. */
module Interactor {
  import opened Regions
  import opened Events

  /** One delivered event: its type and the region it concerns (null for release_none). */
  datatype Event = Event(evtType: EvtType, region: Region?)

  /** The raw pointer actions the interactor translates. */
  datatype RawKind = RawPress | RawMove | RawRelease

  datatype Point = Point(x: int, y: int)

  /** Stand-in for the state machine (FSM.js is not part of this model): its regions in draw
      order, its back link to the interactor, and the events delivered to it so far. */
  class FSM {
    const regions: seq<Region>
    var parent: FSMInteractor?
    var trace: seq<Event>

    constructor (regions: seq<Region>)
      ensures this.regions == regions && parent == null && trace == []
    {
      this.regions := regions;
      parent := null;
      trace := [];
    }

    /** Event acceptance: the FSM receives one event. */
    method ActOnEvent(evtType: EvtType, region: Region? := null)
      modifies this`trace
      ensures trace == old(trace) + [Event(evtType, region)]
    {
      trace := trace + [Event(evtType, region)];
    }
  }

  //-------------------------------------------------------------------
  // Specification: picking
  //-------------------------------------------------------------------

  /** Whether region `r` contains the point (x, y), given in the interactor's coordinates. */
  predicate Hits(r: Region, x: int, y: int) {
    r.Pick(x - r.x, y - r.y)
  }

  /** The pick list of `regions` (in draw order) at (x, y): the regions that contain the point,
      later-drawn regions first. */
  function PickList(regions: seq<Region>, x: int, y: int): seq<Region> {
    if regions == [] then []
    else PickList(regions[1..], x, y) + (if Hits(regions[0], x, y) then [regions[0]] else [])
  }

  /** The pick list holds exactly the regions that contain the point. */
  lemma {:induction false} PickListMembers(regions: seq<Region>, x: int, y: int)
    ensures forall r :: r in PickList(regions, x, y) <==> r in regions && Hits(r, x, y)
  {
    if regions != [] {
      PickListMembers(regions[1..], x, y);
      assert regions == [regions[0]] + regions[1..];
    }
  }

  predicate Distinct(s: seq<Region>) {
    forall i, j :: 0 <= i < j < |s| ==> s[i] != s[j]
  }

  /** Topmost first: of two regions that both contain the point, the one drawn later comes
      earlier in the pick list. */
  lemma {:induction false} PickListTopmostFirst(regions: seq<Region>, x: int, y: int, i: nat, j: nat)
    requires i < j < |regions|
    requires Hits(regions[i], x, y) && Hits(regions[j], x, y)
    ensures exists a, b ::
              && 0 <= a < b < |PickList(regions, x, y)|
              && PickList(regions, x, y)[a] == regions[j]
              && PickList(regions, x, y)[b] == regions[i]
  {
    var p := PickList(regions, x, y);
    var rest := PickList(regions[1..], x, y);
    assert regions[j] == regions[1..][j - 1];
    if i == 0 {
      assert p == rest + [regions[0]];
      PickListMembers(regions[1..], x, y);
      assert regions[j] in rest;
      var a :| 0 <= a < |rest| && rest[a] == regions[j];
      var b := |rest|;
      assert 0 <= a < b < |p| && p[a] == regions[j] && p[b] == regions[i];
    } else {
      assert regions[i] == regions[1..][i - 1];
      PickListTopmostFirst(regions[1..], x, y, i - 1, j - 1);
      var a, b :| 0 <= a < b < |rest| && rest[a] == regions[j] && rest[b] == regions[i];
      assert p[a] == rest[a] && p[b] == rest[b];
    }
  }

  /** A region appears at most once in a pick list when it appears once in the FSM. */
  lemma {:induction false} PickListDistinct(regions: seq<Region>, x: int, y: int)
    requires Distinct(regions)
    ensures Distinct(PickList(regions, x, y))
  {
    if regions != [] {
      var rest := PickList(regions[1..], x, y);
      assert Distinct(regions[1..]) by {
        forall i, j | 0 <= i < j < |regions[1..]| ensures regions[1..][i] != regions[1..][j] {
          assert regions[1..][i] == regions[i + 1] && regions[1..][j] == regions[j + 1];
        }
      }
      PickListDistinct(regions[1..], x, y);
      if Hits(regions[0], x, y) {
        assert regions[0] !in regions[1..] by {
          forall k | 0 <= k < |regions[1..]| ensures regions[1..][k] != regions[0] {
            assert regions[1..][k] == regions[k + 1];
          }
        }
        PickListMembers(regions[1..], x, y);
        assert regions[0] !in rest;
        var p := rest + [regions[0]];
        forall i, j | 0 <= i < j < |p| ensures p[i] != p[j] {
          if j == |rest| {
            assert p[i] == rest[i];
          } else {
            assert p[i] == rest[i] && p[j] == rest[j];
          }
        }
      }
    }
  }

  //-------------------------------------------------------------------
  // Specification: the translated events
  //-------------------------------------------------------------------

  /** The regions of `a` that are not in `b` (compared by identity), in the order of `a`. */
  function Minus(a: seq<Region>, b: seq<Region>): seq<Region> {
    if a == [] then []
    else Minus(a[..|a| - 1], b) + (if a[|a| - 1] !in b then [a[|a| - 1]] else [])
  }

  /** Minus(a, b) holds exactly the regions of `a` that are not in `b`. */
  lemma {:induction false} MinusMembers(a: seq<Region>, b: seq<Region>)
    ensures forall r :: r in Minus(a, b) <==> r in a && r !in b
  {
    if a != [] {
      MinusMembers(a[..|a| - 1], b);
      assert a == a[..|a| - 1] + [a[|a| - 1]];
    }
  }

  /** One event of type `t` for each region of `rs`, in the order of `rs`. */
  function Each(t: EvtType, rs: seq<Region>): (es: seq<Event>)
    ensures |es| == |rs|
  {
    if rs == [] then [] else Each(t, rs[..|rs| - 1]) + [Event(t, rs[|rs| - 1])]
  }

  lemma {:induction false} EachSnoc(t: EvtType, rs: seq<Region>, r: Region)
    ensures Each(t, rs + [r]) == Each(t, rs) + [Event(t, r)]
  {
    assert (rs + [r])[..|rs|] == rs;
  }

  lemma {:induction false} EachPrefixStep(t: EvtType, rs: seq<Region>, i: nat)
    requires i < |rs|
    ensures Each(t, rs[..i + 1]) == Each(t, rs[..i]) + [Event(t, rs[i])]
  {
    assert rs[..i + 1][..i] == rs[..i];
  }

  lemma {:induction false} MinusPrefixStep(a: seq<Region>, i: nat, b: seq<Region>)
    requires i < |a|
    ensures a[i] !in b ==> Minus(a[..i + 1], b) == Minus(a[..i], b) + [a[i]]
    ensures a[i] in b ==> Minus(a[..i + 1], b) == Minus(a[..i], b)
  {
    assert a[..i + 1][..i] == a[..i];
    assert Minus(a[..i], b) + [] == Minus(a[..i], b);
  }

  /** The kind-specific phase of a dispatch over the pick list `now`. */
  function PhaseEvents(what: RawKind, now: seq<Region>): seq<Event> {
    match what
    case RawPress => Each(Press, now)
    case RawMove => Each(MoveInside, now)
    case RawRelease => Each(Release, now) + (if now == [] then [Event(ReleaseNone, null)] else [])
  }

  /** The batch delivered for raw event `what` when the previous pick list was `last` and the
      current one is `now`: exits, then enters, then the kind-specific phase. */
  function DispatchEvents(last: seq<Region>, now: seq<Region>, what: RawKind): seq<Event> {
    Each(Exit, Minus(last, now)) + Each(Enter, Minus(now, last)) + PhaseEvents(what, now)
  }

  /** The regions carried by the events of type `t` in `es`, in delivery order. */
  function RegionsOf(es: seq<Event>, t: EvtType): seq<Region?> {
    if es == [] then []
    else RegionsOf(es[..|es| - 1], t) + (if es[|es| - 1].evtType == t then [es[|es| - 1].region] else [])
  }

  /** The delivery phase an event type belongs to. */
  function Phase(t: EvtType): nat {
    match t
    case Exit => 0
    case Enter => 1
    case _ => 2
  }

  lemma {:induction false} RegionsOfAppend(a: seq<Event>, b: seq<Event>, t: EvtType)
    ensures RegionsOf(a + b, t) == RegionsOf(a, t) + RegionsOf(b, t)
  {
    if b != [] {
      var ab, b' := a + b, b[..|b| - 1];
      assert ab[..|ab| - 1] == a + b';
      assert ab[|ab| - 1] == b[|b| - 1];
      RegionsOfAppend(a, b', t);
      var tail: seq<Region?> := if b[|b| - 1].evtType == t then [b[|b| - 1].region] else [];
      calc {
        RegionsOf(ab, t);
        RegionsOf(a + b', t) + tail;
        RegionsOf(a, t) + RegionsOf(b', t) + tail;
        RegionsOf(a, t) + (RegionsOf(b', t) + tail);
        RegionsOf(a, t) + RegionsOf(b, t);
      }
    } else {
      assert a + b == a;
    }
  }

  lemma {:induction false} RegionsOfEach(t: EvtType, rs: seq<Region>, u: EvtType)
    ensures RegionsOf(Each(t, rs), u) == if t == u then rs else []
  {
    if rs != [] {
      var es := Each(t, rs);
      assert es[..|es| - 1] == Each(t, rs[..|rs| - 1]);
      RegionsOfEach(t, rs[..|rs| - 1], u);
      assert rs == rs[..|rs| - 1] + [rs[|rs| - 1]];
    }
  }

  /** The regions carried by the kind-specific phase's events of type `t`. */
  lemma {:induction false} RegionsOfPhase(what: RawKind, now: seq<Region>, t: EvtType)
    ensures RegionsOf(PhaseEvents(what, now), t) ==
      if what == RawRelease && t == ReleaseNone && now == [] then [null]
      else if (what == RawPress && t == Press) || (what == RawMove && t == MoveInside)
        || (what == RawRelease && t == Release) then now
      else []
  {
    match what
    case RawPress =>
      RegionsOfEach(Press, now, t);
    case RawMove =>
      RegionsOfEach(MoveInside, now, t);
    case RawRelease =>
      RegionsOfReleasePhase(now, t);
  }

  /** The release phase: releases for the picked regions, and one release_none over nothing. */
  lemma {:induction false} RegionsOfReleasePhase(now: seq<Region>, t: EvtType)
    ensures RegionsOf(PhaseEvents(RawRelease, now), t) ==
      if t == ReleaseNone && now == [] then [null] else if t == Release then now else []
  {
    var rel := Each(Release, now);
    var none: seq<Event> := if now == [] then [Event(ReleaseNone, null)] else [];
    assert PhaseEvents(RawRelease, now) == rel + none;
    RegionsOfAppend(rel, none, t);
    RegionsOfEach(Release, now, t);
    if now == [] {
      assert none[..0] == [];
      assert RegionsOf(rel, t) == [];
      assert RegionsOf(none, t) == if t == ReleaseNone then [null] else [];
    } else {
      assert RegionsOf(none, t) == [];
      assert RegionsOf(rel, t) + [] == RegionsOf(rel, t);
    }
  }

  lemma {:induction false} RegionsOfAppend3(a: seq<Event>, b: seq<Event>, c: seq<Event>, t: EvtType)
    ensures RegionsOf(a + b + c, t) == RegionsOf(a, t) + RegionsOf(b, t) + RegionsOf(c, t)
  {
    RegionsOfAppend(a + b, c, t);
    RegionsOfAppend(a, b, t);
  }

  /** The regions carried by a dispatch's events of type `t`, phase by phase. */
  lemma {:induction false} RegionsOfDispatch(last: seq<Region>, now: seq<Region>, what: RawKind, t: EvtType)
    ensures RegionsOf(DispatchEvents(last, now, what), t) ==
      (if t == Exit then Minus(last, now) else []) + (if t == Enter then Minus(now, last) else [])
        + RegionsOf(PhaseEvents(what, now), t)
  {
    RegionsOfAppend3(Each(Exit, Minus(last, now)), Each(Enter, Minus(now, last)), PhaseEvents(what, now), t);
    RegionsOfEach(Exit, Minus(last, now), t);
    RegionsOfEach(Enter, Minus(now, last), t);
  }

  /** A dispatch's events of a kind-specific type all come from its last phase. */
  lemma {:induction false} RegionsOfDispatchPhase(last: seq<Region>, now: seq<Region>, what: RawKind, t: EvtType)
    requires t != Exit && t != Enter
    ensures RegionsOf(DispatchEvents(last, now, what), t) == RegionsOf(PhaseEvents(what, now), t)
  {
    RegionsOfDispatch(last, now, what, t);
    assert [] + [] + RegionsOf(PhaseEvents(what, now), t) == RegionsOf(PhaseEvents(what, now), t);
  }

  /** The exit and enter phases of a dispatch: exits go to exactly the regions left, in the
      previous pick order, and enters to exactly the regions entered, in pick order. */
  lemma {:induction false} DispatchExitsEnters(last: seq<Region>, now: seq<Region>, what: RawKind)
    ensures RegionsOf(DispatchEvents(last, now, what), Exit) == Minus(last, now)
    ensures RegionsOf(DispatchEvents(last, now, what), Enter) == Minus(now, last)
  {
    var d := DispatchEvents(last, now, what);
    assert RegionsOf(d, Exit) == Minus(last, now) by {
      RegionsOfDispatch(last, now, what, Exit);
      RegionsOfPhase(what, now, Exit);
    }
    assert RegionsOf(d, Enter) == Minus(now, last) by {
      RegionsOfDispatch(last, now, what, Enter);
      RegionsOfPhase(what, now, Enter);
    }
  }

  /** The kind-specific phase of a dispatch: a press, a move_inside or a release for every
      picked region (topmost first) according to the raw kind; a release over nothing delivers
      one release_none without a region; no any or nevermatch event is ever delivered. */
  lemma {:induction false} DispatchKindSpecific(last: seq<Region>, now: seq<Region>, what: RawKind)
    ensures RegionsOf(DispatchEvents(last, now, what), Press) == if what == RawPress then now else []
    ensures RegionsOf(DispatchEvents(last, now, what), MoveInside) == if what == RawMove then now else []
    ensures RegionsOf(DispatchEvents(last, now, what), Release) == if what == RawRelease then now else []
    ensures RegionsOf(DispatchEvents(last, now, what), ReleaseNone) ==
      if what == RawRelease && now == [] then [null] else []
    ensures RegionsOf(DispatchEvents(last, now, what), Any) == []
    ensures RegionsOf(DispatchEvents(last, now, what), NeverMatch) == []
  {
    var d := DispatchEvents(last, now, what);
    assert RegionsOf(d, Press) == if what == RawPress then now else [] by {
      RegionsOfDispatchPhase(last, now, what, Press);
      RegionsOfPhase(what, now, Press);
    }
    assert RegionsOf(d, MoveInside) == if what == RawMove then now else [] by {
      RegionsOfDispatchPhase(last, now, what, MoveInside);
      RegionsOfPhase(what, now, MoveInside);
    }
    assert RegionsOf(d, Release) == if what == RawRelease then now else [] by {
      RegionsOfDispatchPhase(last, now, what, Release);
      RegionsOfPhase(what, now, Release);
    }
    assert RegionsOf(d, ReleaseNone) == if what == RawRelease && now == [] then [null] else [] by {
      RegionsOfDispatchPhase(last, now, what, ReleaseNone);
      RegionsOfPhase(what, now, ReleaseNone);
    }
    assert RegionsOf(d, Any) == [] by {
      RegionsOfDispatchPhase(last, now, what, Any);
      RegionsOfPhase(what, now, Any);
    }
    assert RegionsOf(d, NeverMatch) == [] by {
      RegionsOfDispatchPhase(last, now, what, NeverMatch);
      RegionsOfPhase(what, now, NeverMatch);
    }
  }

  /** The regions that receive exit or enter are exactly those in one pick list but not the
      other, and no region receives both. */
  lemma {:induction false} ExitEnterSymmetricDifference(last: seq<Region>, now: seq<Region>, what: RawKind, r: Region)
    ensures r in RegionsOf(DispatchEvents(last, now, what), Exit) <==> r in last && r !in now
    ensures r in RegionsOf(DispatchEvents(last, now, what), Enter) <==> r in now && r !in last
    ensures r in RegionsOf(DispatchEvents(last, now, what), Exit) || r in RegionsOf(DispatchEvents(last, now, what), Enter)
      <==> (r in last <==> r !in now)
  {
    DispatchExitsEnters(last, now, what);
    MinusMembers(last, now);
    MinusMembers(now, last);
  }

  /** The event types of the kind-specific phase. */
  predicate KindSpecific(t: EvtType) {
    t == Press || t == MoveInside || t == Release || t == ReleaseNone
  }

  lemma {:induction false} EachAt(t: EvtType, rs: seq<Region>)
    ensures forall k :: 0 <= k < |rs| ==> Each(t, rs)[k] == Event(t, rs[k])
  {
    if rs != [] {
      EachAt(t, rs[..|rs| - 1]);
    }
  }

  lemma {:induction false} PhaseEventsKinds(what: RawKind, now: seq<Region>)
    ensures forall k :: 0 <= k < |PhaseEvents(what, now)| ==> KindSpecific(PhaseEvents(what, now)[k].evtType)
  {
    match what
    case RawPress => EachAt(Press, now);
    case RawMove => EachAt(MoveInside, now);
    case RawRelease => EachAt(Release, now);
  }

  /** The type of the k-th delivered event, by the part of the batch it falls in. */
  lemma {:induction false} DispatchAt(last: seq<Region>, now: seq<Region>, what: RawKind, k: nat)
    requires k < |DispatchEvents(last, now, what)|
    ensures var nx, nn := |Minus(last, now)|, |Minus(now, last)|;
      var e := DispatchEvents(last, now, what)[k];
      && (k < nx ==> e.evtType == Exit)
      && (nx <= k < nx + nn ==> e.evtType == Enter)
      && (nx + nn <= k ==> KindSpecific(e.evtType))
  {
    var exits := Each(Exit, Minus(last, now));
    var enters := Each(Enter, Minus(now, last));
    var phase := PhaseEvents(what, now);
    var d := exits + enters + phase;
    if k < |exits| {
      EachAt(Exit, Minus(last, now));
      assert d[k] == exits[k];
    } else if k < |exits| + |enters| {
      EachAt(Enter, Minus(now, last));
      assert d[k] == enters[k - |exits|];
    } else {
      PhaseEventsKinds(what, now);
      assert d[k] == phase[k - |exits| - |enters|];
    }
  }

  /** Ordering: every exit precedes every enter, which precedes every event of the
      kind-specific phase. */
  lemma {:induction false} DispatchPhaseOrder(last: seq<Region>, now: seq<Region>, what: RawKind)
    ensures var d := DispatchEvents(last, now, what);
      forall i, j :: 0 <= i < j < |d| ==> Phase(d[i].evtType) <= Phase(d[j].evtType)
  {
    var d := DispatchEvents(last, now, what);
    forall i, j | 0 <= i < j < |d| ensures Phase(d[i].evtType) <= Phase(d[j].evtType) {
      DispatchAt(last, now, what, i);
      DispatchAt(last, now, what, j);
    }
  }

  /** The dispatcher never delivers an `any` or `nevermatch` event, so a nevermatch
      specification matches nothing it delivers. */
  lemma {:induction false} NeverMatchIgnoresDispatch(s: EventSpec, last: seq<Region>, now: seq<Region>, what: RawKind)
    requires s.evtType == NeverMatch
    ensures forall e :: e in DispatchEvents(last, now, what) ==> !s.Match(e.evtType, e.region)
  {
    var d := DispatchEvents(last, now, what);
    forall e | e in d ensures e.evtType != NeverMatch {
      var k :| 0 <= k < |d| && d[k] == e;
      DispatchAt(last, now, what, k);
    }
  }

  /** Taking away no regions leaves the list as it is. */
  lemma {:induction false} MinusNothing(a: seq<Region>)
    ensures Minus(a, []) == a
  {
    if a != [] {
      MinusNothing(a[..|a| - 1]);
      assert a == a[..|a| - 1] + [a[|a| - 1]];
    }
  }

  /** Nothing of `a` is missing from `b` when every region of `a` is in `b`. */
  lemma {:induction false} MinusCovered(a: seq<Region>, b: seq<Region>)
    requires forall k :: 0 <= k < |a| ==> a[k] in b
    ensures Minus(a, b) == []
  {
    if a != [] {
      MinusCovered(a[..|a| - 1], b);
    }
  }

  /** A second move at the same point over the same regions delivers no exit and no enter,
      only a move_inside for every picked region, topmost first. */
  lemma {:induction false} RepeatedMoveOnlyMovesInside(regions: seq<Region>, x: int, y: int)
    ensures var p := PickList(regions, x, y);
      DispatchEvents(p, p, RawMove) == Each(MoveInside, p)
  {
    var p := PickList(regions, x, y);
    MinusCovered(p, p);
  }

  /** A worked case: A at (0,0) and B at (5,5), both 10 by 10, drawn A then B. At (7,7) the pick
      list is [B, A], and a press there after an empty pick list delivers enter B, enter A,
      press B, press A. */
  lemma OverlappingPressScenario(a: Region, b: Region)
    requires a.x == 0 && a.y == 0 && a.w == 10 && a.h == 10
    requires b.x == 5 && b.y == 5 && b.w == 10 && b.h == 10
    ensures PickList([a, b], 7, 7) == [b, a]
    ensures DispatchEvents([], [b, a], RawPress) ==
      [Event(Enter, b), Event(Enter, a), Event(Press, b), Event(Press, a)]
  {
    assert Hits(a, 7, 7) && Hits(b, 7, 7);
    assert PickList([a, b], 7, 7) == [b, a] by {
      assert [a, b][1..] == [b];
      assert [b][1..] == [];
      assert PickList([b], 7, 7) == [b];
    }
    MinusNothing([b, a]);
    assert Each(Enter, [b, a]) == [Event(Enter, b), Event(Enter, a)] by {
      EachSnoc(Enter, [], b);
      EachSnoc(Enter, [b], a);
      assert [] + [b] == [b] && [b] + [a] == [b, a];
    }
    assert Each(Press, [b, a]) == [Event(Press, b), Event(Press, a)] by {
      EachSnoc(Press, [], b);
      EachSnoc(Press, [b], a);
      assert [] + [b] == [b] && [b] + [a] == [b, a];
    }
  }

  //-------------------------------------------------------------------
  // The interactor
  //-------------------------------------------------------------------

  class FSMInteractor {
    /** The pick list of the previous dispatch. */
    var lastRegions: seq<Region>
    /** The region that last received a press; null before the first press. */
    var pressedRegion: Region?
    var fsm: FSM?
    var x: int
    var y: int

    /** The remembered regions belong to the controlling FSM. */
    ghost predicate Valid()
      reads this`fsm, this`lastRegions, this`pressedRegion
    {
      fsm != null ==>
        (forall k :: 0 <= k < |lastRegions| ==> lastRegions[k] in fsm.regions) &&
        (pressedRegion != null ==> pressedRegion in fsm.regions)
    }

    constructor (fsm: FSM? := null, x: int := 0, y: int := 0)
      modifies fsm
      ensures this.fsm == fsm && this.x == x && this.y == y
      ensures lastRegions == [] && pressedRegion == null
      ensures fsm != null ==> fsm.parent == this && fsm.trace == old(fsm.trace)
      ensures Valid()
    {
      lastRegions := [];
      pressedRegion := null;
      this.fsm := fsm;
      this.x := x;
      this.y := y;
      new;
      if fsm != null {
        fsm.parent := this;
      }
    }

    function Position(): Point
      reads this`x, this`y
    {
      Point(x, y)
    }

    /** The x setter. Its notification of the parent is only a property read in the source,
        so setting the coordinate is all it does. */
    method SetX(v: int)
      modifies this`x
      ensures x == v
    {
      if x != v {
        x := v;
      }
    }

    /** The y setter; as for SetX, only the coordinate changes. */
    method SetY(v: int)
      modifies this`y
      ensures y == v
    {
      if y != v {
        y := v;
      }
    }

    /** The position setter: both coordinates at once. */
    method SetPosition(v: Point)
      modifies this`x, this`y
      ensures Position() == v
    {
      if v.x != x || v.y != y {
        x := v.x;
        y := v.y;
      }
    }

    /** The regions of the FSM under (localX, localY), later-drawn first; none without an FSM. */
    method Pick(localX: int, localY: int) returns (pickList: seq<Region>)
      ensures fsm == null ==> pickList == []
      ensures fsm != null ==> pickList == PickList(fsm.regions, localX, localY)
    {
      pickList := [];
      if fsm == null {
        return;
      }
      var regions := fsm.regions;
      for i := |regions| downto 0
        invariant pickList == PickList(regions[i..], localX, localY)
      {
        var currentRegion := regions[i];
        var childX := localX - currentRegion.x;
        var childY := localY - currentRegion.y;
        assert regions[i..][1..] == regions[i + 1..];
        if currentRegion.Pick(childX, childY) {
          pickList := pickList + [currentRegion];
        }
      }
      assert regions[0..] == regions;
    }

    /** Translates raw event `what` at (localX, localY) into region-level events delivered to
        the FSM: exits, enters, then the kind-specific phase (DispatchEvents); it then
        remembers the new pick list, and a press over something remembers the last region
        pressed. Without an FSM nothing happens. */
    method DispatchRawEvent(what: RawKind, localX: int, localY: int)
      modifies this`lastRegions, this`pressedRegion, fsm
      ensures old(Valid()) ==> Valid()
      ensures fsm == null ==> lastRegions == old(lastRegions) && pressedRegion == old(pressedRegion)
      ensures fsm != null ==>
        fsm.trace == old(fsm.trace) + DispatchEvents(old(lastRegions), PickList(fsm.regions, localX, localY), what)
      ensures fsm != null ==> fsm.parent == old(fsm.parent)
      ensures fsm != null ==> lastRegions == PickList(fsm.regions, localX, localY)
      ensures fsm != null ==> forall k :: 0 <= k < |lastRegions| ==> lastRegions[k] in fsm.regions
      ensures fsm != null && what == RawPress && lastRegions != [] ==>
        pressedRegion == lastRegions[|lastRegions| - 1]
      ensures !(fsm != null && what == RawPress && lastRegions != []) ==>
        pressedRegion == old(pressedRegion)
    {
      if fsm == null {
        return;
      }
      var f: FSM := fsm;
      DispatchTo(f, what, localX, localY);
    }

    /** The three phases of a dispatch to the attached machine `f`, and the new pick list. */
    method DispatchTo(f: FSM, what: RawKind, localX: int, localY: int)
      requires fsm == f
      modifies this`lastRegions, this`pressedRegion, f`trace
      ensures old(Valid()) ==> Valid()
      ensures forall k :: 0 <= k < |lastRegions| ==> lastRegions[k] in f.regions
      ensures f.trace == old(f.trace) + DispatchEvents(old(lastRegions), PickList(f.regions, localX, localY), what)
      ensures lastRegions == PickList(f.regions, localX, localY)
      ensures pressedRegion ==
        if what == RawPress && lastRegions != [] then lastRegions[|lastRegions| - 1] else old(pressedRegion)
    {
      ghost var wasValid := Valid();
      var regions := Pick(localX, localY);
      DeliverDispatch(f, what, lastRegions, regions);
      lastRegions := regions;
      PickListMembers(f.regions, localX, localY);
      assert forall k :: 0 <= k < |lastRegions| ==> lastRegions[k] in f.regions;
      if wasValid {
        assert Valid();
      }
    }

    /** Exits for the regions of `last` no longer picked, enters for the newly picked ones, then
        the kind-specific phase. */
    method DeliverDispatch(f: FSM, what: RawKind, last: seq<Region>, regions: seq<Region>)
      modifies f`trace, this`pressedRegion
      ensures f.trace == old(f.trace) + DispatchEvents(last, regions, what)
      ensures pressedRegion ==
        if what == RawPress && regions != [] then regions[|regions| - 1] else old(pressedRegion)
    {
      ghost var t0 := f.trace;
      ghost var exits, enters, phase :=
        Each(Exit, Minus(last, regions)), Each(Enter, Minus(regions, last)), PhaseEvents(what, regions);
      DeliverUnlisted(f, Exit, last, regions);
      ghost var t1 := f.trace;
      DeliverUnlisted(f, Enter, regions, last);
      ghost var t2 := f.trace;
      DeliverPhase(f, what, regions);
      assert f.trace == t0 + (exits + enters + phase) by {
        assert t1 == t0 + exits && t2 == t1 + enters && f.trace == t2 + phase;
      }
    }

    /** The kind-specific phase: presses (recording the pressed region), moves inside or
        releases for every picked region, and a release_none after a release over nothing. */
    method DeliverPhase(f: FSM, what: RawKind, regions: seq<Region>)
      modifies f`trace, this`pressedRegion
      ensures f.trace == old(f.trace) + PhaseEvents(what, regions)
      ensures pressedRegion ==
        if what == RawPress && regions != [] then regions[|regions| - 1] else old(pressedRegion)
    {
      if what == RawPress {
        DeliverPresses(f, regions);
      }
      if what == RawMove {
        DeliverAll(f, MoveInside, regions);
      }
      if what == RawRelease {
        DeliverAll(f, Release, regions);
      }
      if what == RawRelease && |regions| == 0 {
        f.ActOnEvent(ReleaseNone);
      }
    }

    /** The press phase: a press for every picked region, topmost first, each press recording
        its region as the pressed one (so the last region of the list is left recorded). */
    method DeliverPresses(f: FSM, regions: seq<Region>)
      modifies f`trace, this`pressedRegion
      ensures f.trace == old(f.trace) + Each(Press, regions)
      ensures pressedRegion == if regions == [] then old(pressedRegion) else regions[|regions| - 1]
    {
      ghost var start := f.trace;
      for i := 0 to |regions|
        invariant f.trace == start + Each(Press, regions[..i])
        invariant pressedRegion == if i == 0 then old(pressedRegion) else regions[i - 1]
      {
        var region := regions[i];
        EachPrefixStep(Press, regions, i);
        f.ActOnEvent(Press, region);
        pressedRegion := region;
      }
      assert regions[..|regions|] == regions;
    }
  }

  /** Delivers an event of type `t` for every region of `rs` that is not in `other`, in the
      order of `rs` (the exit and enter phases). */
  method DeliverUnlisted(f: FSM, t: EvtType, rs: seq<Region>, other: seq<Region>)
    modifies f`trace
    ensures f.trace == old(f.trace) + Each(t, Minus(rs, other))
  {
    ghost var start := f.trace;
    ghost var sent: seq<Region> := [];
    for i := 0 to |rs|
      invariant sent == Minus(rs[..i], other)
      invariant f.trace == start + Each(t, sent)
    {
      var region := rs[i];
      MinusPrefixStep(rs, i, other);
      if region !in other {
        EachSnoc(t, sent, region);
        f.ActOnEvent(t, region);
        sent := sent + [region];
      }
    }
    assert rs[..|rs|] == rs;
  }

  /** Delivers an event of type `t` for every region of `rs`, in order (the move and release
      phases). */
  method DeliverAll(f: FSM, t: EvtType, rs: seq<Region>)
    modifies f`trace
    ensures f.trace == old(f.trace) + Each(t, rs)
  {
    ghost var start := f.trace;
    for i := 0 to |rs|
      invariant f.trace == start + Each(t, rs[..i])
    {
      var region := rs[i];
      EachPrefixStep(t, rs, i);
      f.ActOnEvent(t, region);
    }
    assert rs[..|rs|] == rs;
  }

  /** The overlapping-regions case driven through the interactor itself: A at (0,0) and B at
      (5,5), both 10 by 10, drawn A then B; a press at (7,7) on a fresh interactor delivers
      enter B, enter A, press B, press A, remembers [B, A] and leaves A as the pressed region. */
  method OverlappingPressThroughInteractor() returns (it: FSMInteractor, f: FSM, a: Region, b: Region)
    ensures f.trace == [Event(Enter, b), Event(Enter, a), Event(Press, b), Event(Press, a)]
    ensures it.fsm == f && f.parent == it
    ensures it.lastRegions == [b, a] && it.pressedRegion == a
  {
    a := new Region("A", 0, 0, 10, 10);
    b := new Region("B", 5, 5, 10, 10);
    f := new FSM([a, b]);
    it := new FSMInteractor(f, 0, 0);
    OverlappingPressScenario(a, b);
    it.DispatchRawEvent(RawPress, 7, 7);
  }
}
