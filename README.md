# FSM interactor input side, modelled in Dafny

This project models the input side of an FSM-driven interactive object. An interactor owns a
finite state machine (FSM) whose regions are drawn in order. The interactor does three things:

- It *picks* the regions under a pointer position. The pick list puts later-drawn regions first.
- It translates each raw pointer event (press, move, release) into region-level events for the
  FSM. First come exits, then enters, then one kind-specific phase: press, move_inside or
  release, plus release_none when a release lands on nothing.
- It remembers the new pick list, and after a press it remembers the region pressed.

Transitions of the FSM carry *event specifications*. Each one names an event type and a region.
A specification is parsed from declaration data and bound by name to one of the FSM's regions.
It then decides whether an actual event matches it: first by type, then by region.

The project has three modules:

- `Regions` (`region.dfy`) is a stand-in for the region collaborator. A region is an object
  with a name, a position and a size. Its hit test is a half-open bounding box in the region's
  local coordinates. Regions are objects, so "the same region" means the same object, as with
  `includes` in the source.
- `Events` (`eventspec.dfy`) holds the event types and their spellings, parsing of declaration
  data, and the class `EventSpec` with binding, matching and its readable rendering.
- `Interactor` (`fsminteractor.dfy`) holds the delivered `Event` values and a stand-in `FSM`
  class. The FSM keeps its regions, a back link to its interactor, and a `trace` of every event
  delivered to it. The module also holds the specification functions (`PickList`, `Minus`,
  `Each`, `PhaseEvents`, `DispatchEvents`) and the lemmas about them. The class `FSMInteractor`
  performs the same work step by step with the source's loops and is proved against those
  functions.

`dispatchRawEvent` is proved against `DispatchEvents`. The lemmas then describe that batch
type by type and in order:

- exits and enters form the symmetric difference of the two pick lists;
- every exit comes before every enter, and every enter before the kind-specific phase;
- a release over nothing gives exactly one release_none;
- a nevermatch specification matches nothing the dispatcher delivers.

## Model

| member | source | states |
|---|---|---|
| Events.FromToken | out/EventSpec.js:3-4 | Accepts exactly the eight listed spellings, and what it accepts reads back as the type with that spelling |
| Events.TokenRoundTrip | out/EventSpec.js:3-4 | Every event type's spelling is one of the listed strings and parses back to that type |
| Events.ParseDecl | out/EventSpec.js:15-19 | Succeeds exactly when the region is a string, which it keeps unchanged; the event type is the given one when it is a listed spelling, otherwise nevermatch, so it is always one of the eight |
| Events.EventSpec.constructor | out/EventSpec.js:7-11 | Stores the event type and region name and leaves the region unbound |
| Events.EventSpec.FromJson | out/EventSpec.js:15-19 | Fails exactly when the declaration is invalid; otherwise returns a new unbound specification carrying the parsed type and name |
| Events.FirstNamed | out/EventSpec.js:37-45 | Returns the index of the first region with the given name, or the list length when no region has it; no earlier region has the name |
| Events.EventSpec.BindRegion | out/EventSpec.js:29-58 | The wildcard "*" leaves the spec unbound with no report; otherwise it binds the first region with the name, with no report; with no such region it leaves the spec unbound and reports the message unless the type is nevermatch, or is release_none/any with an empty name |
| Events.EventSpec.Match | out/EventSpec.js:63-77 | The type gate comes first: the event's type must equal the specification's, or the specification's type must be any. Then the region gate: an unbound specification accepts any region or none; a bound one accepts when its name is "*" or the event carries a region with that name. Matching reads only the bound region and changes nothing |
| Events.MatchNeedsType | out/EventSpec.js:66-76 | An event of another type never matches, unless the specification's type is any |
| Events.NeverMatchMatchesNothing | out/EventSpec.js:66-76 | A nevermatch specification matches no event of any other type |
| Events.UnboundMatchesAnyRegion | out/EventSpec.js:66-70 | Once the type gate passes, an unbound specification matches whatever region comes with the event, including none |
| Events.BoundMatchIsNameTest | out/EventSpec.js:63-77 | Once the type gate passes, a bound specification matches exactly when the event carries a region with the bound region's name; the wildcard arm never applies, because binding never stores a region for "*" |
| Events.BoundMatchByName | out/EventSpec.js:72 | A bound specification matches any region with its name, even one other than the region it is bound to, and rejects other names and a missing region |
| Events.WildcardMatchesAll | out/EventSpec.js:31-34 | A wildcard specification is never bound, so it matches every region once the type matches |
| Events.EventSpec.DebugString | out/EventSpec.js:87-97 | The result is the rendering DebugText of the indent, the type, the name and whether the spec is unbound |
| Events.Indent | out/EventSpec.js:89-92 | The indentation is 2n spaces, or empty when n is 0 or less |
| Events.DebugTextPrefix | out/EventSpec.js:91-93 | The rendering starts with the indentation, followed by the type's spelling, a space and the region name |
| Events.DebugTextUnbound | out/EventSpec.js:94-95 | An unbound specification's rendering always ends in " unbound", whatever its name |
| Events.DebugTextBound | out/EventSpec.js:93-95 | A bound specification's rendering ends in " unbound" exactly when the name is "unbound" or ends in " unbound" |
| Events.DebugTextSuffix | out/EventSpec.js:93-95 | For every other name, the rendering ends in " unbound" exactly when the specification is unbound |
| Interactor.PickListMembers | out/FSMInteractor.js:151-162 | The pick list holds exactly the FSM's regions whose hit test accepts the point shifted into the region's frame |
| Interactor.PickListTopmostFirst | out/FSMInteractor.js:140-151 | Of two regions that both contain the point, the one drawn later comes earlier in the pick list |
| Interactor.PickListDistinct | out/FSMInteractor.js:151-162 | A region listed once in the FSM appears at most once in a pick list |
| Interactor.FSMInteractor.constructor | out/FSMInteractor.js:42-54 | The new interactor has no remembered pick list and no pressed region, and it stores the FSM and position. An FSM it is given gets the interactor as its parent, and nothing else about that FSM changes (its trace is kept) |
| Interactor.FSMInteractor.Position | out/FSMInteractor.js:76-78 | The position is the point made of the current x and y |
| Interactor.FSMInteractor.SetX | out/FSMInteractor.js:56-64 | x takes the new value; nothing else changes |
| Interactor.FSMInteractor.SetY | out/FSMInteractor.js:66-74 | y takes the new value; nothing else changes |
| Interactor.FSMInteractor.SetPosition | out/FSMInteractor.js:79-86 | The position becomes the given point |
| Interactor.FSMInteractor.Pick | out/FSMInteractor.js:144-165 | With no FSM the result is empty; otherwise it is the pick list of the FSM's regions at the point |
| Interactor.FSMInteractor.DispatchRawEvent | out/FSMInteractor.js:183-227 | With no FSM nothing changes. Otherwise the FSM receives exactly DispatchEvents of the old pick list, the new one and the raw kind, appended to what it had. The new pick list is remembered. A press over something leaves the last-picked region as the pressed region; otherwise the pressed region is unchanged. The new remembered regions are among the FSM's regions, and a state whose remembered regions belonged to the FSM still has that property |
| Interactor.FSMInteractor.DispatchTo | out/FSMInteractor.js:189-226 | Once an FSM is known to be present, the same three-phase delivery, plus the new remembered pick list and the pressed region |
| Interactor.FSMInteractor.DeliverDispatch | out/FSMInteractor.js:192-225 | The FSM receives exits, then enters, then the kind-specific phase, as DispatchEvents says |
| Interactor.FSMInteractor.DeliverPhase | out/FSMInteractor.js:204-225 | The FSM receives the kind-specific phase: presses, moves inside or releases for every picked region, plus release_none after a release over nothing; only a press over something changes the pressed region |
| Interactor.FSMInteractor.DeliverPresses | out/FSMInteractor.js:204-209 | The FSM receives a press for every picked region in pick order, and the last picked region becomes the pressed region (last write wins) |
| Interactor.DeliverUnlisted | out/FSMInteractor.js:192-202 | The FSM receives one event of the given type for each region of the first list that the other list lacks, in the first list's order |
| Interactor.DeliverAll | out/FSMInteractor.js:211-221 | The FSM receives one event of the given type for every picked region, in pick order |
| Interactor.MinusMembers | out/FSMInteractor.js:192-202 | The regions left over after the list difference are exactly those of the first list that are missing from the second |
| Interactor.DispatchExitsEnters | out/FSMInteractor.js:192-202 | Exits go to exactly the regions that were picked before and are not now, in the old pick order; enters go to exactly the regions picked now and not before, in the new pick order |
| Interactor.DispatchKindSpecific | out/FSMInteractor.js:204-225 | A press, move_inside or release goes to every picked region, topmost first, depending on the raw kind, and not for other kinds. A release over nothing delivers exactly one release_none with no region, and a release over something delivers none; no any or nevermatch event is delivered |
| Interactor.ExitEnterSymmetricDifference | out/FSMInteractor.js:192-202 | A region receives an exit exactly when it leaves the pick list and an enter exactly when it joins it; it receives one or the other exactly when it is in one pick list but not both |
| Interactor.DispatchPhaseOrder | out/FSMInteractor.js:178-225 | In a delivered batch every exit precedes every enter, which precedes every event of the kind-specific phase |
| Interactor.NeverMatchIgnoresDispatch | out/EventSpec.js:66-76 | A nevermatch specification matches no event that a dispatch delivers |
| Interactor.RepeatedMoveOnlyMovesInside | out/FSMInteractor.js:192-215 | A move at an unchanged pick list delivers no exit or enter, only a move_inside for every picked region |
| Interactor.OverlappingPressScenario | out/FSMInteractor.js:144-209 | With A drawn before B and both under the point, the pick list is [B, A], and a press with nothing previously picked delivers enter B, enter A, press B, press A |
| Interactor.OverlappingPressThroughInteractor | out/FSMInteractor.js:42-226 | The same case run through a new interactor and its dispatch method: the FSM's trace is exactly enter B, enter A, press B, press A; the interactor remembers [B, A]; A is the pressed region |

## Left out

- `draw` (out/FSMInteractor.js:119-134): canvas drawing through foreign calls.
- `startLoadFromJson` (out/FSMInteractor.js:238-254) and the async helper at lines 15-23: network I/O and asynchronous plumbing. It installs a new FSM but keeps the remembered pick list. The next dispatch then delivers exits to regions of the old FSM. The model keeps this reachable: `DispatchRawEvent` has no precondition on the remembered regions. It only promises that they belong to the FSM afterwards.
- Damage propagation: `damage` (out/FSMInteractor.js:108-113), the `parent` setter (lines 88-97), and the constructor's fourth argument `parent` with its store `this._parent = parent` (lines 42 and 51) are redraw plumbing. The model's interactor has no parent field. The parent setter's `typeof v == undefined` test always fails, so its guard always lets the assignment through.
- Interactor.FSMInteractor.SetX: the source's notification of the parent only reads `parent.damage` and never calls it (lines 62, 72 and 84). Dropping it changes nothing observable, so the setters only assign. The same holds for SetY and SetPosition.
- Interactor.FSMInteractor.DispatchRawEvent: the source returns early only when the FSM is `undefined` (line 185). The model has one "no FSM" value, so an FSM explicitly set to `null` is treated as absent. In the source, a release in that state would fail when it calls `actOnEvent` on null.
- Raw event kinds other than press, move and release: the source's string comparisons let any other string through with only exits and enters. The model's raw kind has exactly those three values.
- FSM internals (FSM.js is not part of this model): `actOnEvent` is modelled as appending the event to the FSM's trace.
- Region internals (Region.js is not part of this model): the hit test is taken to be a half-open bounding box. Coordinates are integers, not floating point.
- The validator and the error sink (Check.js and Err.js are not part of this model): `Check.limitedString` is taken to return its value when the value is listed and the default otherwise, and `Check.stringVal` to fail on a non-string. `Err.emit` becomes the message that `BindRegion` returns.
- Events.DebugTextSuffix: "ends in ' unbound' exactly when unbound" fails for the names "unbound" and those ending in " unbound". With such a name, a bound specification's rendering ends in " unbound" too. DebugTextUnbound and DebugTextBound state the exact behaviour for every name.
- `debugTag` and `dump` (out/EventSpec.js:82-84, 100-102): console output and trivial formatting.
