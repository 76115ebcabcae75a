/**
 * The reorder coordinator of js/app.js: the handlers of the application's
 * `startMovingContainerDown` and `startMovingContainerUp` ports, and
 * `runMoveAnimation`, which slides two adjacent containers past each other
 * and then reports the finished move back to the application.
 *
 * The page is the document-order list of `.container` elements; an element
 * is named by its position in that list. What a handler does is an ordered
 * trace of effects; timing is reduced to that order and to the delays of the
 * timers it sets.
 */
module Reorder {
  import opened Wrappers
  import opened JsNumbers
  import opened Ports

  /** MOVING_ANIMATION_DURATION, in milliseconds. */
  const MovingAnimationDuration: nat := 300

  /** Slack the completion timer adds to the animation's duration. */
  const CompletionGrace: nat := 100

  /** The delay of the completion timer: the duration plus the slack. */
  const CompletionDelay: nat := MovingAnimationDuration + CompletionGrace

  datatype Direction = Down | Up

  /** A `.container` element: its DOM id and the height of its parent's layout box. */
  datatype Container = Container(id: string, parentHeight: nat)

  datatype Easing = Linear

  /** An element's inline transform: none (the empty string), or a vertical translation. */
  datatype Transform = NoTransform | TranslateY(offset: int)

  /** The observable steps of a handler, in the order they happen. */
  datatype Effect =
    | AwaitFrame                                                        // wait for the next animation frame
    | Animate(target: nat, translateY: int, duration: nat, easing: Easing)  // start a vertical slide
    | AwaitTimer(ms: nat)                                               // wait for a timer
    | Send(message: PortMessage)                                        // send a message into a port
    | ClearTransform(target: nat)                                       // empty an element's inline transform
    | ThrowTypeError                                                    // the callback dies on an undefined element

  /** The ids of the containers, in document order. */
  function Ids(containers: seq<Container>): seq<string>
  {
    seq(|containers|, k requires 0 <= k < |containers| => containers[k].id)
  }

  /** i is the first position of id in ids. */
  predicate IsFirstIndex(ids: seq<string>, id: string, i: int) {
    0 <= i < |ids| && ids[i] == id && forall k :: 0 <= k < i ==> ids[k] != id
  }

  /** Array indexOf: the first position of id, or -1 when it does not occur. */
  function IndexOf(ids: seq<string>, id: string): (i: int)
    ensures id in ids ==> IsFirstIndex(ids, id, i)
    ensures id !in ids ==> i == -1
  {
    if ids == [] then -1
    else if ids[0] == id then 0
    else
      var j := IndexOf(ids[1..], id);
      if j == -1 then -1 else j + 1
  }

  /** Array access: the element at position k, or undefined for any other k (negative ones included). */
  function ElementAt(containers: seq<Container>, k: int): Option<nat>
  {
    if 0 <= k < |containers| then Some(k) else None
  }

  /** (movingDownIndex, movingUpIndex) as each handler derives them from the index it looked up. */
  function MovingIndices(found: int, dir: Direction): (int, int) {
    match dir
    case Down => (found, found + 1)
    case Up => (found - 1, found)
  }

  /**
   * The pair of positions (moving down, moving up) that a move of `id`
   * animates, or None when either element is undefined.
   */
  function Resolve(ids: seq<string>, id: string, dir: Direction): (r: Option<(nat, nat)>)
    // the two elements are adjacent, the one moving down directly above
    ensures r.Some? ==> r.value.1 == r.value.0 + 1 < |ids|
    // the element named by the intent is the first container with that id
    ensures r.Some? ==> IsFirstIndex(ids, id, if dir == Down then r.value.0 else r.value.1)
  {
    var (d, u) := MovingIndices(IndexOf(ids, id), dir);
    if 0 <= d < |ids| && 0 <= u < |ids| then Some((d, u)) else None
  }

  /** The completion message of a move: the finished direction and `parseInt` of the id string. */
  function Completion(dir: Direction, id: string): PortMessage {
    match dir
    case Down => MovingDownFinished(ParseInt(id))
    case Up => MovingUpFinished(ParseInt(id))
  }

  /** The seven effects of `runMoveAnimation` once both elements are defined. */
  function MoveTrace(d: nat, u: nat, downHeight: nat, upHeight: nat, completion: PortMessage): seq<Effect> {
    [Animate(d, upHeight, MovingAnimationDuration, Linear),
     Animate(u, -(downHeight as int), MovingAnimationDuration, Linear),
     AwaitTimer(CompletionDelay),
     Send(completion),
     AwaitFrame,
     ClearTransform(d),
     ClearTransform(u)]
  }

  /** What runMoveAnimation does with the two elements; None stands for undefined. */
  function MoveAnimationEffects(containers: seq<Container>, movingDown: Option<nat>, movingUp: Option<nat>,
                                completion: PortMessage): seq<Effect>
    requires movingDown.Some? ==> movingDown.value < |containers|
    requires movingUp.Some? ==> movingUp.value < |containers|
  {
    if movingDown.None? || movingUp.None? then [ThrowTypeError]
    else
      var d, u := movingDown.value, movingUp.value;
      MoveTrace(d, u, containers[d].parentHeight, containers[u].parentHeight, completion)
  }

  /** What a port handler does with a move intent for `id`, on the given page. */
  function HandlerEffects(containers: seq<Container>, id: string, dir: Direction): seq<Effect> {
    var (d, u) := MovingIndices(IndexOf(Ids(containers), id), dir);
    [AwaitFrame] + MoveAnimationEffects(containers, ElementAt(containers, d), ElementAt(containers, u), Completion(dir, id))
  }

  /** The messages a trace sends, in order. */
  function Sends(effects: seq<Effect>): seq<PortMessage> {
    if effects == [] then []
    else (if effects[0].Send? then [effects[0].message] else []) + Sends(effects[1..])
  }

  /** The time a trace spends waiting on timers. */
  function Elapsed(effects: seq<Effect>): nat {
    if effects == [] then 0
    else (if effects[0].AwaitTimer? then effects[0].ms else 0) + Elapsed(effects[1..])
  }

  /** Whether an effect writes the inline transform of element x. */
  predicate Touches(e: Effect, x: nat) {
    (e.Animate? && e.target == x) || (e.ClearTransform? && e.target == x)
  }

  /** No effect of the trace animates or clears element x. */
  predicate Untouched(effects: seq<Effect>, x: nat) {
    forall k :: 0 <= k < |effects| ==> !Touches(effects[k], x)
  }

  /** The inline transforms after one effect; an animation is taken at its final value. */
  function Apply(ts: seq<Transform>, e: Effect): (r: seq<Transform>)
    ensures |r| == |ts|
  {
    match e
    case Animate(t, dy, _, _) => if t < |ts| then ts[t := TranslateY(dy)] else ts
    case ClearTransform(t) => if t < |ts| then ts[t := NoTransform] else ts
    case _ => ts
  }

  /** The inline transforms after a whole trace. */
  function ApplyAll(ts: seq<Transform>, effects: seq<Effect>): (r: seq<Transform>)
    ensures |r| == |ts|
    decreases |effects|
  {
    if effects == [] then ts else ApplyAll(Apply(ts, effects[0]), effects[1..])
  }

  lemma {:induction false} SendsAppend(a: seq<Effect>, b: seq<Effect>)
    ensures Sends(a + b) == Sends(a) + Sends(b)
  {
    if a != [] {
      assert (a + b)[1..] == a[1..] + b;
      SendsAppend(a[1..], b);
    } else {
      assert a + b == b;
    }
  }

  lemma {:induction false} SendsNone(effects: seq<Effect>)
    requires forall k :: 0 <= k < |effects| ==> !effects[k].Send?
    ensures Sends(effects) == []
  {
    if effects != [] {
      SendsNone(effects[1..]);
    }
  }

  /** A trace with a single Send at position s sends exactly that message. */
  lemma SendsExactlyOne(effects: seq<Effect>, s: nat)
    requires s < |effects| && effects[s].Send?
    requires forall k :: 0 <= k < |effects| && k != s ==> !effects[k].Send?
    ensures Sends(effects) == [effects[s].message]
  {
    var before, at, after := effects[..s], [effects[s]], effects[s + 1..];
    assert effects == before + at + after;
    SendsAppend(before + at, after);
    SendsAppend(before, at);
    SendsNone(before);
    SendsNone(after);
    assert at[1..] == [];
  }

  lemma {:induction false} ElapsedAppend(a: seq<Effect>, b: seq<Effect>)
    ensures Elapsed(a + b) == Elapsed(a) + Elapsed(b)
  {
    if a != [] {
      assert (a + b)[1..] == a[1..] + b;
      ElapsedAppend(a[1..], b);
    } else {
      assert a + b == b;
    }
  }

  lemma {:induction false} ApplyAllAppend(ts: seq<Transform>, a: seq<Effect>, b: seq<Effect>)
    ensures ApplyAll(ts, a + b) == ApplyAll(ApplyAll(ts, a), b)
    decreases |a|
  {
    if a != [] {
      assert (a + b)[1..] == a[1..] + b;
      ApplyAllAppend(Apply(ts, a[0]), a[1..], b);
    } else {
      assert a + b == b;
    }
  }

  /** An element no effect of the trace touches keeps its inline transform. */
  lemma {:induction false} ApplyAllUntouched(ts: seq<Transform>, effects: seq<Effect>, x: nat)
    requires x < |ts|
    requires Untouched(effects, x)
    ensures ApplyAll(ts, effects)[x] == ts[x]
    decreases |effects|
  {
    if effects != [] {
      ApplyAllUntouched(Apply(ts, effects[0]), effects[1..], x);
    }
  }

  /** runMoveAnimation: measure, start both slides, and schedule the completion and the clean-up. */
  method RunMoveAnimation(containers: seq<Container>, movingDown: Option<nat>, movingUp: Option<nat>,
                          completion: PortMessage) returns (effects: seq<Effect>)
    requires movingDown.Some? ==> movingDown.value < |containers|
    requires movingUp.Some? ==> movingUp.value < |containers|
    ensures effects == MoveAnimationEffects(containers, movingDown, movingUp, completion)
    ensures Sends(effects) == if movingDown.Some? && movingUp.Some? then [completion] else []
  {
    if movingDown.None? {
      effects := [ThrowTypeError];
      assert Sends(effects) == Sends([]);
      return;
    }
    var d := movingDown.value;
    var movingDownHeight := containers[d].parentHeight;
    if movingUp.None? {
      effects := [ThrowTypeError];
      assert Sends(effects) == Sends([]);
      return;
    }
    var u := movingUp.value;
    var movingUpHeight := containers[u].parentHeight;
    effects := [Animate(d, movingUpHeight, MovingAnimationDuration, Linear)];
    effects := effects + [Animate(u, -(movingDownHeight as int), MovingAnimationDuration, Linear)];
    // the timer callback sends the completion, then clears both transforms on the next frame
    effects := effects + [AwaitTimer(CompletionDelay)];
    effects := effects + [Send(completion)];
    effects := effects + [AwaitFrame, ClearTransform(d), ClearTransform(u)];
    SendsExactlyOne(effects, 3);
  }

  /** A port handler: wait for the next frame, look up both elements, and run the animation. */
  method HandleMove(containers: seq<Container>, id: string, dir: Direction) returns (effects: seq<Effect>)
    ensures effects == HandlerEffects(containers, id, dir)
    ensures Sends(effects) == if Resolve(Ids(containers), id, dir).Some? then [Completion(dir, id)] else []
  {
    effects := [AwaitFrame];
    var allContainersIds := Ids(containers);
    var found := IndexOf(allContainersIds, id);
    var movingDownIndex, movingUpIndex;
    match dir {
      case Down =>
        movingDownIndex := found;
        movingUpIndex := movingDownIndex + 1;
      case Up =>
        movingUpIndex := found;
        movingDownIndex := movingUpIndex - 1;
    }
    assert (movingDownIndex, movingUpIndex) == MovingIndices(found, dir);
    var movingDown := ElementAt(containers, movingDownIndex);
    var movingUp := ElementAt(containers, movingUpIndex);
    var rest := RunMoveAnimation(containers, movingDown, movingUp, Completion(dir, id));
    effects := effects + rest;
    HandlerSendsOneCompletionIffResolved(containers, id, dir);
  }

  /** The first position of an id is unique. */
  lemma FirstIndexUnique(ids: seq<string>, id: string, i: int, j: int)
    requires IsFirstIndex(ids, id, i) && IsFirstIndex(ids, id, j)
    ensures i == j
  {
  }

  /** Moving down the container first found at i pairs it with the container just below it. */
  lemma MoveDownResolvesFirstOccurrence(ids: seq<string>, id: string, i: nat)
    requires IsFirstIndex(ids, id, i) && i + 1 < |ids|
    ensures Resolve(ids, id, Down) == Some((i, i + 1))
  {
    FirstIndexUnique(ids, id, i, IndexOf(ids, id));
  }

  /** Moving up the container first found at j pairs the container just above it with it. */
  lemma MoveUpResolvesFirstOccurrence(ids: seq<string>, id: string, j: nat)
    requires IsFirstIndex(ids, id, j) && 1 <= j
    ensures Resolve(ids, id, Up) == Some((j - 1, j))
  {
    FirstIndexUnique(ids, id, j, IndexOf(ids, id));
  }

  /**
   * A move resolves to no pair in exactly four cases: moving down the last
   * container, moving up the first one, or moving either way an id that is
   * not on the page.
   */
  lemma UnresolvedCases(ids: seq<string>, id: string, dir: Direction)
    ensures Resolve(ids, id, dir).None? <==>
              id !in ids
              || (dir == Down && IsFirstIndex(ids, id, |ids| - 1))
              || (dir == Up && IsFirstIndex(ids, id, 0))
  {
    var i := IndexOf(ids, id);
    if id in ids {
      if dir == Down && IsFirstIndex(ids, id, |ids| - 1) {
        FirstIndexUnique(ids, id, i, |ids| - 1);
      }
      if dir == Up && IsFirstIndex(ids, id, 0) {
        FirstIndexUnique(ids, id, i, 0);
      }
    }
  }

  /** The handler's trace when the move resolves to (d, u). */
  lemma HandlerEffectsResolved(containers: seq<Container>, id: string, dir: Direction, d: nat, u: nat)
    requires Resolve(Ids(containers), id, dir) == Some((d, u))
    ensures d < |containers| && u < |containers|
    ensures HandlerEffects(containers, id, dir) ==
              [AwaitFrame] + MoveTrace(d, u, containers[d].parentHeight, containers[u].parentHeight, Completion(dir, id))
  {
  }

  /**
   * The handler's two array reads both give an element exactly when the move
   * resolves, and then they give the two resolved positions.
   */
  lemma ElementsDefinedIffResolved(containers: seq<Container>, id: string, dir: Direction)
    ensures var (d, u) := MovingIndices(IndexOf(Ids(containers), id), dir);
            var r := Resolve(Ids(containers), id, dir);
            (ElementAt(containers, d).Some? && ElementAt(containers, u).Some? <==> r.Some?)
            && (r.Some? ==> ElementAt(containers, d) == Some(r.value.0) && ElementAt(containers, u) == Some(r.value.1))
  {
  }

  /** The handler's trace when the move does not resolve: the frame callback throws before doing anything. */
  lemma HandlerEffectsUnresolved(containers: seq<Container>, id: string, dir: Direction)
    requires Resolve(Ids(containers), id, dir).None?
    ensures HandlerEffects(containers, id, dir) == [AwaitFrame, ThrowTypeError]
  {
  }

  /**
   * Every send comes after every slide, each slide is linear and of the fixed
   * duration, and the time waited from its start to the send is that duration
   * plus the grace period.
   */
  predicate SendsAfterSlides(es: seq<Effect>) {
    forall a, s :: 0 <= a < |es| && 0 <= s < |es| && es[a].Animate? && es[s].Send? ==>
      a < s && es[a].duration == MovingAnimationDuration && es[a].easing == Linear
      && Elapsed(es[a..s]) == es[a].duration + CompletionGrace
  }

  /** No transform is cleared before a send. */
  predicate ClearsAfterSends(es: seq<Effect>) {
    forall c, s :: 0 <= c < |es| && 0 <= s < |es| && es[c].ClearTransform? && es[s].Send? ==> s < c
  }

  /** Where each kind of effect sits in the trace of a resolved move. */
  lemma ResolvedTraceKinds(es: seq<Effect>, d: nat, u: nat, downHeight: nat, upHeight: nat, completion: PortMessage)
    requires es == [AwaitFrame] + MoveTrace(d, u, downHeight, upHeight, completion)
    ensures forall k :: 0 <= k < |es| ==> (es[k].Send? <==> k == 4)
    ensures forall k :: 0 <= k < |es| ==> (es[k].Animate? <==> k == 1 || k == 2)
    ensures forall k :: 0 <= k < |es| ==> (es[k].ClearTransform? <==> k == 6 || k == 7)
  {
    forall k | 0 <= k < |es|
      ensures es[k].Send? <==> k == 4
      ensures es[k].Animate? <==> k == 1 || k == 2
      ensures es[k].ClearTransform? <==> k == 6 || k == 7
    {
      assert k == 0 || k == 1 || k == 2 || k == 3 || k == 4 || k == 5 || k == 6 || k == 7;
    }
  }

  /** The trace of a move that does not resolve holds no send. */
  lemma UnresolvedTraceSendsNothing(es: seq<Effect>)
    requires es == [AwaitFrame, ThrowTypeError]
    ensures forall k :: 0 <= k < |es| ==> !es[k].Send?
    ensures SendsAfterSlides(es) && ClearsAfterSends(es)
  {
    forall k | 0 <= k < |es| ensures !es[k].Send? {
      assert k == 0 || k == 1;
    }
  }

  /** Sends of the trace of a resolved move. */
  lemma ResolvedTraceSends(es: seq<Effect>, d: nat, u: nat, downHeight: nat, upHeight: nat, completion: PortMessage)
    requires es == [AwaitFrame] + MoveTrace(d, u, downHeight, upHeight, completion)
    ensures Sends(es) == [completion]
  {
    ResolvedTraceKinds(es, d, u, downHeight, upHeight, completion);
    SendsExactlyOne(es, 4);
  }

  /**
   * A move intent sends exactly one completion, on the port of its direction
   * and carrying parseInt of the id, when it resolves, and none otherwise.
   */
  lemma HandlerSendsOneCompletionIffResolved(containers: seq<Container>, id: string, dir: Direction)
    ensures Sends(HandlerEffects(containers, id, dir)) ==
              if Resolve(Ids(containers), id, dir).Some? then [Completion(dir, id)] else []
  {
    var r := Resolve(Ids(containers), id, dir);
    if r.Some? {
      var (d, u) := r.value;
      HandlerEffectsResolved(containers, id, dir, d, u);
      ResolvedTraceSends(HandlerEffects(containers, id, dir), d, u, containers[d].parentHeight,
                         containers[u].parentHeight, Completion(dir, id));
    } else {
      HandlerEffectsUnresolved(containers, id, dir);
      var es := HandlerEffects(containers, id, dir);
      SendsNone(es);
    }
  }

  /** Timing and ordering in the trace of a resolved move. */
  lemma ResolvedTraceTiming(es: seq<Effect>, d: nat, u: nat, downHeight: nat, upHeight: nat, completion: PortMessage)
    requires es == [AwaitFrame] + MoveTrace(d, u, downHeight, upHeight, completion)
    ensures SendsAfterSlides(es)
    ensures ClearsAfterSends(es)
  {
    assert Elapsed(es[2..4]) == CompletionDelay by {
      assert es[2..4] == [es[2]] + [es[3]];
      ElapsedAppend([es[2]], [es[3]]);
      assert [es[2]][1..] == [] && [es[3]][1..] == [];
    }
    assert Elapsed(es[1..4]) == CompletionDelay by {
      assert es[1..4] == [es[1]] + es[2..4];
      ElapsedAppend([es[1]], es[2..4]);
      assert [es[1]][1..] == [];
    }
    ResolvedTraceKinds(es, d, u, downHeight, upHeight, completion);
    assert es[1].duration == MovingAnimationDuration && es[1].easing == Linear;
    assert es[2].duration == MovingAnimationDuration && es[2].easing == Linear;
  }

  /**
   * The completion is sent only after both slides (linear, of the fixed
   * duration) have run to their end plus the slack, and the transforms are
   * cleared only after it.
   */
  lemma CompletionAfterAnimations(containers: seq<Container>, id: string, dir: Direction)
    ensures SendsAfterSlides(HandlerEffects(containers, id, dir))
    ensures ClearsAfterSends(HandlerEffects(containers, id, dir))
  {
    var es := HandlerEffects(containers, id, dir);
    var r := Resolve(Ids(containers), id, dir);
    if r.Some? {
      var d, u := r.value.0, r.value.1;
      HandlerEffectsResolved(containers, id, dir, d, u);
      var downHeight, upHeight := containers[d].parentHeight, containers[u].parentHeight;
      ResolvedTraceTiming(es, d, u, downHeight, upHeight, Completion(dir, id));
    } else {
      HandlerEffectsUnresolved(containers, id, dir);
      UnresolvedTraceSendsNothing(es);
    }
  }

  lemma ApplyAllPair(ts: seq<Transform>, e1: Effect, e2: Effect)
    ensures ApplyAll(ts, [e1, e2]) == Apply(Apply(ts, e1), e2)
  {
    assert [e1, e2][1..] == [e2] && [e2][1..] == [];
    assert ApplyAll(Apply(ts, e1), [e2]) == ApplyAll(Apply(Apply(ts, e1), e2), []);
  }

  /** The first frame and the slide of the element moving down. */
  lemma SlideDownStep(ts: seq<Transform>, d: nat, upHeight: nat)
    requires d < |ts|
    ensures ApplyAll(ts, [AwaitFrame, Animate(d, upHeight, MovingAnimationDuration, Linear)])
            == ts[d := TranslateY(upHeight)]
  {
    ApplyAllPair(ts, AwaitFrame, Animate(d, upHeight, MovingAnimationDuration, Linear));
  }

  /** The slide of the element moving up, then the wait for the completion timer. */
  lemma SlideUpStep(ts: seq<Transform>, u: nat, dy: int)
    requires u < |ts|
    ensures ApplyAll(ts, [Animate(u, dy, MovingAnimationDuration, Linear), AwaitTimer(CompletionDelay)])
            == ts[u := TranslateY(dy)]
  {
    ApplyAllPair(ts, Animate(u, dy, MovingAnimationDuration, Linear), AwaitTimer(CompletionDelay));
  }

  /** The first four effects of a resolved move: a frame, the two slides, the completion timer. */
  lemma ResolvedTracePrefix(es: seq<Effect>, d: nat, u: nat, downHeight: nat, upHeight: nat,
                            completion: PortMessage)
    requires es == [AwaitFrame] + MoveTrace(d, u, downHeight, upHeight, completion)
    ensures es[..4] == [AwaitFrame, Animate(d, upHeight, MovingAnimationDuration, Linear)]
                       + [Animate(u, -(downHeight as int), MovingAnimationDuration, Linear), AwaitTimer(CompletionDelay)]
  {
    assert es[1] == Animate(d, upHeight, MovingAnimationDuration, Linear);
    assert es[2] == Animate(u, -(downHeight as int), MovingAnimationDuration, Linear);
  }

  /** The slide down, then the slide up: the two elements trade their offsets. */
  lemma SlidesSwap(prefix: seq<Effect>, d: nat, u: nat, downHeight: nat, upHeight: nat, ts: seq<Transform>)
    requires prefix == [AwaitFrame, Animate(d, upHeight, MovingAnimationDuration, Linear)]
                       + [Animate(u, -(downHeight as int), MovingAnimationDuration, Linear), AwaitTimer(CompletionDelay)]
    requires d < |ts| && u < |ts| && d != u
    ensures ApplyAll(ts, prefix)[d] == TranslateY(upHeight)
    ensures ApplyAll(ts, prefix)[u] == TranslateY(-(downHeight as int))
  {
    var slideDown := [AwaitFrame, Animate(d, upHeight, MovingAnimationDuration, Linear)];
    var slideUp := [Animate(u, -(downHeight as int), MovingAnimationDuration, Linear), AwaitTimer(CompletionDelay)];
    var afterDown := ts[d := TranslateY(upHeight)];
    SlideDownStep(ts, d, upHeight);
    SlideUpStep(afterDown, u, -(downHeight as int));
    ApplyAllAppend(ts, slideDown, slideUp);
    assert ApplyAll(ts, prefix) == afterDown[u := TranslateY(-(downHeight as int))];
  }

  /** The two slides of a resolved move, and nothing else before its completion. */
  lemma ResolvedTraceSwapped(es: seq<Effect>, d: nat, u: nat, downHeight: nat, upHeight: nat,
                             completion: PortMessage, ts: seq<Transform>)
    requires es == [AwaitFrame] + MoveTrace(d, u, downHeight, upHeight, completion)
    requires d < |ts| && u < |ts| && d != u
    ensures ApplyAll(ts, es[..4])[d] == TranslateY(upHeight)
    ensures ApplyAll(ts, es[..4])[u] == TranslateY(-(downHeight as int))
  {
    ResolvedTracePrefix(es, d, u, downHeight, upHeight, completion);
    SlidesSwap(es[..4], d, u, downHeight, upHeight, ts);
  }

  /** The inline transforms of elements d and u at every send of a trace. */
  predicate TransformsAtSends(ts: seq<Transform>, es: seq<Effect>, d: nat, u: nat, atDown: Transform, atUp: Transform) {
    d < |ts| && u < |ts| &&
    forall s {:trigger ApplyAll(ts, es[..s])} :: 0 <= s < |es| && es[s].Send? ==>
      ApplyAll(ts, es[..s])[d] == atDown && ApplyAll(ts, es[..s])[u] == atUp
  }

  /** After the trace, elements d and u carry no inline transform. */
  predicate ClearedAtEnd(ts: seq<Transform>, es: seq<Effect>, d: nat, u: nat) {
    d < |ts| && u < |ts| && ApplyAll(ts, es)[d] == NoTransform && ApplyAll(ts, es)[u] == NoTransform
  }

  /** At the send of a resolved move both slides have been applied; at its end both are undone. */
  lemma ResolvedTraceSwappedAtSend(es: seq<Effect>, d: nat, u: nat, downHeight: nat, upHeight: nat,
                                   completion: PortMessage, ts: seq<Transform>)
    requires es == [AwaitFrame] + MoveTrace(d, u, downHeight, upHeight, completion)
    requires d < |ts| && u < |ts| && d != u
    ensures TransformsAtSends(ts, es, d, u, TranslateY(upHeight), TranslateY(-(downHeight as int)))
    ensures ClearedAtEnd(ts, es, d, u)
  {
    ResolvedTraceSwapped(es, d, u, downHeight, upHeight, completion, ts);
    ResolvedTraceKinds(es, d, u, downHeight, upHeight, completion);
    ResolvedTraceCleared(es, d, u, downHeight, upHeight, completion, ts);
  }

  /** The clean-up at the end of a resolved move empties both inline transforms. */
  lemma ResolvedTraceCleared(es: seq<Effect>, d: nat, u: nat, downHeight: nat, upHeight: nat,
                             completion: PortMessage, ts: seq<Transform>)
    requires es == [AwaitFrame] + MoveTrace(d, u, downHeight, upHeight, completion)
    requires d < |ts| && u < |ts|
    ensures ClearedAtEnd(ts, es, d, u)
  {
    var e6, e7 := es[6], es[7];
    assert e6 == ClearTransform(d) && e7 == ClearTransform(u);
    var t6 := ApplyAll(ts, es[..6]);
    ApplyAllPair(t6, e6, e7);
    assert es == es[..6] + [e6, e7];
    ApplyAllAppend(ts, es[..6], [e6, e7]);
  }

  /** At the send of a resolved move, both elements stand translated to each other's place. */
  lemma HandlerSwappedAtSend(containers: seq<Container>, id: string, dir: Direction,
                             ts: seq<Transform>, d: nat, u: nat)
    requires |ts| == |containers|
    requires Resolve(Ids(containers), id, dir) == Some((d, u))
    ensures TransformsAtSends(ts, HandlerEffects(containers, id, dir), d, u,
                              TranslateY(containers[u].parentHeight), TranslateY(-(containers[d].parentHeight as int)))
  {
    HandlerEffectsResolved(containers, id, dir, d, u);
    var downHeight, upHeight := containers[d].parentHeight, containers[u].parentHeight;
    var completion := Completion(dir, id);
    var es := [AwaitFrame] + MoveTrace(d, u, downHeight, upHeight, completion);
    ResolvedTraceSwappedAtSend(es, d, u, downHeight, upHeight, completion, ts);
    assert HandlerEffects(containers, id, dir) == es;
  }

  /** At the end of a resolved move, neither element keeps an inline transform. */
  lemma HandlerClearedAtEnd(containers: seq<Container>, id: string, dir: Direction,
                            ts: seq<Transform>, d: nat, u: nat)
    requires |ts| == |containers|
    requires Resolve(Ids(containers), id, dir) == Some((d, u))
    ensures ClearedAtEnd(ts, HandlerEffects(containers, id, dir), d, u)
  {
    HandlerEffectsResolved(containers, id, dir, d, u);
    var es := [AwaitFrame] + MoveTrace(d, u, containers[d].parentHeight, containers[u].parentHeight, Completion(dir, id));
    ResolvedTraceCleared(es, d, u, containers[d].parentHeight, containers[u].parentHeight, Completion(dir, id), ts);
  }

  /**
   * When the completion is sent, the container moving down stands lowered by
   * the height of the one below it, and that one raised by the height of the
   * first: the two look swapped. At the end both inline transforms are empty.
   */
  lemma SwappedAtCompletionThenCleared(containers: seq<Container>, id: string, dir: Direction,
                                       ts: seq<Transform>, d: nat, u: nat)
    requires |ts| == |containers|
    requires Resolve(Ids(containers), id, dir) == Some((d, u))
    ensures TransformsAtSends(ts, HandlerEffects(containers, id, dir), d, u,
                              TranslateY(containers[u].parentHeight), TranslateY(-(containers[d].parentHeight as int)))
    ensures ClearedAtEnd(ts, HandlerEffects(containers, id, dir), d, u)
  {
    HandlerSwappedAtSend(containers, id, dir, ts, d, u);
    HandlerClearedAtEnd(containers, id, dir, ts, d, u);
  }

  /** A resolved move animates and clears only its two elements. */
  lemma ResolvedTraceTouchesOnlyMoved(es: seq<Effect>, d: nat, u: nat, downHeight: nat, upHeight: nat,
                                      completion: PortMessage, x: nat)
    requires es == [AwaitFrame] + MoveTrace(d, u, downHeight, upHeight, completion)
    requires x != d && x != u
    ensures Untouched(es, x)
  {
    forall j | 0 <= j < |es| ensures !Touches(es[j], x) {
      assert j == 0 || j == 1 || j == 2 || j == 3 || j == 4 || j == 5 || j == 6 || j == 7;
    }
  }

  /** A move that does not resolve animates and clears nothing. */
  lemma UnresolvedTraceTouchesNothing(es: seq<Effect>, x: nat)
    requires es == [AwaitFrame, ThrowTypeError]
    ensures Untouched(es, x)
  {
    forall j | 0 <= j < |es| ensures !Touches(es[j], x) {
      assert j == 0 || j == 1;
    }
  }

  lemma UntouchedPrefix(es: seq<Effect>, k: nat, x: nat)
    requires Untouched(es, x) && k <= |es|
    ensures Untouched(es[..k], x)
  {
    assert forall j :: 0 <= j < k ==> es[..k][j] == es[j];
  }

  /**
   * The handlers change the inline transform of no element but the two they
   * move, at any point of their trace (and of none when the move does not
   * resolve); the container list itself is only read.
   */
  lemma OnlyMovedElementsChange(containers: seq<Container>, id: string, dir: Direction,
                                ts: seq<Transform>, k: nat, x: nat)
    requires |ts| == |containers| && x < |ts|
    requires k <= |HandlerEffects(containers, id, dir)|
    requires Resolve(Ids(containers), id, dir).Some? ==>
               x != Resolve(Ids(containers), id, dir).value.0 && x != Resolve(Ids(containers), id, dir).value.1
    ensures ApplyAll(ts, HandlerEffects(containers, id, dir)[..k])[x] == ts[x]
  {
    var es := HandlerEffects(containers, id, dir);
    var r := Resolve(Ids(containers), id, dir);
    if r.Some? {
      var d, u := r.value.0, r.value.1;
      HandlerEffectsResolved(containers, id, dir, d, u);
      var trace := [AwaitFrame] + MoveTrace(d, u, containers[d].parentHeight, containers[u].parentHeight, Completion(dir, id));
      ResolvedTraceTouchesOnlyMoved(trace, d, u, containers[d].parentHeight, containers[u].parentHeight,
                                    Completion(dir, id), x);
    } else {
      HandlerEffectsUnresolved(containers, id, dir);
      UnresolvedTraceTouchesNothing([AwaitFrame, ThrowTypeError], x);
    }
    UntouchedPrefix(es, k, x);
    ApplyAllUntouched(ts, es[..k], x);
  }

  /** Containers "1", "2", "3": moving "1" down reports movingDownFinished(1). */
  lemma MoveDownFirstOfThree(h1: nat, h2: nat, h3: nat)
    ensures Sends(HandlerEffects([Container("1", h1), Container("2", h2), Container("3", h3)], "1", Down))
            == [MovingDownFinished(Num(1))]
  {
    var containers := [Container("1", h1), Container("2", h2), Container("3", h3)];
    MoveDownResolvesFirstOccurrence(Ids(containers), "1", 0);
    HandlerSendsOneCompletionIffResolved(containers, "1", Down);
    ParseIntShowInt(1);
    assert ShowInt(1) == "1";
  }

  /** Containers "1", "2", "3": moving "1" up (it is already first) reports nothing. */
  lemma MoveUpFirstOfThree(h1: nat, h2: nat, h3: nat)
    ensures Sends(HandlerEffects([Container("1", h1), Container("2", h2), Container("3", h3)], "1", Up)) == []
  {
    var containers := [Container("1", h1), Container("2", h2), Container("3", h3)];
    UnresolvedCases(Ids(containers), "1", Up);
    HandlerSendsOneCompletionIffResolved(containers, "1", Up);
  }
}
