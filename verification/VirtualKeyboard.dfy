/**
 The virtual keyboard's press, hold, sticky and release logic from frame to
 frame, as functions on its state, with the laws that every run obeys. The
 class `Vkbd` runs the same logic on the fields.
 */
module VirtualKeyboard {

  /** No key. */
  const NONE: int := -1
  const CAPSLOCK: int := 301
  const VKBD_RESET: int := -3
  const VKBD_CAPSLOCK: int := -10
  const VKBD_MOUSE_MMB: int := -17

  /** Holding the button longer than this, in milliseconds, makes the key stick. */
  const STICKY_HOLDING_TIME: int := 1000

  /** Keys of the emulated keyboard that are simply held down. */
  predicate Ordinary(key: int) { key > 0 && key != CAPSLOCK }

  /** Keys that switch pages, move the mouse or call a function of the emulator. */
  predicate Special(key: int) { VKBD_MOUSE_MMB <= key < NONE && key != VKBD_RESET }

  datatype Keys = Keys(
    button: bool,        // the button is down
    pressed: int,        // the key it presses
    last: int,           // the last key it pressed, until it has been let go
    sticking: bool,      // it has been held long enough
    sticky1: int, sticky2: int,
    release1: bool, release2: bool,
    letGo: bool, pressTime: int,
    held: set<int>       // keys that are down
  )

  /** The state at the start; its sticking flag counts as set. */
  const INITIAL := Keys(false, NONE, NONE, true, NONE, NONE, false, false, true, 0, {})

  /** The last key pressed becomes sticky; as a third one it takes the second's place. */
  function Stick(k: Keys): Keys {
    if k.sticking && k.last > 0 then
      if k.sticky1 > NONE && k.sticky1 != k.last then
        k.(held := if k.sticky2 > NONE && k.sticky2 != k.last then k.held - {k.sticky2} else k.held,
           sticky2 := k.last)
      else k.(sticky1 := k.last)
    else k
  }

  /** Once the button is up, a key that is not sticky goes up. */
  function Released(k: Keys): Keys {
    if k.last != NONE && !k.button then
      k.(held := if k.pressed == NONE && k.last >= 0 && k.last != k.sticky1 && k.last != k.sticky2
                 then k.held - {k.last} else k.held,
         last := NONE)
    else k
  }

  /** Sticky keys that were pressed again stop being sticky. */
  function Unstick(k: Keys): Keys {
    k.(sticky1 := if k.release1 then NONE else k.sticky1, release1 := false,
       sticky2 := if k.release2 then NONE else k.sticky2, release2 := false)
  }

  function StickyPhase(k: Keys): Keys { Unstick(Released(Stick(k))) }

  /** The button goes down over a key. */
  function Press(k: Keys, key: int): Keys {
    if key == NONE || k.last != NONE then k.(button := true, pressed := key, last := key)
    else if key == VKBD_CAPSLOCK then
      k.(button := true, pressed := key, last := key, held := k.held + {CAPSLOCK} - {CAPSLOCK})
    else if key < 0 then k.(button := true, pressed := key, last := key)
    else
      k.(button := true, pressed := key, last := key,
         release1 := k.release1 || key == k.sticky1, release2 := k.release2 || key == k.sticky2,
         held := if key != k.sticky1 && key != k.sticky2 then k.held + {key} else k.held)
  }

  /** The time the button has been down decides whether its key sticks. */
  function Timing(k: Keys, now: int): Keys {
    if k.button && k.pressed > 0 then
      var since := if k.letGo then now else k.pressTime;
      k.(pressTime := since, sticking := k.sticking || now - since > STICKY_HOLDING_TIME, letGo := false)
    else k.(letGo := true, sticking := false)
  }

  function ButtonPhase(k: Keys, down: bool, key: int, now: int): Keys {
    var b := if !k.button && down then Press(k, key)
             else if k.button && !down then k.(pressed := NONE, button := false)
             else k;
    Timing(b, now)
  }

  /**
   One frame: with the keyboard hidden or busy only the sticky keys are looked
   after; otherwise the button is up or down, over some key, at some time.
   */
  datatype Frame = Hidden | Shown(down: bool, key: int, now: int)

  predicate InScope(f: Frame) { f.Shown? ==> Ordinary(f.key) || Special(f.key) }

  function NextFrame(k: Keys, f: Frame): Keys {
    match f
    case Hidden => StickyPhase(k)
    case Shown(down, key, now) => ButtonPhase(StickyPhase(k), down, key, now)
  }

  function Run(k: Keys, frames: seq<Frame>): Keys
    decreases |frames|
  {
    if frames == [] then k else Run(NextFrame(k, frames[0]), frames[1..])
  }

  // ----- no key is stuck -----

  function One(key: int): set<int> { if key > 0 then {key} else {} }

  predicate StickyOrNone(key: int) { key == NONE || Ordinary(key) }

  /** The keys held down are the sticky ones and the last key pressed, until it is let go. */
  predicate NoneStuck(k: Keys) {
    k.held == One(k.sticky1) + One(k.sticky2) + One(k.last)
  }

  predicate Valid(k: Keys) {
    && NoneStuck(k)
    && StickyOrNone(k.sticky1) && StickyOrNone(k.sticky2)
    && (k.last == NONE || Ordinary(k.last) || Special(k.last))
    && (k.sticky1 != NONE ==> k.sticky1 != k.sticky2)
    && k.pressed == (if k.button then k.last else NONE)
    && (k.release1 ==> k.button && k.last == k.sticky1 > 0)
    && (k.release2 ==> k.button && k.last == k.sticky2 > 0)
    && (k.last > 0 && k.last == k.sticky2 && !k.release2 ==> k.sticky1 > 0)
    && (k.release1 || k.release2 ==> !k.sticking)
    && (!k.button ==> k.letGo && (k.sticking ==> k.last == k.sticky1 == k.sticky2 == NONE))
  }

  lemma StickyPhaseKeeps(k: Keys)
    requires Valid(k)
    ensures Valid(StickyPhase(k)) && !StickyPhase(k).release1 && !StickyPhase(k).release2
    ensures !k.button ==> StickyPhase(k).last == NONE
  {
  }

  lemma ButtonPhaseKeeps(k: Keys, down: bool, key: int, now: int)
    requires Valid(k) && !k.release1 && !k.release2 && (!k.button ==> k.last == NONE)
    requires Ordinary(key) || Special(key)
    ensures Valid(ButtonPhase(k, down, key, now))
  {
  }

  /** Over every run of frames the keys held down are exactly the sticky ones and the last one not yet let go. */
  lemma {:induction false} NoStuckKeys(k: Keys, frames: seq<Frame>)
    requires Valid(k) && forall i | 0 <= i < |frames| :: InScope(frames[i])
    ensures Valid(Run(k, frames))
    decreases |frames|
  {
    if frames != [] {
      StickyPhaseKeeps(k);
      var f := frames[0];
      if f.Shown? {
        ButtonPhaseKeeps(StickyPhase(k), f.down, f.key, f.now);
      }
      NoStuckKeys(NextFrame(k, f), frames[1..]);
    }
  }

  /** From the start, in particular. */
  lemma NoStuckKeysEver(frames: seq<Frame>)
    requires forall i | 0 <= i < |frames| :: InScope(frames[i])
    ensures NoneStuck(Run(INITIAL, frames))
  {
    NoStuckKeys(INITIAL, frames);
  }

  /** While the button stays up nothing changes but the times. */
  lemma UpKeeps(k: Keys, key: int, now: int)
    requires !k.button && k.last == NONE
    ensures var r := ButtonPhase(k, false, key, now);
      r.held == k.held && r.sticky1 == k.sticky1 && r.sticky2 == k.sticky2
  {
  }

  lemma SeenUp(k: Keys, key: int, now: int)
    requires Valid(k) && InScope(Shown(false, key, now))
    ensures var up := NextFrame(k, Shown(false, key, now)); Valid(up) && !up.button
  {
    StickyPhaseKeeps(k);
    ButtonPhaseKeeps(StickyPhase(k), false, key, now);
  }

  /** A frame after the button was seen up, only the sticky keys are down. */
  lemma LetGoMeansUp(k: Keys, key: int, now: int, next: Frame)
    requires Valid(k) && InScope(Shown(false, key, now)) && (next.Shown? ==> !next.down)
    ensures var r := NextFrame(NextFrame(k, Shown(false, key, now)), next);
      r.held == One(r.sticky1) + One(r.sticky2)
  {
    var up := NextFrame(k, Shown(false, key, now));
    SeenUp(k, key, now);
    StickyPhaseKeeps(up);
    if next.Shown? {
      UpKeeps(StickyPhase(up), next.key, next.now);
    }
  }

  /** Sticking a third key releases the second, and only that one. */
  lemma ThirdReleasesSecond(k: Keys)
    requires Valid(k) && k.sticking && k.button && !k.release1 && !k.release2
    requires k.last > 0 && k.sticky1 > 0 && k.sticky2 > 0 && k.last != k.sticky1 && k.last != k.sticky2
    ensures var r := StickyPhase(k);
      && r.sticky1 == k.sticky1 && r.sticky2 == k.last
      && r.held == {k.sticky1, k.last} == k.held - {k.sticky2} && k.sticky2 in k.held
  {
  }

  /** Pressing a sticky key again and letting go releases it, whichever of the two it is. */
  lemma StickyPressedAgainGoesUp(k: Keys, key: int, t0: int, t1: int, next: Frame)
    requires Valid(k) && !k.button && k.last == NONE && !k.release1 && !k.release2
    requires Ordinary(key) && key in {k.sticky1, k.sticky2}
    requires InScope(next) && (next.Shown? ==> !next.down)
    ensures key in k.held
    ensures var r := NextFrame(NextFrame(NextFrame(k, Shown(true, key, t0)), Shown(false, key, t1)), next);
      && key !in r.held && r.held == k.held - {key}
      && (key == k.sticky1 ==> r.sticky1 == NONE && r.sticky2 == k.sticky2)
      && (key == k.sticky2 ==> r.sticky2 == NONE && r.sticky1 == k.sticky1)
  {
    var down := NextFrame(k, Shown(true, key, t0));
    assert StickyPhase(k) == k;
    assert down.held == k.held && down.last == down.pressed == key && down.button;
    assert down.sticky1 == k.sticky1 && down.sticky2 == k.sticky2;
    var up := NextFrame(down, Shown(false, key, t1));
    assert up.held == k.held && up.last == key && !up.button && up.pressed == NONE && !up.sticking;
  }

  // ----- showing and hiding the keyboard -----

  /** The keyboard on or off the screen; it waits until `ready` is 1 before it takes the button. */
  datatype Board = Board(keys: Keys, shown: bool, ready: int) {
    predicate Busy() { !shown || ready < 1 }
  }

  /** A request to show or hide it, or a frame: whether all inputs are up, and the button over some key. */
  datatype Event = Toggle | Tick(idle: bool, down: bool, key: int, now: int)

  const START := Board(INITIAL, false, 0)

  function Waited(ready: int, idle: bool): int {
    if ready < 0 || (ready == 0 && idle) then ready + 1 else ready
  }

  function NextBoard(b: Board, e: Event): Board {
    match e
    case Toggle => if b.keys.button then b else b.(shown := !b.shown, ready := -2)
    case Tick(idle, down, key, now) =>
      if !b.shown then b.(keys := NextFrame(b.keys, Hidden))
      else if b.ready < 1 then b.(keys := NextFrame(b.keys, Hidden), ready := Waited(b.ready, idle))
      else b.(keys := NextFrame(b.keys, Shown(down, key, now)))
  }

  function RunBoard(b: Board, events: seq<Event>): Board
    decreases |events|
  {
    if events == [] then b else RunBoard(NextBoard(b, events[0]), events[1..])
  }

  predicate InReach(e: Event) { e.Tick? ==> InScope(Shown(e.down, e.key, e.now)) }

  /** While the keyboard is hidden or waits, the button counts as up. */
  predicate ValidBoard(b: Board) { Valid(b.keys) && (b.Busy() ==> !b.keys.button) }

  lemma BoardKeeps(b: Board, e: Event)
    requires ValidBoard(b) && InReach(e)
    ensures ValidBoard(NextBoard(b, e))
  {
    if e.Tick? {
      StickyPhaseKeeps(b.keys);
      if !b.Busy() {
        ButtonPhaseKeeps(StickyPhase(b.keys), e.down, e.key, e.now);
      }
    }
  }

  /** Over every run of toggles and frames no key is stuck, and a hidden keyboard has no button down. */
  lemma {:induction false} BoardsKeep(b: Board, events: seq<Event>)
    requires ValidBoard(b) && forall i | 0 <= i < |events| :: InReach(events[i])
    ensures ValidBoard(RunBoard(b, events))
    decreases |events|
  {
    if events != [] {
      BoardKeeps(b, events[0]);
      BoardsKeep(NextBoard(b, events[0]), events[1..]);
    }
  }

  /** One frame after any run from the start, a keyboard that is hidden or waits holds only sticky keys. */
  lemma HiddenHoldsSticky(events: seq<Event>, frame: Event)
    requires (forall i | 0 <= i < |events| :: InReach(events[i])) && frame.Tick? && RunBoard(START, events).Busy()
    ensures var k := NextBoard(RunBoard(START, events), frame).keys;
      k.held == One(k.sticky1) + One(k.sticky2)
  {
    BoardsKeep(START, events);
    StickyPhaseKeeps(RunBoard(START, events).keys);
  }

  // ----- what a press does -----

  /** A frame with the button down, and one with it up, over keys in scope. */
  predicate Down(e: Event) { e.Tick? && e.down && InReach(e) }

  predicate Up(e: Event) { e.Tick? && !e.down && InReach(e) }

  /** A keyboard that takes the button, which is up. */
  predicate Waiting(b: Board) { ValidBoard(b) && !b.Busy() && !b.keys.button }

  /** Pressing an ordinary key holds it down, with the sticky ones, and nothing else. */
  lemma PressHolds(b: Board, press: Event)
    requires Waiting(b) && Down(press) && Ordinary(press.key)
    ensures var r := NextBoard(b, press).keys;
      r.held == One(b.keys.sticky1) + One(b.keys.sticky2) + {press.key}
  {
    StickyPhaseKeeps(b.keys);
  }

  /** The key that was under the button, in the sticky slots that were free of it, when it has been pressed again. */
  function Besides(sticky: int, key: int): int { if sticky == key then NONE else sticky }

  /** A key sticks in the first slot, if that is free, and otherwise in the second. */
  function StuckIn(sticky1: int, sticky2: int, key: int): (int, int) {
    if Besides(sticky1, key) == NONE then (key, Besides(sticky2, key)) else (sticky1, key)
  }

  /** The button has been down over a key since some time, long enough to stick or not. */
  predicate Holding(b: Board, key: int, since: int, sticky1: int, sticky2: int, long: bool) {
    && ValidBoard(b) && !b.Busy() && b.keys.button && b.keys.last == b.keys.pressed == key && Ordinary(key)
    && !b.keys.letGo && b.keys.pressTime == since && b.keys.sticking == long
    && var q := StickyPhase(b.keys);
       (q.sticky1, q.sticky2) == if long then StuckIn(sticky1, sticky2, key)
                                 else (Besides(sticky1, key), Besides(sticky2, key))
  }

  lemma HoldStarts(b: Board, press: Event)
    requires Waiting(b) && Down(press) && Ordinary(press.key)
    ensures Holding(NextBoard(b, press), press.key, press.now, b.keys.sticky1, b.keys.sticky2, b.keys.sticking)
  {
    BoardKeeps(b, press);
    StickyPhaseKeeps(b.keys);
  }

  lemma HoldGoesOn(b: Board, e: Event, key: int, since: int, sticky1: int, sticky2: int, long: bool)
    requires Holding(b, key, since, sticky1, sticky2, long) && Down(e)
    ensures Holding(NextBoard(b, e), key, since, sticky1, sticky2, long || e.now - since > 1000)
    ensures key in NextBoard(b, e).keys.held
  {
    BoardKeeps(b, e);
    StickyPhaseKeeps(b.keys);
  }

  /** Some frame is more than a second after the given time. */
  predicate Past(frames: seq<Event>, since: int) {
    exists i | 0 <= i < |frames| :: frames[i].Tick? && frames[i].now - since > 1000
  }

  lemma {:induction false} HoldRuns(b: Board, frames: seq<Event>, key: int, since: int, sticky1: int, sticky2: int, long: bool)
    requires Holding(b, key, since, sticky1, sticky2, long) && key in b.keys.held
    requires forall i | 0 <= i < |frames| :: Down(frames[i])
    ensures Holding(RunBoard(b, frames), key, since, sticky1, sticky2, long || Past(frames, since))
    ensures key in RunBoard(b, frames).keys.held
    decreases |frames|
  {
    if frames != [] {
      var now := long || frames[0].now - since > 1000;
      HoldGoesOn(b, frames[0], key, since, sticky1, sticky2, long);
      HoldRuns(NextBoard(b, frames[0]), frames[1..], key, since, sticky1, sticky2, now);
      PastNext(frames, since);
    }
  }

  lemma PastNext(frames: seq<Event>, since: int)
    requires frames != [] && frames[0].Tick?
    ensures Past(frames, since) <==> frames[0].now - since > 1000 || Past(frames[1..], since)
  {
    if i :| 0 <= i < |frames| && frames[i].Tick? && frames[i].now - since > 1000 {
      assert i > 0 ==> frames[1..][i - 1] == frames[i];
    }
    if i :| 0 <= i < |frames[1..]| && frames[1..][i].Tick? && frames[1..][i].now - since > 1000 {
      assert frames[i + 1] == frames[1..][i];
    }
  }

  /** A key stays down in every frame in which the button stays down. */
  lemma StaysDown(b: Board, press: Event, frames: seq<Event>)
    requires Waiting(b) && Down(press) && Ordinary(press.key) && forall i | 0 <= i < |frames| :: Down(frames[i])
    ensures press.key in RunBoard(NextBoard(b, press), frames).keys.held
  {
    PressHolds(b, press);
    HoldStarts(b, press);
    HoldRuns(NextBoard(b, press), frames, press.key, press.now, b.keys.sticky1, b.keys.sticky2, b.keys.sticking);
  }

  lemma HoldEnds(b: Board, up: Event, next: Event, key: int, since: int, sticky1: int, sticky2: int, long: bool)
    requires Holding(b, key, since, sticky1, sticky2, long) && Up(up) && Up(next)
    ensures var r := NextBoard(NextBoard(b, up), next).keys;
      && (r.sticky1, r.sticky2) == (if long then StuckIn(sticky1, sticky2, key)
                                    else (Besides(sticky1, key), Besides(sticky2, key)))
      && r.held == One(r.sticky1) + One(r.sticky2)
  {
    StickyPhaseKeeps(b.keys);
    BoardKeeps(b, up);
    var u := NextBoard(b, up);
    StickyPhaseKeeps(u.keys);
  }

  /**
   Pressing an ordinary key and letting go of it. If the button was seen down
   more than a second after the press, the key stays down and sticks: in the
   first slot if that is free, and otherwise in the second. If not, it is up, and
   no longer sticky. The other exception is a keyboard that has not yet seen the
   button up since the program started: there every press sticks at once.
   */
  lemma PressAndRelease(b: Board, press: Event, frames: seq<Event>, up: Event, next: Event)
    requires Waiting(b) && Down(press) && Ordinary(press.key) && Up(up) && Up(next)
    requires forall i | 0 <= i < |frames| :: Down(frames[i])
    ensures var r := NextBoard(NextBoard(RunBoard(NextBoard(b, press), frames), up), next).keys;
      var key, long, s1, s2 := press.key, b.keys.sticking || Past(frames, press.now), b.keys.sticky1, b.keys.sticky2;
      && (key in r.held <==> long)
      && r.held == One(r.sticky1) + One(r.sticky2)
      && (long && s1 in {NONE, key} ==> r.sticky1 == key && r.sticky2 == if s2 == key then NONE else s2)
      && (long && s1 !in {NONE, key} ==> r.sticky1 == s1 && r.sticky2 == key)
      && (!long ==> r.sticky1 == (if s1 == key then NONE else s1) && r.sticky2 == if s2 == key then NONE else s2)
  {
    PressHolds(b, press);
    HoldStarts(b, press);
    var b1 := NextBoard(b, press);
    HoldRuns(b1, frames, press.key, press.now, b.keys.sticky1, b.keys.sticky2, b.keys.sticking);
    HoldEnds(RunBoard(b1, frames), up, next, press.key, press.now, b.keys.sticky1, b.keys.sticky2,
             b.keys.sticking || Past(frames, press.now));
  }

  /** Any frame that sees the button up makes the next press start afresh. */
  lemma SeenUpStartsAfresh(b: Board, up: Event)
    requires ValidBoard(b) && !b.Busy() && Up(up)
    ensures Waiting(NextBoard(b, up)) && !NextBoard(b, up).keys.sticking
  {
    BoardKeeps(b, up);
  }

  /** With the button up a toggle shows a hidden keyboard, and three frames later, the last of them idle, it takes the button. */
  lemma ToggleShows(b: Board, e1: Event, e2: Event, e3: Event)
    requires ValidBoard(b) && !b.shown && InReach(e1) && InReach(e2) && InReach(e3)
    requires e1.Tick? && e2.Tick? && e3.Tick? && e3.idle
    ensures var r := NextBoard(NextBoard(NextBoard(NextBoard(b, Toggle), e1), e2), e3);
      && Waiting(r) && r.shown && r.keys.sticking == b.keys.sticking
      && r.keys.sticky1 == b.keys.sticky1 && r.keys.sticky2 == b.keys.sticky2
  {
    var b0 := NextBoard(b, Toggle);
    BoardKeeps(b, Toggle);
    BoardKeeps(b0, e1);
    BoardKeeps(NextBoard(b0, e1), e2);
    BoardKeeps(NextBoard(NextBoard(b0, e1), e2), e3);
    SlotsKept(b0.keys);
    SlotsKept(NextBoard(b0, e1).keys);
    SlotsKept(NextBoard(NextBoard(b0, e1), e2).keys);
  }

  lemma SlotsKept(k: Keys)
    requires Valid(k) && !k.button
    ensures StickyPhase(k).sticky1 == k.sticky1 && StickyPhase(k).sticky2 == k.sticky2
  {
  }

  /** The first press after the program has started, made as soon as the keyboard is ready, sticks at once. */
  lemma FirstPressSticks()
    ensures var idle, press, up := Tick(true, false, 97, 0), Tick(false, true, 97, 10), Tick(false, false, 97, 20);
      var ready := NextBoard(NextBoard(NextBoard(NextBoard(START, Toggle), idle), idle), idle);
      97 in NextBoard(NextBoard(NextBoard(ready, press), up), up).keys.held
  {
    var idle, press, up := Tick(true, false, 97, 0), Tick(false, true, 97, 10), Tick(false, false, 97, 20);
    var ready := NextBoard(NextBoard(NextBoard(NextBoard(START, Toggle), idle), idle), idle);
    ToggleShows(START, idle, idle, idle);
    PressAndRelease(ready, press, [], up, up);
  }

  /** The keyboard's fields, updated once a frame. */
  class Vkbd {
    var button: bool
    var pressed: int
    var last: int
    var sticking: bool
    var sticky1: int
    var sticky2: int
    var release1: bool
    var release2: bool
    var letGo: bool
    var pressTime: int
    var held: set<int>
    var shown: bool
    var ready: int

    ghost function Whole(): Board
      reads this
    {
      Board(State(), shown, ready)
    }

    ghost function State(): Keys
      reads this
    {
      Keys(button, pressed, last, sticking, sticky1, sticky2, release1, release2, letGo, pressTime, held)
    }

    constructor ()
      ensures Whole() == START
    {
      button, pressed, last, sticking := false, NONE, NONE, true;
      sticky1, sticky2, release1, release2 := NONE, NONE, false, false;
      letGo, pressTime, held := true, 0, {};
      shown, ready := false, 0;
    }

    method KeyDown(key: int)
      modifies this`held
      ensures held == old(held) + {key}
    {
      held := held + {key};
    }

    method KeyUp(key: int)
      modifies this`held
      ensures held == old(held) - {key}
    {
      held := held - {key};
    }

    /** Makes the held key sticky, lets go of keys, and ends stickiness. */
    method InputVkbdSticky()
      modifies this
      ensures State() == StickyPhase(old(State())) && shown == old(shown) && ready == old(ready)
    {
      MakeSticky();
      LetGo();
      if release1 {
        release1, sticky1 := false, NONE;
      }
      if release2 {
        release2, sticky2 := false, NONE;
      }
    }

    method MakeSticky()
      modifies this`held, this`sticky1, this`sticky2
      ensures State() == Stick(old(State()))
    {
      if sticking && last != NONE && last > 0 {
        if sticky1 > NONE && sticky1 != last {
          if sticky2 > NONE && sticky2 != last {
            KeyUp(sticky2);
          }
          sticky2 := last;
        } else {
          sticky1 := last;
        }
      }
    }

    method LetGo()
      modifies this`held, this`last
      ensures State() == Released(old(State()))
    {
      if last != NONE && !button {
        if pressed == NONE && last >= 0 && last != sticky1 && last != sticky2 {
          KeyUp(last);
        }
        last := NONE;
      }
    }

    /** The press, release and hold part of a frame. */
    method InputButton(down: bool, key: int, now: int)
      requires Ordinary(key) || Special(key)
      modifies this
      ensures State() == ButtonPhase(old(State()), down, key, now) && shown == old(shown) && ready == old(ready)
    {
      if !button && down {
        PressKey(key);
      } else if button && !down {
        pressed := NONE;
        button := false;
      }
      HoldTime(now);
    }

    /** The button goes down over a key. */
    method PressKey(key: int)
      requires Ordinary(key) || Special(key)
      modifies this`button, this`pressed, this`last, this`release1, this`release2, this`held
      ensures State() == Press(old(State()), key)
    {
      button := true;
      pressed := key;
      if pressed != NONE && last == NONE {
        if pressed == VKBD_CAPSLOCK {
          KeyDown(CAPSLOCK);
          KeyUp(CAPSLOCK);
        } else if pressed >= 0 {
          if pressed == sticky1 {
            release1 := true;
          }
          if pressed == sticky2 {
            release2 := true;
          }
          if pressed != sticky1 && pressed != sticky2 {
            KeyDown(pressed);
          }
        }
      }
      last := pressed;
    }

    /** The time the button has been down decides whether its key sticks. */
    method HoldTime(now: int)
      modifies this`pressTime, this`sticking, this`letGo
      ensures State() == Timing(old(State()), now)
    {
      if button && pressed > 0 {
        if letGo {
          pressTime := now;
        }
        if now - pressTime > STICKY_HOLDING_TIME {
          sticking := true;
        }
        letGo := false;
      } else {
        letGo := true;
        sticking := false;
      }
    }

    /** Shows or hides the keyboard, unless a key is pressed. */
    method ToggleVkbd()
      modifies this`shown, this`ready
      ensures Whole() == NextBoard(old(Whole()), Toggle)
    {
      if button {
        return;
      }
      shown := !shown;
      ready := -2;
    }

    /** One frame. */
    method InputVkbd(idle: bool, down: bool, key: int, now: int)
      requires Ordinary(key) || Special(key)
      modifies this
      ensures Whole() == NextBoard(old(Whole()), Tick(idle, down, key, now))
    {
      InputVkbdSticky();
      if !shown {
        return;
      }
      if ready < 1 {
        if (ready == 0 && idle) || ready < 0 {
          ready := ready + 1;
        }
        return;
      }
      InputButton(down, key, now);
    }
  }
}
