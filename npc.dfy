/**
 * The NPC of code/npc.py: the keyboard-driven conversation state machine
 * (`handle_event`), the proximity rule of `npc_update`, the frame counter of
 * `animate` and the initial field values of `__init__`.
 *
 * The value-level functions `Handle`, `Proximity` and `Advance` state what one
 * step does; the class `Npc` keeps the fields the source updates in place, and
 * each of its methods is proved to perform that step on them.
 */
module NpcInteraction {
  import opened InferenceClient

  /** The key codes of the keys the NPC reacts to (pygame's `K_BACKSPACE`, `K_RETURN`, `K_ESCAPE`, `K_e`). */
  const KeyBackspace: int := 8
  const KeyReturn: int := 13
  const KeyEscape: int := 27
  const KeyE: int := 101

  /** The interaction radius, in pixels. */
  const Radius: int := 150

  /** Progress of the frame counter per tick, in hundredths of a frame (0.15 frames). */
  const FrameStep: nat := 15

  /** The persona preamble of every prompt (code/npc.py:41-44). */
  const InitialPrompt: string :=
    "You are a wandering spirit NPC in a JRPG game. "
    + "Speak in a mystical, cryptic, and gentle tone, offering advice and hints to travelers."

  /** The static dialogue shown while the player is near and no conversation runs. */
  const DialogueText: string := "Hello, traveler! Welcome to our village. Press E to interact."

  /** An input event: a key pressed (with the text it types), a key released, or anything else. */
  datatype Event = KeyDown(key: int, unicode: string) | KeyUp(key: int) | Other

  /** The animation states; the NPC itself only ever sets `Idle` and `Talk`. */
  datatype Status = Idle | Move | Talk

  datatype Point = Point(x: int, y: int)

  /** The image on show: frame `index` of an animation, or the placeholder square. */
  datatype Picture = Frame(status: Status, index: nat) | Placeholder

  /** The conversation fields of the NPC. */
  datatype Conversation = Conversation(active: bool, ePressed: bool, input: string, output: string, status: Status)

  /** Python's `s[:-1]`: the text without its last character; the empty text stays empty. */
  function DropLast(s: string): (r: string)
    ensures s == [] ==> r == []
    ensures s != [] ==> r + [s[|s| - 1]] == s
  {
    if s == [] then s else s[..|s| - 1]
  }

  /** What `handle_event` does to the conversation for one event. */
  function Handle(c: Conversation, ev: Event, service: Request -> Reply): (r: Conversation)
    ensures r.status == c.status
  {
    match ev
    case KeyDown(key, unicode) =>
      if c.active then
        if key == KeyBackspace then c.(input := DropLast(c.input))
        else if key == KeyReturn then c.(output := LlamaResponse(InitialPrompt, c.input, service), input := "")
        else if key == KeyEscape then c.(active := false)
        else c.(input := c.input + unicode)
      else if key == KeyE && !c.ePressed then c.(active := true, ePressed := true)
      else c
    case KeyUp(key) =>
      if key == KeyE then c.(ePressed := false) else c
    case Other => c
  }

  /** The events handled one after another. */
  function Run(c: Conversation, events: seq<Event>, service: Request -> Reply): Conversation
    decreases events
  {
    if events == [] then c else Run(Handle(c, events[0], service), events[1..], service)
  }

  /** During a conversation, Backspace removes the last typed character and nothing else. */
  lemma BackspaceDeletesLast(c: Conversation, unicode: string, service: Request -> Reply)
    requires c.active
    ensures var r := Handle(c, KeyDown(KeyBackspace, unicode), service);
      (c.input == "" ==> r == c)
      && (c.input != "" ==> r == c.(input := r.input) && r.input + [c.input[|c.input| - 1]] == c.input)
  {
  }

  /** During a conversation, Return replaces the output by the service's answer to the input, then clears the input. */
  lemma ReturnSubmitsInput(c: Conversation, unicode: string, service: Request -> Reply)
    requires c.active
    ensures Handle(c, KeyDown(KeyReturn, unicode), service)
      == c.(output := LlamaResponse(InitialPrompt, c.input, service), input := "")
  {
  }

  /** During a conversation, Escape ends it and leaves both texts and the key latch as they were. */
  lemma EscapeEndsConversation(c: Conversation, unicode: string, service: Request -> Reply)
    requires c.active
    ensures Handle(c, KeyDown(KeyEscape, unicode), service) == c.(active := false)
  {
  }

  /** During a conversation, any other key (E included) appends the text it types. */
  lemma OtherKeyAppends(c: Conversation, key: int, unicode: string, service: Request -> Reply)
    requires c.active
    requires key != KeyBackspace && key != KeyReturn && key != KeyEscape
    ensures Handle(c, KeyDown(key, unicode), service) == c.(input := c.input + unicode)
  {
  }

  /**
   * Outside a conversation a key press changes something exactly when it is E and
   * E has been released since it last started one; it then starts a conversation.
   */
  lemma InactiveKeyDown(c: Conversation, key: int, unicode: string, service: Request -> Reply)
    requires !c.active
    ensures var r := Handle(c, KeyDown(key, unicode), service);
      (r != c <==> key == KeyE && !c.ePressed)
      && (r != c ==> r == c.(active := true, ePressed := true))
  {
  }

  /** Releasing E clears the latch in either mode; other releases and other events change nothing. */
  lemma KeyUpAndOther(c: Conversation, key: int, service: Request -> Reply)
    ensures Handle(c, KeyUp(KeyE), service) == c.(ePressed := false)
    ensures key != KeyE ==> Handle(c, KeyUp(key), service) == c
    ensures Handle(c, Other, service) == c
  {
  }

  /** No event in the sequence releases E. */
  predicate NoRelease(events: seq<Event>)
  {
    forall k :: 0 <= k < |events| ==> events[k] != KeyUp(KeyE)
  }

  /** While E stays held outside a conversation, no event sequence changes anything. */
  lemma {:induction false} HeldKeyCannotRestart(c: Conversation, events: seq<Event>, service: Request -> Reply)
    requires !c.active && c.ePressed && NoRelease(events)
    ensures Run(c, events, service) == c
  {
    if events != [] {
      assert events[0] != KeyUp(KeyE);
      assert Handle(c, events[0], service) == c;
      assert NoRelease(events[1..]) by {
        forall k | 0 <= k < |events| - 1 ensures events[1..][k] != KeyUp(KeyE) {
          assert events[1..][k] == events[k + 1];
        }
      }
      HeldKeyCannotRestart(c, events[1..], service);
    }
  }

  /** Escape with E still held: the conversation cannot start again until E is released. */
  lemma EscapeThenHeldKey(c: Conversation, unicode: string, events: seq<Event>, service: Request -> Reply)
    requires c.active && c.ePressed && NoRelease(events)
    ensures Run(c, [KeyDown(KeyEscape, unicode)] + events, service) == c.(active := false)
  {
    var escaped := c.(active := false);
    var all := [KeyDown(KeyEscape, unicode)] + events;
    assert all[0] == KeyDown(KeyEscape, unicode) && all[1..] == events;
    assert Handle(c, all[0], service) == escaped;
    HeldKeyCannotRestart(escaped, events, service);
  }

  /** Whether the player's centre lies strictly within the radius of the NPC's centre. */
  function InRange(npc: Point, player: Point): bool
  {
    var dx := player.x - npc.x;
    var dy := player.y - npc.y;
    dx * dx + dy * dy < Radius * Radius
  }

  /** Squaring preserves the order of natural numbers. */
  lemma SquareMonotone(a: nat, b: nat)
    requires a <= b
    ensures a * a <= b * b
  {
    assert a * a <= a * b;
    assert a * b <= b * b;
  }

  /** On an axis, being in range means being less than 150 pixels away. */
  lemma InRangeOnAxis(npc: Point, d: int)
    ensures InRange(npc, Point(npc.x + d, npc.y)) <==> -Radius < d < Radius
  {
    var m: nat := if d < 0 then -d else d;
    assert d * d == m * m;
    assert InRange(npc, Point(npc.x + d, npc.y)) <==> m * m < 22500;
    if m >= 150 {
      SquareMonotone(150, m);
    } else {
      SquareMonotone(m, 149);
    }
  }

  /** The proximity rule of `npc_update`: out of range the conversation ends. */
  function Proximity(c: Conversation, near: bool): (r: Conversation)
    ensures !near ==> !r.active && r.status == Idle
    ensures near ==> r.active == c.active && (r.status == Talk <==> r.active) && r.status != Move
    ensures r.input == c.input && r.output == c.output && r.ePressed == c.ePressed
  {
    if near then
      if c.active then c.(status := Talk) else c.(status := Idle)
    else c.(status := Idle, active := false)
  }

  /** Applying the proximity rule a second time changes nothing. */
  lemma ProximityIdempotent(c: Conversation, near: bool)
    ensures Proximity(Proximity(c, near), near) == Proximity(c, near)
  {
  }

  /** The frame counter after one tick of `animate`, in hundredths, for an animation of `length` frames. */
  function Advance(frameIndex: nat, length: nat): (r: nat)
    requires length > 0
    ensures r < 100 * length && r / 100 < length
    ensures r == 0 || r == frameIndex + FrameStep
  {
    if frameIndex + FrameStep >= 100 * length then 0 else frameIndex + FrameStep
  }

  /** The frame counter after `ticks` ticks on one animation. */
  function AdvanceBy(frameIndex: nat, length: nat, ticks: nat): nat
    requires length > 0
  {
    if ticks == 0 then frameIndex else Advance(AdvanceBy(frameIndex, length, ticks - 1), length)
  }

  /** From a frame in range, the frame used stays in range for any number of ticks. */
  lemma {:induction false} AdvanceByInRange(frameIndex: nat, length: nat, ticks: nat)
    requires length > 0 && frameIndex < 100 * length
    ensures AdvanceBy(frameIndex, length, ticks) / 100 < length
    ensures AdvanceBy(frameIndex, length, ticks) < 100 * length
  {
    if ticks > 0 {
      AdvanceByInRange(frameIndex, length, ticks - 1);
    }
  }

  /** The number of ticks after which an animation of `length` frames starts over. */
  function CycleTicks(length: nat): (n: nat)
    requires length > 0
    ensures n > 0 && FrameStep * (n - 1) < 100 * length <= FrameStep * n
  {
    (100 * length + FrameStep - 1) / FrameStep
  }

  /** Until it wraps, the counter started at 0 grows by exactly 0.15 frames per tick. */
  lemma {:induction false} AdvanceFromZero(length: nat, ticks: nat)
    requires length > 0 && FrameStep * ticks < 100 * length
    ensures AdvanceBy(0, length, ticks) == FrameStep * ticks
  {
    if ticks > 0 {
      AdvanceFromZero(length, ticks - 1);
    }
  }

  /**
   * An animation started at frame 0 returns to frame 0 after exactly
   * `CycleTicks(length)` ticks, and not before.
   */
  lemma AnimationCycle(length: nat)
    requires length > 0
    ensures AdvanceBy(0, length, CycleTicks(length)) == 0
    ensures forall t :: 0 < t < CycleTicks(length) ==> AdvanceBy(0, length, t) == FrameStep * t > 0
  {
    var n := CycleTicks(length);
    AdvanceFromZero(length, n - 1);
    forall t | 0 < t < n
      ensures AdvanceBy(0, length, t) == FrameStep * t > 0
    {
      AdvanceFromZero(length, t);
    }
  }

  class Npc {
    const name: string
    /** The centre of the NPC's rectangle; the NPC never moves. */
    const center: Point
    /** The number of images loaded for each animation. */
    const animations: Status -> nat

    var status: Status
    /** The frame counter, in hundredths of a frame. */
    var frameIndex: nat
    var image: Picture

    var conversationActive: bool
    var ePressed: bool
    var inputText: string
    var outputText: string

    /** The conversation fields, as one value. */
    function State(): Conversation
      reads this
    {
      Conversation(conversationActive, ePressed, inputText, outputText, status)
    }

    /** The image on show is a frame that exists. */
    ghost predicate Valid()
      reads this
    {
      image.Frame? ==> image.index < animations(image.status)
    }

    /** `NPC.__init__`: no conversation, empty texts, E not held, idle on the first idle frame. */
    constructor (name: string, center: Point, animations: Status -> nat)
      ensures Valid()
      ensures this.name == name && this.center == center && this.animations == animations
      ensures State() == Conversation(false, false, "", "", Idle)
      ensures frameIndex == 0
      ensures image == if animations(Idle) > 0 then Frame(Idle, 0) else Placeholder
    {
      this.name := name;
      this.center := center;
      this.animations := animations;
      frameIndex := 0;
      status := Idle;
      image := if animations(Idle) > 0 then Frame(Idle, 0) else Placeholder;
      conversationActive := false;
      inputText := "";
      outputText := "";
      ePressed := false;
    }

    /** `NPC.handle_event`. */
    method HandleEvent(ev: Event, service: Request -> Reply)
      requires Valid()
      modifies this`conversationActive, this`ePressed, this`inputText, this`outputText
      ensures Valid()
      ensures State() == Handle(old(State()), ev, service)
    {
      match ev {
        case KeyDown(key, unicode) =>
          if conversationActive {
            if key == KeyBackspace {
              inputText := if inputText == [] then inputText else inputText[..|inputText| - 1];
            } else if key == KeyReturn {
              outputText := GetLlamaResponse(InitialPrompt, inputText, service);
              inputText := "";
            } else if key == KeyEscape {
              conversationActive := false;
            } else {
              inputText := inputText + unicode;
            }
          } else {
            if key == KeyE {
              if !ePressed {
                conversationActive := true;
                ePressed := true;
              }
            }
          }
        case KeyUp(key) =>
          if key == KeyE {
            ePressed := false;
          }
        case Other =>
      }
    }

    /** The proximity rule of `NPC.npc_update`; the dialogue boxes it draws are not modelled. */
    method UpdateProximity(player: Point)
      requires Valid()
      modifies this`conversationActive, this`status
      ensures Valid()
      ensures State() == Proximity(old(State()), InRange(center, player))
    {
      var dx := player.x - center.x;
      var dy := player.y - center.y;
      if dx * dx + dy * dy < Radius * Radius {
        if conversationActive {
          status := Talk;
        } else {
          status := Idle;
        }
      } else {
        status := Idle;
        conversationActive := false;
      }
    }

    /** `NPC.animate`: advance the counter of the current animation and show its frame. */
    method Animate()
      requires Valid()
      modifies this`frameIndex, this`image
      ensures Valid()
      ensures animations(status) > 0 ==>
        frameIndex == Advance(old(frameIndex), animations(status))
        && image == Frame(status, frameIndex / 100)
        && frameIndex / 100 < animations(status)
      ensures animations(status) == 0 ==> frameIndex == old(frameIndex) && image == old(image)
    {
      var length := animations(status);
      if length > 0 {
        frameIndex := frameIndex + FrameStep;
        if frameIndex >= 100 * length {
          frameIndex := 0;
        }
        image := Frame(status, frameIndex / 100);
      }
    }

    /** `NPC.npc_update`: the proximity rule, then one tick of the animation of the new status. */
    method NpcUpdate(player: Point)
      requires Valid()
      modifies this`conversationActive, this`status, this`frameIndex, this`image
      ensures Valid()
      ensures State() == Proximity(old(State()), InRange(center, player))
      ensures animations(status) > 0 ==>
        frameIndex == Advance(old(frameIndex), animations(status))
        && image == Frame(status, frameIndex / 100)
      ensures animations(status) == 0 ==> frameIndex == old(frameIndex) && image == old(image)
    {
      UpdateProximity(player);
      Animate();
    }
  }
}
