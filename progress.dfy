/** Runs of the game: sequences of events applied from a state, and what holds
    across them — the invariant, the one-directional scene order, the cake
    scene as a dead end, and the automatic walk that always reaches it. */
module Progress {
  import opened Rules

  /** The inputs the page reacts to: a directional key press (any string the
      host delivers), the dialogue advance, and one animation frame. */
  datatype Event = Press(dir: string) | Advance | Frame

  function Step(s: State, e: Event): State
    requires Inv(s)
  {
    match e
    case Press(dir) => Move(s, dir)
    case Advance => NextDialogue(s)
    case Frame => Tick(s)
  }

  /** How far the game has got: each NPC contributes a find and a talk stage,
      then come the follow and cake scenes. */
  function Stage(s: State): nat {
    match s.scene
    case Find => 2 * s.npcIndex
    case Talk => 2 * s.npcIndex + 1
    case Follow => 2 * |NpcPositions|
    case Cake => 2 * |NpcPositions| + 1
  }

  /** The scene changes a single event may make. */
  predicate Successor(a: Scene, b: Scene) {
    || (a == Find && b == Talk)
    || (a == Talk && (b == Find || b == Follow))
    || (a == Follow && b == Cake)
  }

  /** One event keeps the invariant, never lowers npcIndex, and either keeps
      the stage and scene or moves one stage forward along a permitted scene
      change. */
  lemma StepProgress(s: State, e: Event)
    requires Inv(s)
    ensures var t := Step(s, e);
      && Inv(t)
      && s.npcIndex <= t.npcIndex
      && (Stage(t) == Stage(s) || Stage(t) == Stage(s) + 1)
      && (Stage(t) == Stage(s) ==> t.scene == s.scene && t.npcIndex == s.npcIndex)
      && (Stage(t) == Stage(s) + 1 ==> Successor(s.scene, t.scene))
  {
  }

  /** The state after a sequence of events. Along any run the invariant
      holds, and neither the stage nor npcIndex ever goes down. */
  function Run(s: State, events: seq<Event>): (t: State)
    requires Inv(s)
    ensures Inv(t)
    ensures Stage(s) <= Stage(t)
    ensures s.npcIndex <= t.npcIndex <= |NpcPositions|
    decreases |events|
  {
    if events == [] then s
    else
      StepProgress(s, events[0]);
      Run(Step(s, events[0]), events[1..])
  }

  /** Every run of the page starts from Init, so every reachable state keeps
      the invariant and has npcIndex at most the number of NPCs. */
  lemma ReachableStatesAreValid(events: seq<Event>)
    ensures Inv(Run(Init(), events))
    ensures Run(Init(), events).npcIndex <= |NpcPositions|
  {
  }

  /** No event leaves the cake scene, and none changes anything in it. */
  lemma CakeIsTerminal(s: State, e: Event)
    requires Inv(s) && s.scene == Cake
    ensures Step(s, e) == s
  {
  }

  /** From the cake scene, every run ends where it started. */
  lemma {:induction false} CakeIsFinal(s: State, events: seq<Event>)
    requires Inv(s) && s.scene == Cake
    ensures Run(s, events) == s
    decreases |events|
  {
    if events != [] {
      CakeIsTerminal(s, events[0]);
      CakeIsFinal(s, events[1..]);
    }
  }

  /** Once the follow scene is reached no run returns to finding or talking. */
  lemma EndgameIsFinal(s: State, events: seq<Event>)
    requires Inv(s) && (s.scene == Follow || s.scene == Cake)
    ensures Run(s, events).scene == Follow || Run(s, events).scene == Cake
    ensures Run(s, events).npcIndex == |NpcPositions|
  {
  }

  /** n animation frames in a row. */
  function Frames(n: nat): (f: seq<Event>)
    ensures |f| == n
    ensures forall i :: 0 <= i < n ==> f[i] == Frame
  {
    if n == 0 then [] else [Frame] + Frames(n - 1)
  }

  /** The number of frames the automatic walk takes from x to the cake
      scene: the least n >= 1 with x + n * FollowSpeed > CakeX. */
  function FramesToCake(x: int): (n: nat)
    ensures n >= 1
    ensures x + n * FollowSpeed > CakeX
    ensures x + (n - 1) * FollowSpeed <= CakeX || n == 1
    decreases CakeX - x
  {
    if x + FollowSpeed > CakeX then 1 else 1 + FramesToCake(x + FollowSpeed)
  }

  /** The follow scene always ends: after FramesToCake(x) frames the player
      has walked right of CakeX along FollowY and the cake scene is on. */
  lemma {:induction false} FollowReachesCake(s: State)
    requires Inv(s) && s.scene == Follow
    ensures var t := Run(s, Frames(FramesToCake(s.x)));
      t.scene == Cake && t.x == s.x + FramesToCake(s.x) * FollowSpeed && t.y == FollowY
    decreases CakeX - s.x
  {
    var n := FramesToCake(s.x);
    var t1 := Tick(s);
    assert Frames(n)[1..] == Frames(n - 1);
    assert Run(s, Frames(n)) == Run(t1, Frames(n - 1));
    TickPreservesInv(s);
    if s.x + FollowSpeed > CakeX {
      assert n == 1;
    } else {
      assert t1.scene == Follow && t1.x == s.x + FollowSpeed;
      FollowReachesCake(t1);
    }
  }

  /** Before that many frames have passed, the player is still walking. */
  lemma {:induction false} FollowKeepsWalking(s: State, k: nat)
    requires Inv(s) && s.scene == Follow
    requires k < FramesToCake(s.x)
    ensures var t := Run(s, Frames(k));
      t.scene == Follow && t.x == s.x + k * FollowSpeed && (k > 0 ==> t.y == FollowY)
    decreases k
  {
    if k > 0 {
      var t1 := Tick(s);
      assert Frames(k)[1..] == Frames(k - 1);
      assert Run(s, Frames(k)) == Run(t1, Frames(k - 1));
      TickPreservesInv(s);
      assert s.x + FollowSpeed <= CakeX;
      assert t1.scene == Follow && t1.x == s.x + FollowSpeed;
      assert FramesToCake(s.x) == 1 + FramesToCake(t1.x);
      FollowKeepsWalking(t1, k - 1);
    }
  }
}
