/** The page's mutable game state: the player record and the module-level
    variables, updated in place by the key, dialogue and frame handlers. Each
    handler is proved to perform the matching transition of module Rules. */
module Game {
  import opened Rules

  /** The player record `rawda`: its position is updated in place, its
      radius never changes. */
  class Player {
    var x: int
    var y: int
    const r: int

    constructor (x: int, y: int, r: int)
      ensures this.x == x && this.y == y && this.r == r
    {
      this.x := x;
      this.y := y;
      this.r := r;
    }
  }

  /** The game-state variables of the page, plus the dialogue box element
      (its text and whether it is displayed). */
  class Game {
    var scene: Scene
    const rawda: Player
    var firstMoveMade: bool
    var npcIndex: nat
    var npcActive: bool
    var dialogueIndex: nat
    var boxText: string
    var boxVisible: bool

    /** The current state as a value of Rules.State. */
    function Snapshot(): State
      reads this, rawda
    {
      State(scene, rawda.x, rawda.y, rawda.r, firstMoveMade, npcIndex, npcActive,
            dialogueIndex, boxText, boxVisible)
    }

    ghost predicate Valid()
      reads this, rawda
    {
      Inv(Snapshot())
    }

    /** The page loads in the find scene with the player at the start. */
    constructor ()
      ensures fresh(rawda)
      ensures Snapshot() == Init()
      ensures Valid()
    {
      scene := Find;
      rawda := new Player(StartX, StartY, PlayerRadius);
      firstMoveMade := false;
      npcIndex := 0;
      npcActive := true;
      dialogueIndex := 0;
      boxText := "";
      boxVisible := false;
    }

    /** The key handler: one step in direction dir, clamped to the walls. */
    method Move(dir: string)
      modifies this, rawda
      ensures Snapshot() == Rules.Move(old(Snapshot()), dir)
      ensures old(Valid()) ==> Valid()
    {
      ghost var s0 := Snapshot();
      firstMoveMade := true;
      if scene != Find {
        return;
      }
      Walk(dir);
      rawda.x := Max(rawda.r + WallMargin, Min(BaseWidth - rawda.r - WallMargin, rawda.x));
      rawda.y := Max(rawda.r + WallMargin, Min(BaseHeight - rawda.r - WallMargin, rawda.y));
      if Inv(s0) {
        MovePreservesInv(s0, dir);
      }
    }

    /** The unclamped step of the key handler. */
    method Walk(dir: string)
      modifies rawda
      ensures rawda.x == old(rawda.x) + Displacement(dir).0
      ensures rawda.y == old(rawda.y) + Displacement(dir).1
    {
      if dir == "left" { rawda.x := rawda.x - MoveSpeed; }
      if dir == "right" { rawda.x := rawda.x + MoveSpeed; }
      if dir == "up" { rawda.y := rawda.y - MoveSpeed; }
      if dir == "down" { rawda.y := rawda.y + MoveSpeed; }
    }

    /** Writes a line into the dialogue box and displays the box. */
    method ShowDialogue(text: string)
      modifies this`boxText, this`boxVisible
      ensures boxText == text + Signature && boxVisible
    {
      boxText := text + Signature;
      boxVisible := true;
    }

    /** The dialogue advance handler. */
    method NextDialogue()
      requires scene == Talk ==> npcIndex < |NpcDialogues|
      modifies this
      ensures Snapshot() == Rules.NextDialogue(old(Snapshot()))
      ensures old(Valid()) ==> Valid()
    {
      ghost var s0 := Snapshot();
      if scene == Talk {
        var dialogues := NpcDialogues[npcIndex];
        if dialogueIndex < |dialogues| {
          ShowDialogue(dialogues[dialogueIndex]);
          dialogueIndex := dialogueIndex + 1;
        } else {
          boxVisible := false;
          dialogueIndex := 0;
          npcIndex := npcIndex + 1;
          if npcIndex < |NpcPositions| {
            npcActive := true;
            scene := Find;
          } else {
            scene := Follow;
          }
        }
      }
      if Inv(s0) {
        NextDialoguePreservesInv(s0);
      }
    }

    /** The state-changing part of one animation frame. What the frame then
        draws, including the cake scene, changes none of these fields. */
    method Tick()
      modifies this, rawda
      ensures Snapshot() == Rules.Tick(old(Snapshot()))
      ensures old(Valid()) ==> Valid()
    {
      ghost var s0 := Snapshot();
      if npcActive && npcIndex < |NpcPositions| && firstMoveMade {
        var npc := NpcPositions[npcIndex];
        var dx := rawda.x - npc.x;
        var dy := rawda.y - npc.y;
        if dx * dx + dy * dy < TalkDistance * TalkDistance {
          npcActive := false;
          scene := Talk;
          dialogueIndex := 0;
          NextDialogue();
        }
      }
      if scene == Follow {
        rawda.x := rawda.x + FollowSpeed;
        rawda.y := BaseHeight / 2;
        if rawda.x > BaseWidth - 200 {
          scene := Cake;
        }
      }
      if Inv(s0) {
        TickPreservesInv(s0);
      }
    }
  }

  /** The game can be finished: walking to each NPC, listening to it, and
      letting the automatic walk run brings a fresh page to the cake scene. */
  method PlayThrough() returns (g: Game)
    ensures fresh(g) && g.Valid() && g.scene == Cake
  {
    g := new Game();
    // Walk to the first NPC at (400, 300): nineteen steps right, six down.
    for i := 0 to 19
      invariant g.Valid() && g.scene == Find && g.npcIndex == 0
      invariant g.rawda.x == StartX + i * MoveSpeed && g.rawda.y == StartY
      invariant i > 0 ==> g.firstMoveMade
    {
      g.Move("right");
    }
    for i := 0 to 6
      invariant g.Valid() && g.scene == Find && g.npcIndex == 0 && g.firstMoveMade
      invariant g.rawda.x == 385 && g.rawda.y == StartY + i * MoveSpeed
    {
      g.Move("down");
    }
    g.Tick();
    assert g.scene == Talk;
    g.NextDialogue();
    assert g.scene == Find && g.npcIndex == 1;
    // Walk to the second NPC at (700, 200): twenty-one steps right, six up.
    for i := 0 to 21
      invariant g.Valid() && g.scene == Find && g.npcIndex == 1 && g.firstMoveMade
      invariant g.rawda.x == 385 + i * MoveSpeed && g.rawda.y == 290
    {
      g.Move("right");
    }
    for i := 0 to 6
      invariant g.Valid() && g.scene == Find && g.npcIndex == 1 && g.firstMoveMade
      invariant g.rawda.x == 700 && g.rawda.y == 290 - i * MoveSpeed
    {
      g.Move("up");
    }
    g.Tick();
    assert g.scene == Talk;
    g.NextDialogue();
    assert g.scene == Follow;
    // Standing at x = 700, the first automatic step is already past CakeX.
    g.Tick();
  }
}
