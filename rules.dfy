/** The rules of the game: the playfield constants, the whole game state as a
    value, and one pure transition per event the page reacts to (a key press,
    a dialogue advance, an animation frame). The class in module Game is
    proved to perform exactly these transitions. */
module Rules {

  /** Base design resolution of the playfield, in logical pixels. */
  const BaseWidth: int := 800
  const BaseHeight: int := 600
  /** Thickness of the wall drawn along every edge of the playfield. */
  const WallMargin: int := 40
  /** Distance covered by one key press. */
  const MoveSpeed: int := 15
  /** Distance covered by one frame of the automatic walk. */
  const FollowSpeed: int := 3
  /** The player may talk to an NPC closer than this. */
  const TalkDistance: int := 50
  /** Where the player starts, and the radius of the player's head. */
  const StartX: int := 100
  const StartY: int := 200
  const PlayerRadius: int := 30
  /** The automatic walk ends once the player is right of this line. */
  const CakeX: int := BaseWidth - 200
  /** The automatic walk keeps the player on this line. */
  const FollowY: int := BaseHeight / 2

  datatype Point = Point(x: int, y: int)

  /** Where each NPC stands, in the order the player meets them. */
  const NpcPositions: seq<Point> := [Point(400, 300), Point(700, 200)]

  /** The lines each NPC says, one sequence per NPC. */
  const NpcDialogues: seq<seq<string>> := [
    ["احا بتقربي مني ليه يا ولية، ابعدي عني"],
    ["خخخخ مش قولتلك ابعدي عني، خلاص تعالي اوريكي حاجة"]
  ]

  /** What the dialogue box appends to every line it shows. */
  const Signature: string := "<br><br><small>سيف:</small>"

  /** The four scenes, in the order the game visits them. */
  datatype Scene = Find | Talk | Follow | Cake

  /** Everything the gameplay keeps between events: the scene, the player
      record (x, y, r), the NPC progress, and the dialogue box on the page
      (its text and whether it is shown). */
  datatype State = State(
    scene: Scene,
    x: int,
    y: int,
    r: int,
    firstMoveMade: bool,
    npcIndex: nat,
    npcActive: bool,
    dialogueIndex: nat,
    boxText: string,
    boxVisible: bool)

  /** The state the page starts in. */
  function Init(): (s: State)
    ensures Inv(s)
    ensures s.scene == Find && s.npcIndex == 0 && s.npcActive && !s.firstMoveMade
    ensures s.x == StartX && s.y == StartY
  {
    State(Find, StartX, StartY, PlayerRadius, false, 0, true, 0, "", false)
  }

  function Max(a: int, b: int): int { if a < b then b else a }
  function Min(a: int, b: int): int { if a < b then a else b }

  /** `Math.max(lo, Math.min(hi, v))`: v pulled into [lo, hi]. */
  function Clamp(lo: int, hi: int, v: int): (c: int)
    ensures lo <= hi ==> lo <= c <= hi
    ensures lo <= v <= hi ==> c == v
    ensures v < lo ==> c == lo
    ensures lo <= hi < v ==> c == hi
  {
    Max(lo, Min(hi, v))
  }

  /** The bounds that keep a player of radius r clear of the walls. */
  function LowBound(r: int): int { r + WallMargin }
  function HighX(r: int): int { BaseWidth - r - WallMargin }
  function HighY(r: int): int { BaseHeight - r - WallMargin }

  predicate InField(x: int, y: int, r: int) {
    LowBound(r) <= x <= HighX(r) && LowBound(r) <= y <= HighY(r)
  }

  predicate IsDirection(dir: string) {
    dir == "left" || dir == "right" || dir == "up" || dir == "down"
  }

  function Abs(n: int): nat { if n < 0 then -n else n }

  /** The step one key press asks for, before clamping. */
  function Displacement(dir: string): (d: (int, int))
    ensures IsDirection(dir) ==> (d.0 == 0) != (d.1 == 0) && Abs(d.0) + Abs(d.1) == MoveSpeed
    ensures !IsDirection(dir) ==> d == (0, 0)
    ensures dir == "left" || dir == "up" ==> d.0 + d.1 < 0
    ensures dir == "right" || dir == "down" ==> d.0 + d.1 > 0
    ensures dir == "left" || dir == "right" ==> d.1 == 0
    ensures dir == "up" || dir == "down" ==> d.0 == 0
  {
    if dir == "left" then (-MoveSpeed, 0)
    else if dir == "right" then (MoveSpeed, 0)
    else if dir == "up" then (0, -MoveSpeed)
    else if dir == "down" then (0, MoveSpeed)
    else (0, 0)
  }

  /** A key press: it always records that a move was made, and it moves the
      player, clamped to the playfield, only in the find scene. */
  function Move(s: State, dir: string): (t: State)
    ensures t.firstMoveMade
    ensures t.(firstMoveMade := s.firstMoveMade, x := s.x, y := s.y) == s
    ensures s.scene != Find ==> t.x == s.x && t.y == s.y
    ensures s.scene == Find && s.r == PlayerRadius ==> 70 <= t.x <= 730 && 70 <= t.y <= 530
    ensures s.scene == Find && InField(s.x, s.y, s.r) ==>
      (t.x == s.x || t.y == s.y) && Abs(t.x - s.x) <= MoveSpeed && Abs(t.y - s.y) <= MoveSpeed
    ensures s.scene == Find && !IsDirection(dir) && InField(s.x, s.y, s.r) ==> t.x == s.x && t.y == s.y
    ensures s.scene == Find ==>
      && t.x == Clamp(LowBound(s.r), HighX(s.r), s.x + Displacement(dir).0)
      && t.y == Clamp(LowBound(s.r), HighY(s.r), s.y + Displacement(dir).1)
  {
    if s.scene != Find then s.(firstMoveMade := true)
    else
      var d := Displacement(dir);
      s.(firstMoveMade := true,
         x := Clamp(LowBound(s.r), HighX(s.r), s.x + d.0),
         y := Clamp(LowBound(s.r), HighY(s.r), s.y + d.1))
  }

  /** A move whose step lands inside the playfield is not clamped: the
      player ends exactly at the stepped position, so exactly one coordinate
      changes, by exactly one step. */
  lemma MoveTakesFullStep(s: State, dir: string)
    requires s.scene == Find && IsDirection(dir)
    requires InField(s.x + Displacement(dir).0, s.y + Displacement(dir).1, s.r)
    ensures Move(s, dir).x == s.x + Displacement(dir).0
    ensures Move(s, dir).y == s.y + Displacement(dir).1
    ensures var t := Move(s, dir);
      (t.x == s.x && Abs(t.y - s.y) == MoveSpeed) || (t.y == s.y && Abs(t.x - s.x) == MoveSpeed)
  {
  }

  /** The dialogue advance: outside the talk scene it does nothing. In the
      talk scene it shows the next line of the current NPC, or, once the lines
      are used up, hides the box and hands over to the next NPC (back to the
      find scene) or, after the last NPC, to the follow scene. */
  function NextDialogue(s: State): (t: State)
    requires s.scene == Talk ==> s.npcIndex < |NpcDialogues|
    ensures s.scene != Talk ==> t == s
    ensures s.scene == Talk && s.dialogueIndex < |NpcDialogues[s.npcIndex]| ==>
      t == s.(dialogueIndex := s.dialogueIndex + 1,
              boxText := NpcDialogues[s.npcIndex][s.dialogueIndex] + Signature,
              boxVisible := true)
    ensures s.scene == Talk && s.dialogueIndex >= |NpcDialogues[s.npcIndex]| ==>
      && t.dialogueIndex == 0
      && t.npcIndex == s.npcIndex + 1
      && !t.boxVisible
      && (t.npcIndex < |NpcPositions| ==> t.scene == Find && t.npcActive)
      && (t.npcIndex >= |NpcPositions| ==> t.scene == Follow && t.npcActive == s.npcActive)
      && t.(scene := s.scene, npcIndex := s.npcIndex, npcActive := s.npcActive,
            dialogueIndex := s.dialogueIndex, boxVisible := s.boxVisible) == s
  {
    if s.scene != Talk then s
    else
      var lines := NpcDialogues[s.npcIndex];
      if s.dialogueIndex < |lines| then
        s.(boxText := lines[s.dialogueIndex] + Signature, boxVisible := true,
           dialogueIndex := s.dialogueIndex + 1)
      else
        var next := s.npcIndex + 1;
        s.(boxVisible := false, dialogueIndex := 0, npcIndex := next,
           npcActive := if next < |NpcPositions| then true else s.npcActive,
           scene := if next < |NpcPositions| then Find else Follow)
  }

  /** The squared distance from (x, y) to p is below TalkDistance squared. */
  predicate Near(x: int, y: int, p: Point) {
    (x - p.x) * (x - p.x) + (y - p.y) * (y - p.y) < TalkDistance * TalkDistance
  }

  /** Comparing squared distances decides the same as comparing the square
      root of the squared distance with TalkDistance. */
  lemma NearMatchesDistance(x: int, y: int, p: Point, dist: real)
    requires dist >= 0.0
    requires dist * dist == ((x - p.x) * (x - p.x) + (y - p.y) * (y - p.y)) as real
    ensures Near(x, y, p) <==> dist < TalkDistance as real
  {
    var d := (x - p.x) * (x - p.x) + (y - p.y) * (y - p.y);
    var limit := TalkDistance as real;
    assert limit * limit == (TalkDistance * TalkDistance) as real == 2500.0;
    if dist < limit {
      assert dist * dist <= dist * limit;
      assert dist * limit < limit * limit;
      assert d as real < 2500.0;
      assert d < TalkDistance * TalkDistance;
    } else {
      assert dist * dist >= dist * limit;
      assert dist * limit >= limit * limit;
      assert d as real >= 2500.0;
      assert d >= TalkDistance * TalkDistance;
    }
  }

  /** The frame test that starts a conversation: the current NPC is waiting,
      the player has moved at least once, and the player is near the NPC. */
  predicate ProximityFires(s: State) {
    && s.npcActive
    && s.npcIndex < |NpcPositions|
    && s.firstMoveMade
    && Near(s.x, s.y, NpcPositions[s.npcIndex])
  }

  /** The state-changing part of one animation frame: the proximity test,
      which enters the talk scene and shows the NPC's first line, then the
      automatic walk of the follow scene, which ends in the cake scene. */
  function Tick(s: State): (t: State)
    ensures ProximityFires(s) ==>
      && t.scene == Talk && !t.npcActive
      && t.dialogueIndex == 1 && t.boxVisible
      && t.boxText == NpcDialogues[s.npcIndex][0] + Signature
      && t.(scene := s.scene, npcActive := s.npcActive, dialogueIndex := s.dialogueIndex,
            boxText := s.boxText, boxVisible := s.boxVisible) == s
    ensures !ProximityFires(s) && s.scene == Follow ==>
      && t.x == s.x + FollowSpeed && t.y == FollowY
      && (t.scene == Cake <==> s.x + FollowSpeed > CakeX)
      && (t.scene == Follow <==> s.x + FollowSpeed <= CakeX)
      && t.(x := s.x, y := s.y, scene := s.scene) == s
    ensures !ProximityFires(s) && s.scene != Follow ==> t == s
  {
    var s1 :=
      if ProximityFires(s)
      then NextDialogue(s.(npcActive := false, scene := Talk, dialogueIndex := 0))
      else s;
    if s1.scene == Follow then
      var x := s1.x + FollowSpeed;
      s1.(x := x, y := FollowY, scene := if x > CakeX then Cake else Follow)
    else s1
  }

  /** What holds in every state the game can reach: the radius never
      changes; exactly the find scene has an NPC waiting; the find and talk
      scenes belong to an NPC still in the list and the follow and cake
      scenes come after the last one; talking needs a first move; in the
      talk scene the box shows the line before dialogueIndex, elsewhere the
      box is hidden and dialogueIndex is 0; the player stays inside the
      walls, except that the last automatic step may overshoot by one
      frame's walk on entering the cake scene. */
  predicate Inv(s: State) {
    && s.r == PlayerRadius
    && s.npcIndex <= |NpcPositions|
    && (s.npcActive <==> s.scene == Find)
    && ((s.scene == Find || s.scene == Talk) <==> s.npcIndex < |NpcPositions|)
    && (s.scene != Find ==> s.firstMoveMade)
    && (s.scene == Talk ==>
          && s.npcIndex < |NpcDialogues|
          && 1 <= s.dialogueIndex <= |NpcDialogues[s.npcIndex]|
          && s.boxVisible
          && s.boxText == NpcDialogues[s.npcIndex][s.dialogueIndex - 1] + Signature)
    && (s.scene != Talk ==> s.dialogueIndex == 0 && !s.boxVisible)
    && LowBound(s.r) <= s.y <= HighY(s.r)
    && LowBound(s.r) <= s.x
    && s.x <= HighX(s.r) + (if s.scene == Cake then FollowSpeed else 0)
  }

  lemma MovePreservesInv(s: State, dir: string)
    requires Inv(s)
    ensures Inv(Move(s, dir))
  {
  }

  lemma NextDialoguePreservesInv(s: State)
    requires Inv(s)
    ensures Inv(NextDialogue(s))
  {
  }

  lemma TickPreservesInv(s: State)
    requires Inv(s)
    ensures Inv(Tick(s))
  {
  }
}
