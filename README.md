# rawdabd gameplay state machine, in Dafny

The browser game in `game.js` is a short, linear story. The player moves a
character (`rawda`) around an 800×600 playfield with a wall 40 pixels thick
on every side. When the player comes near an NPC, the game enters the talk
scene and the NPC's lines appear in a dialogue box. Once the lines run out,
the game moves on to the next NPC. After the last NPC, the character walks
right on its own (the follow scene) until a birthday cake scene appears,
and that scene never ends.

This project models the gameplay part of `game.js`:

- the game-state variables and the player record;
- the key handler `move`;
- the dialogue handler `nextDialogue`, with `showDialogue` as its effect on
  the dialogue box;
- the state-changing part of the per-frame `update`: the proximity test,
  the automatic walk, and the terminal cake branch.

It has three modules:

- `Rules` (`rules.dfy`) gives the whole state as a value (`State`) and one
  pure transition per event: `Move`, `NextDialogue`, `Tick`. It also holds
  the invariant `Inv`, which every transition preserves.
- `Progress` (`progress.dfy`) applies sequences of events (`Run`). It proves
  these facts about runs:
  - the invariant always holds;
  - `npcIndex` never goes down and never passes 2;
  - scenes only move forward: find → talk → find (next NPC) or follow → cake;
  - once the follow scene is reached, the game never goes back;
  - the cake scene is terminal;
  - the automatic walk reaches the cake scene after a frame count that is
    given exactly.
- `Game` (`game.dfy`) holds the imperative form, which mirrors the source.
  Class `Player` is `rawda`: `x` and `y` are updated in place and `r` is
  constant. Class `Game` has the module-level variables as fields. Its
  methods `Move`, `NextDialogue` and `Tick` update those fields in place.
  Each method is proved to leave exactly the state that the matching
  `Rules` function computes. `PlayThrough` drives a new page through the
  whole story and shows that the cake scene can be reached.

Modelling choices:

- Numbers: all positions start as integers and change by integers (15, 3
  and `BASE_HEIGHT / 2 = 300`). JavaScript doubles therefore hold them
  exactly, and the model uses `int`.
- Distance test: `Math.sqrt(dx*dx + dy*dy) < 50` is modelled as
  `dx*dx + dy*dy < 2500`. `Rules.NearMatchesDistance` proves the two tests
  agree for any non-negative real square root.
- Dialogue box: the page's `#dialogue` element becomes two fields,
  `boxText` (its `innerHTML`, which is the line plus the fixed signature
  suffix) and `boxVisible` (its `display`).
- Starting box state: the page's HTML is not part of this model. The box
  is taken to start hidden with empty text.
- Scene and direction: `scene` is a datatype with four values. The
  direction passed to `move` stays a string, because the handler must
  ignore any string other than the four it knows.
- Key presses outside the find scene: such a press does not move the
  player, but it still sets `firstMoveMade` (game.js:84-85).
- Position bound: the invariant keeps `x` within [70, 730] in the find,
  talk and follow scenes. One frame can take the player from the follow
  scene into the cake scene, and that step can overshoot to `x = 733`. The
  invariant allows that in the cake scene only. Nothing is drawn at the
  player's position in the cake scene.

## Model

| member | source | states |
|---|---|---|
| `Rules.Init` | game.js:41-59 | The starting state (find scene, player at (100, 200) with radius 30, first NPC waiting, no move yet, dialogue index 0) satisfies the game invariant |
| `Rules.Clamp` | game.js:94-95 | `max(lo, min(hi, v))` lies in [lo, hi] whenever lo ≤ hi, equals v when v is already inside, and equals the violated bound otherwise |
| `Rules.Displacement` | game.js:86-91 | A recognised direction changes exactly one coordinate, by 15, with the sign of the direction; any other string changes nothing |
| `Rules.Move` | game.js:83-96 | Every key press sets `firstMoveMade`; outside the find scene the position does not change; in the find scene the new position is the old one plus the direction's step (right +x, left −x, down +y, up −y, by 15), clamped to [70, 730] × [70, 530]; from inside the field at most one coordinate changes, by at most 15, and an unknown direction changes nothing; no other field changes |
| `Rules.MoveTakesFullStep` | game.js:86-95 | When the step lands inside the field, the clamp does not interfere: the new position equals the old one plus the direction's step, so exactly one coordinate moves by exactly 15 |
| `Rules.NextDialogue` | game.js:105-123 | Outside the talk scene nothing changes; with lines left, the line at `dialogueIndex` is shown and the index goes up by one; with no lines left, the box is hidden, the index resets to 0, `npcIndex` goes up by one, and the scene becomes find with the next NPC waiting, or follow after the last NPC |
| `Rules.NearMatchesDistance` | game.js:248-251 | The squared-distance test `dx*dx + dy*dy < 2500` decides the same as `sqrt(dx*dx + dy*dy) < 50` |
| `Rules.Tick` | game.js:245-264 | The proximity trigger fires only with an NPC waiting, a first move made, and the player within distance 50. It then enters the talk scene, stops the NPC waiting and shows the NPC's first line with `dialogueIndex == 1`. Otherwise, in the follow scene, x grows by 3, y is pinned to 300, and the scene becomes cake exactly when x passes 600. In any other case nothing changes |
| `Rules.MovePreservesInv` | game.js:83-96 | A key press keeps the game invariant |
| `Rules.NextDialoguePreservesInv` | game.js:105-123 | A dialogue advance keeps the game invariant |
| `Rules.TickPreservesInv` | game.js:245-264 | A frame keeps the game invariant |
| `Progress.StepProgress` | game.js:114-119 | Any single event keeps the invariant and never lowers `npcIndex`. It either leaves the stage and scene as they were, or moves one stage forward along a permitted change: find→talk, talk→find, talk→follow or follow→cake |
| `Progress.Run` | game.js:51-52 | Along any run of events the invariant holds, the stage never goes down, and `npcIndex` never decreases and never passes the number of NPCs |
| `Progress.ReachableStatesAreValid` | game.js:41-59 | Every state reachable from the starting state satisfies the invariant, with `npcIndex ≤ 2` |
| `Progress.CakeIsTerminal` | game.js:267-283 | In the cake scene, every event (key press, dialogue advance, frame) leaves the state exactly as it was |
| `Progress.CakeIsFinal` | game.js:267-283 | From the cake scene, every run of events ends in the same state |
| `Progress.EndgameIsFinal` | game.js:115-119 | Once in follow or cake, every run stays in follow or cake, with all NPCs done |
| `Progress.FramesToCake` | game.js:260-264 | The number of frames the automatic walk needs is the least n ≥ 1 with x + 3n > 600 |
| `Progress.FollowReachesCake` | game.js:260-264 | From the follow scene, after `FramesToCake(x)` frames the cake scene is on, with x advanced by 3 per frame and y at 300 |
| `Progress.FollowKeepsWalking` | game.js:260-264 | Before that many frames the scene is still follow, x has advanced by exactly 3 per frame, and after at least one frame y is pinned to 300 |
| `Game.Player.constructor` | game.js:42 | The player record holds the given position and radius |
| `Game.Game.constructor` | game.js:41-59 | A new page is in exactly the starting state and satisfies the invariant |
| `Game.Game.Move` | game.js:83-96 | The key handler updates the fields in place to exactly `Rules.Move` of the old state and keeps the invariant |
| `Game.Game.Walk` | game.js:86-91 | The unclamped step moves the player by exactly the displacement of the direction |
| `Game.Game.ShowDialogue` | game.js:99-103 | The dialogue box shows the line followed by the signature and is displayed |
| `Game.Game.NextDialogue` | game.js:105-123 | The dialogue handler updates the fields in place to exactly `Rules.NextDialogue` of the old state and keeps the invariant |
| `Game.Game.Tick` | game.js:245-264 | One frame updates the fields in place to exactly `Rules.Tick` of the old state and keeps the invariant |
| `Game.PlayThrough` | game.js:246-264 | Scenario, not a model of these lines: a scripted sequence of key presses, dialogue advances and frames (the loops stand for repeated key presses) provably brings a new page to the cake scene through the proximity and follow logic cited: 19 steps right and 6 down reach the first NPC, 21 right and 6 up reach the second, and the first follow frame from x = 700 ends the walk |

## Left out

- Canvas resizing and the scale factors (game.js:13-28): floating-point arithmetic over the window size. The model works in base-resolution coordinates only.
- All drawing: the background, flowers, walls, characters, cake image and message. This includes the animation timer `t` and its `Math.sin` wiggle. These are calls into the canvas context, which is not part of this model.
- Confetti creation and motion: the particles come from `Math.random`, have floating-point sizes and speeds, and are purely cosmetic.
- `drawMultilineText`: its line breaking depends on the host's `measureText`, which is not part of this model.
- Image loading, the `checkImagesLoaded` counter and the `requestAnimationFrame` rescheduling. A frame is modelled as one call to `Tick`, and runs are finite sequences of events.
- The DOM side of `showDialogue`: only the box's text and visibility are kept.
- The HTML page, which decides the box's initial visibility and how keys reach `move`, is not part of this model.
