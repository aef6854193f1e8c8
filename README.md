# Hollow Night scene: snow buffer and arrow-key animation controller

The scene script `src/script.js` sets up a three.js scene. It holds two pieces of logic with state of their own, and this project models both and proves properties about them.

- **Snow** (`snow.dfy`, module `Snow`). `snowCount = 1000` particles are stored in one flat buffer of `snowCount * 3` numbers. Particle `i` has its x, y and z at indices `i*3`, `i*3+1` and `i*3+2`.
  - At start-up a loop fills every coordinate with `Math.random() * spreadRange - spreadRange / 2`, where `spreadRange = 25`.
  - On every animation frame (`tick`), a loop lowers each particle's y by 0.01. If y drops below 0, the loop sets it to exactly 0.
  - Nothing is recycled: particles pile up on the floor, and the snowfall stops by itself.
  - The model is the class `SnowField`. Its `const positions: array<real>` never changes length. The constructor `Init` and the method `Step` are loops over that array.
  - Each loop is proved against specification functions: `Coordinate`, `Fall` and `Stepped`.
  - Lemmas about `Fallen` and `SteppedN` (the state after n frames) state the properties that hold over many frames.
- **Animation controller** (`animation.dfy`, module `Animation`). When the model loads, its callback creates an action for clip 0 and plays it. It then registers `keydown` and `keyup` handlers that capture that action.
  - On a key-down of `ArrowRight` or `ArrowLeft`, the handler switches the action to clip 3 and plays it, but only when the current action is not running.
  - On a key-up of either key, the handler stops the action if it is running.
  - The class `AnimationController` has the fields `loaded`, `clip` and `running`. It has the methods `OnLoad`, `OnKeyDown` and `OnKeyUp`, plus `Play`/`Stop` for the action's `play()`/`stop()`.
  - Each handler is proved equal to a pure transition (`KeyDown`, `KeyUp`) on the value `Controller(loaded, Action(clip, running))`.
  - `Run` applies a whole sequence of key events. Lemmas describe the state after any such sequence using independent predicates on the event history.

Behaviour of the source worth knowing:

- **The key-down guard.** The key-down guard at `src/script.js:44` asks only whether the current action is *running*. It does not ask *which clip* it plays. Clip 0 loops and runs from load on, so the first arrow press after load does nothing. The press's release stops clip 0, and only the next press starts clip 3. See `ArrowScenario`, and `FromIdle`, which says clip 3 is current exactly when a trigger key-up was followed by a trigger key-down.
- **Either arrow's release stops the clip.** The key-up handler does not track which arrow is held. Releasing one arrow stops the running clip even while the other arrow is still held down. So "running" follows the last arrow event, not whether an arrow is physically held (`RunningIffLastTriggerDown`, and the last history in `ArrowScenario`).
- **No clip resumes after a key-up.** After a key-up nothing plays until the next arrow press. Clip 0 never comes back.
- **The scatter interval is half-open in exact arithmetic.** `Math.random()` lies in [0, 1), so over exact reals the scatter covers [-12.5, 12.5) and never 12.5 itself. The stored float32 value can still be exactly 12.5 (see "## Left out").
- **y can start below the floor.** The initial y is drawn from the same interval as x and z, so about half the particles start below the floor. The first frame puts them at 0. So "y never increases" holds only for a particle at or above the floor; `FallenNeverRises` requires this.
- **`!action` in the guards.** `!action` (line 44) and `action &&` (line 53) are constant once the handlers exist, because line 37 assigns `action` first. Before the load callback there are no handlers, which the `loaded` flag models.

## Model

| member | source | states |
|---|---|---|
| `Snow.Coordinate` | src/script.js:111-113 | each initial coordinate made from a draw in [0, 1) lies in [-spreadRange/2, spreadRange/2) |
| `Snow.CoordinateOnto` | src/script.js:111-113 | every point of [-spreadRange/2, spreadRange/2) is the scatter of some draw in [0, 1), so the scatter covers the whole interval |
| `Snow.SnowField.Init` | src/script.js:104-114 | the initialisation loop allocates a buffer of exactly `count*3` numbers and gives index `k` the scatter of the k-th random draw (x, y, z of particle i from draws i*3, i*3+1, i*3+2); every coordinate lies in the cube side |
| `Snow.Fall` | src/script.js:232-237 | one frame leaves a particle's y at or above 0; y lands on exactly 0 iff it was at most the fall speed, and otherwise it is lowered by exactly the fall speed |
| `Snow.Stepped` | src/script.js:231-238 | one frame keeps the buffer length and every x and z component, and takes every y component to its `Fall` value |
| `Snow.SnowField.Step` | src/script.js:229-238 | the per-frame loop over `i < count`, writing only `positions[i*3+1]`, turns the buffer into `Stepped` of the old buffer (all indices in bounds; with `count = 0` nothing changes) |
| `Snow.FallenClosedForm` | src/script.js:231-238 | after n frames a particle stands at max(y - n*speed, 0), from any start once a frame has run |
| `Snow.FallenAtFloor` | src/script.js:232-237 | a particle at exactly 0 stays at exactly 0 for any number of frames |
| `Snow.FallenNeverRises` | src/script.js:232-237 | a particle at or above the floor never rises, stays at or above 0, and more frames never leave it higher |
| `Snow.FallenLands` | src/script.js:232-237 | a particle starting no higher than n*speed is on the floor after n frames |
| `Snow.SteppedNAt` | src/script.js:231-238 | after n frames every x and z of the buffer is unchanged and every y is its particle's height after n frames |
| `Snow.FloorIsFinal` | src/script.js:231-238 | in the buffer, a y component at 0 stays at exactly 0 through any number of frames |
| `Snow.FieldSettles` | src/script.js:231-238 | once every particle started no higher than n*speed, after n frames all y components are 0 and a further frame changes nothing |
| `Snow.SceneSettles` | src/script.js:105-113 | with 1000 particles whose heights start at most 12.5 and fall speed 0.01, the whole buffer is at rest after 1250 frames |
| `Animation.KeyDown` | src/script.js:42-49 | key-down changes the state iff the handlers exist, the key is an arrow key and no action runs; it then makes the action clip 3 running; after an arrow key-down an action always runs; before load or for other keys nothing changes |
| `Animation.KeyUp` | src/script.js:51-57 | key-up keeps the clip; after an arrow key-up nothing runs; before load or for other keys nothing changes |
| `Animation.RunBeforeLoad` | src/script.js:30-57 | before the load callback has run, no sequence of key events changes anything |
| `Animation.RunningIffLastTriggerDown` | src/script.js:42-57 | after any key history, an action runs iff the last trigger-key event was a key-down, or there was no trigger key-up and the action ran at the start; releasing either arrow stops it |
| `Animation.ClipHistory` | src/script.js:42-57 | after any key history, the clip is 3 iff it already was, or a trigger key went down while nothing ran (at the start, or after a trigger key-up); otherwise the clip is unchanged |
| `Animation.FromIdle` | src/script.js:35-57 | from the state right after load the clip is always 0 or 3; it is 3 iff a trigger key-up was followed by a trigger key-down; an action runs iff the last trigger-key event was a key-down or no trigger key has been released yet |
| `Animation.ArrowScenario` | src/script.js:35-57 | concrete histories: the first arrow press is ignored, its release stops clip 0, the next press starts clip 3, a repeat or the other arrow does not restart it, releasing the left arrow stops it while the right is still held, and other keys do nothing |
| `Animation.AnimationController.constructor` | src/script.js:28-36 | before loading there are no handlers and nothing runs |
| `Animation.AnimationController.Play` | src/script.js:38 | `play()` makes the action run |
| `Animation.AnimationController.Stop` | src/script.js:54 | `stop()` makes the action stop |
| `Animation.AnimationController.OnLoad` | src/script.js:35-38 | the load callback makes clip 0 the action, plays it, and brings the handlers into existence |
| `Animation.AnimationController.OnKeyDown` | src/script.js:42-49 | the key-down handler updates the captured action exactly as `KeyDown` says |
| `Animation.AnimationController.OnKeyUp` | src/script.js:51-57 | the key-up handler updates the captured action exactly as `KeyUp` says |

## Left out

- Loading the model and fonts (GLTF/DRACO loaders, `FontLoader`, `TextGeometry` labels) is asynchronous asset I/O inside the rendering library. The model keeps only the fact that the load callback runs once (`OnLoad` requires `!loaded`).
- `Math.random()` is an input: `Init` takes the sequence of draws, each in [0, 1), in the order the loop makes them.
- The buffer is a `Float32Array`; the model uses exact reals. Float32 rounding of y - 0.01 is not modelled. The clamp at 0 keeps the floor properties true under rounding too, but the exact heights and the 1250-frame bound in `SceneSettles` are for exact arithmetic. `SceneSettles` allows heights up to and including 12.5, so it covers a rounded-up scatter.
- `SnowField.Init`: its strict upper bound `positions[k] < spread / 2` holds for exact reals only. Float32 storage can round a draw near 1 up to exactly spread/2 (12.5).
- The accumulated-snow geometry (`accumulatedSnowPositions` and its buffer) is left out. Nothing ever writes to its array, and each frame only rebuilds an empty buffer.
- These are rendering-library configuration and are left out: the `needsUpdate` flags, materials, `THREE.Points`, floor, lights, camera, `OrbitControls`, the debug GUI, the renderer and the resize handler.
- The clock, `deltaTime` and `mixer.update` are floating-point timing inside the animation library and are left out. The internals of `clipAction` and `isRunning` are replaced by a plain running flag. Clip 3 loops, so once played its action runs until stopped, and `clipAction` returns the same action object for the same clip.
- A model with fewer than four clips would make `gltf.animations[3]` undefined. That is a configuration error inside the library; the model assumes clips 0 and 3 exist.
- The `requestAnimationFrame` self-scheduling belongs to the host's frame driver. One `tick` is one call of `SnowField.Step` with the fall speed 0.01.
