# Bubble scene manager, modelled in Dafny

Bubble is an iOS augmented-reality demo. It shows live speech transcription as a
speech bubble placed in the camera's AR scene. The only part of it with logic of
its own is `SceneManager`. This project models three pieces of it:

- **Line breaking** (`insertNewlines(string:every:)`). The text is broken into
  lines of a fixed number of characters: a `"\n"` goes before every character
  whose index is a positive multiple of the width. `updateText` uses a width of 20.
  The loop is `Scene.SceneManager.InsertNewlines`. Module `TextLayout` gives the
  layout an independent definition, `Wrapped`: n characters, a break, then the
  rest laid out the same way. Its properties are proved as lemmas: exact
  length, what sits at each output position, the round trip back to the input,
  and the bound on line width.
- **Baseline orientation latch** (`setOriginalOrientation(in:)`). The first
  time a camera frame is available, the camera's facing direction is stored in
  `originalOrientation`. The facing direction is the negated third row of the
  camera transform. After that the field never changes.
  `Scene.LatchStep` is one call. `Scene.Latched` is a run of calls, one per
  rendered frame. `getUserVector` uses the same formula, and falls back to a
  fixed direction and position when there is no frame.
- **Text node replacement** (`updateText(text:in:)`). The manager detaches its
  previous text node from its parent. It then builds a new node holding the
  broken text, placed 2 units ahead of the camera with y = 0, and attaches it
  to the scene's root. The root is a `SceneRoot` object with a sequence of
  child nodes. The manager records the parent of its current node in
  `textParent`, which plays the part of `SCNNode.parent`. A fresh `SCNNode` is
  a `TextNode` with a new serial number. The proved invariant
  `OnlyCurrentTextAttached` says that, of the manager's text nodes, only the
  latest is attached to the root.

Modelling choices:

- Swift `String`/`Character` becomes `seq<char>`, one `char` per grapheme cluster.
- `Float` components become `real`. The model only negates components (the
  baseline and the direction) and multiplies them by 2.0 (the placement). Both
  are exact in binary floating point, apart from overflow and the sign of zero.
- The AR session is not modelled. Its current frame's camera transform is passed
  to each operation as `Option<Matrix4>`, and the scene view's root node is
  passed as a `SceneRoot`.
- `insertNewlines` takes `n: int` and requires `n > 0`. In Swift, `i % 0` traps,
  and the only call passes 20.

## Model

| member | source | states |
|---|---|---|
| `Scene.SceneManager.InsertNewlines` | Bubble/SceneManager.swift:91-101 | the loop's result is the reference layout `Wrapped(s, n)`; its length is `count + (count - 1) / n`, or 0 for empty input; deleting its break slots gives back `s`; an input of at most `n` characters comes back unchanged |
| `TextLayout.WrappedSnoc` | Bubble/SceneManager.swift:94-99 | appending a character to the input appends it to the layout, preceded by `"\n"` exactly when its index `i` satisfies `i % n == 0 && i != 0` (one loop iteration) |
| `TextLayout.WrappedLengthIs` | Bubble/SceneManager.swift:92-100 | output length is `count + (count - 1) / n` for a non-empty input; the output is empty exactly when the input is |
| `TextLayout.WrappedAt` | Bubble/SceneManager.swift:94-99 | output position `k` is `"\n"` when `k % (n + 1) == n`; otherwise it holds input character `k - k / (n + 1)`, so the input characters appear in order |
| `TextLayout.UnbreakWrapped` | Bubble/SceneManager.swift:92-99 | deleting the inserted breaks (every (n+1)-th output character) gives back the input exactly, even when the input has newlines of its own |
| `TextLayout.StripWrapped` | Bubble/SceneManager.swift:92-99 | removing every newline from the output equals removing every newline from the input; for an input without newlines it gives the input itself |
| `TextLayout.LinesAtMostWidth` | Bubble/SceneManager.swift:94-99 | any stretch of more than `n` output characters contains a newline, so no line is longer than `n` characters (20 at the call on line 33) |
| `TextLayout.FullLines` | Bubble/SceneManager.swift:95-98 | for an input without newlines, output position `k` is a newline if and only if `k % (n + 1) == n`: every line but the last has exactly `n` characters |
| `TextLayout.WrappedEnds` | Bubble/SceneManager.swift:95-98 | a non-empty output starts with the first input character and ends with the last: no inserted break leads or trails |
| `TextLayout.BreaksBeforeMultiples` | Bubble/SceneManager.swift:95-98 | every inserted break is followed by an input character whose index is a positive multiple of `n` |
| `Scene.GetUserVector` | Bubble/SceneManager.swift:103-112 | with a frame, the direction is the negated third row (m31, m32, m33) of the camera transform and the position is its fourth row; without one, the fallback direction (0, 0, -1) and position (0, 0, -0.2) |
| `Scene.LatchStep` | Bubble/SceneManager.swift:16-23 | a set latch stays as it is, and so does any latch when there is no frame; an unset latch with a frame becomes the direction `getUserVector` computes from that frame |
| `Scene.SceneManager.SetOriginalOrientation` | Bubble/SceneManager.swift:16-23 | `originalOrientation` becomes `LatchStep` of its old value and the frame; no other field changes |
| `Scene.LatchedKeepsBaseline` | Bubble/SceneManager.swift:17-21 | once the baseline is set, any sequence of later frames leaves it unchanged |
| `Scene.LatchedIsFirstFrame` | Bubble/SceneManager.swift:16-23 | starting unset, after a run of frames the baseline is the facing direction of the first available frame, or still unset if no frame was available |
| `Scene.LatchedIgnoresLaterFrames` | Bubble/SceneManager.swift:17-21 | once some frame has been available, frames that come after it do not change the result |
| `Scene.SceneManager.constructor` | Bubble/SceneManager.swift:13-14 | a new manager has no baseline and one blank text node that is not attached anywhere |
| `Scene.Without` | Bubble/SceneManager.swift:37 | removing a node from a parent's children keeps every other child and drops that node |
| `Scene.ReplaceTextNode` | Bubble/SceneManager.swift:37-87 | if the root holds at most the old text node, then after the old node is detached and a new one attached, the new node is the only text node and the other children are unchanged |
| `Scene.SceneManager.UpdateText` | Bubble/SceneManager.swift:25-87 | the old text node is removed from its parent; the new node holds the input broken every 20 characters, sits at (2·dx, 0, 2·dz) for camera direction d, and is appended to the root; the baseline is unchanged; if only the manager's current text node was attached to the root before the call, only the new one is afterwards |

## Left out

- `Scene.SceneManager.UpdateText`: does not model the node's scale (line 40), the billboard constraint (lines 44-47), the text colour (line 34) or the background bubble (lines 49-83). These are rendering-framework calls: loading `art.scnassets/bubble.scn`, materials, and float bounding-box arithmetic for the bubble's size, pivot and offset.
- `Scene.SceneManager.UpdateText`: the text node's geometry is represented by the string it shows. `SCNText` measurement and extrusion are not modelled.
- `Scene.SceneManager.constructor`: the initial `SCNNode()` has no geometry. Here it is a text node with empty text at the origin.
- `angleBetweenVectors` and `crossProduct` (lines 114-127) are not modelled. They are floating-point square root, arc cosine and products, and `SceneManager` never calls either of them.
- Floating-point behaviour (NaN, infinities, overflow, the sign of zero) is not modelled, because components are reals. The fallback position's -0.2 is exact here, while the Swift `Float` holds the nearest binary value.
- The ARKit session, the render loop that calls `setOriginalOrientation` once per frame, and speech recognition are not modelled. Frames and transcripts are parameters of the operations. `SpeechRecognitionManager.swift`, `SpeechToText.swift`, `UIManager.swift` and `ViewController.swift` are platform glue and are not part of this model.
- Only one scene manager exists in the app. Serial numbers single out this manager's nodes, so text nodes created by several managers are not told apart.
- The baseline is latched but `SceneManager` never reads it. No property about its later use is stated.
- Word wrapping is not modelled because the app has none. The only line-breaking policy in `SceneManager.swift` is the fixed character count, which can split a word across lines.
