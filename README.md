# DnD 5e show AC — overlay registry and colour validation

The plugin shows each token's Armour Class (AC) as a badge, for the
Gamemaster only. This project models its `ACOverlayManager`: a registry that
maps each token id to one badge. The model also covers the colour validator
`normalizeHex` of the colour menu and the `apply` step guarded by it. DOM
elements, the PIXI renderer and the host's objects are replaced by plain
values:

- a **token** (`Registry.Token`) has an optional id, an optional actor
  (type tag and AC, the AC already turned into `String(ac)`), and the
  `visible` and `renderable` flags;
- a **badge** (`Registry.Badge`) holds the cached `dataset.ac`, its display
  state (`Unset`, `Flex` or `Hidden`) and a count of content writes. The
  count makes the "write `innerHTML` only when the value changed" rule
  observable;
- the **manager** (`OverlayManager.ACOverlayManager`) is a class with the
  fields `overlays: map<string, Badge>`, `color` and `containerColor`. The
  last one is the colour the overlay container carries, or None before the
  container exists.

Module `Registry` gives the registry after each operation as a pure
function: `Updated`, `UpdatedAll`, `Synced` and `SyncedAll`. The lemmas
about these functions state the properties. Each class method is proved to
leave `overlays` equal to the matching function of the old registry, and to
keep the class invariant `Valid()`: the colour is never empty, the container
always carries the current colour, and no badge is filed under the empty id.
Module `HexColor` holds `NormalizeHex` with JavaScript's `trim` and
lower-casing. Module `ColorMenu` holds `apply`.

Two consequences of the code are worth stating:

- A token that becomes ineligible keeps its badge: `updateToken` returns
  before any removal when the actor is missing or its type is not allowed
  (index.js:111-115). `Registry.Updated` states this.
- `syncToken` hides the badge of an invisible or unrenderable token and
  keeps it in the registry (index.js:175-178).

## Model

| member | source | states |
|---|---|---|
| HexColor.SkipLeading | index.js:270 | the index of the first non-whitespace character: everything before it is JavaScript whitespace, the character at it is not |
| HexColor.SkipTrailing | index.js:270 | the end of the text once trailing whitespace is dropped: everything after it is whitespace, the character before it is not |
| HexColor.Trim | index.js:270 | `trim()` removes whitespace at both ends and nothing else; the result is empty iff the input is all whitespace, and text with no whitespace at either end is unchanged |
| HexColor.ToLower | index.js:273 | same length; no upper-case ASCII letter remains; each character is kept or is its upper-case letter moved down to lower case |
| HexColor.NormalizeHex | index.js:268-275 | returns a value iff trim, add `#` if missing, lower-case gives `#` plus six characters in `[0-9a-f]`; the value is that string: length 7, starting with `#`, lower case; null, empty or all-whitespace input is rejected |
| HexColor.HexColorIsCanonical | index.js:270-274 | a valid hex colour is left unchanged by trimming, `#`-prefixing and lower-casing |
| HexColor.NormalizeHexIdempotent | index.js:268-275 | feeding an accepted result back in returns the same string |
| HexColor.AcceptsBareDigits | index.js:272-274 | `"ff00aa"` is accepted as `"#ff00aa"` |
| HexColor.AcceptsPaddedUpperCase | index.js:270-274 | `" #FF00AA\n"` is trimmed and lower-cased to `"#ff00aa"` |
| HexColor.RejectsShortAndEmpty | index.js:269-274 | `"#12"`, `""` and a missing value are rejected |
| Registry.SyncedBadge | index.js:175-190 | an off-screen token only hides its badge; an on-screen one shows it and takes a defined AC; the content is written exactly when the cached AC differs from a defined new one |
| Registry.Synced | index.js:170-202 | `syncToken` never adds or removes a key and touches only the token's own entry: hidden when off screen, shown otherwise, and then taking the token's defined AC |
| Registry.SyncedAll | index.js:158-164 | `syncAll` keeps the key set; ids that do not resolve are left as they are (no purge); resolved off-screen badges are hidden, on-screen ones shown and given the token's defined AC; a badge's content is written only when it resolves on screen to a different defined AC |
| Registry.Updated | index.js:110-141 | an ineligible token (no token, actor or id, or a type other than character/npc) leaves the registry as it was, an existing badge included; a missing AC removes just that id; otherwise the id is present afterwards with the new AC, hidden or shown by visibility, content written only if the AC changed, and the key set grows by at most that id; other entries are unchanged |
| Registry.UpdatedIdempotent | index.js:133-140 | updating twice with the same token is the same as updating once: no second content write |
| Registry.SyncAfterUpdateIsNoOp | index.js:133-140 | the `syncToken` at the end of `updateToken` changes nothing further |
| Registry.SyncAllAfterUpdateNoWrite | index.js:158-190 | a later `syncAll` that resolves the id to the same token leaves its badge as it is, with no content write |
| Registry.UpdatedAllAppend | index.js:87-89 | updating with the tokens of `a` and then those of `b` is updating with `a + b` |
| Registry.UpdatedAllFrame | index.js:110-141 | an id that no eligible token carries keeps its entry, or stays absent, through a run of updates |
| Registry.ShownIdsAreEligible | index.js:111-122 | every token that gets a badge is an eligible one |
| Registry.NotAnEligibleId | index.js:111-115 | an id that no eligible token carries is not among the eligible ids |
| Registry.UpdatedAllKeys | index.js:83-141 | with distinct ids, a run of updates removes the ids of the eligible tokens and then adds exactly the ids of those with a defined AC |
| Registry.DrawnKeys | index.js:83-90 | with distinct ids, after `drawAll` the key set is exactly the ids of the eligible placeables with a defined AC |
| Registry.DrawnBadgeShowsAc | index.js:83-137 | with distinct ids, after `drawAll` each such placeable's badge caches its AC |
| Registry.LastWriterShowsAc | index.js:87-137 | a token's AC survives the later updates when none of them carries its id |
| Registry.BadgeScale | index.js:200-201 | the badge scale is the zoom clamped to [0.5, 1.2] |
| OverlayManager.ColorOrDefault | index.js:74 | a non-empty colour is kept, a missing or empty one becomes `#ff0000`; never empty |
| OverlayManager.ACOverlayManager.constructor | index.js:7-11 | empty registry, no container, colour `#ff0000` |
| OverlayManager.ACOverlayManager.EnsureContainer | index.js:56-67 | after it the container exists and carries the current colour; registry and colour untouched |
| OverlayManager.ACOverlayManager.SetColor | index.js:73-78 | colour set to the argument or `#ff0000`, passed on to the container only when it exists; registry untouched |
| OverlayManager.ACOverlayManager.RemoveToken | index.js:147-153 | deletes only `tokenId`; no-op when it is absent |
| OverlayManager.ACOverlayManager.Clear | index.js:207-210 | the registry is empty; colour and container untouched |
| OverlayManager.ACOverlayManager.SyncToken | index.js:170-202 | leaves the registry as `Registry.Synced` says |
| OverlayManager.ACOverlayManager.UpdateToken | index.js:110-141 | leaves the registry as `Registry.Updated` says; the container exists afterwards iff it did or the token got a badge |
| OverlayManager.ACOverlayManager.DrawAll | index.js:83-90 | clears, then with a token layer rebuilds the registry from empty through every placeable in order (`Registry.UpdatedAll`); without one leaves it empty |
| OverlayManager.ACOverlayManager.UpdateActor | index.js:96-104 | updates every given token of the actor in order (`Registry.UpdatedAll` from the old registry); colour unchanged; the container exists afterwards iff it did or some token got a badge |
| OverlayManager.ACOverlayManager.SyncAll | index.js:158-164 | leaves the registry as `Registry.SyncedAll` says; colour and container untouched |
| OverlayManager.ACOverlayManager.Init | index.js:16-50 | a non-Gamemaster changes nothing; otherwise the stored colour (or the default) is applied, and with the canvas ready the registry is rebuilt as by `DrawAll`; the container exists afterwards iff it did or a token layer was drawn |
| ColorMenu.Apply | index.js:277-287 | a rejected value changes neither the stored setting nor the manager; an accepted one is stored and, for a Gamemaster, becomes the manager's colour with the registry untouched; the container is never created or removed |

## Left out

- Hook registration (index.js:29-46, 307-336) is left out. These are calls into the host's event API. `Init` keeps only the Gamemaster gate, the colour read and the immediate draw.
- The 100 ms `setTimeout` in `updateActor` (index.js:98-103) is timer behaviour and is left out. `UpdateActor` is the deferred body, given the tokens `getActiveTokens()` returns when it runs.
- DOM work is abstracted to the badge record and `containerColor`: element creation, `innerHTML` markup, CSS properties, `badge.remove()`, emptying the container's children. `EnsureContainer` does not model a container that was detached from `document.body`.
- Badge positions are left out: the PIXI `worldTransform.apply` mapping and the `left`/`top` pixel strings (index.js:193-196) use floating point and a foreign library. `BadgeScale` is real-valued, is stated on its own, and is not stored in the badge.
- The number-to-string step `String(ac)` is not modelled: `Actor.ac` already holds the string. An actor type that is undefined behaves like any type outside {character, npc}.
- `SyncAll` does not model a missing token layer: with a non-empty registry and no `canvas.tokens`, `syncAll` throws a TypeError at index.js:161. The model's `canvasTokens` map always exists.
- `syncAll` visits the registry in insertion order. The model visits it in an arbitrary order. Each step touches only its own entry, so the outcome is the same.
- `ACColorMenu` is left out: rendering, default options, `getData`, jQuery listeners, keeping the two inputs in sync, the reset button, the form submit and `await` (index.js:219-303). The settings store is reduced to `ColorMenu.ColorSetting`. The setting's `onChange` hook (index.js:316-319) is not modelled; it calls `setColor` with the same value that `Apply` already passed.
- HexColor.ToLower lower-cases ASCII letters only. No other character lower-cases to one of `0-9a-f`, so which strings are accepted and what is returned do not change. This argument is not proved.
- JavaScript strings are UTF-16 code units; the model's characters are Unicode scalar values. No surrogate is whitespace or a hex digit. Input that is not a string (`String(v)` on other values) is not modelled.
- Console logging (index.js:20, 338) is left out.
