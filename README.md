# Scene picker windows, modelled in Dafny

`QuickLoadScene` and `SceneSwitcher` are two Unity editor utility windows with the
same logic. Each window lists the scenes of the active build settings. It narrows
the list with a case-insensitive search over the scene names. Keyboard shortcuts
let the user open one of the first nine results (keys 1-9), refresh the list (R)
or close the window (X). This project models that logic once, for both windows:

- `results.dfy` (module `Results`): the `Option` and `Result` wrappers.
- `text.dfy` (module `Text`): the .NET string operations the windows call.
  These are `LastIndexOf(char)`, `Substring(start, length)` with its
  out-of-range exception, `ToLower()` and ordinal `Contains(string)`.
- `scene_filter.dfy` (module `SceneFilter`):
  - how a display name is cut out of a scene path (`ExtractName`);
  - the query rule (`Matches`);
  - `Filter`, the specification of the list that `Research` builds, including
    the exception it can throw part-way.
- `window.dfy` (module `Window`):
  - the key codes, the shortcut table `Keys` and the dispatch rule `Decode`;
  - the index label drawn before each result;
  - the class `SceneWindow`. Its fields are the ones the windows update in place:
    the query, the scene paths, the result list, the ignore toggle, and whether
    the window is open. Its methods are `OnEnable`, `OnGui`, `CheckInputs`,
    `Research` and `Refresh`. `Research`, `OnEnable` and `Refresh` are proved
    against `Filter`. `CheckInputs` and `OnGui` are proved against `Filter`,
    `Decode` and `Trace`, the host calls each command makes. `OpenShortcut` is
    proved against `KeyIndex`.

The calls into the editor are recorded in a ghost trace `effects`, in the order
they are made. These calls are saving modified scenes, opening a scene, closing
the window, and repainting. The scene list that the build settings return is a
parameter `host`. The event being handled is a parameter `ev`.

Both files are cited below by their `QuickLoadScene.cs` lines. `SceneSwitcher.cs`
holds the same code at these lines:

- the `Scene` struct is at 11-21, the fields at 23-29 and `keys` at 31-42;
- `OnEnable` is at 50-58;
- `OnGUI` is at 60-79, with the label at 77-78;
- `CheckInputs` is at 84-117, `Research` at 119-136 and `Refresh` at 138-143.

`SceneSwitcher.cs` only differs in the menu entry, the window title, the dark
skin call and the style of the "Results:" label.

### Paths without a name

- A path without '/' is fine. The name then starts at index 0.
- A path whose last segment holds no '.' makes `Substring` throw
  `ArgumentOutOfRangeException` (see `SceneFilter.ExtractNameFailsIff`).
- The exception escapes `Research` at that path. It leaves the result list
  holding the matches among the paths before it. It then escapes `Refresh`
  before the repaint, and `CheckInputs` and `OnGUI` as well.
- `Filter` returns that partial list together with the error
  (`SceneFilter.FilterStopsAtFirstBadPath`).

## Model

| member | source | states |
|---|---|---|
| Text.LastIndexOf | QuickLoadScene.cs:129-130 | the result is -1 or an index holding the character, and no later index holds it |
| Text.Substring | QuickLoadScene.cs:131 | succeeds exactly when 0 <= start, 0 <= length and start + length <= the string's length; the result has `length` characters copied from `start` |
| Text.LowerChar | QuickLoadScene.cs:134 | the result is never an upper-case letter; an upper-case letter becomes the lower-case letter at the same position in the alphabet, and any other character is unchanged |
| Text.ToLower | QuickLoadScene.cs:134 | same length; no upper-case letter is left; each character is a case variant of the original |
| Text.Contains | QuickLoadScene.cs:134 | true exactly when the substring occurs at some index |
| SceneFilter.ExtractName | QuickLoadScene.cs:129-131 | succeeds exactly when the last '.' lies at or after the character following the last '/'; a name never contains '/' |
| SceneFilter.ExtractNameSplitsPath | QuickLoadScene.cs:129-131 | a successful extraction splits the path into directory (empty or ending in '/'), name and extension (starting at the last '.', with no '/' after the directory) |
| SceneFilter.ExtractNameOfSplit | QuickLoadScene.cs:129-131 | conversely, for every such split of a path, extraction returns exactly that name |
| SceneFilter.ExtractNameFailsIff | QuickLoadScene.cs:129-131 | extraction throws exactly when the last path segment holds no '.' |
| SceneFilter.IsNullOrEmpty | QuickLoadScene.cs:132 | true exactly for a null query and the empty query |
| SceneFilter.Matches | QuickLoadScene.cs:132-134 | a null or empty query matches every name; any other query matches exactly when the lower-cased query occurs somewhere in the lower-cased name |
| SceneFilter.EntryOf | QuickLoadScene.cs:129-138 | the entry of one path exists exactly when its name can be extracted, and pairs that name with the untouched path |
| SceneFilter.Walk | QuickLoadScene.cs:127-139 | the walk never lists more entries than it visits, and a thrown error names a failed entry |
| SceneFilter.Filter | QuickLoadScene.cs:123-140 | Research never lists more scenes than there are paths, and a thrown error names a path whose name cannot be extracted |
| SceneFilter.WalkSucceedsIff | QuickLoadScene.cs:127-131 | the walk completes exactly when no entry failed |
| SceneFilter.FilterSucceedsIff | QuickLoadScene.cs:127-131 | Research completes exactly when every path has an extractable name |
| SceneFilter.WalkStopsAtFirstError | QuickLoadScene.cs:127-131 | a thrown walk stopped at its first failed entry, holding what a complete walk over the entries before it lists |
| SceneFilter.FilterStopsAtFirstBadPath | QuickLoadScene.cs:127-131 | when Research throws, it is at the first unnamed path, and the list is what a complete Research over the paths before it gives |
| SceneFilter.WalkKeepsAllWithoutQuery | QuickLoadScene.cs:132-138 | with a null or empty query, the walk lists every entry, in order |
| SceneFilter.FilterKeepsAllWithoutQuery | QuickLoadScene.cs:132-138 | with a null or empty query, Research lists one scene per path, in order, each named by its path |
| SceneFilter.KeptAreTheMatches | QuickLoadScene.cs:132-138 | the kept indices strictly ascend, and an index is kept exactly when its name matches the query |
| SceneFilter.WalkListsKeptInOrder | QuickLoadScene.cs:127-139 | a complete walk lists exactly the entries at the kept indices, in order |
| SceneFilter.FilterListsMatchesInOrder | QuickLoadScene.cs:123-140 | a complete Research is the order-preserving subsequence of the scenes whose lower-cased names contain the lower-cased query |
| SceneFilter.WalkIgnoresQueryCase | QuickLoadScene.cs:134 | queries that differ only in letter case give the same walk |
| SceneFilter.FilterIgnoresQueryCase | QuickLoadScene.cs:134 | queries that differ only in letter case give the same Research |
| SceneFilter.ExampleNames | QuickLoadScene.cs:129-131 | "Assets/Level1.unity" is named "Level1" and "Assets/Boss2.unity" is named "Boss2" |
| SceneFilter.ExampleEntries | QuickLoadScene.cs:129-135 | the entries of those two paths pair each name with its path |
| SceneFilter.ExampleMatches | QuickLoadScene.cs:134 | the query "level" matches "Level1" and does not match "Boss2" |
| SceneFilter.ExampleWalk | QuickLoadScene.cs:132-138 | a walk over two named entries, where only the first matches, lists only the first |
| SceneFilter.ExampleLevelQuery | QuickLoadScene.cs:123-140 | Research over those two paths with the query "level" lists Level1 alone and completes |
| Window.Trace | QuickLoadScene.cs:97-117 | no host call exactly for a command that does nothing; the window is closed exactly by X and by a selection; a selection opens the path of its result |
| Window.Decode | QuickLoadScene.cs:90-117 | only a key-down with shortcuts on does anything; R refreshes and X closes exactly on their key; a selection names a listed result whose shortcut is the pressed key |
| Window.KeyIndex | QuickLoadScene.cs:32-43 | a key has an index exactly when it is in the shortcut table, and that index is its position there |
| Window.DecodeOpensListedResults | QuickLoadScene.cs:88-121 | an event opens result i exactly when it is a key-down of the i-th shortcut key, shortcuts are not ignored, and result i is listed |
| Window.DecodeIgnoresUnlistedKeys | QuickLoadScene.cs:109-120 | a key that is not None, R or X, and is not the shortcut of a listed result, does nothing |
| Window.LabelShowsSelectingKey | QuickLoadScene.cs:81-82 | the number drawn before result i is the digit of the key that selects it; results drawn with "-" have no key |
| Window.IndexLabel | QuickLoadScene.cs:82 | the first nine results are labelled with the single digit of their one-based number, the rest with "-" |
| Window.Rows | QuickLoadScene.cs:81-82 | one row per result, each starting with its index label and ending with the scene's name, four spaces between them |
| SceneFilter.WalkStep | QuickLoadScene.cs:127-138 | one more loop iteration of Research: it throws on an unnamed path, appends a matching entry, or skips it |
| SceneFilter.WalkKeepsFirstError | QuickLoadScene.cs:127-131 | once the walk has thrown on a prefix, the remaining paths change nothing |
| Window.SceneWindow.constructor | QuickLoadScene.cs:24-30 | a new window is open, with a null query, no scenes, no results and shortcuts on |
| Window.SceneWindow.OnEnable | QuickLoadScene.cs:52-60 | reads the build-settings scene list and runs Research; the results and the error are what Filter gives |
| Window.SceneWindow.Research | QuickLoadScene.cs:123-140 | the list and the exception are exactly Filter of the current paths and query; nothing else changes |
| Window.SceneWindow.Refresh | QuickLoadScene.cs:142-147 | re-reads the scene list and runs Research; repaints only when Research did not throw |
| Window.SceneWindow.Close | QuickLoadScene.cs:105 | the window is closed and the close is recorded; nothing else changes |
| Window.SceneWindow.OpenShortcut | QuickLoadScene.cs:109-117 | a result is selected exactly when the key's index in the table is below the result count; then the window saves, opens that result's path and closes, and otherwise nothing changes |
| Window.SceneWindow.CheckInputs | QuickLoadScene.cs:88-121 | for each case of Decode: Ignore changes nothing; R refreshes, stays open and repaints unless it threw; X closes; a listed shortcut saves, opens its path and closes. The host calls are exactly Trace of the command, or none when the refresh threw; the refresh's exception is returned as the error; the result is true exactly when the window closed |
| Window.SceneWindow.OnGui | QuickLoadScene.cs:62-83 | the window ends closed exactly when the command is X or a listed selection; the scene list changes only on R; the host calls are exactly Trace of the shortcut's command, or none when its refresh threw; a throwing refresh ends the pass with its error; a closing shortcut ends the pass with nothing drawn and the query and toggle untouched; otherwise an edit sets the query and re-runs Research, and the pass throws exactly when that Research throws, and draws otherwise; the toggle takes its new value exactly when the pass draws; a thrown error is the one Research of the current scenes and query gives; the rows drawn are Rows of the result list |

## Left out

- IMGUI drawing is not modelled: the help box, the layout groups, the "Results:" label and its style, and the dark skin. `OnGui` returns the rows' text only.
- `Init` and the `MenuItem` entries are not modelled. They only open the window through the editor.
- Window.SceneWindow.OnGui: the search field is not modelled. The user's edit is a parameter `edit`, and `Some` stands for a change the change check reports. Keyboard focus (`SetFocus`) is not modelled either.
- Text.ToLower: folds only the ASCII letters A-Z. It does not model culture-sensitive lower-casing of other characters.
- Text.Contains: compares characters ordinally, as `string.Contains(string)` does. It does not model culture-aware comparison. A Dafny `char` is a Unicode scalar value, not a UTF-16 code unit as in .NET. So a character outside the Basic Multilingual Plane is one character here and two code units there, and a lone surrogate cannot be represented.
- The editor calls (`SaveCurrentModifiedScenesIfUserWantsTo`, `OpenScene`, `Close`, `Repaint`, `GetActiveSceneList`) are not modelled. The first four are entries in the ghost trace `effects`, and the scene list is the parameter `host`.
- Window.SceneWindow.OpenShortcut: `SaveCurrentModifiedScenesIfUserWantsTo` returns whether the user agreed, and the code ignores that value. So the model records the save and always opens the scene. Whether the editor then refuses to open a scene is not modelled.
- Window.SceneWindow.CheckInputs: requires an open window, as does `OnGui`. The editor sends no events to a closed window.
- An exception thrown inside `OnGUI` is returned as the frame `Threw`. Whatever the editor does with it afterwards is not modelled.
- Neither the deserialisation of the window's fields by the editor nor domain reloads are modelled.
