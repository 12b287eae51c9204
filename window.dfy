/**
 * The scene window (QuickLoadScene and SceneSwitcher alike): its state, the
 * shortcut dispatcher, Research and Refresh, and what one OnGUI pass does.
 * The host editor's calls are recorded as effects in a ghost trace.
 */
module Window {
  import opened Results
  import opened Text
  import opened SceneFilter

  /** The Unity key codes the window distinguishes; every other key is the one value `Other`. */
  datatype KeyCode =
    | None | R | X
    | Alpha0 | Alpha1 | Alpha2 | Alpha3 | Alpha4 | Alpha5 | Alpha6 | Alpha7 | Alpha8 | Alpha9
    | Other

  /** Key-down events and every other kind of IMGUI event. */
  datatype EventType = KeyDown | OtherEvent

  /** The current IMGUI event. */
  datatype Event = Event(kind: EventType, keyCode: KeyCode)

  /** The host editor calls the window makes. */
  datatype Effect =
    | SaveModifiedScenes
    | OpenScene(path: string)
    | CloseWindow
    | Repaint

  /** What one OnGUI pass ends with. */
  datatype Frame =
    | Closed
    | Threw(error: ResearchError)
    | Drew(rows: seq<string>)

  /** What CheckInputs does with an event. */
  datatype Command = Ignore | RefreshList | CloseNow | Open(index: nat)

  /** The host calls a command makes, in order, when nothing it runs throws. */
  function Trace(command: Command, results: seq<Scene>): (r: seq<Effect>)
    requires command.Open? ==> command.index < |results|
    ensures command == Ignore <==> r == []
    ensures CloseWindow in r <==> command.CloseNow? || command.Open?
    ensures command.Open? ==> OpenScene(results[command.index].path) in r
  {
    match command
    case Ignore => []
    case RefreshList => [Repaint]
    case CloseNow => [CloseWindow]
    case Open(i) => [SaveModifiedScenes, OpenScene(results[i].path), CloseWindow]
  }

  /** The selection shortcuts; the key at index i selects result i. */
  const Keys: seq<KeyCode> := [Alpha1, Alpha2, Alpha3, Alpha4, Alpha5, Alpha6, Alpha7, Alpha8, Alpha9]

  /** The position of `k` in the shortcut table, if it is there. */
  function KeyIndex(k: KeyCode): (r: Option<nat>)
    ensures r.None? <==> k !in Keys
    ensures forall i | 0 <= i < |Keys| :: Keys[i] == k <==> r == Some(i)
  {
    match k
    case Alpha1 => Some(0)
    case Alpha2 => Some(1)
    case Alpha3 => Some(2)
    case Alpha4 => Some(3)
    case Alpha5 => Some(4)
    case Alpha6 => Some(5)
    case Alpha7 => Some(6)
    case Alpha8 => Some(7)
    case Alpha9 => Some(8)
    case _ => Option.None
  }

  /**
   * The dispatch rule of CheckInputs, given whether shortcuts are ignored and how
   * many results are listed: no key-down, the ignore toggle or no key do nothing;
   * R refreshes, X closes; a selection key opens its result if there is one.
   */
  function Decode(ev: Event, ignoreShortcuts: bool, count: nat): (r: Command)
    ensures r != Ignore ==> ev.kind == KeyDown && !ignoreShortcuts
    ensures r == RefreshList <==> ev.kind == KeyDown && !ignoreShortcuts && ev.keyCode == R
    ensures r == CloseNow <==> ev.kind == KeyDown && !ignoreShortcuts && ev.keyCode == X
    ensures r.Open? ==> r.index < count && r.index < |Keys| && Keys[r.index] == ev.keyCode
  {
    if ev.kind != KeyDown || ignoreShortcuts then Ignore
    else if ev.keyCode == KeyCode.None then Ignore
    else if ev.keyCode == R then RefreshList
    else if ev.keyCode == X then CloseNow
    else
      var i := KeyIndex(ev.keyCode);
      if i.Some? && i.value < count then Open(i.value) else Ignore
  }

  /** A result is selected exactly by the key-down of its shortcut while it is listed and shortcuts are on. */
  lemma DecodeOpensListedResults(ev: Event, ignoreShortcuts: bool, count: nat, i: nat)
    ensures Decode(ev, ignoreShortcuts, count) == Open(i) <==>
      ev.kind == KeyDown && !ignoreShortcuts && i < count && i < |Keys| && Keys[i] == ev.keyCode
  {
  }

  /** A selection key past the end of the list, like every unlisted key, does nothing. */
  lemma DecodeIgnoresUnlistedKeys(ev: Event, ignoreShortcuts: bool, count: nat)
    requires ev.keyCode !in {KeyCode.None, R, X}
    requires KeyIndex(ev.keyCode).None? || KeyIndex(ev.keyCode).value >= count
    ensures Decode(ev, ignoreShortcuts, count) == Ignore
  {
  }

  /** The digit printed on a number key, if it is one. */
  function DigitOf(k: KeyCode): (r: Option<char>) {
    match k
    case Alpha0 => Some('0')
    case Alpha1 => Some('1')
    case Alpha2 => Some('2')
    case Alpha3 => Some('3')
    case Alpha4 => Some('4')
    case Alpha5 => Some('5')
    case Alpha6 => Some('6')
    case Alpha7 => Some('7')
    case Alpha8 => Some('8')
    case Alpha9 => Some('9')
    case _ => Option.None
  }

  /** The label drawn before result i: its one-based number for the first nine, "-" after. */
  function IndexLabel(i: nat): (r: string)
    ensures i < 9 ==> |r| == 1 && '1' <= r[0] <= '9' && r[0] as int - '1' as int == i
    ensures i >= 9 ==> r == "-"
  {
    if i < 9 then [('0' as int + i + 1) as char] else "-"
  }

  /**
   * The number drawn before result i is the digit of the key that selects it, and
   * results drawn with "-" have no key.
   */
  lemma LabelShowsSelectingKey(k: KeyCode, i: nat)
    ensures KeyIndex(k) == Some(i) <==> DigitOf(k).Some? && IndexLabel(i) == [DigitOf(k).value]
  {
    if i < 9 {
      assert IndexLabel(i)[0] as int == '1' as int + i;
    }
  }

  /** The rows drawn for the result list. */
  function Rows(results: seq<Scene>): (r: seq<string>)
    ensures |r| == |results|
    ensures forall i | 0 <= i < |r| ::
      var number := IndexLabel(i);
      var name := results[i].name;
      && |r[i]| == |number| + 4 + |name|
      && r[i][..|number|] == number
      && r[i][|number|..|number| + 4] == "    "
      && r[i][|r[i]| - |name|..] == name
  {
    seq(|results|, i requires 0 <= i < |results| => IndexLabel(i) + "    " + results[i].name)
  }

  /** The editor window with its search state, as one class for both windows. */
  class SceneWindow {
    var search: Option<string>
    var scenes: seq<string>
    var searchScenes: seq<Scene>
    var ignoreShortcuts: bool
    var open: bool
    ghost var effects: seq<Effect>

    /** The result list is always what Research makes of the current scenes and query. */
    ghost predicate Valid()
      reads this
    {
      searchScenes == Filter(scenes, search).results
    }

    /** A window as the editor creates it, before OnEnable. */
    constructor ()
      ensures Valid() && open
      ensures search == Option.None && scenes == [] && searchScenes == []
      ensures !ignoreShortcuts && effects == []
    {
      search := Option.None;
      scenes := [];
      searchScenes := [];
      ignoreShortcuts := false;
      open := true;
      effects := [];
    }

    /** OnEnable: read the configured scene list and run the first search. */
    method OnEnable(host: seq<string>) returns (err: Option<ResearchError>)
      modifies this
      ensures Valid()
      ensures scenes == host && search == old(search)
      ensures Filter(host, search) == Researched(searchScenes, err)
      ensures ignoreShortcuts == old(ignoreShortcuts) && open == old(open) && effects == old(effects)
    {
      scenes := host;
      err := Research();
    }

    /**
     * Research: clear the list, then walk the scene paths in order, appending each
     * one whose name matches; a path without an extractable name throws.
     */
    method Research() returns (err: Option<ResearchError>)
      modifies this
      ensures Valid()
      ensures Filter(scenes, search) == Researched(searchScenes, err)
      ensures scenes == old(scenes) && search == old(search)
      ensures ignoreShortcuts == old(ignoreShortcuts) && open == old(open) && effects == old(effects)
    {
      searchScenes := [];
      ghost var es := Entries(scenes);
      var i := 0;
      while i < |scenes|
        invariant 0 <= i <= |scenes|
        invariant es == Entries(scenes)
        invariant Walk(es[..i], search) == Researched(searchScenes, Option.None)
        invariant scenes == old(scenes) && search == old(search)
        invariant ignoreShortcuts == old(ignoreShortcuts) && open == old(open) && effects == old(effects)
      {
        WalkStep(es, i, search);
        var sceneName := ExtractName(scenes[i]);
        if sceneName.Err? {
          err := Some(BadPath(i, sceneName.error));
          WalkKeepsFirstError(es, i + 1, search);
          return;
        }
        if !IsNullOrEmpty(search) {
          if Contains(ToLower(sceneName.value), ToLower(search.value)) {
            searchScenes := searchScenes + [Scene(sceneName.value, scenes[i])];
          }
        } else {
          searchScenes := searchScenes + [Scene(sceneName.value, scenes[i])];
        }
        i := i + 1;
      }
      assert es[..i] == es;
      err := Option.None;
    }

    /** Refresh: re-read the configured scene list, search again, and repaint. */
    method Refresh(host: seq<string>) returns (err: Option<ResearchError>)
      modifies this
      ensures Valid()
      ensures scenes == host && search == old(search)
      ensures Filter(host, search) == Researched(searchScenes, err)
      ensures effects == old(effects) + (if err.None? then [Repaint] else [])
      ensures ignoreShortcuts == old(ignoreShortcuts) && open == old(open)
    {
      scenes := host;
      err := Research();
      if err.None? {
        effects := effects + [Repaint];
      }
    }

    /** The host's Close: the window is gone. */
    method Close()
      modifies this
      ensures !open && effects == old(effects) + [CloseWindow]
      ensures search == old(search) && scenes == old(scenes) && searchScenes == old(searchScenes)
      ensures ignoreShortcuts == old(ignoreShortcuts)
    {
      open := false;
      effects := effects + [CloseWindow];
    }

    /**
     * The walk over the shortcut table in CheckInputs: the key at index i, when
     * result i is listed, saves, opens that result's path and closes the window.
     */
    method OpenShortcut(keyCode: KeyCode) returns (selected: bool)
      modifies this
      ensures selected <==> KeyIndex(keyCode).Some? && KeyIndex(keyCode).value < |old(searchScenes)|
      ensures selected ==>
        && !open
        && effects == old(effects) + [SaveModifiedScenes, OpenScene(old(searchScenes)[KeyIndex(keyCode).value].path), CloseWindow]
        && scenes == old(scenes) && search == old(search) && searchScenes == old(searchScenes)
        && ignoreShortcuts == old(ignoreShortcuts)
      ensures !selected ==> unchanged(this)
    {
      var i := 0;
      while i < |Keys| && !(keyCode == Keys[i] && i < |searchScenes|)
        invariant 0 <= i <= |Keys|
        invariant forall j | 0 <= j < i :: !(Keys[j] == keyCode && j < |searchScenes|)
      {
        i := i + 1;
      }
      selected := i < |Keys|;
      if selected {
        effects := effects + [SaveModifiedScenes, OpenScene(searchScenes[i].path)];
        Close();
      }
    }

    /**
     * CheckInputs: dispatch a key-down shortcut as Decode says. Returns Ok(true)
     * exactly when the window closed, and Err when the refresh it ran threw.
     */
    method CheckInputs(ev: Event, host: seq<string>) returns (r: Result<bool, ResearchError>)
      requires Valid() && open
      modifies this
      ensures Valid()
      ensures r == Ok(true) <==> !open
      ensures var command := Decode(ev, old(ignoreShortcuts), |old(searchScenes)|);
        var refreshThrew := command == RefreshList && Filter(host, old(search)).error.Some?;
        && scenes == (if command == RefreshList then host else old(scenes))
        && search == old(search) && ignoreShortcuts == old(ignoreShortcuts)
        && effects == old(effects) + (if refreshThrew then [] else Trace(command, old(searchScenes)))
        && r == (if refreshThrew then Err(Filter(host, old(search)).error.value) else Ok(command.CloseNow? || command.Open?))
      ensures Decode(ev, old(ignoreShortcuts), |old(searchScenes)|) == Ignore ==>
        r == Ok(false) && unchanged(this)
      ensures Decode(ev, old(ignoreShortcuts), |old(searchScenes)|) == RefreshList ==>
        && scenes == host && search == old(search) && ignoreShortcuts == old(ignoreShortcuts)
        && Filter(host, search) == Researched(searchScenes, if r.Err? then Some(r.error) else Option.None)
        && r != Ok(true)
        && effects == old(effects) + (if r.Ok? then [Repaint] else [])
      ensures Decode(ev, old(ignoreShortcuts), |old(searchScenes)|) == CloseNow ==>
        && r == Ok(true) && effects == old(effects) + [CloseWindow]
        && scenes == old(scenes) && search == old(search) && searchScenes == old(searchScenes)
        && ignoreShortcuts == old(ignoreShortcuts)
      ensures Decode(ev, old(ignoreShortcuts), |old(searchScenes)|).Open? ==>
        && r == Ok(true)
        && effects == old(effects) + [SaveModifiedScenes,
             OpenScene(old(searchScenes)[Decode(ev, old(ignoreShortcuts), |old(searchScenes)|).index].path),
             CloseWindow]
        && scenes == old(scenes) && search == old(search) && searchScenes == old(searchScenes)
        && ignoreShortcuts == old(ignoreShortcuts)
    {
      ghost var command := Decode(ev, ignoreShortcuts, |searchScenes|);
      if ev.kind == KeyDown && !ignoreShortcuts {
        var keyCode := ev.keyCode;
        if keyCode == KeyCode.None {
          assert command == Ignore;
          return Ok(false);
        }
        if keyCode == R {
          assert command == RefreshList;
          var err := Refresh(host);
          if err.Some? {
            return Err(err.value);
          }
          return Ok(false);
        }
        if keyCode == X {
          assert command == CloseNow;
          Close();
          return Ok(true);
        }
        var selected := OpenShortcut(keyCode);
        if selected {
          return Ok(true);
        }
        assert command == Ignore;
      }
      return Ok(false);
    }

    /**
     * One OnGUI pass: shortcuts first; a closing shortcut returns before the query
     * is read or anything is drawn. Otherwise the search field's edit (if any)
     * re-runs Research, the ignore toggle takes its new value, and the rows are drawn.
     * The host calls are those of the shortcut's command, unless its refresh threw.
     */
    method OnGui(ev: Event, host: seq<string>, edit: Option<string>, toggle: bool) returns (f: Frame)
      requires Valid() && open
      modifies this
      ensures Valid()
      ensures f.Closed? <==> !open
      ensures var command := Decode(ev, old(ignoreShortcuts), |old(searchScenes)|);
        !open <==> command.CloseNow? || command.Open?
      ensures var command := Decode(ev, old(ignoreShortcuts), |old(searchScenes)|);
        var refreshThrew := command == RefreshList && Filter(host, old(search)).error.Some?;
        && scenes == (if command == RefreshList then host else old(scenes))
        && effects == old(effects) + (if refreshThrew then [] else Trace(command, old(searchScenes)))
        && (refreshThrew ==> f == Threw(Filter(host, old(search)).error.value))
        && search == (if !f.Closed? && !refreshThrew && edit.Some? then edit else old(search))
        && ignoreShortcuts == (if f.Drew? then toggle else old(ignoreShortcuts))
      ensures var command := Decode(ev, old(ignoreShortcuts), |old(searchScenes)|);
        var refreshThrew := command == RefreshList && Filter(host, old(search)).error.Some?;
        !f.Closed? && !refreshThrew ==> (f.Threw? <==> edit.Some? && Filter(scenes, search).error.Some?)
      ensures f.Threw? ==> Filter(scenes, search).error == Some(f.error)
      ensures f.Drew? ==> f.rows == Rows(searchScenes)
    {
      ghost var command := Decode(ev, ignoreShortcuts, |searchScenes|);
      ghost var refreshThrew := command == RefreshList && Filter(host, search).error.Some?;
      ghost var trace := effects + (if refreshThrew then [] else Trace(command, searchScenes));
      var handled := CheckInputs(ev, host);
      assert effects == trace;
      if handled.Err? {
        assert refreshThrew;
        return Threw(handled.error);
      }
      assert !refreshThrew;
      if handled.value {
        return Closed;
      }
      if edit.Some? {
        search := edit;
        var err := Research();
        if err.Some? {
          return Threw(err.value);
        }
      }
      ignoreShortcuts := toggle;
      f := Drew(Rows(searchScenes));
    }
  }
}
