/**
 * The search part of the scene windows: how a scene's display name is cut out
 * of its path, which scenes a query keeps, and the list that Research builds.
 */
module SceneFilter {
  import opened Results
  import opened Text

  /** One row of the result list: the display name and the untouched build-settings path. */
  datatype Scene = Scene(name: string, path: string)

  /**
   * The display name of a scene path: the text after the last '/' and before the
   * last '.'. Substring throws when the last '.' lies before that start, which
   * includes every path without a '.'.
   */
  function ExtractName(path: string): (r: Result<string, SubstringError>)
    ensures r.Ok? <==> LastIndexOf(path, '.') >= LastIndexOf(path, '/') + 1
    ensures r.Ok? ==> '/' !in r.value
  {
    var start := LastIndexOf(path, '/') + 1;
    var end := LastIndexOf(path, '.');
    Substring(path, start, end - start)
  }

  /** The name of a path whose name can be extracted. */
  function NameOf(path: string): (r: string)
    requires ExtractName(path).Ok?
    ensures '/' !in r
  {
    ExtractName(path).value
  }

  /**
   * `path` is a directory part `dir` (empty or ending in '/'), the name, and an
   * extension `ext` that starts with the last '.', with no '/' after `dir`.
   */
  ghost predicate IsNameSplit(path: string, dir: string, name: string, ext: string) {
    && path == dir + name + ext
    && (dir == [] || dir[|dir| - 1] == '/')
    && '/' !in name + ext
    && |ext| > 0 && ext[0] == '.' && '.' !in ext[1..]
  }

  /** A successful extraction splits the path into directory, name and extension. */
  lemma ExtractNameSplitsPath(path: string)
    requires ExtractName(path).Ok?
    ensures var start, end := LastIndexOf(path, '/') + 1, LastIndexOf(path, '.');
      IsNameSplit(path, path[..start], NameOf(path), path[end..])
  {
    var start, end := LastIndexOf(path, '/') + 1, LastIndexOf(path, '.');
    var name := NameOf(path);
    assert name == path[start..end];
    assert path == path[..start] + name + path[end..];
    assert path[end..][1..] == path[end + 1..];
  }

  /** Conversely, every such split determines what ExtractName returns. */
  lemma ExtractNameOfSplit(path: string, dir: string, name: string, ext: string)
    requires IsNameSplit(path, dir, name, ext)
    ensures ExtractName(path) == Ok(name)
  {
    var slash, dot := LastIndexOf(path, '/'), LastIndexOf(path, '.');
    var n := |dir| + |name|;
    assert path[n] == '.';
    forall j | n < j < |path| ensures path[j] != '.' {
      assert path[j] == ext[1..][j - n - 1];
    }
    assert dot == n;
    forall j | |dir| <= j < |path| ensures path[j] != '/' {
      assert path[j] == (name + ext)[j - |dir|];
    }
    if dir != [] {
      assert path[|dir| - 1] == '/';
      assert slash == |dir| - 1;
    } else {
      assert slash == -1;
    }
    assert path[slash + 1..dot] == name;
  }

  /** Extraction fails exactly when the last path segment holds no '.'. */
  lemma ExtractNameFailsIff(path: string)
    ensures ExtractName(path).Err? <==> '.' !in path[LastIndexOf(path, '/') + 1..]
  {
    var start := LastIndexOf(path, '/') + 1;
    var dot := LastIndexOf(path, '.');
    if dot >= start {
      assert path[start..][dot - start] == '.';
    } else {
      forall k | 0 <= k < |path[start..]| ensures path[start..][k] != '.' {
        assert path[start..][k] == path[start + k];
      }
    }
  }

  /** string.IsNullOrEmpty on the query. */
  predicate IsNullOrEmpty(search: Option<string>): (r: bool)
    ensures r <==> search == None || search == Some("")
  {
    search.None? || search.value == ""
  }

  /** The filter rule: no query keeps everything, otherwise a case-insensitive substring match. */
  predicate Matches(name: string, search: Option<string>): (r: bool)
    ensures IsNullOrEmpty(search) ==> r
    ensures !IsNullOrEmpty(search) ==>
      (r <==> exists i :: OccursAt(ToLower(name), ToLower(search.value), i))
  {
    IsNullOrEmpty(search) || Contains(ToLower(name), ToLower(search.value))
  }

  /** The entry Research builds for one path, or the exception its name extraction throws. */
  function EntryOf(path: string): (r: Result<Scene, SubstringError>)
    ensures r.Ok? <==> ExtractName(path).Ok?
    ensures r.Ok? ==> r.value.path == path && r.value.name == NameOf(path)
  {
    var named := ExtractName(path);
    if named.Err? then Err(named.error) else Ok(Scene(named.value, path))
  }

  /** The entries of all paths, position by position. */
  function Entries(scenes: seq<string>): (es: seq<Result<Scene, SubstringError>>)
    ensures |es| == |scenes|
    ensures forall i | 0 <= i < |scenes| :: es[i] == EntryOf(scenes[i])
  {
    seq(|scenes|, i requires 0 <= i < |scenes| => EntryOf(scenes[i]))
  }

  /** The exception that escapes Research: the path at `index` has no extractable name. */
  datatype ResearchError = BadPath(index: nat, cause: SubstringError)

  /** The list Research leaves behind, and the exception it threw, if any. */
  datatype Researched = Researched(results: seq<Scene>, error: Option<ResearchError>)

  /**
   * Research's walk over the per-path entries: they are visited in order and each
   * one whose name matches is appended; the first failed entry stops the walk,
   * leaving the entries appended so far.
   */
  function Walk(entries: seq<Result<Scene, SubstringError>>, search: Option<string>): (r: Researched)
    ensures |r.results| <= |entries|
    ensures r.error.Some? ==> r.error.value.index < |entries| && entries[r.error.value.index].Err?
    decreases |entries|
  {
    if |entries| == 0 then Researched([], None)
    else
      var last := |entries| - 1;
      var before := Walk(entries[..last], search);
      if before.error.Some? then before
      else if entries[last].Err? then Researched(before.results, Some(BadPath(last, entries[last].error)))
      else
        var entry := entries[last].value;
        Researched(before.results + (if Matches(entry.name, search) then [entry] else []), None)
  }

  /** What Research computes from the scene paths and the query. */
  function Filter(scenes: seq<string>, search: Option<string>): (r: Researched)
    ensures |r.results| <= |scenes|
    ensures r.error.Some? ==> r.error.value.index < |scenes| && ExtractName(scenes[r.error.value.index]).Err?
  {
    Walk(Entries(scenes), search)
  }

  /** No entry failed. */
  ghost predicate AllOk(entries: seq<Result<Scene, SubstringError>>) {
    forall i | 0 <= i < |entries| :: entries[i].Ok?
  }

  /** Every path has an extractable name. */
  ghost predicate AllNamed(scenes: seq<string>) {
    forall i | 0 <= i < |scenes| :: ExtractName(scenes[i]).Ok?
  }

  lemma AllNamedIsAllOk(scenes: seq<string>)
    ensures AllNamed(scenes) <==> AllOk(Entries(scenes))
  {
    var es := Entries(scenes);
    assert forall i | 0 <= i < |scenes| :: es[i].Ok? <==> ExtractName(scenes[i]).Ok?;
  }

  lemma AllOkPrefix(entries: seq<Result<Scene, SubstringError>>, n: nat)
    requires n <= |entries|
    ensures AllOk(entries) ==> AllOk(entries[..n])
    ensures AllOk(entries[..n]) && (n < |entries| ==> entries[n].Ok?) ==> AllOk(entries[..n + (if n < |entries| then 1 else 0)])
  {
    assert forall i | 0 <= i < n :: entries[..n][i] == entries[i];
    if n < |entries| {
      assert forall i | 0 <= i < n + 1 :: entries[..n + 1][i] == entries[i];
    }
  }

  /** The walk completes without throwing exactly when no entry failed. */
  lemma {:induction false} WalkSucceedsIff(entries: seq<Result<Scene, SubstringError>>, search: Option<string>)
    ensures Walk(entries, search).error.None? <==> AllOk(entries)
    decreases |entries|
  {
    if |entries| > 0 {
      var last := |entries| - 1;
      var before := entries[..last];
      WalkSucceedsIff(before, search);
      if Walk(before, search).error.Some? {
        var i :| 0 <= i < last && before[i].Err?;
        assert before[i] == entries[i];
      } else if entries[last].Ok? {
        forall i | 0 <= i < |entries| ensures entries[i].Ok? {
          if i < last {
            assert before[i] == entries[i];
          }
        }
      }
    }
  }

  /** Research completes without throwing exactly when every path has a name. */
  lemma FilterSucceedsIff(scenes: seq<string>, search: Option<string>)
    ensures Filter(scenes, search).error.None? <==> AllNamed(scenes)
  {
    WalkSucceedsIff(Entries(scenes), search);
    AllNamedIsAllOk(scenes);
  }

  /** A thrown walk stopped at the first failed entry, holding what the walk over the entries before it gives. */
  lemma {:induction false} WalkStopsAtFirstError(entries: seq<Result<Scene, SubstringError>>, search: Option<string>)
    requires Walk(entries, search).error.Some?
    ensures var i := Walk(entries, search).error.value.index;
      && AllOk(entries[..i])
      && Walk(entries[..i], search) == Researched(Walk(entries, search).results, None)
    decreases |entries|
  {
    var last := |entries| - 1;
    var before := entries[..last];
    var i := Walk(entries, search).error.value.index;
    if Walk(before, search).error.Some? {
      WalkStopsAtFirstError(before, search);
      assert before[..i] == entries[..i];
    } else {
      assert i == last;
      WalkSucceedsIff(before, search);
    }
  }

  /** One more step of the walk over entries that have not thrown so far. */
  lemma WalkStep(entries: seq<Result<Scene, SubstringError>>, i: nat, search: Option<string>)
    requires i < |entries| && Walk(entries[..i], search).error.None?
    ensures var before := Walk(entries[..i], search).results;
      Walk(entries[..i + 1], search) ==
        if entries[i].Err? then Researched(before, Some(BadPath(i, entries[i].error)))
        else if Matches(entries[i].value.name, search) then Researched(before + [entries[i].value], Option.None)
        else Researched(before, Option.None)
  {
    assert entries[..i + 1][..i] == entries[..i];
  }

  /** Once a walk has thrown on a prefix, the rest of the entries are never visited. */
  lemma {:induction false} WalkKeepsFirstError(entries: seq<Result<Scene, SubstringError>>, n: nat, search: Option<string>)
    requires n <= |entries|
    requires Walk(entries[..n], search).error.Some?
    ensures Walk(entries, search) == Walk(entries[..n], search)
    decreases |entries| - n
  {
    if n < |entries| {
      assert entries[..n + 1][..n] == entries[..n];
      WalkKeepsFirstError(entries, n + 1, search);
    } else {
      assert entries[..n] == entries;
    }
  }

  /**
   * When Research throws, it threw at the first unnamed path, and the list holds
   * exactly what a complete Research over the paths before it gives.
   */
  lemma FilterStopsAtFirstBadPath(scenes: seq<string>, search: Option<string>)
    requires Filter(scenes, search).error.Some?
    ensures var i := Filter(scenes, search).error.value.index;
      && AllNamed(scenes[..i])
      && Filter(scenes[..i], search) == Researched(Filter(scenes, search).results, None)
  {
    var es := Entries(scenes);
    var i := Filter(scenes, search).error.value.index;
    WalkStopsAtFirstError(es, search);
    assert Entries(scenes[..i]) == es[..i];
    AllNamedIsAllOk(scenes[..i]);
  }

  /** Without a query the walk keeps every entry, in order. */
  lemma {:induction false} WalkKeepsAllWithoutQuery(entries: seq<Result<Scene, SubstringError>>, search: Option<string>)
    requires IsNullOrEmpty(search) && AllOk(entries)
    ensures Walk(entries, search).error.None?
    ensures |Walk(entries, search).results| == |entries|
    ensures forall i | 0 <= i < |entries| :: Walk(entries, search).results[i] == entries[i].value
    decreases |entries|
  {
    if |entries| > 0 {
      var last := |entries| - 1;
      AllOkPrefix(entries, last);
      WalkKeepsAllWithoutQuery(entries[..last], search);
    }
  }

  /** With a null or empty query, Research lists every scene, in order, one entry per path. */
  lemma FilterKeepsAllWithoutQuery(scenes: seq<string>, search: Option<string>)
    requires IsNullOrEmpty(search) && AllNamed(scenes)
    ensures Filter(scenes, search).error.None?
    ensures |Filter(scenes, search).results| == |scenes|
    ensures forall i | 0 <= i < |scenes| ::
      Filter(scenes, search).results[i] == Scene(NameOf(scenes[i]), scenes[i])
  {
    AllNamedIsAllOk(scenes);
    WalkKeepsAllWithoutQuery(Entries(scenes), search);
  }

  /** The indices of the entries a query keeps, in increasing order. */
  ghost function Kept(entries: seq<Result<Scene, SubstringError>>, search: Option<string>): (r: seq<nat>)
    requires AllOk(entries)
    decreases |entries|
  {
    if |entries| == 0 then []
    else
      var last := |entries| - 1;
      AllOkPrefix(entries, last);
      Kept(entries[..last], search) + (if Matches(entries[last].value.name, search) then [last] else [])
  }

  /** The kept indices ascend strictly, and an index is kept exactly when its entry's name matches. */
  lemma {:induction false} KeptAreTheMatches(entries: seq<Result<Scene, SubstringError>>, search: Option<string>)
    requires AllOk(entries)
    ensures var ks := Kept(entries, search);
      && (forall a, b | 0 <= a < b < |ks| :: ks[a] < ks[b])
      && (forall i: int :: i in ks <==> 0 <= i < |entries| && Matches(entries[i].value.name, search))
    decreases |entries|
  {
    if |entries| > 0 {
      var last := |entries| - 1;
      var before := entries[..last];
      AllOkPrefix(entries, last);
      KeptAreTheMatches(before, search);
      var ks0, ks := Kept(before, search), Kept(entries, search);
      var tail := if Matches(entries[last].value.name, search) then [last] else [];
      assert ks == ks0 + tail;
      forall a, b | 0 <= a < b < |ks| ensures ks[a] < ks[b] {
        if b >= |ks0| {
          assert ks[a] == ks0[a] && ks0[a] in ks0;
        }
      }
      forall i: int ensures i in ks <==> 0 <= i < |entries| && Matches(entries[i].value.name, search) {
        assert i in ks <==> i in ks0 || i in tail;
        if 0 <= i < last {
          assert before[i] == entries[i];
        }
      }
    }
  }

  /** A complete walk lists, in order, exactly the kept entries. */
  lemma {:induction false} WalkListsKeptInOrder(entries: seq<Result<Scene, SubstringError>>, search: Option<string>)
    requires AllOk(entries)
    ensures var r, ks := Walk(entries, search).results, Kept(entries, search);
      && Walk(entries, search).error.None?
      && |r| == |ks|
      && forall k | 0 <= k < |ks| :: ks[k] < |entries| && r[k] == entries[ks[k]].value
    decreases |entries|
  {
    if |entries| > 0 {
      var last := |entries| - 1;
      var before := entries[..last];
      AllOkPrefix(entries, last);
      WalkListsKeptInOrder(before, search);
      var r0, ks0 := Walk(before, search).results, Kept(before, search);
      var r, ks := Walk(entries, search).results, Kept(entries, search);
      var entry := entries[last].value;
      forall k | 0 <= k < |ks| ensures ks[k] < |entries| && r[k] == entries[ks[k]].value {
        if k < |ks0| {
          assert ks[k] == ks0[k] && r[k] == r0[k];
          assert before[ks0[k]] == entries[ks0[k]];
        }
      }
    }
  }

  /**
   * A complete Research is the order-preserving subsequence of the scenes whose
   * names match the query: the k-th result is the entry of the k-th kept path, and
   * a path is kept exactly when its name matches.
   */
  lemma FilterListsMatchesInOrder(scenes: seq<string>, search: Option<string>)
    requires AllNamed(scenes)
    ensures var r, ks := Filter(scenes, search).results, Kept(Entries(scenes), search);
      && Filter(scenes, search).error.None?
      && |r| == |ks|
      && (forall a, b | 0 <= a < b < |ks| :: ks[a] < ks[b])
      && (forall k | 0 <= k < |ks| :: ks[k] < |scenes| && r[k] == Scene(NameOf(scenes[ks[k]]), scenes[ks[k]]))
      && (forall i: int :: i in ks <==> 0 <= i < |scenes| && Matches(NameOf(scenes[i]), search))
  {
    AllNamedIsAllOk(scenes);
    WalkListsKeptInOrder(Entries(scenes), search);
    KeptAreTheMatches(Entries(scenes), search);
  }

  /** Queries that differ only in letter case give the same walk. */
  lemma {:induction false} WalkIgnoresQueryCase(entries: seq<Result<Scene, SubstringError>>, q1: string, q2: string)
    requires ToLower(q1) == ToLower(q2)
    ensures Walk(entries, Some(q1)) == Walk(entries, Some(q2))
    decreases |entries|
  {
    if |entries| > 0 {
      WalkIgnoresQueryCase(entries[..|entries| - 1], q1, q2);
    }
  }

  /** Queries that differ only in letter case keep the same scenes. */
  lemma FilterIgnoresQueryCase(scenes: seq<string>, q1: string, q2: string)
    requires ToLower(q1) == ToLower(q2)
    ensures Filter(scenes, Some(q1)) == Filter(scenes, Some(q2))
  {
    WalkIgnoresQueryCase(Entries(scenes), q1, q2);
  }

  /** The two paths of the worked example name Level1 and Boss2. */
  lemma ExampleNames()
    ensures ExtractName("Assets/Level1.unity") == Ok("Level1")
    ensures ExtractName("Assets/Boss2.unity") == Ok("Boss2")
  {
    ExtractNameOfSplit("Assets/Level1.unity", "Assets/", "Level1", ".unity");
    ExtractNameOfSplit("Assets/Boss2.unity", "Assets/", "Boss2", ".unity");
  }

  /** The entries Research builds for the worked example. */
  lemma ExampleEntries()
    ensures Entries(["Assets/Level1.unity", "Assets/Boss2.unity"])
      == [Ok(Scene("Level1", "Assets/Level1.unity")), Ok(Scene("Boss2", "Assets/Boss2.unity"))]
  {
    ExampleNames();
    var es := Entries(["Assets/Level1.unity", "Assets/Boss2.unity"]);
    assert es[0] == EntryOf("Assets/Level1.unity") && es[1] == EntryOf("Assets/Boss2.unity");
  }

  /** The query "level" matches Level1 in another case, and does not match Boss2. */
  lemma ExampleMatches()
    ensures Matches("Level1", Some("level")) && !Matches("Boss2", Some("level"))
  {
    var name, query := ToLower("Level1"), ToLower("level");
    forall k | 0 <= k < 5 ensures name[k] == query[k] {
      assert LowerChar(name[k]) == LowerChar(query[k]);
    }
    assert OccursAt(name, query, 0);
    var other := ToLower("Boss2");
    assert other[0] == 'b' && query[0] == 'l';
  }

  /** A walk over two named entries, of which the query keeps only the first. */
  lemma ExampleWalk(es: seq<Result<Scene, SubstringError>>, search: Option<string>)
    requires |es| == 2 && es[0].Ok? && es[1].Ok?
    requires Matches(es[0].value.name, search) && !Matches(es[1].value.name, search)
    ensures Walk(es, search) == Researched([es[0].value], None)
  {
    assert es[..1][..0] == [] && es[..2][..1] == es[..1] && es[..2] == es;
  }

  /** The worked example: the query "level" keeps Level1 and drops Boss2. */
  lemma ExampleLevelQuery()
    ensures Filter(["Assets/Level1.unity", "Assets/Boss2.unity"], Some("level"))
      == Researched([Scene("Level1", "Assets/Level1.unity")], None)
  {
    ExampleEntries();
    ExampleMatches();
    ExampleWalk(Entries(["Assets/Level1.unity", "Assets/Boss2.unity"]), Some("level"));
  }
}
