/** The path and expiry rules of `SessionManager`. The filesystem is replaced
    by inputs: the data directory is a parsed absolute path, a session
    directory's status is an optional `Entry`, and the data directory's
    children are a map from name to `Entry`. Times are seconds as reals. */
module Sessions {
  import opened Results
  import opened Text
  import opened PurePaths
  import Config

  /** `session_lifetime`: the configured hours in seconds. */
  const Lifetime: real := (Config.SessionLifetimeHours * 3600) as real

  /** A directory entry as `stat` and `is_dir` report it. */
  datatype Entry = Entry(isDir: bool, mtime: real)

  /** The children of the user data directory, by name. */
  type Listing = map<string, Entry>

  /** `get_session_dir`: the data directory joined with the id. */
  function SessionDir(root: PPath, id: string): (d: PPath)
    ensures WellFormed(root) ==> WellFormed(d)
    ensures |id| > 0 && id[0] == '/' ==> d == Parse(id)
    ensures !(|id| > 0 && id[0] == '/') ==>
              d.absolute == root.absolute && |root.parts| <= |d.parts| && d.parts[..|root.parts|] == root.parts
  {
    JoinPath(root, Parse(id))
  }

  /** `Path(c)` of a single component is that component. */
  lemma ParseComponent(c: string)
    requires IsPart(c)
    ensures Parse(c) == PPath(false, [c])
  {
    SplitNoSeparator(c, '/');
  }

  /** A session id that is a plain name (as `token_urlsafe` produces) names the
      child directory of that name. */
  lemma SessionDirOfPlainId(root: PPath, id: string)
    requires IsPart(id)
    ensures SessionDir(root, id) == PPath(root.absolute, root.parts + [id])
    ensures Name(SessionDir(root, id)) == id
  {
    ParseComponent(id);
  }

  /** An absolute id is not placed under the data directory at all. */
  lemma SessionDirOfAbsoluteId(root: PPath, id: string)
    requires |id| > 0 && id[0] == '/'
    ensures SessionDir(root, id) == Parse(id)
  {
  }

  // ---------------------------------------------------------------------------
  // safe_path
  // ---------------------------------------------------------------------------

  const TraversalMessage := "Invalid path: directory traversal detected"

  /** `get_session_dir(id).resolve()`. */
  function SessionBase(root: PPath, id: string): PPath
    requires root.absolute
  {
    Resolve(SessionDir(root, id))
  }

  /** `(base / Path(*parts)).resolve()`. */
  function SafeTarget(root: PPath, id: string, parts: seq<string>): PPath
    requires root.absolute
  {
    Resolve(JoinPath(SessionBase(root, id), FromParts(parts)))
  }

  /** `safe_path` as written: the text of the resolved target must start with
      the text of the resolved base. */
  function SafePath(root: PPath, id: string, parts: seq<string>): (r: Result<PPath>)
    requires root.absolute
    ensures r.Ok? <==> StartsWith(Str(SafeTarget(root, id, parts)), Str(SessionBase(root, id)))
    ensures r.Ok? ==> r.value == SafeTarget(root, id, parts)
    ensures r.Ok? ==> r.value.absolute && ".." !in r.value.parts
    ensures r.Err? ==> r.error == TraversalMessage
  {
    var base := SessionBase(root, id);
    var target := SafeTarget(root, id, parts);
    if !StartsWith(Str(target), Str(base)) then Err(TraversalMessage) else Ok(target)
  }

  /** `base` is `t` or one of its ancestors, component by component. */
  predicate Within(base: PPath, t: PPath) {
    |base.parts| <= |t.parts| && t.parts[..|base.parts|] == base.parts
  }

  /** `safe_path` with the containment test on components: a target is
      accepted only when the base is the target or one of its ancestors. */
  function SafePathContained(root: PPath, id: string, parts: seq<string>): (r: Result<PPath>)
    requires root.absolute
    ensures r.Ok? <==> Within(SessionBase(root, id), SafeTarget(root, id, parts))
    ensures r.Ok? ==> r.value == SafeTarget(root, id, parts)
    ensures r.Err? ==> r.error == TraversalMessage
  {
    var base := SessionBase(root, id);
    var target := SafeTarget(root, id, parts);
    if !Within(base, target) then Err(TraversalMessage) else Ok(target)
  }

  /** Lexical normalisation leaves a ".."-free list alone. */
  lemma NormalizeIdempotent(b: seq<string>)
    requires ".." !in b
    ensures Normalize(b) == b
  {
    NormalizeAppendPlain([], b);
    assert [] + b == b;
  }

  lemma StartsWithConcat(x: string, y: string)
    ensures StartsWith(x + y, x)
  {
    assert (x + y)[..|x|] == x;
  }

  /** Adding components to an absolute path extends its text. */
  lemma StrExtends(b: seq<string>, rest: seq<string>)
    ensures StartsWith(Str(PPath(true, b + rest)), Str(PPath(true, b)))
  {
    if |b| == 0 {
      StrExtendsRoot(rest);
      assert b + rest == rest;
    } else if |rest| == 0 {
      assert b + rest == b;
      StartsWithConcat(Str(PPath(true, b)), "");
      assert Str(PPath(true, b)) + "" == Str(PPath(true, b));
    } else {
      StrExtendsBoth(b, rest);
    }
  }

  lemma StrExtendsRoot(rest: seq<string>)
    ensures StartsWith(Str(PPath(true, rest)), "/")
  {
    StartsWithConcat("/", Join(rest, "/"));
  }

  lemma StrExtendsBoth(b: seq<string>, rest: seq<string>)
    requires |b| >= 1 && |rest| >= 1
    ensures StartsWith(Str(PPath(true, b + rest)), Str(PPath(true, b)))
  {
    var jb := Join(b, "/");
    var jr := Join(rest, "/");
    JoinAppend(b, rest, "/");
    assert "/" + (jb + "/" + jr) == ("/" + jb) + ("/" + jr);
    StartsWithConcat("/" + jb, "/" + jr);
  }

  /** Relative parts with no ".." component land below the base: the result
      is the base followed by exactly those components. */
  lemma SafePathPlain(root: PPath, id: string, parts: seq<string>)
    requires root.absolute
    requires !FromParts(parts).absolute && ".." !in FromParts(parts).parts
    ensures SafePath(root, id, parts) == Ok(PPath(true, SessionBase(root, id).parts + FromParts(parts).parts))
    ensures SafePathContained(root, id, parts) == SafePath(root, id, parts)
  {
    var b := SessionBase(root, id).parts;
    var p := FromParts(parts).parts;
    NormalizeAppendPlain(b, p);
    NormalizeIdempotent(b);
    assert SafeTarget(root, id, parts) == PPath(true, b + p);
    StrExtends(b, p);
    assert (b + p)[..|b|] == b;
  }

  /** Plain file names, one per argument, join to themselves. */
  lemma {:induction false} FromPartsComponents(parts: seq<string>)
    requires forall i :: 0 <= i < |parts| ==> IsPart(parts[i]) && parts[i] != ".."
    ensures FromParts(parts) == PPath(false, parts)
    decreases |parts|
  {
    if |parts| > 0 {
      var init := parts[..|parts| - 1];
      FromPartsComponents(init);
      ParseComponent(parts[|parts| - 1]);
      assert init + [parts[|parts| - 1]] == parts;
    }
  }

  /** Going up from a non-root base is refused: the parent's text is shorter
      than the base's. */
  lemma SafePathRejectsParent(root: PPath, id: string)
    requires root.absolute && WellFormed(root)
    requires |SessionBase(root, id).parts| >= 1
    ensures SafePath(root, id, [".."]).Err?
    ensures SafePathContained(root, id, [".."]).Err?
  {
    var b := SessionBase(root, id).parts;
    var up := b[..|b| - 1];
    ParentTarget(root, id);
    ShorterText(up, b[|b| - 1]);
  }

  /** The parent of a non-root base resolves to the base minus its last
      component, which is a plain name. */
  lemma ParentTarget(root: PPath, id: string)
    requires root.absolute && WellFormed(root)
    requires |SessionBase(root, id).parts| >= 1
    ensures var b := SessionBase(root, id).parts;
            && SafeTarget(root, id, [".."]) == PPath(true, b[..|b| - 1])
            && b == b[..|b| - 1] + [b[|b| - 1]]
            && IsPart(b[|b| - 1])
  {
    ParentOf(SessionBase(root, id));
    BaseWellFormed(root, id);
  }

  /** Resolving `base / ".."` drops the last component of a resolved base. */
  lemma ParentOf(base: PPath)
    requires base.absolute && ".." !in base.parts && |base.parts| >= 1
    ensures var b := base.parts;
            && Resolve(JoinPath(base, FromParts([".."]))) == PPath(true, b[..|b| - 1])
            && b == b[..|b| - 1] + [b[|b| - 1]]
  {
    ParentPart();
    NormalizeUp(base.parts);
  }

  /** A data directory of plain names gives a session base of plain names. */
  lemma BaseWellFormed(root: PPath, id: string)
    requires root.absolute && WellFormed(root)
    ensures WellFormed(SessionBase(root, id))
  {
    assert WellFormed(SessionDir(root, id));
  }

  /** `Path("..")` is the single component "..". */
  lemma ParentPart()
    ensures FromParts([".."]) == PPath(false, [".."])
  {
    SplitNoSeparator("..", '/');
  }

  /** Normalising a ".."-free list followed by ".." drops its last element. */
  lemma NormalizeUp(b: seq<string>)
    requires ".." !in b && |b| >= 1
    ensures Normalize(b + [".."]) == b[..|b| - 1]
    ensures b == b[..|b| - 1] + [b[|b| - 1]]
  {
    assert (b + [".."])[..|b|] == b;
    NormalizeIdempotent(b);
  }

  /** Dropping a plain last component shortens an absolute path's text. */
  lemma ShorterText(up: seq<string>, last: string)
    requires IsPart(last)
    ensures |Str(PPath(true, up))| < |Str(PPath(true, up + [last]))|
  {
    if |up| == 0 {
      assert up + [last] == [last];
    } else {
      JoinAppend(up, [last], "/");
    }
  }

  /** The data directory used in the examples below. */
  const ExampleRoot := PPath(true, ["data"])

  /** As written, `safe_path` lets a part climb into a sibling whose name
      extends the session's name: "/data/s1x" starts with "/data/s1". */
  lemma SafePathAcceptsSibling()
    ensures SafePath(ExampleRoot, "s1", ["../s1x"]) == Ok(PPath(true, ["data", "s1x"]))
    ensures !Within(SessionBase(ExampleRoot, "s1"), PPath(true, ["data", "s1x"]))
  {
    ExampleTarget();
    ExampleTexts();
  }

  lemma ExampleTexts()
    ensures StartsWith(Str(PPath(true, ["data", "s1x"])), Str(PPath(true, ["data", "s1"])))
  {
    assert Str(PPath(true, ["data", "s1"])) == "/data/s1";
    assert Str(PPath(true, ["data", "s1x"])) == "/data/s1x";
    assert "/data/s1x"[..|"/data/s1"|] == "/data/s1";
  }

  lemma ExampleBase()
    ensures SessionBase(ExampleRoot, "s1") == PPath(true, ["data", "s1"])
  {
    ParseComponent("s1");
    NormalizeIdempotent(["data", "s1"]);
  }

  lemma ExamplePart()
    ensures FromParts(["../s1x"]) == PPath(false, ["..", "s1x"])
  {
    ExampleSplit();
    assert KeepParts(["..", "s1x"]) == ["..", "s1x"];
    assert Parse("../s1x") == PPath(false, ["..", "s1x"]);
  }

  lemma ExampleSplit()
    ensures Split("../s1x", '/') == ["..", "s1x"]
  {
    assert "../s1x" == ".." + ['/'] + "s1x";
    SplitPrefix("..", "s1x", '/');
    SplitNoSeparator("s1x", '/');
  }

  lemma ExampleUp()
    ensures Normalize(["data", "s1", ".."]) == ["data"]
  {
    assert ["data", "s1", ".."][..2] == ["data", "s1"];
    NormalizeIdempotent(["data", "s1"]);
  }

  lemma ExampleNormalize()
    ensures Normalize(["data", "s1"] + ["..", "s1x"]) == ["data", "s1x"]
  {
    assert ["data", "s1"] + ["..", "s1x"] == ["data", "s1", ".."] + ["s1x"];
    NormalizeAppendPlain(["data", "s1", ".."], ["s1x"]);
    ExampleUp();
  }

  lemma ExampleTarget()
    ensures SessionBase(ExampleRoot, "s1") == PPath(true, ["data", "s1"])
    ensures SafeTarget(ExampleRoot, "s1", ["../s1x"]) == PPath(true, ["data", "s1x"])
  {
    ExampleBase();
    ExamplePart();
    ExampleNormalize();
  }

  /** The component test refuses the same sibling. */
  lemma SafePathContainedRejectsSibling()
    ensures SafePathContained(ExampleRoot, "s1", ["../s1x"]).Err?
  {
    SafePathAcceptsSibling();
  }

  /** Whatever the component test accepts, the text test accepts too, with the
      same path; so the corrected rule only removes the siblings. */
  lemma SafePathContainedRefines(root: PPath, id: string, parts: seq<string>)
    requires root.absolute
    requires SafePathContained(root, id, parts).Ok?
    ensures SafePath(root, id, parts) == SafePathContained(root, id, parts)
  {
    var b := SessionBase(root, id).parts;
    var t := SafeTarget(root, id, parts).parts;
    assert SessionBase(root, id) == PPath(true, b);
    assert SafeTarget(root, id, parts) == PPath(true, t);
    assert t == b + t[|b|..];
    StrExtends(b, t[|b|..]);
  }

  // ---------------------------------------------------------------------------
  // Expiry
  // ---------------------------------------------------------------------------

  /** `validate_session`, given the status of the session directory (`None`
      when it does not exist). */
  function ValidateSession(id: string, dir: Option<Entry>, now: real): (ok: bool)
    ensures id == "" ==> !ok
    ensures dir.None? ==> !ok
    ensures id != "" && dir.Some? ==> (ok <==> now - dir.value.mtime <= Lifetime)
  {
    if id == "" then false
    else if dir.None? then false
    else if now - dir.value.mtime > Lifetime then false
    else true
  }

  /** `cleanup_old_sessions`' test: a directory older than the cutoff. */
  predicate Stale(e: Entry, now: real) {
    e.isDir && e.mtime < now - Lifetime
  }

  /** The status of the child named `id`. */
  function Lookup(listing: Listing, id: string): (r: Option<Entry>)
    ensures r.Some? <==> id in listing
    ensures r.Some? ==> r.value == listing[id]
  {
    if id in listing then Some(listing[id]) else None
  }

  /** `cleanup_old_sessions`: every stale directory whose removal succeeds
      disappears; `rmtree` says which removals succeed. */
  function CleanupOldSessions(dataDirExists: bool, listing: Listing, now: real,
                              rmtree: string -> bool): (r: Listing)
    ensures !dataDirExists ==> r == listing
    ensures dataDirExists ==>
              forall n :: n in r <==> n in listing && !(Stale(listing[n], now) && rmtree(n))
    ensures forall n :: n in r ==> n in listing && r[n] == listing[n]
  {
    if !dataDirExists then listing
    else map n | n in listing && !(Stale(listing[n], now) && rmtree(n)) :: listing[n]
  }

  /** For a session directory, the cleanup's "older than the cutoff" and
      `validate_session`'s "expired" are the same test at the same time. */
  lemma StaleIffExpired(listing: Listing, id: string, now: real)
    requires id != "" && id in listing && listing[id].isDir
    ensures Stale(listing[id], now) <==> !ValidateSession(id, Lookup(listing, id), now)
  {
  }

  /** After a cleanup, every session directory left validates at the same
      time unless its removal failed, and every removed one had expired. */
  lemma CleanupLeavesValidSessions(listing: Listing, now: real, rmtree: string -> bool, id: string)
    requires id != "" && id in listing && listing[id].isDir
    ensures var after := CleanupOldSessions(true, listing, now, rmtree);
            && (id in after && rmtree(id) ==> ValidateSession(id, Lookup(after, id), now))
            && (id !in after ==> !ValidateSession(id, Lookup(listing, id), now))
  {
    StaleIffExpired(listing, id, now);
  }

  // ---------------------------------------------------------------------------
  // delete_session
  // ---------------------------------------------------------------------------

  /** `delete_session` for a session directory among the data directory's
      children; `rmtreeOk` says whether the removal succeeds. */
  function DeleteSession(listing: Listing, id: string, rmtreeOk: bool): (r: (bool, Listing))
    ensures r.0 <==> id in listing && rmtreeOk
    ensures r.0 ==> r.1 == listing - {id}
    ensures !r.0 ==> r.1 == listing
  {
    if id in listing then
      if rmtreeOk then (true, listing - {id}) else (false, listing)
    else (false, listing)
  }

  /** A deleted session no longer validates, and the other sessions are untouched. */
  lemma DeletedSessionInvalid(listing: Listing, id: string, rmtreeOk: bool, now: real, other: string)
    requires DeleteSession(listing, id, rmtreeOk).0
    requires other != id
    ensures var after := DeleteSession(listing, id, rmtreeOk).1;
            && !ValidateSession(id, Lookup(after, id), now)
            && Lookup(after, other) == Lookup(listing, other)
  {
  }
}
