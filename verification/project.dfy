/** The animation project (models/project.py): an ordered timeline of frames,
    a settings record, the dictionary shape it is stored in, and the check
    of a project against the configured limits.

    The source mutates a `Project` object in place and stamps `modified`
    with the current time; here every operation returns a new value and the
    current time is the parameter `now`. Fresh frame ids use the opaque
    `token` the source draws from a uuid. */
module Projects {
  import opened Results
  import opened Text
  import Config

  datatype Frame = Frame(id: string, file: string, duration: int)

  /** The seven entries of the settings dictionary, with their types. */
  datatype Settings = Settings(
    width: int,
    height: int,
    loop: int,
    defaultDuration: int,
    transparent: bool,
    backgroundColor: string,
    alphaThreshold: int)

  datatype Project = Project(
    name: string,
    created: string,
    modified: string,
    settings: Settings,
    frames: seq<Frame>)

  /** Duration a frame gets when none is stored for it. */
  const DefaultFrameDuration: int := 100

  /** The keyword defaults of the `Project` constructor. */
  const DefaultSettings: Settings := Settings(800, 600, 0, 100, false, "#FFFFFF", 128)

  /** The id of a frame created without one: "frame-" and a uuid prefix. */
  function FreshFrameId(token: string): string {
    "frame-" + token
  }

  function Ids(frames: seq<Frame>): (ids: seq<string>)
    ensures |ids| == |frames|
    ensures forall i :: 0 <= i < |frames| ==> ids[i] == frames[i].id
  {
    seq(|frames|, i requires 0 <= i < |frames| => frames[i].id)
  }

  predicate UniqueIds(frames: seq<Frame>) {
    forall i, j :: 0 <= i < j < |frames| ==> frames[i].id != frames[j].id
  }

  predicate HasId(frames: seq<Frame>, id: string) {
    exists f :: f in frames && f.id == id
  }

  /** `Frame(file_path, duration, frame_id)`: an empty or missing id is replaced. */
  function MakeFrame(file: string, duration: int, frameId: Option<string>, token: string): (f: Frame)
    ensures f.file == file && f.duration == duration
    ensures frameId.Some? && frameId.value != "" ==> f.id == frameId.value
    ensures frameId.None? || frameId.value == "" ==> f.id == FreshFrameId(token)
  {
    var id := if frameId.Some? && frameId.value != "" then frameId.value else FreshFrameId(token);
    Frame(id, file, duration)
  }

  /** A new project with no frames, both timestamps `now`. */
  function NewProject(name: string, settings: Settings, now: string): (p: Project)
    ensures p.frames == [] && p.settings == settings && p.name == name
  {
    Project(name, now, now, settings, [])
  }

  // ---------------------------------------------------------------------------
  // Timeline operations
  // ---------------------------------------------------------------------------

  /** `add_frame`: appends one frame with a fresh id; the duration defaults
      to the project's default duration. Returns the new project and frame. */
  function AddFrame(p: Project, file: string, duration: Option<int>, token: string, now: string): (r: (Project, Frame))
    ensures |r.0.frames| == |p.frames| + 1
    ensures r.0.frames[..|p.frames|] == p.frames
    ensures r.0.frames[|p.frames|] == r.1
    ensures r.1 == Frame(FreshFrameId(token), file, duration.GetOr(p.settings.defaultDuration))
    ensures r.0.settings == p.settings && r.0.name == p.name && r.0.created == p.created
    ensures r.0.modified == now
  {
    var f := MakeFrame(file, duration.GetOr(p.settings.defaultDuration), None, token);
    (p.(frames := p.frames + [f], modified := now), f)
  }

  /** The frames whose id differs from `id`, in their original order. */
  function FramesWithout(frames: seq<Frame>, id: string): (r: seq<Frame>)
    ensures |r| <= |frames|
    ensures forall f :: f in r <==> f in frames && f.id != id
    ensures !HasId(frames, id) ==> r == frames
    decreases |frames|
  {
    if |frames| == 0 then []
    else
      var rest := FramesWithout(frames[1..], id);
      assert frames == [frames[0]] + frames[1..];
      if frames[0].id == id then rest else [frames[0]] + rest
  }

  /** Removing distributes over concatenation: the relative order of the kept
      frames is the order they had. */
  lemma {:induction false} FramesWithoutAppend(a: seq<Frame>, b: seq<Frame>, id: string)
    ensures FramesWithout(a + b, id) == FramesWithout(a, id) + FramesWithout(b, id)
    decreases |a|
  {
    if |a| > 0 {
      assert (a + b)[1..] == a[1..] + b;
      FramesWithoutAppend(a[1..], b, id);
    } else {
      assert a + b == b;
    }
  }

  /** `remove_frame`. */
  function RemoveFrame(p: Project, id: string, now: string): (r: Project)
    ensures r.frames == FramesWithout(p.frames, id)
    ensures r.settings == p.settings && r.name == p.name && r.created == p.created
    ensures r.modified == now
  {
    p.(frames := FramesWithout(p.frames, id), modified := now)
  }

  /** Removing the frame `AddFrame` just appended gives back the old timeline,
      provided its fresh id was not already in use. */
  lemma AddThenRemove(p: Project, file: string, duration: Option<int>, token: string, now: string, later: string)
    requires !HasId(p.frames, FreshFrameId(token))
    ensures RemoveFrame(AddFrame(p, file, duration, token, now).0, FreshFrameId(token), later).frames == p.frames
  {
    var r := AddFrame(p, file, duration, token, now);
    assert r.0.frames == p.frames + [r.1];
    FramesWithoutAppend(p.frames, [r.1], FreshFrameId(token));
    assert FramesWithout([r.1], FreshFrameId(token)) == [];
  }

  /** The frame `{f.id: f for f in frames}[id]` picks: the LAST frame with that id. */
  function LastWithId(frames: seq<Frame>, id: string): (r: Option<Frame>)
    ensures r.Some? <==> HasId(frames, id)
    ensures r.Some? ==> r.value in frames && r.value.id == id
    ensures r.Some? ==> exists k :: 0 <= k < |frames| && frames[k] == r.value
                                    && forall j :: k < j < |frames| ==> frames[j].id != id
    decreases |frames|
  {
    if |frames| == 0 then None
    else
      var last := frames[|frames| - 1];
      assert frames == frames[..|frames| - 1] + [last];
      if last.id == id then Some(last) else LastWithId(frames[..|frames| - 1], id)
  }

  /** The reordered timeline: for each listed id that exists, in list order,
      the frame the id map holds for it. */
  function Reordered(frames: seq<Frame>, ids: seq<string>): (r: seq<Frame>)
    ensures |r| <= |ids|
    ensures forall f :: f in r ==> f in frames && f.id in ids
    decreases |ids|
  {
    if |ids| == 0 then []
    else
      var head := match LastWithId(frames, ids[0]) case Some(f) => [f] case None => [];
      head + Reordered(frames, ids[1..])
  }

  /** `reorder_frames`. */
  function ReorderFrames(p: Project, ids: seq<string>, now: string): (r: Project)
    ensures r.frames == Reordered(p.frames, ids)
    ensures r.settings == p.settings && r.name == p.name && r.created == p.created
    ensures r.modified == now
  {
    p.(frames := Reordered(p.frames, ids), modified := now)
  }

  lemma {:induction false} ReorderedAppend(frames: seq<Frame>, a: seq<string>, b: seq<string>)
    ensures Reordered(frames, a + b) == Reordered(frames, a) + Reordered(frames, b)
    decreases |a|
  {
    if |a| > 0 {
      assert (a + b)[0] == a[0];
      assert (a + b)[1..] == a[1..] + b;
      ReorderedAppend(frames, a[1..], b);
    } else {
      assert a + b == b;
    }
  }

  /** An id listed twice yields its frame twice: the source does not
      deduplicate the list it is given. */
  lemma ReorderedRepeatsListedId(frames: seq<Frame>, id: string)
    requires HasId(frames, id)
    ensures |Reordered(frames, [id, id])| == 2
    ensures Reordered(frames, [id, id])[0] == Reordered(frames, [id, id])[1]
  {
    assert Reordered(frames, [id, id]) == [LastWithId(frames, id).value] + Reordered(frames, [id]);
  }

  lemma LastWithIdUnique(frames: seq<Frame>, k: nat)
    requires UniqueIds(frames) && k < |frames|
    ensures LastWithId(frames, frames[k].id) == Some(frames[k])
  {
    assert frames[k] in frames;
    var r := LastWithId(frames, frames[k].id);
    var k' :| 0 <= k' < |frames| && frames[k'] == r.value && forall j :: k' < j < |frames| ==> frames[j].id != frames[k].id;
    assert frames[k'].id == frames[k].id;
  }

  /** When frame ids are unique and every listed id names a frame, the i-th
      frame of the result is the frame named by the i-th listed id. */
  lemma {:induction false} ReorderedByExistingIds(frames: seq<Frame>, ids: seq<string>)
    requires UniqueIds(frames)
    requires forall i :: 0 <= i < |ids| ==> HasId(frames, ids[i])
    ensures |Reordered(frames, ids)| == |ids|
    ensures forall i :: 0 <= i < |ids| ==> Reordered(frames, ids)[i].id == ids[i]
    decreases |ids|
  {
    if |ids| > 0 {
      ReorderedByExistingIds(frames, ids[1..]);
      var f := LastWithId(frames, ids[0]).value;
      assert Reordered(frames, ids) == [f] + Reordered(frames, ids[1..]);
    }
  }

  ghost predicate Distinct<T>(s: seq<T>) {
    forall i, j :: 0 <= i < j < |s| ==> s[i] != s[j]
  }

  lemma DistinctMultiset<T>(s: seq<T>)
    requires Distinct(s)
    ensures forall x :: multiset(s)[x] == if x in s then 1 else 0
  {
    if |s| > 0 {
      DistinctMultiset(s[1..]);
      assert s == [s[0]] + s[1..];
      assert s[0] !in s[1..];
    }
  }

  /** Two duplicate-free sequences with the same elements are permutations of each other. */
  lemma DistinctSameElements<T>(a: seq<T>, b: seq<T>)
    requires Distinct(a) && Distinct(b)
    requires forall x :: x in a <==> x in b
    ensures multiset(a) == multiset(b)
  {
    DistinctMultiset(a);
    DistinctMultiset(b);
    assert forall x :: multiset(a)[x] == multiset(b)[x];
  }

  lemma RepeatCountsTwice<T>(s: seq<T>, i: nat, j: nat)
    requires i < j < |s| && s[i] == s[j]
    ensures multiset(s)[s[i]] >= 2
  {
    assert s == s[..j] + s[j..];
    assert s[..j][i] == s[i];
    assert s[j..][0] == s[j];
  }

  /** A rearrangement of the ids of a timeline with unique ids is duplicate-free
      and names only existing frames. */
  lemma RearrangedIds(frames: seq<Frame>, ids: seq<string>)
    requires UniqueIds(frames)
    requires multiset(ids) == multiset(Ids(frames))
    ensures Distinct(ids) && |ids| == |frames|
    ensures forall i :: 0 <= i < |ids| ==> HasId(frames, ids[i])
  {
    assert |ids| == |frames| by {
      assert |multiset(ids)| == |multiset(Ids(frames))|;
    }
    assert Distinct(Ids(frames));
    DistinctMultiset(Ids(frames));
    forall i, j | 0 <= i < j < |ids|
      ensures ids[i] != ids[j]
    {
      if ids[i] == ids[j] {
        RepeatCountsTwice(ids, i, j);
        assert false;
      }
    }
    forall i | 0 <= i < |ids|
      ensures HasId(frames, ids[i])
    {
      assert ids[i] in multiset(Ids(frames));
      var k :| 0 <= k < |frames| && Ids(frames)[k] == ids[i];
      assert frames[k] in frames;
    }
  }

  /** Reordering by a rearrangement of the timeline's own ids is a
      permutation of the timeline. */
  lemma ReorderedPermutes(frames: seq<Frame>, ids: seq<string>)
    requires UniqueIds(frames)
    requires multiset(ids) == multiset(Ids(frames))
    ensures Ids(Reordered(frames, ids)) == ids
    ensures multiset(Reordered(frames, ids)) == multiset(frames)
  {
    var r := Reordered(frames, ids);
    RearrangedIds(frames, ids);
    ReorderedByExistingIds(frames, ids);
    assert Distinct(r) by {
      forall i, j | 0 <= i < j < |r| ensures r[i] != r[j] {
        assert r[i].id == ids[i] && r[j].id == ids[j];
      }
    }
    assert Distinct(frames);
    forall k | 0 <= k < |frames|
      ensures frames[k] in r
    {
      assert frames[k].id in multiset(ids) by { assert Ids(frames)[k] == frames[k].id; }
      var i :| 0 <= i < |ids| && ids[i] == frames[k].id;
      assert r[i] in r && r[i] in frames;
      LastWithIdUnique(frames, k);
    }
    DistinctSameElements(r, frames);
  }

  /** Reordering by the timeline's own ids leaves it as it is. */
  lemma ReorderedIdentity(frames: seq<Frame>)
    requires UniqueIds(frames)
    ensures Reordered(frames, Ids(frames)) == frames
  {
    ReorderedPermutes(frames, Ids(frames));
    var r := Reordered(frames, Ids(frames));
    forall i | 0 <= i < |frames|
      ensures r[i] == frames[i]
    {
      assert r[i] in frames;
      var k :| 0 <= k < |frames| && frames[k] == r[i];
      assert frames[k].id == frames[i].id;
    }
  }

  /** Position of the first frame with the given id. */
  function FirstIndexOf(frames: seq<Frame>, id: string): (k: Option<nat>)
    ensures k.None? <==> !HasId(frames, id)
    ensures k.Some? ==> k.value < |frames| && frames[k.value].id == id
    ensures k.Some? ==> forall j :: 0 <= j < k.value ==> frames[j].id != id
    decreases |frames|
  {
    if |frames| == 0 then None
    else if frames[0].id == id then Some(0)
    else
      assert forall f :: f in frames[1..] ==> f in frames;
      assert frames == [frames[0]] + frames[1..];
      match FirstIndexOf(frames[1..], id)
      case None => None
      case Some(k) => Some(k + 1)
  }

  /** `update_frame`: changes the supplied fields of the first frame with the
      given id and returns it; returns `None`, touching nothing (not even
      `modified`), when no frame has that id. */
  function UpdateFrame(p: Project, id: string, duration: Option<int>, file: Option<string>, now: string)
    : (r: (Project, Option<Frame>))
    ensures r.1.None? <==> !HasId(p.frames, id)
    ensures r.1.None? ==> r.0 == p
    ensures |r.0.frames| == |p.frames|
    ensures r.0.settings == p.settings && r.0.name == p.name && r.0.created == p.created
    ensures forall j :: 0 <= j < |p.frames| && r.0.frames[j] != p.frames[j] ==>
              p.frames[j].id == id && (forall i :: 0 <= i < j ==> p.frames[i].id != id)
    ensures r.1.Some? ==> (exists j :: 0 <= j < |p.frames| && p.frames[j].id == id
                             && (forall i :: 0 <= i < j ==> p.frames[i].id != id)
                             && r.0.frames[j] == r.1.value
                             && r.1.value == Frame(id, file.GetOr(p.frames[j].file), duration.GetOr(p.frames[j].duration)))
    ensures r.1.Some? ==> r.0.modified == now
  {
    match FirstIndexOf(p.frames, id)
    case None => (p, None)
    case Some(k) =>
      var old_ := p.frames[k];
      var f := Frame(old_.id, file.GetOr(old_.file), duration.GetOr(old_.duration));
      (p.(frames := p.frames[k := f], modified := now), Some(f))
  }

  /** Updating a frame with no fields supplied leaves the timeline as it is. */
  lemma UpdateFrameNothingSupplied(p: Project, id: string, now: string)
    ensures UpdateFrame(p, id, None, None, now).0.frames == p.frames
  {
  }

  // ---------------------------------------------------------------------------
  // Settings and the dictionary shape
  // ---------------------------------------------------------------------------

  /** The settings dictionary as stored: each key present (`Some`) or absent.
      It is also the set of keyword arguments of `update_settings`. */
  datatype SettingsDict = SettingsDict(
    width: Option<int>,
    height: Option<int>,
    loop: Option<int>,
    defaultDuration: Option<int>,
    transparent: Option<bool>,
    backgroundColor: Option<string>,
    alphaThreshold: Option<int>)

  datatype FrameDict = FrameDict(id: Option<string>, file: Option<string>, duration: Option<int>)

  datatype ProjectDict = ProjectDict(
    name: Option<string>,
    created: Option<string>,
    modified: Option<string>,
    settings: Option<SettingsDict>,
    frames: Option<seq<FrameDict>>)

  const NoKeys: SettingsDict := SettingsDict(None, None, None, None, None, None, None)

  /** Overwrites the entries whose key is supplied in `u`. */
  function ApplySettings(s: Settings, u: SettingsDict): (r: Settings)
    ensures u.width.Some? ==> r.width == u.width.value
    ensures u.width.None? ==> r.width == s.width
    ensures u.height.Some? ==> r.height == u.height.value
    ensures u.height.None? ==> r.height == s.height
    ensures u.loop.Some? ==> r.loop == u.loop.value
    ensures u.loop.None? ==> r.loop == s.loop
    ensures u.defaultDuration.Some? ==> r.defaultDuration == u.defaultDuration.value
    ensures u.defaultDuration.None? ==> r.defaultDuration == s.defaultDuration
    ensures u.transparent.Some? ==> r.transparent == u.transparent.value
    ensures u.transparent.None? ==> r.transparent == s.transparent
    ensures u.backgroundColor.Some? ==> r.backgroundColor == u.backgroundColor.value
    ensures u.backgroundColor.None? ==> r.backgroundColor == s.backgroundColor
    ensures u.alphaThreshold.Some? ==> r.alphaThreshold == u.alphaThreshold.value
    ensures u.alphaThreshold.None? ==> r.alphaThreshold == s.alphaThreshold
  {
    Settings(
      u.width.GetOr(s.width),
      u.height.GetOr(s.height),
      u.loop.GetOr(s.loop),
      u.defaultDuration.GetOr(s.defaultDuration),
      u.transparent.GetOr(s.transparent),
      u.backgroundColor.GetOr(s.backgroundColor),
      u.alphaThreshold.GetOr(s.alphaThreshold))
  }

  /** `update_settings`: only the supplied keys change; `modified` is always stamped. */
  function UpdateSettings(p: Project, u: SettingsDict, now: string): (r: Project)
    ensures r.settings == ApplySettings(p.settings, u)
    ensures r.frames == p.frames && r.name == p.name && r.created == p.created
    ensures r.modified == now
  {
    p.(settings := ApplySettings(p.settings, u), modified := now)
  }

  function SettingsToDict(s: Settings): (d: SettingsDict)
    ensures d.width.Some? && d.height.Some? && d.loop.Some? && d.defaultDuration.Some?
    ensures d.transparent.Some? && d.backgroundColor.Some? && d.alphaThreshold.Some?
    ensures SettingsFromDict(d) == s
  {
    SettingsDict(Some(s.width), Some(s.height), Some(s.loop), Some(s.defaultDuration),
                 Some(s.transparent), Some(s.backgroundColor), Some(s.alphaThreshold))
  }

  /** Supplying every key replaces the settings; supplying none keeps them;
      supplying the same keys twice is the same as once. */
  lemma ApplySettingsLaws(s: Settings, t: Settings, u: SettingsDict)
    ensures ApplySettings(s, SettingsToDict(t)) == t
    ensures ApplySettings(s, NoKeys) == s
    ensures ApplySettings(ApplySettings(s, u), u) == ApplySettings(s, u)
  {
  }

  /** `Frame.to_dict`. */
  function FrameToDict(f: Frame): (d: FrameDict)
    ensures forall token :: FrameFromDict(d, token).Ok?
    ensures f.id != "" ==> forall token :: FrameFromDict(d, token) == Ok(f)
  {
    FrameDict(Some(f.id), Some(f.file), Some(f.duration))
  }

  /** `Frame.from_dict`: 'file' is required, 'duration' defaults to 100 and a
      missing or empty 'id' is replaced by a fresh one. */
  function FrameFromDict(d: FrameDict, token: string): (r: Result<Frame>)
    ensures r.Err? <==> d.file.None?
    ensures r.Ok? ==> r.value.file == d.file.value
    ensures r.Ok? ==> r.value.duration == d.duration.GetOr(DefaultFrameDuration)
    ensures r.Ok? && d.id.Some? && d.id.value != "" ==> r.value.id == d.id.value
    ensures r.Ok? && (d.id.None? || d.id.value == "") ==> r.value.id == FreshFrameId(token)
  {
    match d.file
    case None => Err("KeyError: 'file'")
    case Some(file) => Ok(MakeFrame(file, d.duration.GetOr(DefaultFrameDuration), d.id, token))
  }

  /** `Project.to_dict`: every key is written. */
  function ToDict(p: Project): (d: ProjectDict)
    ensures d.name == Some(p.name) && d.created == Some(p.created) && d.modified == Some(p.modified)
    ensures d.settings == Some(SettingsToDict(p.settings))
    ensures d.frames.Some? && |d.frames.value| == |p.frames|
    ensures forall i :: 0 <= i < |p.frames| ==> d.frames.value[i] == FrameToDict(p.frames[i])
  {
    ProjectDict(Some(p.name), Some(p.created), Some(p.modified), Some(SettingsToDict(p.settings)),
                Some(seq(|p.frames|, i requires 0 <= i < |p.frames| => FrameToDict(p.frames[i]))))
  }

  /** Settings read from a stored dictionary, with the constructor's defaults
      for the missing keys. */
  function SettingsFromDict(d: SettingsDict): (s: Settings)
    ensures s == ApplySettings(DefaultSettings, d)
  {
    Settings(
      d.width.GetOr(800),
      d.height.GetOr(600),
      d.loop.GetOr(0),
      d.defaultDuration.GetOr(100),
      d.transparent.GetOr(false),
      d.backgroundColor.GetOr("#FFFFFF"),
      d.alphaThreshold.GetOr(128))
  }

  /** The frames of a stored project, frame `k` drawing its fresh id (if it
      needs one) from `tokens(start + k)`. The first frame without 'file' fails. */
  function FramesFromDicts(ds: seq<FrameDict>, tokens: nat -> string, start: nat): (r: Result<seq<Frame>>)
    ensures r.Err? <==> exists k :: 0 <= k < |ds| && ds[k].file.None?
    ensures r.Ok? ==> |r.value| == |ds|
    ensures r.Ok? ==> forall k :: 0 <= k < |ds| ==> FrameFromDict(ds[k], tokens(start + k)) == Ok(r.value[k])
    decreases |ds|
  {
    if |ds| == 0 then Ok([])
    else
      match FrameFromDict(ds[0], tokens(start))
      case Err(e) => Err(e)
      case Ok(f) =>
        match FramesFromDicts(ds[1..], tokens, start + 1)
        case Err(e) =>
          assert exists k :: 0 <= k < |ds[1..]| && ds[1..][k].file.None?;
          Err(e)
        case Ok(fs) =>
          assert forall k :: 1 <= k < |ds| ==> ds[k] == ds[1..][k - 1];
          Ok([f] + fs)
  }

  /** `Project.from_dict`: 'name' is required; missing timestamps become `now`;
      missing settings keys take the constructor's defaults. */
  function FromDict(d: ProjectDict, now: string, tokens: nat -> string): (r: Result<Project>)
    ensures d.name.None? ==> r.Err?
    ensures r.Ok? ==> r.value.name == d.name.value
    ensures r.Ok? ==> r.value.created == d.created.GetOr(now) && r.value.modified == d.modified.GetOr(now)
    ensures r.Ok? ==> r.value.settings == ApplySettings(DefaultSettings, d.settings.GetOr(NoKeys))
    ensures r.Ok? ==> FramesFromDicts(d.frames.GetOr([]), tokens, 0) == Ok(r.value.frames)
    ensures d.name.Some? && FramesFromDicts(d.frames.GetOr([]), tokens, 0).Ok? ==> r.Ok?
  {
    match d.name
    case None => Err("KeyError: 'name'")
    case Some(name) =>
      var settings := SettingsFromDict(d.settings.GetOr(NoKeys));
      match FramesFromDicts(d.frames.GetOr([]), tokens, 0)
      case Err(e) => Err(e)
      case Ok(frames) => Ok(Project(name, d.created.GetOr(now), d.modified.GetOr(now), settings, frames))
  }

  /** Storing and reading back a project reproduces it, as long as no frame
      has the empty id (which reading would replace). */
  lemma FromDictToDict(p: Project, now: string, tokens: nat -> string)
    requires forall i :: 0 <= i < |p.frames| ==> p.frames[i].id != ""
    ensures FromDict(ToDict(p), now, tokens) == Ok(p)
  {
    var ds := ToDict(p).frames.value;
    var r := FramesFromDicts(ds, tokens, 0);
    assert r.Ok?;
    assert r.value == p.frames;
  }

  /** A dictionary holding only a name reads as a default project. */
  lemma FromDictDefaults(name: string, now: string, tokens: nat -> string)
    ensures FromDict(ProjectDict(Some(name), None, None, None, None), now, tokens)
         == Ok(Project(name, now, now, Settings(800, 600, 0, 100, false, "#FFFFFF", 128), []))
  {
  }

  // ---------------------------------------------------------------------------
  // Validation
  // ---------------------------------------------------------------------------

  datatype ValidationError =
    | WidthExceeds
    | HeightExceeds
    | FrameCountExceeds
    | InvalidDuration(frameId: string, duration: int)
  {
    /** Position of this kind of error in the report. */
    function Rank(): nat {
      match this
      case WidthExceeds => 0
      case HeightExceeds => 1
      case FrameCountExceeds => 2
      case InvalidDuration(_, _) => 3
    }

    function Message(): string {
      match this
      case WidthExceeds => "Width exceeds maximum: " + NatToString(Config.MaxDimension)
      case HeightExceeds => "Height exceeds maximum: " + NatToString(Config.MaxDimension)
      case FrameCountExceeds => "Frame count exceeds maximum: " + NatToString(Config.MaxFrames)
      case InvalidDuration(id, d) => "Frame " + id + " has invalid duration: " + IntToString(d)
    }
  }

  /** One error per frame shorter than 1 ms, in timeline order. */
  function DurationErrors(frames: seq<Frame>): (errs: seq<ValidationError>)
    ensures |errs| <= |frames|
    ensures forall e :: e in errs ==> e.InvalidDuration? && e.duration < 1
                                      && exists f :: f in frames && f.id == e.frameId && f.duration == e.duration
    ensures errs == [] <==> forall f :: f in frames ==> f.duration >= 1
    decreases |frames|
  {
    if |frames| == 0 then []
    else
      assert frames == [frames[0]] + frames[1..];
      (if frames[0].duration < 1 then [InvalidDuration(frames[0].id, frames[0].duration)] else [])
      + DurationErrors(frames[1..])
  }

  lemma {:induction false} DurationErrorsAppend(a: seq<Frame>, b: seq<Frame>)
    ensures DurationErrors(a + b) == DurationErrors(a) + DurationErrors(b)
    decreases |a|
  {
    if |a| > 0 {
      assert (a + b)[1..] == a[1..] + b;
      DurationErrorsAppend(a[1..], b);
    } else {
      assert a + b == b;
    }
  }

  /** The limits a project must respect before it can be built. */
  predicate WithinLimits(p: Project) {
    && p.settings.width <= Config.MaxDimension
    && p.settings.height <= Config.MaxDimension
    && |p.frames| <= Config.MaxFrames
    && forall f :: f in p.frames ==> f.duration >= 1
  }

  /** The project-level errors of `validate`, in the order they are checked. */
  function LimitErrors(p: Project): (errs: seq<ValidationError>)
    ensures WidthExceeds in errs <==> p.settings.width > Config.MaxDimension
    ensures HeightExceeds in errs <==> p.settings.height > Config.MaxDimension
    ensures FrameCountExceeds in errs <==> |p.frames| > Config.MaxFrames
    ensures forall i :: 0 <= i < |errs| ==> errs[i].Rank() < 3
    ensures forall i, j :: 0 <= i < j < |errs| ==> errs[i].Rank() < errs[j].Rank()
  {
    (if p.settings.width > Config.MaxDimension then [WidthExceeds] else [])
    + (if p.settings.height > Config.MaxDimension then [HeightExceeds] else [])
    + (if |p.frames| > Config.MaxFrames then [FrameCountExceeds] else [])
  }

  /** Appending the frame errors after the project-level ones keeps the
      report ordered by rank. */
  lemma ReportOrder(errs: seq<ValidationError>, de: seq<ValidationError>)
    requires forall i :: 0 <= i < |errs| ==> errs[i].Rank() < 3
    requires forall i, j :: 0 <= i < j < |errs| ==> errs[i].Rank() < errs[j].Rank()
    requires forall e :: e in de ==> e.InvalidDuration?
    ensures forall e :: e in errs + de <==> e in errs || e in de
    ensures forall i, j :: 0 <= i < j < |errs + de| ==> (errs + de)[i].Rank() <= (errs + de)[j].Rank()
    ensures forall i, j :: 0 <= i < j < |errs + de| && (errs + de)[i].Rank() < 3 ==> (errs + de)[i].Rank() < (errs + de)[j].Rank()
    ensures (errs + de)[|errs + de| - |de|..] == de
  {
    var all := errs + de;
    forall k | 0 <= k < |de| ensures de[k].Rank() == 3 {
      assert de[k] in de;
    }
    assert forall i :: |errs| <= i < |all| ==> all[i] == de[i - |errs|];
    assert all[|errs|..] == de;
  }

  /** `validate`: every violated limit is reported, in the order width,
      height, frame count, then the frames in timeline order. */
  function Validate(p: Project): (r: (bool, seq<ValidationError>))
    ensures r.0 <==> r.1 == []
    ensures r.0 <==> WithinLimits(p)
    ensures WidthExceeds in r.1 <==> p.settings.width > Config.MaxDimension
    ensures HeightExceeds in r.1 <==> p.settings.height > Config.MaxDimension
    ensures FrameCountExceeds in r.1 <==> |p.frames| > Config.MaxFrames
    ensures forall i, j :: 0 <= i < j < |r.1| ==> r.1[i].Rank() <= r.1[j].Rank()
    ensures forall i, j :: 0 <= i < j < |r.1| && r.1[i].Rank() < 3 ==> r.1[i].Rank() < r.1[j].Rank()
    ensures |DurationErrors(p.frames)| <= |r.1|
    ensures r.1[|r.1| - |DurationErrors(p.frames)|..] == DurationErrors(p.frames)
    ensures r.1 == LimitErrors(p) + DurationErrors(p.frames)
  {
    var errs := LimitErrors(p);
    var de := DurationErrors(p.frames);
    ReportOrder(errs, de);
    var all := errs + de;
    (|all| == 0, all)
  }
}
