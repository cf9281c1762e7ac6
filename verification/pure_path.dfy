/** Lexical POSIX paths as Python's `pathlib` builds them: parsing drops
    empty and "." components (".." is kept), joining with an absolute path
    replaces the left side, and `resolve()` without symbolic links removes
    ".." components by popping. */
module PurePaths {
  import opened Text

  /** A parsed path: absolute or not, and its components. */
  datatype PPath = PPath(absolute: bool, parts: seq<string>)

  /** A component as `pathlib` keeps it. */
  predicate IsPart(c: string) {
    c != "" && c != "." && '/' !in c
  }

  predicate WellFormed(p: PPath) {
    forall i :: 0 <= i < |p.parts| ==> IsPart(p.parts[i])
  }

  /** The pieces of `pieces` that are components, in order. */
  function KeepParts(pieces: seq<string>): (r: seq<string>)
    ensures forall i :: 0 <= i < |r| ==> r[i] in pieces && r[i] != "" && r[i] != "."
    ensures |r| <= |pieces|
    decreases |pieces|
  {
    if |pieces| == 0 then []
    else (if pieces[0] != "" && pieces[0] != "." then [pieces[0]] else []) + KeepParts(pieces[1..])
  }

  lemma {:induction false} KeepPartsOfParts(pieces: seq<string>)
    requires forall i :: 0 <= i < |pieces| ==> IsPart(pieces[i])
    ensures KeepParts(pieces) == pieces
    decreases |pieces|
  {
    if |pieces| > 0 {
      KeepPartsOfParts(pieces[1..]);
    }
  }

  /** `PurePosixPath(s)`. */
  function Parse(s: string): (p: PPath)
    ensures WellFormed(p)
    ensures p.absolute <==> |s| > 0 && s[0] == '/'
  {
    var pieces := Split(s, '/');
    var r := KeepParts(pieces);
    assert forall i :: 0 <= i < |r| ==> '/' !in r[i];
    PPath(|s| > 0 && s[0] == '/', r)
  }

  /** Text without a separator parses to itself as a single component, or to
      no component at all when it is "" or ".". */
  lemma ParseSingle(s: string)
    ensures '/' !in s ==> Parse(s) == PPath(false, if s == "" || s == "." then [] else [s])
  {
    if '/' !in s {
      SplitNoSeparator(s, '/');
    }
  }

  /** `str(path)`; the empty relative path prints as ".". */
  function Str(p: PPath): string {
    if p.absolute then "/" + Join(p.parts, "/")
    else if |p.parts| == 0 then "."
    else Join(p.parts, "/")
  }

  /** `path.name`: the last component, or "" when there is none. */
  function Name(p: PPath): string {
    if |p.parts| == 0 then "" else p.parts[|p.parts| - 1]
  }

  /** `a / b`. */
  function JoinPath(a: PPath, b: PPath): (r: PPath)
    ensures b.absolute ==> r == b
    ensures !b.absolute ==> r.absolute == a.absolute && r.parts == a.parts + b.parts
  {
    if b.absolute then b else PPath(a.absolute, a.parts + b.parts)
  }

  /** `Path(*parts)`: the parts parsed and joined left to right; `Path()` is ".". */
  function FromParts(ss: seq<string>): (r: PPath)
    ensures (forall i :: 0 <= i < |ss| ==> !Parse(ss[i]).absolute) ==> !r.absolute
    decreases |ss|
  {
    if |ss| == 0 then PPath(false, [])
    else JoinPath(FromParts(ss[..|ss| - 1]), Parse(ss[|ss| - 1]))
  }

  /** Components after lexical ".." removal, left to right; ".." at the
      root stays at the root. */
  function Normalize(parts: seq<string>): (r: seq<string>)
    ensures ".." !in r
    ensures |r| <= |parts|
    ensures forall i :: 0 <= i < |r| ==> r[i] in parts
    decreases |parts|
  {
    if |parts| == 0 then []
    else
      var pre := Normalize(parts[..|parts| - 1]);
      var last := parts[|parts| - 1];
      if last == ".." then (if |pre| == 0 then [] else pre[..|pre| - 1])
      else pre + [last]
  }

  /** Normalizing after a ".."-free tail keeps the tail as it is. */
  lemma {:induction false} NormalizeAppendPlain(a: seq<string>, b: seq<string>)
    requires ".." !in b
    ensures Normalize(a + b) == Normalize(a) + b
    decreases |b|
  {
    if |b| == 0 {
      assert a + b == a;
    } else {
      var b' := b[..|b| - 1];
      assert (a + b)[..|a + b| - 1] == a + b';
      assert (a + b)[|a + b| - 1] == b[|b| - 1];
      NormalizeAppendPlain(a, b');
      assert b == b' + [b[|b| - 1]];
    }
  }

  /** `path.resolve()` of an absolute path when no component is a symbolic link. */
  function Resolve(p: PPath): (r: PPath)
    requires p.absolute
    ensures r.absolute && ".." !in r.parts
    ensures WellFormed(p) ==> WellFormed(r)
  {
    PPath(true, Normalize(p.parts))
  }

  // ---------------------------------------------------------------------------
  // Printing and parsing are inverse
  // ---------------------------------------------------------------------------

  lemma {:induction false} JoinSplit(parts: seq<string>, c: char)
    requires 1 <= |parts|
    requires forall i :: 0 <= i < |parts| ==> c !in parts[i]
    ensures Split(Join(parts, [c]), c) == parts
    decreases |parts|
  {
    if |parts| == 1 {
      SplitNoSeparator(parts[0], c);
    } else {
      JoinSplit(parts[1..], c);
      SplitPrefix(parts[0], Join(parts[1..], [c]), c);
      assert parts == [parts[0]] + parts[1..];
    }
  }

  lemma {:induction false} SplitNoSeparator(s: string, c: char)
    requires c !in s
    ensures Split(s, c) == [s]
    decreases |s|
  {
    if |s| > 0 {
      SplitNoSeparator(s[1..], c);
      assert [s[0]] + s[1..] == s;
    }
  }

  /** Splitting `w + c + t` for a separator-free `w` gives `w` then the pieces of `t`. */
  lemma {:induction false} SplitPrefix(w: string, t: string, c: char)
    requires c !in w
    ensures Split(w + [c] + t, c) == [w] + Split(t, c)
    decreases |w|
  {
    if |w| == 0 {
      assert w + [c] + t == [c] + t;
      assert ([c] + t)[1..] == t;
    } else {
      var s := w + [c] + t;
      assert s[1..] == w[1..] + [c] + t;
      SplitPrefix(w[1..], t, c);
      assert [w[0]] + w[1..] == w;
    }
  }

  /** Printing a well-formed path and parsing the text gives the path back. */
  lemma ParseStr(p: PPath)
    requires WellFormed(p)
    ensures Parse(Str(p)) == p
  {
    if |p.parts| == 0 {
      if p.absolute {
        assert Str(p) == "/";
        assert Split("/", '/') == ["", ""];
      } else {
        SplitNoSeparator(".", '/');
      }
    } else if p.absolute {
      ParseStrAbsolute(p);
    } else {
      ParseStrRelative(p);
    }
  }

  lemma ParseStrAbsolute(p: PPath)
    requires WellFormed(p) && p.absolute && |p.parts| >= 1
    ensures Parse(Str(p)) == p
  {
    var j := Join(p.parts, "/");
    assert Split(Str(p), '/') == [""] + p.parts by {
      JoinSplit(p.parts, '/');
      assert Str(p) == "" + ['/'] + j;
      SplitPrefix("", j, '/');
    }
    assert KeepParts([""] + p.parts) == p.parts by {
      assert ([""] + p.parts)[1..] == p.parts;
      KeepPartsOfParts(p.parts);
    }
  }

  lemma ParseStrRelative(p: PPath)
    requires WellFormed(p) && !p.absolute && |p.parts| >= 1
    ensures Parse(Str(p)) == p
  {
    var j := Join(p.parts, "/");
    JoinSplit(p.parts, '/');
    KeepPartsOfParts(p.parts);
    assert Str(p) == j;
    assert |j| > 0 ==> j[0] != '/' by {
      JoinHead(p.parts, "/");
    }
  }

  /** A join of parts whose first part is non-empty starts with that part. */
  lemma JoinHead(parts: seq<string>, sep: string)
    requires 1 <= |parts|
    ensures StartsWith(Join(parts, sep), parts[0])
  {
    if |parts| > 1 {
      assert Join(parts, sep) == parts[0] + (sep + Join(parts[1..], sep));
    }
  }

  /** Joining more components after a non-empty prefix extends its text. */
  lemma JoinAppend(a: seq<string>, b: seq<string>, sep: string)
    requires 1 <= |a| && 1 <= |b|
    ensures Join(a + b, sep) == Join(a, sep) + sep + Join(b, sep)
    decreases |a|
  {
    if |a| == 1 {
      assert (a + b)[1..] == b;
    } else {
      assert (a + b)[1..] == a[1..] + b;
      JoinAppend(a[1..], b, sep);
    }
  }
}
