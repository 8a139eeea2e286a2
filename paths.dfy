/**
 * Path resolution for template references (`localPath`), written over the
 * '/'-separated segments of a path. Node's POSIX `path.normalize`,
 * `path.dirname` and `path.join`, which `localPath` relies on, are given
 * explicit definitions here.
 */
module Paths {

  predicate NoSlash(s: string)
  {
    forall i | 0 <= i < |s| :: s[i] != '/'
  }

  /** `s.split("/")`: the text between separators; never empty. */
  function Split(s: string): (r: seq<string>)
    ensures |r| >= 1
  {
    if s == [] then [""]
    else
      var rest := Split(s[1..]);
      if s[0] == '/' then [""] + rest else [[s[0]] + rest[0]] + rest[1..]
  }

  /** `segs.join("/")`. */
  function Join(segs: seq<string>): string
  {
    if segs == [] then ""
    else if |segs| == 1 then segs[0]
    else segs[0] + "/" + Join(segs[1..])
  }

  /** One segment of Node's normalisation applied to the stack of segments
      kept so far: empty and `.` segments vanish, `..` removes the last kept
      segment unless that is itself `..`; above the start it is kept only for
      a relative path. */
  function Step(stack: seq<string>, seg: string, allowAboveRoot: bool): seq<string>
  {
    if seg == "" || seg == "." then stack
    else if seg == ".." then
      if |stack| > 0 && stack[|stack| - 1] != ".." then stack[..|stack| - 1]
      else if allowAboveRoot then stack + [".."]
      else stack
    else stack + [seg]
  }

  function Resolve(stack: seq<string>, segs: seq<string>, allowAboveRoot: bool): seq<string>
    decreases |segs|
  {
    if segs == [] then stack
    else Resolve(Step(stack, segs[0], allowAboveRoot), segs[1..], allowAboveRoot)
  }

  /** The text Node's normalisation writes for a resolved segment list. */
  function Form(absolute: bool, segs: seq<string>, trailing: bool): (r: string)
    ensures r != []
  {
    var body := Join(segs);
    if body == [] then (if absolute then "/" else if trailing then "./" else ".")
    else (if absolute then "/" else "") + body + (if trailing then "/" else "")
  }

  /** `path.normalize` (POSIX). */
  function Normalize(p: string): (r: string)
    ensures r != []
  {
    if p == [] then "."
    else
      var absolute := p[0] == '/';
      Form(absolute, Resolve([], Split(p), !absolute), p[|p| - 1] == '/')
  }

  /** Scans `p` backwards from `i` for the separator before the last name. */
  function DirEnd(p: string, i: int, matchedSlash: bool): (r: int)
    requires i < |p|
    ensures r == -1 || 1 <= r <= i
    decreases i
  {
    if i < 1 then -1
    else if p[i] == '/' then (if !matchedSlash then i else DirEnd(p, i - 1, matchedSlash))
    else DirEnd(p, i - 1, false)
  }

  /** `path.dirname` (POSIX). */
  function Dirname(p: string): string
  {
    if p == [] then "."
    else
      var end := DirEnd(p, |p| - 1, true);
      if end == -1 then (if p[0] == '/' then "/" else ".")
      else if p[0] == '/' && end == 1 then "//"
      else p[..end]
  }

  /** `path.join(a, b)` (POSIX). */
  function JoinPaths(a: string, b: string): string
  {
    Normalize(if a == [] then b else if b == [] then a else a + "/" + b)
  }

  /** `s.replace(/^\/+/, '')`. */
  function TrimLeadingSlashes(s: string): (r: string)
    ensures r == [] || r[0] != '/'
    ensures |r| <= |s| && r == s[|s| - |r|..]
    ensures forall i | 0 <= i < |s| - |r| :: s[i] == '/'
  {
    if s != [] && s[0] == '/' then TrimLeadingSlashes(s[1..]) else s
  }

  /** `s.replace(/^\.{0,2}\/+/, '')`: at most one leading `/`, `./` or `../`
      prefix (with the separators that follow it) is removed. */
  function StripRelativePrefix(s: string): (r: string)
    ensures r == [] || r[0] != '/' || r == s
  {
    if |s| >= 1 && s[0] == '/' then TrimLeadingSlashes(s)
    else if |s| >= 2 && s[0] == '.' && s[1] == '/' then TrimLeadingSlashes(s[1..])
    else if |s| >= 3 && s[0] == '.' && s[1] == '.' && s[2] == '/' then TrimLeadingSlashes(s[2..])
    else s
  }

  /** `localPath(relativeTo, file)`: the cache and loader key of a reference
      made from the file `relativeTo`. */
  function LocalPath(relativeTo: string, file: string): string
  {
    var f := Normalize(file);
    if f[0] == '/' then TrimLeadingSlashes(f)
    else StripRelativePrefix(Normalize(JoinPaths(Dirname(relativeTo), f)))
  }

  /** A key never starts with `/`: every key is relative to the base
      directory. */
  lemma LocalPathRelative(relativeTo: string, file: string)
    ensures var r := LocalPath(relativeTo, file); r == [] || r[0] != '/'
  {
    var f := Normalize(file);
    if f[0] != '/' {
      NormalizedShape(JoinPaths(Dirname(relativeTo), f));
    }
  }

  // ---------------------------------------------------------------------
  // Segment lists in normal form

  predicate IsName(seg: string)
  {
    seg != "" && seg != "." && seg != ".." && NoSlash(seg)
  }

  /** A segment list Node's normalisation can produce: names, and for a
      relative path a run of `..` before them. */
  predicate Canonical(segs: seq<string>, allowAboveRoot: bool)
  {
    && (forall i | 0 <= i < |segs| :: IsName(segs[i]) || (allowAboveRoot && segs[i] == ".."))
    && (forall i, j | 0 <= i < j < |segs| && segs[j] == ".." :: segs[i] == "..")
  }

  lemma {:induction false} SplitNoSlash(s: string)
    requires NoSlash(s)
    ensures Split(s) == [s]
  {
    if s != [] {
      SplitNoSlash(s[1..]);
      assert [s[0]] + s[1..] == s;
    }
  }

  lemma {:induction false} SplitAtSlash(a: string, b: string)
    ensures Split(a + "/" + b) == Split(a) + Split(b)
  {
    var s := a + "/" + b;
    if a == [] {
      assert s[1..] == b;
    } else {
      assert s[1..] == a[1..] + "/" + b;
      SplitAtSlash(a[1..], b);
    }
  }

  lemma {:induction false} ResolveAppend(stack: seq<string>, a: seq<string>, b: seq<string>, allow: bool)
    ensures Resolve(stack, a + b, allow) == Resolve(Resolve(stack, a, allow), b, allow)
    decreases |a|
  {
    if a == [] {
      assert a + b == b;
    } else {
      assert (a + b)[0] == a[0] && (a + b)[1..] == a[1..] + b;
      ResolveAppend(Step(stack, a[0], allow), a[1..], b, allow);
    }
  }

  lemma StepCanonical(stack: seq<string>, seg: string, allow: bool)
    requires Canonical(stack, allow) && NoSlash(seg)
    ensures Canonical(Step(stack, seg, allow), allow)
  {
    var r := Step(stack, seg, allow);
    if seg == ".." && !(|stack| > 0 && stack[|stack| - 1] != "..") && allow {
      assert r == stack + [".."];
      forall i | 0 <= i < |stack| ensures stack[i] == ".." {
        assert stack[|stack| - 1] == "..";
      }
    }
  }

  lemma {:induction false} ResolveCanonical(stack: seq<string>, segs: seq<string>, allow: bool)
    requires Canonical(stack, allow)
    requires forall i | 0 <= i < |segs| :: NoSlash(segs[i])
    ensures Canonical(Resolve(stack, segs, allow), allow)
    decreases |segs|
  {
    if segs != [] {
      StepCanonical(stack, segs[0], allow);
      ResolveCanonical(Step(stack, segs[0], allow), segs[1..], allow);
    }
  }

  lemma {:induction false} ResolveCanonicalIdentity(stack: seq<string>, segs: seq<string>, allow: bool)
    requires Canonical(stack + segs, allow)
    ensures Resolve(stack, segs, allow) == stack + segs
    decreases |segs|
  {
    if segs != [] {
      var all := stack + segs;
      assert all[|stack|] == segs[0];
      if segs[0] == ".." {
        assert |stack| > 0 ==> stack[|stack| - 1] == all[|stack| - 1];
      }
      assert Step(stack, segs[0], allow) == stack + [segs[0]];
      assert stack + [segs[0]] + segs[1..] == all;
      ResolveCanonicalIdentity(stack + [segs[0]], segs[1..], allow);
    }
  }

  lemma {:induction false} SplitJoin(segs: seq<string>)
    requires |segs| >= 1
    requires forall i | 0 <= i < |segs| :: NoSlash(segs[i])
    ensures Split(Join(segs)) == segs
    decreases |segs|
  {
    if |segs| == 1 {
      SplitNoSlash(segs[0]);
    } else {
      SplitAtSlash(segs[0], Join(segs[1..]));
      SplitNoSlash(segs[0]);
      SplitJoin(segs[1..]);
    }
  }

  /** Join of non-empty, slash-free segments starts with the first one. */
  lemma {:induction false} JoinStartsWith(segs: seq<string>)
    requires |segs| >= 1
    ensures |Join(segs)| >= |segs[0]| && Join(segs)[..|segs[0]|] == segs[0]
    ensures |segs| > 1 ==> Join(segs) == segs[0] + "/" + Join(segs[1..])
  {
  }

  lemma {:induction false} JoinEnds(segs: seq<string>)
    requires |segs| >= 1
    requires forall i | 0 <= i < |segs| :: segs[i] != "" && NoSlash(segs[i])
    ensures Join(segs) != [] && Join(segs)[0] != '/' && Join(segs)[|Join(segs)| - 1] != '/'
    decreases |segs|
  {
    if |segs| > 1 {
      JoinEnds(segs[1..]);
      var j := Join(segs);
      assert j == segs[0] + "/" + Join(segs[1..]);
      assert j[0] == segs[0][0];
      assert j[|j| - 1] == Join(segs[1..])[|Join(segs[1..])| - 1];
    }
  }

  lemma {:induction false} JoinAppend(a: seq<string>, b: seq<string>)
    requires |a| >= 1 && |b| >= 1
    ensures Join(a + b) == Join(a) + "/" + Join(b)
    decreases |a|
  {
    if |a| == 1 {
      assert (a + b)[0] == a[0] && (a + b)[1..] == b;
    } else {
      assert (a + b)[0] == a[0] && (a + b)[1..] == a[1..] + b;
      JoinAppend(a[1..], b);
    }
  }

  lemma CanonicalSegments(segs: seq<string>, allow: bool)
    requires Canonical(segs, allow)
    ensures forall i | 0 <= i < |segs| :: segs[i] != "" && NoSlash(segs[i])
  {
    forall i | 0 <= i < |segs| ensures segs[i] != "" && NoSlash(segs[i]) {
      if segs[i] == ".." {
        assert NoSlash(segs[i]) by { assert segs[i][0] == '.' && segs[i][1] == '.'; }
      }
    }
  }

  /** What Normalize returns is a Form of canonical segments. */
  lemma NormalizedShape(p: string)
    ensures p == [] ==> Normalize(p) == "."
    ensures p != [] ==> Normalize(p) == Form(p[0] == '/', Resolve([], Split(p), p[0] != '/'), p[|p| - 1] == '/')
    ensures p != [] ==> Canonical(Resolve([], Split(p), p[0] != '/'), p[0] != '/')
    ensures Normalize(p)[0] != '/' || (p != [] && p[0] == '/')
  {
    if p != [] {
      var segs := Split(p);
      forall i | 0 <= i < |segs| ensures NoSlash(segs[i]) {
        SplitPieces(p, i);
      }
      var r := Resolve([], segs, p[0] != '/');
      ResolveCanonical([], segs, p[0] != '/');
      CanonicalSegments(r, p[0] != '/');
      if r != [] {
        JoinEnds(r);
      }
    }
  }

  lemma {:induction false} SplitPieces(s: string, i: int)
    requires 0 <= i < |Split(s)|
    ensures NoSlash(Split(s)[i])
  {
    if s != [] {
      var rest := Split(s[1..]);
      if s[0] == '/' {
        if i > 0 { SplitPieces(s[1..], i - 1); }
      } else if i == 0 {
        SplitPieces(s[1..], 0);
      } else {
        SplitPieces(s[1..], i);
      }
    }
  }

  lemma FormEmptyIsNormal(absolute: bool, trailing: bool)
    ensures Normalize(Form(absolute, [], trailing)) == Form(absolute, [], trailing)
  {
    var p := Form(absolute, [], trailing);
    if absolute {
      assert p == "" + "/" + "";
      SplitAtSlash("", "");
      assert Resolve([], ["", ""], false) == [];
    } else if trailing {
      assert p == "." + "/" + "";
      SplitAtSlash(".", "");
      SplitNoSlash(".");
      assert Resolve([], [".", ""], true) == [];
    } else {
      SplitNoSlash(".");
      assert Resolve([], ["."], true) == [];
    }
  }

  function Pad(absolute: bool, segs: seq<string>, trailing: bool): seq<string>
  {
    (if absolute then [""] else []) + segs + (if trailing then [""] else [])
  }

  lemma SplitOfForm(absolute: bool, segs: seq<string>, trailing: bool)
    requires |segs| >= 1
    requires forall i | 0 <= i < |segs| :: segs[i] != "" && NoSlash(segs[i])
    ensures var p := Form(absolute, segs, trailing);
      && (p[0] == '/' <==> absolute)
      && (p[|p| - 1] == '/' <==> trailing)
      && Split(p) == Pad(absolute, segs, trailing)
  {
    JoinEnds(segs);
    SplitJoin(segs);
    var j := Join(segs);
    var p := Form(absolute, segs, trailing);
    if absolute && trailing {
      assert p == "" + "/" + (j + "/" + "");
      SplitAtSlash("", j + "/" + "");
      SplitAtSlash(j, "");
    } else if absolute {
      assert p == "" + "/" + j;
      SplitAtSlash("", j);
    } else if trailing {
      assert p == j + "/" + "";
      SplitAtSlash(j, "");
    } else {
      assert p == j;
    }
  }

  lemma ResolvePadded(absolute: bool, segs: seq<string>, trailing: bool)
    requires Canonical(segs, !absolute)
    ensures Resolve([], Pad(absolute, segs, trailing), !absolute) == segs
  {
    var allow := !absolute;
    var post: seq<string> := if trailing then [""] else [];
    ResolveWithTrailing(segs, post, allow);
    if absolute {
      assert Pad(absolute, segs, trailing) == [""] + (segs + post);
      ResolveLeadingEmpty(segs + post, allow);
    } else {
      assert Pad(absolute, segs, trailing) == segs + post;
    }
  }

  lemma ResolveWithTrailing(segs: seq<string>, post: seq<string>, allow: bool)
    requires Canonical(segs, allow) && (post == [] || post == [""])
    ensures Resolve([], segs + post, allow) == segs
  {
    ResolveCanonicalIdentity([], segs, allow);
    assert [] + segs == segs;
    ResolveAppend([], segs, post, allow);
  }

  lemma ResolveLeadingEmpty(x: seq<string>, allow: bool)
    ensures Resolve([], [""] + x, allow) == Resolve([], x, allow)
  {
    assert ([""] + x)[0] == "" && ([""] + x)[1..] == x;
  }

  /** A Form of canonical segments is left as it is by normalisation. */
  lemma FormIsNormal(absolute: bool, segs: seq<string>, trailing: bool)
    requires Canonical(segs, !absolute)
    ensures Normalize(Form(absolute, segs, trailing)) == Form(absolute, segs, trailing)
  {
    if segs == [] {
      FormEmptyIsNormal(absolute, trailing);
    } else {
      CanonicalSegments(segs, !absolute);
      SplitOfForm(absolute, segs, trailing);
      ResolvePadded(absolute, segs, trailing);
    }
  }

  /** Normalisation is idempotent. */
  lemma NormalizeIdempotent(p: string)
    ensures Normalize(Normalize(p)) == Normalize(p)
  {
    NormalizedShape(p);
    if p == [] {
      FormIsNormal(false, [], false);
    } else {
      FormIsNormal(p[0] == '/', Resolve([], Split(p), p[0] != '/'), p[|p| - 1] == '/');
    }
  }

  lemma CanonicalWidens(segs: seq<string>)
    requires Canonical(segs, false)
    ensures Canonical(segs, true)
  {
  }

  lemma CanonicalSuffix(segs: seq<string>, allow: bool)
    requires |segs| >= 1 && Canonical(segs, allow)
    ensures Canonical(segs[1..], allow)
  {
    forall i, j | 0 <= i < j < |segs| - 1 && segs[1..][j] == ".." ensures segs[1..][i] == ".." {
      assert segs[i + 1] == segs[1..][i] && segs[j + 1] == segs[1..][j];
    }
  }

  lemma {:induction false} TrimNonSlash(s: string)
    requires s == [] || s[0] != '/'
    ensures TrimLeadingSlashes(s) == s
  {
  }

  lemma NameNotStripped(n: string, x: string)
    requires IsName(n)
    ensures StripRelativePrefix(n + x) == n + x
  {
    var s := n + x;
    assert s[0] == n[0];
    if |n| == 1 {
      assert n == [n[0]];
    } else {
      assert s[1] == n[1];
      if |n| == 2 {
        assert n == [n[0], n[1]];
      } else {
        assert s[2] == n[2];
      }
    }
  }

  /** The text of a non-empty relative and absolute Form. */
  lemma FormText(segs: seq<string>, trailing: bool)
    requires Join(segs) != []
    ensures Form(false, segs, trailing) == Join(segs) + (if trailing then "/" else "")
    ensures Form(true, segs, trailing) == "/" + Form(false, segs, trailing)
  {
    var post := if trailing then "/" else "";
    assert "" + Join(segs) + post == Join(segs) + post;
    assert "/" + Join(segs) + post == "/" + (Join(segs) + post);
  }

  lemma StripAbsoluteForm(segs: seq<string>, trailing: bool)
    requires |segs| >= 1 && Canonical(segs, false)
    ensures Normalize(StripRelativePrefix(Form(true, segs, trailing))) == StripRelativePrefix(Form(true, segs, trailing))
  {
    CanonicalSegments(segs, false);
    JoinEnds(segs);
    FormText(segs, trailing);
    var rest := Form(false, segs, trailing);
    StripSlash(rest);
    CanonicalWidens(segs);
    FormIsNormal(false, segs, trailing);
  }

  lemma StripSlash(rest: string)
    requires rest != [] && rest[0] != '/'
    ensures StripRelativePrefix("/" + rest) == rest
  {
    assert ("/" + rest)[1..] == rest;
    TrimNonSlash(rest);
  }

  lemma StripParentPrefix(rest: string)
    requires rest == [] || rest[0] != '/'
    ensures StripRelativePrefix("../" + rest) == rest
  {
    var s := "../" + rest;
    assert s[2..] == "/" + rest;
    assert s[2..][1..] == rest;
    TrimNonSlash(rest);
  }

  lemma StripParentForm(segs: seq<string>, trailing: bool)
    requires |segs| >= 1 && Canonical(segs, true) && segs[0] == ".."
    ensures var r := StripRelativePrefix(Form(false, segs, trailing)); r == [] || Normalize(r) == r
  {
    CanonicalSegments(segs, true);
    JoinEnds(segs);
    if |segs| == 1 {
      var m := Form(false, segs, trailing);
      assert m == Join(segs) + (if trailing then "/" else "");
      if trailing {
        assert m == "../" + "";
        StripParentPrefix("");
      } else {
        FormIsNormal(false, segs, false);
      }
    } else {
      StripParentFormLonger(segs, trailing);
    }
  }

  lemma StripParentFormLonger(segs: seq<string>, trailing: bool)
    requires |segs| >= 2 && Canonical(segs, true) && segs[0] == ".."
    requires forall i | 0 <= i < |segs| :: segs[i] != "" && NoSlash(segs[i])
    ensures StripRelativePrefix(Form(false, segs, trailing)) == Form(false, segs[1..], trailing)
    ensures Normalize(Form(false, segs[1..], trailing)) == Form(false, segs[1..], trailing)
  {
    var post := if trailing then "/" else "";
    var tail := Join(segs[1..]);
    JoinStartsWith(segs);
    JoinEnds(segs[1..]);
    FormText(segs, trailing);
    FormText(segs[1..], trailing);
    ParentText(tail, post);
    StripParentPrefix(tail + post);
    CanonicalSuffix(segs, true);
    FormIsNormal(false, segs[1..], trailing);
  }

  lemma ParentText(tail: string, post: string)
    ensures ".." + "/" + tail + post == "../" + (tail + post)
  {
  }

  lemma StripNameForm(segs: seq<string>, trailing: bool)
    requires |segs| >= 1 && Canonical(segs, true) && segs[0] != ".."
    ensures Normalize(StripRelativePrefix(Form(false, segs, trailing))) == StripRelativePrefix(Form(false, segs, trailing))
  {
    CanonicalSegments(segs, true);
    JoinEnds(segs);
    JoinStartsWith(segs);
    var m := Form(false, segs, trailing);
    assert m == Join(segs) + (if trailing then "/" else "");
    assert m == segs[0] + m[|segs[0]|..];
    NameNotStripped(segs[0], m[|segs[0]|..]);
    FormIsNormal(false, segs, trailing);
  }

  /** Removing the relative prefix of a normalised path leaves a path that is
      empty or normalised. */
  lemma StripKeepsNormal(absolute: bool, segs: seq<string>, trailing: bool)
    requires Canonical(segs, !absolute)
    ensures var r := StripRelativePrefix(Form(absolute, segs, trailing)); r == [] || Normalize(r) == r
  {
    if segs == [] {
      if !absolute && !trailing {
        FormIsNormal(false, [], false);
      } else if !absolute {
        assert Form(false, [], true) == "./";
        assert "./"[1..] == "/";
        assert StripRelativePrefix("./") == TrimLeadingSlashes("/");
      }
    } else if absolute {
      StripAbsoluteForm(segs, trailing);
    } else if segs[0] == ".." {
      StripParentForm(segs, trailing);
    } else {
      StripNameForm(segs, trailing);
    }
  }

  /** Every key `localPath` produces is empty or already in normal form, so
      one file reached along different reference spellings gets one key. */
  lemma LocalPathIsNormal(relativeTo: string, file: string)
    ensures var r := LocalPath(relativeTo, file); r == [] || Normalize(r) == r
  {
    var f := Normalize(file);
    NormalizedShape(file);
    if f[0] == '/' {
      var segs := Resolve([], Split(file), false);
      var trailing := file[|file| - 1] == '/';
      assert f == Form(true, segs, trailing);
      StripKeepsNormal(true, segs, trailing);
    } else {
      var q := JoinPaths(Dirname(relativeTo), f);
      NormalizedShape(q);
      if q == [] {
        FormIsNormal(false, [], false);
      } else {
        StripKeepsNormal(q[0] == '/', Resolve([], Split(q), q[0] != '/'), q[|q| - 1] == '/');
      }
    }
  }

  /** A reference that starts with `/` names a path under the base directory,
      whatever file it was made from. */
  lemma AbsoluteReference(relativeTo: string, segs: seq<string>)
    requires |segs| >= 1 && Canonical(segs, false)
    ensures LocalPath(relativeTo, "/" + Join(segs)) == Join(segs)
  {
    CanonicalSegments(segs, false);
    JoinEnds(segs);
    assert "/" + Join(segs) == Form(true, segs, false);
    FormIsNormal(true, segs, false);
  }

  lemma {:induction false} DirEndFindsSeparator(p: string, k: int, i: int, matchedSlash: bool)
    requires 1 <= k < i < |p| && p[k] == '/'
    requires forall j | k < j <= i :: p[j] != '/'
    ensures DirEnd(p, i, matchedSlash) == k
    decreases i
  {
    if i - 1 > k {
      DirEndFindsSeparator(p, k, i - 1, false);
    }
  }

  /** The joined form of canonical names is its own normal form. */
  lemma NormalJoin(segs: seq<string>)
    requires |segs| >= 1 && Canonical(segs, false)
    ensures Join(segs) != [] && Join(segs)[0] != '/'
    ensures Normalize(Join(segs)) == Join(segs)
    ensures StripRelativePrefix(Join(segs)) == Join(segs)
  {
    CanonicalSegments(segs, false);
    JoinEnds(segs);
    JoinIsForm(segs);
    FormIsNormal(false, segs, false);
    NameLedNotStripped(segs);
  }

  lemma JoinIsForm(segs: seq<string>)
    requires |segs| >= 1 && Join(segs) != []
    ensures Join(segs) == Form(false, segs, false)
  {
  }

  lemma NameLedNotStripped(segs: seq<string>)
    requires |segs| >= 1 && IsName(segs[0])
    ensures StripRelativePrefix(Join(segs)) == Join(segs)
  {
    JoinStartsWith(segs);
    var j := Join(segs);
    assert j == segs[0] + j[|segs[0]|..];
    NameNotStripped(segs[0], j[|segs[0]|..]);
  }

  /** The directory of a file named in a directory is that directory. */
  lemma DirnameOfFile(d: string, name: string)
    requires d != [] && d[0] != '/' && IsName(name)
    ensures Dirname(d + "/" + name) == d
  {
    var p := d + "/" + name;
    NameAfterSeparator(d, name);
    DirEndFindsSeparator(p, |d|, |p| - 1, true);
    assert p[0] == d[0];
    assert p[..|d|] == d;
  }

  lemma NameAfterSeparator(d: string, name: string)
    requires IsName(name)
    ensures var p := d + "/" + name; p[|d|] == '/' && forall j | |d| < j <= |p| - 1 :: p[j] != '/'
  {
    var p := d + "/" + name;
    forall j | |d| < j <= |p| - 1 ensures p[j] != '/' {
      assert p[j] == name[j - |d| - 1];
    }
  }

  /** A reference without a leading `/` is resolved in the directory of the
      file it was made from. */
  lemma RelativeReference(dir: seq<string>, name: string, ref: seq<string>)
    requires |dir| >= 1 && Canonical(dir, false) && IsName(name)
    requires |ref| >= 1 && Canonical(ref, false)
    ensures LocalPath(Join(dir) + "/" + name, Join(ref)) == Join(dir + ref)
  {
    NormalJoin(dir);
    DirnameOfFile(Join(dir), name);
    NormalJoin(ref);
    JoinAppend(dir, ref);
    var all := dir + ref;
    assert Canonical(all, false);
    NormalJoin(all);
    assert JoinPaths(Join(dir), Join(ref)) == Join(all);
  }

  /** A reference that starts with `../` is resolved in the parent of the
      directory of the file it was made from; from a file at the top of
      that directory, the parent of that directory's own parent. */
  lemma ParentReference(dir: seq<string>, name: string, ref: seq<string>)
    requires |dir| >= 1 && Canonical(dir, false) && IsName(name)
    requires |ref| >= 1 && Canonical(ref, false)
    ensures LocalPath(Join(dir) + "/" + name, "../" + Join(ref)) == Join(dir[..|dir| - 1] + ref)
  {
    var f := "../" + Join(ref);
    var up := dir[..|dir| - 1] + ref;
    NormalJoin(dir);
    DirnameOfFile(Join(dir), name);
    ParentRefNormal(ref);
    ParentJoinNormal(dir, ref);
    NormalJoin(up);
    assert JoinPaths(Join(dir), f) == Join(up);
  }

  /** `dir/../ref` normalises to `ref` in the parent of `dir`. */
  lemma ParentJoinNormal(dir: seq<string>, ref: seq<string>)
    requires |dir| >= 1 && Canonical(dir, false)
    requires |ref| >= 1 && Canonical(ref, false)
    ensures Canonical(dir[..|dir| - 1] + ref, false)
    ensures Normalize(Join(dir) + "/" + ("../" + Join(ref))) == Join(dir[..|dir| - 1] + ref)
  {
    var f := "../" + Join(ref);
    var p := Join(dir) + "/" + f;
    var up := dir[..|dir| - 1] + ref;
    CanonicalSegments(dir, false);
    JoinEnds(dir);
    ParentRefNormal(ref);
    SplitAtSlash(Join(dir), f);
    SplitJoin(dir);
    assert Split(p) == dir + ([".."] + ref);
    ResolveParentStep(dir, ref);
    assert p[0] == Join(dir)[0];
    assert p[|p| - 1] == f[|f| - 1];
    CanonicalSegments(up, false);
    JoinEnds(up);
    JoinIsForm(up);
  }

  /** `../ref`, for names `ref`, is in normal form and splits into `..`
      followed by `ref`. */
  lemma ParentRefNormal(ref: seq<string>)
    requires |ref| >= 1 && Canonical(ref, false)
    ensures Canonical([".."] + ref, true)
    ensures Form(false, [".."] + ref, false) == "../" + Join(ref)
    ensures Split("../" + Join(ref)) == [".."] + ref
    ensures Normalize("../" + Join(ref)) == "../" + Join(ref)
    ensures Join(ref) != [] && Join(ref)[0] != '/' && Join(ref)[|Join(ref)| - 1] != '/'
  {
    var segs := [".."] + ref;
    ParentRefForm(ref);
    FormIsNormal(false, segs, false);
  }

  lemma ParentRefForm(ref: seq<string>)
    requires |ref| >= 1 && Canonical(ref, false)
    ensures Canonical([".."] + ref, true)
    ensures Form(false, [".."] + ref, false) == "../" + Join(ref)
    ensures Split("../" + Join(ref)) == [".."] + ref
    ensures Join(ref) != [] && Join(ref)[0] != '/' && Join(ref)[|Join(ref)| - 1] != '/'
  {
    var segs := [".."] + ref;
    CanonicalSegments(ref, false);
    JoinEnds(ref);
    ParentJoinText(ref);
    ParentCanonical(ref);
    CanonicalSegments(segs, true);
    JoinIsForm(segs);
    SplitOfForm(false, segs, false);
  }

  lemma ParentJoinText(ref: seq<string>)
    requires |ref| >= 1
    ensures Join([".."] + ref) == "../" + Join(ref)
  {
    var segs := [".."] + ref;
    assert |segs| > 1 && segs[0] == ".." && segs[1..] == ref;
    JoinStartsWith(segs);
    ConcatSlash(Join(ref));
  }

  lemma ConcatSlash(x: string)
    ensures ".." + "/" + x == "../" + x
  {
  }

  lemma ParentCanonical(ref: seq<string>)
    requires Canonical(ref, false)
    ensures Canonical([".."] + ref, true)
  {
    var segs := [".."] + ref;
    forall i | 1 <= i < |segs| ensures IsName(segs[i]) {
      assert segs[i] == ref[i - 1];
    }
  }

  /** Resolving `dir`, `..` and `ref` in turn drops the last name of `dir`. */
  lemma ResolveParentStep(dir: seq<string>, ref: seq<string>)
    requires |dir| >= 1 && Canonical(dir, false)
    requires |ref| >= 1 && Canonical(ref, false)
    ensures Canonical(dir[..|dir| - 1] + ref, false)
    ensures Resolve([], dir + ([".."] + ref), true) == dir[..|dir| - 1] + ref
  {
    DropLastCanonical(dir, ref);
    ResolveAppend([], dir, [".."] + ref, true);
    ResolveNames(dir);
    ResolveParentSegment(dir, ref);
    ResolveCanonicalIdentity(dir[..|dir| - 1], ref, true);
  }

  /** Names resolve to themselves. */
  lemma ResolveNames(dir: seq<string>)
    requires Canonical(dir, false)
    ensures Resolve([], dir, true) == dir
  {
    assert [] + dir == dir;
    ResolveCanonicalIdentity([], dir, true);
  }

  /** A `..` after a name removes that name. */
  lemma ResolveParentSegment(dir: seq<string>, ref: seq<string>)
    requires |dir| >= 1 && IsName(dir[|dir| - 1])
    ensures Resolve(dir, [".."] + ref, true) == Resolve(dir[..|dir| - 1], ref, true)
  {
    assert ([".."] + ref)[0] == ".." && ([".."] + ref)[1..] == ref;
    assert Step(dir, "..", true) == dir[..|dir| - 1];
  }

  lemma DropLastCanonical(dir: seq<string>, ref: seq<string>)
    requires |dir| >= 1 && Canonical(dir, false) && Canonical(ref, false)
    ensures Canonical(dir[..|dir| - 1] + ref, false)
  {
    var up := dir[..|dir| - 1] + ref;
    forall i | 0 <= i < |up| ensures IsName(up[i]) {
      if i < |dir| - 1 { assert up[i] == dir[i]; } else { assert up[i] == ref[i - |dir| + 1]; }
    }
  }

  /** From a file at the top of the base directory, a reference that starts
      with `../` climbs above it; the one `../` that `localPath` strips
      brings it back in. */
  lemma TopLevelParentReference(name: string, ref: seq<string>)
    requires IsName(name)
    requires |ref| >= 1 && Canonical(ref, false)
    ensures LocalPath(name, "../" + Join(ref)) == Join(ref)
  {
    var f := "../" + Join(ref);
    ParentRefNormal(ref);
    DirnameOfName(name);
    DotParentNormal(ref);
    StripParentPrefix(Join(ref));
  }

  /** From a file at the top of the base directory, a reference made of
      names is its own key. */
  lemma TopLevelReference(name: string, ref: seq<string>)
    requires IsName(name)
    requires |ref| >= 1 && Canonical(ref, false)
    ensures LocalPath(name, Join(ref)) == Join(ref)
  {
    NormalJoin(ref);
    DirnameOfName(name);
    DotJoinNames(ref);
  }

  /** The top file, named from no file at all, is its own key when it is
      made of names. */
  lemma RootReference(ref: seq<string>)
    requires |ref| >= 1 && Canonical(ref, false)
    ensures LocalPath("", Join(ref)) == Join(ref)
  {
    NormalJoin(ref);
    assert Dirname("") == ".";
    DotJoinNames(ref);
  }

  /** `./ref` normalises to `ref`. */
  lemma DotJoinNames(ref: seq<string>)
    requires |ref| >= 1 && Canonical(ref, false)
    ensures Normalize("." + "/" + Join(ref)) == Join(ref)
  {
    var joined := "." + "/" + Join(ref);
    CanonicalSegments(ref, false);
    JoinEnds(ref);
    SplitJoin(ref);
    SplitAtSlash(".", Join(ref));
    SplitNoSlash(".");
    assert Split(joined) == ["."] + ref;
    CanonicalWidens(ref);
    DotResolve(ref);
    assert joined[0] == '.';
    assert joined[|joined| - 1] == Join(ref)[|Join(ref)| - 1];
    JoinIsForm(ref);
  }

  /** The directory of a bare name is `.`. */
  lemma DirnameOfName(name: string)
    requires IsName(name)
    ensures Dirname(name) == "."
  {
    DirEndNoSlash(name, |name| - 1, true);
  }

  lemma {:induction false} DirEndNoSlash(p: string, i: int, matchedSlash: bool)
    requires NoSlash(p) && i < |p|
    ensures DirEnd(p, i, matchedSlash) == -1
    decreases i
  {
    if i >= 1 {
      DirEndNoSlash(p, i - 1, false);
    }
  }

  /** `./../ref` normalises to `../ref`. */
  lemma DotParentNormal(ref: seq<string>)
    requires |ref| >= 1 && Canonical(ref, false)
    ensures Normalize("." + "/" + ("../" + Join(ref))) == "../" + Join(ref)
  {
    var f := "../" + Join(ref);
    var joined := "." + "/" + f;
    ParentRefNormal(ref);
    DotParentSplit(ref);
    DotResolve([".."] + ref);
    assert joined[0] == '.';
    assert joined[|joined| - 1] == f[|f| - 1];
  }

  lemma DotParentSplit(ref: seq<string>)
    requires |ref| >= 1 && Canonical(ref, false)
    ensures Split("." + "/" + ("../" + Join(ref))) == ["."] + ([".."] + ref)
  {
    ParentRefNormal(ref);
    SplitAtSlash(".", "../" + Join(ref));
    SplitNoSlash(".");
  }

  /** A leading `.` segment is dropped. */
  lemma DotResolve(segs: seq<string>)
    requires Canonical(segs, true)
    ensures Resolve([], ["."] + segs, true) == segs
  {
    assert (["."] + segs)[0] == "." && (["."] + segs)[1..] == segs;
    assert [] + segs == segs;
    ResolveCanonicalIdentity([], segs, true);
  }

  /** Only one leading `../` is removed: a reference that climbs two levels
      above the base directory keeps one of them in its key. */
  lemma OneParentPrefixRemoved(x: string)
    requires IsName(x)
    ensures LocalPath("", "../../" + x) == "../" + x
  {
    var segs := ["..", "..", x];
    var ref := "../../" + x;
    ParentsForm(x);
    assert Normalize(ref) == ref;
    assert Dirname("") == ".";
    DotJoin(x);
    assert JoinPaths(".", ref) == ref;
    assert ref == "../" + ("../" + x);
    StripParentPrefix("../" + x);
  }

  lemma ParentsForm(x: string)
    requires IsName(x)
    ensures Form(false, ["..", "..", x], false) == "../../" + x
    ensures Canonical(["..", "..", x], true)
    ensures Normalize("../../" + x) == "../../" + x
  {
    var segs := ["..", "..", x];
    assert Join([x]) == x;
    assert Join(["..", x]) == ".." + "/" + x by { assert ["..", x][1..] == [x]; }
    assert Join(segs) == ".." + "/" + Join(["..", x]) by { assert segs[1..] == ["..", x]; }
    assert Canonical(segs, true);
    FormIsNormal(false, segs, false);
  }

  lemma DotJoin(x: string)
    requires IsName(x)
    ensures Normalize("." + "/" + ("../../" + x)) == "../../" + x
  {
    var segs := ["..", "..", x];
    var ref := "../../" + x;
    ParentsForm(x);
    CanonicalSegments(segs, true);
    SplitOfForm(false, segs, false);
    assert Split(ref) == segs;
    SplitAtSlash(".", ref);
    SplitNoSlash(".");
    var joined := "." + "/" + ref;
    assert Split(joined) == ["."] + segs;
    ResolveAppend([], ["."], segs, true);
    ResolveCanonicalIdentity([], segs, true);
    assert [] + segs == segs;
    assert Resolve([], ["."], true) == [];
    assert Resolve([], Split(joined), true) == segs;
  }
}
