/** Path normalisation, and the parent and last component of a normalised path. */
module Paths {

  const MAX_PATH := 4096

  // ---- the reference: a path is its list of components ----

  /** A component counts unless it is empty or ".". */
  predicate Counts(c: string) {
    c != "" && c != "."
  }

  function Emit(c: string): seq<string> {
    if Counts(c) then [c] else []
  }

  /** The components of `cur` followed by `s`, where `cur` is the component being read. */
  function Walk(cur: string, s: string): seq<string>
    decreases |s|
  {
    if s == "" then Emit(cur)
    else if s[0] == '/' then Emit(cur) + Walk("", s[1..])
    else Walk(cur + [s[0]], s[1..])
  }

  /** The components between slashes, without empty ones and ".". */
  function Components(path: string): seq<string> {
    Walk("", path)
  }

  /** Every component behind a slash, and a slash at the end. */
  function Open(cs: seq<string>): (r: string)
    ensures |r| > 0 && r[0] == '/' && r[|r| - 1] == '/'
  {
    if cs == [] then "/" else Open(cs[..|cs| - 1]) + cs[|cs| - 1] + "/"
  }

  /** The canonical spelling of a list of components. */
  function Render(cs: seq<string>): string {
    if cs == [] then "/" else Open(cs)[..|Open(cs)| - 1]
  }

  function Normalize(path: string): string {
    Render(Components(path))
  }

  ghost predicate Proper(cs: seq<string>) {
    forall i | 0 <= i < |cs| :: Counts(cs[i]) && '/' !in cs[i]
  }

  // ---- the code ----

  /** `path_normalize`: the canonical spelling of the components whenever that fits the
      buffer, however long the path; never more than the buffer holds. */
  method PathNormalize(path: string) returns (out: string)
    ensures 1 <= |out| < MAX_PATH
    ensures |Open(Components(path))| < MAX_PATH - 1 ==> out == Normalize(path)
  {
    out := "";
    var p := 0;
    ghost var cs: seq<string>, cur := [], "";
    if path == "" || path[0] != '/' {
      out := "/";
    }
    assert path[0..] == path;
    var cut := false;
    while p < |path| && !cut
      invariant Reading(path, p, out, cs, cur)
      invariant |out| < MAX_PATH
      invariant cut <==> |out| >= MAX_PATH - 1
      decreases |path| - p, !cut
    {
      if path[p] == '/' && |out| > 0 && out[|out| - 1] == '/' {
        AfterSlash(path, p, out, cs, cur);
        p := p + 1;
      } else if path[p] == '.' && (p + 1 == |path| || path[p + 1] == '/') && (|out| == 0 || out[|out| - 1] == '/') {
        AfterDot(path, p, out, cs, cur);
        p := p + 1;
      } else {
        AfterCopy(path, p, out, cs, cur);
        ghost var parts := NextParts(path[p], out, cs, cur);
        cs, cur := parts.0, parts.1;
        out := out + [path[p]];
        p := p + 1;
        cut := |out| >= MAX_PATH - 1;
      }
    }
    ReadingFits(path, p, out, cs, cur);
    out := TrimSlashes(out, cs, cur);
    if !cut {
      assert path[p..] == "";
    }
  }

  /** After `p` bytes the output spells the components read so far, `cs`, and the beginning
      `cur` of the next one; what is still to come completes them. */
  ghost predicate Reading(path: string, p: nat, out: string, cs: seq<string>, cur: string) {
    && p <= |path|
    && (out == "" ==> p == 0 && |path| > 0 && path[0] == '/' && cs == [] && cur == "")
    && (out != "" ==> out == Open(cs) + cur)
    && '/' !in cur && Proper(cs)
    && (cur == "." ==> p < |path| && path[p] != '/')
    && Components(path) == cs + Walk(cur, path[p..])
  }

  /** The trailing-slash loop. */
  method TrimSlashes(raw: string, ghost cs: seq<string>, ghost cur: string) returns (out: string)
    requires |raw| > 0 && '/' !in cur && Proper(cs) && raw == Open(cs) + cur
    ensures 1 <= |out| <= |raw|
    ensures cur != "." ==> out == Render(cs + Emit(cur))
  {
    out := raw;
    while |out| > 1 && out[|out| - 1] == '/'
      invariant 1 <= |out| <= |raw| && out == raw[..|out|]
      invariant forall i | |out| <= i < |raw| :: raw[i] == '/'
    {
      out := out[..|out| - 1];
    }
    if cur != "." { Trimmed(cs, cur, raw, out); }
  }

  // ---- the output never exceeds what it is to become ----

  lemma ReadingFits(path: string, p: nat, out: string, cs: seq<string>, cur: string)
    requires Reading(path, p, out, cs, cur)
    ensures |out| <= |Open(Components(path))|
  {
    var ds := Walk(cur, path[p..]);
    OpenLonger(cs, ds);
    if cur != "" { WalkBegins(cur, path[p..]); }
  }

  /** A component once begun is read to its end. */
  lemma {:induction false} WalkBegins(cur: string, s: string)
    requires cur != "" && (cur == "." ==> s != "" && s[0] != '/')
    ensures Walk(cur, s) != [] && |Walk(cur, s)[0]| >= |cur|
    decreases |s|
  {
    if s != "" && s[0] != '/' { WalkBegins(cur + [s[0]], s[1..]); }
  }

  lemma {:induction false} OpenLonger(cs: seq<string>, ds: seq<string>)
    ensures |Open(cs + ds)| >= |Open(cs)| + if ds == [] then 0 else |ds[0]|
    decreases |ds|
  {
    if ds == [] {
      assert cs + ds == cs;
    } else {
      var init, last := ds[..|ds| - 1], ds[|ds| - 1];
      OpenLonger(cs, init);
      OpenGrows(cs + init, last);
      assert cs + ds == cs + init + [last];
    }
  }

  // ---- steps of the loop ----

  lemma AfterSlash(path: string, p: nat, out: string, cs: seq<string>, cur: string)
    requires Reading(path, p, out, cs, cur) && p < |path|
    requires path[p] == '/' && out != "" && out[|out| - 1] == '/'
    ensures Reading(path, p + 1, out, cs, cur)
  {
    EndsInSlash(cs, cur);
    assert path[p..][1..] == path[p + 1..];
  }

  lemma AfterDot(path: string, p: nat, out: string, cs: seq<string>, cur: string)
    requires Reading(path, p, out, cs, cur) && p < |path|
    requires path[p] == '.' && (p + 1 == |path| || path[p + 1] == '/') && (out == "" || out[|out| - 1] == '/')
    ensures Reading(path, p + 1, out, cs, cur)
  {
    EndsInSlash(cs, cur);
    SkipDot(path[p..]);
    assert path[p..][1..] == path[p + 1..];
  }

  /** The components read and the one begun, after one more byte was copied. */
  ghost function NextParts(c: char, out: string, cs: seq<string>, cur: string): (seq<string>, string) {
    if c != '/' then (cs, cur + [c]) else if out == "" then (cs, "") else (cs + [cur], "")
  }

  lemma AfterCopy(path: string, p: nat, out: string, cs: seq<string>, cur: string)
    requires Reading(path, p, out, cs, cur) && p < |path|
    requires !(path[p] == '/' && out != "" && out[|out| - 1] == '/')
    requires !(path[p] == '.' && (p + 1 == |path| || path[p + 1] == '/') && (out == "" || out[|out| - 1] == '/'))
    ensures var parts := NextParts(path[p], out, cs, cur);
            Reading(path, p + 1, out + [path[p]], parts.0, parts.1)
  {
    EndsInSlash(cs, cur);
    var rest := path[p..];
    assert rest[1..] == path[p + 1..];
    if path[p] == '/' {
      assert forall x: string :: x + "" == x;
      if out != "" {
        OpenGrows(cs, cur);
        WalkSlash(cs, cur, rest);
        assert Proper(cs + [cur]);
      } else {
        assert out + "/" == "/" == Open(cs);
      }
    } else {
      assert (cur + [path[p]])[|cur|] == path[p];
      assert out != "";
      if cur + [path[p]] == "." { assert cur == ""; }
      assert Open(cs) + cur + [path[p]] == Open(cs) + (cur + [path[p]]);
    }
  }

  lemma EndsInSlash(cs: seq<string>, cur: string)
    requires '/' !in cur
    ensures var o := Open(cs) + cur; o[|o| - 1] == '/' <==> cur == ""
  {
    if cur != "" { assert (Open(cs) + cur)[|Open(cs) + cur| - 1] == cur[|cur| - 1]; }
  }

  lemma SkipDot(s: string)
    requires |s| > 0 && s[0] == '.' && (|s| == 1 || s[1] == '/')
    ensures Walk("", s) == Walk("", s[1..])
  {
    assert "" + ['.'] == ".";
  }

  lemma WalkSlash(cs: seq<string>, cur: string, s: string)
    requires |s| > 0 && s[0] == '/' && Counts(cur)
    ensures cs + Walk(cur, s) == (cs + [cur]) + Walk("", s[1..])
  {
  }

  lemma OpenGrows(cs: seq<string>, c: string)
    ensures Open(cs + [c]) == Open(cs) + c + "/"
  {
    assert (cs + [c])[..|cs|] == cs;
  }

  /** Dropping trailing slashes leaves the canonical spelling. */
  lemma Trimmed(cs: seq<string>, cur: string, raw: string, out: string)
    requires Proper(cs) && '/' !in cur && cur != "."
    requires raw == Open(cs) + cur
    requires 1 <= |out| <= |raw| && out == raw[..|out|]
    requires forall i | |out| <= i < |raw| :: raw[i] == '/'
    requires |out| == 1 || out[|out| - 1] != '/'
    ensures out == Render(cs + Emit(cur))
  {
    if cur != "" {
      EndsInSlash(cs, cur);
      OpenGrows(cs, cur);
    } else {
      assert raw == Open(cs) && cs + Emit(cur) == cs;
      if cs != [] {
        var init, last := cs[..|cs| - 1], cs[|cs| - 1];
        assert raw == Open(init) + last + "/";
        assert raw[|raw| - 2] == last[|last| - 1];
      }
    }
  }

  // ---- laws of normal form ----

  lemma {:induction false} WalkProper(cur: string, s: string)
    requires '/' !in cur
    ensures Proper(Walk(cur, s))
    decreases |s|
  {
    if s != "" {
      WalkProper(if s[0] == '/' then "" else cur + [s[0]], s[1..]);
    }
  }

  lemma {:induction false} WalkAppend(cur: string, s: string, t: string)
    ensures Walk(cur, s + "/" + t) == Walk(cur, s) + Walk("", t)
    decreases |s|
  {
    var st := s + "/" + t;
    if s == "" {
      assert st[0] == '/' && st[1..] == t;
    } else {
      assert st[0] == s[0] && st[1..] == s[1..] + "/" + t;
      WalkAppend(if s[0] == '/' then "" else cur + [s[0]], s[1..], t);
    }
  }

  lemma {:induction false} WalkPlain(cur: string, c: string)
    requires '/' !in c
    ensures Walk(cur, c) == Emit(cur + c)
    decreases |c|
  {
    if c == "" {
      assert cur + c == cur;
    } else {
      WalkPlain(cur + [c[0]], c[1..]);
      assert cur + [c[0]] + c[1..] == cur + c;
    }
  }

  /** A slash separates components, and what lies between slashes is one component unless it is
      empty or a single dot. */
  lemma ComponentsSplit(a: string, b: string)
    ensures Components(a + "/" + b) == Components(a) + Components(b)
    ensures '/' !in b ==> Components(b) == if b == "" || b == "." then [] else [b]
  {
    WalkAppend("", a, b);
    if '/' !in b {
      WalkPlain("", b);
      assert "" + b == b;
    }
  }

  /** Reading a canonical path gives back its components. */
  lemma {:induction false} ReadBack(cs: seq<string>)
    requires Proper(cs)
    ensures Components(Render(cs)) == cs
    decreases |cs|
  {
    if cs == [] {
      assert "/"[1..] == "";
    } else {
      var init, last := cs[..|cs| - 1], cs[|cs| - 1];
      ReadBack(init);
      RenderLast(cs);
      var head := if init == [] then "" else Render(init);
      assert Render(cs) == head + "/" + last;
      WalkAppend("", head, last);
      WalkPlain("", last);
      assert "" + last == last;
      assert Components(head) == init;
    }
  }

  /** A canonical path is its parent, a slash, and its last component. */
  lemma RenderLast(cs: seq<string>)
    requires cs != []
    ensures var init, last := cs[..|cs| - 1], cs[|cs| - 1];
            Render(cs) == (if init == [] then "" else Render(init)) + "/" + last
  {
    var init, last := cs[..|cs| - 1], cs[|cs| - 1];
    assert Render(cs) == Open(init) + last;
    if init != [] { assert Open(init) == Render(init) + "/"; }
  }

  /** Normalising twice is normalising once. */
  lemma NormalizeIdempotent(path: string)
    ensures Normalize(Normalize(path)) == Normalize(path)
  {
    WalkProper("", path);
    ReadBack(Components(path));
  }

  /** Two paths share a key exactly when they have the same components. */
  lemma SameKeyIff(a: string, b: string)
    ensures Normalize(a) == Normalize(b) <==> Components(a) == Components(b)
  {
    WalkProper("", a);
    WalkProper("", b);
    ReadBack(Components(a));
    ReadBack(Components(b));
  }

  // ---- parent and last component ----

  /** The position behind the last slash: the loop of `get_parent_path` and `get_basename`. */
  method LastSlash(norm: string) returns (i: nat)
    ensures i <= |norm| && '/' !in norm[i..]
    ensures i > 0 ==> norm[i - 1] == '/'
  {
    i := |norm|;
    while i > 0 && norm[i - 1] != '/'
      invariant i <= |norm| && '/' !in norm[i..]
    {
      i := i - 1;
    }
  }

  /** `get_parent_path` on a canonical path: the path of all components but the last. */
  method GetParentPath(norm: string, ghost cs: seq<string>) returns (parent: string)
    requires Proper(cs) && norm == Render(cs)
    ensures parent == Render(if cs == [] then [] else cs[..|cs| - 1])
  {
    if |norm| <= 1 {
      RootOnly(cs);
      return "/";
    }
    var i := LastSlash(norm);
    SlashPlace(cs, i);
    if i <= 1 {
      return "/";
    }
    parent := norm[..i - 1];
  }

  /** `get_basename` on a canonical path: the last component, empty for the root. */
  method GetBasename(norm: string, ghost cs: seq<string>) returns (name: string)
    requires Proper(cs) && norm == Render(cs)
    ensures name == if cs == [] then "" else cs[|cs| - 1]
  {
    var i := LastSlash(norm);
    SlashPlace(cs, i);
    name := norm[i..];
  }

  lemma RootOnly(cs: seq<string>)
    requires Proper(cs) && |Render(cs)| <= 1
    ensures cs == []
  {
    if cs != [] { RenderLast(cs); }
  }

  /** The last slash of a canonical path sits before its last component. */
  lemma SlashPlace(cs: seq<string>, i: nat)
    requires Proper(cs) && i <= |Render(cs)| && '/' !in Render(cs)[i..]
    requires i > 0 ==> Render(cs)[i - 1] == '/'
    ensures cs == [] ==> i == 1
    ensures cs != [] ==>
              var init, last := cs[..|cs| - 1], cs[|cs| - 1];
              && i == |Render(cs)| - |last| && Render(cs)[i..] == last
              && (if init == [] then i == 1 else i > 1 && Render(cs)[..i - 1] == Render(init))
  {
    var norm := Render(cs);
    if cs != [] {
      var init, last := cs[..|cs| - 1], cs[|cs| - 1];
      RenderLast(cs);
      var j := |norm| - |last|;
      assert norm[j - 1] == '/' && norm[j..] == last;
    }
  }

  /** Parent and last component put together are the path again. */
  lemma ParentPlusBase(cs: seq<string>)
    requires Proper(cs) && cs != []
    ensures var parent, base := Render(cs[..|cs| - 1]), cs[|cs| - 1];
            Render(cs) == (if parent == "/" then "" else parent) + "/" + base
  {
    RenderLast(cs);
    var init := cs[..|cs| - 1];
    if init != [] {
      RenderLast(init);
      assert |init[|init| - 1]| > 0;
    }
  }
}
