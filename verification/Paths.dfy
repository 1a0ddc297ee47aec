// String-level path containment of scripts/claude-recover.py (_under) and scripts/hook-guard-destructive-rm.py, and its
// agreement with containment of path components.

module Paths {

  // A normalised absolute path with one leading slash, as its components.
  ghost predicate IsPath(p: seq<string>) {
    forall c | c in p :: c != "" && '/' !in c
  }

  function Rendered(p: seq<string>): string {
    if p == [] then "" else "/" + p[0] + Rendered(p[1..])
  }

  function Text(p: seq<string>): string {
    if p == [] then "/" else Rendered(p)
  }

  function StripSlashes(s: string): (r: string)
    ensures r <= s && (r != "" ==> r[|r| - 1] != '/')
  {
    if s != "" && s[|s| - 1] == '/' then StripSlashes(s[..|s| - 1]) else s
  }

  // The two string tests, for a root without trailing slashes.
  predicate InsideOrEqual(path: string, root: string) {
    path == root || root + "/" <= path
  }

  predicate Under(path: string, root: string) {
    InsideOrEqual(path, StripSlashes(root))
  }

  lemma TailIsPath(p: seq<string>)
    requires IsPath(p) && p != []
    ensures IsPath(p[1..]) && p[0] != "" && '/' !in p[0]
  {
    assert p[0] in p && forall c | c in p[1..] :: c in p;
  }

  lemma {:induction false} RenderedEnd(p: seq<string>)
    requires IsPath(p)
    ensures p != [] ==> Rendered(p) != "" && Rendered(p)[0] == '/' && Rendered(p)[|Rendered(p)| - 1] != '/'
    ensures StripSlashes(Text(p)) == Rendered(p)
  {
    if p != [] {
      TailIsPath(p);
      RenderedEnd(p[1..]);
      assert p[0][|p[0]| - 1] in p[0];
    } else {
      assert StripSlashes("/") == StripSlashes("") == "";
    }
  }

  // How many characters come before the first slash.
  function ToSlash(s: string): nat {
    if s == "" || s[0] == '/' then 0 else 1 + ToSlash(s[1..])
  }

  lemma {:induction false} ToSlashOf(c: string, tail: string)
    requires '/' !in c && (tail == "" || tail[0] == '/')
    ensures ToSlash(c + tail) == |c|
  {
    if c == "" {
      assert c + tail == tail;
    } else {
      assert c[0] in c && (c + tail)[1..] == c[1..] + tail;
      ToSlashOf(c[1..], tail);
    }
  }

  lemma {:induction false} ToSlashOfLonger(s: string, t: string)
    requires s <= t && ToSlash(s) < |s|
    ensures ToSlash(t) == ToSlash(s)
  {
    if s[0] != '/' { ToSlashOfLonger(s[1..], t[1..]); }
  }

  // Containment as strings is containment by components.
  lemma {:induction false} InsideIff(p: seq<string>, r: seq<string>)
    requires IsPath(p) && IsPath(r)
    ensures InsideOrEqual(Rendered(p), Rendered(r)) <==> r <= p
    decreases |r|
  {
    if p != [] { RenderedEnd(p); }
    if r == [] {
      assert Rendered(r) + "/" == "/";
      assert p != [] ==> "/" <= Rendered(p);
    } else if p == [] {
      RenderedEnd(r);
    } else {
      hide InsideOrEqual;
      TailIsPath(p);
      TailIsPath(r);
      RenderedEnd(p[1..]);
      RenderedEnd(r[1..]);
      InsideIff(p[1..], r[1..]);
      InsideStep(p[0], Rendered(p[1..]), r[0], Rendered(r[1..]));
      assert Rendered(p) == "/" + p[0] + Rendered(p[1..]) && Rendered(r) == "/" + r[0] + Rendered(r[1..]);
      assert r <= p <==> r[0] == p[0] && r[1..] <= p[1..];
    }
  }

  lemma InsideStep(a: string, x: string, b: string, y: string)
    requires '/' !in a && '/' !in b && (x == "" || x[0] == '/') && (y == "" || y[0] == '/')
    ensures InsideOrEqual("/" + a + x, "/" + b + y) <==> a == b && InsideOrEqual(x, y)
  {
    hide InsideOrEqual;
    assert "/" + a + x == "/" + (a + x) && "/" + b + y == "/" + (b + y);
    ToSlashOf(a, x);
    ToSlashOf(b, y);
    ToSlashOf(b, y + "/");
    if InsideOrEqual("/" + (a + x), "/" + (b + y)) {
      SameFirst(a, x, b, y);
    }
    if a == b {
      SameRest(a, x, y);
    }
  }

  lemma SameFirst(a: string, x: string, b: string, y: string)
    requires InsideOrEqual("/" + (a + x), "/" + (b + y))
    requires ToSlash(a + x) == |a| && ToSlash(b + y) == |b| && ToSlash(b + (y + "/")) == |b|
    ensures a == b
  {
    var s, t := "/" + (b + y) + "/", "/" + (a + x);
    assert s[1..] == b + (y + "/") && t[1..] == a + x;
    if t == "/" + (b + y) {
      assert a + x == b + y;
    } else {
      assert s[1..] <= t[1..];
      ToSlashOfLonger(b + (y + "/"), a + x);
    }
    assert (a + x)[..|a|] == a && (b + (y + "/"))[..|b|] == b && (b + y)[..|b|] == b;
    assert (a + x)[..|b|] == b;
  }

  lemma SameRest(a: string, x: string, y: string)
    ensures InsideOrEqual("/" + (a + x), "/" + (a + y)) <==> InsideOrEqual(x, y)
  {
    var n := 1 + |a|;
    assert ("/" + (a + x))[n..] == x && ("/" + (a + y))[n..] == y;
    assert "/" + (a + y) + "/" == "/" + (a + (y + "/"));
    assert ("/" + (a + (y + "/")))[n..] == y + "/";
    if y + "/" <= x { assert x == (y + "/") + x[|y| + 1..]; }
  }

  // _under is component-wise containment.
  lemma UnderIff(p: seq<string>, r: seq<string>)
    requires IsPath(p) && IsPath(r)
    ensures Under(Text(p), Text(r)) <==> r <= p
  {
    RenderedEnd(p);
    RenderedEnd(r);
    InsideIff(p, r);
    if p == [] && r != [] {
      assert Rendered(r)[0] == '/' && |Rendered(r)| > 1 by { assert r[0] in r; }
    }
  }

  // ---- The guard against destructive deletes ----

  function OrRoot(s: string): string {
    if s == "" then "/" else s
  }

  function Join(home: string, name: string): string {
    if home != "" && home[|home| - 1] == '/' then home + name else home + "/" + name
  }

  const TREES: seq<string> := [".claude", ".claude-agent", "claude-agent-instructions"]

  function ProtectedTrees(home: string): seq<string> {
    var h := OrRoot(StripSlashes(home));
    [Join(h, TREES[0]), Join(h, TREES[1]), Join(h, TREES[2])]
  }

  function ProtectedPoints(home: string): seq<string> {
    ["/", OrRoot(StripSlashes(home))]
  }

  predicate HitsTree(path: string, crit: string) {
    InsideOrEqual(path, crit) || path + "/" <= crit
  }

  predicate HitsPoint(path: string, crit: string) {
    path == crit || (crit != "/" && path + "/" <= crit)
  }

  predicate TreeHit(path: string, home: string) {
    exists crit | crit in ProtectedTrees(home) :: HitsTree(path, StripSlashes(crit))
  }

  predicate PointHit(path: string, home: string) {
    exists crit | crit in ProtectedPoints(home) :: HitsPoint(path, OrRoot(StripSlashes(crit)))
  }

  predicate Protected(path: string, home: string) {
    var p := OrRoot(StripSlashes(path));
    TreeHit(p, home) || PointHit(p, home)
  }

  method IsProtected(target: string, home: string) returns (hit: bool)
    ensures hit == Protected(target, home)
  {
    hide StripSlashes, Join, OrRoot;
    var path := OrRoot(StripSlashes(target));
    var trees, points := ProtectedTrees(home), ProtectedPoints(home);
    for i := 0 to |trees|
      invariant forall k | 0 <= k < i :: !HitsTree(path, StripSlashes(trees[k]))
    {
      var crit := StripSlashes(trees[i]);
      if path == crit || crit + "/" <= path { return true; }
      if path + "/" <= crit { return true; }
    }
    for i := 0 to |points|
      invariant forall k | 0 <= k < i :: !HitsPoint(path, OrRoot(StripSlashes(points[k])))
    {
      var crit := OrRoot(StripSlashes(points[i]));
      if path == crit { return true; }
      if crit != "/" && path + "/" <= crit { return true; }
    }
    return false;
  }

  lemma {:induction false} RenderedAppend(p: seq<string>, c: string)
    ensures Rendered(p + [c]) == Rendered(p) + "/" + c
  {
    if p == [] {
      assert [] + [c] == [c] && Rendered([c][1..]) == "";
    } else {
      assert (p + [c])[1..] == p[1..] + [c];
      RenderedAppend(p[1..], c);
    }
  }

  lemma TreeText(h: seq<string>, name: string)
    requires IsPath(h) && name != "" && '/' !in name
    ensures IsPath(h + [name]) && StripSlashes(Join(OrRoot(StripSlashes(Text(h))), name)) == Rendered(h + [name])
  {
    RenderedEnd(h);
    RenderedAppend(h, name);
    RenderedEnd(h + [name]);
    assert h == [] ==> "/" + name == Rendered(h + [name]);
  }

  lemma AncestorIff(t: seq<string>, r: seq<string>)
    requires IsPath(t) && IsPath(r) && t != []
    ensures Rendered(t) + "/" <= Rendered(r) <==> t <= r && t != r
  {
    InsideIff(r, t);
    if Rendered(r) == Rendered(t) {
      InsideIff(t, r);
    }
  }

  ghost predicate TouchesTree(t: seq<string>, h: seq<string>) {
    exists name | name in TREES :: t <= h + [name] || h + [name] <= t
  }

  lemma NamedTreeIff(t: seq<string>, h: seq<string>, name: string)
    requires IsPath(t) && IsPath(h) && t != [] && name in TREES
    ensures HitsTree(Rendered(t), StripSlashes(Join(OrRoot(StripSlashes(Text(h))), name)))
            <==> t <= h + [name] || h + [name] <= t
  {
    hide Text, OrRoot, StripSlashes, Join, Rendered, InsideOrEqual, IsPath;
    assert name != "" && '/' !in name;
    TreeText(h, name);
    InsideIff(t, h + [name]);
    AncestorIff(t, h + [name]);
  }

  lemma TreeHitIff(t: seq<string>, h: seq<string>)
    requires IsPath(t) && IsPath(h) && t != []
    ensures TreeHit(Rendered(t), Text(h)) <==> TouchesTree(t, h)
  {
    hide Rendered, Text, StripSlashes, HitsTree, Join, OrRoot;
    forall name | name in TREES
      ensures HitsTree(Rendered(t), StripSlashes(Join(OrRoot(StripSlashes(Text(h))), name)))
              <==> t <= h + [name] || h + [name] <= t
    {
      NamedTreeIff(t, h, name);
    }
    assert TREES[0] in TREES && TREES[1] in TREES && TREES[2] in TREES;
  }

  lemma PointHitIff(t: seq<string>, h: seq<string>)
    requires IsPath(t) && IsPath(h) && t != []
    ensures PointHit(Rendered(t), Text(h)) <==> t <= h
  {
    RenderedEnd(t);
    RenderedEnd(h);
    AncestorIff(t, h);
    SameText(t, h);
    SameText(t, []);
    var path, points := Rendered(t), ProtectedPoints(Text(h));
    assert OrRoot(StripSlashes("/")) == "/" by { RenderedEnd([]); }
    assert points[0] in points && points[1] in points;
    assert path != "/" by { assert "/"[|"/"| - 1] == '/'; }
    assert OrRoot(StripSlashes(OrRoot(Rendered(h)))) == Text(h);
    assert HitsPoint(path, Text(h)) <==> t <= h;
  }

  // A target passes exactly when its subtree holds neither "/", HOME nor a protected tree, and it lies in no such tree.
  lemma PassesIff(t: seq<string>, h: seq<string>)
    requires IsPath(t) && IsPath(h)
    ensures !Protected(Text(t), Text(h)) <==> t != [] && !(t <= h) && !TouchesTree(t, h)
  {
    RenderedEnd(t);
    if t == [] {
      assert "/" in ProtectedPoints(Text(h));
      assert OrRoot(StripSlashes("/")) == "/" by { RenderedEnd([]); }
      assert HitsPoint("/", OrRoot(StripSlashes("/")));
    } else {
      TreeHitIff(t, h);
      PointHitIff(t, h);
    }
  }

  lemma SameText(t: seq<string>, h: seq<string>)
    requires IsPath(t) && IsPath(h)
    ensures Rendered(t) == Rendered(h) <==> t == h
  {
    InsideIff(t, h);
    InsideIff(h, t);
  }
}
