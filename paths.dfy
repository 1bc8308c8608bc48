/** The parts of Node's `path` module (POSIX flavour) that the core uses. */
module Paths {
  import opened Text

  /** path.join(dir, name) for a directory and an entry name. */
  function Join(dir: string, name: string): string {
    dir + "/" + name
  }

  lemma JoinInjective(dir: string, a: string, b: string)
    requires Join(dir, a) == Join(dir, b)
    ensures a == b
  {
    assert a == Join(dir, a)[|dir| + 1..];
    assert b == Join(dir, b)[|dir| + 1..];
  }

  lemma JoinCancel(dir: string, a: string, b: string)
    ensures Join(dir, a) == Join(dir, b) ==> a == b
  {
    if Join(dir, a) == Join(dir, b) {
      JoinInjective(dir, a, b);
    }
  }

  function TrimTrailingSlashes(p: string): (r: string)
    ensures |r| <= |p| && r == p[..|r|]
    ensures r == "" || r[|r| - 1] != '/'
  {
    if |p| > 0 && p[|p| - 1] == '/' then TrimTrailingSlashes(p[..|p| - 1]) else p
  }

  /** The last component of a path, trailing separators ignored (path.basename without suffix). */
  function LastComponent(p: string): (r: string)
    ensures '/' !in r
  {
    var t := TrimTrailingSlashes(p);
    t[LastIndexOf(t, '/') + 1..]
  }

  lemma LastComponentOfJoin(dir: string, name: string)
    requires '/' !in name && name != ""
    ensures LastComponent(Join(dir, name)) == name
  {
    var p := Join(dir, name);
    assert p[|p| - 1] == name[|name| - 1];
    assert TrimTrailingSlashes(p) == p;
    var k := LastIndexOf(p, '/');
    assert p[|dir|] == '/';
    assert k == |dir|;
  }

  lemma LastComponentOfPlainName(name: string)
    requires '/' !in name && name != ""
    ensures LastComponent(name) == name
  {
    assert TrimTrailingSlashes(name) == name;
  }

  /** The extension of one path component by path.extname's rule: the text from the last
      '.', unless there is none, that dot is the component's first character, or the
      component is "..". */
  function ComponentExt(c: string): (r: string)
    ensures r == "" || (r[0] == '.' && |r| < |c| && EndsWith(c, r) && '.' !in r[1..])
    ensures r == "" <==> ('.' !in c || (c[0] == '.' && '.' !in c[1..]) || c == "..")
  {
    var k := LastIndexOf(c, '.');
    if k <= 0 || c == ".." then ""
    else
      assert '.' in c[1..] by { assert c[1..][k - 1] == '.'; }
      assert c[0] == '.' ==> '.' in c[1..];
      c[k..]
  }

  /** path.extname(p). */
  function ExtName(p: string): string {
    ComponentExt(LastComponent(p))
  }

  /** path.parse(p).name: the last component without its extension. */
  function ParseName(p: string): (r: string)
    ensures var c := LastComponent(p); c == r + ComponentExt(c)
  {
    var c := LastComponent(p);
    c[..|c| - |ComponentExt(c)|]
  }

  /** path.basename(p, suffix): the last component, with `suffix` removed when it ends with
      it and is longer than it; "" when the whole path equals the suffix. */
  function BaseName(p: string, suffix: string): string {
    var c := LastComponent(p);
    if suffix != "" && suffix == p then ""
    else if suffix != "" && EndsWith(c, suffix) && c != suffix then c[..|c| - |suffix|]
    else c
  }

  /** `${stem}.${ext}` for a non-empty stem without '/' and a non-empty extension without
      '.' or '/': extname gives back "." + ext and path.parse's name gives back the stem. */
  lemma DottedNameParts(stem: string, ext: string)
    requires stem != "" && '/' !in stem
    requires ext != "" && '.' !in ext && '/' !in ext
    ensures ExtName(stem + ("." + ext)) == "." + ext
    ensures ParseName(stem + ("." + ext)) == stem
  {
    var p := stem + ("." + ext);
    DottedSlashFree(stem, ext);
    LastComponentOfPlainName(p);
    DottedComponentExt(stem, ext);
  }

  lemma DottedSlashFree(stem: string, ext: string)
    requires '/' !in stem && '/' !in ext
    ensures '/' !in stem + ("." + ext)
  {
    var e := "." + ext;
    var p := stem + e;
    forall k | 0 <= k < |p| ensures p[k] != '/' {
      if k < |stem| { assert p[k] == stem[k]; }
      else if k > |stem| { assert p[k] == ext[k - |stem| - 1]; }
    }
  }

  lemma DottedComponentExt(stem: string, ext: string)
    requires stem != "" && ext != "" && '.' !in ext
    ensures ComponentExt(stem + ("." + ext)) == "." + ext
  {
    var p := stem + ("." + ext);
    assert p[|stem|] == '.';
    assert p[|stem| + 1..] == ext;
    LastIndexOfAt(p, '.', |stem|);
    assert p != "..";
    assert p[|stem|..] == "." + ext;
  }
}
