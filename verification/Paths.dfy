/** Canonical absolute paths: the text tests agree with the order of components. */
module Paths {
  import opened Text

  /** Absolute, no empty, `.` or `..` component, no trailing slash except in `/`, no NUL. */
  predicate ValidPath(path: string) {
    && path != "" && '\0' !in path && path[0] == '/'
    && (path == "/" ||
        (path[|path| - 1] != '/' &&
         forall c :: c in Split(path[1..], '/') ==> c != "" && c != "." && c != ".."))
  }

  function Components(path: string): seq<string> {
    if path == "" || path == "/" then [] else Split(path[1..], '/')
  }

  function PathText(components: seq<string>): string { "/" + Join(components, "/") }

  /** `path` is `p` followed by a slash and more. */
  predicate BelowText(path: string, p: string) {
    p <= path && |p| < |path| && path[|p|] == '/'
  }

  lemma TextOfComponents(path: string)
    requires ValidPath(path)
    ensures PathText(Components(path)) == path
  {
    if path != "/" {
      JoinSplit(path[1..], '/');
      assert "/" + path[1..] == path;
    }
  }

  lemma BelowIsPrefix(path: string, p: string)
    requires ValidPath(path) && ValidPath(p) && p != "/" && BelowText(path, p)
    ensures Components(p) <= Components(path)
  {
    hide ValidPath, Split;
    var rest := path[|p| + 1..];
    assert p[0] == path[0] == '/' by { ValidHead(p); ValidHead(path); }
    assert path[1..] == p[1..] + ['/'] + rest;
    SplitConcat(p[1..], '/', rest);
  }

  lemma ValidHead(path: string)
    requires ValidPath(path)
    ensures path != "" && path[0] == '/'
  {
  }

  lemma PrefixIsBelow(path: string, p: string)
    requires ValidPath(path) && ValidPath(p) && p != "/" && Components(p) <= Components(path)
    ensures path == p || BelowText(path, p)
  {
    hide ValidPath, Split, Join;
    var a, b := Components(p), Components(path)[|Components(p)|..];
    TextOfComponents(p);
    TextOfComponents(path);
    assert a + b == Components(path);
    if b == [] {
      assert a + b == a;
    } else {
      JoinConcat(a, b, "/");
      assert path == p + "/" + Join(b, "/");
    }
  }

  /** The text test for "at or below `p`" is the component-prefix order. */
  lemma PrefixTest(path: string, p: string)
    requires ValidPath(path) && ValidPath(p)
    ensures path == p || p == "/" || BelowText(path, p) <==> Components(p) <= Components(path)
  {
    hide Split, ValidPath, BelowText;
    if p != "/" {
      if BelowText(path, p) { BelowIsPrefix(path, p); }
      if Components(p) <= Components(path) { PrefixIsBelow(path, p); }
    }
  }

  /** Strictly below: the same without the path itself and without the root's special case. */
  lemma StrictPrefixTest(path: string, p: string)
    requires ValidPath(path) && ValidPath(p) && p != "/"
    ensures BelowText(path, p) <==> Components(p) < Components(path)
  {
    PrefixTest(path, p);
    if path == "/" || path == p {
    } else if Components(p) == Components(path) {
      TextOfComponents(p);
      TextOfComponents(path);
    }
  }

  // ------------------------------------------------------------ the backup store

  /** The backup stage's test: a leading `b/` with the slash appended to the text of `b`. */
  predicate Inside(a: string, b: string) { a == b || b + "/" <= a }

  predicate Overlaps(path: string, root: string) { Inside(root, path) || Inside(path, root) }

  /** It finds every overlap of the path and the store, except that `/` is only found to
      overlap itself (recipes may not back up `/`). */
  lemma OverlapExact(path: string, root: string)
    requires ValidPath(path) && ValidPath(root)
    ensures Overlaps(path, root) <==>
      && (Components(path) <= Components(root) || Components(root) <= Components(path))
      && (path == "/" <==> root == "/")
  {
    InsideExact(root, path);
    InsideExact(path, root);
  }

  lemma InsideExact(a: string, b: string)
    requires ValidPath(a) && ValidPath(b)
    ensures Inside(a, b) <==> Components(b) <= Components(a) && (b == "/" ==> a == "/")
  {
    PrefixTest(a, b);
    if b == "/" {
      if a != "/" && a[1] == '/' {
        EmptyFirst(a[1..]);
        assert false;
      }
    } else {
      assert b + "/" <= a <==> BelowText(a, b) by {
        if BelowText(a, b) { assert a[..|b| + 1] == b + "/"; }
      }
    }
  }

  lemma EmptyFirst(s: string)
    requires s != "" && s[0] == '/'
    ensures "" in Split(s, '/')
  {
  }

  function TrimSlashes(s: string): string {
    if s != "" && s[|s| - 1] == '/' then TrimSlashes(s[..|s| - 1]) else s
  }

  function StoreRoot(sudo: bool, home: string): string {
    if sudo then "/var/lib/sinter/backups" else TrimSlashes(home) + "/.sinter/backups"
  }

  function StoreChain(sudo: bool, home: string): seq<string> {
    [if sudo then "/var/lib/sinter" else TrimSlashes(home) + "/.sinter", StoreRoot(sudo, home)]
  }

  /** The chain is the root and the directory directly above it: creating it in order never
      skips a level, and one planned change at its base covers both. */
  lemma StoreChainNested(sudo: bool, home: string)
    requires ValidPath(home)
    ensures var chain := StoreChain(sudo, home);
      && ValidPath(chain[0]) && ValidPath(chain[1])
      && Components(chain[0]) == (if sudo then ["var", "lib", "sinter"] else Components(home) + [".sinter"])
      && Components(chain[1]) == Components(chain[0]) + ["backups"]
  {
    hide Components, ValidPath, StoreChain, TrimSlashes;
    StoreChainText(sudo, home);
    var (base, name) := StoreParent(sudo, home);
    if sudo {
      RootChild("var");
      assert "/" + "var" == "/var" && "/var" + "/" + "lib" == "/var/lib";
      Child("/var", "lib");
      assert ["var"] + ["lib"] + ["sinter"] == ["var", "lib", "sinter"];
    } else {
      HomeTrimmed(home);
      assert [] + [".sinter"] == [".sinter"];
    }
    if base == "" {
      RootChild(name);
      assert base + "/" + name == "/" + name;
    } else {
      Child(base, name);
    }
    Child(base + "/" + name, "backups");
  }

  function StoreParent(sudo: bool, home: string): (string, string) {
    if sudo then ("/var/lib", "sinter") else (TrimSlashes(home), ".sinter")
  }

  lemma StoreChainText(sudo: bool, home: string)
    ensures var (base, name) := StoreParent(sudo, home);
            StoreChain(sudo, home) == [base + "/" + name, base + "/" + name + "/" + "backups"]
  {
    var home' := TrimSlashes(home);
    assert "/var/lib" + "/" + "sinter" == "/var/lib/sinter";
    assert "/var/lib/sinter" + "/" + "backups" == "/var/lib/sinter/backups";
    assert home' + "/" + ".sinter" == home' + "/.sinter";
    assert home' + "/.sinter" + "/" + "backups" == home' + "/.sinter/backups";
  }

  lemma HomeTrimmed(home: string)
    requires ValidPath(home)
    ensures if TrimSlashes(home) == "" then Components(home) == [] else TrimSlashes(home) == home && home != "/"
  {
    if home == "/" { assert home[..0] == ""; }
  }

  predicate IsComponent(s: string) {
    s != "" && s != "." && s != ".." && '/' !in s && '\0' !in s
  }

  lemma RootChild(name: string)
    requires IsComponent(name)
    ensures ValidPath("/" + name) && Components("/" + name) == [name]
  {
    SplitHead(name, '/', "");
    assert ("/" + name)[1..] == name;
  }

  lemma Child(path: string, name: string)
    requires ValidPath(path) && path != "/" && IsComponent(name)
    ensures ValidPath(path + "/" + name) && Components(path + "/" + name) == Components(path) + [name]
  {
    var child := path + "/" + name;
    assert child[1..] == path[1..] + ['/'] + name;
    SplitConcat(path[1..], '/', name);
    SplitHead(name, '/', "");
  }
}
