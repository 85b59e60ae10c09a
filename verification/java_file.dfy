/**
 * The parts of `java.io.File` on a Unix file system that the static-resource branch relies on:
 * the constructor's path normalisation, `new File(parent, child)` and `getName()`.
 */
module JavaFile {
  import opened JavaText

  /** No two separators are adjacent. */
  predicate NoDoubleSlash(p: string)
  {
    forall i :: 0 <= i < |p| - 1 ==> !(p[i] == '/' && p[i + 1] == '/')
  }

  /** The form `new File(pathname)` keeps its path in: no `//`, no trailing `/` except for the root. */
  predicate IsNormal(p: string)
  {
    NoDoubleSlash(p) && (|p| > 1 ==> p[|p| - 1] != '/')
  }

  /** The names a path is made of: the non-empty texts between separators, in order. */
  function Names(p: string): seq<string>
  {
    NonEmpty(SplitAll(p, '/'))
  }

  /**
   * Every run of separators becomes one separator. The text before the first separator is
   * kept, and so are the names after it, in order.
   */
  function CollapseSlashes(p: string): (r: string)
    ensures |r| <= |p|
    ensures NoDoubleSlash(r)
    ensures |p| > 0 ==> |r| > 0 && r[0] == p[0]
    ensures SplitAll(r, '/')[0] == SplitAll(p, '/')[0]
    ensures NonEmpty(SplitAll(r, '/')[1..]) == NonEmpty(SplitAll(p, '/')[1..])
    ensures Names(r) == Names(p)
    decreases |p|
  {
    if |p| <= 1 then p
    else if p[0] == '/' && p[1] == '/' then CollapseSlashes(p[1..])
    else [p[0]] + CollapseSlashes(p[1..])
  }

  /** The path string `new File(pathname)` stores. */
  function Normalize(p: string): (r: string)
    ensures IsNormal(r)
    ensures |r| <= |p|
    ensures |p| > 0 ==> |r| > 0 && r[0] == p[0]
    ensures SplitAll(r, '/')[0] == SplitAll(p, '/')[0]
    ensures Names(r) == Names(p)
  {
    var c := CollapseSlashes(p);
    if |c| > 1 && c[|c| - 1] == '/' then
      var d := c[..|c| - 1];
      assert c == d + ['/'];
      DropTrailingSlash(d);
      d
    else c
  }

  /** A trailing separator only adds an empty last piece. */
  lemma DropTrailingSlash(d: string)
    ensures SplitAll(d + ['/'], '/')[0] == SplitAll(d, '/')[0]
    ensures Names(d + ['/']) == Names(d)
  {
    SplitTrailingSlash(d);
    NonEmptyTrailingEmpty(SplitAll(d, '/'));
  }

  lemma SplitTrailingSlash(d: string)
    ensures SplitAll(d + ['/'], '/') == SplitAll(d, '/') + [[]]
  {
    assert d + ['/'] == d + ['/'] + [];
    SplitAllConcat(d, [], '/');
  }

  /** An empty last piece changes neither the first piece nor the names. */
  lemma NonEmptyTrailingEmpty(pieces: seq<string>)
    requires |pieces| >= 1
    ensures (pieces + [[]])[0] == pieces[0]
    ensures NonEmpty(pieces + [[]]) == NonEmpty(pieces)
  {
    var empty: seq<string> := [[]];
    NonEmptyConcat(pieces, empty);
    assert NonEmpty(empty) == [] by {
      assert empty[1..] == [];
    }
  }

  /** `new File(parent, "index.html")`, for a parent holding a normalised, non-empty path. */
  function IndexFile(dir: string): (r: string)
    requires |dir| > 0
    ensures dir <= r
    ensures Names(r) == Names(dir) + ["index.html"]
  {
    if dir == "/" then
      RootNames();
      NamesAfterSlash("", "index.html");
      dir + "index.html"
    else
      NamesAfterSlash(dir, "index.html");
      assert dir + "/" + "index.html" == dir + "/index.html";
      dir + "/index.html"
  }

  /** `getName()`: the text after the last separator (the whole path when there is none). */
  function GetName(p: string): (r: string)
    ensures '/' !in r
    ensures |r| <= |p| && p[|p| - |r|..] == r
    ensures |r| < |p| ==> p[|p| - |r| - 1] == '/'
  {
    p[LastIndexOf(p, '/') + 1..]
  }

  /** The root has no names. */
  lemma RootNames()
    ensures Names("/") == []
  {
    var empty: seq<string> := [[]];
    assert "/" == [] + ['/'] + [];
    SplitAllConcat([], [], '/');
    NonEmptyConcat(empty, empty);
  }

  /** A name appended after a separator becomes the last name. */
  lemma NamesAfterSlash(parent: string, name: string)
    requires '/' !in name && name != []
    ensures Names(parent + "/" + name) == Names(parent) + [name]
  {
    assert parent + "/" + name == parent + ['/'] + name;
    SplitAllConcat(parent, name, '/');
    SplitAllNoDelimiter(name, '/');
    NonEmptyConcat(SplitAll(parent, '/'), [name]);
    assert [name][1..] == [];
  }

  // ---------------------------------------------------------------------------
  // Properties
  // ---------------------------------------------------------------------------

  /** The file found inside a directory is called `index.html`, whatever the directory. */
  lemma IndexFileName(dir: string)
    requires |dir| > 0
    ensures GetName(IndexFile(dir)) == "index.html"
  {
    var parent := if dir == "/" then "" else dir;
    assert IndexFile(dir) == parent + "/" + "index.html";
    NameAfterSlash(parent, "index.html");
  }

  /** The name of `parent/name` is `name` when `name` holds no separator. */
  lemma NameAfterSlash(parent: string, name: string)
    requires '/' !in name
    ensures GetName(parent + "/" + name) == name
  {
    LastIndexOfBefore(parent, '/', name);
  }

  /** A single name is a normal path. */
  lemma NameIsNormal(a: string)
    requires '/' !in a
    ensures IsNormal(a)
  {
    if |a| > 1 {
      assert a[|a| - 1] in a;
    }
  }

  /** A normal path not ending in a separator, a separator and a name form a normal path. */
  lemma SlashNameNormal(b: string, a: string)
    requires |b| > 0 && b[|b| - 1] != '/' && IsNormal(b)
    requires |a| > 0 && '/' !in a
    ensures IsNormal(b + "/" + a)
  {
    var p := b + "/" + a;
    forall i | 0 <= i < |p| - 1
      ensures !(p[i] == '/' && p[i + 1] == '/')
    {
      if i < |b| - 1 {
        assert p[i] == b[i] && p[i + 1] == b[i + 1];
      } else if i == |b| - 1 {
        assert p[i] == b[|b| - 1];
      } else if i > |b| {
        assert p[i] == a[i - |b| - 1] && a[i - |b| - 1] in a;
      }
    }
    assert p[|p| - 1] == a[|a| - 1] && a[|a| - 1] in a;
  }

  /** Collapsing changes nothing in a path that has no `//`. */
  lemma {:induction false} CollapseFixes(p: string)
    requires NoDoubleSlash(p)
    ensures CollapseSlashes(p) == p
    decreases |p|
  {
    if |p| > 1 {
      assert NoDoubleSlash(p[1..]) by {
        forall i | 0 <= i < |p[1..]| - 1
          ensures !(p[1..][i] == '/' && p[1..][i + 1] == '/')
        {
          assert p[1..][i] == p[i + 1] && p[1..][i + 1] == p[i + 2];
        }
      }
      CollapseFixes(p[1..]);
    }
  }

  /** A normal path is its own normalisation, so normalising twice is normalising once. */
  lemma NormalizeFixes(p: string)
    ensures IsNormal(p) ==> Normalize(p) == p
    ensures Normalize(Normalize(p)) == Normalize(p)
  {
    if IsNormal(p) {
      CollapseFixes(p);
    }
    CollapseFixes(Normalize(p));
  }

  /** What collapsing does to a path with one more separator appended. */
  function AppendSlashCollapsed(c: string): string
    requires |c| > 0
  {
    if c[|c| - 1] == '/' then c else c + "/"
  }

  /** Collapsing a path with one more separator appended adds a separator only when needed. */
  lemma {:induction false} CollapseAppendSlash(p: string)
    requires |p| > 0
    ensures CollapseSlashes(p + "/") == AppendSlashCollapsed(CollapseSlashes(p))
    decreases |p|
  {
    var q := p + "/";
    if |p| == 1 {
      assert q[1..] == "/";
    } else {
      assert q[1..] == p[1..] + "/";
      CollapseAppendSlash(p[1..]);
      if !(p[0] == '/' && p[1] == '/') {
        KeepFirstAppendSlash(p[0], CollapseSlashes(p[1..]));
      }
    }
  }

  /** Prepending a character commutes with the appended separator. */
  lemma KeepFirstAppendSlash(x: char, c: string)
    requires |c| > 0
    ensures [x] + AppendSlashCollapsed(c) == AppendSlashCollapsed([x] + c)
  {
    assert ([x] + c)[|c|] == c[|c| - 1];
  }

  /** A trailing separator does not change the path `new File` keeps, unless the path is only separators. */
  lemma TrailingSlashIgnored(p: string)
    requires |p| > 0 && p[0] != '/'
    ensures Normalize(p + "/") == Normalize(p)
  {
    CollapseAppendSlash(p);
    var c := CollapseSlashes(p);
    if c[|c| - 1] != '/' {
      var d := c + "/";
      assert d[..|d| - 1] == c;
    }
  }
}
