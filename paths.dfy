/**
  java.io.File(root, path) on a Unix file system. java.io.File keeps the
  path's non-empty names (repeated and trailing separators vanish, a leading
  one only says "under the root"), and getName() is the last of them; when
  the file is opened, the operating system also skips "." names.
 */
module Paths {

  import opened Text

  /** The length of the leading name, up to the first separator. */
  function NameLength(p: string): (n: nat)
    ensures n <= |p|
    ensures forall i :: 0 <= i < n ==> p[i] != '/'
    ensures n < |p| ==> p[n] == '/'
  {
    if p == [] || p[0] == '/' then 0 else 1 + NameLength(p[1..])
  }

  /** A separator ends the leading name, whatever follows it. */
  lemma {:induction false} NameLengthAppend(a: string, s: string)
    requires s != [] && s[0] == '/'
    ensures NameLength(a + s) == NameLength(a)
    decreases |a|
  {
    if a == [] {
      assert a + s == s;
    } else if a[0] != '/' {
      assert (a + s)[0] == a[0] && (a + s)[1..] == a[1..] + s;
      NameLengthAppend(a[1..], s);
    } else {
      assert (a + s)[0] == '/';
    }
  }

  /** A single name: non-empty and free of separators. */
  predicate IsName(name: string) {
    name != [] && '/' !in name
  }

  /** The names java.io.File sees in a path: its non-empty pieces between
      separators, in order. */
  function Names(p: string): (r: seq<string>)
    ensures forall i :: 0 <= i < |r| ==> IsName(r[i])
    decreases |p|
  {
    if p == [] then []
    else if p[0] == '/' then Names(p[1..])
    else
      var n := NameLength(p);
      [p[..n]] + Names(p[n..])
  }

  /** The names written one after the other, with nothing between them. */
  function Concat(names: seq<string>): string {
    if names == [] then [] else names[0] + Concat(names[1..])
  }

  /** The characters of a path other than separators, in order. */
  function WithoutSeparators(p: string): string {
    if p == [] then [] else (if p[0] == '/' then [] else [p[0]]) + WithoutSeparators(p[1..])
  }

  /** A leading stretch free of separators is kept whole. */
  lemma {:induction false} WithoutSeparatorsPrefix(p: string, n: nat)
    requires n <= |p| && forall i :: 0 <= i < n ==> p[i] != '/'
    ensures WithoutSeparators(p) == p[..n] + WithoutSeparators(p[n..])
    decreases n
  {
    if n > 0 {
      WithoutSeparatorsPrefix(p[1..], n - 1);
      assert p[1..][..n - 1] == p[1..n] && p[1..][n - 1..] == p[n..];
      assert p[..n] == [p[0]] + p[1..n];
    }
  }

  /** The names hold every character of the path but the separators, in order. */
  lemma {:induction false} NamesCover(p: string)
    ensures Concat(Names(p)) == WithoutSeparators(p)
    decreases |p|
  {
    if p != [] {
      if p[0] == '/' {
        NamesCover(p[1..]);
      } else {
        var n := NameLength(p);
        NamesCover(p[n..]);
        WithoutSeparatorsPrefix(p, n);
        assert Concat(Names(p)) == p[..n] + Concat(Names(p[n..]));
      }
    }
  }

  /** A single name is its own only name. */
  lemma NamesOfName(name: string)
    requires IsName(name)
    ensures Names(name) == [name]
  {
    var n := NameLength(name);
    assert n == |name|;
    assert name[..n] == name && name[n..] == [];
  }

  /** A separator splits the names: those before it, then those after it. */
  lemma {:induction false} NamesSplit(a: string, b: string)
    ensures Names(a + "/" + b) == Names(a) + Names(b)
    decreases |a|
  {
    var p := a + "/" + b;
    if a == [] {
      assert p[0] == '/' && p[1..] == b;
    } else if a[0] == '/' {
      assert p[0] == '/' && p[1..] == a[1..] + "/" + b;
      NamesSplit(a[1..], b);
    } else {
      var n := NameLength(a);
      assert p == a + ("/" + b);
      NameLengthAppend(a, "/" + b);
      assert p[0] == a[0] && p[..n] == a[..n];
      assert p[n..] == a[n..] + "/" + b;
      assert Names(p) == [a[..n]] + Names(a[n..] + "/" + b);
      NamesSplit(a[n..], b);
      assert Names(a) == [a[..n]] + Names(a[n..]);
    }
  }

  /** Names joined by single separators read back as exactly those names. */
  lemma {:induction false} NamesJoin(names: seq<string>)
    requires forall i :: 0 <= i < |names| ==> IsName(names[i])
    ensures Names(JoinWith(names, '/')) == names
  {
    if |names| == 1 {
      NamesOfName(names[0]);
    } else if |names| > 1 {
      var rest := names[1..];
      assert JoinWith(names, '/') == names[0] + "/" + JoinWith(rest, '/');
      NamesSplit(names[0], JoinWith(rest, '/'));
      NamesOfName(names[0]);
      NamesJoin(rest);
    }
  }

  /** Each name is a piece of the path, so a name holding ".." means the path holds "..". */
  lemma {:induction false} NamesWithin(p: string)
    ensures forall i :: 0 <= i < |Names(p)| && HasDotDot(Names(p)[i]) ==> HasDotDot(p)
    decreases |p|
  {
    if p != [] {
      if p[0] == '/' {
        NamesWithin(p[1..]);
        forall i | 0 <= i < |Names(p)| && HasDotDot(Names(p)[i])
          ensures HasDotDot(p)
        {
          assert p[1..|p|] == p[1..];
          HasDotDotWithin(p, 1, |p|);
        }
      } else {
        var n := NameLength(p);
        NamesWithin(p[n..]);
        forall i | 0 <= i < |Names(p)| && HasDotDot(Names(p)[i])
          ensures HasDotDot(p)
        {
          if i == 0 {
            HasDotDotWithin(p, 0, n);
          } else {
            assert Names(p)[i] == Names(p[n..])[i - 1];
            assert p[n..|p|] == p[n..];
            HasDotDotWithin(p, n, |p|);
          }
        }
      }
    }
  }

  /** The names without the "." ones, which name the directory they are in. */
  function DropDots(names: seq<string>): (r: seq<string>)
    ensures |r| <= |names|
    ensures forall i :: 0 <= i < |r| ==> r[i] in names && r[i] != "."
  {
    if names == [] then []
    else (if names[0] == "." then [] else [names[0]]) + DropDots(names[1..])
  }

  lemma {:induction false} DropDotsAppend(x: seq<string>, y: seq<string>)
    ensures DropDots(x + y) == DropDots(x) + DropDots(y)
  {
    if x == [] {
      assert x + y == y;
    } else {
      assert (x + y)[0] == x[0] && (x + y)[1..] == x[1..] + y;
      DropDotsAppend(x[1..], y);
    }
  }

  /** The names the operating system walks when the file is opened. */
  function Segments(p: string): (r: seq<string>)
    ensures forall i :: 0 <= i < |r| ==> IsName(r[i]) && r[i] != "."
  {
    DropDots(Names(p))
  }

  /** A separator splits the walked names too. */
  lemma SegmentsSplit(a: string, b: string)
    ensures Segments(a + "/" + b) == Segments(a) + Segments(b)
  {
    NamesSplit(a, b);
    DropDotsAppend(Names(a), Names(b));
  }

  /** A part of a path that names nothing the operating system walks can be
      cut out together with one separator. */
  lemma SkipEmptyPart(a: string, d: string, b: string)
    requires Segments(d) == []
    ensures Segments(a + "/" + (d + "/" + b)) == Segments(a + "/" + b)
  {
    SegmentsSplit(a, d + "/" + b);
    SegmentsSplit(d, b);
    SegmentsSplit(a, b);
  }

  /** "." alone names nothing to walk. */
  lemma DotWalksNothing()
    ensures Segments(".") == []
  {
    NamesOfName(".");
  }

  /** A "." name between two parts of a path changes nothing about the file it reaches. */
  lemma CurrentDirIgnored(a: string, b: string)
    ensures Segments(a + "/./" + b) == Segments(a + "/" + b)
  {
    DotWalksNothing();
    SkipEmptyPart(a, ".", b);
    assert a + "/./" + b == a + "/" + ("." + "/" + b);
  }

  /** A path without ".." never names a parent directory, so it cannot leave the web root. */
  lemma NoParentSegment(p: string)
    requires !HasDotDot(p)
    ensures ".." !in Segments(p)
    ensures forall i :: 0 <= i < |Segments(p)| ==> !HasDotDot(Segments(p)[i])
  {
    NamesWithin(p);
    assert HasDotDot("..") by {
      assert ".."[0] == '.' && ".."[1] == '.';
    }
  }

  /** The key of the file under the web root: its walked names joined by single separators. */
  function FileKey(p: string): string {
    JoinWith(Segments(p), '/')
  }

  /** The key is normalised: resolving it again gives the same names. */
  lemma FileKeyNormal(p: string)
    ensures Segments(FileKey(p)) == Segments(p)
  {
    var s := Segments(p);
    NamesJoin(s);
    assert DropDots(s) == s by {
      DropDotsNone(s);
    }
  }

  lemma {:induction false} DropDotsNone(names: seq<string>)
    requires forall i :: 0 <= i < |names| ==> names[i] != "."
    ensures DropDots(names) == names
  {
    if names != [] {
      DropDotsNone(names[1..]);
    }
  }

  /** File.getName(): the last name of the path, or "" when it has none. */
  function FileName(p: string): string {
    var names := Names(p);
    if names == [] then "" else names[|names| - 1]
  }

  /** The path ends in a name that can be a regular file: not the root and not ".". */
  predicate NamesFile(p: string) {
    FileName(p) != "" && FileName(p) != "."
  }

  /** For such a path, getName() is the last name the operating system walks. */
  lemma FileNameWalked(p: string)
    requires NamesFile(p)
    ensures Segments(p) != [] && Segments(p)[|Segments(p)| - 1] == FileName(p)
  {
    var names := Names(p);
    var k := |names| - 1;
    assert names == names[..k] + [names[k]];
    DropDotsAppend(names[..k], [names[k]]);
    assert DropDots([names[k]]) == [names[k]];
  }

  /** The regular files under the web root, by normalised relative path. */
  type WebRoot = map<string, seq<byte>>

  /** Whether new FileInputStream(file) opens a regular file under the web root. */
  predicate Exists(root: WebRoot, path: string) {
    NamesFile(path) && FileKey(path) in root
  }

  /** The bytes of an existing file. */
  function Contents(root: WebRoot, path: string): seq<byte>
    requires Exists(root, path)
  {
    root[FileKey(path)]
  }

  /** A plain file name, and the same name after a leading separator, both resolve to that name. */
  lemma PlainName(name: string)
    requires IsName(name) && name != "."
    ensures Segments(name) == Segments("/" + name) == [name]
    ensures FileKey(name) == FileKey("/" + name) == name
    ensures FileName(name) == FileName("/" + name) == name
  {
    NamesOfName(name);
    assert ("/" + name)[0] == '/' && ("/" + name)[1..] == name;
    assert DropDots([name]) == [name];
  }
}
