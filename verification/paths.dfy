/**
 Path handling of htmlpack on a POSIX system: `os.path.splitext` (with
 `/` as the only separator), `os.path.join` of a directory and a name, and
 the extension filter that `process_folder` applies to every file the
 directory walk yields.
 */
module Paths {
  import opened Comments

  /** `s.rfind(c)`: the index of the last `c` in `s`, or -1. */
  function RFind(s: Text, c: char): (r: int)
    ensures -1 <= r < |s|
    ensures 0 <= r ==> s[r] == c
    ensures forall k :: r < k < |s| ==> s[k] != c
    decreases |s|
  {
    if |s| == 0 then -1
    else if s[|s| - 1] == c then |s| - 1
    else RFind(s[..|s| - 1], c)
  }

  /** Every character of `s` is a dot. */
  predicate AllDots(s: Text) {
    forall k :: 0 <= k < |s| ==> s[k] == '.'
  }

  /** The declarative reading of an extension: `p[k..]` is the extension of
      `p` when `p[k]` is a dot, the rest of `p` holds neither a dot nor a
      separator, and the last path component holds a character other than
      a dot before position `k` (leading dots of a name do not start an
      extension). */
  ghost predicate ExtensionAt(p: Text, k: int) {
    exists m :: ExtensionFrom(p, k, m)
  }

  /** `ExtensionAt(p, k)` with `p[m]` as the non-dot that precedes the
      extension in the last component. */
  predicate ExtensionFrom(p: Text, k: int, m: int) {
    && 0 <= m < k < |p| && p[k] == '.' && p[m] != '.'
    && (forall i :: k < i < |p| ==> p[i] != '.' && p[i] != '/')
    && (forall i :: m <= i < k ==> p[i] != '/')
  }

  /** `os.path.splitext(p)` on POSIX: the last dot after the last
      separator starts the extension, unless only dots precede it in the
      last component. */
  function SplitExt(p: Text): (r: (Text, Text))
    ensures r.0 + r.1 == p
  {
    var sep := RFind(p, '/');
    var dot := RFind(p, '.');
    if dot > sep && !AllDots(p[sep + 1..dot]) then (p[..dot], p[dot..]) else (p, [])
  }

  /** `splitext` agrees with the declarative reading of an extension: a
      non-empty extension starts where `ExtensionAt` says, and an empty one
      means that no position starts an extension. */
  lemma SplitExtSpec(p: Text)
    ensures SplitExt(p).1 != [] ==> ExtensionAt(p, |SplitExt(p).0|)
    ensures SplitExt(p).1 == [] ==> forall k :: 0 <= k < |p| ==> !ExtensionAt(p, k)
  {
    var sep := RFind(p, '/');
    var dot := RFind(p, '.');
    ExtensionIsSplit(p);
    if dot > sep && !AllDots(p[sep + 1..dot]) {
      ExtensionFound(p, sep, dot);
    }
  }

  /** Where the last dot follows the last separator and a non-dot precedes
      it in the last component, that dot starts the extension. */
  lemma ExtensionFound(p: Text, sep: int, dot: int)
    requires sep == RFind(p, '/') && dot == RFind(p, '.')
    requires dot > sep && !AllDots(p[sep + 1..dot])
    ensures ExtensionAt(p, dot)
  {
    var j :| 0 <= j < dot - sep - 1 && p[sep + 1..dot][j] != '.';
    var m := sep + 1 + j;
    assert p[m] == p[sep + 1..dot][j];
    assert ExtensionFrom(p, dot, m);
  }

  /** Conversely, a position that starts an extension is the last dot, it
      follows the last separator, and a non-dot precedes it in the last
      component. */
  lemma ExtensionIsSplit(p: Text)
    ensures forall k :: ExtensionAt(p, k) ==>
      var sep, dot := RFind(p, '/'), RFind(p, '.');
      k == dot && dot > sep && !AllDots(p[sep + 1..dot])
  {
    forall k | ExtensionAt(p, k)
      ensures var sep, dot := RFind(p, '/'), RFind(p, '.');
        k == dot && dot > sep && !AllDots(p[sep + 1..dot])
    {
      var sep, dot := RFind(p, '/'), RFind(p, '.');
      var m := ExtensionWitness(p, k);
      assert dot == k;
      assert sep < m;
      assert p[sep + 1..dot][m - sep - 1] == p[m];
    }
  }

  /** A character of the last component, before the extension's dot, that
      is not a dot. */
  lemma ExtensionWitness(p: Text, k: int) returns (m: int)
    requires ExtensionAt(p, k)
    ensures ExtensionFrom(p, k, m)
  {
    m :| ExtensionFrom(p, k, m);
  }

  /** `os.path.join(a, b)` for two components on POSIX: an absolute `b`
      replaces `a`; otherwise `b` follows `a`, with a separator put between
      them unless `a` is empty or already ends in one. */
  function Join(a: Text, b: Text): (r: Text)
    ensures |b| > 0 && b[0] == '/' ==> r == b
    ensures !(|b| > 0 && b[0] == '/') ==> |r| == |a| + |b| + (if |a| > 0 && a[|a| - 1] != '/' then 1 else 0)
    ensures !(|b| > 0 && b[0] == '/') ==> forall i :: 0 <= i < |a| ==> r[i] == a[i]
    ensures !(|b| > 0 && b[0] == '/') ==> forall i :: 0 <= i < |b| ==> r[|r| - |b| + i] == b[i]
    ensures !(|b| > 0 && b[0] == '/') && |a| > 0 ==> r[|r| - |b| - 1] == '/'
  {
    if |b| > 0 && b[0] == '/' then b
    else if |a| == 0 || a[|a| - 1] == '/' then a + b
    else a + "/" + b
  }

  /** The extension of a file name depends only on its last component:
      joining a directory in front of a name without separators leaves the
      name's extension as it was. A directory called `x.html` therefore
      does not make the files inside it match. */
  lemma ExtensionOfJoin(a: Text, b: Text)
    requires forall i :: 0 <= i < |b| ==> b[i] != '/'
    ensures SplitExt(Join(a, b)).1 == SplitExt(b).1
  {
    var p := Join(a, b);
    ExtensionOfSuffix(p, b, |p| - |b|);
  }

  /** The extension of a path that ends, after a separator, in the name `b`
      is the extension of `b`. */
  lemma ExtensionOfSuffix(p: Text, b: Text, off: int)
    requires 0 <= off && off + |b| == |p|
    requires forall i :: 0 <= i < |b| ==> p[off + i] == b[i]
    requires off > 0 ==> p[off - 1] == '/'
    ensures SplitExt(p).1 == SplitExt(b).1
  {
    SplitExtSpec(p);
    SplitExtSpec(b);
    SameSplit(p, b, off, SplitExt(p), SplitExt(b));
  }

  /** Two splits that agree with the declarative reading of an extension,
      one of a path and one of the name it ends in, have the same
      extension. */
  lemma SameSplit(p: Text, b: Text, off: int, sp: (Text, Text), sb: (Text, Text))
    requires 0 <= off && off + |b| == |p|
    requires forall i :: 0 <= i < |b| ==> p[off + i] == b[i]
    requires off > 0 ==> p[off - 1] == '/'
    requires sp.0 + sp.1 == p && sb.0 + sb.1 == b
    requires sp.1 != [] ==> ExtensionAt(p, |sp.0|)
    requires sp.1 == [] ==> forall k :: 0 <= k < |p| ==> !ExtensionAt(p, k)
    requires sb.1 != [] ==> ExtensionAt(b, |sb.0|)
    requires sb.1 == [] ==> forall k :: 0 <= k < |b| ==> !ExtensionAt(b, k)
    ensures sp.1 == sb.1
  {
    if sp.1 != [] {
      var kp := |sp.0|;
      ShiftBack(p, b, off, kp);
      var kb := |sb.0|;
      ShiftInto(p, b, off, kb);
      ExtensionUnique(p, kp, off + kb);
      assert sp.1 == p[kp..] && sb.1 == b[kb..];
      SameTail(p, b, off, kp, sp.1, sb.1);
    } else {
      ShiftAllInto(p, b, off);
    }
  }

  /** The tails of `p` and of its suffix `b` from matching positions are
      equal. */
  lemma SameTail(p: Text, b: Text, off: int, k: int, e: Text, f: Text)
    requires 0 <= off && off + |b| == |p| && off <= k <= |p|
    requires forall i :: 0 <= i < |b| ==> p[off + i] == b[i]
    requires e == p[k..] && f == b[k - off..]
    ensures e == f
  {
    assert |e| == |f|;
    forall i | 0 <= i < |e| ensures e[i] == f[i] {
      assert e[i] == p[k + i] && f[i] == b[k - off + i];
    }
  }

  /** At most one position starts an extension: it is the last dot. */
  lemma ExtensionUnique(p: Text, k1: int, k2: int)
    requires ExtensionAt(p, k1) && ExtensionAt(p, k2)
    ensures k1 == k2
  {
    var m1 := ExtensionWitness(p, k1);
    var m2 := ExtensionWitness(p, k2);
  }

  /** Every extension position of the name is one of a path that ends in
      the name. */
  lemma ShiftAllInto(p: Text, b: Text, off: int)
    requires 0 <= off && off + |b| == |p|
    requires forall i :: 0 <= i < |b| ==> p[off + i] == b[i]
    ensures forall k :: 0 <= k < |b| && ExtensionAt(b, k) ==> ExtensionAt(p, off + k)
  {
    forall k | 0 <= k < |b| && ExtensionAt(b, k) ensures ExtensionAt(p, off + k) {
      ShiftInto(p, b, off, k);
    }
  }

  /** An extension of the name is one of any path that ends in the name. */
  lemma ShiftInto(p: Text, b: Text, off: int, k: int)
    requires 0 <= off && off + |b| == |p|
    requires forall i :: 0 <= i < |b| ==> p[off + i] == b[i]
    requires ExtensionAt(b, k)
    ensures ExtensionAt(p, off + k)
  {
    var m :| ExtensionFrom(b, k, m);
    assert ExtensionFrom(p, off + k, off + m) by {
      forall i | off + k < i < |p| ensures p[i] != '.' && p[i] != '/' {
        assert p[off + (i - off)] == b[i - off];
      }
      forall i | off + m <= i < off + k ensures p[i] != '/' {
        assert p[off + (i - off)] == b[i - off];
      }
    }
  }

  /** An extension of a path that ends in a separator followed by the name
      is one of the name. */
  lemma ShiftBack(p: Text, b: Text, off: int, j: int)
    requires 0 <= off && off + |b| == |p|
    requires forall i :: 0 <= i < |b| ==> p[off + i] == b[i]
    requires off > 0 ==> p[off - 1] == '/'
    requires ExtensionAt(p, j)
    ensures j >= off && ExtensionAt(b, j - off)
  {
    var m :| ExtensionFrom(p, j, m);
    assert m >= off;
    assert ExtensionFrom(b, j - off, m - off) by {
      forall i | j - off < i < |b| ensures b[i] != '.' && b[i] != '/' {
        assert p[off + i] == b[i];
      }
      forall i | m - off <= i < j - off ensures b[i] != '/' {
        assert p[off + i] == b[i];
      }
    }
  }

  /** The extensions `process_folder` accepts, `.html` and `.hbs`,
      compared exactly (so case-sensitively). */
  predicate IsValidExtension(ext: Text) {
    ext == ".html" || ext == ".hbs"
  }

  /** `process_folder` processes the file at `path`. */
  predicate Selected(path: Text) {
    IsValidExtension(SplitExt(path).1)
  }

  /** One file yielded by the directory walk: the directory it lies in and
      its name within that directory. */
  datatype WalkEntry = WalkEntry(root: Text, name: Text) {
    /** The path `os.path.join(root, name)` that the walk's file goes by. */
    function FilePath(): Text {
      Join(root, name)
    }
  }

  /** The paths the directory walk yields, in walk order. */
  function WalkPaths(walk: seq<WalkEntry>): (r: seq<Text>)
    ensures |r| == |walk|
    ensures forall i :: 0 <= i < |walk| ==> r[i] == walk[i].FilePath()
  {
    seq(|walk|, i requires 0 <= i < |walk| => walk[i].FilePath())
  }

  /** The paths among `ps` whose extension is valid, in their order. */
  function SelectPaths(ps: seq<Text>): (r: seq<Text>)
    ensures |r| <= |ps|
    ensures forall i :: 0 <= i < |r| ==> Selected(r[i])
    decreases |ps|
  {
    if |ps| == 0 then []
    else if Selected(ps[0]) then [ps[0]] + SelectPaths(ps[1..])
    else SelectPaths(ps[1..])
  }

  /** `process_folder`: the paths of the walked files whose extension is
      valid, in walk order. */
  function FolderFiles(walk: seq<WalkEntry>): (r: seq<Text>)
    ensures |r| <= |walk|
    ensures forall i :: 0 <= i < |r| ==> Selected(r[i])
  {
    SelectPaths(WalkPaths(walk))
  }

  /** The filter keeps exactly the selected paths. */
  lemma {:induction false} SelectPathsMembers(ps: seq<Text>, x: Text)
    ensures x in SelectPaths(ps) <==> Selected(x) && x in ps
    decreases |ps|
  {
    if |ps| > 0 {
      SelectPathsMembers(ps[1..], x);
      assert x in ps <==> x == ps[0] || x in ps[1..];
    }
  }

  /** A path is among the folder's files exactly when some walked file goes
      by it and its extension is valid. */
  lemma FolderFilesMembers(walk: seq<WalkEntry>, x: Text)
    ensures x in FolderFiles(walk) <==> Selected(x) && exists i :: 0 <= i < |walk| && walk[i].FilePath() == x
  {
    var ps := WalkPaths(walk);
    SelectPathsMembers(ps, x);
    if x in ps {
      var i :| 0 <= i < |ps| && ps[i] == x;
      assert walk[i].FilePath() == x;
    }
  }

  /** No path occurs twice in `ps`. */
  predicate Distinct(ps: seq<Text>) {
    forall i, j :: 0 <= i < j < |ps| ==> ps[i] != ps[j]
  }

  /** Filtering never repeats a path: distinct paths stay distinct. */
  lemma {:induction false} SelectPathsDistinct(ps: seq<Text>)
    requires Distinct(ps)
    ensures Distinct(SelectPaths(ps))
    decreases |ps|
  {
    if |ps| > 0 {
      var tail := ps[1..];
      SelectPathsDistinct(tail);
      if Selected(ps[0]) {
        SelectPathsMembers(tail, ps[0]);
        assert ps[0] !in tail by {
          forall j | 0 <= j < |tail| ensures tail[j] != ps[0] {
            assert tail[j] == ps[j + 1];
          }
        }
        ConsDistinct(ps[0], SelectPaths(tail));
      } else {
        assert SelectPaths(ps) == SelectPaths(tail);
      }
    }
  }

  /** Putting a new path in front of distinct paths keeps them distinct. */
  lemma ConsDistinct(x: Text, t: seq<Text>)
    requires x !in t && Distinct(t)
    ensures Distinct([x] + t)
  {
    var r := [x] + t;
    forall i, j | 0 <= i < j < |r| ensures r[i] != r[j] {
      assert r[j] == t[j - 1];
      if i > 0 {
        assert r[i] == t[i - 1];
      }
    }
  }

  /** A walk that yields every path once gives every selected path once. */
  lemma FolderFilesDistinct(walk: seq<WalkEntry>)
    requires Distinct(WalkPaths(walk))
    ensures Distinct(FolderFiles(walk))
  {
    SelectPathsDistinct(WalkPaths(walk));
  }

  /** The filter keeps order: the selected paths of two stretches are those
      of the first stretch followed by those of the second. */
  lemma {:induction false} SelectPathsAppend(p1: seq<Text>, p2: seq<Text>)
    ensures SelectPaths(p1 + p2) == SelectPaths(p1) + SelectPaths(p2)
    decreases |p1|
  {
    if |p1| > 0 {
      assert (p1 + p2)[0] == p1[0];
      assert (p1 + p2)[1..] == p1[1..] + p2;
      SelectPathsAppend(p1[1..], p2);
    } else {
      assert p1 + p2 == p2;
    }
  }

  /** The folder's files keep walk order: the files of two stretches of
      the walk are those of the first stretch followed by those of the
      second. */
  lemma FolderFilesAppend(w1: seq<WalkEntry>, w2: seq<WalkEntry>)
    ensures FolderFiles(w1 + w2) == FolderFiles(w1) + FolderFiles(w2)
  {
    assert WalkPaths(w1 + w2) == WalkPaths(w1) + WalkPaths(w2);
    SelectPathsAppend(WalkPaths(w1), WalkPaths(w2));
  }

  /** Whether a walked file is processed is decided by its name alone: its
      extension must be `.html` or `.hbs`, whatever directory it is in. */
  lemma SelectedByName(e: WalkEntry)
    requires forall i :: 0 <= i < |e.name| ==> e.name[i] != '/'
    ensures Selected(e.FilePath()) <==> IsValidExtension(SplitExt(e.name).1)
  {
    ExtensionOfJoin(e.root, e.name);
  }

  /** `RFind` finds the `c` at `k` when no `c` follows it. */
  lemma RFindAt(s: Text, c: char, k: int)
    requires 0 <= k < |s| && s[k] == c
    requires forall i :: k < i < |s| ==> s[i] != c
    ensures RFind(s, c) == k
  {
  }

  /** `site/a.html` is processed. */
  lemma HtmlSelected(p: Text)
    requires p == "site/a.html"
    ensures SplitExt(p) == ("site/a", ".html") && Selected(p)
  {
    RFindAt(p, '/', 4);
    RFindAt(p, '.', 6);
    assert p[5..6][0] != '.';
    assert p[..6] == "site/a" && p[6..] == ".html";
  }

  /** `site/b.hbs` is processed. */
  lemma HbsSelected(p: Text)
    requires p == "site/b.hbs"
    ensures SplitExt(p) == ("site/b", ".hbs") && Selected(p)
  {
    RFindAt(p, '/', 4);
    RFindAt(p, '.', 6);
    assert p[5..6][0] != '.';
    assert p[..6] == "site/b" && p[6..] == ".hbs";
  }

  /** `site/c.txt` is not processed. */
  lemma TxtNotSelected(p: Text)
    requires p == "site/c.txt"
    ensures SplitExt(p) == ("site/c", ".txt") && !Selected(p)
  {
    RFindAt(p, '/', 4);
    RFindAt(p, '.', 6);
    assert p[5..6][0] != '.';
    assert p[..6] == "site/c" && p[6..] == ".txt";
  }

  /** `site/page.HTML` is not processed: extensions are compared
      case-sensitively. */
  lemma UpperCaseNotSelected(p: Text)
    requires p == "site/page.HTML"
    ensures SplitExt(p) == ("site/page", ".HTML") && !Selected(p)
  {
    RFindAt(p, '/', 4);
    RFindAt(p, '.', 9);
    assert p[5..9][0] != '.';
    assert p[..9] == "site/page" && p[9..] == ".HTML";
  }

  /** `site/.html` is not processed: the leading dot of a name does not
      start an extension, so its extension is empty. */
  lemma DotFileNotSelected(p: Text)
    requires p == "site/.html"
    ensures SplitExt(p) == (p, []) && !Selected(p)
  {
    RFindAt(p, '/', 4);
    RFindAt(p, '.', 5);
  }

  /** A dot in a directory name is not an extension of the file in it. */
  lemma DottedDirectoryNoExtension(p: Text)
    requires p == "site.v2/readme"
    ensures SplitExt(p) == (p, [])
  {
    RFindAt(p, '/', 7);
    RFindAt(p, '.', 4);
  }
}
