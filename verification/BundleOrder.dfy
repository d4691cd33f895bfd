/** The order of zip entries: the exporter sorts paths by component (export.rs), the verifier sorts joined names (verifier.rs). */
module BundleOrder {
  import opened Text
  import opened Hashing
  import opened Sorting

  /** A relative path as its components. */
  type Path = seq<string>

  predicate NoSlash(s: string) {
    '/' !in s
  }

  predicate ValidPath(p: Path) {
    p != [] && forall i :: 0 <= i < |p| ==> p[i] != "" && NoSlash(p[i])
  }

  /** The entry name: the components joined by slashes. */
  function Name(p: Path): string {
    if p == [] then ""
    else if |p| == 1 then p[0]
    else p[0] + ("/" + Name(p[1..]))
  }

  /** The order of paths: component by component, each by bytes. */
  predicate PathLess(p: Path, q: Path) {
    if q == [] then false
    else if p == [] then true
    else Less(p[0], q[0]) || (p[0] == q[0] && PathLess(p[1..], q[1..]))
  }

  predicate PathLessEq(p: Path, q: Path) {
    p == q || PathLess(p, q)
  }

  /**
   * Below some common directory, q's next name extends the name of a directory that holds p with a character
   * below the slash.
   */
  predicate Clash(p: Path, q: Path) {
    p != [] && q != []
    && ((p[0] == q[0] && Clash(p[1..], q[1..]))
        || (|p| > 1 && p[0] < q[0] && q[0][|p[0]|] < '/'))
  }

  // ---- Facts about the two orders ----

  lemma {:induction false} LessAfterCommonPrefix(a: string, x: string, y: string)
    ensures Less(a + x, a + y) <==> Less(x, y)
  {
    if a == "" {
      assert a + x == x && a + y == y;
    } else {
      LessAfterCommonPrefix(a[1..], x, y);
      assert (a + x)[1..] == a[1..] + x && (a + y)[1..] == a[1..] + y;
    }
  }

  lemma {:induction false} LessAtFirstDifference(a: string, b: string, x: string, y: string)
    requires !(a <= b) && !(b <= a)
    ensures Less(a + x, b + y) <==> Less(a, b)
  {
    assert (a + x)[1..] == a[1..] + x && (b + y)[1..] == b[1..] + y;
    if a[0] == b[0] {
      assert a == [a[0]] + a[1..] && b == [b[0]] + b[1..];
      LessAtFirstDifference(a[1..], b[1..], x, y);
    }
  }

  lemma LessAsymmetric(a: string, b: string)
    requires Less(a, b)
    ensures !Less(b, a)
  {
    if Less(b, a) {
      LessTransitive(a, b, a);
      LessIrreflexive(a);
    }
  }

  lemma {:induction false} PathLessTotal(p: Path, q: Path)
    ensures p == q || PathLess(p, q) || PathLess(q, p)
    ensures !(PathLess(p, q) && PathLess(q, p)) && !PathLess(p, p)
  {
    if p != [] && q != [] {
      LessTotal(p[0], q[0]);
      LessIrreflexive(p[0]);
      if Less(p[0], q[0]) {
        LessAsymmetric(p[0], q[0]);
      }
      if Less(q[0], p[0]) {
        LessAsymmetric(q[0], p[0]);
      }
      PathLessTotal(p[1..], q[1..]);
      PathLessTotal(p[1..], p[1..]);
      assert p == [p[0]] + p[1..] && q == [q[0]] + q[1..];
    } else if p != [] {
      LessIrreflexive(p[0]);
      PathLessTotal(p[1..], p[1..]);
    }
  }

  lemma {:induction false} PathLessTransitive(p: Path, q: Path, r: Path)
    requires PathLess(p, q) && PathLess(q, r)
    ensures PathLess(p, r)
  {
    if p != [] {
      if Less(p[0], q[0]) && Less(q[0], r[0]) {
        LessTransitive(p[0], q[0], r[0]);
      }
      if p[0] == q[0] == r[0] && PathLess(p[1..], q[1..]) && PathLess(q[1..], r[1..]) {
        PathLessTransitive(p[1..], q[1..], r[1..]);
      }
      LessIrreflexive(p[0]);
    }
  }

  lemma PathOrderIsTotal()
    ensures TotalPreorder(PathLessEq)
  {
    forall p, q
      ensures PathLessEq(p, q) || PathLessEq(q, p)
    {
      PathLessTotal(p, q);
    }
    forall p, q, r | PathLessEq(p, q) && PathLessEq(q, r)
      ensures PathLessEq(p, r)
    {
      if p != q && q != r {
        PathLessTransitive(p, q, r);
      }
    }
  }

  lemma NameOrderIsTotal()
    ensures TotalPreorder(LessEq)
  {
    forall a, b
      ensures LessEq(a, b) || LessEq(b, a)
    {
      LessTotal(a, b);
    }
    forall a, b, c | LessEq(a, b) && LessEq(b, c)
      ensures LessEq(a, c)
    {
      if a != b && b != c {
        LessTransitive(a, b, c);
      }
    }
  }

  // ---- Two files ----

  /** The case that decides: the first name of p is a proper prefix of the first name of q. */
  lemma PrefixedHead(p: Path, q: Path)
    requires ValidPath(p) && ValidPath(q) && p[0] < q[0]
    ensures Less(p[0], q[0]) && !Clash(q, p)
    ensures Less(Name(p), Name(q)) <==> !Clash(p, q)
  {
    var a, t := p[0], q[0][|p[0]|..];
    assert q[0] == a + t;
    LessAfterCommonPrefix(a, "", t);
    assert a + "" == a;
    var x := if |p| == 1 then "" else "/" + Name(p[1..]);
    var y := if |q| == 1 then t else t + ("/" + Name(q[1..]));
    assert Name(p) == a + x;
    assert Name(q) == a + y;
    LessAfterCommonPrefix(a, x, y);
    assert t[0] == q[0][|a|] && t[0] in q[0];
    assert y[0] == t[0] && t[0] != '/';
  }

  lemma SplitHeads(p: Path, q: Path)
    requires ValidPath(p) && ValidPath(q) && !(p[0] <= q[0]) && !(q[0] <= p[0])
    ensures !Clash(p, q) && !Clash(q, p)
    ensures Less(Name(p), Name(q)) <==> Less(p[0], q[0])
  {
    var x := if |p| == 1 then "" else "/" + Name(p[1..]);
    var y := if |q| == 1 then "" else "/" + Name(q[1..]);
    assert p[0] + x == Name(p) && q[0] + y == Name(q);
    LessAtFirstDifference(p[0], q[0], x, y);
  }

  /** Two files are in the same order both ways exactly when they do not clash. */
  lemma {:induction false} OrdersAgreeExactly(p: Path, q: Path)
    requires ValidPath(p) && ValidPath(q) && !(p <= q) && !(q <= p)
    ensures (PathLess(p, q) <==> Less(Name(p), Name(q))) <==> !Clash(p, q) && !Clash(q, p)
    ensures Name(p) != Name(q)
  {
    if p[0] == q[0] {
      assert p == [p[0]] + p[1..] && q == [q[0]] + q[1..];
      assert |p| > 1 && |q| > 1;
      OrdersAgreeExactly(p[1..], q[1..]);
      LessIrreflexive(p[0]);
      LessAfterCommonPrefix(p[0], "/" + Name(p[1..]), "/" + Name(q[1..]));
      LessAfterCommonPrefix("/", Name(p[1..]), Name(q[1..]));
      assert Name(p)[|p[0]| + 1..] == Name(p[1..]) && Name(q)[|q[0]| + 1..] == Name(q[1..]);
    } else if p[0] < q[0] {
      PrefixedHead(p, q);
      HeadsDiffer(p, q);
    } else if q[0] < p[0] {
      PrefixedHead(q, p);
      HeadsDiffer(q, p);
      LessTotal(Name(p), Name(q));
      if Less(Name(p), Name(q)) {
        LessAsymmetric(Name(p), Name(q));
      }
      LessAsymmetric(q[0], p[0]);
    } else {
      SplitHeads(p, q);
      LessTotal(p[0], q[0]);
      LessIrreflexive(Name(p));
      SplitHeads(q, p);
    }
  }

  lemma HeadsDiffer(p: Path, q: Path)
    requires ValidPath(p) && ValidPath(q) && p[0] < q[0]
    ensures Name(p) != Name(q)
  {
    var n := |p[0]|;
    assert Name(q)[n] == q[0][n] && q[0][n] in q[0];
    assert |p| > 1 ==> Name(p)[n] == '/';
  }

  // ---- A whole archive ----

  function Names(files: seq<Path>): seq<string> {
    seq(|files|, i requires 0 <= i < |files| => Name(files[i]))
  }

  /** The files of one directory tree: valid paths, none of them another one or a directory of it. */
  ghost predicate FileTree(files: seq<Path>) {
    (forall i :: 0 <= i < |files| ==> ValidPath(files[i]))
    && forall i, j :: 0 <= i < |files| && 0 <= j < |files| && i != j ==> !(files[i] <= files[j])
  }

  ghost predicate SomeClash(files: seq<Path>) {
    exists p, q :: p in files && q in files && Clash(p, q)
  }

  /** The entries of the exported zip, in order. */
  function ZipEntries(files: seq<Path>): seq<string> {
    Names(StableSort(PathLessEq, files))
  }

  /** The verifier's entry-order check. */
  method EntriesAreSorted(names: seq<string>) returns (ok: bool)
    ensures ok <==> SortedBy(LessEq, names)
  {
    NameOrderIsTotal();
    SortedExactlyWhenFixed(LessEq, names);
    var sorted := StableSort(LessEq, names);
    return names == sorted;
  }

  lemma {:induction false} SortedTreeIsATree(files: seq<Path>, sorted: seq<Path>)
    requires FileTree(files) && multiset(sorted) == multiset(files)
    ensures FileTree(sorted)
  {
    forall i | 0 <= i < |sorted|
      ensures ValidPath(sorted[i])
    {
      assert sorted[i] in multiset(sorted);
    }
    forall i, j | 0 <= i < |sorted| && 0 <= j < |sorted| && i != j
      ensures !(sorted[i] <= sorted[j])
    {
      assert sorted[i] in multiset(files) && sorted[j] in multiset(files);
      if sorted[i] == sorted[j] {
        DistinctCountsOne(files, sorted[i]);
        TwiceCountsTwo(sorted, i, j);
      }
    }
  }

  lemma {:induction false} DistinctCountsOne(files: seq<Path>, p: Path)
    requires FileTree(files)
    ensures multiset(files)[p] <= 1
  {
    if files != [] {
      var front, last := files[..|files| - 1], files[|files| - 1];
      DistinctCountsOne(front, p);
      assert files == front + [last];
      if p in front {
        var k :| 0 <= k < |front| && front[k] == p;
        assert files[k] == p;
      }
    }
  }

  lemma TwiceCountsTwo(s: seq<Path>, i: nat, j: nat)
    requires i < |s| && j < |s| && i != j && s[i] == s[j]
    ensures multiset(s)[s[i]] >= 2
  {
    var a, b := if i < j then i else j, if i < j then j else i;
    assert s == s[..a] + [s[a]] + s[a + 1..b] + [s[b]] + s[b + 1..];
  }

  lemma SortedPairAgrees(s: seq<Path>, i: nat, j: nat)
    requires FileTree(s) && SortedBy(PathLessEq, s) && i < j < |s|
    ensures LessEq(Names(s)[i], Names(s)[j]) <==> !Clash(s[i], s[j]) && !Clash(s[j], s[i])
  {
    hide Clash, PathLess, Less, ValidPath, Name;
    assert PathLessEq(s[i], s[j]);
    OrdersAgreeExactly(s[i], s[j]);
  }

  lemma SortedNamesExactly(s: seq<Path>)
    requires FileTree(s) && SortedBy(PathLessEq, s)
    ensures SortedBy(LessEq, Names(s)) <==> !SomeClash(s)
  {
    hide Clash, PathLess, PathLessEq, Less, LessEq, ValidPath, Name, FileTree;
    forall i, j | 0 <= i < j < |s|
      ensures LessEq(Names(s)[i], Names(s)[j]) <==> !Clash(s[i], s[j]) && !Clash(s[j], s[i])
    {
      SortedPairAgrees(s, i, j);
    }
    if SortedBy(LessEq, Names(s)) {
      forall i, j | 0 <= i < |s| && 0 <= j < |s|
        ensures !Clash(s[i], s[j])
      {
        if i == j {
          NoSelfClash(s[i]);
        } else {
          var a, b := if i < j then i else j, if i < j then j else i;
          assert LessEq(Names(s)[a], Names(s)[b]);
        }
      }
    }
  }

  /** The verifier accepts the entry order of an exported zip exactly when no file clashes with a directory's name. */
  lemma ZipOrderAcceptedExactly(files: seq<Path>)
    requires FileTree(files)
    ensures SortedBy(LessEq, ZipEntries(files)) <==> !SomeClash(files)
  {
    hide Clash, PathLessEq, LessEq, FileTree, Names, StableSort, SortedBy;
    PathOrderIsTotal();
    SortSorts(PathLessEq, files);
    SortKeepsMembers(PathLessEq, files);
    var s := StableSort(PathLessEq, files);
    SortedTreeIsATree(files, s);
    SortedNamesExactly(s);
  }

  lemma {:induction false} NoSelfClash(p: Path)
    ensures !Clash(p, p)
  {
    if p != [] {
      NoSelfClash(p[1..]);
    }
  }

  /** A vector file beside a directory whose name it extends with a dot: the exported zip is refused. */
  lemma DottedSiblingIsRefused() returns (files: seq<Path>)
    ensures files == [["index", "vectors", "a", "f"], ["index", "vectors", "a.b"]]
    ensures FileTree(files) && !SortedBy(LessEq, ZipEntries(files))
  {
    var p, q := ["index", "vectors", "a", "f"], ["index", "vectors", "a.b"];
    files := [p, q];
    assert p[2] != q[2] by {
      assert |p[2]| == 1 && |q[2]| == 3;
    }
    assert p[1..][1..] == ["a", "f"] && q[1..][1..] == ["a.b"];
    assert "a" < "a.b" && "a.b"[1] == '.';
    assert Clash(["a", "f"], ["a.b"]);
    assert Clash(p[1..], q[1..]);
    assert Clash(p, q);
    assert p in files && q in files;
    ZipOrderAcceptedExactly(files);
  }

  /** A path of an export without vectors: the database, the manifest, or an object under its two-character prefix. */
  ghost predicate PlainExportPath(p: Path) {
    p == ["db", "knowledge.sqlite"] || p == ["manifest.json"]
    || exists hash :: ValidDigest(hash) && p == ["store", "objects", hash[7..9], hash]
  }

  /** So an export without vectors always passes, whatever its objects. */
  lemma PlainExportsAreAccepted(files: seq<Path>)
    requires FileTree(files) && forall p :: p in files ==> PlainExportPath(p)
    ensures SortedBy(LessEq, ZipEntries(files))
  {
    forall p, q | p in files && q in files
      ensures !Clash(p, q)
    {
      PlainPathsDoNotClash(p, q);
    }
    ZipOrderAcceptedExactly(files);
  }

  lemma PlainPathsDoNotClash(p: Path, q: Path)
    requires PlainExportPath(p) && PlainExportPath(q)
    ensures !Clash(p, q)
  {
    hide IsLowerHex;
    assert "db"[0] == 'd' && "manifest.json"[0] == 'm' && "store"[0] == 's';
    if |p| == 4 && |q| == 4 {
      assert !Clash(p[3..], q[3..]);
      assert !Clash(p[2..], q[2..]) by {
        assert |p[2..][0]| == |q[2..][0]|;
        assert p[2..][1..] == p[3..] && q[2..][1..] == q[3..];
      }
      assert !Clash(p[1..], q[1..]) by {
        assert p[1..][1..] == p[2..] && q[1..][1..] == q[2..];
      }
    } else if p == q {
      NoSelfClash(p);
    }
  }
}
