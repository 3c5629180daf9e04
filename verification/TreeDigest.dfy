/** The text hashed by install_tree_summary, and why it identifies the tree.

    Text is modelled before its UTF-8 encoding, which is injective. */
module TreeDigest {
  import opened Bytes

  datatype Directory = Directory(path: string, mode: string)

  datatype File = File(path: string, size: nat, sha256: string, mode: string)

  // ---------- decimal numbers ----------

  function Digit(d: nat): char
    requires d < 10
  {
    "0123456789"[d]
  }

  /** str(n) */
  function Decimal(n: nat): (s: string)
    ensures |s| > 0
  {
    if n < 10 then [Digit(n)] else Decimal(n / 10) + [Digit(n % 10)]
  }

  lemma {:induction false} DecimalClean(n: nat)
    ensures '\t' !in Decimal(n) && '\n' !in Decimal(n)
  {
    if n >= 10 { DecimalClean(n / 10); }
  }

  lemma {:induction false} DecimalInjective(a: nat, b: nat)
    requires Decimal(a) == Decimal(b)
    ensures a == b
  {
    var s := Decimal(a);
    assert s[|s| - 1] == Digit(a % 10) == Digit(b % 10);
    if a >= 10 && b >= 10 {
      assert s[..|s| - 1] == Decimal(a / 10) == Decimal(b / 10);
      DecimalInjective(a / 10, b / 10);
    }
  }

  // ---------- the text ----------

  function DirectoryLine(d: Directory): string {
    "directory\t" + d.path + "\t" + d.mode
  }

  function FileLine(f: File): string {
    "file\t" + f.path + "\t" + Decimal(f.size) + "\t" + f.sha256 + "\t" + f.mode
  }

  function Lines(directories: seq<Directory>, files: seq<File>): seq<string> {
    seq(|directories| + |files|, i requires 0 <= i < |directories| + |files| =>
      if i < |directories| then DirectoryLine(directories[i]) else FileLine(files[i - |directories|]))
  }

  function Terminated(lines: seq<string>): string {
    if |lines| == 0 then "" else Terminated(lines[..|lines| - 1]) + lines[|lines| - 1] + "\n"
  }

  function Text(directories: seq<Directory>, files: seq<File>): string {
    Terminated(Lines(directories, files))
  }

  function Total(files: seq<File>): nat {
    if |files| == 0 then 0 else Total(files[..|files| - 1]) + files[|files| - 1].size
  }

  datatype Summary<D> = Summary(directories: nat, files: nat, bytes: nat, sha256: D)

  method InstallTreeSummary<D>(hash: string -> D, directories: seq<Directory>, files: seq<File>) returns (s: Summary<D>)
    ensures s == Summary(|directories|, |files|, Total(files), hash(Text(directories, files)))
  {
    hide DirectoryLine, FileLine, Lines, Terminated;
    var digest := "";
    NoLines();
    LinesAre(directories, files);
    ghost var lines := Lines(directories, files);
    ghost var n := |directories|;
    assert lines[..0] == [];
    for i := 0 to |directories|
      invariant digest == Terminated(lines[..i])
    {
      OneMoreLine(lines, i);
      digest := digest + DirectoryLine(directories[i]) + "\n";
    }
    var bytes := 0;
    for i := 0 to |files|
      invariant digest == Terminated(lines[..n + i])
      invariant bytes == Total(files[..i])
    {
      OneMoreLine(lines, n + i);
      assert lines[n + i] == FileLine(files[i]);
      assert files[..i + 1][..i] == files[..i];
      digest := digest + FileLine(files[i]) + "\n";
      bytes := bytes + files[i].size;
    }
    assert lines[..n + |files|] == lines && files[..|files|] == files;
    return Summary(|directories|, |files|, bytes, hash(digest));
  }

  lemma NoLines()
    ensures Terminated([]) == ""
  {
  }

  lemma LinesAre(directories: seq<Directory>, files: seq<File>)
    ensures var l := Lines(directories, files);
            && |l| == |directories| + |files|
            && (forall i :: 0 <= i < |directories| ==> l[i] == DirectoryLine(directories[i]))
            && (forall i :: 0 <= i < |files| ==> l[|directories| + i] == FileLine(files[i]))
  {
    hide DirectoryLine, FileLine;
  }

  lemma OneMoreLine(lines: seq<string>, i: nat)
    requires i < |lines|
    ensures Terminated(lines[..i + 1]) == Terminated(lines[..i]) + lines[i] + "\n"
  {
    assert lines[..i + 1][..i] == lines[..i];
  }

  // ---------- injectivity ----------

  /** A path without line feeds; the digest and modes are single tokens. */
  predicate Plain(d: Directory) {
    '\n' !in d.path && Token(d.mode)
  }

  predicate PlainFile(f: File) {
    '\n' !in f.path && Token(f.sha256) && Token(f.mode)
  }

  predicate Token(s: string) {
    '\t' !in s && '\n' !in s
  }

  /** The path check of payload_inventory. */
  predicate PathAccepted(path: string) {
    !exists c :: c in "\t\r\n" && c in path
  }

  lemma SeparatorShows(a: string, b: string, x: string, y: string, c: char)
    requires a + [c] + b == x + [c] + y && |a| < |x|
    ensures c in b
  {
    assert (x + [c] + y)[|x|] == c;
    assert (a + [c] + b)[|x|] == b[|x| - |a| - 1];
  }

  /** Two cuts of one text at a separator, the parts after it free of the separator. */
  lemma LastCut(a: string, b: string, x: string, y: string, c: char)
    requires a + [c] + b == x + [c] + y && c !in b && c !in y
    ensures a == x && b == y
  {
    if |a| < |x| { SeparatorShows(a, b, x, y, c); }
    if |x| < |a| { SeparatorShows(x, y, a, b, c); }
    var s := a + [c] + b;
    assert a == s[..|a|] && x == s[..|a|] && b == s[|a| + 1..] && y == s[|a| + 1..];
  }

  lemma {:induction false} TerminatedInjective(a: seq<string>, b: seq<string>)
    requires Terminated(a) == Terminated(b)
    requires (forall l :: l in a ==> '\n' !in l) && (forall l :: l in b ==> '\n' !in l)
    ensures a == b
  {
    if |a| > 0 && |b| > 0 {
      var x, y := a[|a| - 1], b[|b| - 1];
      var s, t := Terminated(a[..|a| - 1]), Terminated(b[..|b| - 1]);
      assert s + x == Terminated(a)[..|Terminated(a)| - 1] == t + y;
      LastLine(s, x, t, y, a[..|a| - 1], b[..|b| - 1]);
      TerminatedInjective(a[..|a| - 1], b[..|b| - 1]);
      assert a == a[..|a| - 1] + [x] && b == b[..|b| - 1] + [y];
    }
  }

  lemma LineFeedShows(s: string, x: string, t: string, y: string, b: seq<string>)
    requires s + x == t + y && t == Terminated(b) && |s| < |t|
    ensures '\n' in x
  {
    assert t[|t| - 1] == '\n';
    assert (t + y)[|t| - 1] == '\n';
    assert (s + x)[|t| - 1] == x[|t| - 1 - |s|];
  }

  lemma LastLine(s: string, x: string, t: string, y: string, a: seq<string>, b: seq<string>)
    requires s + x == t + y && '\n' !in x && '\n' !in y
    requires s == Terminated(a) && t == Terminated(b)
    ensures s == t && x == y
  {
    if |s| < |t| { LineFeedShows(s, x, t, y, b); }
    if |t| < |s| { LineFeedShows(t, y, s, x, a); }
    var w := s + x;
    assert s == w[..|s|] && x == w[|s|..];
    assert t == w[..|s|] && y == w[|s|..];
  }

  lemma DirectoryLineInjective(a: Directory, b: Directory)
    requires Plain(a) && Plain(b) && DirectoryLine(a) == DirectoryLine(b)
    ensures a == b
  {
    var k := "directory\t";
    assert DirectoryLine(a) == (k + a.path) + ['\t'] + a.mode;
    assert DirectoryLine(b) == (k + b.path) + ['\t'] + b.mode;
    LastCut(k + a.path, a.mode, k + b.path, b.mode, '\t');
    assert a.path == (k + a.path)[|k|..] && b.path == (k + b.path)[|k|..];
  }

  lemma FileLineInjective(a: File, b: File)
    requires PlainFile(a) && PlainFile(b) && FileLine(a) == FileLine(b)
    ensures a == b
  {
    var k := "file\t";
    DecimalClean(a.size);
    DecimalClean(b.size);
    var a1, b1 := k + a.path, k + b.path;
    var a2, b2 := a1 + ['\t'] + Decimal(a.size), b1 + ['\t'] + Decimal(b.size);
    var a3, b3 := a2 + ['\t'] + a.sha256, b2 + ['\t'] + b.sha256;
    assert FileLine(a) == a3 + ['\t'] + a.mode && FileLine(b) == b3 + ['\t'] + b.mode;
    LastCut(a3, a.mode, b3, b.mode, '\t');
    LastCut(a2, a.sha256, b2, b.sha256, '\t');
    LastCut(a1, Decimal(a.size), b1, Decimal(b.size), '\t');
    DecimalInjective(a.size, b.size);
    assert a.path == a1[|k|..] && b.path == b1[|k|..];
  }

  lemma LineClean(d: Directory, f: File)
    ensures Plain(d) ==> '\n' !in DirectoryLine(d)
    ensures PlainFile(f) ==> '\n' !in FileLine(f)
    ensures DirectoryLine(d)[0] == 'd' && FileLine(f)[0] == 'f'
  {
    DecimalClean(f.size);
  }

  predicate PlainTree(directories: seq<Directory>, files: seq<File>) {
    (forall d :: d in directories ==> Plain(d)) && (forall f :: f in files ==> PlainFile(f))
  }

  lemma LinesClean(directories: seq<Directory>, files: seq<File>)
    requires PlainTree(directories, files)
    ensures forall l :: l in Lines(directories, files) ==> '\n' !in l
  {
    hide DirectoryLine, FileLine;
    forall l | l in Lines(directories, files) ensures '\n' !in l {
      var i :| 0 <= i < |directories| + |files| && Lines(directories, files)[i] == l;
      if i < |directories| {
        LineClean(directories[i], File("", 0, "", ""));
      } else {
        LineClean(Directory("", ""), files[i - |directories|]);
      }
    }
  }

  lemma KindDiffers(d1: seq<Directory>, f1: seq<File>, d2: seq<Directory>, f2: seq<File>)
    requires |d2| < |d1| && |d1| + |f1| == |d2| + |f2|
    ensures Lines(d1, f1) != Lines(d2, f2)
  {
    hide DirectoryLine, FileLine;
    LineClean(d1[|d2|], f2[0]);
    assert Lines(d1, f1)[|d2|] == DirectoryLine(d1[|d2|]) && Lines(d2, f2)[|d2|] == FileLine(f2[0]);
  }

  /** The first line that is not a directory marks the boundary between the two lists. */
  lemma BoundaryFixed(d1: seq<Directory>, f1: seq<File>, d2: seq<Directory>, f2: seq<File>)
    requires Lines(d1, f1) == Lines(d2, f2)
    ensures |d1| == |d2|
  {
    hide DirectoryLine, FileLine;
    assert |Lines(d1, f1)| == |d1| + |f1| == |d2| + |f2|;
    if |d2| < |d1| {
      KindDiffers(d1, f1, d2, f2);
    } else if |d1| < |d2| {
      KindDiffers(d2, f2, d1, f1);
    }
  }

  lemma LinesInjective(d1: seq<Directory>, f1: seq<File>, d2: seq<Directory>, f2: seq<File>)
    requires Lines(d1, f1) == Lines(d2, f2) && PlainTree(d1, f1) && PlainTree(d2, f2)
    ensures d1 == d2 && f1 == f2
  {
    hide DirectoryLine, FileLine;
    BoundaryFixed(d1, f1, d2, f2);
    var l := Lines(d1, f1);
    assert |l| == |d1| + |f1| == |d2| + |f2|;
    forall i | 0 <= i < |d1| ensures d1[i] == d2[i] {
      assert l[i] == DirectoryLine(d1[i]) == DirectoryLine(d2[i]);
      DirectoryLineInjective(d1[i], d2[i]);
    }
    forall i | 0 <= i < |f1| ensures f1[i] == f2[i] {
      assert l[|d1| + i] == FileLine(f1[i]) == FileLine(f2[i]);
      FileLineInjective(f1[i], f2[i]);
    }
  }

  /** Equal texts come from equal ordered lists, whatever else the paths hold. */
  lemma TextInjective(d1: seq<Directory>, f1: seq<File>, d2: seq<Directory>, f2: seq<File>)
    requires PlainTree(d1, f1) && PlainTree(d2, f2) && Text(d1, f1) == Text(d2, f2)
    ensures d1 == d2 && f1 == f2
  {
    LinesClean(d1, f1);
    LinesClean(d2, f2);
    TerminatedInjective(Lines(d1, f1), Lines(d2, f2));
    LinesInjective(d1, f1, d2, f2);
  }

  /** Accepted paths carry no tab, carriage return or line feed, so their lines are plain. */
  lemma AcceptedIsPlain(d: Directory, f: File)
    ensures PathAccepted(d.path) <==> '\t' !in d.path && '\r' !in d.path && '\n' !in d.path
    ensures PathAccepted(d.path) && Token(d.mode) ==> Plain(d)
    ensures PathAccepted(f.path) && Token(f.sha256) && Token(f.mode) ==> PlainFile(f)
  {
    var marks := "\t\r\n";
    assert marks[0] == '\t' && marks[1] == '\r' && marks[2] == '\n';
  }

  /** Without the path check two different trees share one text. */
  lemma LineFeedBreaksIt()
    ensures Text([Directory("a\t7\ndirectory\tb", "7")], []) == Text([Directory("a", "7"), Directory("b", "7")], [])
  {
    var one, two := [Directory("a\t7\ndirectory\tb", "7")], [Directory("a", "7"), Directory("b", "7")];
    var l := Lines(one, []);
    var m := Lines(two, []);
    assert l[..0] == [] && Terminated(l) == "" + DirectoryLine(one[0]) + "\n";
    assert m[..1] == [DirectoryLine(two[0])] && m[..1][..0] == [];
    assert Terminated(m[..1]) == "" + DirectoryLine(two[0]) + "\n";
    assert Terminated(m) == Terminated(m[..1]) + DirectoryLine(two[1]) + "\n";
    assert "" + DirectoryLine(one[0]) + "\n" == "" + DirectoryLine(two[0]) + "\n" + DirectoryLine(two[1]) + "\n";
  }

  // ---------- the text itself ----------

  /** The number a string of digits denotes. */
  function Denoted(s: string): int {
    if |s| == 0 then 0 else 10 * Denoted(s[..|s| - 1]) + (s[|s| - 1] as int - '0' as int)
  }

  /** Sizes are printed in decimal, without leading zeros. */
  lemma {:induction false} DecimalDenotes(n: nat)
    ensures Denoted(Decimal(n)) == n
    ensures forall i :: 0 <= i < |Decimal(n)| ==> '0' <= Decimal(n)[i] <= '9'
    ensures n > 0 ==> Decimal(n)[0] != '0'
  {
    DigitIs(n % 10);
    if n >= 10 {
      DecimalDenotes(n / 10);
      assert Decimal(n)[..|Decimal(n)| - 1] == Decimal(n / 10);
    } else {
      DigitIs(n);
      assert Decimal(n)[..0] == "";
    }
  }

  lemma DigitIs(d: nat)
    requires d < 10
    ensures '0' <= Digit(d) <= '9' && Digit(d) as int - '0' as int == d
  {
  }

  /** A small tree's text, character by character. */
  lemma SampleText()
    ensures Text([Directory(".", "0755")], [File("bin/x", 105, "9f", "0644")])
         == "directory\t.\t0755\nfile\tbin/x\t105\t9f\t0644\n"
  {
    hide DirectoryLine, FileLine, Terminated, Lines;
    var d, f := Directory(".", "0755"), File("bin/x", 105, "9f", "0644");
    var l := Lines([d], [f]);
    LinesAre([d], [f]);
    NoLines();
    OneMoreLine(l, 0);
    OneMoreLine(l, 1);
    assert l[..0] == [] && l[..2] == l;
    SampleLines();
    var one, two := "directory\t.\t0755", "file\tbin/x\t105\t9f\t0644";
    assert l[0] == one;
    assert [f][0] == f && l[1 + 0] == two;
    assert Terminated(l[..0 + 1]) == "" + one + "\n";
    assert Terminated(l) == Terminated(l[..1]) + two + "\n";
  }

  lemma SampleLines()
    ensures DirectoryLine(Directory(".", "0755")) == "directory\t.\t0755"
    ensures FileLine(File("bin/x", 105, "9f", "0644")) == "file\tbin/x\t105\t9f\t0644"
  {
    NumberText();
    hide Decimal;
  }

  lemma NumberText()
    ensures Decimal(105) == "105"
  {
    assert Decimal(1) == "1" && Decimal(10) == "10";
  }

  /** Every file's size counts once in the total. */
  lemma {:induction false} TotalSums(files: seq<File>, more: seq<File>)
    ensures Total([]) == 0 && Total(files + more) == Total(files) + Total(more)
    ensures |files| == 1 ==> Total(files) == files[0].size
  {
    if more == [] {
      assert files + more == files;
    } else {
      TotalSums(files, more[..|more| - 1]);
      assert (files + more)[..|files + more| - 1] == files + more[..|more| - 1];
    }
    if |files| == 1 { assert files[..0] == []; }
  }
}
