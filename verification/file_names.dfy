/**
 * The string rules behind frame selection and output naming: Python's str.split,
 * os.path.split and os.path.join on POSIX paths, '%s' % n for a natural number,
 * and the names under which processed and uploaded pictures are saved.
 */
module FileNames {

  // ---------------------------------------------------------------------------
  // str.split(sep) and the field after the last separator
  // ---------------------------------------------------------------------------

  /** Python's s.split(sep) for a one-character separator: the fields between separators, possibly empty. */
  function Split(s: string, sep: char): (parts: seq<string>)
    ensures |parts| >= 1
    decreases |s|
  {
    if s == [] then [[]]
    else
      var init := Split(s[..|s| - 1], sep);
      if s[|s| - 1] == sep then init + [[]]
      else init[..|init| - 1] + [init[|init| - 1] + [s[|s| - 1]]]
  }

  /** sep.join(parts): the inverse of Split. */
  function Join(parts: seq<string>, sep: char): string
    requires |parts| >= 1
    decreases |parts|
  {
    if |parts| == 1 then parts[0]
    else Join(parts[..|parts| - 1], sep) + [sep] + parts[|parts| - 1]
  }

  /** Splitting a string that does not end with the separator extends the last field. */
  lemma SplitStep(s: string, sep: char, c: char)
    requires c != sep
    ensures var init := Split(s, sep);
      Split(s + [c], sep) == init[..|init| - 1] + [init[|init| - 1] + [c]]
  {
    assert (s + [c])[..|s|] == s;
  }

  /** Joining one more field appends the separator and that field. */
  lemma JoinSnoc(parts: seq<string>, x: string, sep: char)
    requires |parts| >= 1
    ensures Join(parts + [x], sep) == Join(parts, sep) + [sep] + x
  {
    assert (parts + [x])[..|parts|] == parts;
  }

  /** Splitting loses nothing: joining the fields gives the string back. */
  lemma {:induction false} SplitJoin(s: string, sep: char)
    ensures Join(Split(s, sep), sep) == s
    decreases |s|
  {
    if s != [] {
      var s', c := s[..|s| - 1], s[|s| - 1];
      assert s == s' + [c];
      var init := Split(s', sep);
      SplitJoin(s', sep);
      var n := |init|;
      if c == sep {
        JoinSnoc(init, [], sep);
      } else {
        SplitStep(s', sep, c);
        var last := init[n - 1];
        if n > 1 {
          var front := init[..n - 1];
          assert init == front + [last];
          JoinSnoc(front, last, sep);
          JoinSnoc(front, last + [c], sep);
        }
      }
    }
  }

  /** No field of a split holds the separator. */
  lemma {:induction false} SplitFieldsClean(s: string, sep: char)
    ensures forall f | f in Split(s, sep) :: sep !in f
    decreases |s|
  {
    if s != [] {
      var s', c := s[..|s| - 1], s[|s| - 1];
      assert s == s' + [c];
      var init := Split(s', sep);
      SplitFieldsClean(s', sep);
      var n := |init|;
      if c != sep {
        SplitStep(s', sep, c);
        var parts := init[..n - 1] + [init[n - 1] + [c]];
        forall f | f in parts ensures sep !in f {
          if f !in init[..n - 1] {
            assert f == init[n - 1] + [c];
          }
        }
      }
    }
  }

  /** s.split(sep)[-1]: the text after the last separator, or all of s when it has none. */
  function LastField(s: string, sep: char): string
  {
    var parts := Split(s, sep);
    parts[|parts| - 1]
  }

  /** LastField is the longest suffix of s free of the separator. */
  lemma {:induction false} LastFieldIsLongestSuffix(s: string, sep: char)
    ensures var f := LastField(s, sep);
      && |f| <= |s| && s[|s| - |f|..] == f && sep !in f
      && (|f| < |s| ==> s[|s| - |f| - 1] == sep)
    decreases |s|
  {
    if s != [] {
      var s', c := s[..|s| - 1], s[|s| - 1];
      LastFieldIsLongestSuffix(s', sep);
      var f' := LastField(s', sep);
      if c != sep {
        assert LastField(s, sep) == f' + [c];
        assert s[|s| - |f'| - 1..] == s'[|s'| - |f'|..] + [c];
      }
    }
  }

  /** Two strings free of the separator that are suffixes of s, each preceded by the separator or filling s, are equal. */
  lemma LongestSuffixUnique(s: string, sep: char, f: string, g: string)
    requires |f| <= |s| && s[|s| - |f|..] == f && sep !in f && (|f| < |s| ==> s[|s| - |f| - 1] == sep)
    requires |g| <= |s| && s[|s| - |g|..] == g && sep !in g && (|g| < |s| ==> s[|s| - |g| - 1] == sep)
    ensures f == g
  {
  }

  /** The frame filter of the movie page: the text after the last '.' is 'jpg'. */
  predicate IsJpg(file: string)
  {
    LastField(file, '.') == "jpg"
  }

  predicate EndsWith(s: string, suffix: string)
  {
    |suffix| <= |s| && s[|s| - |suffix|..] == suffix
  }

  /** A file counts as a jpg frame exactly when it is 'jpg' itself or ends in '.jpg'. */
  lemma IsJpgIff(file: string)
    ensures IsJpg(file) <==> file == "jpg" || EndsWith(file, ".jpg")
  {
    LastFieldIsLongestSuffix(file, '.');
    var f := LastField(file, '.');
    if f == "jpg" && |f| < |file| {
      assert file[|file| - 4..] == [file[|file| - 4]] + file[|file| - 3..];
    }
    if file == "jpg" {
      LongestSuffixUnique(file, '.', f, "jpg");
    } else if EndsWith(file, ".jpg") {
      assert file[|file| - 3..] == "jpg";
      LongestSuffixUnique(file, '.', f, "jpg");
    }
  }

  // ---------------------------------------------------------------------------
  // os.path.split(x)[-1] and os.path.join(a, b) on POSIX paths
  // ---------------------------------------------------------------------------

  /** s.rfind(c): the index of the last occurrence of c, or -1. */
  function RFind(s: string, c: char): (r: int)
    ensures -1 <= r < |s|
    ensures r >= 0 ==> s[r] == c
    ensures forall k | r < k < |s| :: s[k] != c
    decreases |s|
  {
    if s == [] then -1
    else if s[|s| - 1] == c then |s| - 1
    else RFind(s[..|s| - 1], c)
  }

  /** os.path.split(x)[-1]: the text after the last '/'. */
  function BaseName(x: string): string
  {
    x[RFind(x, '/') + 1..]
  }

  /** The base name is the same text as the last field of x.split('/'). */
  lemma BaseNameIsLastField(x: string)
    ensures BaseName(x) == LastField(x, '/')
  {
    LastFieldIsLongestSuffix(x, '/');
    var b := BaseName(x);
    assert '/' !in b by {
      forall k | 0 <= k < |b| ensures b[k] != '/' {
        assert b[k] == x[RFind(x, '/') + 1 + k];
      }
    }
    LongestSuffixUnique(x, '/', b, LastField(x, '/'));
  }

  /** The base name of a path whose final component contains no '/' is that component. */
  lemma BaseNameOfJoin(dir: string, name: string)
    requires '/' !in name
    ensures BaseName(dir + "/" + name) == name
  {
    var x := dir + "/" + name;
    assert x[|dir|] == '/';
    assert forall k | |dir| < k < |x| :: x[k] == name[k - |dir| - 1];
    assert RFind(x, '/') == |dir|;
  }

  /** os.path.join(a, b) for a relative b: a separator is inserted unless a is empty or ends with '/'. */
  function PathJoin(a: string, b: string): string
  {
    if |b| > 0 && b[0] == '/' then b
    else if a == [] || a[|a| - 1] == '/' then a + b
    else a + "/" + b
  }

  /** Joining the same directory with two relative names gives the same path only for the same name. */
  lemma PathJoinInjective(a: string, b: string, b': string)
    requires |b| > 0 && b[0] != '/' && |b'| > 0 && b'[0] != '/'
    requires PathJoin(a, b) == PathJoin(a, b')
    ensures b == b'
  {
    var p := PathJoin(a, b);
    if a == [] || a[|a| - 1] == '/' {
      assert b == p[|a|..] == b';
    } else {
      assert b == p[|a| + 1..] == b';
    }
  }

  // ---------------------------------------------------------------------------
  // '%s' % n for a natural number
  // ---------------------------------------------------------------------------

  function DecimalDigit(d: int): char
    requires 0 <= d < 10
  {
    ('0' as int + d) as char
  }

  predicate IsDecimalDigit(c: char)
  {
    '0' <= c <= '9'
  }

  /** str(n): the decimal digits of n, without leading zeros. */
  function Decimal(n: nat): (s: string)
    ensures |s| >= 1 && forall k | 0 <= k < |s| :: IsDecimalDigit(s[k])
    ensures n < 10 ==> |s| == 1
    decreases n
  {
    if n < 10 then [DecimalDigit(n)] else Decimal(n / 10) + [DecimalDigit(n % 10)]
  }

  function DecimalValue(c: char): (d: nat)
    requires IsDecimalDigit(c)
  {
    c as int - '0' as int
  }

  /** int(s) for a string of decimal digits. */
  function ParseDecimal(s: string): nat
    requires forall k | 0 <= k < |s| :: IsDecimalDigit(s[k])
    decreases |s|
  {
    if s == [] then 0 else ParseDecimal(s[..|s| - 1]) * 10 + DecimalValue(s[|s| - 1])
  }

  /** int(str(n)) == n. */
  lemma {:induction false} ParseDecimalOfDecimal(n: nat)
    ensures ParseDecimal(Decimal(n)) == n
    decreases n
  {
    if n >= 10 {
      ParseDecimalOfDecimal(n / 10);
      var s := Decimal(n);
      assert s[..|s| - 1] == Decimal(n / 10);
    }
  }

  /** Distinct numbers have distinct decimal strings. */
  lemma DecimalInjective(m: nat, n: nat)
    requires Decimal(m) == Decimal(n)
    ensures m == n
  {
    ParseDecimalOfDecimal(m);
    ParseDecimalOfDecimal(n);
  }

  // ---------------------------------------------------------------------------
  // Output names
  // ---------------------------------------------------------------------------

  /** Python's p[:-4]: p without its last four characters, empty when p is shorter. */
  function DropLast4(p: string): string
  {
    if |p| >= 4 then p[..|p| - 4] else []
  }

  /**
   * The path under which the drawing p, processed with the j-th chosen style, is saved:
   * the processed folder, '/', the base name of p without its 4-character extension,
   * the style position j and '.jpg'.
   */
  function ProcessedName(folder: string, p: string, j: nat): string
  {
    folder + "/" + BaseName(DropLast4(p)) + Decimal(j) + ".jpg"
  }

  /** The base name of a path never contains '/'. */
  lemma BaseNameHasNoSlash(x: string)
    ensures '/' !in BaseName(x)
  {
    var b := BaseName(x);
    forall k | 0 <= k < |b| ensures b[k] != '/' {
      assert b[k] == x[RFind(x, '/') + 1 + k];
    }
  }

  lemma DecimalHasNoSlash(n: nat)
    ensures '/' !in Decimal(n)
  {
    var d := Decimal(n);
    forall k | 0 <= k < |d| ensures d[k] != '/' {
      assert IsDecimalDigit(d[k]);
    }
  }

  /** A name made of a slash-free stem, a slash-free middle and '.jpg' is the base name of folder/name. */
  lemma BaseNameOfJpgJoin(folder: string, stem: string, mid: string)
    requires '/' !in stem && '/' !in mid
    ensures BaseName(folder + "/" + stem + mid + ".jpg") == stem + mid + ".jpg"
    ensures folder + "/" + stem + mid + ".jpg" == folder + "/" + (stem + mid + ".jpg")
  {
    BaseNameOfJoin(folder, stem + mid + ".jpg");
    assert folder + "/" + stem + mid + ".jpg" == folder + "/" + (stem + mid + ".jpg");
  }

  /** The processed file lies directly in the folder and is named stem, style position, '.jpg'. */
  lemma ProcessedNameLocation(folder: string, p: string, j: nat)
    ensures var name := ProcessedName(folder, p, j);
      && BaseName(name) == BaseName(DropLast4(p)) + Decimal(j) + ".jpg"
      && name == folder + "/" + BaseName(name)
  {
    BaseNameHasNoSlash(DropLast4(p));
    DecimalHasNoSlash(j);
    BaseNameOfJpgJoin(folder, BaseName(DropLast4(p)), Decimal(j));
  }

  /** Two names folder/stem-mid.jpg that are equal have equal stem-mid parts. */
  lemma SameStemAndMid(folder: string, stem: string, mid: string, stem': string, mid': string)
    requires folder + "/" + stem + mid + ".jpg" == folder + "/" + stem' + mid' + ".jpg"
    ensures stem + mid == stem' + mid'
  {
    var x := folder + "/" + stem + mid + ".jpg";
    assert stem + mid == x[|folder| + 1..|x| - 4];
    assert stem' + mid' == (folder + "/" + stem' + mid' + ".jpg")[|folder| + 1..|x| - 4];
  }

  /** Equal strings ending in one character each have equal prefixes and last characters. */
  lemma SameInitAndLast(s: string, c: char, s': string, c': char)
    requires s + [c] == s' + [c']
    ensures s == s' && c == c'
  {
    assert s == (s + [c])[..|s|];
    assert s' == (s' + [c'])[..|s'|];
    assert c == (s + [c])[|s|];
    assert c' == (s' + [c'])[|s'|];
  }
  /** Every processed picture is picked up as a frame by the movie's jpg filter. */
  lemma ProcessedNameIsFrame(folder: string, p: string, j: nat)
    ensures IsJpg(ProcessedName(folder, p, j))
  {
    var name := ProcessedName(folder, p, j);
    assert name[|name| - 4..] == ".jpg";
    IsJpgIff(name);
  }

  /**
   * The style menu offers ten styles, so a style position is a single digit (0..9) and
   * the processed name determines both the drawing's stem and the style position.
   */
  lemma ProcessedNameDistinct(folder: string, p: string, j: nat, p': string, j': nat)
    requires j < 10 && j' < 10
    requires ProcessedName(folder, p, j) == ProcessedName(folder, p', j')
    ensures j == j'
    ensures BaseName(DropLast4(p)) == BaseName(DropLast4(p'))
  {
    var stem, stem' := BaseName(DropLast4(p)), BaseName(DropLast4(p'));
    var d, d' := Decimal(j), Decimal(j');
    SameStemAndMid(folder, stem, d, stem', d');
    assert d == [d[0]] && d' == [d'[0]];
    SameInitAndLast(stem, d[0], stem', d'[0]);
    DecimalInjective(j, j');
  }

  /** The processed name of a drawing dir/stem.ext with a 4-character extension. */
  lemma ProcessedNameOfDrawing(folder: string, dir: string, stem: string, ext: string, j: nat)
    requires '/' !in stem && |ext| == 4
    ensures ProcessedName(folder, dir + "/" + stem + ext, j) == folder + "/" + stem + Decimal(j) + ".jpg"
  {
    var p := dir + "/" + stem + ext;
    assert DropLast4(p) == dir + "/" + stem;
    BaseNameOfJoin(dir, stem);
  }

  /** A processed name depends only on the stem and style text run together. */
  lemma JpgNameOfParts(folder: string, stem: string, mid: string)
    ensures folder + "/" + stem + mid + ".jpg" == folder + "/" + (stem + mid) + ".jpg"
  {
  }

  /**
   * With more than ten styles (a position of 10 or more) two drawings could be saved under
   * one name: any stem at position 11 and the same stem followed by '1' at position 1.
   */
  lemma ProcessedNameCollidesBeyondTenStyles(folder: string, dir: string, stem: string, ext: string)
    requires '/' !in stem && |ext| == 4
    ensures ProcessedName(folder, dir + "/" + stem + ext, 11) == ProcessedName(folder, dir + "/" + (stem + "1") + ext, 1)
  {
    ProcessedNameOfDrawing(folder, dir, stem, ext, 11);
    ProcessedNameOfDrawing(folder, dir, stem + "1", ext, 1);
    assert Decimal(11) == "11" && Decimal(1) == "1";
    assert stem + Decimal(11) == (stem + "1") + Decimal(1);
    JpgNameOfParts(folder, stem, Decimal(11));
    JpgNameOfParts(folder, stem + "1", Decimal(1));
  }

  /** The path under which the i-th uploaded file is saved: i.png when it will be processed, i.jpg otherwise. */
  function UploadName(folder: string, i: nat, process: bool): string
  {
    PathJoin(folder, Decimal(i) + (if process then ".png" else ".jpg"))
  }

  /** An uploaded file becomes a movie frame directly exactly when it is saved without processing. */
  lemma UploadNameIsFrameIff(folder: string, i: nat, process: bool)
    ensures IsJpg(UploadName(folder, i, process)) <==> !process
  {
    var ext := if process then ".png" else ".jpg";
    var b := Decimal(i) + ext;
    var name := UploadName(folder, i, process);
    assert b[0] != '/';
    assert name[|name| - |b|..] == b;
    assert name[|name| - 4..] == ext;
    IsJpgIff(name);
  }

  /** Two uploads at different positions are saved under different names. */
  lemma UploadNamesDistinct(folder: string, i: nat, i': nat, process: bool)
    requires i != i'
    ensures UploadName(folder, i, process) != UploadName(folder, i', process)
  {
    var ext := if process then ".png" else ".jpg";
    var b, b' := Decimal(i) + ext, Decimal(i') + ext;
    if UploadName(folder, i, process) == UploadName(folder, i', process) {
      PathJoinInjective(folder, b, b');
      assert Decimal(i) == b[..|b| - 4] == b'[..|b'| - 4] == Decimal(i');
      DecimalInjective(i, i');
    }
  }

  /** For i >= 1 and a digit j, the decimal text of 10 * i + j is that of i followed by that of j. */
  lemma DecimalOfShift(i: nat, j: nat)
    requires 1 <= i && j < 10
    ensures Decimal(10 * i + j) == Decimal(i) + Decimal(j)
  {
    var n := 10 * i + j;
    assert n / 10 == i && n % 10 == j;
  }

  /**
   * The two naming schemes share one folder and can meet: the i-th upload saved for
   * processing (dir/i.png) and processed with the j-th style is written to the same path
   * as the (10 * i + j)-th upload saved without processing, so whichever is written later
   * replaces the other (for the folder 'files': tmp/1.png at style 0 and upload 10 are both
   * files/10.jpg).
   */
  lemma ProcessedAndUploadNamesCollide(folder: string, dir: string, ext: string, i: nat, j: nat)
    requires |ext| == 4 && 1 <= i && j < 10
    requires folder != [] && folder[|folder| - 1] != '/'
    ensures ProcessedName(folder, dir + "/" + Decimal(i) + ext, j) == UploadName(folder, 10 * i + j, false)
  {
    DecimalHasNoSlash(i);
    ProcessedNameOfDrawing(folder, dir, Decimal(i), ext, j);
    DecimalOfShift(i, j);
    var b := Decimal(10 * i + j) + ".jpg";
    assert IsDecimalDigit(b[0]);
    JpgNameOfParts(folder, Decimal(i), Decimal(j));
  }

  /** save_uploadedfiles: the paths written for count uploaded files, in upload order. */
  method UploadPaths(count: nat, folder: string, process: bool) returns (paths: seq<string>)
    ensures |paths| == count
    ensures forall i | 0 <= i < count :: paths[i] == UploadName(folder, i, process)
    ensures forall i, i' | 0 <= i < i' < count :: paths[i] != paths[i']
    ensures forall i | 0 <= i < count :: IsJpg(paths[i]) <==> !process
  {
    paths := [];
    for i := 0 to count
      invariant |paths| == i
      invariant forall k | 0 <= k < i :: paths[k] == UploadName(folder, k, process)
    {
      paths := paths + [UploadName(folder, i, process)];
    }
    forall i, i' | 0 <= i < i' < count ensures paths[i] != paths[i'] {
      UploadNamesDistinct(folder, i, i', process);
    }
    forall i | 0 <= i < count ensures IsJpg(paths[i]) <==> !process {
      UploadNameIsFrameIff(folder, i, process);
    }
  }
}
