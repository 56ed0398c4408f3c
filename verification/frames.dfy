/**
 * Frame selection for the movie: of the files in the processed folder (already in
 * modification-time order), only those whose text after the last '.' is 'jpg' become frames.
 */
module Frames {
  import opened FileNames

  /** The jpg files of files, in their input order. */
  function JpgFrames(files: seq<string>): seq<string>
  {
    if files == [] then []
    else (if IsJpg(files[0]) then [files[0]] else []) + JpgFrames(files[1..])
  }

  /** The list comprehension of the movie page: True for each jpg file, False for the others. */
  function JpgMarks(files: seq<string>): (marks: seq<bool>)
  {
    seq(|files|, k requires 0 <= k < |files| => IsJpg(files[k]))
  }

  /** np.sum over a list of booleans: the number of True entries. */
  function CountTrue(marks: seq<bool>): nat
  {
    if marks == [] then 0 else (if marks[0] then 1 else 0) + CountTrue(marks[1..])
  }

  /** The total_frames figure shown on the movie page. */
  function TotalFrames(files: seq<string>): nat
  {
    CountTrue(JpgMarks(files))
  }

  /** Filtering distributes over concatenation: the selection keeps the input order. */
  lemma {:induction false} JpgFramesAppend(a: seq<string>, b: seq<string>)
    ensures JpgFrames(a + b) == JpgFrames(a) + JpgFrames(b)
    decreases |a|
  {
    if a != [] {
      assert (a + b)[1..] == a[1..] + b;
      JpgFramesAppend(a[1..], b);
    } else {
      assert a + b == b;
    }
  }

  /** A file is selected exactly when it is one of the inputs and a jpg. */
  lemma {:induction false} JpgFramesMembers(files: seq<string>)
    ensures forall f :: f in JpgFrames(files) <==> f in files && IsJpg(f)
    decreases |files|
  {
    if files != [] {
      JpgFramesMembers(files[1..]);
      assert files == [files[0]] + files[1..];
    }
  }

  /** The number of selected frames is the total_frames figure the page shows. */
  lemma {:induction false} JpgFramesCount(files: seq<string>)
    ensures |JpgFrames(files)| == TotalFrames(files)
    decreases |files|
  {
    if files != [] {
      JpgFramesCount(files[1..]);
      assert JpgMarks(files)[1..] == JpgMarks(files[1..]);
    }
  }

  /**
   * The accumulation loop of make_seret: each file whose last '.'-field is 'jpg' is
   * appended to the frame list. Reading the image itself is not modelled; a frame is
   * identified by its file name.
   */
  method SelectFrames(files: seq<string>) returns (frames: seq<string>)
    ensures frames == JpgFrames(files)
    ensures forall f :: f in frames <==> f in files && IsJpg(f)
    ensures |frames| == TotalFrames(files)
  {
    frames := [];
    for n := 0 to |files|
      invariant frames == JpgFrames(files[..n])
    {
      var file := files[n];
      var fileFormat := Split(file, '.');
      assert files[..n + 1] == files[..n] + [file];
      JpgFramesAppend(files[..n], [file]);
      if fileFormat[|fileFormat| - 1] == "jpg" {
        frames := frames + [file];
      }
    }
    assert files[..|files|] == files;
    JpgFramesMembers(files);
    JpgFramesCount(files);
  }

  /** When the page reports at least one frame, the movie has at least one frame to size the video from. */
  lemma FramesExistWhenCounted(files: seq<string>)
    requires TotalFrames(files) > 0
    ensures JpgFrames(files) != []
  {
    JpgFramesCount(files);
  }

  /** sort_files lists each file of dir as dir + '/' + name; called with 'files/' this gives 'files//name'. */
  function ListedPath(dir: string, name: string): string
  {
    dir + "/" + name
  }

  /** A listed file whose name ends in '.jpg' passes the frame filter, whatever the directory. */
  lemma ListedJpgIsFrame(dir: string, name: string)
    requires EndsWith(name, ".jpg")
    ensures IsJpg(ListedPath(dir, name))
  {
    var x := ListedPath(dir, name);
    assert x[|x| - 4..] == name[|name| - 4..];
    IsJpgIff(x);
  }

  /**
   * A picture saved by processing, once sort_files lists it from the directory dir it was
   * written to, is selected as a frame of the movie.
   */
  lemma ProcessedFilesAreFrames(files: seq<string>, dir: string, folder: string, p: string, j: nat)
    requires ListedPath(dir, BaseName(ProcessedName(folder, p, j))) in files
    ensures ListedPath(dir, BaseName(ProcessedName(folder, p, j))) in JpgFrames(files)
  {
    ProcessedNameLocation(folder, p, j);
    var b := BaseName(ProcessedName(folder, p, j));
    assert b == BaseName(DropLast4(p)) + Decimal(j) + ".jpg";
    assert b[|b| - 4..] == ".jpg";
    ListedJpgIsFrame(dir, b);
    JpgFramesMembers(files);
  }
}
