/** The same-size filter of `open_location`: of the images found in the chosen
    folder, only those whose size equals the first listed image's size become
    rows of the list. Opening each file is abstracted to its known size. */
module ImageFilter {
  import opened Imaging

  /** An image file of the folder with the size `Image.open` reports for it. */
  datatype SourceFile = SourceFile(name: string, size: Size)

  /** `compare_images` on the sizes of its two images: `Some(false)` stands for
      the `False` it returns, `None` for the `None` it falls through to. */
  function CompareImages(inputSize: Size, outputSize: Size): (r: Option<bool>)
    ensures r == Some(false) <==> inputSize != outputSize
    ensures r.None? <==> inputSize == outputSize
  {
    if inputSize != outputSize then Some(false) else None
  }

  /** The files of `files` the filter keeps against the first file's size `first`, in order. */
  function Kept(first: Size, files: seq<SourceFile>): (kept: seq<SourceFile>)
    ensures |kept| <= |files|
    ensures forall f :: f in kept <==> f in files && f.size == first
  {
    if files == [] then []
    else
      var last := files[|files| - 1];
      var keptBefore := Kept(first, files[..|files| - 1]);
      assert forall f :: f in files <==> f in files[..|files| - 1] || f == last;
      if CompareImages(first, last.size) != Some(false) then keptBefore + [last] else keptBefore
  }

  /** The first file is compared with itself, so it is always kept, and first. */
  lemma {:induction false} FirstFileKept(files: seq<SourceFile>)
    requires |files| > 0
    ensures |Kept(files[0].size, files)| > 0 && Kept(files[0].size, files)[0] == files[0]
  {
    if |files| > 1 {
      var init := files[..|files| - 1];
      assert init[0] == files[0];
      FirstFileKept(init);
    }
  }

  /** The filter loop of `open_location` (before `natsorted`): every file is
      compared with the first one listed and appended when the sizes agree. */
  method SameSizeImages(images: seq<SourceFile>) returns (imageList: seq<SourceFile>)
    ensures images == [] ==> imageList == []
    ensures images != [] ==> imageList == Kept(images[0].size, images)
    ensures images != [] ==> imageList[0] == images[0]
  {
    imageList := [];
    var x: seq<SourceFile> := [];
    for n := 0 to |images|
      invariant x == images[..n]
      invariant n == 0 ==> imageList == []
      invariant n > 0 ==> imageList == Kept(images[0].size, images[..n])
    {
      var fileName := images[n];
      x := x + [fileName];
      assert images[..n + 1][..n] == images[..n];
      if CompareImages(x[0].size, fileName.size) != Some(false) {
        imageList := imageList + [fileName];
      }
    }
    assert images[..|images|] == images;
    if images != [] {
      FirstFileKept(images);
    }
  }
}
