/** The `files.ForEach` loop of Program.cs: every snapshot file is processed
    on its own, a failed extraction is reported and skipped, and the loop
    carries on with the next file. Reading and writing files is abstracted to
    the bytes read and a record of each image written. */
module SnapshotBatch {
  import opened ByteSearch
  import opened JpegExtraction

  /** A `.ss` snapshot file: its base name and the bytes read from it. */
  datatype Snapshot = Snapshot(name: string, data: seq<Byte>)

  /** An image written to the `converted` folder under the snapshot's base name. */
  datatype Written = Written(name: string, jpeg: seq<Byte>)

  /** The per-file console verdict, "Done!" or "Failed!". */
  datatype Report = Done | Failed

  /** What one snapshot contributes to the output folder. */
  function Convert(f: Snapshot): seq<Written>
  {
    match Extract(f.data)
    case Jpeg(bytes) => [Written(f.name, bytes)]
    case Error(_) => []
  }

  /** The images the whole batch writes, in file order. */
  function Converted(files: seq<Snapshot>): seq<Written>
  {
    if files == [] then [] else Convert(files[0]) + Converted(files[1..])
  }

  /** The number of snapshots whose extraction fails. */
  function FailureCount(files: seq<Snapshot>): nat
  {
    if files == [] then 0
    else (if Extract(files[0].data).Error? then 1 else 0) + FailureCount(files[1..])
  }

  /** Each file's contribution does not depend on its neighbours: the output
      of a concatenated batch is the concatenation of the outputs. */
  lemma {:induction false} ConvertedAppend(a: seq<Snapshot>, b: seq<Snapshot>)
    ensures Converted(a + b) == Converted(a) + Converted(b)
    decreases |a|
  {
    if a == [] {
      assert a + b == b;
    } else {
      assert (a + b)[0] == a[0];
      assert (a + b)[1..] == a[1..] + b;
      ConvertedAppend(a[1..], b);
    }
  }

  /** Appending one file appends its own contribution. */
  lemma ConvertedSnoc(files: seq<Snapshot>, f: Snapshot)
    ensures Converted(files + [f]) == Converted(files) + Convert(f)
  {
    assert [f][1..] == [];
    ConvertedAppend(files, [f]);
  }

  /** A file whose extraction fails leaves the output as if it were absent,
      wherever it sits in the batch. */
  lemma FailedFileIgnored(a: seq<Snapshot>, f: Snapshot, b: seq<Snapshot>)
    requires Extract(f.data).Error?
    ensures Converted(a + [f] + b) == Converted(a + b)
  {
    ConvertedAppend(a + [f], b);
    ConvertedSnoc(a, f);
    ConvertedAppend(a, b);
  }

  /** Of N files of which K fail, exactly N - K images are written. */
  lemma {:induction false} ConvertedCount(files: seq<Snapshot>)
    ensures |Converted(files)| == |files| - FailureCount(files)
    decreases |files|
  {
    if files != [] {
      ConvertedCount(files[1..]);
    }
  }

  /** An image is written exactly when some snapshot of that name yields it. */
  lemma {:induction false} ConvertedMembers(files: seq<Snapshot>, w: Written)
    ensures w in Converted(files) <==>
      exists f :: f in files && f.name == w.name && Extract(f.data) == Jpeg(w.jpeg)
    decreases |files|
  {
    if files != [] {
      ConvertedMembers(files[1..], w);
      assert forall f :: f in files <==> f == files[0] || f in files[1..];
    }
  }

  /** The body of the loop for one file: extract, write the image on success,
      and report the outcome. */
  method ProcessOne(f: Snapshot) returns (out: seq<Written>, report: Report)
    ensures Extract(f.data).Jpeg? ==> out == [Written(f.name, Extract(f.data).bytes)]
    ensures Extract(f.data).Error? ==> out == []
    ensures out == Convert(f)
    ensures report == Done <==> Extract(f.data).Jpeg?
  {
    var result := Extract(f.data);
    if result.Jpeg? {
      out, report := [Written(f.name, result.bytes)], Done;
    } else {
      out, report := [], Failed;
    }
  }

  /** Runs the extraction on every file in order, collecting the images
      written and one report per file; a failure only skips its own file. */
  method ProcessAll(files: seq<Snapshot>) returns (written: seq<Written>, reports: seq<Report>)
    ensures written == Converted(files)
    ensures |written| == |files| - FailureCount(files)
    ensures |reports| == |files|
    ensures forall i :: 0 <= i < |files| ==>
      (reports[i] == Done <==> Extract(files[i].data).Jpeg?)
  {
    written, reports := [], [];
    var i := 0;
    while i < |files|
      invariant 0 <= i <= |files|
      invariant written == Converted(files[..i])
      invariant |reports| == i
      invariant forall k :: 0 <= k < i ==>
        (reports[k] == Done <==> Extract(files[k].data).Jpeg?)
    {
      var out, report := ProcessOne(files[i]);
      ConvertedSnoc(files[..i], files[i]);
      assert files[..i + 1] == files[..i] + [files[i]];
      written, reports := written + out, reports + [report];
      i := i + 1;
    }
    assert files[..i] == files;
    ConvertedCount(files);
  }
}
