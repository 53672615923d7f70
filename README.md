# FFXV image extractor: marker-bounded JPEG extraction

This project models the core of the FINAL FANTASY XV snapshot image extractor (`Program.cs`). A `.ss` snapshot file is a binary blob with a JPEG thumbnail inside it. The program finds the thumbnail by its markers and writes it out:

- `FindByteSequence` searches a byte buffer for a contiguous byte sequence. A positive direction gives the first occurrence, a negative one gives the last, and direction 0 gives -1.
- For each file, the program looks up the first start-of-image marker `FF D8` and the last end-of-image marker `FF D9`. These are the SOI and EOI markers of ITU-T T.81, Annex B, Table B.1.
- It fails when either marker is missing, or when the end index is not after the start index.
- Otherwise it keeps `data.Skip(start).Take(end - start)`, which is `data[start..end)`.
- The batch loop runs this step on every snapshot. A failure is caught, reported and skipped, and the loop goes on with the next file.

Modules:

- `ByteSearch` (`search.dfy`) holds bytes and occurrences, the models of the span searches `IndexOf` and `LastIndexOf`, `FindByteSequence`, and two scanning loops proved equal to the search functions.
- `JpegExtraction` (`extraction.dfy`) holds the markers, the per-file step `Extract`, and its properties.
- `SnapshotBatch` (`batch.dfy`) holds the loop over files. It is a method whose results are tied to the pure functions `Converted` and `FailureCount`.

Two choices in the model need explaining:

- The code's slice stops before the final `FF D9`, so the extracted image lacks the EOI marker that ends a complete JPEG stream (ITU-T T.81, Annex B). The model keeps the slice as the code writes it. `JpegExtraction.JpegBounds` proves that the output plus `FF D9` equals `data[start..end + 2)`. `JpegExtraction.ExtractDropsEndMarker` shows the output on `00 FF D8 11 22 FF D9 00`: it is `FF D8 11 22`.
- The code throws one untyped exception for all three failures. The model keeps three reasons: `NoStartMarker`, `NoEndMarker` and `InvalidRange`. The program itself only prints "Failed!".

## Model

| member | source | states |
|---|---|---|
| `ByteSearch.IndexOf` | Program.cs:42 | The result is -1 exactly when the pattern occurs nowhere. Otherwise it is an in-bounds index where the pattern occurs, and it occurs at no smaller index. |
| `ByteSearch.LastIndexOf` | Program.cs:45 | The result is -1 exactly when the pattern occurs nowhere. Otherwise it is an in-bounds index where the pattern occurs, and it occurs at no larger index. |
| `ByteSearch.FirstFrom` | Program.cs:42 | The forward search from a given index returns an occurrence at or after it with none in between, or -1 when there is none from there on. |
| `ByteSearch.LastBefore` | Program.cs:45 | The backward search below a bound returns an occurrence below it with none above it, or -1 when there is none below the bound. |
| `ByteSearch.FindByteSequence` | Program.cs:39-49 | Direction 0 always gives -1. Any other direction gives -1 exactly when the sequence is absent. Any other result is an in-bounds occurrence, the first one for a positive direction and the last one for a negative direction. |
| `ByteSearch.ShortInputNotFound` | Program.cs:39-49 | A buffer shorter than the sequence yields -1, so an empty or 1-byte buffer never yields a marker index. |
| `ByteSearch.ScanForward` | Program.cs:42 | The index-by-index forward scan returns exactly `IndexOf`. |
| `ByteSearch.ScanBackward` | Program.cs:45 | The index-by-index backward scan from the last possible start returns exactly `LastIndexOf`. |
| `JpegExtraction.ExtractOutcome` | Program.cs:93-105 | The result is `NoStartMarker` iff `FF D8` is absent. It is `NoEndMarker` iff `FF D8` is present and `FF D9` is absent. It is `InvalidRange` iff both are present and every `FF D9` lies before every `FF D8`. Otherwise it is an image, which happens iff some `FF D8` lies before some `FF D9`. |
| `JpegExtraction.JpegBounds` | Program.cs:94-105 | On success the image is `data[s..e)`, where s is the first `FF D8` and e is the last `FF D9`. Also: `s + 2 <= e` and `e + 2 <= \|data\|`; the image has at least 2 bytes and begins with `FF D8`; appending `FF D9` gives `data[s..e + 2)`; no `FF D8` lies before s and no `FF D9` lies after e. |
| `JpegExtraction.ExtractFromMarkerPositions` | Program.cs:94-105 | For any first start-marker index s and last end-marker index e: s differs from e, and the result is `InvalidRange` when e < s and `data[s..e)` otherwise. |
| `JpegExtraction.ExtractDropsEndMarker` | Program.cs:105 | `00 FF D8 11 22 FF D9 00` yields `FF D8 11 22`, which leaves out the trailing end marker. |
| `JpegExtraction.ExtractRejectsReversedMarkers` | Program.cs:102 | `FF D9 FF D8` is rejected as an invalid range. |
| `JpegExtraction.ExtractUsesLastEndMarker` | Program.cs:98 | `FF D8 FF D9 99 FF D9` is cut at the second, last `FF D9`. |
| `SnapshotBatch.ConvertedAppend` | Program.cs:83-117 | The images written for a concatenated list of files are the images for each part, concatenated. Each file's output depends only on its own bytes and not on its position or neighbours. |
| `SnapshotBatch.ConvertedSnoc` | Program.cs:83-117 | Processing one more file appends exactly that file's own contribution. |
| `SnapshotBatch.ConvertedCount` | Program.cs:83-117 | Of N files of which K fail extraction, exactly N - K images are written. |
| `SnapshotBatch.ConvertedMembers` | Program.cs:91-107 | An image is written iff some snapshot with that name extracts to exactly those bytes. |
| `SnapshotBatch.FailedFileIgnored` | Program.cs:112-116 | A file whose extraction fails changes nothing in the output, wherever it sits in the batch: the images written for `a + [f] + b` are those written for `a + b`. |
| `SnapshotBatch.ProcessOne` | Program.cs:88-116 | On success one file yields exactly one image, named after the file and holding the extracted bytes, and reports "Done". On any failure it yields nothing and reports "Failed", and the failure goes no further. |
| `SnapshotBatch.ProcessAll` | Program.cs:83-117 | The loop writes exactly `Converted(files)`, which is `\|files\| - FailureCount(files)` images. It produces one report per file, and the report is "Done" exactly when that file's extraction succeeds. |

## Left out

- Finding the snapshot folder (`FindSnapshotFolder`, Program.cs:12-37) is left out. It is environment-variable expansion and directory enumeration, with no algorithm to verify.
- Console output and the prompt for a directory (Program.cs:53-70, 82, 85, 123-125) are left out as interactive I/O. The per-file "Done!"/"Failed!" line appears only as a `Report` value.
- File system calls are left out: creating the `converted` folder, listing the `.ss` files, reading and writing bytes, and building paths (Program.cs:73-79, 91, 106-107). A snapshot is modelled as its base name and its bytes, and a written image as a `Written` record carrying that name.
- Opening the output folder with `explorer.exe` (Program.cs:120) is left out because it launches a foreign process.
- The library's behaviour on an empty search sequence is not modelled. The search functions require a non-empty pattern, and the program only searches for 2-byte markers.
- Exceptions and `try`/`catch` are modelled as the `Extraction` result value, not as control flow. An exception from reading or writing a file is outside the model, since file I/O is.
- The enumeration order of files is whatever order the list is given in. `SnapshotBatch.FailedFileIgnored` proves that a failing file contributes nothing wherever it sits in the list. Nothing is proved about the order the file system lists files in.
