/**
 * Routing the file records of one downloaded archive to the output.
 *
 * The archive container itself (download, zip parsing, the file system) is not
 * modelled: each record arrives with the outcomes its I/O calls would have --
 * whether opening it succeeds (and then its content), whether creating its
 * output file succeeds, whether copying into that file succeeds.
 *
 * Single-file mode appends the content of every record that opens, in listing
 * order, to one shared output file. Per-program mode creates the program's
 * directory and then counts the records that open and whose output file can be
 * created; a failed copy is logged but still counted.
 */
module Routing {

  newtype byte = x: int | 0 <= x < 256

  /** The result of opening one record of the archive. */
  datatype OpenOutcome = OpenFailed | Opened(content: seq<byte>)

  /**
   * One file record of an archive, with the outcomes of the calls made on it.
   * `name` stands for the record's `f.Name`, which the program only uses to build
   * the output path; paths are not modelled.
   */
  datatype ArchiveRecord = ArchiveRecord(name: string, open: OpenOutcome, createOk: bool, copyOk: bool)

  /** What per-program mode reports for one archive. */
  datatype DirOutcome =
    | MkdirFailed                   // the program's directory could not be created; no record is looked at
    | Extracted(fileCount: nat)     // the loop ran and counted `fileCount` records

  /** The bytes one record adds to the single output file: its content if it opened, else nothing. */
  function OpenedBytes(rec: ArchiveRecord): seq<byte>
  {
    if rec.open.Opened? then rec.open.content else []
  }

  /** The bytes single-file mode appends for `records`: the contents of the records that opened, in listing order. */
  function Appended(records: seq<ArchiveRecord>): seq<byte>
  {
    if records == [] then [] else OpenedBytes(records[0]) + Appended(records[1..])
  }

  /** Whether per-program mode counts `rec`: it opened and its output file was created. */
  predicate Counted(rec: ArchiveRecord)
  {
    rec.open.Opened? && rec.createOk
  }

  /** How many records per-program mode counts; never more than there are records. */
  function CountExtracted(records: seq<ArchiveRecord>): (n: nat)
    ensures n <= |records|
  {
    if records == [] then 0 else (if Counted(records[0]) then 1 else 0) + CountExtracted(records[1..])
  }

  /** Appending two runs of records appends their bytes one after the other. */
  lemma {:induction false} AppendedDistributes(a: seq<ArchiveRecord>, b: seq<ArchiveRecord>)
    ensures Appended(a + b) == Appended(a) + Appended(b)
  {
    if a != [] {
      assert (a + b)[1..] == a[1..] + b;
      AppendedDistributes(a[1..], b);
    } else {
      assert a + b == b;
    }
  }

  /**
   * Within one archive's loop, and when no other worker writes to the file,
   * each opened record's content lands in the output as one contiguous block,
   * after the blocks of the records listed before it and before those listed after it.
   */
  lemma RecordContiguous(records: seq<ArchiveRecord>, k: nat)
    requires k < |records| && records[k].open.Opened?
    ensures Appended(records) == Appended(records[..k]) + records[k].open.content + Appended(records[k + 1..])
  {
    var before, rest := records[..k], records[k..];
    assert records == before + rest;
    AppendedDistributes(before, rest);
    assert rest[0] == records[k] && rest[1..] == records[k + 1..];
    assert Appended(rest) == records[k].open.content + Appended(records[k + 1..]);
  }

  /** A record that fails to open is skipped: the output is as if it were not in the archive. */
  lemma FailedOpenSkipped(before: seq<ArchiveRecord>, rec: ArchiveRecord, after: seq<ArchiveRecord>)
    requires rec.open.OpenFailed?
    ensures Appended(before + [rec] + after) == Appended(before + after)
  {
    AppendedDistributes(before + [rec], after);
    AppendedDistributes(before, [rec]);
    AppendedDistributes(before, after);
    assert Appended([rec]) == [] by {
      assert [rec][1..] == [];
    }
    assert Appended(before + [rec]) == Appended(before);
  }

  /** Counting two runs of records adds their counts. */
  lemma {:induction false} CountDistributes(a: seq<ArchiveRecord>, b: seq<ArchiveRecord>)
    ensures CountExtracted(a + b) == CountExtracted(a) + CountExtracted(b)
  {
    if a != [] {
      assert (a + b)[1..] == a[1..] + b;
      CountDistributes(a[1..], b);
    } else {
      assert a + b == b;
    }
  }

  /** Every record is counted exactly when every record opens and gets its output file. */
  lemma {:induction false} AllCountedIff(records: seq<ArchiveRecord>)
    ensures CountExtracted(records) == |records| <==> forall i :: 0 <= i < |records| ==> Counted(records[i])
  {
    if records != [] {
      AllCountedIff(records[1..]);
      if forall i :: 0 <= i < |records[1..]| ==> Counted(records[1..][i]) {
        if Counted(records[0]) {
          forall i | 0 <= i < |records|
            ensures Counted(records[i])
          {
            if i > 0 {
              assert records[i] == records[1..][i - 1];
            }
          }
        }
      } else {
        var i :| 0 <= i < |records[1..]| && !Counted(records[1..][i]);
        assert !Counted(records[i + 1]);
      }
    }
  }

  /** The count does not depend on whether the copies succeed: a failed copy is counted all the same. */
  lemma {:induction false} CopyOutcomeIgnored(records: seq<ArchiveRecord>, others: seq<ArchiveRecord>)
    requires |others| == |records|
    requires forall i :: 0 <= i < |records| ==>
               others[i].open == records[i].open && others[i].createOk == records[i].createOk
    ensures CountExtracted(others) == CountExtracted(records)
  {
    if records != [] {
      CopyOutcomeIgnored(records[1..], others[1..]);
    }
  }

  /** The shared output file of single-file mode, as the sequence of bytes written to it. */
  class SingleFile {
    var bytes: seq<byte>

    /** Creating the file truncates it. */
    constructor ()
      ensures bytes == []
    {
      bytes := [];
    }

    /** The single-file loop over one archive's records, skipping those that fail to open. */
    method AppendArchive(records: seq<ArchiveRecord>)
      modifies this
      ensures bytes == old(bytes) + Appended(records)
    {
      for i := 0 to |records|
        invariant bytes == old(bytes) + Appended(records[..i])
      {
        var f := records[i];
        assert records[..i + 1] == records[..i] + [f];
        AppendedDistributes(records[..i], [f]);
        assert [f][1..] == [];
        if f.open.OpenFailed? {
          continue;
        }
        bytes := bytes + f.open.content;
      }
      assert records[..|records|] == records;
    }
  }

  /**
   * Per-program mode for one archive: give up when the program's directory
   * cannot be created, else count the records that open and get an output file.
   */
  method ExtractArchive(mkdirOk: bool, records: seq<ArchiveRecord>) returns (out: DirOutcome)
    ensures !mkdirOk ==> out == MkdirFailed
    ensures mkdirOk ==> out == Extracted(CountExtracted(records))
  {
    if !mkdirOk {
      return MkdirFailed;
    }
    var fileCount := 0;
    for i := 0 to |records|
      invariant fileCount == CountExtracted(records[..i])
    {
      var f := records[i];
      assert records[..i + 1] == records[..i] + [f];
      CountDistributes(records[..i], [f]);
      assert [f][1..] == [];
      if f.open.OpenFailed? {
        continue;
      }
      if !f.createOk {
        continue;
      }
      // A failed copy is only logged; the record is counted regardless.
      fileCount := fileCount + 1;
    }
    assert records[..|records|] == records;
    out := Extracted(fileCount);
  }
}
