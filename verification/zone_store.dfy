/**
 * UpdateRecordInFile: read a zone file, upsert one record and advance the
 * SOA serial, and write the file back only when all of that succeeded.
 */
module ZoneStore {
  import opened Wrappers
  import opened Strconv
  import opened Zonefile
  import opened Upserter

  /** A zone file on disk, through an open handle. */
  class DiskFile {
    var contents: string

    constructor (contents: string)
      ensures this.contents == contents
    {
      this.contents := contents;
    }

    method ReadAll() returns (data: string)
      ensures data == contents
    {
      data := contents;
    }

    /** Truncate to zero length and seek back to the start. */
    method Truncate()
      modifies this
      ensures contents == []
    {
      contents := [];
    }

    /** Write at the current position, which after Truncate is the end of the file. */
    method Write(data: string)
      modifies this
      ensures contents == old(contents) + data
    {
      contents := contents + data;
    }
  }

  /**
   * The file text after the update, or the error that stops it: the saved
   * zone, followed by one newline exactly when an entry was appended.
   */
  function UpdatedContents(lib: Library, text: string, name: string, rtype: string, value: string): Result<string, Error>
  {
    match lib.load(text)
    case None => Failure(LoadFailed)
    case Some(es) =>
      match Upsert(es, name, rtype, value, lib.parseEntry)
      case Failure(err) => Failure(err)
      case Success(u) => Success(lib.save(u.entries) + if u.appended then "\n" else "")
  }

  /**
   * One turn of the loop of UpdateRecordInFile, on entry `i`: set value 0
   * when the entry matches, then check and advance the serial when it is an
   * SOA.
   */
  method ScanEntry(zf: Zone, i: nat, name: string, rtype: string, value: string)
    returns (err: Option<Error>, matched: bool, soa: bool)
    requires i < |zf.entries|
    modifies zf
    ensures err == EntryError(old(zf.entries)[i], name, rtype)
    ensures matched == Matches(old(zf.entries)[i], name, rtype)
    ensures err.None? ==> soa == IsSoa(old(zf.entries)[i])
    ensures err.None? ==> zf.entries == old(zf.entries)[i := Rewrite(old(zf.entries)[i], name, rtype, value)]
  {
    var e := zf.entries[i];
    matched, soa := false, false;
    if e.rtype == rtype && e.domain == name {
      matched := true;
      var ok := zf.SetValue(i, 0, value);
      if !ok {
        return Some(SetValueFailed), matched, soa;
      }
    }
    if e.rtype != "SOA" {
      return None, matched, soa;
    }
    var vs := zf.entries[i].values;
    if |vs| != 7 {
      return Some(MalformedSoa), matched, soa;
    }
    var serial := Atoi(vs[2]);
    if serial.None? {
      return Some(InvalidSerial), matched, soa;
    }
    var _ := zf.SetValue(i, 2, Itoa(Int64Succ(serial.value)));
    soa := true;
    err := None;
  }

  /**
   * The loop of UpdateRecordInFile over the loaded entries, in place: it
   * stops at the first bad entry, or rewrites every entry and reports whether
   * an SOA was seen and whether an entry matched.
   */
  method ScanEntries(zf: Zone, name: string, rtype: string, value: string)
    returns (err: Option<Error>, soaOK: bool, rcrdFnd: bool)
    modifies zf
    ensures err == FirstError(old(zf.entries), name, rtype)
    ensures err.None? ==> soaOK == HasSoa(old(zf.entries)) && rcrdFnd == HasMatch(old(zf.entries), name, rtype)
    ensures err.None? ==> zf.entries == seq(|old(zf.entries)|, k requires 0 <= k < |old(zf.entries)| =>
                                             Rewrite(old(zf.entries)[k], name, rtype, value))
  {
    ghost var original := zf.entries;
    var n := |zf.entries|;
    soaOK, rcrdFnd := false, false;
    for i := 0 to n
      invariant |zf.entries| == |original|
      invariant forall k :: 0 <= k < i ==> zf.entries[k] == Rewrite(original[k], name, rtype, value)
      invariant forall k :: i <= k < |original| ==> zf.entries[k] == original[k]
      invariant forall k :: 0 <= k < i ==> EntryError(original[k], name, rtype).None?
      invariant soaOK == HasSoa(original[..i])
      invariant rcrdFnd == HasMatch(original[..i], name, rtype)
    {
      ghost var e := zf.entries[i];
      assert e == original[i];
      var entryErr, matched, soa := ScanEntry(zf, i, name, rtype, value);
      assert matched == Matches(e, name, rtype);
      rcrdFnd := rcrdFnd || matched;
      if entryErr.Some? {
        FirstErrorAt(original, name, rtype, i);
        return entryErr, soaOK, rcrdFnd;
      }
      assert soa == IsSoa(e);
      soaOK := soaOK || soa;
      HasSoaPrefix(original, i);
      HasMatchPrefix(original, i, name, rtype);
    }
    assert original[..n] == original;
    err := None;
  }

  method UpdateRecordInFile(file: DiskFile, lib: Library, name: string, rtype: string, value: string)
    returns (err: Option<Error>)
    modifies file
    ensures match UpdatedContents(lib, old(file.contents), name, rtype, value)
      case Success(text) => err == None && file.contents == text
      case Failure(e) => err == Some(e) && file.contents == old(file.contents)
  {
    var currentData := file.ReadAll();
    var loaded := lib.load(currentData);
    if loaded.None? {
      return Some(LoadFailed);
    }
    var zf := new Zone(loaded.value);
    var scanErr, soaOK, rcrdFnd := ScanEntries(zf, name, rtype, value);
    if scanErr.Some? {
      return scanErr;
    }
    if !soaOK {
      return Some(MissingSoa);
    }
    if !rcrdFnd {
      var rr := lib.parseEntry(NewEntryLine(name, rtype, value));
      if rr.None? {
        return Some(ParseEntryFailed);
      }
      zf.AddEntry(rr.value);
    }

    file.Truncate();
    file.Write(lib.save(zf.entries));
    if !rcrdFnd {
      file.Write("\n");
    }
    return None;
  }
}
